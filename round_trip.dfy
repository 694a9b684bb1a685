/**
 * How the derived `ToLua` and `FromLua` impls fit together: when decoding an encoded
 * value gives the value back, and the inputs for which it does not.
 */
module RoundTrip {
  import opened Wrappers
  import opened Lua
  import opened Attrs
  import opened Shape
  import opened Encoder
  import opened Decoder

  /** The leaf conversions undo each other: `FromLua(ToLua(x)) == Ok(x)` for every leaf value. */
  ghost predicate LeafRoundTrip<L(!new)>(enc: L -> Value, dec: Value -> Result<L, Error>)
  {
    forall x :: dec(enc(x)) == Ok(x)
  }

  /**
   * The enum shapes whose encoding the decoder reads back: every variant's lower-cased name
   * is its snake_case name and no two variants lower-case alike, `content` is already lower
   * case, and the tag key is not the key the payload goes under.
   */
  ghost predicate EnumKeysAgree(vs: seq<string>, settings: EnumContainerAttrs, snake: string -> string)
  {
    && (forall i :: 0 <= i < |vs| ==> snake(vs[i]) == Lower(vs[i]))
    && (forall i, j :: 0 <= i < j < |vs| ==> Lower(vs[i]) != Lower(vs[j]))
    && (settings.content.Some? ==> Lower(settings.content.value) == settings.content.value)
    && (settings.tag.Some? ==> forall i :: 0 <= i < |vs| ==> settings.tag.value != PayloadKey(vs[i], settings))
  }

  /**
   * Both impls are generated from the same layout, except that `impl_from_lua` refuses
   * `content` without `tag`, which `impl_to_lua` accepts, and `impl_to_lua` panics on a
   * `content` that is not an identifier, which `impl_from_lua` only quotes as a string.
   */
  lemma ImplFromLuaVersusToLua(input: DeriveInput, isIdent: string -> bool)
    ensures ImplToLua(input, isIdent).Ok? ==>
              ImplFromLua(input)
                == if input.data.DataEnum? && ImplToLua(input, isIdent).value.settings.tag.None?
                      && ImplToLua(input, isIdent).value.settings.content.Some?
                   then Err("can't specify content without key")
                   else ImplToLua(input, isIdent)
    ensures ImplFromLua(input).Ok? ==>
              ImplToLua(input, isIdent)
                == if input.data.DataEnum?
                      && ContentPanics(input.data.variants, ImplFromLua(input).value.settings.content, isIdent)
                   then Err(NotAnIdent(ImplFromLua(input).value.settings.content.value))
                   else ImplFromLua(input)
  {
  }

  /** Struct round trip: named, tuple and unit structs decode back from their encoding. */
  lemma StructRoundTrip<L(!new)>(layout: Layout, enc: L -> Value, dec: Value -> Result<L, Error>,
                           snake: string -> string, x: Instance<L>)
    requires layout.StructLayout? && Conforms(layout, x) && DistinctNames(layout.fields)
    requires LeafRoundTrip(enc, dec)
    ensures FromLua(layout, dec, snake, Encode(layout, enc, x)) == Ok(x)
  {
    var f := layout.fields;
    var t := Encode(layout, enc, x).entries;
    EncodeStruct(layout, enc, x);
    if !f.Unit? {
      DecodeStructFields(layout.name, f, dec, snake, t);
      var r := FromLua(layout, dec, snake, Encode(layout, enc, x));
      forall i | 0 <= i < FieldCount(f) ensures dec(Get(t, FieldKeys(f)[i])) == Ok(x.fields[i]) {
        assert Get(t, FieldKeys(f)[i]) == enc(x.fields[i]);
      }
      assert r.value.fields == x.fields;
    }
  }

  /** The position of a variant in the enum's variant list. */
  lemma VariantIndex(vs: seq<string>, ident: string) returns (i: nat)
    requires ident in vs
    ensures i < |vs| && vs[i] == ident
  {
    i :| 0 <= i < |vs| && vs[i] == ident;
  }

  /**
   * Enum round trip, in all three selection modes, for enums whose keys agree; an untagged
   * enum needs moreover a payload that does not encode to nil.
   */
  lemma EnumRoundTrip<L(!new)>(name: string, vs: seq<string>, settings: EnumContainerAttrs,
                         enc: L -> Value, dec: Value -> Result<L, Error>, snake: string -> string,
                         ident: string, payload: L)
    requires Decodable(EnumLayout(name, vs, settings)) && ident in vs
    requires EnumKeysAgree(vs, settings, snake)
    requires settings.tag.None? ==> enc(payload) != Nil
    requires LeafRoundTrip(enc, dec)
    ensures FromLua(EnumLayout(name, vs, settings), dec, snake,
                    Encode(EnumLayout(name, vs, settings), enc, VariantValue(ident, payload)))
              == Ok(VariantValue(ident, payload))
  {
    var layout := EnumLayout(name, vs, settings);
    var t := Encode(layout, enc, VariantValue(ident, payload)).entries;
    var key := Lower(ident);
    var i := VariantIndex(vs, ident);
    if settings.tag.None? {
      EncodeEnumUntagged(name, vs, settings, enc, ident, payload);
      assert SelectPair(name, settings, t) == Ok((key, enc(payload)));
    } else {
      EncodeEnumTagged(name, vs, settings, enc, ident, payload);
      assert settings.tag.value != PayloadKey(vs[i], settings);
      if settings.content.Some? {
        assert SelectPair(name, settings, t) == Ok((key, enc(payload)));
      } else {
        assert SelectPair(name, settings, t) == Ok((key, enc(payload)));
      }
    }
    DecodeMatchedVariant(name, vs, settings, dec, snake, t, key, enc(payload), i);
  }

  /**
   * The round trip for every type both impls are generated for: structs with distinct field
   * names, and enums whose keys agree (and, untagged, whose payload is not nil).
   */
  lemma DeriveRoundTrip<L(!new)>(input: DeriveInput, isIdent: string -> bool, enc: L -> Value,
                           dec: Value -> Result<L, Error>, snake: string -> string, x: Instance<L>)
    requires ImplToLua(input, isIdent).Ok?
    requires ImplFromLua(input).Ok? && Conforms(ImplFromLua(input).value, x)
    requires input.data.DataStruct? ==> DistinctNames(input.data.fields)
    requires ImplFromLua(input).value.EnumLayout? ==>
               && EnumKeysAgree(input.data.variants, ImplFromLua(input).value.settings, snake)
               && (ImplFromLua(input).value.settings.tag.None? ==> enc(x.payload) != Nil)
    requires LeafRoundTrip(enc, dec)
    ensures ImplToLua(input, isIdent) == ImplFromLua(input)
    ensures var layout := ImplFromLua(input).value;
      FromLua(layout, dec, snake, Encode(layout, enc, x)) == Ok(x)
  {
    var layout := ImplFromLua(input).value;
    ImplFromLuaVersusToLua(input, isIdent);
    match layout {
      case StructLayout(_, _) =>
        StructRoundTrip(layout, enc, dec, snake, x);
      case EnumLayout(name, vs, settings) =>
        EnumRoundTrip(name, vs, settings, enc, dec, snake, x.ident, x.payload);
    }
  }

  /**
   * The encoder writes the lower-cased variant name but the decoder matches snake_case
   * names: an untagged variant whose lower-cased name is no variant's snake_case name
   * (`FooBar`: "foobar" against "foo_bar") does not decode back.
   */
  lemma LowercaseIsNotSnakeCase<L>(name: string, vs: seq<string>, enc: L -> Value, dec: Value -> Result<L, Error>,
                                   snake: string -> string, ident: string, payload: L)
    requires ident in vs && enc(payload) != Nil
    requires forall j :: 0 <= j < |vs| ==> snake(vs[j]) != Lower(ident)
    ensures FromLua(EnumLayout(name, vs, Unset), dec, snake,
                    Encode(EnumLayout(name, vs, Unset), enc, VariantValue(ident, payload)))
              == Err(UnknownVariant(name, Lower(ident)))
  {
    var t := Encode(EnumLayout(name, vs, Unset), enc, VariantValue(ident, payload)).entries;
    EncodeEnumUntagged(name, vs, Unset, enc, ident, payload);
    DecodeUnknownVariant(name, vs, Unset, dec, snake, t, Lower(ident), enc(payload));
  }

  /** The concrete case: `enum E { FooBar(T) }` encodes `FooBar(x)` as `{foobar = x}`, which decodes to "unknown variant: foobar". */
  lemma FooBarDoesNotRoundTrip<L>(name: string, enc: L -> Value, dec: Value -> Result<L, Error>,
                                  snake: string -> string, payload: L)
    requires snake("FooBar") == "foo_bar" && enc(payload) != Nil
    ensures FromLua(EnumLayout(name, ["FooBar"], Unset), dec, snake,
                    Encode(EnumLayout(name, ["FooBar"], Unset), enc, VariantValue("FooBar", payload)))
              == Err(UnknownVariant(name, "foobar"))
  {
    LowerFooBar();
    LowercaseIsNotSnakeCase(name, ["FooBar"], enc, dec, snake, "FooBar", payload);
  }

  /** `"FooBar".to_lowercase()` is "foobar". */
  lemma LowerFooBar()
    ensures Lower("FooBar") == "foobar"
  {
  }

  /**
   * An untagged variant whose lower-cased name is the snake_case name of another variant j,
   * the first to match, decodes into variant j: the value comes back as a different variant.
   */
  lemma WrongVariantDecoded<L(!new)>(name: string, vs: seq<string>, enc: L -> Value, dec: Value -> Result<L, Error>,
                                     snake: string -> string, ident: string, payload: L, j: nat)
    requires ident in vs && enc(payload) != Nil && LeafRoundTrip(enc, dec)
    requires j < |vs| && snake(vs[j]) == Lower(ident) && vs[j] != ident
    requires forall k :: 0 <= k < j ==> snake(vs[k]) != Lower(ident)
    ensures FromLua(EnumLayout(name, vs, Unset), dec, snake,
                    Encode(EnumLayout(name, vs, Unset), enc, VariantValue(ident, payload)))
              == Ok(VariantValue(vs[j], payload))
  {
    var t := Encode(EnumLayout(name, vs, Unset), enc, VariantValue(ident, payload)).entries;
    EncodeEnumUntagged(name, vs, Unset, enc, ident, payload);
    assert SelectPair(name, Unset, t) == Ok((Lower(ident), enc(payload)));
    DecodeMatchedVariant(name, vs, Unset, dec, snake, t, Lower(ident), enc(payload), j);
  }

  /** The concrete case: in `enum E { FooBar(T), Foobar(T) }`, `FooBar(x)` decodes as `Foobar(x)`. */
  lemma FooBarDecodesAsFoobar<L(!new)>(name: string, enc: L -> Value, dec: Value -> Result<L, Error>,
                                       snake: string -> string, payload: L)
    requires snake("FooBar") == "foo_bar" && snake("Foobar") == "foobar"
    requires enc(payload) != Nil && LeafRoundTrip(enc, dec)
    ensures FromLua(EnumLayout(name, ["FooBar", "Foobar"], Unset), dec, snake,
                    Encode(EnumLayout(name, ["FooBar", "Foobar"], Unset), enc, VariantValue("FooBar", payload)))
              == Ok(VariantValue("Foobar", payload))
  {
    var vs := ["FooBar", "Foobar"];
    LowerFooBar();
    assert snake(vs[0]) != Lower("FooBar");
    WrongVariantDecoded(name, vs, enc, dec, snake, "FooBar", payload, 1);
  }

  /**
   * The encoder writes the payload under the lower-cased `content` but the decoder reads
   * `content` as written: with a `content` that is not lower case, the decoder reads nil
   * as the payload.
   */
  lemma ContentNotLowercase<L>(name: string, vs: seq<string>, settings: EnumContainerAttrs,
                               enc: L -> Value, ident: string, payload: L)
    requires settings.tag.Some? && settings.content.Some? && ident in vs
    requires Lower(settings.content.value) != settings.content.value
    requires settings.tag.value != settings.content.value
    ensures SelectPair(name, settings, Encode(EnumLayout(name, vs, settings), enc, VariantValue(ident, payload)).entries)
              == Ok((Lower(ident), Nil))
  {
    EncodeEnumTagged(name, vs, settings, enc, ident, payload);
  }

  /** When the tag key is the payload key, the tag write replaces the payload: only the tag is left. */
  lemma TagOverwritesPayload<L>(name: string, vs: seq<string>, settings: EnumContainerAttrs,
                                enc: L -> Value, ident: string, payload: L)
    requires settings.tag.Some? && ident in vs
    requires settings.tag.value == PayloadKey(ident, settings)
    ensures Encode(EnumLayout(name, vs, settings), enc, VariantValue(ident, payload))
              == Table([(KStr(settings.tag.value), Str(Lower(ident)))])
  {
    var ws := Writes(EnumLayout(name, vs, settings), enc, VariantValue(ident, payload));
    var k := KStr(settings.tag.value);
    assert ws == [(k, enc(payload)), (k, Str(Lower(ident)))];
    assert ws[..1] == [(k, enc(payload))] && ws[..1][..0] == [];
    assert StoreAll([], ws[..1]) == Store([], k, enc(payload));
  }

  /** An untagged variant whose payload encodes to nil encodes to the empty table, which decodes to "table was empty". */
  lemma NilPayloadUntagged<L>(name: string, vs: seq<string>, enc: L -> Value, dec: Value -> Result<L, Error>,
                              snake: string -> string, ident: string, payload: L)
    requires ident in vs && enc(payload) == Nil
    ensures FromLua(EnumLayout(name, vs, Unset), dec, snake,
                    Encode(EnumLayout(name, vs, Unset), enc, VariantValue(ident, payload)))
              == Err(FromLuaConversionError("table", name, Some("table was empty")))
  {
    EncodeEnumUntagged(name, vs, Unset, enc, ident, payload);
  }
}
