/**
 * What a derived `ToLua` impl does: the dispatch of `impl_to_lua` over the derive input,
 * and the generated `to_lua` body, which creates a table and writes into it one
 * entry per field, or the payload and the tag of an enum variant.
 */
module Encoder {
  import opened Wrappers
  import opened Lua
  import opened Attrs
  import opened Shape

  /**
   * `Ident::new(content)`, run once per variant while the code is generated, panics on a
   * `content` that is not an identifier; `isIdent` is proc_macro2's identifier test.
   */
  predicate ContentPanics(vs: seq<string>, content: Option<string>, isIdent: string -> bool)
  {
    |vs| > 0 && content.Some? && !isIdent(content.value)
  }

  /** The message of that panic. */
  function NotAnIdent(content: string): string
  {
    "\"" + content + "\" is not a valid Ident"
  }

  /**
   * `impl_to_lua`: a struct's code is generated without reading any attribute, an enum's
   * after parsing its container attributes, and a union is refused.
   */
  function ImplToLua(input: DeriveInput, isIdent: string -> bool): (r: Result<Layout, string>)
    ensures input.data.DataUnion? ==> r == Err("unions not supported")
    ensures input.data.DataStruct? ==>
              r == if TooManyUnnamed(input.data.fields) then Err(TooManyUnnamedMessage)
                   else Ok(StructLayout(input.ident, input.data.fields))
    ensures input.data.DataEnum? ==>
              (r.Ok? <==> Accepted(input.attrs)
                          && !ContentPanics(input.data.variants,
                                            Combine(None, Values(RluaItems(input.attrs), "content")), isIdent))
    ensures input.data.DataEnum? && Accepted(input.attrs)
            && ContentPanics(input.data.variants, Combine(None, Values(RluaItems(input.attrs), "content")), isIdent)
            ==> r == Err(NotAnIdent(Values(RluaItems(input.attrs), "content")[0]))
    ensures r.Ok? && input.data.DataEnum? ==>
              && r.value.EnumLayout?
              && r.value.variants == input.data.variants
              && r.value.settings.tag == Combine(None, Values(RluaItems(input.attrs), "tag"))
              && r.value.settings.content == Combine(None, Values(RluaItems(input.attrs), "content"))
  {
    match input.data
    case DataStruct(f) =>
      if TooManyUnnamed(f) then Err(TooManyUnnamedMessage) else Ok(StructLayout(input.ident, f))
    case DataEnum(vs) =>
      ParseAttrsSpec(input.attrs);
      var settings :- ParseAttrs(input.attrs);
      if ContentPanics(vs, settings.content, isIdent) then Err(NotAnIdent(settings.content.value))
      else Ok(EnumLayout(input.ident, vs, settings))
    case DataUnion => Err("unions not supported")
  }

  /** The key an enum payload is written under: `content` if set, else the variant name, lower-cased. */
  function PayloadKey(variant: string, settings: EnumContainerAttrs): string
  {
    Lower(if settings.content.Some? then settings.content.value else variant)
  }

  /** The writes a generated `to_lua` body makes into its fresh table, in order. */
  function Writes<L>(layout: Layout, enc: L -> Value, x: Instance<L>): seq<(Key, Value)>
    requires Conforms(layout, x)
  {
    match layout
    case StructLayout(_, f) =>
      var keys := FieldKeys(f);
      seq(|keys|, i requires 0 <= i < |keys| && i < |x.fields| => (keys[i], enc(x.fields[i])))
    case EnumLayout(_, _, settings) =>
      [(KStr(PayloadKey(x.ident, settings)), enc(x.payload))]
        + (if settings.tag.Some? then [(KStr(settings.tag.value), Str(Lower(x.ident)))] else [])
  }

  /** The table a generated `to_lua` returns: its writes applied to an empty table. */
  function Encode<L>(layout: Layout, enc: L -> Value, x: Instance<L>): Value
    requires Conforms(layout, x)
  {
    Table(StoreAll([], Writes(layout, enc, x)))
  }

  /**
   * The generated `to_lua` body: `let t = lua.create_table()?;`, then `t.raw_set(key, field)`
   * for each field in declaration order, or, for an enum, `t.set(payload key, v)` followed
   * by `t.set(tag, variant name)` when a tag is configured; `Ok(Value::Table(t))`.
   */
  method ToLua<L>(layout: Layout, enc: L -> Value, x: Instance<L>) returns (v: Value)
    requires Conforms(layout, x)
    ensures v == Encode(layout, enc, x)
  {
    var t := new LuaTable();
    match layout {
      case StructLayout(_, f) =>
        var keys := FieldKeys(f);
        ghost var ws := Writes(layout, enc, x);
        for i := 0 to |keys|
          invariant t.entries == StoreAll([], ws[..i])
        {
          assert ws[..i + 1][..i] == ws[..i];
          t.Set(keys[i], enc(x.fields[i]));
        }
        assert ws[..|keys|] == ws;
      case EnumLayout(_, _, settings) =>
        ghost var ws := Writes(layout, enc, x);
        assert ws[..1][..0] == [];
        t.Set(KStr(PayloadKey(x.ident, settings)), enc(x.payload));
        assert t.entries == StoreAll([], ws[..1]);
        if settings.tag.Some? {
          t.Set(KStr(settings.tag.value), Str(Lower(x.ident)));
          assert ws[..1] == ws[..|ws| - 1];
        } else {
          assert ws == ws[..1];
        }
    }
    v := Table(t.entries);
  }

  /**
   * A struct encodes to a well-formed table in which each field's key holds that field's
   * encoded value, no other key holds anything, and the keys are exactly the keys of the
   * fields whose value is not nil.
   */
  lemma EncodeStruct<L>(layout: Layout, enc: L -> Value, x: Instance<L>)
    requires layout.StructLayout? && Conforms(layout, x) && DistinctNames(layout.fields)
    ensures var t := Encode(layout, enc, x).entries; var keys := FieldKeys(layout.fields);
      && WellFormed(t)
      && (forall i :: 0 <= i < |keys| ==> Get(t, keys[i]) == enc(x.fields[i]))
      && (forall k :: k !in keys ==> Get(t, k) == Nil)
      && Keys(t) == set i | 0 <= i < |keys| && enc(x.fields[i]) != Nil :: keys[i]
  {
    var ws := Writes(layout, enc, x);
    var keys := FieldKeys(layout.fields);
    var t := StoreAll([], ws);
    FieldKeysDistinct(layout.fields);
    StoreAllGet([], ws, KBool(false));
    forall i | 0 <= i < |keys| ensures Get(t, keys[i]) == enc(x.fields[i]) {
      StoreAllGet([], ws, keys[i]);
      LastWriteDistinct(ws, i, Nil);
    }
    forall k | k !in keys ensures Get(t, k) == Nil {
      StoreAllGet([], ws, k);
      LastWriteUntouched(ws, k, Nil);
    }
    var expected := set i | 0 <= i < |keys| && enc(x.fields[i]) != Nil :: keys[i];
    forall k ensures k in Keys(t) <==> k in expected {
      GetPresent(t, k);
      if k in keys {
        var i :| 0 <= i < |keys| && keys[i] == k;
        assert Get(t, keys[i]) == enc(x.fields[i]);
      }
    }
  }

  /** A named struct: each field is stored under its own name, e.g. `{is_rusty = true}`. */
  lemma EncodeNamed<L>(name: string, names: seq<string>, enc: L -> Value, fields: seq<L>)
    requires |fields| == |names| && DistinctNames(Named(names))
    ensures var t := Encode(StructLayout(name, Named(names)), enc, StructValue(fields)).entries;
      && WellFormed(t)
      && (forall i :: 0 <= i < |names| ==> Get(t, KStr(names[i])) == enc(fields[i]))
      && (forall k: Key :: k.KStr? && k.s !in names ==> Get(t, k) == Nil)
      && (forall k: Key :: !k.KStr? ==> Get(t, k) == Nil)
  {
    var layout := StructLayout(name, Named(names));
    EncodeStruct(layout, enc, StructValue(fields));
    var keys := FieldKeys(Named(names));
    forall k: Key | k.KStr? && k.s !in names ensures k !in keys {
      forall i | 0 <= i < |keys| ensures keys[i] != k {
        assert names[i] in names;
      }
    }
  }

  /** A tuple struct with n fields: integer key i+1 holds field i, and nothing else is stored. */
  lemma EncodeTuple<L>(name: string, n: nat, enc: L -> Value, fields: seq<L>)
    requires |fields| == n
    ensures var t := Encode(StructLayout(name, Unnamed(n)), enc, StructValue(fields)).entries;
      && WellFormed(t)
      && (forall i :: 0 <= i < n ==> Get(t, KInt(i + 1)) == enc(fields[i]))
      && (forall k: Key :: !(k.KInt? && 1 <= k.i <= n) ==> Get(t, k) == Nil)
  {
    var layout := StructLayout(name, Unnamed(n));
    EncodeStruct(layout, enc, StructValue(fields));
    var keys := FieldKeys(Unnamed(n));
    forall k: Key | !(k.KInt? && 1 <= k.i <= n) ensures k !in keys {
      forall i | 0 <= i < |keys| ensures keys[i] != k {
        assert keys[i] == KInt(i + 1);
      }
    }
  }

  /** A unit struct encodes to the empty table. */
  lemma EncodeUnit<L>(name: string, enc: L -> Value)
    ensures Encode(StructLayout(name, Unit), enc, StructValue([])) == Table([])
  {
  }

  /**
   * Without a tag, an enum encodes to a table with exactly one entry, the payload under the
   * lower-cased `content` or variant name (none when the payload is nil). This holds for
   * `content` without `tag` as well: the encoder never refuses that combination.
   */
  lemma EncodeEnumUntagged<L>(name: string, vs: seq<string>, settings: EnumContainerAttrs,
                              enc: L -> Value, ident: string, payload: L)
    requires settings.tag.None? && ident in vs
    ensures Encode(EnumLayout(name, vs, settings), enc, VariantValue(ident, payload))
              == Table(if enc(payload) == Nil then [] else [(KStr(PayloadKey(ident, settings)), enc(payload))])
  {
    var ws := Writes(EnumLayout(name, vs, settings), enc, VariantValue(ident, payload));
    assert ws == [(KStr(PayloadKey(ident, settings)), enc(payload))];
    assert ws[..0] == [];
    assert StoreAll([], ws[..0]) == [];
    assert StoreAll([], ws) == Store([], KStr(PayloadKey(ident, settings)), enc(payload));
  }

  /**
   * With a tag, the tag key holds the lower-cased variant name, written after the payload, so
   * it wins when the two keys are the same; the payload key holds the payload otherwise, and
   * nothing else is stored.
   */
  lemma EncodeEnumTagged<L>(name: string, vs: seq<string>, settings: EnumContainerAttrs,
                            enc: L -> Value, ident: string, payload: L)
    requires settings.tag.Some? && ident in vs
    ensures var t := Encode(EnumLayout(name, vs, settings), enc, VariantValue(ident, payload)).entries;
      var tag := KStr(settings.tag.value);
      var pk := KStr(PayloadKey(ident, settings));
      && WellFormed(t)
      && Get(t, tag) == Str(Lower(ident))
      && Get(t, pk) == (if pk == tag then Str(Lower(ident)) else enc(payload))
      && (forall k :: k != tag && k != pk ==> Get(t, k) == Nil)
  {
    var ws := Writes(EnumLayout(name, vs, settings), enc, VariantValue(ident, payload));
    var tag := KStr(settings.tag.value);
    var pk := KStr(PayloadKey(ident, settings));
    assert ws == [(pk, enc(payload)), (tag, Str(Lower(ident)))];
    assert ws[..1] == [(pk, enc(payload))] && ws[..1][..0] == [];
    var t1 := Store([], pk, enc(payload));
    var t := StoreAll([], ws);
    assert StoreAll([], ws[..1]) == t1;
    assert t == Store(t1, tag, Str(Lower(ident)));
    StoreKeys([], pk, enc(payload));
    StoreKeys(t1, tag, Str(Lower(ident)));
    StoreGet(t1, tag, Str(Lower(ident)), tag);
    StoreGet(t1, tag, Str(Lower(ident)), pk);
    StoreGet([], pk, enc(payload), pk);
    forall k | k != tag && k != pk ensures Get(t, k) == Nil {
      StoreGet(t1, tag, Str(Lower(ident)), k);
      StoreGet([], pk, enc(payload), k);
    }
  }
}
