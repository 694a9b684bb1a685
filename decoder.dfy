/**
 * What a derived `FromLua` impl does: the dispatch of `impl_from_lua`, and the generated
 * `from_lua` body, which checks for a table and reads each field from the key the encoder
 * writes, or selects an enum's (key, payload) pair and matches the key against the
 * snake_case variant names.
 */
module Decoder {
  import opened Wrappers
  import opened Lua
  import opened Attrs
  import opened Shape

  /**
   * `impl_from_lua`: as `impl_to_lua`, and moreover an enum with `content` but no `tag`
   * is refused when its decoder is generated.
   */
  function ImplFromLua(input: DeriveInput): (r: Result<Layout, string>)
    ensures r.Ok? ==> Decodable(r.value)
    ensures input.data.DataUnion? ==> r == Err("unions not supported")
    ensures input.data.DataStruct? ==>
              r == if TooManyUnnamed(input.data.fields) then Err(TooManyUnnamedMessage)
                   else Ok(StructLayout(input.ident, input.data.fields))
    ensures input.data.DataEnum? ==>
              (r.Ok? <==> Accepted(input.attrs)
                          && !(Values(RluaItems(input.attrs), "tag") == []
                               && Values(RluaItems(input.attrs), "content") != []))
    ensures input.data.DataEnum? && Accepted(input.attrs)
            && Values(RluaItems(input.attrs), "tag") == [] && Values(RluaItems(input.attrs), "content") != []
            ==> r == Err("can't specify content without key")
  {
    match input.data
    case DataStruct(f) =>
      if TooManyUnnamed(f) then Err(TooManyUnnamedMessage) else Ok(StructLayout(input.ident, f))
    case DataEnum(vs) =>
      ParseAttrsSpec(input.attrs);
      var settings :- ParseAttrs(input.attrs);
      if settings.tag.None? && settings.content.Some? then Err("can't specify content without key")
      else Ok(EnumLayout(input.ident, vs, settings))
    case DataUnion => Err("unions not supported")
  }

  /** A layout a decoder is generated for: never an enum with `content` but no `tag`. */
  predicate Decodable(layout: Layout)
  {
    layout.EnumLayout? ==> !(layout.settings.tag.None? && layout.settings.content.Some?)
  }

  /** The error a struct decoder reports for a value that is not a table. */
  function NotATable(name: string): Error
  {
    FromLuaConversionError("something not a table", name, None)
  }

  /** Reads `t[key]` for each key in order and decodes it; the first failure is the result. */
  function DecodeFields<L>(t: seq<(Key, Value)>, keys: seq<Key>, dec: Value -> Result<L, Error>): (r: Result<seq<L>, Error>)
    ensures r.Ok? <==> forall i :: 0 <= i < |keys| ==> dec(Get(t, keys[i])).Ok?
    ensures r.Ok? ==> |r.value| == |keys| && forall i :: 0 <= i < |keys| ==> dec(Get(t, keys[i])) == Ok(r.value[i])
    ensures r.Err? ==> exists i :: 0 <= i < |keys| && dec(Get(t, keys[i])) == Err(r.error)
                                   && forall j :: 0 <= j < i ==> dec(Get(t, keys[j])).Ok?
  {
    if |keys| == 0 then Ok([])
    else
      var first :- dec(Get(t, keys[0]));
      var rest :- DecodeFields(t, keys[1..], dec);
      Ok([first] + rest)
  }

  /**
   * The (key, payload) pair an enum decoder dispatches on: `t[tag]` and `t[content]` when
   * both are set; `t[tag]` and `t[t[tag]]` with a tag only; otherwise the table's first pair,
   * an empty table being refused.
   */
  function SelectPair(name: string, settings: EnumContainerAttrs, t: seq<(Key, Value)>): (r: Result<(string, Value), Error>)
    requires !(settings.tag.None? && settings.content.Some?)
    ensures settings.tag.Some? ==> (r.Ok? <==> CoerceString(Get(t, KStr(settings.tag.value))).Ok?)
    ensures r.Ok? && settings.tag.Some? ==> CoerceString(Get(t, KStr(settings.tag.value))) == Ok(r.value.0)
    ensures r.Ok? && settings.content.Some? ==> r.value.1 == Get(t, KStr(settings.content.value))
    ensures r.Ok? && settings.tag.Some? && settings.content.None? ==> r.value.1 == Get(t, KStr(r.value.0))
    ensures settings.tag.None? && |t| == 0 ==> r == Err(FromLuaConversionError("table", name, Some("table was empty")))
    ensures settings.tag.None? && |t| > 0 ==> (r.Ok? <==> CoerceString(KeyValue(t[0].0)).Ok?)
    ensures r.Ok? && settings.tag.None? ==> |t| > 0 && CoerceString(KeyValue(t[0].0)) == Ok(r.value.0) && r.value.1 == t[0].1
  {
    match (settings.tag, settings.content)
    case (Some(tag), Some(content)) =>
      var key :- CoerceString(Get(t, KStr(tag)));
      Ok((key, Get(t, KStr(content))))
    case (Some(tag), None) =>
      var key :- CoerceString(Get(t, KStr(tag)));
      Ok((key, Get(t, KStr(key))))
    case (None, None) =>
      if |t| == 0 then Err(FromLuaConversionError("table", name, Some("table was empty")))
      else
        var key :- CoerceString(KeyValue(t[0].0));
        Ok((key, t[0].1))
  }

  /** The first variant whose snake_case name is `key`: the match arm that fires. */
  function FirstMatch(vs: seq<string>, snake: string -> string, key: string): (r: Option<nat>)
    ensures r.Some? ==> r.value < |vs| && snake(vs[r.value]) == key
                        && forall j :: 0 <= j < r.value ==> snake(vs[j]) != key
    ensures r.None? <==> forall j :: 0 <= j < |vs| ==> snake(vs[j]) != key
  {
    if |vs| == 0 then None
    else if snake(vs[0]) == key then Some(0)
    else
      match FirstMatch(vs[1..], snake, key)
      case None => None
      case Some(i) => Some(i + 1)
  }

  /** The error for a key that names no variant. */
  function UnknownVariant(name: string, key: string): Error
  {
    FromLuaConversionError("table", name, Some("unknown variant: " + key))
  }

  function DecodeEnum<L>(name: string, vs: seq<string>, settings: EnumContainerAttrs,
                         dec: Value -> Result<L, Error>, snake: string -> string,
                         t: seq<(Key, Value)>): (r: Result<Instance<L>, Error>)
    requires !(settings.tag.None? && settings.content.Some?)
    ensures SelectPair(name, settings, t).Err? ==> r == Err(SelectPair(name, settings, t).error)
    ensures SelectPair(name, settings, t).Ok?
            && (forall j :: 0 <= j < |vs| ==> snake(vs[j]) != SelectPair(name, settings, t).value.0)
            ==> r == Err(UnknownVariant(name, SelectPair(name, settings, t).value.0))
    ensures r.Ok? ==>
              && SelectPair(name, settings, t).Ok?
              && r.value.VariantValue? && r.value.ident in vs
              && snake(r.value.ident) == SelectPair(name, settings, t).value.0
              && dec(SelectPair(name, settings, t).value.1) == Ok(r.value.payload)
  {
    var pair :- SelectPair(name, settings, t);
    match FirstMatch(vs, snake, pair.0)
    case None => Err(UnknownVariant(name, pair.0))
    case Some(i) =>
      var payload :- dec(pair.1);
      Ok(VariantValue(vs[i], payload))
  }

  /**
   * The generated `from_lua` body. Structs check for a table first; a unit struct then
   * succeeds without reading anything. Enums convert the value to a table first, which
   * fails for any other value.
   */
  function FromLua<L>(layout: Layout, dec: Value -> Result<L, Error>, snake: string -> string, v: Value): (r: Result<Instance<L>, Error>)
    requires Decodable(layout)
    ensures r.Ok? ==> v.Table? && Conforms(layout, r.value)
    ensures layout.StructLayout? && layout.fields.Unit? ==> (r.Ok? <==> v.Table?)
  {
    match layout
    case StructLayout(name, f) =>
      if !v.Table? then Err(NotATable(name))
      else if f.Unit? then Ok(StructValue([]))
      else
        var fields :- DecodeFields(v.entries, FieldKeys(f), dec);
        Ok(StructValue(fields))
    case EnumLayout(name, vs, settings) =>
      if !v.Table? then Err(FromLuaConversionError(TypeName(v), "table", None))
      else DecodeEnum(name, vs, settings, dec, snake, v.entries)
  }

  /** Any value that is not a table is refused, naming the target type. */
  lemma DecodeNonTable<L>(layout: Layout, dec: Value -> Result<L, Error>, snake: string -> string, v: Value)
    requires Decodable(layout) && !v.Table?
    ensures layout.StructLayout? ==> FromLua(layout, dec, snake, v) == Err(NotATable(layout.name))
    ensures layout.EnumLayout? ==> FromLua(layout, dec, snake, v) == Err(FromLuaConversionError(TypeName(v), "table", None))
  {
  }

  /** A unit struct accepts every table, whatever it holds. */
  lemma DecodeUnitAnyTable<L>(name: string, dec: Value -> Result<L, Error>, snake: string -> string, t: seq<(Key, Value)>)
    ensures FromLua(StructLayout(name, Unit), dec, snake, Table(t)) == Ok(StructValue([]))
  {
  }

  /**
   * A named or tuple struct decodes from a table exactly when every field's key decodes, and
   * then field i is what `t[key of field i]` decodes to: its name, or integer i+1.
   */
  lemma DecodeStructFields<L>(name: string, f: Fields, dec: Value -> Result<L, Error>, snake: string -> string, t: seq<(Key, Value)>)
    requires !f.Unit?
    ensures var r := FromLua(StructLayout(name, f), dec, snake, Table(t));
      && (r.Ok? <==> forall i :: 0 <= i < FieldCount(f) ==> dec(Get(t, FieldKeys(f)[i])).Ok?)
      && (r.Ok? ==> r.value.StructValue? && |r.value.fields| == FieldCount(f)
                    && forall i :: 0 <= i < FieldCount(f) ==> dec(Get(t, FieldKeys(f)[i])) == Ok(r.value.fields[i]))
  {
  }

  /** An untagged enum refuses the empty table: "table was empty". */
  lemma DecodeEmptyUntagged<L>(name: string, vs: seq<string>, dec: Value -> Result<L, Error>, snake: string -> string)
    ensures FromLua(EnumLayout(name, vs, Unset), dec, snake, Table([]))
              == Err(FromLuaConversionError("table", name, Some("table was empty")))
  {
  }

  /**
   * Where the payload is read from: `t[content]` when tag and content are set,
   * `t[t[tag]]` with a tag only, the first pair's value otherwise.
   */
  lemma SelectPairSources(name: string, settings: EnumContainerAttrs, t: seq<(Key, Value)>)
    requires !(settings.tag.None? && settings.content.Some?)
    requires SelectPair(name, settings, t).Ok?
    ensures var (key, payload) := SelectPair(name, settings, t).value;
      && (settings.tag.Some? ==> CoerceString(Get(t, KStr(settings.tag.value))) == Ok(key))
      && (settings.tag.Some? && settings.content.Some? ==> payload == Get(t, KStr(settings.content.value)))
      && (settings.tag.Some? && settings.content.None? ==> payload == Get(t, KStr(key)))
      && (settings.tag.None? ==> |t| > 0 && CoerceString(KeyValue(t[0].0)) == Ok(key) && payload == t[0].1)
  {
  }

  /** A selected key equal to no variant's snake_case name gives "unknown variant: <key>". */
  lemma DecodeUnknownVariant<L>(name: string, vs: seq<string>, settings: EnumContainerAttrs,
                                dec: Value -> Result<L, Error>, snake: string -> string,
                                t: seq<(Key, Value)>, key: string, payload: Value)
    requires !(settings.tag.None? && settings.content.Some?)
    requires SelectPair(name, settings, t) == Ok((key, payload))
    requires forall j :: 0 <= j < |vs| ==> snake(vs[j]) != key
    ensures FromLua(EnumLayout(name, vs, settings), dec, snake, Table(t)) == Err(UnknownVariant(name, key))
  {
  }

  /**
   * A selected key that is the snake_case name of variant i, and of no earlier variant,
   * decodes the payload into exactly that variant.
   */
  lemma DecodeMatchedVariant<L>(name: string, vs: seq<string>, settings: EnumContainerAttrs,
                                dec: Value -> Result<L, Error>, snake: string -> string,
                                t: seq<(Key, Value)>, key: string, payload: Value, i: nat)
    requires !(settings.tag.None? && settings.content.Some?)
    requires SelectPair(name, settings, t) == Ok((key, payload))
    requires i < |vs| && snake(vs[i]) == key && forall j :: 0 <= j < i ==> snake(vs[j]) != key
    ensures FromLua(EnumLayout(name, vs, settings), dec, snake, Table(t))
              == match dec(payload) case Ok(p) => Ok(VariantValue(vs[i], p)) case Err(e) => Err(e)
  {
    var m := FirstMatch(vs, snake, key);
    assert m == Some(i);
  }

  /** Whatever an enum decodes to is one of its variants, whose snake_case name is the selected key. */
  lemma DecodedVariantMatchesKey<L>(name: string, vs: seq<string>, settings: EnumContainerAttrs,
                                    dec: Value -> Result<L, Error>, snake: string -> string, t: seq<(Key, Value)>)
    requires !(settings.tag.None? && settings.content.Some?)
    requires FromLua(EnumLayout(name, vs, settings), dec, snake, Table(t)).Ok?
    ensures var r := FromLua(EnumLayout(name, vs, settings), dec, snake, Table(t)).value;
      && SelectPair(name, settings, t).Ok?
      && r.VariantValue? && r.ident in vs && snake(r.ident) == SelectPair(name, settings, t).value.0
      && dec(SelectPair(name, settings, t).value.1) == Ok(r.payload)
  {
    var pair := SelectPair(name, settings, t).value;
    var m := FirstMatch(vs, snake, pair.0);
    assert vs[m.value] in vs;
  }
}
