# rlua-derive conversion policy, modelled in Dafny

The crate derives `ToLua` and `FromLua` for Rust structs and enums. Its derive macros emit
per-type code. This project models what that emitted code does. The model is an
interpreter over an explicit shape descriptor (`Shape.DeriveInput`, resolved to a
`Shape.Layout`).

- **Encoder** (`encoder.dfy`, from `src/to_lua/mod.rs`). `ImplToLua` dispatches on the
  derive input: structs, enums (after their container attributes are parsed), or a refused
  union. The method `ToLua` is the emitted `to_lua` body. It creates a fresh `Lua.LuaTable`
  and writes into it: a named field under its name, a positional field under integer key
  `i+1`, nothing for a unit struct. For an enum it writes the payload under the lower-cased
  `content` or variant name, then, when `tag` is set, `t[tag]` = the lower-cased variant
  name. `ToLua` is proved equal to `Encode`, the same writes folded over an empty table.
- **Decoder** (`decoder.dfy`, from `src/from_lua/mod.rs`). `FromLua` is the emitted
  `from_lua` body, a pure function returning `Ok` or a `FromLuaConversionError`. Structs
  refuse non-tables and read each field from the key the encoder writes. A unit struct
  accepts any table. An enum selects its (key, payload) pair in one of three ways:
  `tag`+`content`, `tag` only (payload at `t[t[tag]]`), or the first pair. It then matches
  the key against each variant's snake_case name.
- **Attribute parser** (`attrs.dfy`, from `src/attrs.rs`). The method
  `ParseEnumContainerAttrs` walks the attributes and the items of each `#[rlua(...)]`
  list, updating `parsed` in place. It is proved equal to the fold `ParseAttrs`.
  `ParseAttrsSpec` characterises the fold declaratively: which lists are accepted, and
  what they yield.
- **Lua tables** (`lua.dfy`). A table is its entry sequence in iteration order. `Store`
  is `t[k] = v`: it replaces an existing entry in place, appends a new key, and removes
  the entry when `v` is nil. `Get` is `t[k]`, nil when absent.
- **Round trip** (`round_trip.dfy`). `decode(encode(x)) == x` holds for structs with
  distinct field names. It holds for enums under the conditions in `EnumKeysAgree`,
  together with a payload that does not encode to nil when no tag is set. Lemmas exhibit
  concrete breakages: a lower-cased name no variant matches, two variants whose names
  collide so that one decodes as the other, a `content` that is not lower case, a tag
  key that overwrites the payload, and a nil untagged payload.

Leaf values (field and payload types) are a type parameter `L`. They have a leaf encoder
`enc: L -> Value` and a leaf decoder `dec: Value -> Result<L, Error>`. The round-trip lemmas
assume `dec(enc(x)) == Ok(x)` (`LeafRoundTrip`). `inflector`'s `to_snake_case` is a
parameter `snake`. `to_lowercase` is ASCII lower-casing (`Shape.Lower`).

Points of the code worth stating, which the model follows:
- The tag value is the variant name passed through `to_lowercase()`, not its snake_case
  form (src/to_lua/mod.rs:138).
- `content` without `tag` panics only in the decoder generator (src/from_lua/mod.rs:139).
  The encoder accepts it.
- The tests use field-level `key`/`index` and container `as_lua_array` (tests/basic.rs:26-31,
  68-72), but src/attrs.rs parses only `tag` and `content`, and nothing else reads them.

## Model

| member | source | states |
|---|---|---|
| `Attrs.ApplyItem` | src/attrs.rs:26-69 | one list item is accepted exactly when it is `tag = "s"` or `content = "s"` and that key is still unset; it then sets exactly that key to `s` |
| `Attrs.ParseEnumContainerAttrs` | src/attrs.rs:11-82 | the in-place loop over attributes and list items returns exactly what the fold `ParseAttrs` returns, including the first error's message |
| `Attrs.ApplyItemsSpec` | src/attrs.rs:24-71 | a list of items is accepted exactly when every item is a setting and neither key ends up given twice; the result holds the one value given per key |
| `Attrs.ParseAttrsSpec` | src/attrs.rs:17-81 | an attribute list is accepted exactly when no `rlua` attribute is a bare path or name-value, every `rlua` list item is a string setting, and each key is given at most once overall; `tag`/`content` are then the values given, or `None` |
| `Attrs.NoRluaAttrs` | src/attrs.rs:12-18 | with no `rlua` attribute (other paths are skipped) the result is `{tag: None, content: None}` |
| `Attrs.RepeatedKeyRejected` | src/attrs.rs:36-57 | a second `tag` (or `content`) anywhere among the `rlua` lists, in the same or another attribute, is an error |
| `Attrs.NonSettingRejected` | src/attrs.rs:28-33 | any list item that is a bare path, a nested list, a literal, a non-string value or an unknown key makes parsing fail |
| `Attrs.AttrOrderIrrelevant` | src/attrs.rs:17-24 | when parsing succeeds, swapping any two adjacent runs of attributes, anywhere in the list, gives the same settings; hence any reordering reachable by such swaps does |
| `Attrs.ItemOrderIrrelevant` | src/attrs.rs:24-25 | when a list is accepted, swapping any two adjacent runs of its items, anywhere in the list, gives the same settings |
| `Lua.StoreAllGet` | src/to_lua/mod.rs:145-149 | after a run of writes, every key reads as its last written value (last write wins), and the table stays well-formed |
| `Lua.LuaTable.Set` | src/to_lua/mod.rs:37 | a write replaces the table's entries by `Store(old entries, k, v)` and changes nothing else |
| `Encoder.ImplToLua` | src/to_lua/mod.rs:9-30 | a union is refused with "unions not supported"; a struct yields its layout, except a tuple struct with more than `u32::MAX + 1` fields, refused with the message of src/to_lua/mod.rs:64-65; an enum yields one exactly when its attributes are accepted and, if it has a variant, any `content` is an identifier (src/to_lua/mod.rs:130-131), with the parsed `tag`/`content`, including `content` without `tag`; a non-identifier `content` is refused with `Ident::new`'s message |
| `Encoder.ToLua` | src/to_lua/mod.rs:32-173 | the emitted `to_lua` body, writing into a fresh table, returns exactly `Encode`, the table obtained by applying the field writes, or the payload write then the tag write, to an empty table |
| `Encoder.EncodeStruct` | src/to_lua/mod.rs:32-104 | a struct's table is well-formed, each field key holds that field's encoded value, no other key holds anything, and its keys are exactly the field keys whose value is not nil |
| `Encoder.EncodeNamed` | src/to_lua/mod.rs:34-40 | a named struct's table holds each field under its own name and nothing under any other string or non-string key |
| `Encoder.EncodeTuple` | src/to_lua/mod.rs:62-70 | a tuple struct with n fields holds field i under integer key i+1 and nothing outside keys 1..n |
| `Encoder.EncodeUnit` | src/to_lua/mod.rs:92-104 | a unit struct encodes to the empty table |
| `Encoder.EncodeEnumUntagged` | src/to_lua/mod.rs:127-150 | without a tag (also with `content` but no tag), an enum's table has exactly one entry: the payload under the lower-cased `content` or variant name (no entry when the payload is nil) |
| `Encoder.EncodeEnumTagged` | src/to_lua/mod.rs:136-148 | with a tag, `t[tag]` is the lower-cased variant name and wins over the payload when the keys coincide; the payload key holds the payload otherwise; nothing else is stored |
| `Decoder.ImplFromLua` | src/from_lua/mod.rs:9-30 | a union is refused with "unions not supported"; a struct yields its layout, except a tuple struct with more than `u32::MAX + 1` fields (src/from_lua/mod.rs:69-70); an enum yields one exactly when its attributes are accepted and do not give `content` without `tag`, which is refused with "can't specify content without key" |
| `Lua.CoerceString` | src/from_lua/mod.rs:131-141 | reading a `String` accepts a string as it is and an integer as its decimal text, and fails exactly on every other value |
| `Decoder.SelectPair` | src/from_lua/mod.rs:129-150 | with a tag, selection succeeds exactly when `t[tag]` reads as a string, which is the key; the payload is `t[content]`, or `t[key]` without `content`; untagged, the empty table is refused with "table was empty", and otherwise the first pair's key, read as a string, and its value are selected |
| `Decoder.DecodeEnum` | src/from_lua/mod.rs:152-175 | a selection error is returned as is; a key matching no variant gives "unknown variant: <key>"; any success is a variant whose snake_case name is the key, holding the decoded payload |
| `Decoder.FromLua` | src/from_lua/mod.rs:45-58 | the emitted `from_lua` bodies (also src/from_lua/mod.rs:84-97, 108-119, 181-187): any decoded value came from a table and has the layout's shape (as many fields as the struct, or one of the enum's variants); a unit struct decodes exactly the tables |
| `Decoder.DecodeFields` | src/from_lua/mod.rs:34-39 | reading fields succeeds exactly when every field's key decodes; the values are those decodings in order; on failure the error is the first failing field's |
| `Decoder.FirstMatch` | src/from_lua/mod.rs:154-164 | the arm that fires is the first variant whose snake_case name is the key; none fires exactly when no variant's name is the key |
| `Decoder.DecodeNonTable` | src/from_lua/mod.rs:48-58 | a struct refuses any non-table with `{from: "something not a table", to: <type name>}`; an enum refuses it converting the value to a table |
| `Decoder.DecodeUnitAnyTable` | src/from_lua/mod.rs:111-112 | a unit struct decodes from every table, whatever its contents |
| `Decoder.DecodeStructFields` | src/from_lua/mod.rs:65-79 | a named or tuple struct decodes exactly when every field decodes from its name or from integer key i+1, and field i is that decoding |
| `Decoder.DecodeEmptyUntagged` | src/from_lua/mod.rs:140-149 | an untagged enum refuses the empty table with "table was empty" |
| `Decoder.SelectPairSources` | src/from_lua/mod.rs:129-150 | the key is `t[tag]` as a string when a tag is set; the payload is `t[content]` with tag and content, `t[t[tag]]` with a tag only, and the first pair's value otherwise |
| `Decoder.DecodeUnknownVariant` | src/from_lua/mod.rs:166-175 | a selected key equal to no variant's snake_case name fails with "unknown variant: <key>" |
| `Decoder.DecodeMatchedVariant` | src/from_lua/mod.rs:159-163 | a key matching variant i (and no earlier one) decodes the payload into exactly variant i, or fails with the payload's own error |
| `Decoder.DecodedVariantMatchesKey` | src/from_lua/mod.rs:154-175 | whatever an enum decodes to is one of its variants, whose snake_case name is the selected key, holding the decoded payload |
| `RoundTrip.ImplFromLuaVersusToLua` | src/from_lua/mod.rs:21-24 | both impls come from the same layout, with two differences: only the decoder refuses `content` without `tag` ("can't specify content without key"), and only the encoder refuses a `content` that is not an identifier (the decoder quotes it as a string, src/from_lua/mod.rs:132) |
| `RoundTrip.StructRoundTrip` | src/from_lua/mod.rs:32-124 | named, tuple and unit structs decode back from their encoding, given leaf round trip |
| `RoundTrip.EnumRoundTrip` | src/from_lua/mod.rs:126-191 | enums whose keys agree decode back from their encoding in all three selection modes (untagged: given a non-nil payload) |
| `RoundTrip.DeriveRoundTrip` | src/lib.rs:12-24 | for every input both derives accept, both see the same layout, and decoding an encoded value gives it back under those conditions |
| `RoundTrip.LowercaseIsNotSnakeCase` | src/from_lua/mod.rs:157 | an untagged variant whose lower-cased name is no variant's snake_case name decodes to "unknown variant: <lower-cased name>" |
| `RoundTrip.FooBarDoesNotRoundTrip` | src/to_lua/mod.rs:144-147 | `FooBar(x)` encodes under "foobar" and, with snake_case "foo_bar", decodes to "unknown variant: foobar" |
| `RoundTrip.WrongVariantDecoded` | src/from_lua/mod.rs:154-164 | an untagged variant whose lower-cased name is the snake_case name of another, earlier-matching variant decodes into that other variant, holding the same payload |
| `RoundTrip.FooBarDecodesAsFoobar` | src/to_lua/mod.rs:144-147 | with variants `FooBar` and `Foobar` (snake_case "foo_bar" and "foobar"), `FooBar(x)` encodes under "foobar" and decodes as `Foobar(x)` |
| `RoundTrip.ContentNotLowercase` | src/from_lua/mod.rs:130-133 | with a `content` that is not lower case and differs from `tag`, the decoder reads nil as the payload, because the encoder wrote it under the lower-cased key |
| `RoundTrip.TagOverwritesPayload` | src/to_lua/mod.rs:146-148 | when the tag key is the payload key, the encoded table holds only the tag entry: the payload is lost |
| `RoundTrip.NilPayloadUntagged` | src/from_lua/mod.rs:140-148 | an untagged variant whose payload encodes to nil encodes to the empty table, which decodes to "table was empty" |

## Left out

- Macro plumbing: `src/lib.rs` token handling, `syn` parsing, `quote!` emission, `TokenStream`, `Span`, `Index`, `stringify!`. The model describes what the emitted code does. An attribute is given as the syntax tree `parse_meta` yields, or `None` when it does not parse.
- The rlua runtime beyond tables: `Context`, allocation failures of `create_table` and `set`, metatables (`get`/`set` behave as `raw_get`/`raw_set`), floats, functions and userdata. The exact wording of rlua's own errors (a non-table converted to a table, a value that is not a string) is represented, not taken from rlua.
- Leaf conversions: all field and payload types share one leaf domain `L` with one encoder and one decoder. Leaf encoding never fails in the model. Leaf round trip is a hypothesis.
- Lua `pairs()` order: the "first pair" is the head of the entry sequence, which is insertion order for tables built by the encoder.
- `to_snake_case` from `inflector` is a parameter. `to_lowercase` is modelled on ASCII only.
- Generic type-parameter bounds (`ToLua + Send`) are a type-level concern.
- Encoder.ImplToLua: which strings are identifiers is proc_macro2's rule, taken as the parameter `isIdent`; the message of the `Ident::new` panic is proc_macro2's fallback wording, not taken from its source.
- Generation-time panics not modelled: a positional field with a name (impossible in Rust). Raw identifiers (`r#type`), whose `stringify!` keeps the `r#`, are not modelled.
- Enum variants with no payload or with several fields: the emitted `V(v)` pattern does not compile for them. Variants are single-payload by construction.
- Field-level `key`/`index` and container `as_lua_array`: no code in src/ parses or implements them.
