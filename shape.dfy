/**
 * The explicit shape descriptor that stands in for the derive input: what kind of
 * type is derived, its fields or variants, and its container attributes; the
 * layout both conversions are generated from; and the Rust values they convert.
 */
module Shape {
  import opened Lua
  import opened Attrs

  /** A struct's fields: named (`struct S { a: T }`), positional (`struct S(T)`) or none (`struct S;`). */
  datatype Fields = Named(names: seq<string>) | Unnamed(count: nat) | Unit

  /** The body of the derived type. Every enum variant holds exactly one payload: `V(T)`. */
  datatype Data = DataStruct(fields: Fields) | DataEnum(variants: seq<string>) | DataUnion

  /** The input of the derive: the type's identifier, its outer attributes and its body. */
  datatype DeriveInput = DeriveInput(ident: string, attrs: seq<Attribute>, data: Data)

  /** What the generated code is specialised to: a struct's fields, or an enum's variants and settings. */
  datatype Layout =
    | StructLayout(name: string, fields: Fields)
    | EnumLayout(name: string, variants: seq<string>, settings: EnumContainerAttrs)

  /**
   * A Rust value of the derived type, over leaf values of type `L`: a struct as its
   * field values in declaration order, an enum as its variant and that variant's payload.
   */
  datatype Instance<L> = StructValue(fields: seq<L>) | VariantValue(ident: string, payload: L)

  /** The largest positional index the generators accept: `std::u32::MAX`. */
  const MaxFieldIndex: nat := 0xFFFF_FFFF

  /**
   * Both generators panic on a positional field whose 0-based index exceeds `u32::MAX`,
   * that is on a tuple struct with more than `u32::MAX + 1` fields.
   */
  predicate TooManyUnnamed(f: Fields)
  {
    f.Unnamed? && f.count > MaxFieldIndex + 1
  }

  /** The message of that panic. */
  const TooManyUnnamedMessage: string := "structs with more than 4294967295 unnamed fields can not be supported"

  function FieldCount(f: Fields): nat
  {
    match f
    case Named(names) => |names|
    case Unnamed(n) => n
    case Unit => 0
  }

  /**
   * The table key of each field, shared by the encoder and the decoder: a named field's
   * own name (`stringify!(ident)`), a positional field's 1-based index (`idx + 1`).
   */
  function FieldKeys(f: Fields): (keys: seq<Key>)
    ensures |keys| == FieldCount(f)
  {
    match f
    case Named(names) => seq(|names|, i requires 0 <= i < |names| => KStr(names[i]))
    case Unnamed(n) => seq(n, i => KInt(i + 1))
    case Unit => []
  }

  /** Rust rejects a struct with two fields of the same name. */
  predicate DistinctNames(f: Fields)
  {
    f.Named? ==> forall i, j :: 0 <= i < j < |f.names| ==> f.names[i] != f.names[j]
  }

  /** Field keys never repeat in a struct Rust accepts. */
  lemma FieldKeysDistinct(f: Fields)
    requires DistinctNames(f)
    ensures forall i, j :: 0 <= i < j < |FieldKeys(f)| ==> FieldKeys(f)[i] != FieldKeys(f)[j]
  {
  }

  /** `x` is a value of the type described by `layout`. */
  predicate Conforms<L>(layout: Layout, x: Instance<L>)
  {
    match layout
    case StructLayout(_, f) => x.StructValue? && |x.fields| == FieldCount(f)
    case EnumLayout(_, vs, _) => x.VariantValue? && x.ident in vs
  }

  /** ASCII lower-casing of one character. */
  function LowerChar(c: char): char
  {
    if 'A' <= c <= 'Z' then (c as int + 32) as char else c
  }

  /** `to_lowercase()`, on ASCII text. */
  function Lower(s: string): (r: string)
    ensures |r| == |s|
  {
    if |s| == 0 then [] else [LowerChar(s[0])] + Lower(s[1..])
  }
}
