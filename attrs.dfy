/**
 * The container attributes of an enum: `#[rlua(tag = "...", content = "...")]`.
 * Attributes are modelled as the syntax tree that `parse_meta` yields for them;
 * every `panic!`/`assert!` of the parser is an `Err` carrying its message.
 */
module Attrs {
  import opened Wrappers

  /** A path, as its identifier segments (`rlua` is `["rlua"]`). */
  type Path = seq<string>

  /** A literal: only string literals are accepted as attribute values. */
  datatype Lit = LitStr(value: string) | LitInt(digits: int) | LitBool(flag: bool)

  /** `path`, `path(nested, ...)` or `path = lit`. */
  datatype Meta =
    | MetaPath(path: Path)
    | MetaList(path: Path, nested: seq<NestedMeta>)
    | MetaNameValue(path: Path, lit: Lit)

  /** One item inside a `path(...)` list: a meta or a bare literal. */
  datatype NestedMeta = NestedMetaItem(meta: Meta) | NestedLit(lit: Lit)

  /** An outer attribute: its path and the meta it parses to, `None` when it does not parse. */
  datatype Attribute = Attribute(path: Path, meta: Option<Meta>)

  /** The enum container settings; both start unset. */
  datatype EnumContainerAttrs = EnumContainerAttrs(tag: Option<string>, content: Option<string>)

  const Unset := EnumContainerAttrs(None, None)

  /** `item` sets `key` (`tag` or `content`) to a string. */
  predicate SetsKey(item: NestedMeta, key: string)
  {
    && item.NestedMetaItem?
    && item.meta.MetaNameValue?
    && item.meta.path == [key]
    && item.meta.lit.LitStr?
  }

  /** An item the parser accepts in isolation: `tag = "..."` or `content = "..."`. */
  predicate IsSetting(item: NestedMeta)
  {
    SetsKey(item, "tag") || SetsKey(item, "content")
  }

  /** One item of an `#[rlua(...)]` list applied to the settings gathered so far. */
  function ApplyItem(acc: EnumContainerAttrs, item: NestedMeta): (r: Result<EnumContainerAttrs, string>)
    ensures r.Ok? <==> IsSetting(item)
                       && (SetsKey(item, "tag") ==> acc.tag.None?)
                       && (SetsKey(item, "content") ==> acc.content.None?)
    ensures r.Ok? && SetsKey(item, "tag") ==> r.value == acc.(tag := Some(item.meta.lit.value))
    ensures r.Ok? && SetsKey(item, "content") ==> r.value == acc.(content := Some(item.meta.lit.value))
  {
    match item
    case NestedLit(_) => Err("lit unsuported here")
    case NestedMetaItem(MetaPath(_)) => Err("path unsupported")
    case NestedMetaItem(MetaList(_, _)) => Err("list unsupported")
    case NestedMetaItem(MetaNameValue(p, lit)) =>
      if p == ["tag"] then
        if !lit.LitStr? then Err("tag takes a string")
        else if acc.tag.Some? then Err("more than one `tag` value specified")
        else Ok(acc.(tag := Some(lit.value)))
      else if p == ["content"] then
        if !lit.LitStr? then Err("content takes a string")
        else if acc.content.Some? then Err("more than one `content` value specified")
        else Ok(acc.(content := Some(lit.value)))
      else Err("unknown key")
  }

  /** The items of one list, in order; the first failing item's error is the result. */
  function ApplyItems(acc: EnumContainerAttrs, items: seq<NestedMeta>): Result<EnumContainerAttrs, string>
  {
    if |items| == 0 then Ok(acc)
    else
      var n := |items| - 1;
      var before :- ApplyItems(acc, items[..n]);
      ApplyItem(before, items[n])
  }

  /** One attribute: others than `rlua` and ones that do not parse are skipped. */
  function ApplyAttr(acc: EnumContainerAttrs, attr: Attribute): Result<EnumContainerAttrs, string>
  {
    if attr.path != ["rlua"] then Ok(acc)
    else
      match attr.meta
      case None => Ok(acc)
      case Some(MetaPath(_)) => Err("path")
      case Some(MetaNameValue(_, _)) => Err("name value")
      case Some(MetaList(_, nested)) => ApplyItems(acc, nested)
  }

  /** All attributes, in order, starting from unset settings. */
  function ParseAttrs(attrs: seq<Attribute>): Result<EnumContainerAttrs, string>
  {
    if |attrs| == 0 then Ok(Unset)
    else
      var n := |attrs| - 1;
      var before :- ParseAttrs(attrs[..n]);
      ApplyAttr(before, attrs[n])
  }

  lemma {:induction false} ApplyItemsErrPrefix(acc: EnumContainerAttrs, items: seq<NestedMeta>, i: nat)
    requires i <= |items|
    requires ApplyItems(acc, items[..i]).Err?
    ensures ApplyItems(acc, items) == ApplyItems(acc, items[..i])
    decreases |items| - i
  {
    if i < |items| {
      assert items[..i + 1][..i] == items[..i];
      ApplyItemsErrPrefix(acc, items, i + 1);
    } else {
      assert items[..i] == items;
    }
  }

  lemma {:induction false} ParseAttrsErrPrefix(attrs: seq<Attribute>, i: nat)
    requires i <= |attrs|
    requires ParseAttrs(attrs[..i]).Err?
    ensures ParseAttrs(attrs) == ParseAttrs(attrs[..i])
    decreases |attrs| - i
  {
    if i < |attrs| {
      assert attrs[..i + 1][..i] == attrs[..i];
      ParseAttrsErrPrefix(attrs, i + 1);
    } else {
      assert attrs[..i] == attrs;
    }
  }

  /**
   * `parse_enum_container_attrs`: walks the attributes and the items of each `rlua`
   * list, filling `parsed` in place and stopping at the first rejected item.
   */
  method ParseEnumContainerAttrs(attrs: seq<Attribute>) returns (r: Result<EnumContainerAttrs, string>)
    ensures r == ParseAttrs(attrs)
  {
    var parsed := Unset;
    for i := 0 to |attrs|
      invariant ParseAttrs(attrs[..i]) == Ok(parsed)
    {
      assert attrs[..i + 1][..i] == attrs[..i];
      var attr := attrs[i];
      if attr.path == ["rlua"] {
        match attr.meta {
          case None =>
          case Some(MetaPath(_)) =>
            ParseAttrsErrPrefix(attrs, i + 1);
            return Err("path");
          case Some(MetaNameValue(_, _)) =>
            ParseAttrsErrPrefix(attrs, i + 1);
            return Err("name value");
          case Some(MetaList(_, nested)) =>
            ghost var start := parsed;
            for j := 0 to |nested|
              invariant ApplyItems(start, nested[..j]) == Ok(parsed)
            {
              assert nested[..j + 1][..j] == nested[..j];
              var failure: Option<string> := None;
              match nested[j] {
                case NestedLit(_) =>
                  failure := Some("lit unsuported here");
                case NestedMetaItem(MetaPath(_)) =>
                  failure := Some("path unsupported");
                case NestedMetaItem(MetaList(_, _)) =>
                  failure := Some("list unsupported");
                case NestedMetaItem(MetaNameValue(p, lit)) =>
                  if p == ["tag"] {
                    if lit.LitStr? {
                      var previous := parsed.tag;
                      parsed := parsed.(tag := Some(lit.value));
                      if previous.Some? {
                        failure := Some("more than one `tag` value specified");
                      }
                    } else {
                      failure := Some("tag takes a string");
                    }
                  } else if p == ["content"] {
                    if lit.LitStr? {
                      var previous := parsed.content;
                      parsed := parsed.(content := Some(lit.value));
                      if previous.Some? {
                        failure := Some("more than one `content` value specified");
                      }
                    } else {
                      failure := Some("content takes a string");
                    }
                  } else {
                    failure := Some("unknown key");
                  }
              }
              if failure.Some? {
                ApplyItemsErrPrefix(start, nested, j + 1);
                assert nested[..|nested|] == nested;
                ParseAttrsErrPrefix(attrs, i + 1);
                return Err(failure.value);
              }
            }
            assert nested[..|nested|] == nested;
        }
      }
    }
    assert attrs[..|attrs|] == attrs;
    return Ok(parsed);
  }

  // Declarative reading of the parser: which attribute lists it accepts and what it yields.

  /** The string values that `items` assign to `key`, in order. */
  function Values(items: seq<NestedMeta>, key: string): seq<string>
  {
    if |items| == 0 then []
    else
      var n := |items| - 1;
      Values(items[..n], key) + (if SetsKey(items[n], key) then [items[n].meta.lit.value] else [])
  }

  /** The list nested in an attribute that counts as an `rlua` list, or nothing. */
  function NestedOf(a: Attribute): seq<NestedMeta>
  {
    if a.path == ["rlua"] && a.meta.Some? && a.meta.value.MetaList? then a.meta.value.nested else []
  }

  /** The items of every `rlua` list among `attrs`, concatenated in order. */
  function RluaItems(attrs: seq<Attribute>): seq<NestedMeta>
  {
    if |attrs| == 0 then []
    else
      var n := |attrs| - 1;
      RluaItems(attrs[..n]) + NestedOf(attrs[n])
  }

  /** An `rlua` attribute that parses but is not a list: `#[rlua]` or `#[rlua = ...]`. */
  predicate MalformedRlua(a: Attribute)
  {
    a.path == ["rlua"] && a.meta.Some? && !a.meta.value.MetaList?
  }

  /** A setting already made, plus the further values given for it, make at most one value. */
  predicate AtMostOne(o: Option<string>, vs: seq<string>)
  {
    |vs| + (if o.Some? then 1 else 0) <= 1
  }

  /** The setting after its further values: the one new value if there is one. */
  function Combine(o: Option<string>, vs: seq<string>): Option<string>
  {
    if |vs| == 0 then o else Some(vs[0])
  }

  /** Every item is `tag = "..."` or `content = "..."`. */
  predicate AllSettings(items: seq<NestedMeta>)
  {
    forall j :: 0 <= j < |items| ==> IsSetting(items[j])
  }

  /** No `rlua` attribute is a bare path or a name-value. */
  predicate NoMalformed(attrs: seq<Attribute>)
  {
    forall i :: 0 <= i < |attrs| ==> !MalformedRlua(attrs[i])
  }

  /** What the parser accepts: well-shaped `rlua` attributes, only settings, each key at most once. */
  predicate Accepted(attrs: seq<Attribute>)
  {
    var items := RluaItems(attrs);
    && NoMalformed(attrs)
    && AllSettings(items)
    && |Values(items, "tag")| <= 1
    && |Values(items, "content")| <= 1
  }

  lemma AllSettingsAppend(a: seq<NestedMeta>, b: seq<NestedMeta>)
    ensures AllSettings(a + b) <==> AllSettings(a) && AllSettings(b)
  {
    if AllSettings(a + b) {
      forall j | 0 <= j < |a| ensures IsSetting(a[j]) { assert (a + b)[j] == a[j]; }
      forall j | 0 <= j < |b| ensures IsSetting(b[j]) { assert (a + b)[|a| + j] == b[j]; }
    }
  }

  lemma NoMalformedAppend(a: seq<Attribute>, b: seq<Attribute>)
    ensures NoMalformed(a + b) <==> NoMalformed(a) && NoMalformed(b)
  {
    if NoMalformed(a + b) {
      forall i | 0 <= i < |a| ensures !MalformedRlua(a[i]) { assert (a + b)[i] == a[i]; }
      forall i | 0 <= i < |b| ensures !MalformedRlua(b[i]) { assert (a + b)[|a| + i] == b[i]; }
    }
  }

  lemma {:induction false} ValuesAppend(a: seq<NestedMeta>, b: seq<NestedMeta>, key: string)
    ensures Values(a + b, key) == Values(a, key) + Values(b, key)
  {
    if |b| > 0 {
      var n := |b| - 1;
      assert (a + b)[..|a| + n] == a + b[..n];
      ValuesAppend(a, b[..n], key);
    } else {
      assert a + b == a;
    }
  }

  lemma {:induction false} RluaItemsAppend(a: seq<Attribute>, b: seq<Attribute>)
    ensures RluaItems(a + b) == RluaItems(a) + RluaItems(b)
  {
    if |b| > 0 {
      var n := |b| - 1;
      assert (a + b)[..|a| + n] == a + b[..n];
      RluaItemsAppend(a, b[..n]);
    } else {
      assert a + b == a;
    }
  }

  /** Applying a list of items: accepted exactly when every item is a setting and no key is set twice. */
  lemma {:induction false} ApplyItemsSpec(acc: EnumContainerAttrs, items: seq<NestedMeta>)
    ensures ApplyItems(acc, items).Ok? <==>
              && AllSettings(items)
              && AtMostOne(acc.tag, Values(items, "tag"))
              && AtMostOne(acc.content, Values(items, "content"))
    ensures ApplyItems(acc, items).Ok? ==>
              ApplyItems(acc, items).value
                == EnumContainerAttrs(Combine(acc.tag, Values(items, "tag")),
                                      Combine(acc.content, Values(items, "content")))
  {
    if |items| > 0 {
      var n := |items| - 1;
      var pre := items[..n];
      ApplyItemsSpec(acc, pre);
      assert items == pre + [items[n]];
      AllSettingsAppend(pre, [items[n]]);
    }
  }

  /** Combining the settings gathered so far with one more list's values. */
  lemma CombineAppend(o: Option<string>, p: seq<string>, q: seq<string>)
    requires o == Combine(None, p) && |p| <= 1
    ensures AtMostOne(o, q) <==> |p + q| <= 1
    ensures |p + q| <= 1 ==> Combine(o, q) == Combine(None, p + q)
  {
  }

  /** `Accepted` for a list that ends in attribute `a`, in terms of the list before `a` and `a`'s own items. */
  lemma AcceptedSnoc(pre: seq<Attribute>, a: Attribute)
    ensures RluaItems(pre + [a]) == RluaItems(pre) + NestedOf(a)
    ensures Accepted(pre + [a]) <==>
              && NoMalformed(pre) && !MalformedRlua(a)
              && AllSettings(RluaItems(pre)) && AllSettings(NestedOf(a))
              && |Values(RluaItems(pre), "tag") + Values(NestedOf(a), "tag")| <= 1
              && |Values(RluaItems(pre), "content") + Values(NestedOf(a), "content")| <= 1
    ensures Values(RluaItems(pre + [a]), "tag") == Values(RluaItems(pre), "tag") + Values(NestedOf(a), "tag")
    ensures Values(RluaItems(pre + [a]), "content") == Values(RluaItems(pre), "content") + Values(NestedOf(a), "content")
  {
    var attrs := pre + [a];
    assert attrs[..|attrs| - 1] == pre;
    NoMalformedAppend(pre, [a]);
    AllSettingsAppend(RluaItems(pre), NestedOf(a));
    ValuesAppend(RluaItems(pre), NestedOf(a), "tag");
    ValuesAppend(RluaItems(pre), NestedOf(a), "content");
  }

  lemma ParseAttrsSnoc(pre: seq<Attribute>, a: Attribute, v: EnumContainerAttrs)
    requires ParseAttrs(pre) == Ok(v)
    ensures ParseAttrs(pre + [a]) == ApplyAttr(v, a)
  {
    assert (pre + [a])[..|pre|] == pre;
  }

  /** The step case of `ParseAttrsSpec`, when the attributes before `a` were accepted. */
  lemma ParseAttrsSnocOk(pre: seq<Attribute>, a: Attribute, v: EnumContainerAttrs)
    requires ParseAttrs(pre) == Ok(v) && Accepted(pre)
    requires v == EnumContainerAttrs(Combine(None, Values(RluaItems(pre), "tag")),
                                     Combine(None, Values(RluaItems(pre), "content")))
    ensures ApplyAttr(v, a).Ok? <==> Accepted(pre + [a])
    ensures ApplyAttr(v, a).Ok? ==>
              ApplyAttr(v, a).value
                == EnumContainerAttrs(Combine(None, Values(RluaItems(pre + [a]), "tag")),
                                      Combine(None, Values(RluaItems(pre + [a]), "content")))
  {
    AcceptedSnoc(pre, a);
    var nested := NestedOf(a);
    var ip := RluaItems(pre);
    if a.path == ["rlua"] && a.meta.Some? && a.meta.value.MetaList? {
      assert ApplyAttr(v, a) == ApplyItems(v, nested);
      ApplyItemsSpec(v, nested);
      CombineAppend(v.tag, Values(ip, "tag"), Values(nested, "tag"));
      CombineAppend(v.content, Values(ip, "content"), Values(nested, "content"));
    } else {
      assert nested == [];
      assert Values(nested, "tag") == [] && Values(nested, "content") == [];
      assert Values(ip, "tag") + [] == Values(ip, "tag");
      assert Values(ip, "content") + [] == Values(ip, "content");
    }
  }

  /** The whole attribute list: accepted exactly when `Accepted`, yielding the one value given per key. */
  lemma {:induction false} ParseAttrsSpec(attrs: seq<Attribute>)
    ensures ParseAttrs(attrs).Ok? <==> Accepted(attrs)
    ensures ParseAttrs(attrs).Ok? ==>
              ParseAttrs(attrs).value
                == EnumContainerAttrs(Combine(None, Values(RluaItems(attrs), "tag")),
                                      Combine(None, Values(RluaItems(attrs), "content")))
  {
    if |attrs| > 0 {
      var n := |attrs| - 1;
      var pre, a := attrs[..n], attrs[n];
      assert attrs == pre + [a];
      ParseAttrsSpec(pre);
      if ParseAttrs(pre).Ok? {
        ParseAttrsSnoc(pre, a, ParseAttrs(pre).value);
        ParseAttrsSnocOk(pre, a, ParseAttrs(pre).value);
      } else {
        AcceptedSnoc(pre, a);
      }
    }
  }

  /** With no `rlua` attribute at all, neither `tag` nor `content` is set. */
  lemma {:induction false} NoRluaAttrs(attrs: seq<Attribute>)
    requires forall i :: 0 <= i < |attrs| ==> attrs[i].path != ["rlua"]
    ensures ParseAttrs(attrs) == Ok(Unset)
  {
    if |attrs| > 0 {
      var n := |attrs| - 1;
      assert forall i :: 0 <= i < n ==> attrs[..n][i] == attrs[i];
      NoRluaAttrs(attrs[..n]);
    }
  }

  lemma {:induction false} ValuesAt(items: seq<NestedMeta>, j: nat, key: string)
    requires j < |items| && SetsKey(items[j], key)
    ensures |Values(items, key)| >= 1
  {
    var n := |items| - 1;
    if j < n {
      assert items[..n][j] == items[j];
      ValuesAt(items[..n], j, key);
    }
  }

  /** A key given twice anywhere among the `rlua` lists is rejected, whichever lists the two sit in. */
  lemma RepeatedKeyRejected(attrs: seq<Attribute>, i: nat, j: nat, key: string)
    requires key == "tag" || key == "content"
    requires i < j < |RluaItems(attrs)|
    requires SetsKey(RluaItems(attrs)[i], key) && SetsKey(RluaItems(attrs)[j], key)
    ensures ParseAttrs(attrs).Err?
  {
    var items := RluaItems(attrs);
    assert items == items[..j] + items[j..];
    ValuesAppend(items[..j], items[j..], key);
    assert items[..j][i] == items[i];
    ValuesAt(items[..j], i, key);
    assert items[j..][0] == items[j];
    ValuesAt(items[j..], 0, key);
    ParseAttrsSpec(attrs);
  }

  /** An item that is not `tag = "..."` or `content = "..."` is rejected wherever it stands. */
  lemma NonSettingRejected(attrs: seq<Attribute>, j: nat)
    requires j < |RluaItems(attrs)| && !IsSetting(RluaItems(attrs)[j])
    ensures ParseAttrs(attrs).Err?
  {
    ParseAttrsSpec(attrs);
  }

  /** Two adjacent runs of a list with at most one element in all can be swapped. */
  lemma SwapShort<T>(p: seq<T>, a: seq<T>, b: seq<T>, q: seq<T>)
    requires |p + a + b + q| <= 1
    ensures p + b + a + q == p + a + b + q
  {
    if a != [] {
      assert b == [];
    }
  }

  lemma RluaItems4(p: seq<Attribute>, a: seq<Attribute>, b: seq<Attribute>, q: seq<Attribute>)
    ensures RluaItems(p + a + b + q) == RluaItems(p) + RluaItems(a) + RluaItems(b) + RluaItems(q)
  {
    RluaItemsAppend(p + a + b, q);
    RluaItemsAppend(p + a, b);
    RluaItemsAppend(p, a);
  }

  lemma NoMalformed4(p: seq<Attribute>, a: seq<Attribute>, b: seq<Attribute>, q: seq<Attribute>)
    ensures NoMalformed(p + a + b + q) <==> NoMalformed(p) && NoMalformed(a) && NoMalformed(b) && NoMalformed(q)
  {
    NoMalformedAppend(p + a + b, q);
    NoMalformedAppend(p + a, b);
    NoMalformedAppend(p, a);
  }

  lemma AllSettings4(p: seq<NestedMeta>, a: seq<NestedMeta>, b: seq<NestedMeta>, q: seq<NestedMeta>)
    ensures AllSettings(p + a + b + q) <==> AllSettings(p) && AllSettings(a) && AllSettings(b) && AllSettings(q)
  {
    AllSettingsAppend(p + a + b, q);
    AllSettingsAppend(p + a, b);
    AllSettingsAppend(p, a);
  }

  lemma Values4(p: seq<NestedMeta>, a: seq<NestedMeta>, b: seq<NestedMeta>, q: seq<NestedMeta>, key: string)
    ensures Values(p + a + b + q, key) == Values(p, key) + Values(a, key) + Values(b, key) + Values(q, key)
  {
    ValuesAppend(p + a + b, q, key);
    ValuesAppend(p + a, b, key);
    ValuesAppend(p, a, key);
  }

  /** Swapping two adjacent runs of items changes neither whether they are accepted nor what they yield. */
  lemma SwapItems(p: seq<NestedMeta>, a: seq<NestedMeta>, b: seq<NestedMeta>, q: seq<NestedMeta>)
    ensures AllSettings(p + b + a + q) <==> AllSettings(p + a + b + q)
    ensures |Values(p + b + a + q, "tag")| == |Values(p + a + b + q, "tag")|
    ensures |Values(p + b + a + q, "content")| == |Values(p + a + b + q, "content")|
    ensures |Values(p + a + b + q, "tag")| <= 1 ==> Values(p + b + a + q, "tag") == Values(p + a + b + q, "tag")
    ensures |Values(p + a + b + q, "content")| <= 1 ==> Values(p + b + a + q, "content") == Values(p + a + b + q, "content")
  {
    AllSettings4(p, a, b, q);
    AllSettings4(p, b, a, q);
    Values4(p, a, b, q, "tag");
    Values4(p, b, a, q, "tag");
    Values4(p, a, b, q, "content");
    Values4(p, b, a, q, "content");
    if |Values(p + a + b + q, "tag")| <= 1 {
      SwapShort(Values(p, "tag"), Values(a, "tag"), Values(b, "tag"), Values(q, "tag"));
    }
    if |Values(p + a + b + q, "content")| <= 1 {
      SwapShort(Values(p, "content"), Values(a, "content"), Values(b, "content"), Values(q, "content"));
    }
  }

  /**
   * Settings may be spread over several attributes in any order: swapping two adjacent runs
   * of attributes anywhere in the list changes nothing.
   */
  lemma AttrOrderIrrelevant(p: seq<Attribute>, a: seq<Attribute>, b: seq<Attribute>, q: seq<Attribute>)
    requires ParseAttrs(p + a + b + q).Ok?
    ensures ParseAttrs(p + b + a + q) == ParseAttrs(p + a + b + q)
  {
    ParseAttrsSpec(p + a + b + q);
    ParseAttrsSpec(p + b + a + q);
    RluaItems4(p, a, b, q);
    RluaItems4(p, b, a, q);
    NoMalformed4(p, a, b, q);
    NoMalformed4(p, b, a, q);
    SwapItems(RluaItems(p), RluaItems(a), RluaItems(b), RluaItems(q));
  }

  /** Within one list, swapping two adjacent runs of items anywhere changes nothing either. */
  lemma ItemOrderIrrelevant(acc: EnumContainerAttrs, p: seq<NestedMeta>, a: seq<NestedMeta>,
                            b: seq<NestedMeta>, q: seq<NestedMeta>)
    requires ApplyItems(acc, p + a + b + q).Ok?
    ensures ApplyItems(acc, p + b + a + q) == ApplyItems(acc, p + a + b + q)
  {
    ApplyItemsSpec(acc, p + a + b + q);
    ApplyItemsSpec(acc, p + b + a + q);
    SwapItems(p, a, b, q);
  }
}
