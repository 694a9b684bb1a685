/**
 * The part of the Lua runtime that the generated conversions touch: dynamic values,
 * tables as insertion-ordered entry sequences, raw reads and writes, and the
 * string coercion applied when a value is read as a Rust `String`.
 */
module Lua {
  import opened Wrappers

  /** A table key as the generated code uses it: a string, an integer, or (from Lua code) a boolean. */
  datatype Key = KStr(s: string) | KInt(i: int) | KBool(b: bool)

  /** A dynamic Lua value. A table is the sequence of its entries in iteration order. */
  datatype Value =
    | Nil
    | Boolean(b: bool)
    | Integer(i: int)
    | Str(s: string)
    | Table(entries: seq<(Key, Value)>)

  /** The error an rlua conversion reports: source type, target type and an optional message. */
  datatype Error = FromLuaConversionError(from: string, to: string, message: Option<string>)

  /** Lua's name for the type of a value. */
  function TypeName(v: Value): string
  {
    match v
    case Nil => "nil"
    case Boolean(_) => "boolean"
    case Integer(_) => "integer"
    case Str(_) => "string"
    case Table(_) => "table"
  }

  /** A key seen as a value, as `pairs()` hands it out. */
  function KeyValue(k: Key): Value
  {
    match k
    case KStr(s) => Str(s)
    case KInt(i) => Integer(i)
    case KBool(b) => Boolean(b)
  }

  function DigitChar(d: nat): char
    requires d < 10
  {
    "0123456789"[d]
  }

  /** Decimal text of a natural number, most significant digit first. */
  function NatToDecimal(n: nat): (r: string)
    ensures |r| > 0
    decreases n
  {
    if n < 10 then [DigitChar(n)] else NatToDecimal(n / 10) + [DigitChar(n % 10)]
  }

  function IntToDecimal(i: int): string
  {
    if i < 0 then "-" + NatToDecimal(-i) else NatToDecimal(i)
  }

  /**
   * Reading a value as a Rust `String`: strings are taken as they are and integers are
   * coerced to their decimal text, as Lua's string coercion does; anything else fails.
   */
  function CoerceString(v: Value): (r: Result<string, Error>)
    ensures v.Str? ==> r == Ok(v.s)
    ensures r.Err? <==> !(v.Str? || v.Integer?)
  {
    match v
    case Str(s) => Ok(s)
    case Integer(i) => Ok(IntToDecimal(i))
    case _ => Err(FromLuaConversionError(TypeName(v), "String", None))
  }

  /** The set of keys a table holds. */
  function Keys(t: seq<(Key, Value)>): set<Key>
  {
    set i | 0 <= i < |t| :: t[i].0
  }

  /** No key occurs twice and no entry holds nil: what every real Lua table satisfies. */
  ghost predicate WellFormed(t: seq<(Key, Value)>)
  {
    && (forall i, j :: 0 <= i < j < |t| ==> t[i].0 != t[j].0)
    && (forall i :: 0 <= i < |t| ==> t[i].1 != Nil)
  }

  /** `t[k]` (raw read): the value stored under `k`, or nil when there is none. */
  function Get(t: seq<(Key, Value)>, k: Key): Value
  {
    if |t| == 0 then Nil
    else if t[0].0 == k then t[0].1
    else Get(t[1..], k)
  }

  /**
   * `t[k] = v` (raw write): an existing entry for `k` is replaced in place, a new key
   * goes at the end, and writing nil removes the entry.
   */
  function Store(t: seq<(Key, Value)>, k: Key, v: Value): seq<(Key, Value)>
  {
    if |t| == 0 then (if v == Nil then [] else [(k, v)])
    else if t[0].0 == k then (if v == Nil then t[1..] else [(k, v)] + t[1..])
    else [t[0]] + Store(t[1..], k, v)
  }

  lemma {:induction false} GetAbsent(t: seq<(Key, Value)>, k: Key)
    requires k !in Keys(t)
    ensures Get(t, k) == Nil
  {
    if |t| > 0 {
      assert t[0].0 in Keys(t);
      assert Keys(t[1..]) <= Keys(t) by {
        forall x | x in Keys(t[1..]) ensures x in Keys(t) {
          var i :| 0 <= i < |t[1..]| && t[1..][i].0 == x;
          assert t[i + 1].0 == x;
        }
      }
      GetAbsent(t[1..], k);
    }
  }

  /** Reading a well-formed table finds a value exactly for the keys it holds. */
  lemma {:induction false} GetPresent(t: seq<(Key, Value)>, k: Key)
    requires WellFormed(t)
    ensures k in Keys(t) <==> Get(t, k) != Nil
  {
    if |t| == 0 {
    } else if t[0].0 == k {
      assert t[0].1 != Nil;
    } else {
      assert WellFormed(t[1..]);
      GetPresent(t[1..], k);
      assert k in Keys(t) <==> k in Keys(t[1..]) by {
        if k in Keys(t) {
          var i :| 0 <= i < |t| && t[i].0 == k;
          assert t[1..][i - 1].0 == k;
        }
        if k in Keys(t[1..]) {
          var i :| 0 <= i < |t[1..]| && t[1..][i].0 == k;
          assert t[i + 1].0 == k;
        }
      }
    }
  }

  /** Keys of a non-empty table: its head's key and the keys of its tail. */
  lemma KeysCons(t: seq<(Key, Value)>)
    requires |t| > 0
    ensures Keys(t) == {t[0].0} + Keys(t[1..])
  {
    forall x | x in Keys(t) ensures x in {t[0].0} + Keys(t[1..]) {
      var i :| 0 <= i < |t| && t[i].0 == x;
      if i > 0 { assert t[1..][i - 1].0 == x; }
    }
    forall x | x in Keys(t[1..]) ensures x in Keys(t) {
      var i :| 0 <= i < |t[1..]| && t[1..][i].0 == x;
      assert t[i + 1].0 == x;
    }
  }

  /** A non-empty table is well-formed exactly when its head is non-nil, its head key is not in its tail, and its tail is well-formed. */
  lemma WellFormedCons(t: seq<(Key, Value)>)
    requires |t| > 0
    ensures WellFormed(t) <==> t[0].1 != Nil && t[0].0 !in Keys(t[1..]) && WellFormed(t[1..])
  {
    if WellFormed(t) {
      assert WellFormed(t[1..]) by {
        forall i, j | 0 <= i < j < |t[1..]| ensures t[1..][i].0 != t[1..][j].0 {
          assert t[1..][i] == t[i + 1] && t[1..][j] == t[j + 1];
        }
      }
      forall i | 0 <= i < |t[1..]| ensures t[1..][i].0 != t[0].0 {
        assert t[1..][i] == t[i + 1];
      }
    }
    if t[0].1 != Nil && t[0].0 !in Keys(t[1..]) && WellFormed(t[1..]) {
      forall i, j | 0 <= i < j < |t| ensures t[i].0 != t[j].0 {
        assert t[j] == t[1..][j - 1];
        if i == 0 {
          assert t[1..][j - 1].0 in Keys(t[1..]);
        } else {
          assert t[i] == t[1..][i - 1];
        }
      }
      forall i | 0 <= i < |t| ensures t[i].1 != Nil {
        if i > 0 { assert t[i] == t[1..][i - 1]; }
      }
    }
  }

  /** Writing `v` under `k` adds `k` to the table's keys, or removes it when `v` is nil. */
  lemma {:induction false} StoreKeys(t: seq<(Key, Value)>, k: Key, v: Value)
    requires WellFormed(t)
    ensures WellFormed(Store(t, k, v))
    ensures Keys(Store(t, k, v)) == if v == Nil then Keys(t) - {k} else Keys(t) + {k}
  {
    var r := Store(t, k, v);
    if |t| == 0 {
      if v != Nil { KeysCons(r); }
    } else {
      KeysCons(t);
      WellFormedCons(t);
      if t[0].0 == k {
        if v != Nil {
          assert r[1..] == t[1..];
          KeysCons(r);
          WellFormedCons(r);
        }
      } else {
        var rest := Store(t[1..], k, v);
        StoreKeys(t[1..], k, v);
        assert r[1..] == rest && r[0] == t[0];
        KeysCons(r);
        WellFormedCons(r);
      }
    }
  }

  /** A write is seen by the next read of the same key and by no other key. */
  lemma {:induction false} StoreGet(t: seq<(Key, Value)>, k: Key, v: Value, k': Key)
    requires WellFormed(t)
    ensures Get(Store(t, k, v), k') == if k' == k then v else Get(t, k')
  {
    if |t| > 0 {
      KeysCons(t);
      WellFormedCons(t);
      if t[0].0 == k {
        GetAbsent(t[1..], k);
      } else {
        StoreGet(t[1..], k, v, k');
        assert Store(t, k, v)[1..] == Store(t[1..], k, v);
      }
    }
  }

  /** The writes a conversion performs, applied in order to table `t`. */
  function StoreAll(t: seq<(Key, Value)>, ws: seq<(Key, Value)>): seq<(Key, Value)>
  {
    if |ws| == 0 then t
    else var n := |ws| - 1; Store(StoreAll(t, ws[..n]), ws[n].0, ws[n].1)
  }

  /** The value of the last write to `k` in `ws`, or `d` when `ws` never writes `k`. */
  function LastWrite(ws: seq<(Key, Value)>, k: Key, d: Value): Value
  {
    if |ws| == 0 then d
    else var n := |ws| - 1; if ws[n].0 == k then ws[n].1 else LastWrite(ws[..n], k, d)
  }

  /** Last write wins: after a run of writes, each key reads as its last written value. */
  lemma {:induction false} StoreAllGet(t: seq<(Key, Value)>, ws: seq<(Key, Value)>, k: Key)
    requires WellFormed(t)
    ensures WellFormed(StoreAll(t, ws))
    ensures Get(StoreAll(t, ws), k) == LastWrite(ws, k, Get(t, k))
  {
    if |ws| > 0 {
      var n := |ws| - 1;
      StoreAllGet(t, ws[..n], k);
      StoreKeys(StoreAll(t, ws[..n]), ws[n].0, ws[n].1);
      StoreGet(StoreAll(t, ws[..n]), ws[n].0, ws[n].1, k);
    }
  }

  /** When no two writes share a key, the last write to `ws[j].0` is `ws[j]` itself. */
  lemma {:induction false} LastWriteDistinct(ws: seq<(Key, Value)>, j: nat, d: Value)
    requires j < |ws|
    requires forall a, b :: 0 <= a < b < |ws| ==> ws[a].0 != ws[b].0
    ensures LastWrite(ws, ws[j].0, d) == ws[j].1
  {
    var n := |ws| - 1;
    if j < n {
      assert ws[n].0 != ws[j].0;
      assert ws[..n][j] == ws[j];
      LastWriteDistinct(ws[..n], j, d);
    }
  }

  /** A key that no write touches keeps its old value. */
  lemma {:induction false} LastWriteUntouched(ws: seq<(Key, Value)>, k: Key, d: Value)
    requires forall a :: 0 <= a < |ws| ==> ws[a].0 != k
    ensures LastWrite(ws, k, d) == d
  {
    if |ws| > 0 {
      var n := |ws| - 1;
      assert forall a :: 0 <= a < n ==> ws[..n][a] == ws[a];
      LastWriteUntouched(ws[..n], k, d);
    }
  }

  /** The table object `t` that a generated `to_lua` body creates and fills. */
  class LuaTable {
    var entries: seq<(Key, Value)>

    /** `lua.create_table()`: a fresh, empty table. */
    constructor ()
      ensures entries == []
    {
      entries := [];
    }

    /** `t.set(k, v)` / `t.raw_set(k, v)` on a table without a metatable. */
    method Set(k: Key, v: Value)
      modifies this
      ensures entries == Store(old(entries), k, v)
    {
      entries := Store(entries, k, v);
    }
  }
}
