/**
 * The pieces of Python's built-in behaviour that utils.py relies on:
 * an insertion-ordered `dict` with string keys, `str.split` on a
 * one-character separator, `int()` on a string, and `list()` on a string.
 */
module Builtins {
  import opened Wrappers

  // ---------------------------------------------------------------------
  // dict
  // ---------------------------------------------------------------------

  /**
   * A Python `dict` with string keys. `order` is the insertion order that
   * iteration follows; `items` holds the entries.
   */
  datatype Dict<V> = Dict(order: seq<string>, items: map<string, V>) {

    /** Each key is listed once, and exactly the keys of `items` are listed. */
    predicate Valid() {
      && (forall i, j :: 0 <= i < j < |order| ==> order[i] != order[j])
      && (forall k :: k in items ==> k in order)
      && (forall i :: 0 <= i < |order| ==> order[i] in items)
    }

    /**
     * `d[k] = v` (and `d.update({k: v})`): a new key is appended to the
     * iteration order, an existing key keeps its place and takes the new value.
     */
    function Put(k: string, v: V): (r: Dict<V>)
      requires Valid()
      ensures r.Valid()
    {
      if k in items then Dict(order, items[k := v]) else Dict(order + [k], items[k := v])
    }
  }

  /**
   * `d[k] = v` stores `v` under `k` and leaves every other entry as it was;
   * a new key goes at the end of the iteration order, an existing key keeps
   * its place.
   */
  lemma {:induction false} PutSpec<V>(d: Dict<V>, k: string, v: V)
    requires d.Valid()
    ensures k in d.Put(k, v).items && d.Put(k, v).items[k] == v
    ensures forall x :: x != k ==> (x in d.Put(k, v).items <==> x in d.items)
    ensures forall x :: x != k && x in d.items ==> d.Put(k, v).items[x] == d.items[x]
    ensures d.Put(k, v).order == if k in d.items then d.order else d.order + [k]
  {
  }

  /** `{}` */
  function EmptyDict<V>(): (r: Dict<V>)
    ensures r.Valid() && r.items == map[]
  {
    Dict([], map[])
  }

  // ---------------------------------------------------------------------
  // str.split(sep) and its inverse sep.join(parts)
  // ---------------------------------------------------------------------

  /**
   * `s.split(sep)` for a one-character separator: the pieces between
   * consecutive separators, always at least one (the empty string splits
   * into `[""]`).
   */
  function Split(s: string, sep: char): (r: seq<string>)
    ensures |r| >= 1
  {
    if |s| == 0 then [""]
    else
      var rest := Split(s[1..], sep);
      if s[0] == sep then [""] + rest else [[s[0]] + rest[0]] + rest[1..]
  }

  /** `sep.join(parts)` */
  function Join(parts: seq<string>, sep: char): string {
    if |parts| == 0 then ""
    else if |parts| == 1 then parts[0]
    else parts[0] + [sep] + Join(parts[1..], sep)
  }

  /** Splitting then joining gives the string back, and no piece holds the separator. */
  lemma {:induction false} JoinSplit(s: string, sep: char)
    ensures Join(Split(s, sep), sep) == s
    ensures forall p :: p in Split(s, sep) ==> sep !in p
  {
    if |s| > 0 {
      var rest := Split(s[1..], sep);
      JoinSplit(s[1..], sep);
      assert s == [s[0]] + s[1..];
      if s[0] != sep {
        var parts := Split(s, sep);
        assert parts == [[s[0]] + rest[0]] + rest[1..];
        if |rest| > 1 {
          assert rest == [rest[0]] + rest[1..];
        }
        forall p | p in parts ensures sep !in p {
          if p != [s[0]] + rest[0] {
            assert p in rest;
          } else {
            assert rest[0] in rest;
          }
        }
      }
    }
  }

  /** A string without the separator is a single piece. */
  lemma {:induction false} SplitWithoutSeparator(s: string, sep: char)
    requires sep !in s
    ensures Split(s, sep) == [s]
  {
    if |s| > 0 {
      assert s == [s[0]] + s[1..];
      SplitWithoutSeparator(s[1..], sep);
    }
  }

  /** The text before the first separator is the first piece; the rest is split on its own. */
  lemma {:induction false} SplitAtFirstSeparator(k: string, sep: char, rest: string)
    requires sep !in k
    ensures Split(k + [sep] + rest, sep) == [k] + Split(rest, sep)
  {
    if |k| == 0 {
      assert k + [sep] + rest == [sep] + rest;
      assert ([sep] + rest)[1..] == rest;
    } else {
      var s := k + [sep] + rest;
      assert s[1..] == k[1..] + [sep] + rest;
      assert k == [k[0]] + k[1..];
      SplitAtFirstSeparator(k[1..], sep, rest);
    }
  }

  /** Joining separator-free pieces and splitting again gives the same pieces. */
  lemma {:induction false} SplitJoin(parts: seq<string>, sep: char)
    requires |parts| >= 1
    requires forall i :: 0 <= i < |parts| ==> sep !in parts[i]
    ensures Split(Join(parts, sep), sep) == parts
  {
    if |parts| == 1 {
      SplitWithoutSeparator(parts[0], sep);
    } else {
      SplitJoin(parts[1..], sep);
      SplitAtFirstSeparator(parts[0], sep, Join(parts[1..], sep));
      assert parts == [parts[0]] + parts[1..];
    }
  }

  /** There is one more piece than there are separators. */
  lemma {:induction false} SplitCount(s: string, sep: char)
    ensures |Split(s, sep)| == multiset(s)[sep] + 1
  {
    if |s| > 0 {
      SplitCount(s[1..], sep);
      assert s == [s[0]] + s[1..];
      assert multiset(s) == multiset{s[0]} + multiset(s[1..]);
    }
  }

  // ---------------------------------------------------------------------
  // int(s) and its inverse str(n)
  // ---------------------------------------------------------------------

  predicate IsDigit(c: char) {
    '0' <= c <= '9'
  }

  predicate AllDigits(s: string) {
    forall i :: 0 <= i < |s| ==> IsDigit(s[i])
  }

  function DigitValue(c: char): (d: nat)
    requires IsDigit(c)
    ensures d < 10
  {
    (c as int) - ('0' as int)
  }

  function DigitChar(d: nat): (c: char)
    requires d < 10
    ensures IsDigit(c) && DigitValue(c) == d
  {
    (('0' as int) + d) as char
  }

  /** The number a run of decimal digits denotes (leading zeros allowed). */
  function DigitsValue(ds: string): nat
    requires AllDigits(ds)
  {
    if |ds| == 0 then 0 else 10 * DigitsValue(ds[..|ds| - 1]) + DigitValue(ds[|ds| - 1])
  }

  /** `str(n)` for a natural number: its decimal digits without leading zeros. */
  function NatToString(n: nat): (s: string)
    ensures |s| >= 1 && AllDigits(s)
  {
    if n < 10 then [DigitChar(n)] else NatToString(n / 10) + [DigitChar(n % 10)]
  }

  /** `str(n)` */
  function IntToString(n: int): string {
    if n < 0 then "-" + NatToString(-n) else NatToString(n)
  }

  /** An unsigned run of one or more digits, or None. */
  function ParseNat(ds: string): Option<nat> {
    if |ds| > 0 && AllDigits(ds) then Some(DigitsValue(ds)) else None
  }

  /**
   * `int(s)`: an optional `+` or `-` followed by one or more decimal
   * digits; anything else is a ValueError (None here).
   */
  function ParseInt(s: string): Option<int> {
    if |s| > 0 && (s[0] == '+' || s[0] == '-') then
      match ParseNat(s[1..])
      case None => None
      case Some(m) => Some(if s[0] == '-' then -(m as int) else m as int)
    else
      match ParseNat(s)
      case None => None
      case Some(m) => Some(m as int)
  }

  lemma {:induction false} DigitsValueOfNatToString(n: nat)
    ensures DigitsValue(NatToString(n)) == n
  {
    var s := NatToString(n);
    if n >= 10 {
      DigitsValueOfNatToString(n / 10);
      assert s[..|s| - 1] == NatToString(n / 10);
    }
  }

  /** `int(str(n)) == n` for every integer. */
  lemma {:induction false} ParseIntOfIntToString(n: int)
    ensures ParseInt(IntToString(n)) == Some(n)
  {
    var digits := if n < 0 then NatToString(-n) else NatToString(n);
    DigitsValueOfNatToString(if n < 0 then -n else n);
    if n < 0 {
      assert IntToString(n)[1..] == digits;
    } else {
      assert IsDigit(digits[0]);
    }
  }

  /** A character that is neither a digit nor a leading sign makes `int(s)` fail. */
  lemma {:induction false} ParseIntRejectsNonDigit(s: string, i: nat)
    requires i < |s| && !IsDigit(s[i])
    requires i == 0 ==> s[0] != '+' && s[0] != '-'
    ensures ParseInt(s) == None
  {
    if |s| > 0 && (s[0] == '+' || s[0] == '-') {
      assert s[1..][i - 1] == s[i];
    }
  }

  // ---------------------------------------------------------------------
  // list(s)
  // ---------------------------------------------------------------------

  /** `list(s)`: the one-character strings of `s`, in order. */
  function Chars(s: string): seq<string> {
    seq(|s|, i requires 0 <= i < |s| => [s[i]])
  }

  /** `"".join(parts)` */
  function Concat(parts: seq<string>): string {
    if |parts| == 0 then "" else parts[0] + Concat(parts[1..])
  }

  /** `"".join(list(s)) == s`, and every element of `list(s)` is one character. */
  lemma {:induction false} ConcatChars(s: string)
    ensures |Chars(s)| == |s|
    ensures forall i :: 0 <= i < |s| ==> |Chars(s)[i]| == 1
    ensures Concat(Chars(s)) == s
  {
    if |s| > 0 {
      assert Chars(s)[1..] == Chars(s[1..]);
      ConcatChars(s[1..]);
      assert s == [s[0]] + s[1..];
    }
  }
}
