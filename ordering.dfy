/**
 * Python's `sorted()` over the keys of an index map, and `unicode()` of an
 * integer index, as the view uses them to enumerate and render its entries.
 */
module Ordering {

  /** Strictly ascending, hence also free of repeats. */
  predicate Increasing(s: seq<real>) {
    forall a, b :: 0 <= a < b < |s| ==> s[a] < s[b]
  }

  /** Every finite non-empty set of keys has a least element. */
  lemma {:induction false} MinimumExists(s: set<real>)
    requires s != {}
    ensures exists m :: m in s && forall y :: y in s ==> m <= y
    decreases |s|
  {
    if forall y :: y !in s {
      assert false;
    }
    var x :| x in s;
    var rest := s - {x};
    if rest == {} {
      forall y | y in s ensures x <= y {
        assert y !in rest;
      }
    } else {
      MinimumExists(rest);
      var m :| m in rest && forall y :: y in rest ==> m <= y;
      var least := if x < m then x else m;
      forall y | y in s ensures least <= y {
        if y != x { assert y in rest; }
      }
      assert least in s;
    }
  }

  /** The least key of a non-empty set. */
  function Least(s: set<real>): (m: real)
    requires s != {}
    ensures m in s && forall y :: y in s ==> m <= y
  {
    MinimumExists(s);
    var m :| m in s && forall y :: y in s ==> m <= y;
    m
  }

  /** The keys of `s` in ascending order: sorted(s). */
  function SortedReals(s: set<real>): (r: seq<real>)
    ensures Increasing(r)
    ensures |r| == |s|
    ensures forall x :: x in r <==> x in s
    decreases |s|
  {
    if s == {} then []
    else
      var m := Least(s);
      var rest := SortedReals(s - {m});
      LeastFirst(s, m, rest);
      [m] + rest
  }

  /** Putting the least key before the sorted others gives the sorted keys. */
  lemma LeastFirst(s: set<real>, m: real, rest: seq<real>)
    requires m in s && forall y :: y in s ==> m <= y
    requires Increasing(rest) && |rest| == |s - {m}|
    requires forall x :: x in rest <==> x in s - {m}
    ensures Increasing([m] + rest)
    ensures |[m] + rest| == |s|
    ensures forall x :: x in [m] + rest <==> x in s
  {
    var r := [m] + rest;
    forall x ensures x in r <==> x in s {
      if x in r && x != m { assert x in rest; }
    }
    forall a, b | 0 <= a < b < |r| ensures r[a] < r[b] {
      var y := rest[b - 1];
      assert r[b] == y;
      if a == 0 {
        assert y in rest;
      } else {
        assert r[a] == rest[a - 1];
      }
    }
  }

  /** The decimal digit character for 0..9. */
  function Digit(d: nat): (c: char)
    requires d < 10
    ensures '0' <= c <= '9' && (c - '0') as nat == d
  {
    ('0' as int + d) as char
  }

  /** unicode(n) for a non-negative integer: its decimal digits, most significant first. */
  function NatToString(n: nat): (s: string)
    ensures |s| >= 1
    ensures forall k :: 0 <= k < |s| ==> '0' <= s[k] <= '9'
    decreases n
  {
    if n < 10 then [Digit(n)] else NatToString(n / 10) + [Digit(n % 10)]
  }

  /** The number a string of decimal digits denotes. */
  function DigitsValue(s: string): nat
    requires forall k :: 0 <= k < |s| ==> '0' <= s[k] <= '9'
    decreases |s|
  {
    if s == [] then 0 else 10 * DigitsValue(s[..|s| - 1]) + (s[|s| - 1] - '0') as nat
  }

  /** Reading back the rendered digits gives the number again. */
  lemma {:induction false} NatToStringRoundTrip(n: nat)
    ensures DigitsValue(NatToString(n)) == n
    decreases n
  {
    var s := NatToString(n);
    if n >= 10 {
      NatToStringRoundTrip(n / 10);
      assert s[..|s| - 1] == NatToString(n / 10);
    }
  }

  /** unicode(i) for an integer: a minus sign before the digits of a negative number. */
  function IntToString(i: int): (s: string)
    ensures |s| >= 1
    ensures s != "-"
    ensures '.' !in s
    ensures s[0] == '-' <==> i < 0
    ensures forall k :: (if i < 0 then 1 else 0) <= k < |s| ==> '0' <= s[k] <= '9'
    ensures i >= 0 ==> DigitsValue(s) == i
    ensures i < 0 ==> DigitsValue(s[1..]) == -i
  {
    var s := if i < 0 then "-" + NatToString(-i) else NatToString(i);
    NatToStringRoundTrip(if i < 0 then -i else i);
    assert i < 0 ==> s[1..] == NatToString(-i);
    s
  }
}
