/**
 * SQLite's default BINARY collation on TEXT compares the UTF-8 bytes with
 * memcmp, which orders strings lexicographically by code point. This module
 * defines that order on Dafny strings, proves it a strict total order, and
 * builds the strictly ascending, duplicate-free sequence that a
 * `SELECT DISTINCT ... ORDER BY` over a text column produces.
 */
module Collation {

  /** Strict lexicographic order by code point; a proper prefix comes first. */
  predicate Below(a: string, b: string)
  {
    if |a| == 0 then |b| > 0
    else |b| > 0 && (a[0] < b[0] || (a[0] == b[0] && Below(a[1..], b[1..])))
  }

  lemma {:induction false} BelowIrreflexive(a: string)
    ensures !Below(a, a)
  {
    if |a| > 0 {
      BelowIrreflexive(a[1..]);
    }
  }

  lemma {:induction false} BelowTransitive(a: string, b: string, c: string)
    requires Below(a, b) && Below(b, c)
    ensures Below(a, c)
  {
    if |a| > 0 && a[0] == b[0] && b[0] == c[0] {
      BelowTransitive(a[1..], b[1..], c[1..]);
    }
  }

  lemma {:induction false} BelowTotal(a: string, b: string)
    ensures a == b || Below(a, b) || Below(b, a)
  {
    if |a| > 0 && |b| > 0 && a[0] == b[0] {
      BelowTotal(a[1..], b[1..]);
      if a[1..] == b[1..] {
        assert a == [a[0]] + a[1..] && b == [b[0]] + b[1..];
      }
    }
  }

  lemma BelowAsymmetric(a: string, b: string)
    requires Below(a, b)
    ensures !Below(b, a) && a != b
  {
    BelowIrreflexive(a);
    if Below(b, a) {
      BelowTransitive(a, b, a);
    }
  }

  /** Ascending without duplicates. */
  predicate StrictlySorted(s: seq<string>)
  {
    forall i, j :: 0 <= i < j < |s| ==> Below(s[i], s[j])
  }

  function Elements(s: seq<string>): set<string>
  {
    set x | x in s
  }

  lemma ElementsEmpty(s: seq<string>)
    ensures Elements(s) == {} <==> s == []
  {
    if s != [] {
      assert s[0] in Elements(s);
    }
  }

  /** A strictly sorted sequence holds each of its elements exactly once. */
  lemma StrictlySortedDistinct(s: seq<string>)
    requires StrictlySorted(s)
    ensures forall i, j :: 0 <= i < j < |s| ==> s[i] != s[j]
  {
    forall i, j | 0 <= i < j < |s| ensures s[i] != s[j] {
      BelowAsymmetric(s[i], s[j]);
    }
  }

  /** Adds `x` at its place in a strictly sorted sequence unless already present. */
  function InsertSorted(s: seq<string>, x: string): (r: seq<string>)
    requires StrictlySorted(s)
    ensures StrictlySorted(r)
    ensures Elements(r) == Elements(s) + {x}
  {
    if s == [] then [x]
    else if x == s[0] then
      assert Elements(s) == Elements(s) + {x};
      s
    else if Below(x, s[0]) then
      assert forall j :: 1 <= j < |s| ==> Below(s[0], s[j]);
      forall j | 0 <= j < |s| ensures Below(x, s[j]) {
        if j > 0 { BelowTransitive(x, s[0], s[j]); }
      }
      assert Elements([x] + s) == Elements(s) + {x};
      [x] + s
    else
      BelowTotal(x, s[0]);
      var rest := InsertSorted(s[1..], x);
      assert Elements(s) == {s[0]} + Elements(s[1..]);
      forall j | 0 <= j < |rest| ensures Below(s[0], rest[j]) {
        assert rest[j] in Elements(rest);
      }
      assert Elements([s[0]] + rest) == {s[0]} + Elements(rest);
      [s[0]] + rest
  }

  /**
   * `SELECT DISTINCT v ... ORDER BY v` over the column values `xs`: the
   * strictly ascending sequence of exactly the values that occur in `xs`.
   */
  function SortedDistinct(xs: seq<string>): (r: seq<string>)
    ensures StrictlySorted(r)
    ensures Elements(r) == Elements(xs)
  {
    if xs == [] then []
    else
      var init := xs[..|xs| - 1];
      assert xs == init + [xs[|xs| - 1]];
      assert Elements(xs) == Elements(init) + {xs[|xs| - 1]};
      InsertSorted(SortedDistinct(init), xs[|xs| - 1])
  }

  /** Two strictly sorted sequences with the same elements are equal. */
  lemma {:induction false} SortedUnique(a: seq<string>, b: seq<string>)
    requires StrictlySorted(a) && StrictlySorted(b)
    requires Elements(a) == Elements(b)
    ensures a == b
  {
    ElementsEmpty(a);
    ElementsEmpty(b);
    if a != [] {
      // The first element of each is the least element of the common set.
      if a[0] != b[0] {
        assert b[0] in Elements(a);
        var i :| 0 <= i < |a| && a[i] == b[0];
        assert a[0] in Elements(b);
        var j :| 0 <= j < |b| && b[j] == a[0];
        assert i > 0 && j > 0;
        BelowAsymmetric(a[0], a[i]);
      }
      assert Elements(a[1..]) == Elements(a) - {a[0]} by {
        StrictlySortedDistinct(a);
        forall x | x in Elements(a) && x != a[0] ensures x in Elements(a[1..]) {
          var k :| 0 <= k < |a| && a[k] == x;
        }
        forall x | x in Elements(a[1..]) ensures x != a[0] {
          var k :| 0 <= k < |a[1..]| && a[1..][k] == x;
        }
      }
      assert Elements(b[1..]) == Elements(b) - {b[0]} by {
        StrictlySortedDistinct(b);
        forall x | x in Elements(b) && x != b[0] ensures x in Elements(b[1..]) {
          var k :| 0 <= k < |b| && b[k] == x;
        }
        forall x | x in Elements(b[1..]) ensures x != b[0] {
          var k :| 0 <= k < |b[1..]| && b[1..][k] == x;
        }
      }
      SortedUnique(a[1..], b[1..]);
      assert a == [a[0]] + a[1..] && b == [b[0]] + b[1..];
    }
  }
}
