/**
 * Python's ordering of `str` values (code point by code point, a proper
 * prefix first), the sorting that `sorted(...)` performs on a set of
 * strings, and order-preserving subsequences.
 */
module Ordering {

  /** `a < b` on Python strings. */
  predicate Below(a: string, b: string)
  {
    if a == [] then b != []
    else if b == [] then false
    else a[0] < b[0] || (a[0] == b[0] && Below(a[1..], b[1..]))
  }

  lemma {:induction false} BelowIrreflexive(a: string)
    ensures !Below(a, a)
  {
    if a != [] {
      BelowIrreflexive(a[1..]);
    }
  }

  lemma {:induction false} BelowTransitive(a: string, b: string, c: string)
    requires Below(a, b) && Below(b, c)
    ensures Below(a, c)
  {
    if a != [] && a[0] == b[0] && b[0] == c[0] {
      BelowTransitive(a[1..], b[1..], c[1..]);
    }
  }

  /** Any two different strings are ordered one way or the other. */
  lemma {:induction false} BelowTotal(a: string, b: string)
    requires a != b
    ensures Below(a, b) || Below(b, a)
  {
    if a != [] && b != [] && a[0] == b[0] {
      assert a[1..] != b[1..] by {
        assert a == [a[0]] + a[1..] && b == [b[0]] + b[1..];
      }
      BelowTotal(a[1..], b[1..]);
    }
  }

  lemma BelowAsymmetric(a: string, b: string)
    requires Below(a, b)
    ensures !Below(b, a)
  {
    if Below(b, a) {
      BelowTransitive(a, b, a);
      BelowIrreflexive(a);
    }
  }

  /** Every entry is strictly below every later entry, so there are no duplicates. */
  predicate Ascending(xs: seq<string>)
  {
    forall i, j :: 0 <= i < j < |xs| ==> Below(xs[i], xs[j])
  }

  function Elems(xs: seq<string>): set<string>
  {
    set x | x in xs
  }

  /** Inserts `x` into an ascending sequence, keeping it ascending and free of duplicates. */
  function Insert(x: string, xs: seq<string>): (r: seq<string>)
    requires Ascending(xs)
    ensures Ascending(r)
    ensures forall y :: y in r <==> y == x || y in xs
  {
    if xs == [] then [x]
    else if x == xs[0] then xs
    else if Below(x, xs[0]) then
      assert forall j :: 0 < j < |xs| ==> Below(x, xs[j]) by {
        forall j | 0 < j < |xs| ensures Below(x, xs[j]) {
          BelowTransitive(x, xs[0], xs[j]);
        }
      }
      [x] + xs
    else
      BelowTotal(x, xs[0]);
      var rest := Insert(x, xs[1..]);
      assert forall y :: y in rest ==> Below(xs[0], y) by {
        forall y | y in rest ensures Below(xs[0], y) {
          if y != x {
            var j :| 1 <= j < |xs| && xs[j] == y;
          }
        }
      }
      [xs[0]] + rest
  }

  /**
   * `sorted(s)` for a set of strings: an ascending sequence holding exactly
   * the members of `s`.
   */
  method SortedList(s: set<string>) returns (r: seq<string>)
    ensures Ascending(r)
    ensures Elems(r) == s
    ensures |r| == |s|
  {
    r := [];
    var rest := s;
    while rest != {}
      invariant Ascending(r)
      invariant Elems(r) !! rest && Elems(r) + rest == s
      decreases rest
    {
      var x :| x in rest;
      r := Insert(x, r);
      rest := rest - {x};
    }
    AscendingCard(r);
  }

  /** An ascending sequence has no duplicates, so its length is the size of its set of entries. */
  lemma {:induction false} AscendingCard(xs: seq<string>)
    requires Ascending(xs)
    ensures |Elems(xs)| == |xs|
  {
    if xs != [] {
      AscendingCard(xs[1..]);
      assert Elems(xs) == {xs[0]} + Elems(xs[1..]);
      forall k | 0 <= k < |xs[1..]| ensures xs[1..][k] != xs[0] {
        BelowIrreflexive(xs[0]);
      }
    }
  }

  /**
   * The sorted sequence of a set is unique: two ascending sequences with the
   * same entries are equal, so aggregating the same domains twice yields the
   * same output.
   */
  lemma {:induction false} AscendingUnique(xs: seq<string>, ys: seq<string>)
    requires Ascending(xs) && Ascending(ys)
    requires Elems(xs) == Elems(ys)
    ensures xs == ys
  {
    ElemsEmpty(xs);
    ElemsEmpty(ys);
    if xs != [] && ys != [] {
      assert xs[0] == ys[0] by {
        AscendingHeadIsLeast(xs, ys[0]);
        AscendingHeadIsLeast(ys, xs[0]);
        if xs[0] != ys[0] {
          BelowAsymmetric(xs[0], ys[0]);
        }
      }
      assert Elems(xs[1..]) == Elems(ys[1..]) by {
        AscendingHeadNotInTail(xs);
        AscendingHeadNotInTail(ys);
        assert Elems(xs) == {xs[0]} + Elems(xs[1..]);
        assert Elems(ys) == {ys[0]} + Elems(ys[1..]);
      }
      AscendingUnique(xs[1..], ys[1..]);
    }
  }

  lemma ElemsEmpty(xs: seq<string>)
    ensures Elems(xs) == {} <==> xs == []
  {
    if xs != [] {
      assert xs[0] in Elems(xs);
    }
  }

  lemma AscendingHeadIsLeast(xs: seq<string>, y: string)
    requires Ascending(xs) && y in Elems(xs)
    ensures y == xs[0] || Below(xs[0], y)
  {
    var j :| 0 <= j < |xs| && xs[j] == y;
  }

  lemma AscendingHeadNotInTail(xs: seq<string>)
    requires Ascending(xs) && xs != []
    ensures xs[0] !in Elems(xs[1..])
  {
    if xs[0] in Elems(xs[1..]) {
      var j :| 1 <= j < |xs| && xs[j] == xs[0];
      BelowIrreflexive(xs[0]);
    }
  }

  /** `ys` is `xs` with some entries left out, the rest kept in order. */
  predicate IsSubseq<T(==)>(ys: seq<T>, xs: seq<T>)
    decreases |xs|
  {
    if ys == [] then true
    else if xs == [] then false
    else if ys[0] == xs[0] then IsSubseq(ys[1..], xs[1..])
    else IsSubseq(ys, xs[1..])
  }

  lemma {:induction false} IsSubseqLength<T>(ys: seq<T>, xs: seq<T>)
    requires IsSubseq(ys, xs)
    ensures |ys| <= |xs|
    ensures forall y :: y in ys ==> y in xs
    decreases |xs|
  {
    if ys != [] {
      if ys[0] == xs[0] {
        IsSubseqLength(ys[1..], xs[1..]);
        assert forall y :: y in ys ==> y == ys[0] || y in ys[1..];
      } else {
        IsSubseqLength(ys, xs[1..]);
      }
    }
  }

  /** Dropping the first entry of a subsequence keeps it a subsequence. */
  lemma {:induction false} SubseqDropHead<T>(ys: seq<T>, xs: seq<T>)
    requires ys != [] && IsSubseq(ys, xs)
    ensures IsSubseq(ys[1..], xs)
    decreases |xs|
  {
    if ys[0] == xs[0] {
      if ys[1..] != [] {
        SubseqOfTail(ys[1..], xs);
      }
    } else {
      SubseqDropHead(ys, xs[1..]);
      SubseqOfTail(ys[1..], xs);
    }
  }

  /** A subsequence of the tail is a subsequence of the whole. */
  lemma {:induction false} SubseqOfTail<T>(ys: seq<T>, xs: seq<T>)
    requires xs != [] && IsSubseq(ys, xs[1..])
    ensures IsSubseq(ys, xs)
    decreases |xs|, |ys|
  {
    if ys != [] && ys[0] == xs[0] {
      SubseqDropHead(ys, xs[1..]);
    }
  }

  /** Appending the same entry to both sides keeps a subsequence; so does appending to the longer side only. */
  lemma {:induction false} SubseqAppend<T>(ys: seq<T>, xs: seq<T>, x: T)
    requires IsSubseq(ys, xs)
    ensures IsSubseq(ys + [x], xs + [x])
    ensures IsSubseq(ys, xs + [x])
    decreases |xs|
  {
    if xs == [] {
      assert ys == [];
      assert ([x] + [])[1..] == [];
    } else if ys == [] {
      SubseqAppend(ys, xs[1..], x);
      assert (xs + [x])[1..] == xs[1..] + [x];
      if xs[0] == x {
        assert (ys + [x])[1..] == [];
      }
    } else {
      assert (xs + [x])[1..] == xs[1..] + [x];
      assert (ys + [x])[1..] == ys[1..] + [x];
      if ys[0] == xs[0] {
        SubseqAppend(ys[1..], xs[1..], x);
      } else {
        SubseqAppend(ys, xs[1..], x);
      }
    }
  }

  /** A subsequence of an ascending sequence is ascending. */
  lemma {:induction false} SubseqAscending(ys: seq<string>, xs: seq<string>)
    requires IsSubseq(ys, xs) && Ascending(xs)
    ensures Ascending(ys)
    decreases |xs|
  {
    if ys != [] {
      if ys[0] == xs[0] {
        SubseqAscending(ys[1..], xs[1..]);
        IsSubseqLength(ys[1..], xs[1..]);
        forall j | 0 < j < |ys| ensures Below(ys[0], ys[j]) {
          assert ys[j] == ys[1..][j - 1];
          assert ys[j] in ys[1..];
          var k :| 0 <= k < |xs[1..]| && xs[1..][k] == ys[j];
          assert xs[k + 1] == ys[j];
        }
      } else {
        SubseqAscending(ys, xs[1..]);
      }
    }
  }

  /**
   * An ascending sequence whose entries all occur in another ascending
   * sequence is an order-preserving subsequence of it.
   */
  lemma {:induction false} AscendingSubsetIsSubseq(ys: seq<string>, xs: seq<string>)
    requires Ascending(xs) && Ascending(ys)
    requires Elems(ys) <= Elems(xs)
    ensures IsSubseq(ys, xs)
    decreases |xs|
  {
    if ys != [] {
      assert ys[0] in Elems(xs);
      if ys[0] == xs[0] {
        assert Elems(ys[1..]) <= Elems(xs[1..]) by {
          forall y | y in Elems(ys[1..]) ensures y in Elems(xs[1..]) {
            var j :| 1 <= j < |ys| && ys[j] == y;
            assert y in Elems(xs);
            var k :| 0 <= k < |xs| && xs[k] == y;
            if k == 0 {
              BelowIrreflexive(ys[0]);
            }
          }
        }
        AscendingSubsetIsSubseq(ys[1..], xs[1..]);
      } else {
        assert Elems(ys) <= Elems(xs[1..]) by {
          forall y | y in Elems(ys) ensures y in Elems(xs[1..]) {
            var k :| 0 <= k < |xs| && xs[k] == y;
            if k == 0 {
              // xs[0] is below every other entry of xs, hence below ys[0];
              // but ys[0] is below y = xs[0] unless y == ys[0].
              var j :| 0 <= j < |ys| && ys[j] == y;
              var k0 :| 0 <= k0 < |xs| && xs[k0] == ys[0];
              assert k0 > 0;
              assert j > 0;
              BelowAsymmetric(xs[0], xs[k0]);
            }
          }
        }
        AscendingSubsetIsSubseq(ys, xs[1..]);
      }
    }
  }
}
