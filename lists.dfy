/** An optional value: the model's stand-in for a Java reference that may be null. */
module Options {

  datatype Option<T> = None | Some(value: T)
}

/**
 * Sequence vocabulary shared by the entry, set-algebra, snapshot and store
 * models: reversal, adjacent-run collapsing, sorting, duplicate-freedom and
 * Java's 32-bit integer addition.
 */
module Lists {

  // ---------------------------------------------------------------------
  // Reversal
  // ---------------------------------------------------------------------

  /** The elements of s in the opposite order (defined from the back, the way push builds it). */
  function Reverse(s: seq<int>): (r: seq<int>)
    ensures |r| == |s|
  {
    if s == [] then [] else [s[|s| - 1]] + Reverse(s[..|s| - 1])
  }

  lemma {:induction false} ReverseAt(s: seq<int>, k: int)
    requires 0 <= k < |s|
    ensures Reverse(s)[k] == s[|s| - 1 - k]
  {
    if k > 0 {
      ReverseAt(s[..|s| - 1], k - 1);
    }
  }

  /** Reversing twice gives back the original sequence. */
  lemma ReverseInvolution(s: seq<int>)
    ensures Reverse(Reverse(s)) == s
  {
    var r := Reverse(s);
    forall k | 0 <= k < |s|
      ensures Reverse(r)[k] == s[k]
    {
      ReverseAt(r, k);
      ReverseAt(s, |s| - 1 - k);
    }
  }

  // ---------------------------------------------------------------------
  // Collapsing runs of adjacent equal values
  // ---------------------------------------------------------------------

  /** No two neighbours are equal. */
  predicate NoAdjacentRepeats(s: seq<int>)
  {
    forall i :: 0 < i < |s| ==> s[i - 1] != s[i]
  }

  /** Every run of adjacent equal values collapsed to a single value. */
  function Dedup(s: seq<int>): seq<int>
  {
    if |s| <= 1 then s
    else if s[0] == s[1] then Dedup(s[1..])
    else [s[0]] + Dedup(s[1..])
  }

  lemma {:induction false} DedupHead(s: seq<int>)
    requires s != []
    ensures Dedup(s) != [] && Dedup(s)[0] == s[0]
  {
    if |s| > 1 && s[0] == s[1] {
      DedupHead(s[1..]);
    }
  }

  /** The collapsed sequence has no two equal neighbours. */
  lemma {:induction false} DedupNoAdjacentRepeats(s: seq<int>)
    ensures NoAdjacentRepeats(Dedup(s))
  {
    if |s| > 1 {
      DedupNoAdjacentRepeats(s[1..]);
      DedupHead(s[1..]);
    }
  }

  /** A sequence without equal neighbours is left unchanged. */
  lemma {:induction false} DedupFixed(s: seq<int>)
    requires NoAdjacentRepeats(s)
    ensures Dedup(s) == s
  {
    if |s| > 1 {
      assert NoAdjacentRepeats(s[1..]) by {
        forall i | 0 < i < |s| - 1 ensures s[1..][i - 1] != s[1..][i] {
          assert s[i] != s[i + 1];
        }
      }
      DedupFixed(s[1..]);
      assert s[0] != s[1];
    }
  }

  /** Dropping the first of two equal neighbours does not change the collapsed result. */
  lemma {:induction false} DedupRemoveRepeat(s: seq<int>, i: int)
    requires 0 <= i < |s| - 1 && s[i] == s[i + 1]
    ensures Dedup(s[..i] + s[i + 1..]) == Dedup(s)
  {
    var t := s[..i] + s[i + 1..];
    if i == 0 {
      assert t == s[1..];
    } else {
      assert t[0] == s[0] && t[1] == s[1];
      assert t[1..] == s[1..][..i - 1] + s[1..][i..];
      DedupRemoveRepeat(s[1..], i - 1);
    }
  }

  /**
   * The left-to-right reading of Dedup: extending the input by one value
   * extends the result by that value exactly when it differs from the
   * previous one. Values that repeat non-adjacently survive.
   */
  lemma {:induction false} DedupSnoc(s: seq<int>, x: int)
    ensures Dedup(s + [x]) == if s != [] && s[|s| - 1] == x then Dedup(s) else Dedup(s) + [x]
  {
    if |s| >= 2 {
      assert (s + [x])[1..] == s[1..] + [x];
      DedupSnoc(s[1..], x);
    } else if |s| == 1 {
      assert s + [x] == [s[0], x];
    }
  }

  // ---------------------------------------------------------------------
  // Ordering
  // ---------------------------------------------------------------------

  predicate Ascending(s: seq<int>)
  {
    forall i, j :: 0 <= i < j < |s| ==> s[i] <= s[j]
  }

  predicate StrictlyAscending(s: seq<int>)
  {
    forall i, j :: 0 <= i < j < |s| ==> s[i] < s[j]
  }

  /** x placed into an ascending sequence before the first element not smaller than it. */
  function Insert(x: int, s: seq<int>): (r: seq<int>)
    requires Ascending(s)
    ensures Ascending(r)
    ensures multiset(r) == multiset(s) + multiset{x}
  {
    if s == [] || x <= s[0] then
      AscendingCons(x, s);
      [x] + s
    else
      AscendingTail(s);
      var tail := Insert(x, s[1..]);
      assert s == [s[0]] + s[1..];
      LowerBound(s[0], x, s[1..], tail);
      AscendingCons(s[0], tail);
      [s[0]] + tail
  }

  lemma AscendingTail(s: seq<int>)
    requires Ascending(s) && s != []
    ensures Ascending(s[1..])
    ensures forall i :: 0 <= i < |s[1..]| ==> s[0] <= s[1..][i]
  {
    forall i | 0 <= i < |s[1..]|
      ensures s[0] <= s[1..][i]
    {
      assert s[1..][i] == s[i + 1];
    }
  }

  lemma AscendingCons(h: int, t: seq<int>)
    requires Ascending(t)
    requires t == [] || h <= t[0] || forall j :: 0 <= j < |t| ==> h <= t[j]
    ensures Ascending([h] + t)
  {
    var s := [h] + t;
    forall i, j | 0 <= i < j < |s|
      ensures s[i] <= s[j]
    {
      if i > 0 {
        assert s[i] == t[i - 1] && s[j] == t[j - 1];
      } else {
        assert s[j] == t[j - 1];
        if t != [] && h <= t[0] {
          assert t[0] <= t[j - 1] || j == 1;
        }
      }
    }
  }

  /** A value below x and below every element of s is below every element of any permutation of s and x. */
  lemma LowerBound(lo: int, x: int, s: seq<int>, t: seq<int>)
    requires lo <= x && (forall i :: 0 <= i < |s| ==> lo <= s[i])
    requires multiset(t) == multiset(s) + multiset{x}
    ensures forall j :: 0 <= j < |t| ==> lo <= t[j]
  {
    forall j | 0 <= j < |t|
      ensures lo <= t[j]
    {
      assert t[j] in multiset(t);
      if t[j] != x {
        assert t[j] in multiset(s);
        var i :| 0 <= i < |s| && s[i] == t[j];
      }
    }
  }

  /** The ascending permutation of s (the library sort the source calls). */
  function SortSeq(s: seq<int>): (r: seq<int>)
    ensures Ascending(r)
    ensures multiset(r) == multiset(s)
  {
    if s == [] then []
    else
      assert s == [s[0]] + s[1..];
      Insert(s[0], SortSeq(s[1..]))
  }

  /** Two strictly ascending sequences with the same elements are equal. */
  lemma {:induction false} StrictlyAscendingUnique(a: seq<int>, b: seq<int>)
    requires StrictlyAscending(a) && StrictlyAscending(b)
    requires forall x :: x in a <==> x in b
    ensures a == b
  {
    assert b != [] ==> b[0] in b;
    if a == [] {
    } else {
      assert a[0] in a;
      assert b != [] && a[0] in b;
      assert b[0] in b;
      assert a[0] == b[0] by {
        assert b[0] in a;
      }
      forall x
        ensures x in a[1..] <==> x in b[1..]
      {
        if x in a[1..] {
          assert x in a && x != a[0];
        }
        if x in b[1..] {
          assert x in b && x != b[0];
        }
      }
      StrictlyAscendingUnique(a[1..], b[1..]);
    }
  }

  // ---------------------------------------------------------------------
  // Duplicate-freedom and filtering
  // ---------------------------------------------------------------------

  predicate NoDups(s: seq<int>)
  {
    forall i, j :: 0 <= i < j < |s| ==> s[i] != s[j]
  }

  lemma {:induction false} NoDupsCount(s: seq<int>, x: int)
    requires NoDups(s)
    ensures multiset(s)[x] <= 1
  {
    if s != [] {
      assert s == [s[0]] + s[1..];
      assert NoDups(s[1..]) by {
        forall i, j | 0 <= i < j < |s| - 1 ensures s[1..][i] != s[1..][j] {
          assert s[i + 1] != s[j + 1];
        }
      }
      NoDupsCount(s[1..], x);
      if x == s[0] {
        assert x !in s[1..] by {
          forall j | 0 <= j < |s| - 1 ensures s[1..][j] != x {
            assert s[0] != s[j + 1];
          }
        }
      }
    }
  }

  /** Duplicate-freedom depends only on the multiset of elements. */
  lemma NoDupsPermutation(a: seq<int>, b: seq<int>)
    requires NoDups(a) && multiset(a) == multiset(b)
    ensures NoDups(b)
  {
    forall i, j | 0 <= i < j < |b|
      ensures b[i] != b[j]
    {
      if b[i] == b[j] {
        var x := b[i];
        assert b == b[..i] + [x] + b[i + 1..j] + [x] + b[j + 1..];
        assert multiset(b)[x] >= 2;
        NoDupsCount(a, x);
        assert false;
      }
    }
  }

  /** Sorting a duplicate-free list gives the strictly ascending list of its elements. */
  lemma SortDistinct(s: seq<int>)
    requires NoDups(s)
    ensures StrictlyAscending(SortSeq(s))
    ensures forall x :: x in SortSeq(s) <==> x in s
  {
    var r := SortSeq(s);
    NoDupsPermutation(s, r);
    forall x
      ensures x in r <==> x in s
    {
      assert x in r <==> x in multiset(r);
      assert x in s <==> x in multiset(s);
    }
  }

  /** s with every occurrence of v removed (List.removeAll of a singleton). */
  function Without(s: seq<int>, v: int): (r: seq<int>)
    ensures forall x :: x in r <==> x in s && x != v
    ensures NoDups(s) ==> NoDups(r)
  {
    if s == [] then []
    else
      var tail := Without(s[1..], v);
      assert NoDups(s) ==> NoDups(s[1..]) && s[0] !in s[1..];
      if s[0] == v then tail else [s[0]] + tail
  }

  // ---------------------------------------------------------------------
  // Java int arithmetic
  // ---------------------------------------------------------------------

  const TwoTo32: int := 0x1_0000_0000
  const TwoTo31: int := 0x8000_0000

  /** n reduced to Java's int range, as 32-bit two's-complement addition does. */
  function Wrap32(n: int): (r: int)
    ensures -TwoTo31 <= r < TwoTo31
    ensures (r - n) % TwoTo32 == 0
  {
    (n + TwoTo31) % TwoTo32 - TwoTo31
  }

  /** The exact (unbounded) total of the elements, summed from the front. */
  function Total(s: seq<int>): int
  {
    if s == [] then 0 else Total(s[..|s| - 1]) + s[|s| - 1]
  }

  /** Wrapping after every step of an addition gives the same as wrapping once at the end. */
  lemma WrapAdd(a: int, b: int)
    ensures Wrap32(Wrap32(a) + b) == Wrap32(a + b)
  {
    var k := (Wrap32(a) - a) / TwoTo32;
    assert Wrap32(a) == a + k * TwoTo32;
    WrapShift(a + b, k);
  }

  lemma WrapShift(n: int, k: int)
    ensures Wrap32(n + k * TwoTo32) == Wrap32(n)
  {
    var m := n + TwoTo31;
    assert (m + k * TwoTo32) % TwoTo32 == m % TwoTo32 by {
      ModShift(m, k);
    }
  }

  lemma {:induction false} ModShift(m: int, k: int)
    ensures (m + k * TwoTo32) % TwoTo32 == m % TwoTo32
    decreases if k < 0 then -k else k
  {
    if k > 0 {
      ModShift(m, k - 1);
      assert m + k * TwoTo32 == (m + (k - 1) * TwoTo32) + TwoTo32;
    } else if k < 0 {
      ModShift(m, k + 1);
      assert m + k * TwoTo32 == (m + (k + 1) * TwoTo32) - TwoTo32;
    }
  }
}
