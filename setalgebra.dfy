/**
 * The static multi-entry operations of Entry.java: diff, inter, union and
 * cartprod. Each takes the value lists of the resolved entries, in the order
 * the keys were given, and never changes them. Each is specified by a
 * function and implemented by the source's loops.
 */
module SetAlgebra {
  import opened Lists

  // ---------------------------------------------------------------------
  // Specification vocabulary
  // ---------------------------------------------------------------------

  /** How many of the lists contain v (repeats inside one list count once). */
  function Holders(lists: seq<seq<int>>, v: int): nat
  {
    if lists == [] then 0
    else Holders(lists[..|lists| - 1], v) + (if v in lists[|lists| - 1] then 1 else 0)
  }

  /** v occurs in every list. */
  predicate InAll(lists: seq<seq<int>>, v: int)
  {
    forall k :: 0 <= k < |lists| ==> v in lists[k]
  }

  /** v occurs in some list. */
  predicate InSome(lists: seq<seq<int>>, v: int)
  {
    exists k :: 0 <= k < |lists| && v in lists[k]
  }

  lemma HoldersSnoc(lists: seq<seq<int>>, i: int, v: int)
    requires 0 <= i < |lists|
    ensures Holders(lists[..i + 1], v) == Holders(lists[..i], v) + (if v in lists[i] then 1 else 0)
  {
    assert lists[..i + 1][..i] == lists[..i];
  }

  /** One value is held by no list exactly when it is in none of them. */
  lemma {:induction false} HoldersZero(lists: seq<seq<int>>, v: int)
    ensures Holders(lists, v) == 0 <==> !InSome(lists, v)
  {
    if lists != [] {
      var init := lists[..|lists| - 1];
      HoldersZero(init, v);
      if InSome(init, v) {
        var k :| 0 <= k < |init| && v in init[k];
        assert v in lists[k];
      }
      if InSome(lists, v) && v !in lists[|lists| - 1] {
        var k :| 0 <= k < |lists| && v in lists[k];
        assert k < |lists| - 1 && v in init[k];
      }
    }
  }

  /** Every list holds v exactly when the count of holders is the number of lists. */
  lemma {:induction false} HoldersAll(lists: seq<seq<int>>, v: int)
    ensures Holders(lists, v) <= |lists|
    ensures Holders(lists, v) == |lists| <==> InAll(lists, v)
  {
    if lists != [] {
      var init := lists[..|lists| - 1];
      HoldersAll(init, v);
      if InAll(lists, v) {
        assert InAll(init, v) by {
          forall k | 0 <= k < |init| ensures v in init[k] {
            assert v in lists[k];
          }
        }
      }
    }
  }

  // ---------------------------------------------------------------------
  // diff
  // ---------------------------------------------------------------------

  /**
   * Entry.diff: the values found in exactly one of the lists, ascending and
   * without repeats. A value repeated within one list counts once; a value in
   * two or more lists is left out, however its occurrences are spread.
   */
  method Diff(lists: seq<seq<int>>) returns (r: seq<int>)
    ensures StrictlyAscending(r)
    ensures forall v :: v in r <==> Holders(lists, v) == 1
  {
    var diffList: seq<int> := [];
    var duplicateList: seq<int> := [];
    for i := 0 to |lists|
      invariant NoDups(diffList)
      invariant forall v :: v in diffList <==> Holders(lists[..i], v) == 1
      invariant forall v :: v in duplicateList <==> Holders(lists[..i], v) >= 1
    {
      var newValues := lists[i];
      var newLoopValues: seq<int> := [];
      for j := 0 to |newValues|
        invariant NoDups(diffList)
        invariant forall v :: v in diffList <==> Holders(lists[..i], v) == 1 && v !in newValues[..j]
        invariant forall v :: v in duplicateList <==> Holders(lists[..i], v) >= 1
        invariant forall v :: v in newLoopValues <==> Holders(lists[..i], v) == 0 && v in newValues[..j]
      {
        var nextValue := newValues[j];
        assert newValues[..j + 1] == newValues[..j] + [nextValue];
        if nextValue in diffList {
          diffList := Without(diffList, nextValue);
          duplicateList := duplicateList + [nextValue];
        } else if nextValue in duplicateList {
          continue;
        } else {
          newLoopValues := newLoopValues + [nextValue];
        }
      }
      assert newValues[..|newValues|] == newValues;
      for k := 0 to |newLoopValues|
        invariant NoDups(diffList)
        invariant forall v :: v in diffList <==>
          (Holders(lists[..i], v) == 1 && v !in newValues) || v in newLoopValues[..k]
      {
        assert newLoopValues[..k + 1] == newLoopValues[..k] + [newLoopValues[k]];
        if newLoopValues[k] in diffList {
          continue;
        } else {
          diffList := diffList + [newLoopValues[k]];
        }
      }
      assert newLoopValues[..|newLoopValues|] == newLoopValues;
      duplicateList := duplicateList + newValues;
      forall v
        ensures Holders(lists[..i + 1], v) == Holders(lists[..i], v) + (if v in newValues then 1 else 0)
      {
        HoldersSnoc(lists, i, v);
      }
    }
    assert lists[..|lists|] == lists;
    SortDistinct(diffList);
    r := SortSeq(diffList);
  }

  // ---------------------------------------------------------------------
  // inter
  // ---------------------------------------------------------------------

  /** The elements of a set in some order, each once (an ArrayList built from a HashSet). */
  method ListOf(s: set<int>) returns (r: seq<int>)
    ensures NoDups(r)
    ensures forall x :: x in r <==> x in s
  {
    r := [];
    var rest := s;
    while rest != {}
      invariant NoDups(r)
      invariant forall x :: x in r <==> x in s && x !in rest
      invariant rest <= s
      decreases |rest|
    {
      if forall y :: y !in rest {
        assert false;
      }
      var x :| x in rest;
      r := r + [x];
      rest := rest - {x};
    }
  }

  /**
   * Entry.inter: the values found in every list, ascending and without
   * repeats. The source reads the first list unconditionally, so at least one
   * list is needed.
   */
  method Inter(lists: seq<seq<int>>) returns (r: seq<int>)
    requires |lists| >= 1
    ensures StrictlyAscending(r)
    ensures forall v :: v in r <==> InAll(lists, v)
  {
    var intersectionSet := set x | x in lists[0];
    for i := 1 to |lists|
      invariant forall v :: v in intersectionSet <==> InAll(lists[..i], v)
    {
      var entrySet := set x | x in lists[i];
      forall v
        ensures InAll(lists[..i + 1], v) <==> InAll(lists[..i], v) && v in lists[i]
      {
        HoldersAll(lists[..i + 1], v);
        HoldersAll(lists[..i], v);
        HoldersSnoc(lists, i, v);
      }
      intersectionSet := intersectionSet * entrySet;
    }
    assert lists[..|lists|] == lists;
    var intersectList := ListOf(intersectionSet);
    SortDistinct(intersectList);
    r := SortSeq(intersectList);
  }

  // ---------------------------------------------------------------------
  // union
  // ---------------------------------------------------------------------

  /** Entry.union: the values found in any list, ascending and without repeats. */
  method Union(lists: seq<seq<int>>) returns (r: seq<int>)
    ensures StrictlyAscending(r)
    ensures forall v :: v in r <==> InSome(lists, v)
  {
    var unionList: seq<int> := [];
    for i := 0 to |lists|
      invariant NoDups(unionList)
      invariant forall v :: v in unionList <==> InSome(lists[..i], v)
    {
      for k := 0 to |lists[i]|
        invariant NoDups(unionList)
        invariant forall v :: v in unionList <==> InSome(lists[..i], v) || v in lists[i][..k]
      {
        assert lists[i][..k + 1] == lists[i][..k] + [lists[i][k]];
        if lists[i][k] in unionList {
          continue;
        } else {
          unionList := unionList + [lists[i][k]];
        }
      }
      assert lists[i][..|lists[i]|] == lists[i];
      forall v
        ensures InSome(lists[..i + 1], v) <==> InSome(lists[..i], v) || v in lists[i]
      {
        HoldersZero(lists[..i + 1], v);
        HoldersZero(lists[..i], v);
        HoldersSnoc(lists, i, v);
      }
    }
    assert lists[..|lists|] == lists;
    SortDistinct(unionList);
    r := SortSeq(unionList);
  }

  // ---------------------------------------------------------------------
  // cartprod
  // ---------------------------------------------------------------------

  /** prefix extended by each value of l in turn. */
  function Row(prefix: seq<int>, l: seq<int>): (r: seq<seq<int>>)
    ensures |r| == |l|
  {
    seq(|l|, k requires 0 <= k < |l| => prefix + [l[k]])
  }

  /** Every row extended by every value of l; rows vary slowest, values of l fastest. */
  function Extend(rows: seq<seq<int>>, l: seq<int>): seq<seq<int>>
  {
    if rows == [] then []
    else Extend(rows[..|rows| - 1], l) + Row(rows[|rows| - 1], l)
  }

  /**
   * The Cartesian product of the lists as sequences (not sets): one row per
   * choice of a position in each list, in row-major order with the first
   * list varying slowest.
   */
  function Product(lists: seq<seq<int>>): seq<seq<int>>
  {
    if lists == [] then [[]]
    else Extend(Product(lists[..|lists| - 1]), lists[|lists| - 1])
  }

  function LengthProduct(lists: seq<seq<int>>): nat
  {
    if lists == [] then 1 else LengthProduct(lists[..|lists| - 1]) * |lists[|lists| - 1]|
  }

  lemma {:induction false} ExtendLength(rows: seq<seq<int>>, l: seq<int>)
    ensures |Extend(rows, l)| == |rows| * |l|
  {
    if rows != [] {
      ExtendLength(rows[..|rows| - 1], l);
      assert |rows| * |l| == (|rows| - 1) * |l| + |l|;
    }
  }

  /** Row-major order: row i of the input, extended by value k of l, sits at index i * |l| + k. */
  lemma {:induction false} ExtendAt(rows: seq<seq<int>>, l: seq<int>, i: int, k: int)
    requires 0 <= i < |rows| && 0 <= k < |l|
    ensures i * |l| + k < |Extend(rows, l)|
    ensures Extend(rows, l)[i * |l| + k] == rows[i] + [l[k]]
  {
    var init := rows[..|rows| - 1];
    ExtendLength(init, l);
    ExtendLength(rows, l);
    assert Extend(rows, l) == Extend(init, l) + Row(rows[|rows| - 1], l);
    if i < |rows| - 1 {
      ExtendAt(init, l, i, k);
      assert init[i] == rows[i];
    } else {
      assert i * |l| == |Extend(init, l)|;
      assert Row(rows[i], l)[k] == rows[i] + [l[k]];
    }
  }

  /** Every row of the product has one value per list, and there are as many rows as the lengths multiply to. */
  lemma {:induction false} ProductShape(lists: seq<seq<int>>)
    ensures |Product(lists)| == LengthProduct(lists)
    ensures forall r :: r in Product(lists) ==> |r| == |lists|
  {
    if lists != [] {
      var init := lists[..|lists| - 1];
      var l := lists[|lists| - 1];
      ProductShape(init);
      ExtendLength(Product(init), l);
      ExtendRowLengths(Product(init), l, |init|);
    }
  }

  lemma {:induction false} ExtendRowLengths(rows: seq<seq<int>>, l: seq<int>, n: nat)
    requires forall r :: r in rows ==> |r| == n
    ensures forall r :: r in Extend(rows, l) ==> |r| == n + 1
  {
    if rows != [] {
      ExtendRowLengths(rows[..|rows| - 1], l, n);
      assert rows[|rows| - 1] in rows;
    }
  }

  /** A row is in the product exactly when it picks, position by position, a value of the matching list. */
  lemma {:induction false} ProductMembers(lists: seq<seq<int>>, row: seq<int>)
    ensures row in Product(lists) <==>
      |row| == |lists| && forall j :: 0 <= j < |lists| ==> row[j] in lists[j]
  {
    if lists == [] {
    } else {
      var init := lists[..|lists| - 1];
      var l := lists[|lists| - 1];
      var n := |init|;
      ExtendMembers(Product(init), l, row);
      if |row| == |lists| {
        ProductMembers(init, row[..n]);
        assert row == row[..n] + [row[n]];
        if forall j :: 0 <= j < |lists| ==> row[j] in lists[j] {
          assert forall j :: 0 <= j < n ==> row[..n][j] in init[j];
        }
        if row[..n] in Product(init) && row[n] in l {
          forall j | 0 <= j < |lists| ensures row[j] in lists[j] {
            if j < n {
              assert row[..n][j] in init[j];
            }
          }
        }
      } else {
        ProductShape(lists);
      }
    }
  }

  lemma {:induction false} ExtendMembers(rows: seq<seq<int>>, l: seq<int>, row: seq<int>)
    ensures row in Extend(rows, l) <==> row != [] && row[..|row| - 1] in rows && row[|row| - 1] in l
  {
    if rows != [] {
      var init := rows[..|rows| - 1];
      var last := rows[|rows| - 1];
      ExtendMembers(init, l, row);
      if row in Row(last, l) {
        var k :| 0 <= k < |l| && Row(last, l)[k] == row;
        assert row[..|row| - 1] == last;
      }
      if row != [] && row[..|row| - 1] == last && row[|row| - 1] in l {
        var k :| 0 <= k < |l| && l[k] == row[|row| - 1];
        assert Row(last, l)[k] == row;
      }
      if row != [] && row[..|row| - 1] in rows && row[..|row| - 1] != last {
        assert row[..|row| - 1] in init;
      }
    }
  }

  /** Entry.multiplyFirst: every pair of a value of the first list and a value of the second, row-major. */
  method MultiplyFirst(firstList: seq<int>, secondList: seq<int>) returns (rows: seq<seq<int>>)
    ensures rows == Product([firstList, secondList])
  {
    ghost var singles := Product([firstList]);
    assert [firstList][..0] == [];
    var empty: seq<seq<int>> := [[]];
    assert empty[..0] == [];
    assert Product([]) == empty;
    assert singles == Extend(empty, firstList);
    assert Extend(empty, firstList) == Extend([], firstList) + Row([], firstList);
    assert singles == Row([], firstList);
    assert [firstList, secondList][..1] == [firstList];
    rows := [];
    for i := 0 to |firstList|
      invariant rows == Extend(singles[..i], secondList)
    {
      assert singles[..i + 1][..i] == singles[..i];
      assert singles[i] == [firstList[i]];
      for k := 0 to |secondList|
        invariant rows == Extend(singles[..i], secondList) + Row(singles[i], secondList)[..k]
      {
        assert [firstList[i]] + [secondList[k]] == [firstList[i], secondList[k]];
        assert Row(singles[i], secondList)[..k + 1] == Row(singles[i], secondList)[..k] + [[firstList[i], secondList[k]]];
        rows := rows + [[firstList[i], secondList[k]]];
      }
      assert Row(singles[i], secondList)[..|secondList|] == Row(singles[i], secondList);
    }
    assert singles[..|firstList|] == singles;
  }

  /** Entry.multiplySecond: every row extended by every value of the list, row-major. */
  method MultiplySecond(firstList: seq<seq<int>>, secondList: seq<int>) returns (rows: seq<seq<int>>)
    ensures rows == Extend(firstList, secondList)
  {
    rows := [];
    for i := 0 to |firstList|
      invariant rows == Extend(firstList[..i], secondList)
    {
      assert firstList[..i + 1][..i] == firstList[..i];
      for k := 0 to |secondList|
        invariant rows == Extend(firstList[..i], secondList) + Row(firstList[i], secondList)[..k]
      {
        assert Row(firstList[i], secondList)[..k + 1] == Row(firstList[i], secondList)[..k] + [firstList[i] + [secondList[k]]];
        var newElement := firstList[i] + [secondList[k]];
        rows := rows + [newElement];
      }
      assert Row(firstList[i], secondList)[..|secondList|] == Row(firstList[i], secondList);
    }
    assert firstList[..|firstList|] == firstList;
  }

  /**
   * Entry.cartprod: with two or more lists, their Cartesian product; with
   * exactly one list, a single row holding that whole list (not one row per
   * value). The source reads the first list unconditionally.
   */
  method Cartprod(lists: seq<seq<int>>) returns (rows: seq<seq<int>>)
    requires |lists| >= 1
    ensures |lists| == 1 ==> rows == [lists[0]]
    ensures |lists| >= 2 ==> rows == Product(lists)
  {
    if |lists| <= 1 {
      return [lists[0]];
    }
    rows := MultiplyFirst(lists[0], lists[1]);
    assert lists[..2] == [lists[0], lists[1]];
    var i := 1;
    while i < |lists|
      invariant 1 <= i < |lists|
      invariant rows == Product(lists[..i + 1])
      decreases |lists| - i
    {
      if i == |lists| - 1 {
        break;
      }
      assert lists[..i + 2][..i + 1] == lists[..i + 1];
      rows := MultiplySecond(rows, lists[i + 1]);
      i := i + 1;
    }
    assert lists[..|lists|] == lists;
  }
}
