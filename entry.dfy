/**
 * One key's integer list (Entry.java). The list is a field that the
 * mutators update in place; the queries scan it without changing it.
 */
module Entries {
  import opened Options
  import opened Lists

  /** The value an entry holds at some moment: its key and its list. */
  datatype Item = Item(key: string, values: seq<int>)

  /** A fresh list with the same elements, built element by element. */
  method CopyValues(src: seq<int>) returns (copy: seq<int>)
    ensures copy == src
  {
    copy := [];
    for i := 0 to |src|
      invariant copy == src[..i]
    {
      copy := copy + [src[i]];
    }
  }

  class Entry {
    const key: string
    var values: seq<int>

    /** Entry(key, values): the entry keeps its own copy of the list. */
    constructor (key: string, values: seq<int>)
      ensures this.key == key && this.values == values
    {
      this.key := key;
      var copy := CopyValues(values);
      this.values := copy;
    }

    /** A copy of the list; changing it does not reach the entry. */
    method GetValues() returns (copy: seq<int>)
      ensures copy == values
    {
      copy := values;
    }

    /** Replaces the list by a copy of the argument. */
    method Set(newValues: seq<int>)
      modifies this
      ensures values == newValues
    {
      values := CopyValues(newValues);
    }

    /** Inserts each argument value at the front in turn, so the block lands reversed. */
    method Push(xs: seq<int>)
      modifies this
      ensures values == Reverse(xs) + old(values)
    {
      for i := 0 to |xs|
        invariant values == Reverse(xs[..i]) + old(values)
      {
        assert xs[..i + 1][..i] == xs[..i];
        values := [xs[i]] + values;
      }
      assert xs[..|xs|] == xs;
    }

    /** Adds the argument values at the back, in order. */
    method Append(xs: seq<int>)
      modifies this
      ensures values == old(values) + xs
    {
      values := values + xs;
    }

    /** The value at 1-based position index, or None when index is not in 1..length. */
    method Pick(index: int) returns (r: Option<int>)
      ensures r.None? <==> index < 1 || index > |values|
      ensures r.Some? ==> r.value == values[index - 1]
    {
      var actualIndex := index - 1;
      if actualIndex > |values| - 1 || actualIndex < 0 {
        return None;
      }
      r := Some(values[actualIndex]);
    }

    /** Like Pick, but also removes the value found, keeping the others in order. */
    method Pluck(index: int) returns (r: Option<int>)
      modifies this
      ensures r.None? <==> index < 1 || index > |old(values)|
      ensures r.None? ==> values == old(values)
      ensures r.Some? ==> r.value == old(values)[index - 1]
      ensures r.Some? ==> values == old(values)[..index - 1] + old(values)[index..]
    {
      var actualIndex := index - 1;
      if actualIndex > |values| - 1 || actualIndex < 0 {
        return None;
      }
      var pluckValue := values[actualIndex];
      values := values[..actualIndex] + values[actualIndex + 1..];
      r := Some(pluckValue);
    }

    /** Removes and returns the front value; None on an empty list, which stays as it was. */
    method Pop() returns (r: Option<int>)
      modifies this
      ensures r.None? <==> old(values) == []
      ensures r.None? ==> values == old(values)
      ensures r.Some? ==> r.value == old(values)[0] && values == old(values)[1..]
    {
      if |values| == 0 {
        return None;
      }
      var popValue := values[0];
      values := values[1..];
      r := Some(popValue);
    }

    /** The smallest value, or 0 for an empty list. */
    method Min() returns (m: int)
      ensures values == [] ==> m == 0
      ensures values != [] ==> m in values && forall x :: x in values ==> m <= x
    {
      if |values| == 0 {
        return 0;
      }
      m := values[0];
      for i := 1 to |values|
        invariant m in values[..i]
        invariant forall j :: 0 <= j < i ==> m <= values[j]
      {
        if values[i] < m {
          m := values[i];
        }
      }
      assert values[..|values|] == values;
    }

    /** The largest value, or 0 for an empty list. */
    method Max() returns (m: int)
      ensures values == [] ==> m == 0
      ensures values != [] ==> m in values && forall x :: x in values ==> x <= m
    {
      if |values| == 0 {
        return 0;
      }
      m := values[0];
      for i := 0 to |values|
        invariant m in values[..i] || (i == 0 && m == values[0])
        invariant forall j :: 0 <= j < i ==> values[j] <= m
      {
        if values[i] > m {
          m := values[i];
        }
      }
      assert values[..|values|] == values;
    }

    /** The total of the values in Java int arithmetic (wrapping at 32 bits); 0 when empty. */
    method Sum() returns (s: int)
      ensures s == Wrap32(Total(values))
    {
      s := 0;
      for i := 0 to |values|
        invariant s == Wrap32(Total(values[..i]))
      {
        assert values[..i + 1][..i] == values[..i];
        WrapAdd(Total(values[..i]), values[i]);
        s := Wrap32(s + values[i]);
      }
      assert values[..|values|] == values;
    }

    /** The number of values. */
    method Len() returns (n: int)
      ensures n == |values|
    {
      n := |values|;
    }

    /** Reverses the list: the last value is moved to position i, for each i in turn. */
    method Rev()
      modifies this
      ensures values == Reverse(old(values))
    {
      ghost var original := values;
      var n := |values|;
      for i := 0 to n
        invariant |values| == n
        invariant values == Reverse(original)[..i] + original[..n - i]
      {
        RevStep(original, i, values);
        values := values[..i] + [values[|values| - 1]] + values[i..];
        values := values[..|values| - 1];
      }
    }

    /** Removes a value whenever it equals its right neighbour, so each run of equal neighbours keeps one value. */
    method Uniq()
      modifies this
      ensures values == Dedup(old(values))
    {
      var i := 0;
      while i < |values| - 1
        invariant 0 <= i <= |values|
        invariant forall j :: 0 < j <= i && j < |values| ==> values[j - 1] != values[j]
        invariant Dedup(values) == Dedup(old(values))
        decreases 2 * |values| - i
      {
        if values[i] == values[i + 1] {
          DedupRemoveRepeat(values, i);
          values := values[..i] + values[i + 1..];
        } else {
          i := i + 1;
        }
      }
      DedupFixed(values);
    }

    /** Sorts the list in ascending order (the library sort). */
    method Sort()
      modifies this
      ensures values == SortSeq(old(values))
    {
      values := SortSeq(values);
    }
  }

  /** One step of rev: moving the last value to position i extends the reversed prefix by one. */
  lemma RevStep(original: seq<int>, i: int, values: seq<int>)
    requires 0 <= i < |original| && |values| == |original|
    requires values == Reverse(original)[..i] + original[..|original| - i]
    ensures (values[..i] + [values[|values| - 1]] + values[i..])[..|values|]
      == Reverse(original)[..i + 1] + original[..|original| - i - 1]
  {
    var n := |original|;
    ReverseAt(original, i);
    assert values[n - 1] == original[n - i - 1];
    assert values[..i] == Reverse(original)[..i];
    assert values[i..] == original[..n - i];
    assert Reverse(original)[..i + 1] == Reverse(original)[..i] + [original[n - i - 1]];
    assert original[..n - i][..n - i - 1] == original[..n - i - 1];
  }

  /** The key and list of each entry, in order. */
  ghost function Items(es: seq<Entry>): (r: seq<Item>)
    reads es
    ensures |r| == |es|
  {
    seq(|es|, i reads es requires 0 <= i < |es| => Item(es[i].key, es[i].values))
  }

  /** Pairwise different objects. */
  ghost predicate Distinct(es: seq<Entry>)
  {
    forall i, j :: 0 <= i < j < |es| ==> es[i] != es[j]
  }

  /**
   * A deep copy: new entry objects with the same keys and lists, in order.
   * Nothing in the result is shared with the source or with anything that
   * existed before.
   */
  method CopyAll(src: seq<Entry>) returns (copies: seq<Entry>)
    ensures Items(copies) == Items(src)
    ensures forall e :: e in copies ==> fresh(e)
    ensures Distinct(copies)
  {
    copies := [];
    for i := 0 to |src|
      invariant |copies| == i
      invariant forall j :: 0 <= j < i ==> copies[j].key == src[j].key && copies[j].values == src[j].values
      invariant forall e :: e in copies ==> fresh(e)
      invariant Distinct(copies)
    {
      var values := src[i].GetValues();
      var e := new Entry(src[i].key, values);
      copies := copies + [e];
    }
  }
}
