/**
 * The store (CrunchDB.java): the live entries, newest first, and the
 * snapshots, newest first. Each command looks up what it needs, changes the
 * live entries or the snapshot list, and answers with a reply; how replies
 * are printed is not part of the model.
 */
module Crunch {
  import opened Options
  import opened Lists
  import opened Entries
  import opened Snapshots
  import SetAlgebra

  /** What a command answers. */
  datatype Reply =
    | Ok
    | NoSuchKey
    | IndexOutOfRange
    | Nil
    | NoSuchSnapshot
    | NotEnoughArguments
    | Value(n: int)
    | Values(values: seq<int>)
    | Rows(rows: seq<seq<int>>)
    | SavedAs(count: int)

  /** A snapshot as a value: its id and the keys and lists it holds. */
  datatype Shot = Shot(id: int, items: seq<Item>)

  // ---------------------------------------------------------------------
  // Lookups
  // ---------------------------------------------------------------------

  /** The position of the first occurrence of x, or None when x does not occur. */
  function IndexOf<T(==)>(s: seq<T>, x: T): (r: Option<nat>)
    ensures r.None? <==> x !in s
    ensures r.Some? ==> r.value < |s| && s[r.value] == x && x !in s[..r.value]
  {
    if s == [] then None
    else if s[0] == x then Some(0)
    else
      match IndexOf(s[1..], x)
      case None => None
      case Some(i) =>
        assert s[..i + 1] == [s[0]] + s[1..][..i];
        Some(i + 1)
  }

  /** The first occurrence is the one with no earlier occurrence. */
  lemma {:induction false} IndexOfUnique<T>(s: seq<T>, x: T, i: int)
    requires 0 <= i < |s| && s[i] == x && x !in s[..i]
    ensures IndexOf(s, x) == Some(i)
  {
    if i > 0 {
      assert s[0] != x by {
        assert s[..i][0] == s[0];
      }
      assert s[1..][..i - 1] == s[..i][1..];
      IndexOfUnique(s[1..], x, i - 1);
    }
  }

  function KeysOf(items: seq<Item>): (r: seq<string>)
    ensures |r| == |items|
  {
    seq(|items|, i requires 0 <= i < |items| => items[i].key)
  }

  /** The keys of the entry objects, in order (keys never change, so no state is read). */
  function Keys(es: seq<Entry>): (r: seq<string>)
    ensures |r| == |es|
  {
    seq(|es|, i requires 0 <= i < |es| => es[i].key)
  }

  function Ids(ss: seq<Snapshot>): (r: seq<int>)
    ensures |r| == |ss|
  {
    seq(|ss|, i requires 0 <= i < |ss| => ss[i].id)
  }

  lemma KeysItems(es: seq<Entry>)
    ensures KeysOf(Items(es)) == Keys(es)
  {
  }

  /** No key occurs twice. */
  predicate UniqueKeys(items: seq<Item>)
  {
    forall i, j :: 0 <= i < j < |items| ==> items[i].key != items[j].key
  }

  /**
   * The entries after set: the first entry with the key gets the list;
   * without one, a new entry goes to the front.
   */
  function Assign(items: seq<Item>, k: string, values: seq<int>): (r: seq<Item>)
  {
    match IndexOf(KeysOf(items), k)
    case None => [Item(k, values)] + items
    case Some(i) => items[i := Item(k, values)]
  }

  /** After set, looking the key up finds exactly the list that was set. */
  lemma SetThenGet(items: seq<Item>, k: string, values: seq<int>)
    ensures var after := Assign(items, k, values);
      IndexOf(KeysOf(after), k).Some? && after[IndexOf(KeysOf(after), k).value] == Item(k, values)
  {
    var after := Assign(items, k, values);
    match IndexOf(KeysOf(items), k)
    case None =>
      assert KeysOf(after)[0] == k;
    case Some(i) =>
      assert KeysOf(after) == KeysOf(items);
  }

  /** Set keeps keys unique, and leaves every other key's entry as it was. */
  lemma SetKeepsOthers(items: seq<Item>, k: string, values: seq<int>)
    ensures UniqueKeys(items) ==> UniqueKeys(Assign(items, k, values))
    ensures forall it :: it in items && it.key != k ==> it in Assign(items, k, values)
    ensures forall it :: it in Assign(items, k, values) && it.key != k ==> it in items
  {
    var after := Assign(items, k, values);
    match IndexOf(KeysOf(items), k)
    case None =>
      if UniqueKeys(items) {
        forall j | 0 <= j < |items|
          ensures items[j].key != k
        {
          assert KeysOf(items)[j] == items[j].key;
        }
      }
    case Some(i) =>
      forall it | it in items && it.key != k
        ensures it in after
      {
        var j :| 0 <= j < |items| && items[j] == it;
        assert after[j] == it;
      }
  }

  /** Setting the same list twice is the same as setting it once. */
  lemma SetIdempotent(items: seq<Item>, k: string, values: seq<int>)
    ensures Assign(Assign(items, k, values), k, values) == Assign(items, k, values)
  {
    SetThenGet(items, k, values);
  }

  // ---------------------------------------------------------------------
  // Key resolution for diff, inter, union and cartprod
  // ---------------------------------------------------------------------

  /**
   * The lists the multi-key commands work on: for each given key in turn,
   * the list of the first entry with that key; a key without an entry
   * contributes nothing.
   */
  function Resolved(items: seq<Item>, keys: seq<string>): seq<seq<int>>
  {
    if keys == [] then []
    else
      var rest := Resolved(items, keys[..|keys| - 1]);
      match IndexOf(KeysOf(items), keys[|keys| - 1])
      case None => rest
      case Some(j) => rest + [items[j].values]
  }

  /** Every given key has an entry. */
  predicate AllPresent(items: seq<Item>, keys: seq<string>)
  {
    forall i :: 0 <= i < |keys| ==> keys[i] in KeysOf(items)
  }

  /** As many lists as keys are resolved exactly when every key has an entry. */
  lemma {:induction false} ResolvedCount(items: seq<Item>, keys: seq<string>)
    ensures |Resolved(items, keys)| <= |keys|
    ensures |Resolved(items, keys)| == |keys| <==> AllPresent(items, keys)
  {
    if keys != [] {
      var init := keys[..|keys| - 1];
      ResolvedCount(items, init);
      if AllPresent(items, keys) {
        assert AllPresent(items, init) by {
          forall i | 0 <= i < |init| ensures init[i] in KeysOf(items) {
            assert init[i] == keys[i];
          }
        }
      }
      if AllPresent(items, init) && keys[|keys| - 1] in KeysOf(items) {
        assert AllPresent(items, keys) by {
          forall i | 0 <= i < |keys| ensures keys[i] in KeysOf(items) {
            if i < |init| {
              assert init[i] == keys[i];
            }
          }
        }
      }
    }
  }

  /** When every key has an entry, list i is the list of the first entry with key i. */
  lemma {:induction false} ResolvedAt(items: seq<Item>, keys: seq<string>, i: int)
    requires AllPresent(items, keys) && 0 <= i < |keys|
    ensures |Resolved(items, keys)| == |keys|
    ensures Resolved(items, keys)[i] == items[IndexOf(KeysOf(items), keys[i]).value].values
  {
    ResolvedCount(items, keys);
    var init := keys[..|keys| - 1];
    if i < |init| {
      assert AllPresent(items, init) by {
        forall j | 0 <= j < |init| ensures init[j] in KeysOf(items) {
          assert init[j] == keys[j];
        }
      }
      ResolvedAt(items, init, i);
      assert init[i] == keys[i];
    }
  }

  // ---------------------------------------------------------------------
  // Snapshots as values
  // ---------------------------------------------------------------------

  /** Every entry object held by one of the snapshots. */
  ghost function Footprint(ss: seq<Snapshot>): set<Entry>
    reads ss
  {
    set i, e | 0 <= i < |ss| && e in ss[i].entries :: e
  }

  ghost function Shots(ss: seq<Snapshot>): (r: seq<Shot>)
    reads ss, Footprint(ss)
    ensures |r| == |ss|
  {
    if ss == [] then []
    else
      assert forall e :: e in ss[0].entries ==> e in Footprint(ss);
      assert forall e :: e in Footprint(ss[1..]) ==> e in Footprint(ss) by {
        forall e | e in Footprint(ss[1..])
          ensures e in Footprint(ss)
        {
          var i :| 0 <= i < |ss| - 1 && e in ss[1..][i].entries;
          assert e in ss[i + 1].entries;
        }
      }
      [Shot(ss[0].id, ss[0].View())] + Shots(ss[1..])
  }

  /** A snapshot put in front adds its own entries to the footprint. */
  lemma FootprintCons(s: Snapshot, ss: seq<Snapshot>)
    ensures forall e :: e in Footprint([s] + ss) ==> e in s.entries || e in Footprint(ss)
  {
    forall e | e in Footprint([s] + ss)
      ensures e in s.entries || e in Footprint(ss)
    {
      var i :| 0 <= i < |ss| + 1 && e in ([s] + ss)[i].entries;
      if i > 0 {
        assert ([s] + ss)[i] == ss[i - 1];
      }
    }
  }

  /** A snapshot put in front comes first in the values. */
  lemma ShotsCons(s: Snapshot, ss: seq<Snapshot>)
    ensures Shots([s] + ss) == [Shot(s.id, s.View())] + Shots(ss)
  {
    assert ([s] + ss)[1..] == ss;
  }

  lemma {:induction false} ShotAt(ss: seq<Snapshot>, j: int)
    requires 0 <= j < |ss|
    ensures Shots(ss)[j] == Shot(ss[j].id, ss[j].View())
  {
    if j > 0 {
      ShotAt(ss[1..], j - 1);
    }
  }

  lemma ShotsIndex(ss: seq<Snapshot>)
    ensures forall j :: 0 <= j < |ss| ==> Shots(ss)[j] == Shot(ss[j].id, ss[j].View())
  {
    forall j | 0 <= j < |ss|
      ensures Shots(ss)[j] == Shot(ss[j].id, ss[j].View())
    {
      ShotAt(ss, j);
    }
  }

  /** Snapshots picked from a list hold no entry object outside that list's footprint. */
  lemma FootprintSub(ss: seq<Snapshot>, tt: seq<Snapshot>)
    requires forall t :: t in tt ==> t in ss
    ensures Footprint(tt) <= Footprint(ss)
  {
    forall e | e in Footprint(tt)
      ensures e in Footprint(ss)
    {
      var i :| 0 <= i < |tt| && e in tt[i].entries;
      assert tt[i] in ss;
      var j :| 0 <= j < |ss| && ss[j] == tt[i];
    }
  }

  lemma ShotsSuffix(ss: seq<Snapshot>, i: int)
    requires 0 <= i <= |ss|
    ensures Shots(ss[i..]) == Shots(ss)[i..]
  {
    forall j | 0 <= j < |ss| - i
      ensures Shots(ss[i..])[j] == Shots(ss)[i + j]
    {
      ShotAt(ss[i..], j);
      ShotAt(ss, i + j);
    }
  }

  lemma ShotsDrop(ss: seq<Snapshot>, i: int)
    requires 0 <= i < |ss|
    ensures Shots(ss[..i] + ss[i + 1..]) == Shots(ss)[..i] + Shots(ss)[i + 1..]
  {
    var tt := ss[..i] + ss[i + 1..];
    forall j | 0 <= j < |tt|
      ensures Shots(tt)[j] == (Shots(ss)[..i] + Shots(ss)[i + 1..])[j]
    {
      ShotAt(tt, j);
      if j < i {
        assert tt[j] == ss[j];
        ShotAt(ss, j);
      } else {
        assert tt[j] == ss[j + 1];
        ShotAt(ss, j + 1);
      }
    }
  }

  /** The entry list of each snapshot. */
  ghost function EntryLists(ss: seq<Snapshot>): (r: seq<seq<Entry>>)
    reads ss
    ensures |r| == |ss|
  {
    seq(|ss|, m reads ss requires 0 <= m < |ss| => ss[m].entries)
  }

  /** Every entry object in one of the lists. */
  ghost function Held(lists: seq<seq<Entry>>): set<Entry>
  {
    set m, e | 0 <= m < |lists| && e in lists[m] :: e
  }

  lemma HeldShots(ss: seq<Snapshot>)
    ensures forall j :: 0 <= j < |ss| ==> Shots(ss)[j] == Shot(ss[j].id, Items(EntryLists(ss)[j]))
    ensures Held(EntryLists(ss)) == Footprint(ss)
  {
    ShotsIndex(ss);
    var lists := EntryLists(ss);
    forall x | x in Held(lists)
      ensures x in Footprint(ss)
    {
      var m :| 0 <= m < |lists| && x in lists[m];
      assert x in ss[m].entries;
    }
  }

  /** After every list loses its entries with key k, each snapshot holds its old items without k. */
  lemma StrippedShots(ss: seq<Snapshot>, lists: seq<seq<Entry>>, k: string)
    requires |lists| == |ss|
    requires forall m :: 0 <= m < |ss| ==> ss[m].entries == WithoutKey(lists[m], k)
    ensures forall j :: 0 <= j < |ss| ==> Shots(ss)[j] == Shot(ss[j].id, RemoveKeyIn(Items(lists[j]), k))
    ensures Footprint(ss) <= Held(lists)
  {
    forall x | x in Footprint(ss)
      ensures x in Held(lists)
    {
      var m :| 0 <= m < |ss| && x in ss[m].entries;
      assert x in lists[m];
    }
    forall j | 0 <= j < |ss|
      ensures Shots(ss)[j] == Shot(ss[j].id, RemoveKeyIn(Items(lists[j]), k))
    {
      ShotAt(ss, j);
      ItemsWithoutKey(lists[j], k);
    }
  }

  lemma KeysAbsent(es: seq<Entry>, k: string)
    requires !HasKeyIn(Items(es), k)
    ensures WithoutKey(es, k) == es
  {
    forall m | 0 <= m < |es|
      ensures es[m].key != k
    {
      assert Items(es)[m].key == es[m].key;
    }
    WithoutKeyAbsent(es, k);
  }

  /** Snapshots whose objects and held entries did not change still hold the same values. */
  twostate lemma {:induction false} ShotsUnchanged(ss: seq<Snapshot>)
    requires forall i :: 0 <= i < |ss| ==> unchanged(ss[i])
    requires forall e :: e in old(Footprint(ss)) ==> unchanged(e)
    ensures Footprint(ss) == old(Footprint(ss))
    ensures Shots(ss) == old(Shots(ss))
  {
    forall e
      ensures e in Footprint(ss) <==> e in old(Footprint(ss))
    {
      if e in Footprint(ss) {
        var i :| 0 <= i < |ss| && e in ss[i].entries;
        assert e in old(ss[i].entries);
      }
      if e in old(Footprint(ss)) {
        var i :| 0 <= i < |ss| && e in old(ss[i].entries);
        assert e in ss[i].entries;
      }
    }
    if ss != [] {
      forall e | e in old(Footprint(ss[1..]))
        ensures e in old(Footprint(ss))
      {
        var i :| 0 <= i < |ss| - 1 && e in old(ss[1..][i].entries);
        assert e in old(ss[i + 1].entries);
      }
      ShotsUnchanged(ss[1..]);
      forall e | e in ss[0].entries
        ensures unchanged(e)
      {
        assert e in old(ss[0].entries);
        assert e in old(Footprint(ss));
      }
      var es := ss[0].entries;
      assert es == old(ss[0].entries);
      forall j | 0 <= j < |es|
        ensures Items(es)[j] == old(Items(es))[j]
      {
        assert es[j] in es;
      }
      assert ss[0].View() == old(ss[0].View());
    }
  }

  // ---------------------------------------------------------------------
  // The store
  // ---------------------------------------------------------------------

  class CrunchDB {
    var entries: seq<Entry>
    var snapshots: seq<Snapshot>

    /**
     * Nothing is shared: the live entries are distinct objects, the
     * snapshots are distinct objects, and no live entry is held by a
     * snapshot, so changing the live state never changes a snapshot.
     */
    ghost predicate Valid()
      reads this, snapshots
    {
      && Distinct(entries)
      && (forall i, j :: 0 <= i < j < |snapshots| ==> snapshots[i] != snapshots[j])
      && (forall e :: e in entries ==> e !in Footprint(snapshots))
    }

    /** The live keys and lists, newest first. */
    ghost function Live(): seq<Item>
      reads this, entries
    {
      Items(entries)
    }

    /** The snapshots as values, newest first. */
    ghost function History(): seq<Shot>
      reads this, snapshots, Footprint(snapshots)
    {
      Shots(snapshots)
    }

    /** The position of the newest snapshot with the id. */
    function FoundShot(id: int): Option<nat>
      reads this
    {
      IndexOf(Ids(snapshots), id)
    }

    /** The position of the first live entry with the key. */
    function Found(k: string): Option<nat>
      reads this
    {
      IndexOf(Keys(entries), k)
    }

    constructor ()
      ensures Valid()
      ensures Live() == [] && History() == []
    {
      entries := [];
      snapshots := [];
    }

    /** findKey: the first live entry with the key, or None. */
    method FindKey(k: string) returns (r: Option<Entry>)
      ensures r.None? <==> Found(k).None?
      ensures r.Some? ==> r.value == entries[Found(k).value]
    {
      for i := 0 to |entries|
        invariant k !in Keys(entries)[..i]
      {
        if entries[i].key == k {
          IndexOfUnique(Keys(entries), k, i);
          return Some(entries[i]);
        }
        assert Keys(entries)[..i + 1] == Keys(entries)[..i] + [entries[i].key];
      }
      assert Keys(entries)[..|entries|] == Keys(entries);
      return None;
    }

    /** get: the list of the first entry with the key. */
    method Get(k: string) returns (reply: Reply)
      ensures Found(k).None? ==> reply == NoSuchKey
      ensures Found(k).Some? ==> reply == Values(Live()[Found(k).value].values)
    {
      var e := FindKey(k);
      if e.None? {
        return NoSuchKey;
      }
      var values := e.value.GetValues();
      reply := Values(values);
    }

    /** set: replaces the first entry's list, or puts a new entry at the front. */
    method Set(k: string, values: seq<int>) returns (reply: Reply)
      requires Valid()
      modifies this, entries
      ensures Valid()
      ensures reply == Ok
      ensures Live() == Assign(old(Live()), k, values)
      ensures snapshots == old(snapshots) && History() == old(History())
    {
      KeysItems(entries);
      var e := FindKey(k);
      if e.None? {
        ShotsUnchanged(snapshots);
        AddFront(k, values);
      } else {
        e.value.Set(values);
        assert Items(entries) == old(Items(entries))[Found(k).value := Item(k, values)];
        ShotsUnchanged(snapshots);
      }
      reply := Ok;
    }

    /** A new entry with the key and the list goes in front of the live entries. */
    method AddFront(k: string, values: seq<int>)
      requires Valid()
      modifies this
      ensures Valid()
      ensures Live() == [Item(k, values)] + old(Live())
      ensures snapshots == old(snapshots) && History() == old(History())
    {
      var created := new Entry(k, values);
      entries := [created] + entries;
      assert Items(entries) == [Item(k, values)] + old(Items(entries));
      ShotsUnchanged(snapshots);
      assert old(History()) == old(Shots(snapshots));
    }

    /** push: puts the values at the front of the first entry with the key, the last one foremost. */
    method Push(k: string, xs: seq<int>) returns (reply: Reply)
      requires Valid()
      modifies entries
      ensures Valid()
      ensures Found(k).None? ==> reply == NoSuchKey && Live() == old(Live())
      ensures Found(k).Some? ==>
        reply == Ok && Live() == old(Live())[Found(k).value := Item(k, Reverse(xs) + old(Live())[Found(k).value].values)]
      ensures History() == old(History())
    {
      var e := FindKey(k);
      if e.None? {
        ShotsUnchanged(snapshots);
        return NoSuchKey;
      }
      e.value.Push(xs);
      assert Items(entries) == old(Items(entries))[Found(k).value := Item(k, e.value.values)];
      ShotsUnchanged(snapshots);
      reply := Ok;
    }

    /** append: adds the values at the back of the first entry with the key. */
    method Append(k: string, xs: seq<int>) returns (reply: Reply)
      requires Valid()
      modifies entries
      ensures Valid()
      ensures Found(k).None? ==> reply == NoSuchKey && Live() == old(Live())
      ensures Found(k).Some? ==>
        reply == Ok && Live() == old(Live())[Found(k).value := Item(k, old(Live())[Found(k).value].values + xs)]
      ensures History() == old(History())
    {
      var e := FindKey(k);
      if e.None? {
        ShotsUnchanged(snapshots);
        return NoSuchKey;
      }
      e.value.Append(xs);
      assert Items(entries) == old(Items(entries))[Found(k).value := Item(k, e.value.values)];
      ShotsUnchanged(snapshots);
      reply := Ok;
    }

    /** pick: the value at a 1-based position of the first entry with the key. */
    method Pick(k: string, index: int) returns (reply: Reply)
      ensures Found(k).None? ==> reply == NoSuchKey
      ensures Found(k).Some? ==>
        var values := Live()[Found(k).value].values;
        if 1 <= index <= |values| then reply == Value(values[index - 1]) else reply == IndexOutOfRange
    {
      var e := FindKey(k);
      if e.None? {
        return NoSuchKey;
      }
      var r := e.value.Pick(index);
      reply := if r.None? then IndexOutOfRange else Value(r.value);
    }

    /** pluck: like pick, and the value found is removed from the list. */
    method Pluck(k: string, index: int) returns (reply: Reply)
      requires Valid()
      modifies entries
      ensures Valid()
      ensures Found(k).None? ==> reply == NoSuchKey && Live() == old(Live())
      ensures Found(k).Some? ==>
        var i := Found(k).value;
        var values := old(Live())[i].values;
        if 1 <= index <= |values| then
          reply == Value(values[index - 1]) && Live() == old(Live())[i := Item(k, values[..index - 1] + values[index..])]
        else
          reply == IndexOutOfRange && Live() == old(Live())
      ensures History() == old(History())
    {
      var e := FindKey(k);
      if e.None? {
        ShotsUnchanged(snapshots);
        return NoSuchKey;
      }
      var r := e.value.Pluck(index);
      assert Items(entries) == old(Items(entries))[Found(k).value := Item(k, e.value.values)];
      ShotsUnchanged(snapshots);
      reply := if r.None? then IndexOutOfRange else Value(r.value);
    }

    /** pop: removes and answers the front value; Nil for an empty list. */
    method Pop(k: string) returns (reply: Reply)
      requires Valid()
      modifies entries
      ensures Valid()
      ensures Found(k).None? ==> reply == NoSuchKey && Live() == old(Live())
      ensures Found(k).Some? ==>
        var i := Found(k).value;
        var values := old(Live())[i].values;
        if values == [] then
          reply == Nil && Live() == old(Live())
        else
          reply == Value(values[0]) && Live() == old(Live())[i := Item(k, values[1..])]
      ensures History() == old(History())
    {
      var e := FindKey(k);
      if e.None? {
        ShotsUnchanged(snapshots);
        return NoSuchKey;
      }
      var r := e.value.Pop();
      assert Items(entries) == old(Items(entries))[Found(k).value := Item(k, e.value.values)];
      ShotsUnchanged(snapshots);
      reply := if r.None? then Nil else Value(r.value);
    }

    /** min: the smallest value of the first entry with the key; Nil for an empty list. */
    method Min(k: string) returns (reply: Reply)
      ensures Found(k).None? ==> reply == NoSuchKey
      ensures Found(k).Some? && Live()[Found(k).value].values == [] ==> reply == Nil
      ensures Found(k).Some? && Live()[Found(k).value].values != [] ==>
        var values := Live()[Found(k).value].values;
        reply.Value? && reply.n in values && forall x :: x in values ==> reply.n <= x
    {
      var e := FindKey(k);
      if e.None? {
        return NoSuchKey;
      }
      var values := e.value.GetValues();
      if |values| == 0 {
        return Nil;
      }
      var m := e.value.Min();
      reply := Value(m);
    }

    /** max: the largest value of the first entry with the key; Nil for an empty list. */
    method Max(k: string) returns (reply: Reply)
      ensures Found(k).None? ==> reply == NoSuchKey
      ensures Found(k).Some? && Live()[Found(k).value].values == [] ==> reply == Nil
      ensures Found(k).Some? && Live()[Found(k).value].values != [] ==>
        var values := Live()[Found(k).value].values;
        reply.Value? && reply.n in values && forall x :: x in values ==> x <= reply.n
    {
      var e := FindKey(k);
      if e.None? {
        return NoSuchKey;
      }
      var values := e.value.GetValues();
      if |values| == 0 {
        return Nil;
      }
      var m := e.value.Max();
      reply := Value(m);
    }

    /** sum: the 32-bit wrapped total of the first entry with the key; Nil for an empty list. */
    method Sum(k: string) returns (reply: Reply)
      ensures Found(k).None? ==> reply == NoSuchKey
      ensures Found(k).Some? && Live()[Found(k).value].values == [] ==> reply == Nil
      ensures Found(k).Some? && Live()[Found(k).value].values != [] ==>
        reply == Value(Wrap32(Total(Live()[Found(k).value].values)))
    {
      var e := FindKey(k);
      if e.None? {
        return NoSuchKey;
      }
      var values := e.value.GetValues();
      if |values| == 0 {
        return Nil;
      }
      var total := e.value.Sum();
      reply := Value(total);
    }

    /** len: the number of values of the first entry with the key. */
    method Len(k: string) returns (reply: Reply)
      ensures Found(k).None? ==> reply == NoSuchKey
      ensures Found(k).Some? ==> reply == Value(|Live()[Found(k).value].values|)
    {
      var e := FindKey(k);
      if e.None? {
        return NoSuchKey;
      }
      var n := e.value.Len();
      reply := Value(n);
    }

    /** rev: reverses the list of the first entry with the key. */
    method Rev(k: string) returns (reply: Reply)
      requires Valid()
      modifies entries
      ensures Valid()
      ensures Found(k).None? ==> reply == NoSuchKey && Live() == old(Live())
      ensures Found(k).Some? ==>
        reply == Ok && Live() == old(Live())[Found(k).value := Item(k, Reverse(old(Live())[Found(k).value].values))]
      ensures History() == old(History())
    {
      var e := FindKey(k);
      if e.None? {
        ShotsUnchanged(snapshots);
        return NoSuchKey;
      }
      e.value.Rev();
      assert Items(entries) == old(Items(entries))[Found(k).value := Item(k, e.value.values)];
      ShotsUnchanged(snapshots);
      reply := Ok;
    }

    /** uniq: collapses each run of equal neighbours in the list of the first entry with the key. */
    method Uniq(k: string) returns (reply: Reply)
      requires Valid()
      modifies entries
      ensures Valid()
      ensures Found(k).None? ==> reply == NoSuchKey && Live() == old(Live())
      ensures Found(k).Some? ==>
        reply == Ok && Live() == old(Live())[Found(k).value := Item(k, Dedup(old(Live())[Found(k).value].values))]
      ensures History() == old(History())
    {
      var e := FindKey(k);
      if e.None? {
        ShotsUnchanged(snapshots);
        return NoSuchKey;
      }
      e.value.Uniq();
      assert Items(entries) == old(Items(entries))[Found(k).value := Item(k, e.value.values)];
      ShotsUnchanged(snapshots);
      reply := Ok;
    }

    /** sort: sorts the list of the first entry with the key in ascending order. */
    method Sort(k: string) returns (reply: Reply)
      requires Valid()
      modifies entries
      ensures Valid()
      ensures Found(k).None? ==> reply == NoSuchKey && Live() == old(Live())
      ensures Found(k).Some? ==>
        reply == Ok && Live() == old(Live())[Found(k).value := Item(k, SortSeq(old(Live())[Found(k).value].values))]
      ensures History() == old(History())
    {
      var e := FindKey(k);
      if e.None? {
        ShotsUnchanged(snapshots);
        return NoSuchKey;
      }
      e.value.Sort();
      assert Items(entries) == old(Items(entries))[Found(k).value := Item(k, e.value.values)];
      ShotsUnchanged(snapshots);
      reply := Ok;
    }

    /** del: removes the first live entry with the key; snapshots keep theirs. */
    method Del(k: string) returns (reply: Reply)
      requires Valid()
      modifies this
      ensures Valid()
      ensures old(Found(k)).None? ==> reply == NoSuchKey && Live() == old(Live())
      ensures old(Found(k)).Some? ==>
        reply == Ok && Live() == old(Live())[..old(Found(k)).value] + old(Live())[old(Found(k)).value + 1..]
      ensures snapshots == old(snapshots) && History() == old(History())
    {
      var e := FindKey(k);
      if e.None? {
        ShotsUnchanged(snapshots);
        return NoSuchKey;
      }
      ShotsUnchanged(snapshots);
      RemoveAt(Found(k).value);
      reply := Ok;
    }

    /** entries.remove of the entry found: the live entry at position i goes; the snapshots stay. */
    method RemoveAt(i: nat)
      requires Valid() && i < |entries|
      modifies this
      ensures Valid()
      ensures entries == old(entries[..i] + entries[i + 1..])
      ensures Live() == old(Live())[..i] + old(Live())[i + 1..]
      ensures snapshots == old(snapshots) && History() == old(History())
    {
      entries := entries[..i] + entries[i + 1..];
      assert Items(entries) == old(Items(entries))[..i] + old(Items(entries))[i + 1..];
      assert forall x :: x in entries ==> x in old(entries);
      ShotsUnchanged(snapshots);
    }

    /**
     * purge: removes the first live entry with the key, and every entry with
     * the key from every snapshot.
     */
    method Purge(k: string) returns (reply: Reply)
      requires Valid()
      modifies this, snapshots
      ensures Valid()
      ensures reply == Ok
      ensures old(Found(k)).None? ==> Live() == old(Live())
      ensures old(Found(k)).Some? ==>
        Live() == old(Live())[..old(Found(k)).value] + old(Live())[old(Found(k)).value + 1..]
      ensures |History()| == |old(History())|
      ensures forall j :: 0 <= j < |History()| ==>
        History()[j] == Shot(old(History())[j].id, RemoveKeyIn(old(History())[j].items, k))
      ensures forall j :: 0 <= j < |History()| ==> !HasKeyIn(History()[j].items, k)
    {
      ghost var live0 := Live();
      ghost var found0 := Found(k);
      var e := FindKey(k);
      ShotsUnchanged(snapshots);
      assert Live() == live0;
      if e.Some? {
        ghost var i := Found(k).value;
        assert found0 == Some(i);
        RemoveAt(Found(k).value);
        assert Live() == live0[..i] + live0[i + 1..];
      }
      ghost var liveAfter := Live();
      assert found0.Some? ==> liveAfter == live0[..found0.value] + live0[found0.value + 1..];
      assert found0.None? ==> liveAfter == live0;
      PurgeSnapshots(k);
      reply := Ok;
    }

    /** Every snapshot loses its entries with the key; the live entries stay. */
    method PurgeSnapshots(k: string)
      requires Valid()
      modifies snapshots
      ensures Valid()
      ensures Live() == old(Live())
      ensures |History()| == |old(History())|
      ensures forall j :: 0 <= j < |History()| ==>
        History()[j] == Shot(old(History())[j].id, RemoveKeyIn(old(History())[j].items, k))
    {
      ghost var lists := EntryLists(snapshots);
      ghost var before := History();
      HeldShots(snapshots);
      StripKey(k);
      StrippedShots(snapshots, lists, k);
      forall j | 0 <= j < |snapshots|
        ensures History()[j] == Shot(before[j].id, RemoveKeyIn(before[j].items, k))
      {
        assert Items(lists[j]) == before[j].items;
      }
      assert forall x :: x in entries ==> x !in Held(lists);
    }

    /** The snapshot half of purge: every snapshot loses its entries with the key. */
    method StripKey(k: string)
      requires forall i, j :: 0 <= i < j < |snapshots| ==> snapshots[i] != snapshots[j]
      modifies snapshots
      ensures forall m :: 0 <= m < |snapshots| ==> snapshots[m].entries == WithoutKey(old(snapshots[m].entries), k)
    {
      for j := 0 to |snapshots|
        invariant forall m :: 0 <= m < j ==> snapshots[m].entries == WithoutKey(old(snapshots[m].entries), k)
        invariant forall m :: j <= m < |snapshots| ==> snapshots[m].entries == old(snapshots[m].entries)
      {
        var has := snapshots[j].HasKey(k);
        if has {
          snapshots[j].RemoveKey(k);
        } else {
          KeysAbsent(snapshots[j].entries, k);
        }
      }
    }

    /** The position of the newest snapshot with the id, found by a scan from the newest. */
    method SnapshotAt(id: int) returns (r: Option<nat>)
      ensures r == FoundShot(id)
      ensures r.Some? ==> r.value < |snapshots| && snapshots[r.value].id == id
    {
      for i := 0 to |snapshots|
        invariant id !in Ids(snapshots)[..i]
      {
        if snapshots[i].id == id {
          IndexOfUnique(Ids(snapshots), id, i);
          return Some(i);
        }
        assert Ids(snapshots)[..i + 1] == Ids(snapshots)[..i] + [snapshots[i].id];
      }
      assert Ids(snapshots)[..|snapshots|] == Ids(snapshots);
      return None;
    }

    /** drop: removes the newest snapshot with the id. */
    method Drop(id: int) returns (reply: Reply)
      requires Valid()
      modifies this
      ensures Valid()
      ensures entries == old(entries) && Live() == old(Live())
      ensures old(FoundShot(id)).None? ==> reply == NoSuchSnapshot && History() == old(History())
      ensures old(FoundShot(id)).Some? ==>
        var i := old(FoundShot(id)).value;
        reply == Ok && History() == old(History())[..i] + old(History())[i + 1..]
    {
      var found := SnapshotAt(id);
      ShotsUnchanged(snapshots);
      if found.None? {
        return NoSuchSnapshot;
      }
      RemoveShot(found.value);
      reply := Ok;
    }

    /** Removes the snapshot at the index; the others keep their order. */
    method RemoveShot(i: nat)
      requires Valid() && i < |snapshots|
      modifies this
      ensures Valid()
      ensures entries == old(entries) && Live() == old(Live())
      ensures History() == old(History())[..i] + old(History())[i + 1..]
    {
      ghost var before := snapshots;
      snapshots := snapshots[..i] + snapshots[i + 1..];
      FootprintSub(before, snapshots);
      ShotsUnchanged(before);
      ShotsDrop(before, i);
    }

    /**
     * rollback: the live entries become a copy of the newest snapshot with
     * the id, and the snapshots newer than it are dropped (it stays).
     */
    method Rollback(id: int) returns (reply: Reply)
      requires Valid()
      modifies this
      ensures Valid()
      ensures old(FoundShot(id)).None? ==>
        reply == NoSuchSnapshot && Live() == old(Live()) && History() == old(History())
      ensures old(FoundShot(id)).Some? ==>
        var i := old(FoundShot(id)).value;
        reply == Ok && Live() == old(History())[i].items && History() == old(History())[i..]
    {
      var found := SnapshotAt(id);
      ShotsUnchanged(snapshots);
      if found.None? {
        return NoSuchSnapshot;
      }
      LoadShot(found.value);
      KeepFrom(found.value);
      reply := Ok;
    }

    /** The live entries become a fresh copy of the snapshot at the index; the snapshots stay. */
    method LoadShot(index: nat)
      requires Valid() && index < |snapshots|
      modifies this
      ensures Valid()
      ensures snapshots == old(snapshots) && History() == old(History())
      ensures Live() == old(History())[index].items
    {
      ShotAt(snapshots, index);
      var restored := snapshots[index].Rollback();
      entries := restored;
      ShotsUnchanged(snapshots);
    }

    /** Drops the snapshots newer than the one at the index, which stays. */
    method KeepFrom(index: nat)
      requires Valid() && index < |snapshots|
      modifies this
      ensures Valid()
      ensures entries == old(entries) && Live() == old(Live())
      ensures History() == old(History())[index..]
    {
      ghost var before := snapshots;
      var newSnapshots := [];
      for k := index to |snapshots|
        invariant newSnapshots == snapshots[index..k]
      {
        newSnapshots := newSnapshots + [snapshots[k]];
      }
      snapshots := newSnapshots;
      assert snapshots == before[index..];
      FootprintSub(before, snapshots);
      ShotsUnchanged(before);
      ShotsSuffix(before, index);
    }

    /** checkout: the live entries become a copy of the newest snapshot with the id; the snapshots stay. */
    method Checkout(id: int) returns (reply: Reply)
      requires Valid()
      modifies this
      ensures Valid()
      ensures snapshots == old(snapshots) && History() == old(History())
      ensures old(FoundShot(id)).None? ==> reply == NoSuchSnapshot && Live() == old(Live())
      ensures old(FoundShot(id)).Some? ==> reply == Ok && Live() == old(History())[old(FoundShot(id)).value].items
    {
      var found := SnapshotAt(id);
      if found.None? {
        ShotsUnchanged(snapshots);
        return NoSuchSnapshot;
      }
      ShotsUnchanged(snapshots);
      ShotAt(snapshots, found.value);
      ghost var view := snapshots[found.value].View();
      assert old(History())[found.value].items == view;
      var restored := snapshots[found.value].Rollback();
      var copyEntries := CopyAll(restored);
      assert Items(copyEntries) == view;
      entries := copyEntries;
      ShotsUnchanged(snapshots);
      reply := Ok;
    }

    /**
     * snapshot: saves a copy of the live entries as the newest snapshot. Its
     * id is one more than the number of snapshots before it, which is also
     * the count reported.
     */
    method TakeSnapshot() returns (reply: Reply)
      requires Valid()
      modifies this
      ensures Valid()
      ensures entries == old(entries) && Live() == old(Live())
      ensures History() == [Shot(|old(snapshots)| + 1, old(Live()))] + old(History())
      ensures reply == SavedAs(|old(snapshots)| + 1)
    {
      ghost var before := snapshots;
      var copyEntries := CopyAll(entries);
      var created := new Snapshot(|snapshots| + 1, copyEntries);
      snapshots := [created] + snapshots;
      ShotsUnchanged(before);
      FootprintCons(created, before);
      ShotsCons(created, before);
      reply := SavedAs(|snapshots|);
    }

    /**
     * archive: the file contents written for the newest snapshot with the id,
     * or no file at all when there is no such snapshot.
     */
    method Archive(id: int) returns (reply: Reply, file: Option<string>)
      ensures FoundShot(id).None? ==> reply == NoSuchSnapshot && file == None
      ensures FoundShot(id).Some? ==>
        reply == Ok && file == Some(ArchiveText(History()[FoundShot(id).value].items))
    {
      var found := SnapshotAt(id);
      if found.None? {
        return NoSuchSnapshot, None;
      }
      var text := snapshots[found.value].Archive();
      ShotAt(snapshots, found.value);
      return Ok, Some(text);
    }

    /**
     * restore: the live entries become those read from the file (None when it
     * cannot be opened), and every snapshot is removed.
     */
    method Restore(file: Option<string>) returns (reply: Reply)
      modifies this
      ensures Valid()
      ensures reply == Ok
      ensures Live() == RestoreFile(file)
      ensures snapshots == [] && History() == []
    {
      var newEntries := Snapshots.Restore(file);
      entries := newEntries;
      ghost var restored := Live();
      // The source removes index i and steps i back, so it always removes the head.
      while snapshots != []
        invariant entries == newEntries && Live() == restored
        decreases |snapshots|
      {
        snapshots := snapshots[1..];
      }
      reply := Ok;
    }

    /**
     * The key resolution shared by diff, inter, union and cartprod: the lists
     * of the first entries with the given keys, and how many keys matched.
     */
    method Resolve(keys: seq<string>) returns (lists: seq<seq<int>>, counter: int)
      ensures lists == Resolved(Live(), keys)
      ensures counter == |lists|
    {
      lists := [];
      counter := 0;
      KeysItems(entries);
      for i := 0 to |keys|
        invariant lists == Resolved(Live(), keys[..i])
        invariant counter == |lists|
      {
        assert keys[..i + 1][..i] == keys[..i];
        for k := 0 to |entries|
          invariant keys[i] !in Keys(entries)[..k]
          invariant lists == Resolved(Live(), keys[..i]) && counter == |lists|
        {
          if entries[k].key == keys[i] {
            IndexOfUnique(Keys(entries), keys[i], k);
            var values := entries[k].GetValues();
            lists := lists + [values];
            counter := counter + 1;
            break;
          }
          assert Keys(entries)[..k + 1] == Keys(entries)[..k] + [entries[k].key];
        }
        assert Keys(entries)[..|entries|] == Keys(entries);
      }
      assert keys[..|keys|] == keys;
    }

    /**
     * diff: the values held by exactly one of the keys' lists, ascending and
     * without repeats; NotEnoughArguments when some key has no entry.
     */
    method Diff(keys: seq<string>) returns (reply: Reply)
      ensures !AllPresent(Live(), keys) ==> reply == NotEnoughArguments
      ensures AllPresent(Live(), keys) ==>
        && reply.Values?
        && StrictlyAscending(reply.values)
        && forall v :: v in reply.values <==> SetAlgebra.Holders(Resolved(Live(), keys), v) == 1
    {
      var lists, counter := Resolve(keys);
      ResolvedCount(Live(), keys);
      if counter != |keys| {
        reply := NotEnoughArguments;
      } else {
        var r := SetAlgebra.Diff(lists);
        reply := Values(r);
      }
    }

    /**
     * inter: the values held by every one of the keys' lists, ascending and
     * without repeats; NotEnoughArguments when some key has no entry.
     */
    method Inter(keys: seq<string>) returns (reply: Reply)
      requires |keys| >= 1
      ensures !AllPresent(Live(), keys) ==> reply == NotEnoughArguments
      ensures AllPresent(Live(), keys) ==>
        && reply.Values?
        && StrictlyAscending(reply.values)
        && forall v :: v in reply.values <==> SetAlgebra.InAll(Resolved(Live(), keys), v)
    {
      var lists, counter := Resolve(keys);
      ResolvedCount(Live(), keys);
      if counter == |keys| {
        var r := SetAlgebra.Inter(lists);
        reply := Values(r);
      } else {
        reply := NotEnoughArguments;
      }
    }

    /**
     * union: the values held by some of the keys' lists, ascending and without
     * repeats; NotEnoughArguments when some key has no entry or fewer than two
     * keys are given.
     */
    method Union(keys: seq<string>) returns (reply: Reply)
      ensures !(AllPresent(Live(), keys) && |keys| >= 2) ==> reply == NotEnoughArguments
      ensures AllPresent(Live(), keys) && |keys| >= 2 ==>
        && reply.Values?
        && StrictlyAscending(reply.values)
        && forall v :: v in reply.values <==> SetAlgebra.InSome(Resolved(Live(), keys), v)
    {
      var lists, counter := Resolve(keys);
      ResolvedCount(Live(), keys);
      if counter == |keys| && |keys| >= 2 {
        var r := SetAlgebra.Union(lists);
        reply := Values(r);
      } else {
        reply := NotEnoughArguments;
      }
    }

    /**
     * cartprod: the Cartesian product of the keys' lists (a single row holding
     * the whole list when one key is given); NoSuchKey when some key has no
     * entry.
     */
    method Cartprod(keys: seq<string>) returns (reply: Reply)
      requires |keys| >= 1
      ensures !AllPresent(Live(), keys) ==> reply == NoSuchKey
      ensures AllPresent(Live(), keys) && |keys| == 1 ==> reply == Rows(Resolved(Live(), keys))
      ensures AllPresent(Live(), keys) && |keys| >= 2 ==>
        reply == Rows(SetAlgebra.Product(Resolved(Live(), keys)))
    {
      var lists, counter := Resolve(keys);
      ResolvedCount(Live(), keys);
      if counter == |keys| {
        var rows := SetAlgebra.Cartprod(lists);
        reply := Rows(rows);
      } else {
        reply := NoSuchKey;
      }
    }
  }

  /**
   * Snapshot ids are not unique: take two snapshots (ids 1 and 2), drop id 1,
   * and the next snapshot is numbered 2 again.
   */
  method IdReuse() returns (ids: seq<int>)
    ensures ids == [2, 2]
  {
    var db := new CrunchDB();
    var reply := db.TakeSnapshot();
    reply := db.TakeSnapshot();
    assert db.History() == [Shot(2, []), Shot(1, [])];
    ShotsIndex(db.snapshots);
    assert Ids(db.snapshots) == [2, 1];
    assert db.FoundShot(1) == Some(1);
    reply := db.Drop(1);
    assert db.History() == [Shot(2, [])];
    reply := db.TakeSnapshot();
    assert db.History() == [Shot(2, []), Shot(2, [])];
    ShotsIndex(db.snapshots);
    ids := Ids(db.snapshots);
  }
}
