/**
 * A point-in-time copy of the store (Snapshot.java): an id and a list of
 * entry objects of its own. Also the archive file format: writing a
 * snapshot's entries one line each, and reading entries back from such a
 * file.
 */
module Snapshots {
  import opened Options
  import opened Text
  import opened Entries

  // ---------------------------------------------------------------------
  // The entry list as values
  // ---------------------------------------------------------------------

  /** Some item has key k. */
  predicate HasKeyIn(items: seq<Item>, k: string)
  {
    exists i :: 0 <= i < |items| && items[i].key == k
  }

  /** The items whose key is not k, in their original order. */
  function RemoveKeyIn(items: seq<Item>, k: string): (r: seq<Item>)
    ensures !HasKeyIn(r, k)
    ensures forall it :: it in r <==> it in items && it.key != k
    ensures |r| <= |items|
  {
    if items == [] then []
    else
      var rest := RemoveKeyIn(items[1..], k);
      assert forall it :: it in items <==> it == items[0] || it in items[1..];
      if items[0].key == k then rest else [items[0]] + rest
  }

  /** Removing a key that no item has changes nothing. */
  lemma {:induction false} RemoveAbsentKey(items: seq<Item>, k: string)
    requires !HasKeyIn(items, k)
    ensures RemoveKeyIn(items, k) == items
  {
    if items != [] {
      assert items[0].key != k;
      forall i | 0 <= i < |items| - 1
        ensures items[1..][i].key != k
      {
        assert items[i + 1].key != k;
      }
      RemoveAbsentKey(items[1..], k);
    }
  }

  /** The entry objects whose key is not k, in their original order. */
  function WithoutKey(es: seq<Entry>, k: string): (r: seq<Entry>)
    ensures forall e :: e in r ==> e in es
  {
    if es == [] then []
    else if es[0].key == k then WithoutKey(es[1..], k)
    else [es[0]] + WithoutKey(es[1..], k)
  }

  lemma {:induction false} ItemsWithoutKey(es: seq<Entry>, k: string)
    ensures Items(WithoutKey(es, k)) == RemoveKeyIn(Items(es), k)
  {
    if es != [] {
      ItemsWithoutKey(es[1..], k);
      assert Items(es)[1..] == Items(es[1..]);
      if es[0].key != k {
        assert Items([es[0]] + WithoutKey(es[1..], k)) == [Items(es)[0]] + Items(WithoutKey(es[1..], k));
      }
    }
  }

  // ---------------------------------------------------------------------
  // The archive file format
  // ---------------------------------------------------------------------

  /** The rendering of each value. */
  function Shown(values: seq<int>): (r: seq<string>)
    ensures |r| == |values|
  {
    seq(|values|, i requires 0 <= i < |values| => ShowInt(values[i]))
  }

  /** One entry's line: the key, a bar, then the values separated by commas ("k|" for an empty list). */
  function Line(it: Item): string
  {
    it.key + "|" + Join(Shown(it.values), ',')
  }

  function ArchiveLines(items: seq<Item>): (r: seq<string>)
    ensures |r| == |items|
  {
    seq(|items|, i requires 0 <= i < |items| => Line(items[i]))
  }

  /** The whole file: every entry's line, in order, each ended by a newline. */
  function ArchiveText(items: seq<Item>): string
  {
    Terminated(ArchiveLines(items))
  }

  /** What reading one line does to the load. */
  datatype LineOutcome =
    | Parsed(item: Item)   // an entry with at least one value
    | Skipped              // a value list that splits into nothing, such as "k|,"
    | Halted               // an exception: no second segment, or a token parseInt refuses

  /** Every token as an int, or None at the first one parseInt refuses. */
  function ParseAll(tokens: seq<string>): (r: Option<seq<int>>)
    ensures r.Some? ==> |r.value| == |tokens|
  {
    if tokens == [] then Some([])
    else
      match ParseInt(tokens[0])
      case None => None
      case Some(v) =>
        match ParseAll(tokens[1..])
        case None => None
        case Some(vs) => Some([v] + vs)
  }

  /**
   * One line as Snapshot.restore reads it: split on '|', the key is the
   * first segment (an empty key is accepted), the second segment split on ','
   * and parsed token by token; later segments are ignored.
   */
  function ParseLine(line: string): LineOutcome
  {
    var segments := Split(line, '|');
    if |segments| < 2 then Halted
    else
      match ParseAll(Split(segments[1], ','))
      case None => Halted
      case Some(values) =>
        if |values| == 0 then Skipped else Parsed(Item(segments[0], values))
  }

  /** The entries read from the lines: skipped lines add nothing, and the first halting line ends the load. */
  function RestoreLines(lines: seq<string>): seq<Item>
  {
    if lines == [] then []
    else
      match ParseLine(lines[0])
      case Halted => []
      case Skipped => RestoreLines(lines[1..])
      case Parsed(it) => [it] + RestoreLines(lines[1..])
  }

  /** The entries Snapshot.restore returns: none when the file cannot be opened. */
  function RestoreFile(file: Option<string>): seq<Item>
  {
    match file
    case None => []
    case Some(text) => RestoreLines(Lines(text))
  }

  /** Entries that survive a round trip through the file: a non-empty list of ints and a key without '|' or newline. */
  predicate Archivable(it: Item)
  {
    && it.values != []
    && '|' !in it.key
    && '\n' !in it.key
    && forall v :: v in it.values ==> IsInt32(v)
  }

  lemma ShownTokens(values: seq<int>)
    ensures forall i :: 0 <= i < |values| ==> ',' !in Shown(values)[i] && '|' !in Shown(values)[i]
    ensures forall i :: 0 <= i < |values| ==> '\n' !in Shown(values)[i] && Shown(values)[i] != []
  {
    forall i | 0 <= i < |values|
      ensures ',' !in Shown(values)[i] && '|' !in Shown(values)[i]
      ensures '\n' !in Shown(values)[i] && Shown(values)[i] != []
    {
      ShowIntChars(values[i]);
    }
  }

  lemma {:induction false} ParseAllShown(values: seq<int>)
    requires forall v :: v in values ==> IsInt32(v)
    ensures ParseAll(Shown(values)) == Some(values)
  {
    if values != [] {
      var rest := values[1..];
      assert Shown(values)[1..] == Shown(rest);
      ParseAllShown(rest);
      ParseHead(values);
      assert [values[0]] + rest == values;
    }
  }

  /** The first token of the rendering reads back as the first value. */
  lemma ParseHead(values: seq<int>)
    requires values != [] && IsInt32(values[0])
    ensures ParseInt(Shown(values)[0]) == Some(values[0])
  {
    ShowParse(values[0]);
  }

  /** Splitting the comma-joined rendering gives back one token per value. */
  lemma SplitShown(values: seq<int>)
    requires values != []
    ensures Split(Join(Shown(values), ','), ',') == Shown(values)
  {
    var tokens := Shown(values);
    ShownTokens(values);
    PiecesJoin(tokens, ',');
    if |tokens| == 1 {
      assert Join(tokens, ',') == tokens[0];
    } else {
      assert ',' in Join(tokens, ',') by {
        assert Join(tokens, ',') == tokens[0] + [','] + Join(tokens[1..], ',');
        assert Join(tokens, ',')[|tokens[0]|] == ',';
      }
      assert tokens[|tokens| - 1] != [];
    }
  }

  /** An archivable entry's line reads back as that entry. */
  lemma ParseLineOf(it: Item)
    requires Archivable(it)
    ensures ParseLine(Line(it)) == Parsed(it)
  {
    var joined := Join(Shown(it.values), ',');
    ShownTokens(it.values);
    JoinAvoids(Shown(it.values), ',', '|');
    PiecesPlain(joined, '|');
    PiecesCons(it.key, '|', joined);
    assert Line(it) == it.key + ['|'] + joined;
    assert Line(it)[|it.key|] == '|';
    assert joined != [] by {
      assert Shown(it.values)[0] != [];
      if |it.values| > 1 {
        assert joined == Shown(it.values)[0] + [','] + Join(Shown(it.values)[1..], ',');
      }
    }
    assert Split(Line(it), '|') == [it.key, joined];
    SplitShown(it.values);
    ParseAllShown(it.values);
  }

  /** An entry with an empty list is written as "k|", which halts the load when read back. */
  lemma EmptyListHalts(k: string)
    requires '|' !in k
    ensures Line(Item(k, [])) == k + "|"
    ensures ParseLine(k + "|") == Halted
  {
    var line := k + "|";
    assert Line(Item(k, [])) == line;
    assert line == k + ['|'] + [];
    PiecesCons(k, '|', []);
    assert line[|k|] == '|';
    assert Pieces(line, '|') == [k, []];
    assert DropTrailingEmpty([k, []]) == DropTrailingEmpty([k]);
  }

  /** A line whose value segment is a lone comma splits into no tokens, so it is skipped. */
  lemma CommaOnlySkipped(k: string)
    requires '|' !in k
    ensures ParseLine(k + "|,") == Skipped
  {
    var line := k + "|,";
    assert line == k + ['|'] + ",";
    PiecesPlain(",", '|');
    PiecesCons(k, '|', ",");
    assert line[|k|] == '|';
    assert Split(line, '|') == [k, ","];
    assert "," == [] + [','] + [];
    PiecesCons([], ',', []);
    assert ","[0] == ',';
    assert DropTrailingEmpty([[], []]) == [];
    assert Split(",", ',') == [];
  }

  /** The key may be empty: a line starting with the bar restores an entry with key "". */
  lemma EmptyKeyAccepted(v: int)
    requires IsInt32(v)
    ensures ParseLine("|" + ShowInt(v)) == Parsed(Item("", [v]))
  {
    var token := ShowInt(v);
    var line := "|" + token;
    ShowIntChars(v);
    assert '|' !in token && ',' !in token;
    assert line == [] + ['|'] + token;
    PiecesPlain(token, '|');
    PiecesCons([], '|', token);
    assert line[0] == '|';
    assert Split(line, '|') == ["", token];
    assert Split(token, ',') == [token];
    ShowParse(v);
    var tokens := [token];
    assert tokens[0] == token && tokens[1..] == [];
    assert ParseAll(tokens[1..]) == Some([]);
    assert ParseAll(tokens) == Some([v] + []);
  }

  /** A halting line ends the load: what was read before it is all that is kept. */
  lemma {:induction false} RestoreHaltsAt(lines: seq<string>, j: int)
    requires 0 <= j < |lines| && ParseLine(lines[j]) == Halted
    ensures RestoreLines(lines) == RestoreLines(lines[..j])
  {
    if j > 0 {
      assert lines[1..][..j - 1] == lines[..j][1..];
      RestoreHaltsAt(lines[1..], j - 1);
    }
  }

  lemma {:induction false} RestoreArchiveLines(items: seq<Item>)
    requires forall i :: 0 <= i < |items| ==> Archivable(items[i])
    ensures RestoreLines(ArchiveLines(items)) == items
  {
    if items != [] {
      ParseLineOf(items[0]);
      assert ArchiveLines(items)[1..] == ArchiveLines(items[1..]);
      RestoreArchiveLines(items[1..]);
    }
  }

  lemma ArchiveLinesSingle(items: seq<Item>)
    requires forall i :: 0 <= i < |items| ==> '\n' !in items[i].key
    ensures forall i :: 0 <= i < |items| ==> '\n' !in ArchiveLines(items)[i]
  {
    forall i | 0 <= i < |items|
      ensures '\n' !in ArchiveLines(items)[i]
    {
      ShownTokens(items[i].values);
      JoinAvoids(Shown(items[i].values), ',', '\n');
    }
  }

  /**
   * Archiving then restoring gives back the entries exactly (same keys, same
   * lists, same order), provided every list is non-empty and no key holds a
   * bar or a newline.
   */
  lemma ArchiveRestore(items: seq<Item>)
    requires forall i :: 0 <= i < |items| ==> Archivable(items[i])
    ensures RestoreFile(Some(ArchiveText(items))) == items
  {
    ArchiveLinesSingle(items);
    LinesTerminated(ArchiveLines(items));
    RestoreArchiveLines(items);
  }

  /**
   * An archived entry with an empty list cuts the round trip short: only the
   * entries before it come back.
   */
  lemma ArchiveRestoreStopsAtEmpty(items: seq<Item>, j: int)
    requires 0 <= j < |items| && items[j].values == []
    requires forall i :: 0 <= i < j ==> Archivable(items[i])
    requires forall i :: 0 <= i < |items| ==> '|' !in items[i].key && '\n' !in items[i].key
    ensures RestoreFile(Some(ArchiveText(items))) == items[..j]
  {
    var lines := ArchiveLines(items);
    ArchiveLinesSingle(items);
    LinesTerminated(lines);
    EmptyListHalts(items[j].key);
    assert items[j] == Item(items[j].key, []);
    RestoreHaltsAt(lines, j);
    assert lines[..j] == ArchiveLines(items[..j]);
    RestoreArchiveLines(items[..j]);
  }

  // ---------------------------------------------------------------------
  // The snapshot object
  // ---------------------------------------------------------------------

  class Snapshot {
    const id: int
    var entries: seq<Entry>

    /** The keys and lists this snapshot holds, in order. */
    ghost function View(): seq<Item>
      reads this, entries
    {
      Items(entries)
    }

    /** Snapshot(id, entries): a deep copy, so later changes to the source entries do not reach it. */
    constructor (id: int, src: seq<Entry>)
      ensures this.id == id
      ensures View() == Items(src)
      ensures forall e :: e in entries ==> fresh(e)
    {
      this.id := id;
      var allEntries := CopyAll(src);
      this.entries := allEntries;
    }

    /** True exactly when some stored entry has the key. */
    method HasKey(k: string) returns (found: bool)
      ensures found <==> HasKeyIn(View(), k)
    {
      for i := 0 to |entries|
        invariant forall j :: 0 <= j < i ==> entries[j].key != k
      {
        if entries[i].key == k {
          assert View()[i].key == k;
          return true;
        }
      }
      return false;
    }

    method GetId() returns (r: int)
      ensures r == id
    {
      r := id;
    }

    /** A deep copy of the stored entries: equal keys, lists and order; nothing shared. */
    method GetEntries() returns (copies: seq<Entry>)
      ensures Items(copies) == View()
      ensures forall e :: e in copies ==> fresh(e)
      ensures Distinct(copies)
    {
      copies := CopyAll(entries);
    }

    /** The entries to restore the store to: a deep copy, exactly as GetEntries. */
    method Rollback() returns (copies: seq<Entry>)
      ensures Items(copies) == View()
      ensures forall e :: e in copies ==> fresh(e)
      ensures Distinct(copies)
    {
      copies := GetEntries();
    }

    /** Removes every entry with the key, keeping the others in order. */
    method RemoveKey(k: string)
      modifies this
      ensures entries == WithoutKey(old(entries), k)
      ensures View() == RemoveKeyIn(old(View()), k)
      ensures !HasKeyIn(View(), k)
    {
      ghost var original := entries;
      var i := 0;
      while i < |entries|
        invariant 0 <= i <= |entries|
        invariant forall j :: 0 <= j < i ==> entries[j].key != k
        invariant WithoutKey(entries, k) == WithoutKey(original, k)
        decreases |entries| - i
      {
        if entries[i].key == k {
          WithoutKeyRemove(entries, i, k);
          entries := entries[..i] + entries[i + 1..];
        } else {
          i := i + 1;
        }
      }
      WithoutKeyAbsent(entries, k);
      ItemsWithoutKey(original, k);
    }

    /**
     * The file contents archive writes: for each entry in stored order, the
     * key and a bar, each value followed by a comma unless it is the last,
     * then a newline.
     */
    method Archive() returns (text: string)
      ensures text == ArchiveText(View())
    {
      text := [];
      ghost var view := View();
      for i := 0 to |entries|
        invariant text == Terminated(ArchiveLines(view[..i]))
      {
        var entryValues := entries[i].GetValues();
        var valueText := ValueText(entryValues);
        var line := entries[i].key + "|" + valueText;
        ArchiveStep(view, i, text, line);
        text := text + line + "\n";
      }
      assert view[..|entries|] == view;
    }
  }

  /**
   * Snapshot.restore: reads the file line by line, skipping lines that
   * parse to no values and stopping at the first line that throws; the
   * entries read so far are returned as new objects. A file that cannot be
   * opened (None) gives no entries.
   */
  method Restore(file: Option<string>) returns (es: seq<Entry>)
    ensures Items(es) == RestoreFile(file)
    ensures Distinct(es)
  {
    if file.None? {
      return [];
    }
    es := ReadLines(Lines(file.value));
  }

  /** The restore loop over the file's lines. */
  method ReadLines(lines: seq<string>) returns (es: seq<Entry>)
    ensures Items(es) == RestoreLines(lines)
    ensures Distinct(es)
  {
    es := [];
    ghost var items: seq<Item> := [];
    var i := 0;
    while i < |lines|
      invariant 0 <= i <= |lines|
      invariant items + RestoreLines(lines[i..]) == RestoreLines(lines)
      invariant Items(es) == items
      invariant Distinct(es)
    {
      var outcome := ParseLine(lines[i]);
      if outcome.Halted? {
        RestoreStep(lines, i, outcome);
        break;
      }
      RestoreAdvance(lines, i, items, outcome);
      if outcome.Parsed? {
        var e := new Entry(outcome.item.key, outcome.item.values);
        es := es + [e];
        items := items + [outcome.item];
      }
      i := i + 1;
    }
    RestoreDone(lines, i, items);
  }

  lemma RestoreDone(lines: seq<string>, i: int, items: seq<Item>)
    requires 0 <= i <= |lines|
    requires items + RestoreLines(lines[i..]) == RestoreLines(lines)
    requires i < |lines| ==> RestoreLines(lines[i..]) == []
    ensures items == RestoreLines(lines)
  {
    if i == |lines| {
      assert lines[i..] == [];
    }
  }

  lemma RestoreAdvance(lines: seq<string>, i: int, items: seq<Item>, outcome: LineOutcome)
    requires 0 <= i < |lines| && outcome == ParseLine(lines[i]) && !outcome.Halted?
    requires items + RestoreLines(lines[i..]) == RestoreLines(lines)
    ensures (if outcome.Parsed? then items + [outcome.item] else items) + RestoreLines(lines[i + 1..]) == RestoreLines(lines)
  {
    RestoreStep(lines, i, outcome);
    if outcome.Parsed? {
      assert items + [outcome.item] + RestoreLines(lines[i + 1..]) == items + ([outcome.item] + RestoreLines(lines[i + 1..]));
    }
  }

  lemma RestoreStep(lines: seq<string>, i: int, outcome: LineOutcome)
    requires 0 <= i < |lines| && outcome == ParseLine(lines[i])
    ensures outcome.Halted? ==> RestoreLines(lines[i..]) == []
    ensures outcome.Skipped? ==> RestoreLines(lines[i..]) == RestoreLines(lines[i + 1..])
    ensures outcome.Parsed? ==> RestoreLines(lines[i..]) == [outcome.item] + RestoreLines(lines[i + 1..])
  {
    assert lines[i..][0] == lines[i] && lines[i..][1..] == lines[i + 1..];
  }

  /** The values as Archive writes them: each rendered, a comma after every one but the last. */
  method ValueText(values: seq<int>) returns (text: string)
    ensures text == Join(Shown(values), ',')
  {
    text := [];
    for k := 0 to |values|
      invariant text == Join(Shown(values[..k]), ',') + (if 0 < k < |values| then "," else "")
    {
      ValueTextStep(values, k, text);
      text := text + ShowInt(values[k]);
      if k < |values| - 1 {
        text := text + ",";
      }
    }
    assert values[..|values|] == values;
  }

  /** Rendering one more value extends the joined text of the values before it. */
  lemma ValueTextStep(values: seq<int>, k: int, text: string)
    requires 0 <= k < |values|
    requires text == Join(Shown(values[..k]), ',') + (if 0 < k then "," else "")
    ensures text + ShowInt(values[k]) == Join(Shown(values[..k + 1]), ',')
  {
    JoinSnoc(Shown(values[..k]), ShowInt(values[k]), ',');
    assert Shown(values[..k + 1]) == Shown(values[..k]) + [ShowInt(values[k])];
  }

  /** One more entry's line extends the archive text of the entries before it. */
  lemma ArchiveStep(view: seq<Item>, i: int, text: string, line: string)
    requires 0 <= i < |view|
    requires text == Terminated(ArchiveLines(view[..i]))
    requires line == Line(view[i])
    ensures text + line + "\n" == Terminated(ArchiveLines(view[..i + 1]))
  {
    assert ArchiveLines(view[..i + 1]) == ArchiveLines(view[..i]) + [line];
    TerminatedSnoc(ArchiveLines(view[..i]), line);
  }

  lemma {:induction false} TerminatedSnoc(lines: seq<string>, l: string)
    ensures Terminated(lines + [l]) == Terminated(lines) + l + "\n"
  {
    if lines != [] {
      assert (lines + [l])[1..] == lines[1..] + [l];
      TerminatedSnoc(lines[1..], l);
    }
  }

  lemma {:induction false} WithoutKeyRemove(es: seq<Entry>, i: int, k: string)
    requires 0 <= i < |es| && es[i].key == k
    ensures WithoutKey(es[..i] + es[i + 1..], k) == WithoutKey(es, k)
  {
    if i == 0 {
      assert es[..0] + es[1..] == es[1..];
    } else {
      assert (es[..i] + es[i + 1..])[1..] == es[1..][..i - 1] + es[1..][i..];
      WithoutKeyRemove(es[1..], i - 1, k);
    }
  }

  lemma {:induction false} WithoutKeyAbsent(es: seq<Entry>, k: string)
    requires forall j :: 0 <= j < |es| ==> es[j].key != k
    ensures WithoutKey(es, k) == es
  {
    if es != [] {
      WithoutKeyAbsent(es[1..], k);
    }
  }

  lemma {:induction false} JoinSnoc(parts: seq<string>, p: string, sep: char)
    ensures Join(parts + [p], sep) == if parts == [] then p else Join(parts, sep) + [sep] + p
  {
    if |parts| > 1 {
      assert (parts + [p])[1..] == parts[1..] + [p];
      JoinSnoc(parts[1..], p, sep);
    } else if |parts| == 1 {
      assert parts + [p] == [parts[0], p];
    }
  }
}
