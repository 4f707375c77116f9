/**
 * The text primitives the archive format rests on, as the Java library
 * behaves: decimal rendering of an int, Integer.parseInt, String.split with
 * a one-character pattern, String joining, and the lines Scanner.nextLine
 * yields from a file's contents.
 */
module Text {
  import opened Options

  const MinInt32: int := -0x8000_0000
  const MaxInt32: int := 0x7fff_ffff

  predicate IsInt32(n: int)
  {
    MinInt32 <= n <= MaxInt32
  }

  // ---------------------------------------------------------------------
  // Integers as text
  // ---------------------------------------------------------------------

  predicate IsDigit(c: char)
  {
    '0' <= c <= '9'
  }

  predicate AllDigits(s: string)
  {
    forall i :: 0 <= i < |s| ==> IsDigit(s[i])
  }

  function DigitChar(d: int): (c: char)
    requires 0 <= d < 10
    ensures IsDigit(c)
  {
    ('0' as int + d) as char
  }

  /** The decimal digits of n, most significant first, without leading zeros. */
  function NatDigits(n: nat): (r: string)
    ensures r != [] && AllDigits(r)
  {
    if n < 10 then [DigitChar(n)] else NatDigits(n / 10) + [DigitChar(n % 10)]
  }

  /** The number a string of decimal digits denotes. */
  function DigitsValue(s: string): nat
    requires AllDigits(s)
  {
    if s == [] then 0
    else DigitsValue(s[..|s| - 1]) * 10 + (s[|s| - 1] as int - '0' as int)
  }

  lemma {:induction false} DigitsRoundTrip(n: nat)
    ensures DigitsValue(NatDigits(n)) == n
  {
    if n >= 10 {
      DigitsRoundTrip(n / 10);
      var s := NatDigits(n);
      assert s[..|s| - 1] == NatDigits(n / 10);
    }
  }

  /** An int rendered as Java renders it: a minus sign for negatives, then the digits. */
  function ShowInt(n: int): string
  {
    if n < 0 then "-" + NatDigits(-n) else NatDigits(n)
  }

  /**
   * Integer.parseInt: an optional '+' or '-', then one or more decimal
   * digits, denoting a value inside Java's int range; anything else fails.
   */
  function ParseInt(s: string): Option<int>
  {
    if s == [] then None
    else
      var signed := s[0] == '-' || s[0] == '+';
      var body := if signed then s[1..] else s;
      if body == [] || !AllDigits(body) then None
      else
        var magnitude: int := DigitsValue(body);
        var v := if s[0] == '-' then -magnitude else magnitude;
        if IsInt32(v) then Some(v) else None
  }

  /** Every int in Java's range reads back from its own rendering. */
  lemma ShowParse(n: int)
    requires IsInt32(n)
    ensures ParseInt(ShowInt(n)) == Some(n)
  {
    if n < 0 {
      var d := NatDigits(-n);
      DigitsRoundTrip(-n);
      ParseNegative(d);
      assert ShowInt(n) == "-" + d;
    } else {
      var d := NatDigits(n);
      DigitsRoundTrip(n);
      ParseUnsigned(d);
      assert ShowInt(n) == d;
    }
  }

  lemma ParseNegative(d: string)
    requires d != [] && AllDigits(d) && IsInt32(-(DigitsValue(d) as int))
    ensures ParseInt("-" + d) == Some(-(DigitsValue(d) as int))
  {
    var s := "-" + d;
    assert s[0] == '-' && s[1..] == d;
  }

  lemma ParseUnsigned(d: string)
    requires d != [] && AllDigits(d) && IsInt32(DigitsValue(d))
    ensures ParseInt(d) == Some(DigitsValue(d))
  {
    assert IsDigit(d[0]);
  }

  lemma ShowIntChars(n: int)
    ensures ShowInt(n) != []
    ensures forall c :: c in ShowInt(n) ==> c == '-' || IsDigit(c)
  {
    if n < 0 {
      assert forall c :: c in NatDigits(-n) ==> IsDigit(c);
    } else {
      assert forall c :: c in NatDigits(n) ==> IsDigit(c);
    }
  }

  // ---------------------------------------------------------------------
  // Splitting and joining
  // ---------------------------------------------------------------------

  /** The pieces of s between occurrences of sep, empty pieces included; never empty. */
  function Pieces(s: string, sep: char): (r: seq<string>)
    ensures |r| >= 1
  {
    if s == [] then [[]]
    else
      var rest := Pieces(s[1..], sep);
      if s[0] == sep then [[]] + rest else [[s[0]] + rest[0]] + rest[1..]
  }

  function DropTrailingEmpty(ps: seq<string>): seq<string>
  {
    if ps != [] && ps[|ps| - 1] == [] then DropTrailingEmpty(ps[..|ps| - 1]) else ps
  }

  /**
   * String.split with a one-character literal pattern: a string without the
   * separator yields itself; otherwise the pieces with trailing empty pieces
   * removed (so that "k|" yields ["k"] and "," yields []).
   */
  function Split(s: string, sep: char): seq<string>
  {
    if sep in s then DropTrailingEmpty(Pieces(s, sep)) else [s]
  }

  /** The parts separated by sep, with no separator after the last part. */
  function Join(parts: seq<string>, sep: char): string
  {
    if parts == [] then []
    else if |parts| == 1 then parts[0]
    else parts[0] + [sep] + Join(parts[1..], sep)
  }

  lemma {:induction false} PiecesPlain(a: string, sep: char)
    requires sep !in a
    ensures Pieces(a, sep) == [a]
  {
    if a != [] {
      PiecesPlain(a[1..], sep);
      assert a[0] != sep && [a[0]] + a[1..] == a;
    }
  }

  lemma {:induction false} PiecesCons(a: string, sep: char, b: string)
    requires sep !in a
    ensures Pieces(a + [sep] + b, sep) == [a] + Pieces(b, sep)
  {
    if a != [] {
      var s := a + [sep] + b;
      assert s[0] == a[0] != sep && s[1..] == a[1..] + [sep] + b;
      PiecesCons(a[1..], sep, b);
      assert [a[0]] + a[1..] == a;
    } else {
      assert a + [sep] + b == [sep] + b;
    }
  }

  /** Splitting what Join produced gives the parts back, as long as no part holds the separator. */
  lemma {:induction false} PiecesJoin(parts: seq<string>, sep: char)
    requires parts != []
    requires forall i :: 0 <= i < |parts| ==> sep !in parts[i]
    ensures Pieces(Join(parts, sep), sep) == parts
  {
    if |parts| == 1 {
      PiecesPlain(parts[0], sep);
    } else {
      PiecesJoin(parts[1..], sep);
      PiecesCons(parts[0], sep, Join(parts[1..], sep));
    }
  }

  lemma {:induction false} JoinAvoids(parts: seq<string>, sep: char, c: char)
    requires forall i :: 0 <= i < |parts| ==> c !in parts[i]
    requires c != sep
    ensures c !in Join(parts, sep)
  {
    if |parts| > 1 {
      JoinAvoids(parts[1..], sep, c);
    }
  }

  // ---------------------------------------------------------------------
  // Lines of a file
  // ---------------------------------------------------------------------

  /** Each line followed by a newline, as a FileWriter receives them. */
  function Terminated(lines: seq<string>): string
  {
    if lines == [] then [] else lines[0] + "\n" + Terminated(lines[1..])
  }

  /**
   * The lines Scanner.hasNextLine/nextLine yield from a file's contents:
   * the text between newlines, where a final newline does not open another
   * (empty) line.
   */
  function Lines(text: string): seq<string>
  {
    if text == [] then []
    else
      var ps := Pieces(text, '\n');
      if ps[|ps| - 1] == [] then ps[..|ps| - 1] else ps
  }

  lemma {:induction false} PiecesTerminated(lines: seq<string>)
    requires forall i :: 0 <= i < |lines| ==> '\n' !in lines[i]
    ensures Pieces(Terminated(lines), '\n') == lines + [[]]
  {
    if lines != [] {
      PiecesTerminated(lines[1..]);
      PiecesCons(lines[0], '\n', Terminated(lines[1..]));
    }
  }

  /** Reading back the lines written one per newline gives exactly those lines. */
  lemma LinesTerminated(lines: seq<string>)
    requires forall i :: 0 <= i < |lines| ==> '\n' !in lines[i]
    ensures Lines(Terminated(lines)) == lines
  {
    PiecesTerminated(lines);
    if lines != [] {
      assert Terminated(lines) != [];
    }
  }
}
