/** Where a captured page is cut into lines and which of them are kept, stated over the text alone. */
module CaptureRules {
  import opened Prelude
  import opened EvidenceCapture

  // ---------------------------------------------------------------- characters

  /** The characters that end a line. */
  const LINE_ENDS: set<char> :=
    {'\n', '\U{0b}', '\U{0c}', '\r', '\U{1c}', '\U{1d}', '\U{1e}', '\U{85}', '\U{2028}', '\U{2029}'}

  /** The other characters that part words. */
  const GAPS: set<char> :=
    {' ', '\t', '\U{1f}', '\U{a0}', '\U{1680}', '\U{2000}', '\U{2001}', '\U{2002}', '\U{2003}', '\U{2004}', '\U{2005}',
     '\U{2006}', '\U{2007}', '\U{2008}', '\U{2009}', '\U{200a}', '\U{202f}', '\U{205f}', '\U{3000}'}

  lemma BreaksExactly(c: char)
    ensures IsBreak(c) <==> c in LINE_ENDS
  {
  }

  lemma SpacesExactly(c: char)
    ensures IsSpace(c) <==> c in LINE_ENDS || c in GAPS
  {
  }

  // ---------------------------------------------------------------- size

  /** The bytes of one character, as section 3 of RFC 3629 lays them out. */
  function Encode(c: char): seq<int> {
    var u := c as int;
    if u <= 0x7f then [u]
    else if u <= 0x7ff then [0xc0 + u / 64, 0x80 + u % 64]
    else if u <= 0xffff then [0xe0 + u / 4096, 0x80 + u / 64 % 64, 0x80 + u % 64]
    else [0xf0 + u / 262144, 0x80 + u / 4096 % 64, 0x80 + u / 64 % 64, 0x80 + u % 64]
  }

  /** The number that the bytes spell. */
  function Decode(b: seq<int>): int
    requires 1 <= |b| <= 4
  {
    match |b|
    case 1 => b[0]
    case 2 => (b[0] - 0xc0) * 64 + (b[1] - 0x80)
    case 3 => ((b[0] - 0xe0) * 64 + (b[1] - 0x80)) * 64 + (b[2] - 0x80)
    case _ => (((b[0] - 0xf0) * 64 + (b[1] - 0x80)) * 64 + (b[2] - 0x80)) * 64 + (b[3] - 0x80)
  }

  function Bytes(text: string): seq<int> {
    if text == "" then [] else Encode(text[0]) + Bytes(text[1..])
  }

  lemma Sixes(u: nat)
    ensures u == u / 4096 * 4096 + u / 64 % 64 * 64 + u % 64
  {
    assert u == u / 64 * 64 + u % 64 && u / 64 == u / 64 / 64 * 64 + u / 64 % 64 && u / 64 / 64 == u / 4096;
  }

  lemma CharacterSize(c: char)
    ensures |Encode(c)| == Utf8Length(c) && forall i :: 0 <= i < |Encode(c)| ==> 0 <= Encode(c)[i] < 256
  {
  }

  /** The bytes of a character spell it. */
  lemma CharacterIsSpelled(c: char)
    ensures Decode(Encode(c)) == c as int
  {
    var u := c as int;
    Sixes(u);
    if u > 0xffff {
      assert u / 4096 == u / 4096 / 64 * 64 + u / 4096 % 64 && u / 4096 / 64 == u / 262144;
    }
  }

  lemma {:induction false} BytesNext(front: string, c: char)
    ensures Bytes(front + [c]) == Bytes(front) + Encode(c)
  {
    var text := front + [c];
    if front == "" {
      assert text[1..] == "";
    } else {
      BytesNext(front[1..], c);
      assert text[1..] == front[1..] + [c];
    }
  }

  /** The size that the limits speak of is the number of bytes of the encoded text. */
  lemma {:induction false} SizeExactly(text: string)
    ensures Utf8Size(text) == |Bytes(text)|
  {
    if text != "" {
      var front, last := text[..|text| - 1], text[|text| - 1];
      SizeExactly(front);
      BytesNext(front, last);
      CharacterSize(last);
      assert front + [last] == text;
    }
  }

  // ---------------------------------------------------------------- lines

  predicate OneLine(line: string) {
    forall i :: 0 <= i < |line| ==> line[i] !in LINE_ENDS
  }

  /** A line ends with one character, or with a carriage return and a line feed. */
  predicate Ending(end: string) {
    end == "\r\n" || (|end| == 1 && end[0] in LINE_ENDS)
  }

  /**
   * The line that begins `s`, with its ending, which only a last line that is not empty may lack. A line feed never
   * stands alone after a carriage return.
   */
  ghost predicate Begins(s: string, line: string, end: string) {
    && OneLine(line) && line <= s && end <= s[|line|..]
    && (Ending(end) || (end == "" && line != "" && |line| == |s|))
    && !(end == "\r" && |line| + 1 < |s| && s[|line| + 1] == '\n')
  }

  /** The lines with their endings are the text. */
  ghost predicate Lines(s: string, lines: seq<string>, ends: seq<string>)
    decreases |lines|
  {
    && |ends| == |lines|
    && if lines == [] then s == ""
       else Begins(s, lines[0], ends[0]) && Lines(s[|lines[0]| + |ends[0]|..], lines[1..], ends[1..])
  }

  lemma LinesExtend(s: string, line: string, end: string, lines: seq<string>, ends: seq<string>)
    requires Begins(s, line, end) && Lines(s[|line| + |end|..], lines, ends)
    ensures Lines(s, [line] + lines, [end] + ends)
  {
    assert ([line] + lines)[1..] == lines && ([end] + ends)[1..] == ends;
  }

  lemma FirstLine(s: string)
    ensures OneLine(s[..LineLength(s)]) && (LineLength(s) < |s| ==> s[LineLength(s)] in LINE_ENDS)
  {
    LineLengthStops(s);
    forall i | 0 <= i < LineLength(s) ensures s[i] !in LINE_ENDS {
      BreaksExactly(s[i]);
    }
    if LineLength(s) < |s| {
      BreaksExactly(s[LineLength(s)]);
    }
  }

  /** The ending after the first line. */
  function EndAt(s: string): string {
    var n := LineLength(s);
    if n == |s| then "" else if n + 1 < |s| && s[n] == '\r' && s[n + 1] == '\n' then "\r\n" else [s[n]]
  }

  lemma CutBegins(s: string)
    requires s != ""
    ensures Begins(s, s[..LineLength(s)], EndAt(s))
  {
    FirstLine(s);
  }

  lemma CutLast(s: string)
    requires s != "" && LineLength(s) == |s|
    ensures SplitLines(s) == [s[..LineLength(s)]] + SplitLines(s[LineLength(s) + |EndAt(s)|..])
  {
    assert s[..|s|] == s && s[|s|..] == "";
    assert SplitLines("") == [];
  }

  lemma CutInner(s: string)
    requires LineLength(s) < |s|
    ensures EndAt(s) != "" && LineLength(s) + |EndAt(s)| <= |s|
    ensures SplitLines(s) == [s[..LineLength(s)]] + SplitLines(s[LineLength(s) + |EndAt(s)|..])
  {
    var n := LineLength(s);
    if n + 1 < |s| && s[n] == '\r' && s[n + 1] == '\n' {
      assert |EndAt(s)| == 2;
    } else {
      assert |EndAt(s)| == 1;
    }
  }

  /** A page is cut into lines in that way. */
  lemma {:induction false} SplitsIntoLines(s: string) returns (ends: seq<string>)
    ensures Lines(s, SplitLines(s), ends)
    decreases |s|
  {
    if s == "" {
      return [];
    }
    CutBegins(s);
    if LineLength(s) == |s| {
      CutLast(s);
    } else {
      CutInner(s);
    }
    var rest := SplitsIntoLines(s[LineLength(s) + |EndAt(s)|..]);
    ends := [EndAt(s)] + rest;
    LinesExtend(s, s[..LineLength(s)], EndAt(s), SplitLines(s[LineLength(s) + |EndAt(s)|..]), rest);
  }

  lemma EndsAtBreak(s: string, line: string, end: string)
    requires Begins(s, line, end) && |line| < |s|
    ensures s[|line|] in LINE_ENDS
  {
    assert s[|line|..][0] == s[|line|] == end[0];
  }

  lemma NotShorter(s: string, a: string, endA: string, b: string, endB: string)
    requires Begins(s, a, endA) && Begins(s, b, endB)
    ensures |a| <= |b|
  {
    if |b| < |a| {
      EndsAtBreak(s, b, endB);
    }
  }

  lemma OneBeginning(s: string, a: string, endA: string, b: string, endB: string)
    requires Begins(s, a, endA) && Begins(s, b, endB)
    ensures a == b && endA == endB
  {
    NotShorter(s, a, endA, b, endB);
    NotShorter(s, b, endB, a, endA);
    var rest := s[|a|..];
    assert rest == s[|b|..] && (|rest| > 1 ==> rest[1] == s[|a| + 1]);
    assert endA == rest[..|endA|] && endB == rest[..|endB|];
  }

  /** There is only one way to cut a text into lines. */
  lemma {:induction false} LinesAreUnique(s: string, a: seq<string>, endsA: seq<string>, b: seq<string>,
                                          endsB: seq<string>)
    requires Lines(s, a, endsA) && Lines(s, b, endsB)
    ensures a == b
    decreases |a|
  {
    if a != [] && b != [] {
      OneBeginning(s, a[0], endsA[0], b[0], endsB[0]);
      LinesAreUnique(s[|a[0]| + |endsA[0]|..], a[1..], endsA[1..], b[1..], endsB[1..]);
      SameSequence(a, b);
    }
  }

  lemma SameSequence(a: seq<string>, b: seq<string>)
    requires a != [] && b != [] && a[0] == b[0] && a[1..] == b[1..]
    ensures a == b
  {
    assert a == [a[0]] + a[1..] && b == [b[0]] + b[1..];
  }

  // ---------------------------------------------------------------- kept lines

  /** Line `k` differs from the one before it. */
  predicate Starts(lines: seq<string>, k: nat)
    requires k < |lines|
  {
    k == 0 || lines[k - 1] != lines[k]
  }

  /** `kept` holds the first line of each run of equal lines, in order; `at` says where they stood. */
  ghost predicate Collapsed(lines: seq<string>, kept: seq<string>, at: seq<nat>) {
    && |at| == |kept|
    && (forall j :: 0 <= j < |at| ==> at[j] < |lines| && kept[j] == lines[at[j]])
    && (forall i, j :: 0 <= i < j < |at| ==> at[i] < at[j])
    && (forall k: nat :: k < |lines| ==> (k in at <==> Starts(lines, k)))
    && (lines != [] ==> kept != [] && kept[|kept| - 1] == lines[|lines| - 1])
  }

  lemma CollapsedNext(lines: seq<string>, kept: seq<string>, at: seq<nat>, line: string)
    requires Collapsed(lines, kept, at)
    ensures var longer := lines + [line];
      if lines != [] && lines[|lines| - 1] == line then Collapsed(longer, kept, at)
      else Collapsed(longer, kept + [line], at + [|lines|])
  {
    var longer := lines + [line];
    forall k: nat | k < |lines| ensures Starts(longer, k) <==> Starts(lines, k) {
    }
  }

  /** Of the squeezed lines that are not blank, the first of each run of equal ones is kept. */
  lemma {:induction false} KeptExactly(raw: seq<string>) returns (at: seq<nat>)
    ensures Collapsed(NonBlank(raw), Kept(raw), at)
  {
    if raw == [] {
      return [];
    }
    var front, line := raw[..|raw| - 1], Squeeze(raw[|raw| - 1]);
    at := KeptExactly(front);
    if line != "" {
      var lines := NonBlank(front);
      CollapsedNext(lines, Kept(front), at, line);
      if lines == [] || lines[|lines| - 1] != line {
        at := at + [|lines|];
      }
      KeptNext(raw);
    }
  }

  lemma KeptNext(raw: seq<string>)
    requires raw != [] && Squeeze(raw[|raw| - 1]) != ""
    ensures var front, line := raw[..|raw| - 1], Squeeze(raw[|raw| - 1]);
      && NonBlank(raw) == NonBlank(front) + [line]
      && Kept(raw) == if Keeps(Kept(front), line) then Kept(front) + [line] else Kept(front)
  {
  }
}
