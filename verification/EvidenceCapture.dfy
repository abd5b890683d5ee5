/** The visible text of a captured page, as it is stored: one squeezed line per kept line of the page. */
module EvidenceCapture {
  import opened Prelude

  // ---------------------------------------------------------------- splitting and joining

  /** The characters at which `str.splitlines` breaks; all of them are whitespace. */
  predicate IsBreak(c: char) {
    var u := c as int;
    10 <= u <= 13 || 28 <= u <= 30 || u == 0x85 || u == 0x2028 || u == 0x2029
  }

  /** The length of the first line. */
  function LineLength(s: string): (n: nat)
    ensures n <= |s|
  {
    if s == "" || IsBreak(s[0]) then 0 else 1 + LineLength(s[1..])
  }

  /** `str.splitlines`; a carriage return and a line feed break once. */
  function SplitLines(s: string): seq<string>
    decreases |s|
  {
    var n := LineLength(s);
    if s == "" then []
    else if n == |s| then [s]
    else if n + 1 < |s| && s[n] == '\r' && s[n + 1] == '\n' then [s[..n]] + SplitLines(s[n + 2..])
    else [s[..n]] + SplitLines(s[n + 1..])
  }

  function WordLength(s: string): (n: nat)
    ensures n <= |s| && (s != "" && !IsSpace(s[0]) ==> 0 < n)
  {
    if s == "" || IsSpace(s[0]) then 0 else 1 + WordLength(s[1..])
  }

  /** `str.split()` */
  function Words(s: string): seq<string>
    decreases |s|
  {
    if s == "" then []
    else if IsSpace(s[0]) then Words(s[1..])
    else [s[..WordLength(s)]] + Words(s[WordLength(s)..])
  }

  function Join(parts: seq<string>, sep: char): string {
    if parts == [] then ""
    else if |parts| == 1 then parts[0]
    else parts[0] + [sep] + Join(parts[1..], sep)
  }

  // ---------------------------------------------------------------- the capture

  /** One line with every run of whitespace squeezed to a single space, and none at its ends. */
  function Squeeze(line: string): string {
    Join(Words(line), ' ')
  }

  predicate Keeps(lines: seq<string>, line: string) {
    line != "" && (lines == [] || line != lines[|lines| - 1])
  }

  /** The lines that are not blank and differ from the line kept before them. */
  function Kept(raw: seq<string>): seq<string> {
    if raw == [] then []
    else
      var lines, line := Kept(raw[..|raw| - 1]), Squeeze(raw[|raw| - 1]);
      if Keeps(lines, line) then lines + [line] else lines
  }

  function Capture(visible: string): string {
    Join(Kept(SplitLines(visible)), '\n')
  }

  /** The line loop of `extract_evidence_document`. */
  method ExtractText(visible: string) returns (text: string)
    ensures text == Capture(visible)
  {
    var raw, lines := SplitLines(visible), [];
    for k := 0 to |raw|
      invariant lines == Kept(raw[..k])
    {
      assert raw[..k + 1][..k] == raw[..k];
      var line := Squeeze(raw[k]);
      if Keeps(lines, line) {
        lines := lines + [line];
      }
    }
    assert raw[..|raw|] == raw;
    return Join(lines, '\n');
  }

  // ---------------------------------------------------------------- what is stored

  /** `source_html_max_bytes` */
  const HTML_MAX_BYTES: nat := 10 * 1024 * 1024

  datatype CaptureError = NoVisibleText | ObjectTooLarge

  function Utf8Length(c: char): (n: nat)
    ensures 1 <= n <= 4
  {
    var u := c as int;
    if u < 0x80 then 1 else if u < 0x800 then 2 else if u < 0x10000 then 3 else 4
  }

  /** `len(text.encode("utf-8"))` */
  function Utf8Size(text: string): nat {
    if text == "" then 0 else Utf8Size(text[..|text| - 1]) + Utf8Length(text[|text| - 1])
  }

  lemma {:induction false} Utf8SizeBounds(text: string)
    ensures |text| <= Utf8Size(text) <= 4 * |text|
    ensures (forall i :: 0 <= i < |text| ==> text[i] < '\U{0080}') ==> Utf8Size(text) == |text|
  {
    if text != "" {
      Utf8SizeBounds(text[..|text| - 1]);
    }
  }

  /** The text that `capture` stores for a page: not empty, and within the storage limit. */
  function StoredText(visible: string, maxBytes: nat): Result<string, CaptureError> {
    var text := Capture(visible);
    if text == "" then Failure(NoVisibleText)
    else if Utf8Size(text) > maxBytes then Failure(ObjectTooLarge)
    else Success(text)
  }

  // ---------------------------------------------------------------- no gaps

  /** No more than `n` adjacent characters are whitespace. */
  ghost predicate GapsWithin(text: string, n: nat) {
    forall a, b :: 0 <= a <= b <= |text| && a + n < b ==> !Blank(text[a..b])
  }

  /** Begins and ends with a visible character, and has single gaps only. */
  ghost predicate Tight(s: string) {
    s != "" && !IsSpace(s[0]) && !IsSpace(s[|s| - 1]) && forall i :: 0 < i < |s| ==> Parted(s, i)
  }

  /** One of the characters around position `i` is visible. */
  predicate Parted(s: string, i: int)
    requires 0 < i < |s|
  {
    !IsSpace(s[i - 1]) || !IsSpace(s[i])
  }

  ghost predicate AllTight(parts: seq<string>) {
    forall k :: 0 <= k < |parts| ==> Tight(parts[k])
  }

  lemma TightPair(a: string, sep: char, b: string)
    requires Tight(a) && Tight(b)
    ensures Tight(a + [sep] + b)
  {
    var s := a + [sep] + b;
    forall i | 0 < i < |s| ensures Parted(s, i) {
      if i < |a| {
        assert Parted(a, i);
      } else if |a| + 1 < i {
        assert Parted(b, i - |a| - 1);
      }
    }
  }

  lemma {:induction false} TightJoin(parts: seq<string>, sep: char)
    requires AllTight(parts) && parts != []
    ensures Tight(Join(parts, sep))
  {
    if |parts| > 1 {
      TightJoin(parts[1..], sep);
      TightPair(parts[0], sep, Join(parts[1..], sep));
    }
  }

  /** A maximal run of visible characters. */
  ghost predicate IsWord(w: string) {
    w != "" && forall i :: 0 <= i < |w| ==> !IsSpace(w[i])
  }

  ghost predicate AllWords(words: seq<string>) {
    forall k :: 0 <= k < |words| ==> IsWord(words[k])
  }

  lemma {:induction false} FirstWord(s: string)
    requires s != "" && !IsSpace(s[0])
    ensures IsWord(s[..WordLength(s)])
    ensures WordLength(s) < |s| ==> IsSpace(s[WordLength(s)])
  {
    if |s| > 1 && !IsSpace(s[1]) {
      FirstWord(s[1..]);
      assert s[..WordLength(s)] == [s[0]] + s[1..][..WordLength(s[1..])];
    }
  }

  lemma {:induction false} WordsAreWords(s: string)
    ensures AllWords(Words(s))
    decreases |s|
  {
    if s != "" {
      if IsSpace(s[0]) {
        WordsAreWords(s[1..]);
      } else {
        FirstWord(s);
        WordsAreWords(s[WordLength(s)..]);
      }
    }
  }

  lemma SqueezeIsTight(line: string)
    ensures Squeeze(line) == "" || Tight(Squeeze(line))
  {
    WordsAreWords(line);
    var words := Words(line);
    forall k | 0 <= k < |words| ensures Tight(words[k]) {
      assert IsWord(words[k]);
    }
    if words != [] {
      TightJoin(words, ' ');
    }
  }

  lemma {:induction false} KeptIsTight(raw: seq<string>)
    ensures AllTight(Kept(raw))
  {
    if raw != [] {
      KeptIsTight(raw[..|raw| - 1]);
      SqueezeIsTight(raw[|raw| - 1]);
    }
  }

  lemma TightHasNoGap(s: string)
    requires Tight(s)
    ensures GapsWithin(s, 1) && !Blank(s)
  {
    forall a, b | 0 <= a <= b <= |s| && a + 1 < b ensures !Blank(s[a..b]) {
      assert Parted(s, a + 1);
      assert s[a..b][0] == s[a] && s[a..b][1] == s[a + 1];
    }
  }

  /** A captured text is empty, or has a visible character and never two adjacent whitespace characters. */
  lemma CapturedTextHasNoGap(visible: string)
    ensures Capture(visible) == "" || (GapsWithin(Capture(visible), 1) && !Blank(Capture(visible)))
  {
    var lines := Kept(SplitLines(visible));
    KeptIsTight(SplitLines(visible));
    if lines != [] {
      TightJoin(lines, '\n');
      TightHasNoGap(Capture(visible));
    }
  }

  // ---------------------------------------------------------------- what is kept

  /** Words are cut at any whitespace, so splitting a text there splits its words. */
  lemma {:induction false} WordsSplit(a: string, c: char, b: string)
    requires IsSpace(c)
    ensures Words(a + [c] + b) == Words(a) + Words(b)
    decreases |a|
  {
    var s := a + [c] + b;
    if a == "" {
      assert s[1..] == b;
    } else if IsSpace(a[0]) {
      WordsSplit(a[1..], c, b);
      assert s[1..] == a[1..] + [c] + b;
    } else {
      var n := WordLength(a);
      WordLengthStops(a, c, b);
      WordsSplit(a[n..], c, b);
      assert s[n..] == a[n..] + [c] + b && s[..n] == a[..n];
    }
  }

  lemma {:induction false} WordLengthStops(a: string, c: char, b: string)
    requires IsSpace(c)
    ensures WordLength(a + [c] + b) == WordLength(a)
  {
    if a != "" && !IsSpace(a[0]) {
      WordLengthStops(a[1..], c, b);
      assert (a + [c] + b)[1..] == a[1..] + [c] + b;
    }
  }

  lemma {:induction false} WordIsOneWord(w: string)
    requires IsWord(w)
    ensures WordLength(w) == |w| && Words(w) == [w]
  {
    if |w| > 1 {
      WordIsOneWord(w[1..]);
    }
    assert w[..|w|] == w && Words(w[|w|..]) == [];
  }

  function AllWordsOf(lines: seq<string>): seq<string> {
    if lines == [] then [] else Words(lines[0]) + AllWordsOf(lines[1..])
  }

  lemma {:induction false} WordsOfJoin(lines: seq<string>, sep: char)
    requires IsSpace(sep)
    ensures Words(Join(lines, sep)) == AllWordsOf(lines)
  {
    if |lines| == 1 {
      assert AllWordsOf(lines[1..]) == [];
    } else if lines != [] {
      WordsOfJoin(lines[1..], sep);
      WordsSplit(lines[0], sep, Join(lines[1..], sep));
    }
  }

  lemma {:induction false} WordsOfWords(words: seq<string>)
    requires AllWords(words)
    ensures AllWordsOf(words) == words
  {
    if words != [] {
      WordIsOneWord(words[0]);
      WordsOfWords(words[1..]);
    }
  }

  /** Squeezing changes whitespace only, and squeezing twice is squeezing once. */
  lemma SqueezeKeepsWords(line: string)
    ensures Words(Squeeze(line)) == Words(line) && Squeeze(Squeeze(line)) == Squeeze(line)
  {
    WordsAreWords(line);
    WordsOfJoin(Words(line), ' ');
    WordsOfWords(Words(line));
  }

  lemma {:induction false} LineLengthStops(s: string)
    ensures var n := LineLength(s); (n < |s| ==> IsBreak(s[n])) && forall i :: 0 <= i < n ==> !IsBreak(s[i])
  {
    if s != "" && !IsBreak(s[0]) {
      LineLengthStops(s[1..]);
    }
  }

  lemma {:induction false} WordsOfLines(s: string)
    ensures AllWordsOf(SplitLines(s)) == Words(s)
    decreases |s|
  {
    if s != "" {
      var n := LineLength(s);
      LineLengthStops(s);
      if n == |s| {
        assert AllWordsOf([s][1..]) == [];
      } else {
        var rest := s[n + 1..];
        assert s == s[..n] + [s[n]] + rest;
        WordsSplit(s[..n], s[n], rest);
        var lines := SplitLines(s);
        if n + 1 < |s| && s[n] == '\r' && s[n + 1] == '\n' {
          assert rest[1..] == s[n + 2..];
          WordsOfLines(s[n + 2..]);
          assert lines[1..] == SplitLines(s[n + 2..]);
        } else {
          WordsOfLines(rest);
          assert lines[1..] == SplitLines(rest);
        }
      }
    }
  }

  /** The squeezed lines, repeated ones included. */
  function NonBlank(raw: seq<string>): seq<string> {
    if raw == [] then []
    else
      var lines, line := NonBlank(raw[..|raw| - 1]), Squeeze(raw[|raw| - 1]);
      if line == "" then lines else lines + [line]
  }

  /** No line repeats the one before it. */
  ghost predicate NoRepeats(lines: seq<string>) {
    forall k :: 0 < k < |lines| ==> DiffersFromPrevious(lines, k)
  }

  predicate DiffersFromPrevious(lines: seq<string>, k: int)
    requires 0 < k < |lines|
  {
    lines[k - 1] != lines[k]
  }

  lemma NoRepeatsExtend(lines: seq<string>, line: string)
    ensures NoRepeats(lines + [line]) <==> NoRepeats(lines) && (lines == [] || lines[|lines| - 1] != line)
  {
    var longer := lines + [line];
    if NoRepeats(longer) {
      forall k | 0 < k < |lines| ensures DiffersFromPrevious(lines, k) {
        assert DiffersFromPrevious(longer, k);
      }
      assert lines != [] ==> DiffersFromPrevious(longer, |lines|);
    }
    if NoRepeats(lines) {
      forall k | 0 < k < |lines| ensures DiffersFromPrevious(longer, k) {
        assert DiffersFromPrevious(lines, k);
      }
    }
  }

  /** Lines are dropped for repetition only. */
  lemma {:induction false} AllKeptWithoutRepeats(raw: seq<string>)
    ensures NoRepeats(Kept(raw)) && (NoRepeats(NonBlank(raw)) ==> Kept(raw) == NonBlank(raw))
  {
    if raw != [] {
      var front, line := raw[..|raw| - 1], Squeeze(raw[|raw| - 1]);
      AllKeptWithoutRepeats(front);
      NoRepeatsExtend(Kept(front), line);
      NoRepeatsExtend(NonBlank(front), line);
    }
  }

  lemma {:induction false} AllWordsOfAppend(lines: seq<string>, last: string)
    ensures AllWordsOf(lines + [last]) == AllWordsOf(lines) + Words(last)
  {
    var all := lines + [last];
    if lines == [] {
      assert all[0] == last && all[1..] == [];
    } else {
      AllWordsOfAppend(lines[1..], last);
      assert all[0] == lines[0] && all[1..] == lines[1..] + [last];
      Associative(Words(lines[0]), AllWordsOf(lines[1..]), Words(last));
    }
  }

  lemma Associative(a: seq<string>, b: seq<string>, c: seq<string>)
    ensures a + (b + c) == a + b + c
  {
  }

  lemma {:induction false} NonBlankKeepsWords(raw: seq<string>)
    ensures AllWordsOf(NonBlank(raw)) == AllWordsOf(raw)
  {
    if raw != [] {
      var front, last := raw[..|raw| - 1], raw[|raw| - 1];
      assert front + [last] == raw;
      NonBlankKeepsWords(front);
      SqueezeKeepsWords(last);
      AllWordsOfAppend(front, last);
      AllWordsOfAppend(NonBlank(front), Squeeze(last));
    }
  }

  /** The captured text has exactly the words of the kept lines; without repeated lines it has all words of the page. */
  lemma CaptureKeepsWords(visible: string)
    ensures Words(Capture(visible)) == AllWordsOf(Kept(SplitLines(visible)))
    ensures NoRepeats(NonBlank(SplitLines(visible))) ==> Words(Capture(visible)) == Words(visible)
  {
    WordsOfJoin(Kept(SplitLines(visible)), '\n');
    AllKeptWithoutRepeats(SplitLines(visible));
    NonBlankKeepsWords(SplitLines(visible));
    WordsOfLines(visible);
  }

  // ---------------------------------------------------------------- capturing twice

  ghost predicate Unbroken(line: string) {
    line != "" && forall i :: 0 <= i < |line| ==> !IsBreak(line[i])
  }

  ghost predicate AllUnbroken(lines: seq<string>) {
    forall k :: 0 <= k < |lines| ==> Unbroken(lines[k])
  }

  lemma {:induction false} LineLengthOf(line: string, rest: string)
    requires forall i :: 0 <= i < |line| ==> !IsBreak(line[i])
    requires rest == "" || IsBreak(rest[0])
    ensures LineLength(line + rest) == |line|
  {
    if line != "" {
      LineLengthOf(line[1..], rest);
      assert (line + rest)[1..] == line[1..] + rest;
    } else {
      assert line + rest == rest;
    }
  }

  /** Joined lines are read back as they were. */
  lemma {:induction false} SplitLinesOfJoin(lines: seq<string>)
    requires AllUnbroken(lines)
    ensures SplitLines(Join(lines, '\n')) == lines
  {
    if lines != [] {
      var first, rest := lines[0], lines[1..];
      assert Unbroken(first);
      if rest == [] {
        LineLengthOf(first, "");
        assert first + "" == first;
      } else {
        SplitLinesOfJoin(rest);
        var tail := Join(rest, '\n');
        LineLengthOf(first, ['\n'] + tail);
        var s := Join(lines, '\n');
        assert s == first + (['\n'] + tail);
        assert s[|first|] == '\n' && s[..|first|] == first && s[|first| + 1..] == tail;
      }
    }
  }

  lemma {:induction false} WordsJoinUnbroken(words: seq<string>)
    requires AllWords(words)
    ensures forall i :: 0 <= i < |Join(words, ' ')| ==> !IsBreak(Join(words, ' ')[i])
  {
    if words != [] {
      assert IsWord(words[0]);
      WordsJoinUnbroken(words[1..]);
    }
  }

  /** Kept lines are unbroken, squeezed, and differ from their neighbours. */
  ghost predicate Stable(lines: seq<string>) {
    AllUnbroken(lines) && Kept(lines) == lines
  }

  lemma {:induction false} KeptIsStable(raw: seq<string>)
    ensures Stable(Kept(raw))
  {
    if raw != [] {
      var lines, line := Kept(raw[..|raw| - 1]), Squeeze(raw[|raw| - 1]);
      KeptIsStable(raw[..|raw| - 1]);
      if Keeps(lines, line) {
        SqueezeKeepsWords(raw[|raw| - 1]);
        WordsAreWords(raw[|raw| - 1]);
        WordsJoinUnbroken(Words(raw[|raw| - 1]));
        assert (lines + [line])[..|lines|] == lines;
      }
    }
  }

  /** A captured text read as a page is captured as itself. */
  lemma CaptureIsIdempotent(visible: string)
    ensures SplitLines(Capture(visible)) == Kept(SplitLines(visible))
    ensures Capture(Capture(visible)) == Capture(visible)
  {
    KeptIsStable(SplitLines(visible));
    SplitLinesOfJoin(Kept(SplitLines(visible)));
  }

  /** A page of one long word is captured as it is. */
  lemma OneWordIsCaptured(w: string)
    requires IsWord(w)
    ensures Capture(w) == w
  {
    WordIsOneWord(w);
    LineLengthOf(w, "");
    assert w + "" == w && SplitLines(w) == [w];
    assert [w][..0] == [] && Keeps([], Squeeze(w)) && [] + [w] == [w];
    assert Kept([w]) == [w];
  }

  /** A word of `n` letters. */
  function LongWord(n: nat): string {
    seq(n, _ => 'a')
  }

  lemma LongWordIsStored(n: nat, maxBytes: nat)
    requires n > 0
    ensures Utf8Size(LongWord(n)) == n
    ensures n <= maxBytes ==> StoredText(LongWord(n), maxBytes) == Success(LongWord(n))
  {
    OneWordIsCaptured(LongWord(n));
    Utf8SizeBounds(LongWord(n));
  }
}
