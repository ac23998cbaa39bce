/** Text the lock file is made of: lines, white space, package names and the four kinds of meaningful
    line (tools/verify_python_lock.py:13-38). */
module LockText {
  import opened Collections

  // ---------------------------------------------------------------- characters

  /** A line boundary of `str.splitlines`. */
  predicate IsBreak(c: char) {
    var code := c as int;
    10 <= code <= 13 || 28 <= code <= 30 || code == 133 || code == 0x2028 || code == 0x2029
  }

  /** White space, for `str.strip` and for `\s`. */
  predicate IsSpace(c: char) {
    var code := c as int;
    || IsBreak(c) || code == 9 || code == 31 || code == 32 || code == 160 || code == 0x1680
    || 0x2000 <= code <= 0x200a || code == 0x202f || code == 0x205f || code == 0x3000
  }

  predicate IsAlphanumeric(c: char) {
    'a' <= c <= 'z' || 'A' <= c <= 'Z' || '0' <= c <= '9'
  }

  predicate IsSeparator(c: char) {
    c == '-' || c == '_' || c == '.'
  }

  predicate IsHex64(s: string) {
    |s| == 64 && forall i | 0 <= i < 64 :: 'a' <= s[i] <= 'f' || '0' <= s[i] <= '9'
  }

  // ---------------------------------------------------------------- lines

  /** How many characters come before the next line boundary. */
  function LineLength(text: string): (n: nat)
    ensures n <= |text|
    ensures forall i | 0 <= i < n :: !IsBreak(text[i])
    ensures n < |text| ==> IsBreak(text[n])
  {
    if text == "" || IsBreak(text[0]) then 0 else 1 + LineLength(text[1..])
  }

  /** `text.splitlines()`; a carriage return and the line feed after it are one boundary. */
  function SplitLines(text: string): seq<string>
    decreases |text|
  {
    if text == "" then []
    else
      var n := LineLength(text);
      if n == |text| then [text]
      else if text[n] == '\r' && n + 1 < |text| && text[n + 1] == '\n' then [text[..n]] + SplitLines(text[n + 2..])
      else [text[..n]] + SplitLines(text[n + 1..])
  }

  function JoinLines(lines: seq<string>): string {
    if lines == [] then "" else lines[0] + "\n" + JoinLines(lines[1..])
  }

  predicate HasNoBreak(line: string) {
    forall i | 0 <= i < |line| :: !IsBreak(line[i])
  }

  lemma {:induction false} LineLengthIs(line: string, rest: string)
    requires HasNoBreak(line)
    ensures LineLength(line + "\n" + rest) == |line|
  {
    var text := line + "\n" + rest;
    assert forall i | 0 <= i < |line| :: text[i] == line[i];
    assert text[|line|] == '\n';
  }

  /** Splitting undoes joining, for any lines without a line boundary inside. */
  lemma {:induction false} SplitJoin(lines: seq<string>)
    requires forall i | 0 <= i < |lines| :: HasNoBreak(lines[i])
    ensures SplitLines(JoinLines(lines)) == lines
  {
    if lines != [] {
      var rest := JoinLines(lines[1..]);
      var text := lines[0] + "\n" + rest;
      LineLengthIs(lines[0], rest);
      SplitJoin(lines[1..]);
      var n := |lines[0]|;
      assert text[n] == '\n' && text[..n] == lines[0] && text[n + 1..] == rest;
    }
  }

  function StripLeft(s: string): string {
    if s != "" && IsSpace(s[0]) then StripLeft(s[1..]) else s
  }

  function StripRight(s: string): string {
    if s != "" && IsSpace(s[|s| - 1]) then StripRight(s[..|s| - 1]) else s
  }

  function Strip(s: string): string { StripRight(StripLeft(s)) }

  predicate IsTrimmed(s: string) {
    s != "" && !IsSpace(s[0]) && !IsSpace(s[|s| - 1])
  }

  lemma TrimmedStays(s: string)
    requires IsTrimmed(s)
    ensures Strip(s) == s
  {
  }

  // ---------------------------------------------------------------- names

  function Lower(c: char): char {
    if 'A' <= c <= 'Z' then ((c as int) + 32) as char else c
  }

  /** Names are compared in normalized form (PEP 503): runs of `-`, `_` and `.` become one `-`, and
      letters become lower case. */
  function Canonical(name: string): string {
    if name == "" then ""
    else
      var front, last := name[..|name| - 1], name[|name| - 1];
      if !IsSeparator(last) then Canonical(front) + [Lower(last)]
      else if front != "" && IsSeparator(front[|front| - 1]) then Canonical(front)
      else Canonical(front) + "-"
  }

  /** `[A-Za-z0-9][A-Za-z0-9._-]*` */
  predicate IsName(name: string) {
    && name != "" && IsAlphanumeric(name[0])
    && forall i | 0 <= i < |name| :: IsAlphanumeric(name[i]) || IsSeparator(name[i])
  }

  /** What normalization leaves alone: lower case, and single dashes between other characters. */
  predicate IsNormal(name: string) {
    && (forall i | 0 <= i < |name| :: Lower(name[i]) == name[i] && (IsSeparator(name[i]) ==> name[i] == '-'))
    && (forall i | 0 <= i < |name| - 1 :: !(name[i] == '-' && name[i + 1] == '-'))
  }

  lemma {:induction false} NormalStays(name: string)
    requires IsNormal(name)
    ensures Canonical(name) == name
  {
    if name != "" {
      var front := name[..|name| - 1];
      NormalStays(front);
      assert front != "" ==> front[|front| - 1] == name[|name| - 2];
    }
  }

  lemma {:induction false} CanonicalIsNormal(name: string)
    ensures IsNormal(Canonical(name))
    ensures name != "" ==> Canonical(name) != "" &&
                           (Canonical(name)[|Canonical(name)| - 1] == '-' <==> IsSeparator(name[|name| - 1]))
  {
    if name != "" {
      var front, last := name[..|name| - 1], name[|name| - 1];
      CanonicalIsNormal(front);
    }
  }

  /** Normalizing is idempotent. */
  lemma CanonicalTwice(name: string)
    ensures Canonical(Canonical(name)) == Canonical(name)
  {
    CanonicalIsNormal(name);
    NormalStays(Canonical(name));
  }

  lemma {:induction false} CanonicalIsName(name: string)
    requires IsName(name)
    ensures IsName(Canonical(name))
  {
    var front, last := name[..|name| - 1], name[|name| - 1];
    if front != "" {
      CanonicalIsName(front);
    }
  }

  // ---------------------------------------------------------------- what these functions do

  /** The characters that end a line, and the pair that ends it together. */
  predicate IsLineEnd(s: string) {
    s in {"\n", "\U{0b}", "\U{0c}", "\r", "\U{1c}", "\U{1d}", "\U{1e}", "\U{85}", "\U{2028}", "\U{2029}", "\r\n"}
  }

  /** `lines` are the lines of the text: what is between its line ends, where a carriage return takes a line feed
      with it. */
  ghost predicate AreLinesOf(text: string, lines: seq<string>)
    decreases |lines|
  {
    if lines == [] then text == ""
    else if |lines| == 1 && text == lines[0] then text != "" && HasNoLineEnd(text)
    else
      exists end, rest :: IsLineEnd(end) && text == lines[0] + end + rest && HasNoLineEnd(lines[0])
                          && (end == "\r" ==> rest == "" || rest[0] != '\n') && AreLinesOf(rest, lines[1..])
  }

  predicate HasNoLineEnd(line: string) {
    forall i | 0 <= i < |line| :: !IsLineEnd([line[i]])
  }

  lemma BreakExactly(c: char)
    ensures IsBreak(c) <==> IsLineEnd([c])
  {
    assert IsLineEnd([c]) <==> c in {'\n', '\U{0b}', '\U{0c}', '\r', '\U{1c}', '\U{1d}', '\U{1e}', '\U{85}', '\U{2028}', '\U{2029}'} by {
      assert [c][0] == c;
      assert "\n"[0] == '\n' && "\U{0b}"[0] == '\U{0b}' && "\U{0c}"[0] == '\U{0c}' && "\r"[0] == '\r' && "\U{1c}"[0] == '\U{1c}';
      assert "\U{1d}"[0] == '\U{1d}' && "\U{1e}"[0] == '\U{1e}' && "\U{85}"[0] == '\U{85}';
      assert "\U{2028}"[0] == '\U{2028}' && "\U{2029}"[0] == '\U{2029}' && |"\r\n"| == 2;
    }
  }

  lemma NoLineEndBefore(text: string, n: nat)
    requires n <= |text| && forall i | 0 <= i < n :: !IsBreak(text[i])
    ensures HasNoLineEnd(text[..n])
  {
    forall i | 0 <= i < n ensures !IsLineEnd([text[..n][i]]) {
      BreakExactly(text[i]);
    }
  }

  lemma LinesGoOn(line: string, end: string, rest: string, lines: seq<string>)
    requires IsLineEnd(end) && HasNoLineEnd(line) && (end == "\r" ==> rest == "" || rest[0] != '\n') && AreLinesOf(rest, lines)
    ensures AreLinesOf(line + end + rest, [line] + lines)
  {
    assert ([line] + lines)[1..] == lines;
    assert |line + end + rest| > |line|;
  }

  lemma FirstLine(text: string) returns (line: string, end: string, rest: string)
    requires LineLength(text) < |text|
    ensures text == line + end + rest && IsLineEnd(end) && HasNoLineEnd(line) && (end == "\r" ==> rest == "" || rest[0] != '\n')
    ensures SplitLines(text) == [line] + SplitLines(rest)
  {
    var n := LineLength(text);
    line := text[..n];
    NoLineEndBefore(text, n);
    BreakExactly(text[n]);
    if text[n] == '\r' && n + 1 < |text| && text[n + 1] == '\n' {
      end, rest := "\r\n", text[n + 2..];
      assert text[n..n + 2] == end;
    } else {
      end, rest := [text[n]], text[n + 1..];
      assert end == "\r" ==> end[0] == '\r';
    }
  }

  /** `splitlines` returns the lines of the text. */
  lemma {:induction false} LinesExactly(text: string)
    ensures AreLinesOf(text, SplitLines(text))
    decreases |text|
  {
    if text != "" {
      if LineLength(text) == |text| {
        NoLineEndBefore(text, |text|);
        assert text[..|text|] == text;
      } else {
        var line, end, rest := FirstLine(text);
        LinesExactly(rest);
        LinesGoOn(line, end, rest, SplitLines(rest));
      }
    }
  }

  /** The characters `strip` takes off. */
  predicate IsWhite(c: char) {
    c in {'\t', '\n', '\U{0b}', '\U{0c}', '\r', '\U{1c}', '\U{1d}', '\U{1e}', '\U{1f}', ' ', '\U{85}', '\U{a0}', '\U{1680}',
          '\U{2000}', '\U{2001}', '\U{2002}', '\U{2003}', '\U{2004}', '\U{2005}', '\U{2006}', '\U{2007}', '\U{2008}', '\U{2009}',
          '\U{200a}', '\U{2028}', '\U{2029}', '\U{202f}', '\U{205f}', '\U{3000}'}
  }

  lemma SpaceExactly(c: char)
    ensures IsSpace(c) <==> IsWhite(c)
  {
  }

  /** `text` is `core` between white space, and `core` neither begins nor ends with any. */
  ghost predicate IsCoreOf(core: string, text: string) {
    exists before, after :: text == before + core + after && AreWhite(before) && AreWhite(after)
                            && (core != "" ==> !IsWhite(core[0]) && !IsWhite(core[|core| - 1]))
  }

  predicate AreWhite(s: string) {
    forall i | 0 <= i < |s| :: IsWhite(s[i])
  }

  lemma {:induction false} StripLeftExactly(s: string) returns (before: string)
    ensures s == before + StripLeft(s) && AreWhite(before)
    ensures StripLeft(s) != "" ==> !IsWhite(StripLeft(s)[0])
  {
    before := "";
    if s != "" {
      SpaceExactly(s[0]);
      if IsSpace(s[0]) {
        before := StripLeftExactly(s[1..]);
        before := [s[0]] + before;
      }
    }
  }

  lemma {:induction false} StripRightExactly(s: string) returns (after: string)
    ensures s == StripRight(s) + after && AreWhite(after)
    ensures StripRight(s) != "" ==> !IsWhite(StripRight(s)[|StripRight(s)| - 1])
  {
    after := "";
    if s != "" {
      SpaceExactly(s[|s| - 1]);
      if IsSpace(s[|s| - 1]) {
        after := StripRightExactly(s[..|s| - 1]);
        after := after + [s[|s| - 1]];
      }
    }
  }

  /** `strip` takes the white space off both ends, and nothing else. */
  lemma StripExactly(s: string)
    ensures IsCoreOf(Strip(s), s)
  {
    var before := StripLeftExactly(s);
    var after := StripRightExactly(StripLeft(s));
    assert s == before + Strip(s) + after;
    assert Strip(s) != "" ==> Strip(s)[0] == StripLeft(s)[0];
  }

  // ---------------------------------------------------------------- names, in words

  predicate IsWord(word: string) {
    forall i | 0 <= i < |word| :: word[i] !in {'-', '_', '.'}
  }

  predicate IsRun(run: string) {
    run != "" && forall i | 0 <= i < |run| :: run[i] in {'-', '_', '.'}
  }

  predicate IsLowered(word: string, low: string) {
    |low| == |word| && forall i | 0 <= i < |word| ::
      low[i] == if 'A' <= word[i] <= 'Z' then word[i] - 'A' + 'a' else word[i]
  }

  lemma CanonicalLetter(front: string, c: char)
    requires c !in {'-', '_', '.'}
    ensures Canonical(front + [c]) == Canonical(front) + [Lower(c)]
  {
    assert (front + [c])[..|front|] == front;
  }

  lemma Regrouped(a: string, b: string, c: string)
    ensures a + (b + c) == (a + b) + c
  {
  }

  lemma WordGoesOn(front: string, start: string, low: string, c: char)
    requires c !in {'-', '_', '.'} && Canonical(front + start) == Canonical(front) + low
    ensures Canonical(front + (start + [c])) == Canonical(front) + (low + [Lower(c)])
  {
    Regrouped(front, start, [c]);
    CanonicalLetter(front + start, c);
    Regrouped(Canonical(front), low, [Lower(c)]);
  }

  lemma LoweredGoesOn(word: string, low: string, c: char)
    requires IsLowered(word, low)
    ensures IsLowered(word + [c], low + [Lower(c)])
  {
  }

  lemma {:induction false} CanonicalWord(front: string, word: string) returns (low: string)
    requires IsWord(word)
    ensures IsLowered(word, low) && Canonical(front + word) == Canonical(front) + low
  {
    if word == "" {
      low := "";
      assert front + word == front;
    } else {
      var start, c := word[..|word| - 1], word[|word| - 1];
      low := CanonicalWord(front, start);
      WordGoesOn(front, start, low, c);
      LoweredGoesOn(start, low, c);
      assert word == start + [c];
      low := low + [Lower(c)];
    }
  }

  lemma {:induction false} CanonicalRun(front: string, run: string)
    requires IsRun(run) && (front == "" || front[|front| - 1] !in {'-', '_', '.'})
    ensures Canonical(front + run) == Canonical(front) + "-"
  {
    var n := |run| - 1;
    var name := front + run;
    assert name[..|name| - 1] == front + run[..n] && name[|name| - 1] == run[n];
    if n > 0 {
      CanonicalRun(front, run[..n]);
      assert (front + run[..n])[|front| + n - 1] == run[n - 1];
    } else {
      assert front + run[..n] == front;
    }
  }

  /** A name is normalized word by word: each word in lower case, and one dash for every run of `-`, `_` and `.`. */
  lemma CanonicalExactly(front: string, run: string, word: string)
    requires IsRun(run) && IsWord(word) && (front == "" || front[|front| - 1] !in {'-', '_', '.'})
    ensures exists low :: IsLowered(word, low) && Canonical(front + run + word) == Canonical(front) + "-" + low
    ensures exists low :: IsLowered(word, low) && Canonical(word) == low
  {
    CanonicalRun(front, run);
    var after := CanonicalWord(front + run, word);
    var alone := CanonicalWord("", word);
    assert "" + word == word && Canonical("") + alone == alone;
  }
}
