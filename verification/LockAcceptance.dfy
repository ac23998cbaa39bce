/** Which rendered locks the verifier accepts, for wheels of any name
    (tools/refresh_python_lock.py:118-175, tools/verify_python_lock.py:103-168).

    The refresh checks the versions of the collected wheels, and normalizes their names, but it does not
    check the names.  What is written for a malformed name may be refused, or may be read as another
    package. */
module LockAcceptance {
  import opened Collections
  import opened LockText
  import opened RuntimeLock

  // ---------------------------------------------------------------- what an entry is read as

  /** Where the last line of a text begins. */
  function LastLineStart(text: string): (n: nat)
    ensures n <= |text|
    ensures HasNoBreak(text[n..])
    ensures n > 0 ==> IsBreak(text[n - 1])
  {
    if text == "" || IsBreak(text[|text| - 1]) then |text|
    else
      var n := LastLineStart(text[..|text| - 1]);
      assert text[n..] == text[..|text| - 1][n..] + [text[|text| - 1]];
      n
  }

  /** A line that the parser passes over: blank, or a comment that is no fingerprint. */
  predicate IsSkipped(line: string) {
    var s := Strip(line);
    s == "" || (s[0] == '#' && !IsFingerprint(s))
  }

  predicate IsPlain(s: string) {
    forall i | 0 <= i < |s| :: !IsSpace(s[i]) && s[i] != '\\'
  }

  /** The last line of a name, up to its first `=`, and the rest of it. */
  function Stem(name: string): (string, string) {
    var last := StripLeft(name[LastLineStart(name)..]);
    var n := NameLength(last);
    (last[..n], last[n..])
  }

  /** What makes the entry of a name readable: the lines before its last one are passed over, and its
      last line is a package name, followed by nothing or by an equality sign and more text that could
      be part of a version. */
  predicate IsReadable(name: string) {
    var (stem, rest) := Stem(name);
    && (forall line | line in SplitLines(name[..LastLineStart(name)]) :: IsSkipped(line))
    && IsName(stem)
    && IsPlain(rest) && (|rest| >= 2 ==> rest[1] == '=')
  }

  /** The package and the version that an entry is read as, if it is readable. */
  function Reading(record: WheelRecord): Option<(string, string)> {
    var (stem, rest) := Stem(record.name);
    if IsReadable(record.name) then Some((Canonical(stem), (rest + "==" + record.version)[2..])) else None
  }

  // ---------------------------------------------------------------- the lines of an entry

  lemma {:induction false} FirstLineStays(a: string, b: string)
    ensures LineLength(a) < |a| ==> LineLength(a + b) == LineLength(a)
    ensures LineLength(a) == |a| ==> LineLength(a + b) >= |a|
  {
    if a != "" && !IsBreak(a[0]) {
      FirstLineStays(a[1..], b);
      assert (a + b)[1..] == a[1..] + b;
    }
  }

  predicate EndsLine(text: string) {
    text == "" || IsBreak(text[|text| - 1])
  }

  /** Where the second line of a text begins. */
  function SecondLine(text: string): (n: nat)
    requires LineLength(text) < |text|
    ensures 0 < n <= |text|
  {
    var n := LineLength(text);
    if text[n] == '\r' && n + 1 < |text| && text[n + 1] == '\n' then n + 2 else n + 1
  }

  lemma SplitFirst(text: string)
    requires LineLength(text) < |text|
    ensures SplitLines(text) == [text[..LineLength(text)]] + SplitLines(text[SecondLine(text)..])
  {
  }

  lemma SecondLineStays(text: string, rest: string)
    requires EndsLine(text) && text != "" && rest != "" && rest[0] != '\n'
    ensures LineLength(text) < |text| && LineLength(text + rest) == LineLength(text)
    ensures SecondLine(text + rest) == SecondLine(text)
  {
    assert IsBreak(text[|text| - 1]);
    FirstLineStays(text, rest);
    var n := LineLength(text);
    assert n + 1 == |text| ==> (text + rest)[n + 1] == rest[0];
    assert n + 1 < |text| ==> (text + rest)[n + 1] == text[n + 1];
  }

  lemma TakeAndDrop(text: string, rest: string, n: nat)
    requires n <= |text|
    ensures (text + rest)[..n] == text[..n] && (text + rest)[n..] == text[n..] + rest
  {
  }

  lemma Prepend(line: string, a: seq<string>, b: seq<string>)
    ensures [line] + (a + b) == ([line] + a) + b
  {
  }

  /** After the end of a line, the rest is split on its own. */
  lemma {:induction false} SplitAfterLine(text: string, rest: string)
    requires EndsLine(text) && rest != "" && rest[0] != '\n'
    ensures SplitLines(text + rest) == SplitLines(text) + SplitLines(rest)
    decreases |text|
  {
    if text == "" {
      assert text + rest == rest;
    } else {
      SecondLineStays(text, rest);
      SplitFirst(text);
      SplitFirst(text + rest);
      TakeAndDrop(text, rest, LineLength(text));
      TakeAndDrop(text, rest, SecondLine(text));
      SplitAfterLine(text[SecondLine(text)..], rest);
      Prepend(text[..LineLength(text)], SplitLines(text[SecondLine(text)..]), SplitLines(rest));
    }
  }

  lemma {:induction false} SplitOneLine(line: string, rest: string)
    requires HasNoBreak(line)
    ensures SplitLines(line + "\n" + rest) == [line] + SplitLines(rest)
  {
    var text := line + "\n" + rest;
    LineLengthIs(line, rest);
    var n := |line|;
    assert text[n] == '\n' && text[..n] == line && text[n + 1..] == rest;
  }

  lemma JoinedThen(line: string, joined: string, rest: string)
    ensures (line + "\n" + joined) + rest == line + "\n" + (joined + rest)
  {
  }

  lemma {:induction false} SplitJoined(lines: seq<string>, rest: string)
    requires forall i | 0 <= i < |lines| :: HasNoBreak(lines[i])
    ensures SplitLines(JoinLines(lines) + rest) == lines + SplitLines(rest)
  {
    if lines == [] {
      assert JoinLines(lines) + rest == rest;
    } else {
      JoinedThen(lines[0], JoinLines(lines[1..]), rest);
      SplitOneLine(lines[0], JoinLines(lines[1..]) + rest);
      SplitJoined(lines[1..], rest);
      Prepend(lines[0], lines[1..], SplitLines(rest));
      assert [lines[0]] + lines[1..] == lines;
    }
  }

  lemma {:induction false} JoinBoth(a: seq<string>, b: seq<string>)
    ensures JoinLines(a + b) == JoinLines(a) + JoinLines(b)
  {
    if a == [] {
      assert a + b == b;
    } else {
      JoinBoth(a[1..], b);
      assert (a + b)[1..] == a[1..] + b;
    }
  }

  /** The lines before the last one of a name. */
  function Above(name: string): string { name[..LastLineStart(name)] }

  /** The last line of the entry of a record. */
  function LastLine(record: WheelRecord): string {
    record.name[LastLineStart(record.name)..] + "==" + record.version + " \\"
  }

  lemma LastLineHasNoBreak(record: WheelRecord)
    requires IsVersion(record.version)
    ensures HasNoBreak(LastLine(record)) && LastLine(record) != "" && LastLine(record)[0] != '\n'
  {
    var tail := record.name[LastLineStart(record.name)..];
    var line := LastLine(record);
    forall i | 0 <= i < |line| ensures !IsBreak(line[i]) {
      if i < |tail| {
        assert line[i] == tail[i];
      } else if |tail| + 2 <= i < |tail| + 2 + |record.version| {
        assert line[i] == record.version[i - |tail| - 2];
      }
    }
  }

  lemma EntryIsSplit(record: WheelRecord, rest: string)
    requires IsVersion(record.version)
    ensures SplitLines(EntryLine(record) + "\n" + rest) ==
            SplitLines(Above(record.name)) + ([LastLine(record)] + SplitLines(rest))
  {
    var n := LastLineStart(record.name);
    LastLineHasNoBreak(record);
    var more := LastLine(record) + "\n" + rest;
    assert record.name == Above(record.name) + record.name[n..];
    assert EntryLine(record) + "\n" + rest == Above(record.name) + more;
    assert more[0] == LastLine(record)[0];
    SplitAfterLine(Above(record.name), more);
    SplitOneLine(LastLine(record), rest);
  }

  // ---------------------------------------------------------------- reading the last line

  lemma {:induction false} StripLeftOf(a: string, b: string)
    requires b != "" && !IsSpace(b[0])
    ensures StripLeft(a + b) == StripLeft(a) + b
  {
    if a == "" {
      assert a + b == b;
    } else {
      assert (a + b)[1..] == a[1..] + b;
      if IsSpace(a[0]) {
        StripLeftOf(a[1..], b);
      }
    }
  }

  lemma {:induction false} NameEnds(a: string, b: string)
    requires b != "" && b[0] == '=' && forall i | 0 <= i < |a| :: a[i] != '='
    ensures NameLength(a + b) == |a|
  {
    assert forall i | 0 <= i < |a| :: (a + b)[i] == a[i];
    assert (a + b)[|a|] == '=';
  }

  /** The second half of `EntryOf`: a version and the continuation sign. */
  function VersionAndSign(stem: string, s: string): Option<(string, string)> {
    var v := VersionLength(s);
    if v == 0 || !IsContinuation(s[v..]) then None else Some((stem, s[..v]))
  }

  lemma EntryOfHalves(stem: string, suffix: string)
    requires |suffix| >= 2 && suffix[0] == '=' && forall i | 0 <= i < |stem| :: stem[i] != '='
    ensures EntryOf(stem + suffix) ==
            if IsName(stem) && suffix[1] == '=' then VersionAndSign(stem, suffix[2..]) else None
  {
    NameEnds(stem, suffix);
    Slices(stem, suffix);
  }

  lemma Slices(stem: string, suffix: string)
    requires |suffix| >= 2
    ensures var line, n := stem + suffix, |stem|;
            line[..n] == stem && line[n + 1] == suffix[1] && line[n + 2..] == suffix[2..]
  {
  }

  /** A version text is read up to its end, if it is plain; if it is not, there is no version there. */
  lemma VersionEnds(stem: string, text: string, version: string)
    requires IsVersion(version)
    ensures VersionAndSign(stem, text + version + " \\") == if IsPlain(text) then Some((stem, text + version)) else None
  {
    var s := text + version + " \\";
    var v := VersionLength(s);
    assert s[|text| + |version|] == ' ';
    assert forall i | 0 <= i < |text| :: s[i] == text[i];
    assert forall i | 0 <= i < |version| :: s[|text| + i] == version[i];
    if IsPlain(text) {
      assert s[..v] == text + version && s[v..] == " \\";
    } else {
      assert v < |text|;
      assert s[v..][|text| - v] == version[0];
    }
  }

  lemma SuffixParts(rest: string, version: string)
    requires rest != "" ==> rest[0] == '='
    ensures var suffix, text := rest + "==" + version + " \\", (rest + "==")[2..];
            && suffix[0] == '=' && (suffix[1] == '=' <==> (|rest| >= 2 ==> rest[1] == '='))
            && (rest + "==")[1] == suffix[1]
            && suffix[2..] == text + version + " \\" && (rest + "==" + version)[2..] == text + version
  {
  }

  /** What `EntryOf` makes of a stem, a rest and a version. */
  lemma EntryOfParts(stem: string, rest: string, version: string)
    requires IsVersion(version) && (forall i | 0 <= i < |stem| :: stem[i] != '=') && (rest != "" ==> rest[0] == '=')
    ensures EntryOf(stem + (rest + "==" + version + " \\")) ==
            if IsName(stem) && IsPlain(rest) && (|rest| >= 2 ==> rest[1] == '=')
            then Some((stem, (rest + "==" + version)[2..])) else None
  {
    SuffixParts(rest, version);
    EntryOfHalves(stem, rest + "==" + version + " \\");
    var text := (rest + "==")[2..];
    VersionEnds(stem, text, version);
    if (rest + "==")[1] == '=' {
      TextIsPlain(rest, text);
    }
  }

  lemma TextIsPlain(rest: string, text: string)
    requires rest != "" ==> rest[0] == '='
    requires text == (rest + "==")[2..] && (rest + "==")[1] == '='
    ensures IsPlain(text) <==> IsPlain(rest)
  {
    if IsPlain(rest) {
      forall i | 0 <= i < |text| ensures !IsSpace(text[i]) && text[i] != '\\' {
        assert text[i] == (rest + "==")[i + 2];
      }
    } else {
      var i :| 0 <= i < |rest| && (IsSpace(rest[i]) || rest[i] == '\\');
      assert i >= 2 && text[i - 2] == rest[i];
    }
  }

  lemma Regroup(stem: string, rest: string, version: string)
    ensures (stem + rest) + ("==" + version + " \\") == stem + (rest + "==" + version + " \\")
  {
  }

  lemma StripLastLine(record: WheelRecord)
    requires IsVersion(record.version)
    ensures var (stem, rest) := Stem(record.name);
            Strip(LastLine(record)) == stem + (rest + "==" + record.version + " \\")
  {
    var tail, suffix := record.name[LastLineStart(record.name)..], "==" + record.version + " \\";
    assert LastLine(record) == tail + suffix;
    StripLeftOf(tail, suffix);
    StripsNothing(StripLeft(tail) + suffix);
    var (stem, rest) := Stem(record.name);
    assert StripLeft(tail) == stem + rest;
    Regroup(stem, rest, record.version);
  }

  lemma StripsNothing(s: string)
    requires s != "" && !IsSpace(s[|s| - 1])
    ensures StripRight(s) == s
  {
  }

  lemma KindOfEntry(line: string)
    ensures match EntryOf(line)
            case Some(entry) => KindOf(line) == Entry(Canonical(entry.0), entry.1)
            case None => !KindOf(line).Entry?
  {
    if EntryOf(line).Some? {
      assert IsAlphanumeric(line[0]);
      assert FINGERPRINT[0] == '#' && BINARY_ONLY[0] == '-';
    }
  }

  /** The last line of an entry is a package line exactly if its stem and the rest of it are in order. */
  lemma LastLineKind(record: WheelRecord)
    requires IsVersion(record.version)
    ensures var (stem, rest) := Stem(record.name);
            var kind := KindOf(Strip(LastLine(record)));
            if IsName(stem) && IsPlain(rest) && (|rest| >= 2 ==> rest[1] == '=')
            then kind == Entry(Canonical(stem), (rest + "==" + record.version)[2..])
            else !kind.Entry?
  {
    var (stem, rest) := Stem(record.name);
    StripLastLine(record);
    EntryOfParts(stem, rest, record.version);
    KindOfEntry(Strip(LastLine(record)));
  }

  // ---------------------------------------------------------------- no line of a name is a hash

  predicate HasNoDoubleDash(s: string) {
    forall i | 0 <= i < |s| - 1 :: !(s[i] == '-' && s[i + 1] == '-')
  }

  lemma HashHasDoubleDash(line: string)
    ensures IsHash(line) ==> !HasNoDoubleDash(line)
  {
    if IsHash(line) {
      assert line[0] == HASH[0] && line[1] == HASH[1];
    }
  }

  lemma HashEndsInHex(line: string)
    ensures IsHash(line) ==> line[|line| - 1] != '\\'
  {
    if IsHash(line) {
      assert line[|HASH|..][63] == line[|line| - 1];
    }
  }

  lemma {:induction false} StripIsPart(s: string) returns (i: nat, j: nat)
    ensures i <= j <= |s| && Strip(s) == s[i..j]
  {
    i := StripLeftIsPart(s);
    var t := StripLeft(s);
    var k := StripRightIsPart(t);
    j := i + k;
    assert t[..k] == s[i..j];
  }

  lemma {:induction false} StripLeftIsPart(s: string) returns (i: nat)
    ensures i <= |s| && StripLeft(s) == s[i..]
  {
    i := 0;
    if s != "" && IsSpace(s[0]) {
      i := StripLeftIsPart(s[1..]);
      assert s[1..][i..] == s[i + 1..];
      i := i + 1;
    }
  }

  lemma {:induction false} StripRightIsPart(s: string) returns (j: nat)
    ensures j <= |s| && StripRight(s) == s[..j]
  {
    j := |s|;
    if s != "" && IsSpace(s[|s| - 1]) {
      j := StripRightIsPart(s[..|s| - 1]);
      assert s[..|s| - 1][..j] == s[..j];
    }
  }

  lemma StripKeepsNoDoubleDash(s: string)
    requires HasNoDoubleDash(s)
    ensures HasNoDoubleDash(Strip(s))
  {
    var i, j := StripIsPart(s);
    forall k: int | 0 <= k < j - i - 1 ensures !(s[i..j][k] == '-' && s[i..j][k + 1] == '-') {
      assert s[i..j][k] == s[i + k] && s[i..j][k + 1] == s[i + k + 1];
    }
  }

  lemma {:induction false} LinesHaveNoDoubleDash(text: string)
    requires HasNoDoubleDash(text)
    ensures forall line | line in SplitLines(text) :: HasNoDoubleDash(line)
    decreases |text|
  {
    if text != "" && LineLength(text) < |text| {
      SplitFirst(text);
      LinesHaveNoDoubleDash(text[SecondLine(text)..]);
    }
  }

  /** The lines that come from a normalized name are no hash lines. */
  lemma NameLinesAreNoHashes(name: string)
    requires IsNormal(name)
    ensures forall line | line in SplitLines(Above(name)) :: !IsHash(Strip(line))
  {
    assert HasNoDoubleDash(Above(name));
    LinesHaveNoDoubleDash(Above(name));
    forall line | line in SplitLines(Above(name)) ensures !IsHash(Strip(line)) {
      StripKeepsNoDoubleDash(line);
      HashHasDoubleDash(Strip(line));
    }
  }

  lemma LastLineIsNoHash(record: WheelRecord)
    requires IsVersion(record.version)
    ensures !IsHash(Strip(LastLine(record)))
  {
    StripLastLine(record);
    HashEndsInHex(Strip(LastLine(record)));
  }

  // ---------------------------------------------------------------- parsing one entry

  /** Once the header has been read, no second policy or fingerprint is accepted. */
  predicate IsPastHeader(p: Progress) {
    p.binaryOnly && p.fingerprint.Some?
  }

  lemma HashAlone(record: WheelRecord)
    requires IsHex64(record.sha256)
    ensures KindOf(Strip(HashLine(record))).Unsupported?
  {
    var core := HASH + record.sha256;
    assert HashLine(record) == "    " + core;
    assert core[0] == '-' && core[|core| - 1] == record.sha256[63];
    StripIndent(core);
    HashIsUnsupported(core);
  }

  lemma HashIsUnsupported(core: string)
    requires |core| > 2 && core[0] == '-' && core[2] == 'h'
    ensures KindOf(core).Unsupported?
  {
    assert FINGERPRINT[0] == '#' && BINARY_ONLY[2] == 'o';
    var n := NameLength(core);
    assert n > 0 ==> core[..n][0] == '-';
  }

  /** An entry of lines to pass over, a last line, and a hash is accepted exactly if they are in order. */
  lemma {:induction false} ParseGroup(above: seq<string>, last: string, hash: string, rest: seq<string>, p: Progress)
    requires IsPastHeader(p)
    requires (forall line | line in above :: !IsHash(Strip(line))) && !IsHash(Strip(last))
    requires IsHash(Strip(hash)) && KindOf(Strip(hash)).Unsupported?
    ensures var kind := KindOf(Strip(last));
            if (forall line | line in above :: IsSkipped(line)) && kind.Entry? && kind.name !in p.packages
            then Parse(above + [last, hash] + rest, p) == Parse(rest, p.(packages := p.packages[kind.name := kind.version]))
            else Parse(above + [last, hash] + rest, p).Err?
    decreases |above|
  {
    var lines := above + [last, hash] + rest;
    if above == [] {
      assert lines == [last, hash] + rest;
      ParseLast(last, hash, rest, p);
    } else {
      assert lines[0] == above[0] && lines[1..] == above[1..] + [last, hash] + rest;
      assert lines[1] in above || lines[1] == last;
      assert above == [above[0]] + above[1..];
      ParseAbove(lines, p);
      if IsSkipped(above[0]) {
        ParseGroup(above[1..], last, hash, rest, p);
      }
    }
  }

  lemma SkippedKind(line: string)
    ensures IsSkipped(line) <==> KindOf(Strip(line)) in {Blank, Comment}
  {
  }

  lemma ParseAbove(lines: seq<string>, p: Progress)
    requires IsPastHeader(p) && |lines| > 1 && !IsHash(Strip(lines[1]))
    ensures if IsSkipped(lines[0]) then Parse(lines, p) == Parse(lines[1..], p) else Parse(lines, p).Err?
  {
    SkippedKind(lines[0]);
  }

  lemma ParseUnsupported(lines: seq<string>, p: Progress)
    requires lines != [] && KindOf(Strip(lines[0])).Unsupported?
    ensures Parse(lines, p).Err?
  {
  }

  lemma ParseNoEntry(lines: seq<string>, p: Progress)
    requires IsPastHeader(p) && lines != [] && Parse(lines[1..], p).Err?
    requires var kind := KindOf(Strip(lines[0])); kind.Entry? ==> kind.name in p.packages
    ensures Parse(lines, p).Err?
  {
  }

  lemma ParseLast(last: string, hash: string, rest: seq<string>, p: Progress)
    requires IsPastHeader(p) && IsHash(Strip(hash)) && KindOf(Strip(hash)).Unsupported?
    ensures var kind := KindOf(Strip(last));
            if kind.Entry? && kind.name !in p.packages
            then Parse([last, hash] + rest, p) == Parse(rest, p.(packages := p.packages[kind.name := kind.version]))
            else Parse([last, hash] + rest, p).Err?
  {
    var kind := KindOf(Strip(last));
    if kind.Entry? && kind.name !in p.packages {
      ParseEntry(last, hash, kind.name, kind.version, rest, p);
    } else {
      var lines := [last, hash] + rest;
      assert lines[0] == last && lines[1..][0] == hash;
      ParseUnsupported(lines[1..], p);
      ParseNoEntry(lines, p);
    }
  }

  // ---------------------------------------------------------------- parsing a whole lock

  /** What the refresh knows of a wheel it has collected: its name is normalized, its version is safe, and
      it has a digest. */
  predicate IsWheel(record: WheelRecord) {
    Canonical(record.name) == record.name && IsVersion(record.version) && IsHex64(record.sha256)
  }

  ghost predicate AreWheels(records: seq<WheelRecord>) {
    forall i | 0 <= i < |records| :: IsWheel(records[i])
  }

  function Readings(records: seq<WheelRecord>): (r: seq<Option<(string, string)>>)
    ensures |r| == |records|
  {
    if records == [] then [] else [Reading(records[0])] + Readings(records[1..])
  }

  /** The packages read, unless one is not readable or one is repeated. */
  function Collect(readings: seq<Option<(string, string)>>, before: Versions): Option<Versions> {
    if readings == [] then Some(before)
    else match readings[0]
      case None => None
      case Some((name, version)) => if name in before then None else Collect(readings[1..], before[name := version])
  }

  lemma OneEntryIsSplit(record: WheelRecord, more: string)
    requires IsWheel(record)
    ensures SplitLines(EntryLine(record) + "\n" + (HashLine(record) + "\n" + more)) ==
            SplitLines(Above(record.name)) + [LastLine(record), HashLine(record)] + SplitLines(more)
  {
    HashKind(record);
    EntryIsSplit(record, HashLine(record) + "\n" + more);
    SplitOneLine(HashLine(record), more);
    Gather(SplitLines(Above(record.name)), LastLine(record), HashLine(record), SplitLines(more));
  }

  lemma Gather(above: seq<string>, last: string, hash: string, rest: seq<string>)
    ensures above + ([last] + ([hash] + rest)) == above + [last, hash] + rest
  {
  }

  lemma OneEntryIsParsed(record: WheelRecord, rest: seq<string>, p: Progress)
    requires IsWheel(record) && IsPastHeader(p)
    ensures var lines := SplitLines(Above(record.name)) + [LastLine(record), HashLine(record)] + rest;
            match Reading(record)
            case None => Parse(lines, p).Err?
            case Some((name, version)) =>
              if name in p.packages then Parse(lines, p).Err?
              else Parse(lines, p) == Parse(rest, p.(packages := p.packages[name := version]))
  {
    CanonicalIsNormal(record.name);
    NameLinesAreNoHashes(record.name);
    LastLineIsNoHash(record);
    HashKind(record);
    HashAlone(record);
    LastLineKind(record);
    ParseGroup(SplitLines(Above(record.name)), LastLine(record), HashLine(record), rest, p);
  }

  lemma JoinEntries(records: seq<WheelRecord>)
    requires records != []
    ensures JoinLines(Entries(records)) ==
            EntryLine(records[0]) + "\n" + (HashLine(records[0]) + "\n" + JoinLines(Entries(records[1..])))
  {
    var lines := Entries(records);
    assert lines[0] == EntryLine(records[0]) && lines[1..][0] == HashLine(records[0]);
    assert lines[1..][1..] == Entries(records[1..]);
  }

  lemma {:induction false} EntriesAreParsed(records: seq<WheelRecord>, p: Progress)
    requires AreWheels(records) && IsPastHeader(p)
    ensures var parsed := Parse(SplitLines(JoinLines(Entries(records))), p);
            match Collect(Readings(records), p.packages)
            case None => parsed.Err?
            case Some(packages) => parsed == Ok(p.(packages := packages))
  {
    if records != [] {
      var more := JoinLines(Entries(records[1..]));
      JoinEntries(records);
      OneEntryIsSplit(records[0], more);
      OneEntryIsParsed(records[0], SplitLines(more), p);
      assert Readings(records)[1..] == Readings(records[1..]);
      match Reading(records[0])
      case None =>
      case Some((name, version)) => EntriesAreParsed(records[1..], p.(packages := p.packages[name := version]));
    }
  }

  lemma RenderedIsSplit(records: seq<WheelRecord>, fingerprint: string)
    requires IsHex64(fingerprint)
    ensures SplitLines(Rendered(records, fingerprint)) == Header(fingerprint) + SplitLines(JoinLines(Entries(records)))
  {
    HeaderHasNoBreak(fingerprint);
    JoinBoth(Header(fingerprint), Entries(records));
    SplitJoined(Header(fingerprint), JoinLines(Entries(records)));
  }

  lemma {:induction false} ReadingsAt(records: seq<WheelRecord>, i: nat)
    requires i < |records|
    ensures Readings(records)[i] == Reading(records[i])
  {
    if i > 0 {
      ReadingsAt(records[1..], i - 1);
    }
  }

  lemma {:induction false} CollectGrows(readings: seq<Option<(string, string)>>, before: Versions)
    requires Collect(readings, before).Some?
    ensures |Collect(readings, before).value| == |before| + |readings|
    ensures forall name | name in before :: name in Collect(readings, before).value
                                            && Collect(readings, before).value[name] == before[name]
  {
    if readings != [] {
      var (name, version) := readings[0].value;
      CollectGrows(readings[1..], before[name := version]);
    }
  }

  /** Each reading is among the packages that are collected. */
  lemma {:induction false} CollectHas(readings: seq<Option<(string, string)>>, before: Versions, i: nat)
    requires Collect(readings, before).Some? && i < |readings|
    ensures readings[i].Some? && readings[i].value.0 in Collect(readings, before).value
    ensures Collect(readings, before).value[readings[i].value.0] == readings[i].value.1
  {
    var (name, version) := readings[0].value;
    if i == 0 {
      CollectGrows(readings[1..], before[name := version]);
    } else {
      CollectHas(readings[1..], before[name := version], i - 1);
    }
  }

  // ---------------------------------------------------------------- the condition

  predicate ReadApart(a: Option<(string, string)>, b: Option<(string, string)>) {
    a.Some? && b.Some? && a.value.0 != b.value.0
  }

  ghost predicate AreApart(readings: seq<Option<(string, string)>>) {
    && (forall i | 0 <= i < |readings| :: readings[i].Some?)
    && (forall i, j {:trigger ReadApart(readings[i], readings[j])} | 0 <= i < j < |readings| :: ReadApart(readings[i], readings[j]))
  }

  ghost predicate AreNew(readings: seq<Option<(string, string)>>, before: Versions) {
    forall i | 0 <= i < |readings| :: readings[i].Some? ==> readings[i].value.0 !in before
  }

  /** There are entries, each of them is readable, and no two are read as the same package. */
  ghost predicate AreAcceptable(records: seq<WheelRecord>) {
    records != [] && AreApart(Readings(records))
  }

  lemma ApartOneMore(first: Option<(string, string)>, rest: seq<Option<(string, string)>>)
    ensures AreApart([first] + rest) <==> first.Some? && AreApart(rest) && forall i | 0 <= i < |rest| :: ReadApart(first, rest[i])
  {
    var readings := [first] + rest;
    assert readings[0] == first && forall i | 0 <= i < |rest| :: readings[i + 1] == rest[i];
    if AreApart(readings) {
      forall i | 0 <= i < |rest| ensures rest[i].Some? && ReadApart(first, rest[i]) {
        assert ReadApart(readings[0], readings[i + 1]);
      }
      forall i, j | 0 <= i < j < |rest| ensures ReadApart(rest[i], rest[j]) {
        assert ReadApart(readings[i + 1], readings[j + 1]);
      }
    }
  }

  lemma NewOneMore(name: string, version: string, rest: seq<Option<(string, string)>>, before: Versions)
    requires name !in before && forall i | 0 <= i < |rest| :: rest[i].Some?
    ensures AreNew([Some((name, version))] + rest, before) && (forall i | 0 <= i < |rest| :: ReadApart(Some((name, version)), rest[i]))
            <==> AreNew(rest, before[name := version])
  {
    var readings := [Some((name, version))] + rest;
    assert readings[0] == Some((name, version)) && forall i | 0 <= i < |rest| :: readings[i + 1] == rest[i];
  }

  lemma {:induction false} CollectExactly(readings: seq<Option<(string, string)>>, before: Versions)
    ensures Collect(readings, before).Some? <==> AreApart(readings) && AreNew(readings, before)
  {
    if readings != [] {
      var first, rest := readings[0], readings[1..];
      assert readings == [first] + rest;
      ApartOneMore(first, rest);
      if first.Some? && first.value.0 !in before {
        var (name, version) := first.value;
        CollectExactly(rest, before[name := version]);
        if AreApart(rest) {
          NewOneMore(name, version, rest, before);
        }
      }
    }
  }

  /** A rendered lock is accepted by the parser exactly if every entry is readable and no two are read as
      the same package; and it is read as the packages of the entries. */
  lemma LockIsAccepted(records: seq<WheelRecord>, fingerprint: string)
    requires IsHex64(fingerprint) && AreWheels(records)
    ensures var locked := Locked(SplitLines(Rendered(records, fingerprint)));
            && (locked.Ok? <==> AreAcceptable(records))
            && (locked.Ok? ==> && Collect(Readings(records), map[]).Some?
                               && locked.value == (Collect(Readings(records), map[]).value, fingerprint))
  {
    RenderedIsSplit(records, fingerprint);
    HeaderIsRead(fingerprint, SplitLines(JoinLines(Entries(records))));
    EntriesAreParsed(records, Progress(map[], true, Some(fingerprint)));
    CollectExactly(Readings(records), map[]);
    if Collect(Readings(records), map[]).Some? {
      CollectGrows(Readings(records), map[]);
    }
  }

  // ---------------------------------------------------------------- names of one line

  /** A name of one line without an equality sign is readable exactly if it is well-formed, and then as
      itself. */
  lemma OrdinaryNames(record: WheelRecord)
    requires HasNoBreak(record.name) && (record.name != "" ==> !IsSpace(record.name[0]))
    requires forall i | 0 <= i < |record.name| :: record.name[i] != '='
    ensures IsReadable(record.name) <==> IsName(record.name)
    ensures IsName(record.name) ==> Reading(record) == Some((Canonical(record.name), record.version))
  {
    var name := record.name;
    assert LastLineStart(name) == 0;
    assert name[0..] == name && name[..0] == "";
    assert StripLeft(name) == name;
    assert NameLength(name) == |name| && name[..|name|] == name && name[|name|..] == "";
    assert ("" + "==" + record.version)[2..] == record.version;
  }

  lemma PackagesAreOrdinary(record: WheelRecord)
    requires IsPackage(record)
    ensures Reading(record) == Some((record.name, record.version))
  {
    OrdinaryNames(record);
  }

  /** The lock of a single wheel. */
  lemma SingleLock(record: WheelRecord, fingerprint: string)
    requires IsHex64(fingerprint) && IsWheel(record)
    ensures var locked := Locked(SplitLines(Rendered([record], fingerprint)));
            match Reading(record)
            case None => locked.Err?
            case Some((name, version)) => locked == Ok((map[name := version], fingerprint))
  {
    LockIsAccepted([record], fingerprint);
    assert [record][0] == record && [record][1..] == [];
    assert Readings([record]) == [Reading(record)];
  }

  /** A wheel whose name has a space in it is rendered, and the lock is refused. */
  lemma NameWithSpaceIsRefused(record: WheelRecord, fingerprint: string)
    requires record.name == "a b" && IsVersion(record.version) && IsHex64(record.sha256) && IsHex64(fingerprint)
    ensures IsWheel(record) && Locked(SplitLines(Rendered([record], fingerprint))).Err?
  {
    assert record.name[1] == ' ';
    NormalStays(record.name);
    OrdinaryNames(record);
    SingleLock(record, fingerprint);
  }

  /** A wheel whose name has equality signs in it is rendered, and the lock is accepted, as another
      package of another version. */
  lemma NameWithEqualitySignsIsAnotherPackage(record: WheelRecord, fingerprint: string)
    requires record.name == "foo==1" && record.version == "2" && IsHex64(record.sha256) && IsHex64(fingerprint)
    ensures IsWheel(record) && !IsName(record.name)
    ensures Locked(SplitLines(Rendered([record], fingerprint))) == Ok((map["foo" := "1==2"], fingerprint))
  {
    var name, version := EqualitySigns(record);
    SingleLockOf(record, name, version, fingerprint);
  }

  lemma SingleLockOf(record: WheelRecord, name: string, version: string, fingerprint: string)
    requires IsHex64(fingerprint) && IsWheel(record) && Reading(record) == Some((name, version))
    ensures Locked(SplitLines(Rendered([record], fingerprint))) == Ok((map[name := version], fingerprint))
  {
    SingleLock(record, fingerprint);
  }

  lemma EqualitySignsAreNormal(name: string)
    requires name == "foo==1"
    ensures Canonical(name) == name
  {
    NormalStays(name);
  }

  lemma EqualitySigns(record: WheelRecord) returns (name: string, version: string)
    requires record.name == "foo==1" && record.version == "2" && IsHex64(record.sha256)
    ensures IsWheel(record) && !IsName(record.name)
    ensures name == "foo" && version == "1==2" && Reading(record) == Some((name, version))
  {
    EqualitySignsAreNormal(record.name);
    EqualitySignsStem(record.name);
    name, version := "foo", "1==2";
    EqualitySignsParts(name, "==1", record.version);
  }

  lemma EqualitySignsParts(stem: string, rest: string, version: string)
    requires stem == "foo" && rest == "==1" && version == "2"
    ensures IsName(stem) && Canonical(stem) == stem
    ensures IsPlain(rest) && rest[1] == '=' && (rest + "==" + version)[2..] == "1==2"
  {
    NormalStays(stem);
  }

  lemma EqualitySignsStem(name: string)
    requires name == "foo==1"
    ensures !IsName(name) && Stem(name) == ("foo", "==1") && SplitLines(name[..LastLineStart(name)]) == []
  {
    assert name[3] == '=';
    assert LastLineStart(name) == 0;
    assert name[0..] == name && name[..0] == "" && StripLeft(name) == name;
    assert NameLength(name) == 3 && name[..3] == "foo" && name[3..] == "==1";
  }

  // ---------------------------------------------------------------- verifying what was rendered

  lemma {:induction false} ListedAt(order: seq<string>, records: map<string, WheelRecord>)
    requires forall i | 0 <= i < |order| :: order[i] in records
    ensures |Listed(order, records)| == |order|
    ensures forall i | 0 <= i < |order| :: Listed(order, records)[i] == records[order[i]]
  {
    if order != [] {
      ListedAt(order[1..], records);
    }
  }

  lemma {:induction false} ListingSize<K, V>(order: seq<K>, m: map<K, V>)
    requires (forall k :: k in order <==> k in m) && forall i, j | 0 <= i < j < |order| :: order[i] != order[j]
    ensures |order| == |m|
  {
    if order == [] {
      assert m.Keys == {};
    } else {
      var front, last := order[..|order| - 1], order[|order| - 1];
      assert order == front + [last];
      ListingSize(front, m - {last});
      assert m.Keys == (m - {last}).Keys + {last};
    }
  }

  /** The wheels the resolver collected, filed under their names. */
  ghost predicate AreCollected(records: map<string, WheelRecord>) {
    forall name | name in records :: records[name].name == name && IsWheel(records[name])
  }

  /** What the refresh does with its own result: render the lock, then verify it.  This succeeds exactly if
      the pins agree, every entry is readable, no two are read as the same package, and the direct
      dependencies have well-formed names; every direct dependency and every package is counted. */
  method RenderAndVerify(direct: Versions, records: map<string, WheelRecord>, order: seq<string>, fingerprint: string)
    returns (r: Result<(nat, nat), LockError>)
    requires IsListing(order, records) && AreCollected(records) && IsHex64(fingerprint)
    ensures r.Ok? <==> && PinsAgree(direct, records) && AreAcceptable(Listed(order, records))
                       && forall name | name in direct :: IsName(name)
    ensures r.Ok? ==> r.value == (|direct|, |records|)
  {
    var lock := RenderLock(direct, records, order, fingerprint);
    if lock.Err? {
      return Err(lock.error);
    }
    CollectedAreWheels(records, order);
    ListingSize(order, records);
    OwnLock(direct, records, order, fingerprint);
    r := VerifyPythonLock(direct, fingerprint, lock.value);
  }

  lemma CollectedAreWheels(records: map<string, WheelRecord>, order: seq<string>)
    requires AreCollected(records) && forall i | 0 <= i < |order| :: order[i] in records
    ensures AreWheels(Listed(order, records)) && |Listed(order, records)| == |order|
  {
    ListedAt(order, records);
  }

  lemma OwnLock(direct: Versions, records: map<string, WheelRecord>, order: seq<string>, fingerprint: string)
    requires IsListing(order, records) && AreCollected(records) && IsHex64(fingerprint) && PinsAgree(direct, records)
    ensures var listed := Listed(order, records);
            var locked := Locked(SplitLines(Rendered(listed, fingerprint)));
            && (locked.Ok? && direct.Items <= locked.value.0.Items <==>
                  AreAcceptable(listed) && forall name | name in direct :: IsName(name))
            && (locked.Ok? ==> locked.value.1 == fingerprint && |locked.value.0| == |order|)
  {
    var listed := Listed(order, records);
    CollectedAreWheels(records, order);
    LockIsAccepted(listed, fingerprint);
    if AreAcceptable(listed) {
      CollectGrows(Readings(listed), map[]);
      PinsAreRead(direct, records, order);
      ReadNamesAreNames(listed, fingerprint);
    }
  }

  lemma ReadNamesAreNames(records: seq<WheelRecord>, fingerprint: string)
    ensures var locked := Locked(SplitLines(Rendered(records, fingerprint)));
            locked.Ok? ==> AreClean(locked.value.0)
  {
    ParsedIsClean(SplitLines(Rendered(records, fingerprint)), START);
  }

  lemma PinsAreRead(direct: Versions, records: map<string, WheelRecord>, order: seq<string>)
    requires IsListing(order, records) && AreCollected(records) && PinsAgree(direct, records)
    requires forall i | 0 <= i < |order| :: order[i] in records
    requires Collect(Readings(Listed(order, records)), map[]).Some?
    ensures (forall name | name in direct :: IsName(name)) ==> direct.Items <= Collect(Readings(Listed(order, records)), map[]).value.Items
    ensures direct.Items <= Collect(Readings(Listed(order, records)), map[]).value.Items ==>
              forall name | name in direct :: name in Collect(Readings(Listed(order, records)), map[]).value
  {
    var listed := Listed(order, records);
    var packages := Collect(Readings(listed), map[]).value;
    ListedAt(order, records);
    if forall name | name in direct :: IsName(name) {
      forall name | name in direct ensures name in packages && packages[name] == direct[name] {
        assert name in order;
        var i :| 0 <= i < |order| && order[i] == name;
        PackagesAreOrdinary(listed[i]);
        ReadingsAt(listed, i);
        CollectHas(Readings(listed), map[], i);
      }
    }
    if direct.Items <= packages.Items {
      forall name | name in direct ensures name in packages {
        assert (name, direct[name]) in direct.Items;
      }
    }
  }
}
