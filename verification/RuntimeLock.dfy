/** The runtime lock: the printer that refreshes it (tools/refresh_python_lock.py:144-175) and the parser
    that verifies it (tools/verify_python_lock.py:103-168). */
module RuntimeLock {
  import opened Collections
  import opened LockText

  datatype LockError = RepeatedFingerprint | RepeatedPolicy | DuplicatePackage | NoAdjacentHash | UnsupportedLine
                     | NoPolicy | NoPackages | NoFingerprint | MissingDirect | MismatchedDirect | StaleFingerprint

  type Versions = map<string, string>

  const FINGERPRINT := "# direct-dependencies-sha256: "
  const BINARY_ONLY := "--only-binary=:all:"
  const HASH := "--hash=sha256:"

  // ---------------------------------------------------------------- one line

  datatype Line = Blank | Fingerprint(digest: string) | Comment | BinaryOnly | Entry(name: string, version: string)
                | Unsupported

  predicate IsFingerprint(line: string) {
    FINGERPRINT <= line && IsHex64(line[|FINGERPRINT|..])
  }

  predicate IsHash(line: string) {
    HASH <= line && IsHex64(line[|HASH|..])
  }

  /** `[^\s\\]+` */
  predicate IsVersion(version: string) {
    version != "" && forall i | 0 <= i < |version| :: !IsSpace(version[i]) && version[i] != '\\'
  }

  function NameLength(s: string): (n: nat)
    ensures n <= |s|
    ensures forall i | 0 <= i < n :: s[i] != '='
    ensures n < |s| ==> s[n] == '='
  {
    if s == "" || s[0] == '=' then 0 else 1 + NameLength(s[1..])
  }

  function VersionLength(s: string): (n: nat)
    ensures n <= |s|
    ensures forall i | 0 <= i < n :: !IsSpace(s[i]) && s[i] != '\\'
    ensures n < |s| ==> IsSpace(s[n]) || s[n] == '\\'
  {
    if s == "" || IsSpace(s[0]) || s[0] == '\\' then 0 else 1 + VersionLength(s[1..])
  }

  /** `\s+\\` */
  predicate IsContinuation(s: string) {
    && |s| >= 2 && s[|s| - 1] == '\\'
    && forall i | 0 <= i < |s| - 1 :: IsSpace(s[i])
  }

  /** The name and the version of a package line, as its pattern groups them. */
  function EntryOf(line: string): Option<(string, string)> {
    var n := NameLength(line);
    if !IsName(line[..n]) || n + 1 >= |line| || line[n + 1] != '=' then None
    else
      var rest := line[n + 2..];
      var v := VersionLength(rest);
      if v == 0 || !IsContinuation(rest[v..]) then None else Some((line[..n], rest[..v]))
  }

  function KindOf(line: string): Line {
    if line == "" then Blank
    else if IsFingerprint(line) then Fingerprint(line[|FINGERPRINT|..])
    else if line[0] == '#' then Comment
    else if line == BINARY_ONLY then BinaryOnly
    else match EntryOf(line)
      case Some(entry) => Entry(Canonical(entry.0), entry.1)
      case None => Unsupported
  }

  // ---------------------------------------------------------------- the parser

  datatype Progress = Progress(packages: Versions, binaryOnly: bool, fingerprint: Option<string>)

  const START := Progress(map[], false, None)

  /** Reads the lines one after the other. */
  function Parse(lines: seq<string>, p: Progress): Result<Progress, LockError>
    decreases |lines|
  {
    if lines == [] then Ok(p)
    else match KindOf(Strip(lines[0]))
      case Blank => Parse(lines[1..], p)
      case Fingerprint(digest) =>
        if p.fingerprint.Some? then Err(RepeatedFingerprint) else Parse(lines[1..], p.(fingerprint := Some(digest)))
      case Comment => Parse(lines[1..], p)
      case BinaryOnly =>
        if p.binaryOnly then Err(RepeatedPolicy) else Parse(lines[1..], p.(binaryOnly := true))
      case Entry(name, version) =>
        if name in p.packages then Err(DuplicatePackage)
        else if |lines| < 2 || !IsHash(Strip(lines[1])) then Err(NoAdjacentHash)
        else Parse(lines[2..], p.(packages := p.packages[name := version]))
      case Unsupported => Err(UnsupportedLine)
  }

  function Locked(lines: seq<string>): Result<(Versions, string), LockError> {
    match Parse(lines, START)
    case Err(error) => Err(error)
    case Ok(p) =>
      if !p.binaryOnly then Err(NoPolicy)
      else if p.packages == map[] then Err(NoPackages)
      else match p.fingerprint
        case None => Err(NoFingerprint)
        case Some(digest) => Ok((p.packages, digest))
  }

  /** `locked_requirements`. */
  method LockedRequirements(text: string) returns (r: Result<(Versions, string), LockError>)
    ensures r == Locked(SplitLines(text))
  {
    var lines := SplitLines(text);
    var p := START;
    var index := 0;
    while index < |lines|
      invariant index <= |lines|
      invariant Parse(lines, START) == Parse(lines[index..], p)
    {
      var left := lines[index..];
      assert left[1..] == lines[index + 1..];
      var line := KindOf(Strip(lines[index]));
      index := index + 1;
      match line {
        case Blank =>
        case Comment =>
        case Fingerprint(digest) =>
          if p.fingerprint.Some? {
            return Err(RepeatedFingerprint);
          }
          p := p.(fingerprint := Some(digest));
        case BinaryOnly =>
          if p.binaryOnly {
            return Err(RepeatedPolicy);
          }
          p := p.(binaryOnly := true);
        case Entry(name, version) =>
          if name in p.packages {
            return Err(DuplicatePackage);
          }
          if index >= |lines| || !IsHash(Strip(lines[index])) {
            return Err(NoAdjacentHash);
          }
          assert left[2..] == lines[index + 1..];
          p := p.(packages := p.packages[name := version]);
          index := index + 1;
        case Unsupported =>
          return Err(UnsupportedLine);
      }
    }
    assert lines[index..] == [];
    if !p.binaryOnly {
      return Err(NoPolicy);
    }
    if p.packages == map[] {
      return Err(NoPackages);
    }
    if p.fingerprint.None? {
      return Err(NoFingerprint);
    }
    r := Ok((p.packages, p.fingerprint.value));
  }

  /** `verify_python_lock`, given the direct dependencies and their fingerprint. */
  method VerifyPythonLock(project: Versions, fingerprint: string, text: string) returns (r: Result<(nat, nat), LockError>)
    ensures r.Ok? <==>
              && Locked(SplitLines(text)).Ok?
              && project.Items <= Locked(SplitLines(text)).value.0.Items
              && fingerprint == Locked(SplitLines(text)).value.1
    ensures r.Ok? ==> r.value == (|project|, |Locked(SplitLines(text)).value.0|)
  {
    var locked := LockedRequirements(text);
    if locked.Err? {
      return Err(locked.error);
    }
    var (packages, digest) := locked.value;
    assert project.Items <= packages.Items ==> forall item | item in project.Items :: item in packages.Items;
    if !(project.Keys <= packages.Keys) {
      var name :| name in project.Keys && name !in packages.Keys;
      assert (name, project[name]) in project.Items;
      return Err(MissingDirect);
    }
    if exists name | name in project.Keys :: packages[name] != project[name] {
      var name :| name in project.Keys && packages[name] != project[name];
      assert (name, project[name]) in project.Items;
      return Err(MismatchedDirect);
    }
    assert project.Items <= packages.Items;
    if digest != fingerprint {
      return Err(StaleFingerprint);
    }
    r := Ok((|project|, |packages|));
  }

  // ---------------------------------------------------------------- the printer

  datatype WheelRecord = WheelRecord(name: string, version: string, sha256: string)

  function EntryLine(record: WheelRecord): string { record.name + "==" + record.version + " \\" }

  function HashLine(record: WheelRecord): string { "    " + HASH + record.sha256 }

  function Entries(records: seq<WheelRecord>): seq<string> {
    if records == [] then [] else [EntryLine(records[0]), HashLine(records[0])] + Entries(records[1..])
  }

  const GENERATED := "# Runtime lock " + ("generated by " + "tools/refresh_python_lock.py.")
  const TARGET := "# Fixed target: " + ("Playwright Python 3.12" + " / linux-amd64.")
  const SELECTED := "# Every entry is " + (("the wheel selected" + " inside the pinned") + " production image.")

  function Header(fingerprint: string): seq<string> {
    [GENERATED,
     TARGET,
     SELECTED,
     FINGERPRINT + fingerprint,
     BINARY_ONLY,
     ""]
  }

  function LockLines(records: seq<WheelRecord>, fingerprint: string): seq<string> {
    Header(fingerprint) + Entries(records)
  }

  /** The packages of a lock and their versions. */
  function VersionsOf(records: seq<WheelRecord>, before: Versions): Versions {
    if records == [] then before else VersionsOf(records[1..], before[records[0].name := records[0].version])
  }

  /** `order` lists the keys of `records`, each once: what `sorted` returns does. */
  ghost predicate IsListing(order: seq<string>, records: map<string, WheelRecord>) {
    && (forall name :: name in order <==> name in records)
    && (forall i, j | 0 <= i < j < |order| :: order[i] != order[j])
  }

  function Listed(order: seq<string>, records: map<string, WheelRecord>): seq<WheelRecord>
    requires forall i | 0 <= i < |order| :: order[i] in records
  {
    if order == [] then [] else [records[order[0]]] + Listed(order[1..], records)
  }

  predicate PinsAgree(direct: Versions, records: map<string, WheelRecord>) {
    forall name | name in direct :: name in records && records[name].version == direct[name]
  }

  lemma RenderOneMore(lines: seq<string>, order: seq<string>, i: nat, records: map<string, WheelRecord>, all: seq<string>)
    requires i < |order| && forall j | 0 <= j < |order| :: order[j] in records
    requires lines + Entries(Listed(order[i..], records)) == all
    ensures var record := records[order[i]];
            lines + [EntryLine(record), HashLine(record)] + Entries(Listed(order[i + 1..], records)) == all
  {
    var record, rest := records[order[i]], Listed(order[i + 1..], records);
    assert order[i..][1..] == order[i + 1..];
    assert Listed(order[i..], records) == [record] + rest;
    EntriesOfCons(record, rest);
  }

  lemma EntriesOfCons(record: WheelRecord, rest: seq<WheelRecord>)
    ensures Entries([record] + rest) == [EntryLine(record), HashLine(record)] + Entries(rest)
  {
    assert ([record] + rest)[1..] == rest;
  }

  /** The loop of `_render_lock`. */
  method AppendEntries(header: seq<string>, records: map<string, WheelRecord>, order: seq<string>) returns (lines: seq<string>)
    requires forall i | 0 <= i < |order| :: order[i] in records
    ensures lines == header + Entries(Listed(order, records))
  {
    lines := header;
    ghost var all := header + Entries(Listed(order, records));
    assert order[0..] == order;
    for i := 0 to |order|
      invariant lines + Entries(Listed(order[i..], records)) == all
    {
      var record := records[order[i]];
      RenderOneMore(lines, order, i, records, all);
      lines := lines + [EntryLine(record), HashLine(record)];
    }
    assert order[|order|..] == [];
    assert lines == all;
  }

  /** `_render_lock`: refuses exactly if a direct dependency is missing or pinned differently. */
  method RenderLock(direct: Versions, records: map<string, WheelRecord>, order: seq<string>, fingerprint: string)
    returns (r: Result<string, LockError>)
    requires IsListing(order, records)
    ensures r.Ok? <==> PinsAgree(direct, records)
    ensures r.Ok? ==> r.value == Rendered(Listed(order, records), fingerprint)
  {
    if exists name | name in direct :: name !in records {
      return Err(MissingDirect);
    }
    if exists name | name in direct :: records[name].version != direct[name] {
      return Err(MismatchedDirect);
    }
    var lines := AppendEntries(Header(fingerprint), records, order);
    r := Ok(JoinLines(lines));
  }

  // ---------------------------------------------------------------- the round trip

  predicate IsPackage(record: WheelRecord) {
    IsName(record.name) && Canonical(record.name) == record.name && IsVersion(record.version)
  }

  lemma {:induction false} NameEndsAt(name: string, rest: string)
    requires IsName(name)
    ensures NameLength(name + "==" + rest) == |name|
  {
    var line := name + "==" + rest;
    assert forall i | 0 <= i < |name| :: line[i] == name[i];
    assert line[|name|] == '=';
  }

  lemma {:induction false} VersionEndsAt(version: string)
    requires IsVersion(version)
    ensures VersionLength(version + " \\") == |version|
  {
    var rest := version + " \\";
    assert forall i | 0 <= i < |version| :: rest[i] == version[i];
    assert rest[|version|] == ' ';
  }

  lemma EntryLineParts(record: WheelRecord)
    requires record.name != ""
    ensures var line, rest := EntryLine(record), record.version + " \\";
            var n := |record.name|;
            && line == record.name + "==" + rest && n + 2 <= |line|
            && line[..n] == record.name && line[n + 1] == '=' && line[n + 2..] == rest
  {
    var rest := record.version + " \\";
    assert EntryLine(record) == record.name + "==" + rest;
  }

  lemma VersionIsRead(version: string)
    requires IsVersion(version)
    ensures var rest := version + " \\";
            VersionLength(rest) == |version| && rest[..|version|] == version && IsContinuation(rest[|version|..])
  {
    VersionEndsAt(version);
    var rest := version + " \\";
    assert rest[|version|..] == " \\";
  }

  lemma EntryIsRead(record: WheelRecord)
    requires IsPackage(record)
    ensures EntryOf(EntryLine(record)) == Some((record.name, record.version))
  {
    EntryLineParts(record);
    NameEndsAt(record.name, record.version + " \\");
    VersionIsRead(record.version);
  }

  lemma EntryLineIsPlain(record: WheelRecord)
    requires IsPackage(record)
    ensures IsTrimmed(EntryLine(record)) && HasNoBreak(EntryLine(record))
    ensures IsAlphanumeric(EntryLine(record)[0])
  {
    var line := EntryLine(record);
    var n := |record.name|;
    forall i | 0 <= i < |line| ensures !IsBreak(line[i]) {
      if i < n {
        assert line[i] == record.name[i];
      } else if n + 2 <= i < n + 2 + |record.version| {
        assert line[i] == record.version[i - n - 2];
      }
    }
  }

  lemma EntryKind(record: WheelRecord)
    requires IsPackage(record)
    ensures KindOf(Strip(EntryLine(record))) == Entry(record.name, record.version)
  {
    EntryLineIsPlain(record);
    TrimmedStays(EntryLine(record));
    EntryIsRead(record);
    assert FINGERPRINT[0] == '#' && BINARY_ONLY[0] == '-';
  }

  lemma HashKind(record: WheelRecord)
    requires IsHex64(record.sha256)
    ensures IsHash(Strip(HashLine(record))) && HasNoBreak(HashLine(record))
  {
    var core := HASH + record.sha256;
    assert HashLine(record) == "    " + core;
    assert core[0] == '-' && core[|core| - 1] == record.sha256[63];
    StripIndent(core);
    assert core[|HASH|..] == record.sha256;
    assert forall i | 0 <= i < |HASH| :: !IsBreak(HASH[i]);
  }

  lemma StripIndent(core: string)
    requires IsTrimmed(core)
    ensures Strip("    " + core) == core
  {
    assert (" " + core)[1..] == core && StripLeft(" " + core) == core;
    assert ("  " + core)[1..] == " " + core && StripLeft("  " + core) == core;
    assert ("   " + core)[1..] == "  " + core && StripLeft("   " + core) == core;
    assert ("    " + core)[1..] == "   " + core && StripLeft("    " + core) == core;
  }

  lemma ParseEntry(entry: string, hash: string, name: string, version: string, rest: seq<string>, p: Progress)
    requires KindOf(Strip(entry)) == Entry(name, version) && IsHash(Strip(hash)) && name !in p.packages
    ensures Parse([entry, hash] + rest, p) == Parse(rest, p.(packages := p.packages[name := version]))
  {
    var lines := [entry, hash] + rest;
    assert lines[0] == entry && lines[1] == hash && lines[2..] == rest;
  }

  /** The package lines give exactly the packages. */
  lemma {:induction false} EntriesAreRead(records: seq<WheelRecord>, p: Progress)
    requires forall i | 0 <= i < |records| :: IsPackage(records[i]) && IsHex64(records[i].sha256)
    requires forall i | 0 <= i < |records| :: records[i].name !in p.packages
    requires forall i, j | 0 <= i < j < |records| :: records[i].name != records[j].name
    ensures Parse(Entries(records), p) == Ok(p.(packages := VersionsOf(records, p.packages)))
  {
    if records != [] {
      var record := records[0];
      EntryKind(record);
      HashKind(record);
      ParseEntry(EntryLine(record), HashLine(record), record.name, record.version, Entries(records[1..]), p);
      EntriesAreRead(records[1..], p.(packages := p.packages[record.name := record.version]));
    }
  }

  predicate IsComment(line: string) {
    IsTrimmed(line) && HasNoBreak(line) && line[0] == '#' && !IsFingerprint(line)
  }

  lemma NoBreakInBoth(a: string, b: string)
    requires HasNoBreak(a) && HasNoBreak(b)
    ensures HasNoBreak(a + b)
  {
  }

  lemma CommentParts(start: string, end: string)
    requires |start| > 2 && start[0] == '#' && start[2] != 'd' && HasNoBreak(start)
    requires |end| > 0 && !IsSpace(end[|end| - 1]) && HasNoBreak(end)
    ensures IsComment(start + end)
  {
    NoBreakInBoth(start, end);
    assert FINGERPRINT[2] == 'd' && (start + end)[2] == start[2];
  }

  lemma GeneratedIsComment()
    ensures IsComment(GENERATED)
  {
    NoBreakInBoth("generated by ", "tools/refresh_python_lock.py.");
    CommentParts("# Runtime lock ", "generated by " + "tools/refresh_python_lock.py.");
  }

  lemma TargetIsComment()
    ensures IsComment(TARGET)
  {
    NoBreakInBoth("Playwright Python 3.12", " / linux-amd64.");
    CommentParts("# Fixed target: ", "Playwright Python 3.12" + " / linux-amd64.");
  }

  lemma SelectedIsComment()
    ensures IsComment(SELECTED)
  {
    NoBreakInBoth("the wheel selected", " inside the pinned");
    NoBreakInBoth("the wheel selected" + " inside the pinned", " production image.");
    CommentParts("# Every entry is ", ("the wheel selected" + " inside the pinned") + " production image.");
  }

  lemma FingerprintIsRead(digest: string)
    requires IsHex64(digest)
    ensures KindOf(Strip(FINGERPRINT + digest)) == Fingerprint(digest) && HasNoBreak(FINGERPRINT + digest)
  {
    var line := FINGERPRINT + digest;
    assert line[0] == '#' && line[|line| - 1] == digest[63];
    TrimmedStays(line);
    assert line[|FINGERPRINT|..] == digest;
    assert forall i | 0 <= i < |FINGERPRINT| :: !IsBreak(FINGERPRINT[i]);
  }

  lemma PolicyIsRead()
    ensures KindOf(Strip(BINARY_ONLY)) == BinaryOnly && HasNoBreak(BINARY_ONLY)
  {
    assert BINARY_ONLY[0] == '-' && BINARY_ONLY[|BINARY_ONLY| - 1] == ':';
    TrimmedStays(BINARY_ONLY);
    assert FINGERPRINT[0] == '#';
  }

  lemma ParseComment(comment: string, rest: seq<string>, p: Progress)
    requires IsComment(comment)
    ensures Parse([comment] + rest, p) == Parse(rest, p)
  {
    TrimmedStays(comment);
    assert ([comment] + rest)[1..] == rest;
  }

  lemma ParseFingerprint(line: string, digest: string, rest: seq<string>, p: Progress)
    requires KindOf(Strip(line)) == Fingerprint(digest) && p.fingerprint.None?
    ensures Parse([line] + rest, p) == Parse(rest, p.(fingerprint := Some(digest)))
  {
    assert ([line] + rest)[1..] == rest;
  }

  lemma ParsePolicy(line: string, rest: seq<string>, p: Progress)
    requires KindOf(Strip(line)) == BinaryOnly && !p.binaryOnly
    ensures Parse([line] + rest, p) == Parse(rest, p.(binaryOnly := true))
  {
    assert ([line] + rest)[1..] == rest;
  }

  lemma ParseBlank(rest: seq<string>, p: Progress)
    ensures Parse([""] + rest, p) == Parse(rest, p)
  {
    assert ([""] + rest)[1..] == rest;
  }

  lemma HeaderParts(fingerprint: string, rest: seq<string>)
    ensures Header(fingerprint) + rest ==
            [GENERATED] + ([TARGET] + ([SELECTED] + ([FINGERPRINT + fingerprint] + ([BINARY_ONLY] + ([""] + rest)))))
  {
  }

  lemma HeaderIsRead(fingerprint: string, rest: seq<string>)
    requires IsHex64(fingerprint)
    ensures Parse(Header(fingerprint) + rest, START) == Parse(rest, Progress(map[], true, Some(fingerprint)))
  {
    GeneratedIsComment();
    TargetIsComment();
    SelectedIsComment();
    FingerprintIsRead(fingerprint);
    PolicyIsRead();
    HeaderParts(fingerprint, rest);
    var blank := [""] + rest;
    var policy := [BINARY_ONLY] + blank;
    var digest := [FINGERPRINT + fingerprint] + policy;
    ParseComment(GENERATED, [TARGET] + ([SELECTED] + digest), START);
    ParseComment(TARGET, [SELECTED] + digest, START);
    ParseComment(SELECTED, digest, START);
    ParseFingerprint(FINGERPRINT + fingerprint, fingerprint, policy, START);
    ParsePolicy(BINARY_ONLY, blank, Progress(map[], false, Some(fingerprint)));
    ParseBlank(rest, Progress(map[], true, Some(fingerprint)));
  }

  // ---------------------------------------------------------------- both directions

  /** What the parser returns is made of well-formed, normalized names and safe versions. */
  ghost predicate AreClean(packages: Versions) {
    forall name | name in packages :: IsName(name) && Canonical(name) == name && IsVersion(packages[name])
  }

  lemma EntryIsClean(line: string)
    requires EntryOf(line).Some?
    ensures var (name, version) := EntryOf(line).value;
            IsName(Canonical(name)) && Canonical(Canonical(name)) == Canonical(name) && IsVersion(version)
  {
    var name := EntryOf(line).value.0;
    CanonicalIsName(name);
    CanonicalTwice(name);
  }

  lemma KindIsClean(line: string)
    requires KindOf(line).Entry?
    ensures var entry := KindOf(line);
            IsName(entry.name) && Canonical(entry.name) == entry.name && IsVersion(entry.version)
  {
    EntryIsClean(line);
  }

  lemma AddedIsClean(packages: Versions, line: string)
    requires AreClean(packages) && KindOf(line).Entry?
    ensures AreClean(packages[KindOf(line).name := KindOf(line).version])
  {
    KindIsClean(line);
  }

  lemma {:induction false} ParsedIsClean(lines: seq<string>, p: Progress)
    requires AreClean(p.packages)
    ensures Parse(lines, p).Ok? ==> AreClean(Parse(lines, p).value.packages)
    decreases |lines|
  {
    if lines != [] {
      var line := KindOf(Strip(lines[0]));
      match line
      case Blank => ParsedIsClean(lines[1..], p);
      case Fingerprint(digest) => ParsedIsClean(lines[1..], p.(fingerprint := Some(digest)));
      case Comment => ParsedIsClean(lines[1..], p);
      case BinaryOnly => ParsedIsClean(lines[1..], p.(binaryOnly := true));
      case Entry(name, version) =>
        if |lines| >= 2 {
          AddedIsClean(p.packages, Strip(lines[0]));
          ParsedIsClean(lines[2..], p.(packages := p.packages[name := version]));
        }
      case Unsupported =>
    }
  }

  ghost predicate NamesDiffer(records: seq<WheelRecord>) {
    forall i, j | 0 <= i < j < |records| :: records[i].name != records[j].name
  }

  lemma {:induction false} VersionsOfHas(records: seq<WheelRecord>, before: Versions, i: nat)
    requires i < |records| && NamesDiffer(records)
    ensures records[i].name in VersionsOf(records, before)
    ensures VersionsOf(records, before)[records[i].name] == records[i].version
  {
    var first := before[records[0].name := records[0].version];
    if i == 0 {
      VersionsOfKeeps(records[1..], first, records[0].name);
    } else {
      VersionsOfHas(records[1..], first, i - 1);
    }
  }

  lemma {:induction false} VersionsOfKeeps(records: seq<WheelRecord>, before: Versions, name: string)
    requires name in before && forall i | 0 <= i < |records| :: records[i].name != name
    ensures name in VersionsOf(records, before) && VersionsOf(records, before)[name] == before[name]
  {
    if records != [] {
      VersionsOfKeeps(records[1..], before[records[0].name := records[0].version], name);
    }
  }

  lemma {:induction false} LockLinesHaveNoBreak(records: seq<WheelRecord>)
    requires forall i | 0 <= i < |records| :: IsPackage(records[i]) && IsHex64(records[i].sha256)
    ensures forall i | 0 <= i < |Entries(records)| :: HasNoBreak(Entries(records)[i])
  {
    if records != [] {
      EntryLineIsPlain(records[0]);
      HashKind(records[0]);
      LockLinesHaveNoBreak(records[1..]);
    }
  }

  lemma SixHaveNoBreak(a: string, b: string, c: string, d: string, e: string, f: string)
    requires HasNoBreak(a) && HasNoBreak(b) && HasNoBreak(c) && HasNoBreak(d) && HasNoBreak(e) && HasNoBreak(f)
    ensures forall i | 0 <= i < 6 :: HasNoBreak([a, b, c, d, e, f][i])
  {
  }

  lemma HeaderHasNoBreak(fingerprint: string)
    requires IsHex64(fingerprint)
    ensures forall i | 0 <= i < |Header(fingerprint)| :: HasNoBreak(Header(fingerprint)[i])
  {
    GeneratedIsComment();
    TargetIsComment();
    SelectedIsComment();
    FingerprintIsRead(fingerprint);
    PolicyIsRead();
    SixHaveNoBreak(GENERATED, TARGET, SELECTED, FINGERPRINT + fingerprint, BINARY_ONLY, "");
  }

  lemma LockIsSplit(records: seq<WheelRecord>, fingerprint: string)
    requires IsHex64(fingerprint)
    requires forall i | 0 <= i < |records| :: IsPackage(records[i]) && IsHex64(records[i].sha256)
    ensures SplitLines(JoinLines(LockLines(records, fingerprint))) == LockLines(records, fingerprint)
  {
    HeaderHasNoBreak(fingerprint);
    LockLinesHaveNoBreak(records);
    SplitJoin(Header(fingerprint) + Entries(records));
  }

  lemma LockedIs(lines: seq<string>, packages: Versions, fingerprint: string)
    requires Parse(lines, START) == Ok(Progress(packages, true, Some(fingerprint))) && packages != map[]
    ensures Locked(lines) == Ok((packages, fingerprint))
  {
  }

  ghost predicate ArePackages(records: seq<WheelRecord>) {
    forall i | 0 <= i < |records| :: IsPackage(records[i])
  }

  ghost predicate AreHashed(records: seq<WheelRecord>) {
    forall i | 0 <= i < |records| :: IsHex64(records[i].sha256)
  }

  lemma PackagesAreReadBack(records: seq<WheelRecord>, fingerprint: string)
    requires IsHex64(fingerprint) && NamesDiffer(records) && AreHashed(records)
    requires records != [] && ArePackages(records)
    ensures Locked(LockLines(records, fingerprint)) == Ok((VersionsOf(records, map[]), fingerprint))
  {
    HeaderIsRead(fingerprint, Entries(records));
    EntriesAreRead(records, Progress(map[], true, Some(fingerprint)));
    VersionsOfHas(records, map[], 0);
    LockedIs(LockLines(records, fingerprint), VersionsOf(records, map[]), fingerprint);
  }

  lemma ReadBackArePackages(lines: seq<string>, records: seq<WheelRecord>, fingerprint: string)
    requires Locked(lines) == Ok((VersionsOf(records, map[]), fingerprint)) && NamesDiffer(records)
    ensures records != [] && ArePackages(records)
  {
    ParsedIsClean(lines, START);
    forall i | 0 <= i < |records| ensures IsPackage(records[i]) {
      VersionsOfHas(records, map[], i);
    }
  }

  function Rendered(records: seq<WheelRecord>, fingerprint: string): string {
    JoinLines(LockLines(records, fingerprint))
  }

  /** A rendered lock parses back to exactly its packages and fingerprint if, and only if, it has packages
      and each of them has a well-formed normalized name and a safe version. */
  lemma RoundTrip(records: seq<WheelRecord>, fingerprint: string)
    requires IsHex64(fingerprint) && NamesDiffer(records) && AreHashed(records)
    ensures Locked(SplitLines(Rendered(records, fingerprint))) == Ok((VersionsOf(records, map[]), fingerprint))
            <==> records != [] && ArePackages(records)
  {
    if records != [] && ArePackages(records) {
      LockIsSplit(records, fingerprint);
      PackagesAreReadBack(records, fingerprint);
    } else if Locked(SplitLines(Rendered(records, fingerprint))) == Ok((VersionsOf(records, map[]), fingerprint)) {
      ReadBackArePackages(SplitLines(Rendered(records, fingerprint)), records, fingerprint);
    }
  }
}
