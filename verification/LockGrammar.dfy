/** What a runtime lock is, line by line and without a parser, and that the parser accepts exactly the texts that
    are one (tools/verify_python_lock.py:13-38, 103-168). */
module LockGrammar {
  import opened Collections
  import opened LockText
  import opened RuntimeLock
  import LockAcceptance

  // ---------------------------------------------------------------- one line

  predicate IsDigest(digest: string) {
    |digest| == 64 && forall i | 0 <= i < 64 :: '0' <= digest[i] <= '9' || 'a' <= digest[i] <= 'f'
  }

  predicate SaysPolicy(line: string) {
    line == "--only-binary=:all:"
  }

  predicate SaysFingerprint(line: string, digest: string) {
    IsDigest(digest) && line == "# direct-dependencies-sha256: " + digest
  }

  ghost predicate SaysHash(line: string) {
    exists digest :: IsDigest(digest) && line == "--hash=sha256:" + digest
  }

  predicate IsPackageName(name: string) {
    && name != "" && name[0] !in {'.', '_', '-'}
    && forall i | 0 <= i < |name| ::
         'a' <= name[i] <= 'z' || 'A' <= name[i] <= 'Z' || '0' <= name[i] <= '9' || name[i] in {'.', '_', '-'}
  }

  predicate IsGap(gap: string) {
    gap != "" && forall i | 0 <= i < |gap| :: IsSpace(gap[i])
  }

  predicate IsPlainVersion(version: string) {
    version != "" && forall i | 0 <= i < |version| :: !IsSpace(version[i]) && version[i] != '\\'
  }

  predicate IsEntryWith(line: string, name: string, version: string, gap: string) {
    IsPackageName(name) && IsPlainVersion(version) && IsGap(gap) && line == name + "==" + version + gap + "\\"
  }

  /** A name and a version with two equality signs between them, white space, and a backslash. */
  ghost predicate SaysPackage(line: string, name: string, version: string) {
    exists gap :: IsEntryWith(line, name, version, gap)
  }

  // ---------------------------------------------------------------- reading one line

  lemma HashExactly(line: string)
    ensures IsHash(line) <==> SaysHash(line)
  {
    if IsHash(line) {
      assert line == HASH + line[|HASH|..];
    }
    if digest :| IsDigest(digest) && line == HASH + digest {
      assert line[|HASH|..] == digest;
    }
  }

  lemma FingerprintExactly(line: string, digest: string)
    ensures IsFingerprint(line) && line[|FINGERPRINT|..] == digest <==> SaysFingerprint(line, digest)
  {
    if IsFingerprint(line) {
      assert line == FINGERPRINT + line[|FINGERPRINT|..];
    }
    if SaysFingerprint(line, digest) {
      assert line[|FINGERPRINT|..] == digest;
    }
  }

  lemma NameExactly(name: string)
    ensures IsPackageName(name) <==> IsName(name)
  {
  }

  lemma EntryIsSaid(line: string)
    requires EntryOf(line).Some?
    ensures SaysPackage(line, EntryOf(line).value.0, EntryOf(line).value.1)
  {
    var n := NameLength(line);
    var name, rest := line[..n], line[n + 2..];
    NameExactly(name);
    var version, gap := RestIsSaid(rest);
    Halves(line, n);
    Regroup(name, version, gap);
    assert IsEntryWith(line, name, version, gap);
  }

  lemma Halves(line: string, n: nat)
    requires n + 1 < |line| && line[n] == '=' && line[n + 1] == '='
    ensures line == line[..n] + ("==" + line[n + 2..])
  {
  }

  lemma Regroup(name: string, version: string, gap: string)
    ensures name + ("==" + (version + (gap + "\\"))) == name + "==" + version + gap + "\\"
    ensures ("==" + (version + (gap + "\\")))[2..] == version + (gap + "\\")
  {
  }

  lemma RestIsSaid(rest: string) returns (version: string, gap: string)
    requires VersionLength(rest) > 0 && IsContinuation(rest[VersionLength(rest)..])
    ensures version == rest[..VersionLength(rest)] && IsPlainVersion(version) && IsGap(gap) && rest == version + (gap + "\\")
  {
    var v := VersionLength(rest);
    version, gap := rest[..v], rest[v..|rest| - 1];
    assert rest[v..] == gap + "\\";
  }

  lemma VersionIsRead(version: string, gap: string)
    requires IsPlainVersion(version) && IsGap(gap)
    ensures var s := version + (gap + "\\");
            VersionLength(s) == |version| && s[..|version|] == version && s[|version|..] == gap + "\\"
  {
    var s := version + (gap + "\\");
    assert forall i | 0 <= i < |version| :: s[i] == version[i];
    assert s[|version|] == gap[0];
  }

  lemma GapContinues(gap: string)
    requires IsGap(gap)
    ensures IsContinuation(gap + "\\")
  {
  }

  lemma SaidIsEntry(line: string, name: string, version: string, gap: string)
    requires IsEntryWith(line, name, version, gap)
    ensures EntryOf(line) == Some((name, version))
  {
    NameExactly(name);
    Regroup(name, version, gap);
    LockAcceptance.EntryOfHalves(name, "==" + (version + (gap + "\\")));
    VersionIsRead(version, gap);
    GapContinues(gap);
  }

  lemma EntryExactly(line: string, name: string, version: string)
    ensures EntryOf(line) == Some((name, version)) <==> SaysPackage(line, name, version)
  {
    if EntryOf(line).Some? {
      EntryIsSaid(line);
    }
    if gap :| IsEntryWith(line, name, version, gap) {
      SaidIsEntry(line, name, version, gap);
    }
  }

  // ---------------------------------------------------------------- what has been read

  /** What a line is on its own, and whether it is a hash. */
  datatype Mark = Mark(kind: Line, isHash: bool)

  function MarkOf(line: string): (m: Mark) {
    Mark(KindOf(Strip(line)), IsHash(Strip(line)))
  }

  function MarksOf(lines: seq<string>): (marks: seq<Mark>)
    ensures |marks| == |lines| && forall i | 0 <= i < |marks| :: marks[i] == MarkOf(lines[i])
  {
    seq(|lines|, i requires 0 <= i < |lines| => MarkOf(lines[i]))
  }

  lemma HashIsNoEntry(line: string)
    ensures MarkOf(line).isHash ==> MarkOf(line).kind.Unsupported?
  {
    var core := Strip(line);
    if IsHash(core) {
      assert core[0] == HASH[0] && core[2] == HASH[2];
      LockAcceptance.HashIsUnsupported(core);
    }
  }

  /** The line is one of its own, or one of the two lines of a package. */
  predicate FitsAt(marks: seq<Mark>, i: nat)
    requires i < |marks|
  {
    match marks[i].kind
    case Entry(_, _) => i + 1 < |marks| && marks[i + 1].isHash
    case Unsupported => marks[i].isHash && i > 0 && marks[i - 1].kind.Entry?
    case _ => true
  }

  predicate SameRole(a: Line, b: Line) {
    (a.BinaryOnly? && b.BinaryOnly?) || (a.Fingerprint? && b.Fingerprint?) || (a.Entry? && b.Entry? && a.name == b.name)
  }

  predicate AreTwice(marks: seq<Mark>, i: nat, j: nat)
    requires i < |marks| && j < |marks|
  {
    SameRole(marks[i].kind, marks[j].kind)
  }

  /** The first `n` lines fit, and no policy, fingerprint or package is repeated among them. */
  predicate AreInOrder(marks: seq<Mark>, n: nat)
    requires n <= |marks|
  {
    && (forall i | 0 <= i < n :: FitsAt(marks, i))
    && (forall i, j | 0 <= i < j < n :: !AreTwice(marks, i, j))
  }

  predicate IsPolicyAt(marks: seq<Mark>, i: nat)
    requires i < |marks|
  {
    marks[i].kind.BinaryOnly?
  }

  predicate IsFingerprintAt(marks: seq<Mark>, i: nat, digest: string)
    requires i < |marks|
  {
    marks[i].kind == Fingerprint(digest)
  }

  predicate IsPackageAt(marks: seq<Mark>, i: nat, name: string, version: string)
    requires i < |marks|
  {
    marks[i].kind == Entry(name, version)
  }

  predicate HasFingerprint(p: Progress, digest: string) {
    p.fingerprint == Some(digest)
  }

  predicate HasVersion(p: Progress, name: string, version: string) {
    name in p.packages && p.packages[name] == version
  }

  /** What the first `n` lines say. */
  ghost predicate IsProgress(marks: seq<Mark>, n: nat, p: Progress)
    requires n <= |marks|
  {
    && (p.binaryOnly <==> exists i :: 0 <= i < n && IsPolicyAt(marks, i))
    && (forall digest :: HasFingerprint(p, digest) <==> exists i :: 0 <= i < n && IsFingerprintAt(marks, i, digest))
    && (forall name, version :: HasVersion(p, name, version) <==>
          exists i :: 0 <= i < n && IsPackageAt(marks, i, name, version))
  }

  /** The parser has read the first `n` lines. */
  ghost predicate HasRead(marks: seq<Mark>, n: nat, p: Progress) {
    n <= |marks| && AreInOrder(marks, n) && IsProgress(marks, n, p) && (n > 0 ==> !marks[n - 1].kind.Entry?)
  }

  /** What a line adds. */
  function Added(p: Progress, line: Line): Progress {
    match line
    case Fingerprint(digest) => p.(fingerprint := Some(digest))
    case BinaryOnly => p.(binaryOnly := true)
    case Entry(name, version) => p.(packages := p.packages[name := version])
    case _ => p
  }

  predicate IsRepeated(p: Progress, line: Line) {
    (line.BinaryOnly? && p.binaryOnly) || (line.Fingerprint? && p.fingerprint.Some?) || (line.Entry? && line.name in p.packages)
  }

  lemma RepeatedExactly(marks: seq<Mark>, n: nat, p: Progress)
    requires n < |marks| && IsProgress(marks, n, p)
    ensures IsRepeated(p, marks[n].kind) <==> exists i :: 0 <= i < n && AreTwice(marks, i, n)
  {
    var line := marks[n].kind;
    if line.BinaryOnly? && p.binaryOnly {
      var i :| 0 <= i < n && IsPolicyAt(marks, i);
      assert AreTwice(marks, i, n);
    }
    if line.Fingerprint? && p.fingerprint.Some? {
      assert HasFingerprint(p, p.fingerprint.value);
      var i :| 0 <= i < n && IsFingerprintAt(marks, i, p.fingerprint.value);
      assert AreTwice(marks, i, n);
    }
    if line.Entry? && line.name in p.packages {
      assert HasVersion(p, line.name, p.packages[line.name]);
      var i :| 0 <= i < n && IsPackageAt(marks, i, line.name, p.packages[line.name]);
      assert AreTwice(marks, i, n);
    }
    if i :| 0 <= i < n && AreTwice(marks, i, n) {
      var other := marks[i].kind;
      assert other.BinaryOnly? ==> IsPolicyAt(marks, i);
      assert other.Fingerprint? ==> IsFingerprintAt(marks, i, other.digest) && HasFingerprint(p, other.digest);
      assert other.Entry? ==> IsPackageAt(marks, i, other.name, other.version) && HasVersion(p, other.name, other.version);
    }
  }

  lemma OrderGoesOn(marks: seq<Mark>, n: nat)
    requires n < |marks| && AreInOrder(marks, n) && FitsAt(marks, n) && forall i | 0 <= i < n :: !AreTwice(marks, i, n)
    ensures AreInOrder(marks, n + 1)
  {
  }

  lemma PolicyGoesOn(marks: seq<Mark>, n: nat)
    requires n < |marks|
    ensures (exists i :: 0 <= i < n + 1 && IsPolicyAt(marks, i)) <==>
            (exists i :: 0 <= i < n && IsPolicyAt(marks, i)) || marks[n].kind.BinaryOnly?
  {
    assert marks[n].kind.BinaryOnly? ==> IsPolicyAt(marks, n);
  }

  lemma FingerprintGoesOn(marks: seq<Mark>, n: nat, digest: string)
    requires n < |marks|
    ensures (exists i :: 0 <= i < n + 1 && IsFingerprintAt(marks, i, digest)) <==>
            (exists i :: 0 <= i < n && IsFingerprintAt(marks, i, digest)) || marks[n].kind == Fingerprint(digest)
  {
    assert marks[n].kind == Fingerprint(digest) ==> IsFingerprintAt(marks, n, digest);
  }

  lemma PackageGoesOn(marks: seq<Mark>, n: nat, name: string, version: string)
    requires n < |marks|
    ensures (exists i :: 0 <= i < n + 1 && IsPackageAt(marks, i, name, version)) <==>
            (exists i :: 0 <= i < n && IsPackageAt(marks, i, name, version)) || marks[n].kind == Entry(name, version)
  {
    assert marks[n].kind == Entry(name, version) ==> IsPackageAt(marks, n, name, version);
  }

  lemma ProgressGoesOn(marks: seq<Mark>, n: nat, p: Progress)
    requires n < |marks| && IsProgress(marks, n, p) && !IsRepeated(p, marks[n].kind)
    ensures IsProgress(marks, n + 1, Added(p, marks[n].kind))
  {
    PolicyGoesOn(marks, n);
    forall digest
      ensures HasFingerprint(Added(p, marks[n].kind), digest) <==>
              exists i :: 0 <= i < n + 1 && IsFingerprintAt(marks, i, digest)
    {
      FingerprintGoesOn(marks, n, digest);
      assert HasFingerprint(p, digest) <==> exists i :: 0 <= i < n && IsFingerprintAt(marks, i, digest);
    }
    forall name, version
      ensures HasVersion(Added(p, marks[n].kind), name, version) <==>
              exists i :: 0 <= i < n + 1 && IsPackageAt(marks, i, name, version)
    {
      PackageGoesOn(marks, n, name, version);
      assert HasVersion(p, name, version) <==> exists i :: 0 <= i < n && IsPackageAt(marks, i, name, version);
    }
  }

  lemma ReadOneMore(marks: seq<Mark>, n: nat, p: Progress)
    requires n < |marks| && AreInOrder(marks, n) && IsProgress(marks, n, p) && !IsRepeated(p, marks[n].kind) && FitsAt(marks, n)
    ensures AreInOrder(marks, n + 1) && IsProgress(marks, n + 1, Added(p, marks[n].kind))
  {
    RepeatedExactly(marks, n, p);
    OrderGoesOn(marks, n);
    ProgressGoesOn(marks, n, p);
  }

  lemma OneMoreLine(marks: seq<Mark>, n: nat, p: Progress)
    requires n < |marks| && HasRead(marks, n, p) && !IsRepeated(p, marks[n].kind)
    requires !marks[n].kind.Entry? && !marks[n].kind.Unsupported?
    ensures HasRead(marks, n + 1, Added(p, marks[n].kind))
  {
    ReadOneMore(marks, n, p);
  }

  lemma OneMorePackage(marks: seq<Mark>, n: nat, p: Progress)
    requires n + 1 < |marks| && HasRead(marks, n, p) && !IsRepeated(p, marks[n].kind)
    requires marks[n].kind.Entry? && marks[n + 1] == Mark(Unsupported, true)
    ensures HasRead(marks, n + 2, Added(p, marks[n].kind))
  {
    ReadOneMore(marks, n, p);
    ReadOneMore(marks, n + 1, Added(p, marks[n].kind));
  }

  /** The parser stops here. */
  predicate IsStop(marks: seq<Mark>, n: nat, p: Progress)
    requires n < |marks|
  {
    || IsRepeated(p, marks[n].kind) || marks[n].kind.Unsupported?
    || (marks[n].kind.Entry? && (n + 1 >= |marks| || !marks[n + 1].isHash))
  }

  lemma StopsForAReason(marks: seq<Mark>, n: nat, p: Progress)
    requires n < |marks| && HasRead(marks, n, p) && IsStop(marks, n, p)
    ensures !AreInOrder(marks, |marks|)
  {
    if IsRepeated(p, marks[n].kind) {
      RepeatedExactly(marks, n, p);
    } else {
      assert !FitsAt(marks, n);
    }
  }

  lemma ParseOneLine(lines: seq<string>, marks: seq<Mark>, n: nat, p: Progress)
    requires marks == MarksOf(lines) && n < |lines|
    ensures IsStop(marks, n, p) ==> Parse(lines[n..], p).Err?
    ensures !IsStop(marks, n, p) && !marks[n].kind.Entry? ==>
              Parse(lines[n..], p) == Parse(lines[n + 1..], Added(p, marks[n].kind))
    ensures !IsStop(marks, n, p) && marks[n].kind.Entry? ==>
              n + 2 <= |lines| && Parse(lines[n..], p) == Parse(lines[n + 2..], Added(p, marks[n].kind))
  {
    var left := lines[n..];
    assert left[1..] == lines[n + 1..];
    if n + 1 < |lines| {
      assert left[2..] == lines[n + 2..] && left[1] == lines[n + 1];
    }
    ParseFirst(left, p, marks[n].kind, n + 1 < |lines| && marks[n + 1].isHash);
  }

  lemma ParseFirst(left: seq<string>, p: Progress, line: Line, hashed: bool)
    requires left != [] && line == KindOf(Strip(left[0])) && (hashed <==> |left| >= 2 && IsHash(Strip(left[1])))
    ensures IsRepeated(p, line) || line.Unsupported? || (line.Entry? && !hashed) ==> Parse(left, p).Err?
    ensures !IsRepeated(p, line) && !line.Unsupported? && !line.Entry? ==> Parse(left, p) == Parse(left[1..], Added(p, line))
    ensures !IsRepeated(p, line) && line.Entry? && hashed ==> Parse(left, p) == Parse(left[2..], Added(p, line))
  {
  }

  /** From any point on, the parser succeeds exactly if all lines are in order, and then it has read them. */
  lemma {:induction false} ParseReadsOn(lines: seq<string>, marks: seq<Mark>, n: nat, p: Progress)
    requires marks == MarksOf(lines) && n <= |lines| && HasRead(marks, n, p)
    ensures var r := Parse(lines[n..], p);
            (r.Ok? <==> AreInOrder(marks, |marks|)) && (r.Ok? ==> IsProgress(marks, |marks|, r.value))
    decreases |lines| - n
  {
    if n < |lines| {
      ParseOneLine(lines, marks, n, p);
      if IsStop(marks, n, p) {
        StopsForAReason(marks, n, p);
      } else if marks[n].kind.Entry? {
        HashIsNoEntry(lines[n + 1]);
        OneMorePackage(marks, n, p);
        ParseReadsOn(lines, marks, n + 2, Added(p, marks[n].kind));
      } else {
        OneMoreLine(marks, n, p);
        ParseReadsOn(lines, marks, n + 1, Added(p, marks[n].kind));
      }
    }
  }

  lemma ParseExactly(lines: seq<string>)
    ensures var r, marks := Parse(lines, START), MarksOf(lines);
            (r.Ok? <==> AreInOrder(marks, |marks|)) && (r.Ok? ==> IsProgress(marks, |marks|, r.value))
  {
    assert lines[0..] == lines;
    ParseReadsOn(lines, MarksOf(lines), 0, START);
  }

  // ---------------------------------------------------------------- what a lock is

  function Trimmed(lines: seq<string>): (r: seq<string>)
    ensures |r| == |lines| && forall i | 0 <= i < |r| :: r[i] == Strip(lines[i])
  {
    seq(|lines|, i requires 0 <= i < |lines| => Strip(lines[i]))
  }

  ghost predicate IsPackageLine(line: string) {
    exists name, version :: SaysPackage(line, name, version)
  }

  /** The line says that the package with this normalized name has this version. */
  ghost predicate Pins(line: string, name: string, version: string) {
    exists raw :: SaysPackage(line, raw, version) && Canonical(raw) == name
  }

  predicate IsComment(line: string) {
    line != "" && line[0] == '#'
  }

  /** The line is blank, a comment or the policy; or it names a package and a hash comes next; or it is that hash. */
  ghost predicate IsInPlace(lines: seq<string>, i: nat)
    requires i < |lines|
  {
    || lines[i] == "" || IsComment(lines[i]) || SaysPolicy(lines[i])
    || (IsPackageLine(lines[i]) && i + 1 < |lines| && SaysHash(lines[i + 1]))
    || (SaysHash(lines[i]) && i > 0 && IsPackageLine(lines[i - 1]))
  }

  ghost predicate BothFingerprints(a: string, b: string) {
    (exists digest :: SaysFingerprint(a, digest)) && (exists digest :: SaysFingerprint(b, digest))
  }

  ghost predicate BothPin(a: string, b: string) {
    exists name, version, other :: Pins(a, name, version) && Pins(b, name, other)
  }

  /** Two policies, two fingerprints, or the same package twice. */
  ghost predicate AreRepeated(a: string, b: string) {
    (SaysPolicy(a) && SaysPolicy(b)) || BothFingerprints(a, b) || BothPin(a, b)
  }

  /** All lines are in place, and none repeats another. */
  ghost predicate AreOrdered(lines: seq<string>) {
    && (forall i | 0 <= i < |lines| :: IsInPlace(lines, i))
    && (forall i, j | 0 <= i < j < |lines| :: !AreRepeated(lines[i], lines[j]))
  }

  /** There is a policy, a fingerprint and at least one package as well. */
  ghost predicate IsLock(lines: seq<string>) {
    && AreOrdered(lines)
    && (exists i :: 0 <= i < |lines| && SaysPolicy(lines[i]))
    && (exists i, digest :: 0 <= i < |lines| && SaysFingerprint(lines[i], digest))
    && (exists i :: 0 <= i < |lines| && IsPackageLine(lines[i]))
  }

  /** What a lock says: its fingerprint, and exactly these versions. */
  ghost predicate IsContent(lines: seq<string>, packages: Versions, digest: string) {
    && (exists i :: 0 <= i < |lines| && SaysFingerprint(lines[i], digest))
    && (forall name, version {:trigger IsPinned(lines, name, version)} ::
          name in packages && packages[name] == version <==> IsPinned(lines, name, version))
  }

  ghost predicate IsPinned(lines: seq<string>, name: string, version: string) {
    exists i :: 0 <= i < |lines| && Pins(lines[i], name, version)
  }

  // ---------------------------------------------------------------- marks and lines

  lemma PackageExactly(line: string, name: string, version: string)
    ensures KindOf(line) == Entry(name, version) <==> Pins(line, name, version)
  {
    if KindOf(line) == Entry(name, version) {
      var (raw, v) := EntryOf(line).value;
      EntryExactly(line, raw, v);
    }
    if raw :| SaysPackage(line, raw, version) && Canonical(raw) == name {
      EntryExactly(line, raw, version);
      EntryIsNothingElse(line);
    }
  }

  lemma EntryIsNothingElse(line: string)
    requires EntryOf(line).Some?
    ensures line != "" && line[0] != '#' && line != BINARY_ONLY
  {
    var n := NameLength(line);
    assert IsName(line[..n]) && line[..n][0] == line[0];
    assert BINARY_ONLY[0] == '-';
  }

  lemma FingerprintKind(line: string, digest: string)
    ensures KindOf(line) == Fingerprint(digest) <==> SaysFingerprint(line, digest)
  {
    FingerprintExactly(line, digest);
  }

  lemma PackageLineExactly(line: string)
    ensures KindOf(line).Entry? <==> IsPackageLine(line)
  {
    if KindOf(line).Entry? {
      PackageExactly(line, KindOf(line).name, KindOf(line).version);
      var raw :| SaysPackage(line, raw, KindOf(line).version) && Canonical(raw) == KindOf(line).name;
    }
    if raw, version :| SaysPackage(line, raw, version) {
      assert Pins(line, Canonical(raw), version);
      PackageExactly(line, Canonical(raw), version);
    }
  }

  lemma PlainKind(line: string)
    ensures KindOf(line).BinaryOnly? <==> SaysPolicy(line)
    ensures (KindOf(line).Blank? || KindOf(line).Comment? || KindOf(line).Fingerprint?) <==> line == "" || IsComment(line)
  {
    assert FINGERPRINT[0] == '#' && BINARY_ONLY[0] == '-';
    if IsFingerprint(line) {
      assert line[0] == FINGERPRINT[0];
    }
  }

  lemma FitsExactly(lines: seq<string>, marks: seq<Mark>, i: nat)
    requires marks == MarksOf(lines) && i < |lines|
    ensures FitsAt(marks, i) <==> IsInPlace(Trimmed(lines), i)
  {
    var line := Strip(lines[i]);
    PlainKind(line);
    PackageLineExactly(line);
    HashExactly(line);
    HashIsNoEntry(lines[i]);
    if i + 1 < |lines| {
      HashExactly(Strip(lines[i + 1]));
    }
    if i > 0 {
      PackageLineExactly(Strip(lines[i - 1]));
    }
  }

  lemma TwiceExactly(lines: seq<string>, marks: seq<Mark>, i: nat, j: nat)
    requires marks == MarksOf(lines) && i < |lines| && j < |lines|
    ensures AreTwice(marks, i, j) <==> AreRepeated(Strip(lines[i]), Strip(lines[j]))
  {
    var a, b := Strip(lines[i]), Strip(lines[j]);
    PlainKind(a);
    PlainKind(b);
    forall digest ensures (KindOf(a) == Fingerprint(digest) <==> SaysFingerprint(a, digest))
    ensures KindOf(b) == Fingerprint(digest) <==> SaysFingerprint(b, digest) {
      FingerprintKind(a, digest);
      FingerprintKind(b, digest);
    }
    forall name, version ensures (KindOf(a) == Entry(name, version) <==> Pins(a, name, version))
    ensures KindOf(b) == Entry(name, version) <==> Pins(b, name, version) {
      PackageExactly(a, name, version);
      PackageExactly(b, name, version);
    }
  }

  lemma OrderExactly(lines: seq<string>, marks: seq<Mark>, texts: seq<string>)
    requires marks == MarksOf(lines) && texts == Trimmed(lines)
    ensures AreInOrder(marks, |marks|) <==> AreOrdered(texts)
  {
    forall i | 0 <= i < |texts| ensures FitsAt(marks, i) <==> IsInPlace(texts, i) {
      FitsExactly(lines, marks, i);
    }
    forall i, j | 0 <= i < j < |texts| ensures AreTwice(marks, i, j) <==> AreRepeated(texts[i], texts[j]) {
      TwiceExactly(lines, marks, i, j);
    }
  }

  lemma PolicyAtExactly(lines: seq<string>, marks: seq<Mark>, texts: seq<string>)
    requires marks == MarksOf(lines) && texts == Trimmed(lines)
    ensures (exists i :: 0 <= i < |marks| && IsPolicyAt(marks, i)) <==> exists i :: 0 <= i < |texts| && SaysPolicy(texts[i])
  {
    forall i | 0 <= i < |texts| ensures IsPolicyAt(marks, i) <==> SaysPolicy(texts[i]) {
      PlainKind(texts[i]);
    }
  }

  lemma FingerprintAtExactly(lines: seq<string>, marks: seq<Mark>, texts: seq<string>, digest: string)
    requires marks == MarksOf(lines) && texts == Trimmed(lines)
    ensures (exists i :: 0 <= i < |marks| && IsFingerprintAt(marks, i, digest)) <==>
            exists i :: 0 <= i < |texts| && SaysFingerprint(texts[i], digest)
  {
    forall i | 0 <= i < |texts| ensures IsFingerprintAt(marks, i, digest) <==> SaysFingerprint(texts[i], digest) {
      FingerprintKind(texts[i], digest);
    }
  }

  lemma PackageAtExactly(lines: seq<string>, marks: seq<Mark>, texts: seq<string>, name: string, version: string)
    requires marks == MarksOf(lines) && texts == Trimmed(lines)
    ensures (exists i :: 0 <= i < |marks| && IsPackageAt(marks, i, name, version)) <==> IsPinned(texts, name, version)
  {
    forall i | 0 <= i < |texts| ensures IsPackageAt(marks, i, name, version) <==> Pins(texts[i], name, version) {
      PackageExactly(texts[i], name, version);
    }
  }

  /** What the parser knows in the end, on the lines. */
  ghost predicate IsKnown(texts: seq<string>, p: Progress) {
    && (p.binaryOnly <==> exists i :: 0 <= i < |texts| && SaysPolicy(texts[i]))
    && (forall digest :: HasFingerprint(p, digest) <==> exists i :: 0 <= i < |texts| && SaysFingerprint(texts[i], digest))
    && (forall name, version :: HasVersion(p, name, version) <==> IsPinned(texts, name, version))
  }

  lemma ProgressExactly(lines: seq<string>, marks: seq<Mark>, texts: seq<string>, p: Progress)
    requires marks == MarksOf(lines) && texts == Trimmed(lines) && IsProgress(marks, |marks|, p)
    ensures IsKnown(texts, p)
  {
    PolicyAtExactly(lines, marks, texts);
    forall digest ensures HasFingerprint(p, digest) <==> exists i :: 0 <= i < |texts| && SaysFingerprint(texts[i], digest) {
      FingerprintAtExactly(lines, marks, texts, digest);
    }
    forall name, version ensures HasVersion(p, name, version) <==> IsPinned(texts, name, version) {
      PackageAtExactly(lines, marks, texts, name, version);
    }
  }

  lemma SomePackage(texts: seq<string>, p: Progress)
    requires IsKnown(texts, p)
    ensures p.packages != map[] <==> exists i :: 0 <= i < |texts| && IsPackageLine(texts[i])
  {
    if name :| name in p.packages {
      assert HasVersion(p, name, p.packages[name]);
      var i :| 0 <= i < |texts| && Pins(texts[i], name, p.packages[name]);
    }
    if i :| 0 <= i < |texts| && IsPackageLine(texts[i]) {
      var raw, version :| SaysPackage(texts[i], raw, version);
      assert Pins(texts[i], Canonical(raw), version);
      assert HasVersion(p, Canonical(raw), version);
    }
  }

  lemma SomeFingerprint(texts: seq<string>, p: Progress)
    requires IsKnown(texts, p)
    ensures p.fingerprint.Some? <==> exists i, digest :: 0 <= i < |texts| && SaysFingerprint(texts[i], digest)
  {
    if p.fingerprint.Some? {
      assert HasFingerprint(p, p.fingerprint.value);
    }
    if i, digest :| 0 <= i < |texts| && SaysFingerprint(texts[i], digest) {
      assert HasFingerprint(p, digest);
    }
  }

  lemma KnownIsContent(texts: seq<string>, p: Progress)
    requires IsKnown(texts, p) && p.fingerprint.Some?
    ensures IsContent(texts, p.packages, p.fingerprint.value)
  {
    assert HasFingerprint(p, p.fingerprint.value);
    forall name, version ensures name in p.packages && p.packages[name] == version <==> IsPinned(texts, name, version) {
      assert HasVersion(p, name, version) <==> IsPinned(texts, name, version);
    }
  }

  lemma ParsedExactly(lines: seq<string>)
    ensures var r := Parse(lines, START);
            (r.Ok? <==> AreOrdered(Trimmed(lines))) && (r.Ok? ==> IsKnown(Trimmed(lines), r.value))
  {
    ParseExactly(lines);
    OrderExactly(lines, MarksOf(lines), Trimmed(lines));
    if Parse(lines, START).Ok? {
      ProgressExactly(lines, MarksOf(lines), Trimmed(lines), Parse(lines, START).value);
    }
  }

  lemma LockedExactly(lines: seq<string>, texts: seq<string>)
    requires var r := Parse(lines, START); (r.Ok? <==> AreOrdered(texts)) && (r.Ok? ==> IsKnown(texts, r.value))
    ensures var r := Locked(lines); (r.Ok? <==> IsLock(texts)) && (r.Ok? ==> IsContent(texts, r.value.0, r.value.1))
  {
    var r := Parse(lines, START);
    if r.Ok? {
      SomePackage(texts, r.value);
      SomeFingerprint(texts, r.value);
      if r.value.fingerprint.Some? {
        KnownIsContent(texts, r.value);
      }
    }
  }

  /** Whatever the text: the parser accepts it exactly if its lines, trimmed, are a lock, and then it returns exactly
      the versions and the fingerprint that the lock says. */
  lemma LockIsReadExactly(text: string)
    ensures var r, lines := Locked(SplitLines(text)), Trimmed(SplitLines(text));
            (r.Ok? <==> IsLock(lines)) && (r.Ok? ==> IsContent(lines, r.value.0, r.value.1))
  {
    var lines := SplitLines(text);
    ParsedExactly(lines);
    LockedExactly(lines, Trimmed(lines));
  }

  /** `verify_python_lock` succeeds exactly for a lock that pins every direct dependency at its version and has the
      fingerprint of the dependencies. */
  lemma VerifiesExactly(project: Versions, fingerprint: string, text: string)
    ensures var r, lines := Locked(SplitLines(text)), Trimmed(SplitLines(text));
            r.Ok? && project.Items <= r.value.0.Items && fingerprint == r.value.1 <==>
              && IsLock(lines) && (forall name | name in project :: IsPinned(lines, name, project[name]))
              && (exists i :: 0 <= i < |lines| && SaysFingerprint(lines[i], fingerprint))
  {
    LockIsReadExactly(text);
    var r, lines := Locked(SplitLines(text)), Trimmed(SplitLines(text));
    if r.Ok? {
      var (packages, digest) := r.value;
      forall name | name in project ensures (name, project[name]) in packages.Items <==> IsPinned(lines, name, project[name]) {
      }
      if i :| 0 <= i < |lines| && SaysFingerprint(lines[i], fingerprint) {
        OneFingerprint(lines, digest, fingerprint);
      }
    }
  }

  lemma FingerprintOnce(lines: seq<string>, i: nat, j: nat, a: string, b: string)
    requires AreOrdered(lines) && i < |lines| && j < |lines| && SaysFingerprint(lines[i], a) && SaysFingerprint(lines[j], b)
    ensures i == j
  {
    assert forall k, l | 0 <= k < l < |lines| :: !BothFingerprints(lines[k], lines[l]);
  }

  lemma OneFingerprint(lines: seq<string>, a: string, b: string)
    requires IsLock(lines)
    requires (exists i :: 0 <= i < |lines| && SaysFingerprint(lines[i], a)) && exists i :: 0 <= i < |lines| && SaysFingerprint(lines[i], b)
    ensures a == b
  {
    var i :| 0 <= i < |lines| && SaysFingerprint(lines[i], a);
    var j :| 0 <= j < |lines| && SaysFingerprint(lines[j], b);
    FingerprintOnce(lines, i, j, a, b);
    FingerprintExactly(lines[i], a);
    FingerprintExactly(lines[i], b);
  }

  // ---------------------------------------------------------------- what a rendered lock says

  /** The package and the hash of a record, one line below the other. */
  ghost predicate SaysRecord(lines: seq<string>, i: nat, record: WheelRecord)
    requires i + 1 < |lines|
  {
    SaysPackage(Strip(lines[i]), record.name, record.version) && Strip(lines[i + 1]) == "--hash=sha256:" + record.sha256
  }

  lemma {:induction false} EntriesAt(records: seq<WheelRecord>, i: nat)
    requires i < |records|
    ensures |Entries(records)| == 2 * |records|
    ensures Entries(records)[2 * i] == EntryLine(records[i]) && Entries(records)[2 * i + 1] == HashLine(records[i])
  {
    if |records| > 1 {
      EntriesAt(records[1..], if i > 0 then i - 1 else 0);
    }
  }

  lemma RecordIsSaid(record: WheelRecord)
    requires IsPackage(record) && IsHex64(record.sha256)
    ensures SaysRecord([EntryLine(record), HashLine(record)], 0, record)
  {
    EntryLineIsPlain(record);
    TrimmedStays(EntryLine(record));
    NameExactly(record.name);
    assert IsEntryWith(EntryLine(record), record.name, record.version, " ") by {
      assert record.name + "==" + record.version + " " + "\\" == record.name + "==" + record.version + " \\";
    }
    HashIsSaid(record);
  }

  lemma HashIsSaid(record: WheelRecord)
    requires IsHex64(record.sha256)
    ensures Strip(HashLine(record)) == "--hash=sha256:" + record.sha256
  {
    var core := HASH + record.sha256;
    assert HashLine(record) == "    " + core;
    assert core[0] == '-' && core[|core| - 1] == record.sha256[63];
    StripIndent(core);
  }

  /** A rendered lock says its fingerprint and the policy, and after them, in their order, each package with its version
      and with its own hash; and nothing else but comments. */
  lemma RenderedSays(records: map<string, WheelRecord>, order: seq<string>, fingerprint: string)
    requires IsHex64(fingerprint) && IsListing(order, records)
    requires forall name | name in records :: IsPackage(records[name]) && IsHex64(records[name].sha256)
    ensures var lines := SplitLines(Rendered(Listed(order, records), fingerprint));
            && |lines| == 6 + 2 * |order|
            && (forall i | 0 <= i < 3 :: lines[i] != "" && lines[i][0] == '#') && lines[5] == ""
            && SaysFingerprint(lines[3], fingerprint) && SaysPolicy(lines[4])
            && forall i | 0 <= i < |order| :: SaysRecord(lines, 6 + 2 * i, records[order[i]])
  {
    assert forall i | 0 <= i < |order| :: order[i] in records;
    LockAcceptance.ListedAt(order, records);
    var listed := Listed(order, records);
    LockIsSplit(listed, fingerprint);
    var lines := LockLines(listed, fingerprint);
    HeaderSays(fingerprint);
    assert lines[..6] == Header(fingerprint);
    assert |Entries(listed)| == 2 * |order| by {
      if order != [] {
        EntriesAt(listed, 0);
      }
    }
    forall i | 0 <= i < |order| ensures SaysRecord(lines, 6 + 2 * i, records[order[i]]) {
      EntriesAt(listed, i);
      RecordIsSaid(listed[i]);
      assert lines[6 + 2 * i] == Entries(listed)[2 * i] && lines[7 + 2 * i] == Entries(listed)[2 * i + 1];
    }
  }

  lemma HeaderSays(fingerprint: string)
    requires IsHex64(fingerprint)
    ensures var lines := Header(fingerprint);
            && |lines| == 6 && (forall i | 0 <= i < 3 :: lines[i] != "" && lines[i][0] == '#') && lines[5] == ""
            && SaysFingerprint(lines[3], fingerprint) && SaysPolicy(lines[4])
  {
    GeneratedIsComment();
    TargetIsComment();
    SelectedIsComment();
  }
}
