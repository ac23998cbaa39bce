/**
 * What catalog codes normalize to, on their letters, digits and separators
 * (jav_pilot/core/catalog_code.py:8-75).
 */
module CatalogSpelling {
  import opened Collections
  import opened CatalogCode

  // ---------------------------------------------------------------- letters, digits and separators

  predicate IsCore(c: char) { 'A' <= c <= 'Z' || '0' <= c <= '9' }

  /** `core` is what is left of the text without everything else in it. */
  predicate Spells(text: string, core: string)
    decreases |text|
  {
    if text == "" then core == ""
    else if IsCore(text[0]) then core != "" && core[0] == text[0] && Spells(text[1..], core[1..])
    else Spells(text[1..], core)
  }

  /** Groups of letters and digits, with one `-`, `_` or `.` between neighbours. */
  predicate IsGroups(text: string) {
    && text != "" && IsCore(text[0]) && IsCore(text[|text| - 1])
    && (forall i | 0 <= i < |text| :: IsCore(text[i]) || text[i] in {'-', '_', '.'})
    && (forall i | 0 <= i < |text| - 1 :: IsCore(text[i]) || IsCore(text[i + 1]))
  }

  predicate IsNumber(s: string, low: nat, high: nat) {
    low <= |s| <= high && forall i | 0 <= i < |s| :: '0' <= s[i] <= '9'
  }

  predicate IsWord(s: string, low: nat, high: nat) {
    low <= |s| <= high && forall i | 0 <= i < |s| :: 'A' <= s[i] <= 'Z'
  }

  /** A serial number of the FC2 family, with or without its second name. */
  predicate IsSerial(core: string, number: string) {
    IsNumber(number, 2, 9) && (core == "FC2" + number || core == "FC2PPV" + number)
  }

  /** A short word and a number, with a separator between them or none. */
  predicate IsSplit(text: string, letters: string, gap: string, digits: string) {
    && text == letters + (gap + digits) && IsWord(letters, 2, 12) && IsNumber(digits, 2, 8)
    && gap in {"", "-", "_", "."}
  }

  // ---------------------------------------------------------------- picture qualities

  predicate IsQualityWord(s: string) {
    || s in {"2K", "4K", "8K", "720P", "1080P", "2160P", "4320P", "SD", "HD", "FHD", "UHD", "VR", "HDR", "HEVC",
             "H264", "H265", "X264", "X265", "AV1"}
    || (|s| >= 3 && s[|s| - 3..] == "FPS" && IsNumber(s[..|s| - 3], 2, 3))
  }

  function Concat(words: seq<string>): string {
    if words == [] then "" else words[0] + Concat(words[1..])
  }

  /** Nothing but words for a picture quality, at least one of them. */
  ghost predicate SaysQuality(s: string) {
    exists words: seq<string> :: AreQualityWords(words) && Concat(words) == s
  }

  predicate AreQualityWords(words: seq<string>) {
    words != [] && forall i | 0 <= i < |words| :: IsQualityWord(words[i])
  }

  lemma WordExactly(s: string)
    ensures s != "" ==> (IsQualityToken(s) <==> IsQualityWord(s))
    ensures IsQualityWord(s) ==> s != ""
  {
  }

  lemma OneMoreWord(s: string, n: nat, rest: seq<string>)
    requires n <= |s| && Concat(rest) == s[n..]
    ensures Concat([s[..n]] + rest) == s
  {
    var words := [s[..n]] + rest;
    assert words[1..] == rest && s == s[..n] + s[n..];
  }

  lemma {:induction false} RepeatedIsConcat(isToken: string -> bool, s: string) returns (words: seq<string>)
    requires IsRepeated(isToken, s)
    ensures words != [] && Concat(words) == s
    ensures forall i | 0 <= i < |words| :: words[i] != "" && isToken(words[i])
    decreases |s|
  {
    var n :| 1 <= n <= |s| && isToken(s[..n]) && (n == |s| || IsRepeated(isToken, s[n..]));
    var rest := [];
    if n < |s| {
      rest := RepeatedIsConcat(isToken, s[n..]);
    }
    OneMoreWord(s, n, rest);
    words := [s[..n]] + rest;
  }

  lemma {:induction false} ConcatIsRepeated(isToken: string -> bool, words: seq<string>)
    requires words != [] && forall i | 0 <= i < |words| :: words[i] != "" && isToken(words[i])
    ensures IsRepeated(isToken, Concat(words))
  {
    var s, n := Concat(words), |words[0]|;
    assert s[..n] == words[0] && s[n..] == Concat(words[1..]);
    if |words| > 1 {
      ConcatIsRepeated(isToken, words[1..]);
    } else {
      assert n == |s|;
    }
  }

  lemma QualityExactly(s: string)
    ensures IsQuality(s) <==> SaysQuality(s)
  {
    if IsQuality(s) {
      var words := RepeatedIsConcat(IsQualityToken, s);
      forall i | 0 <= i < |words| ensures IsQualityWord(words[i]) {
        WordExactly(words[i]);
      }
      assert AreQualityWords(words);
    }
    if words :| AreQualityWords(words) && Concat(words) == s {
      forall i | 0 <= i < |words| ensures words[i] != "" && IsQualityToken(words[i]) {
        WordExactly(words[i]);
      }
      ConcatIsRepeated(IsQualityToken, words);
    }
  }

  // ---------------------------------------------------------------- what a text is read as

  lemma {:induction false} SpellsExactly(text: string, core: string)
    ensures Spells(text, core) <==> Squeeze(text) == core
    decreases |text|
  {
    if text != "" {
      if IsCore(text[0]) {
        assert Squeeze(text) == [text[0]] + Squeeze(text[1..]);
        if core != "" {
          SpellsExactly(text[1..], core[1..]);
          assert core == [core[0]] + core[1..];
          assert Squeeze(text)[1..] == Squeeze(text[1..]) && Squeeze(text)[0] == text[0];
        }
      } else {
        SpellsExactly(text[1..], core);
        assert Squeeze(text) == "" + Squeeze(text[1..]);
      }
    }
  }

  lemma SerialIs(prefix: string, core: string, number: string)
    ensures Serial(prefix, core) == Some(number) <==> IsNumber(number, 2, 9) && core == prefix + number
  {
    if prefix <= core {
      assert core == prefix + core[|prefix|..];
    }
    if core == prefix + number {
      assert core[|prefix|..] == number;
    }
  }

  lemma NotBoth(number: string, other: string)
    requires IsNumber(number, 2, 9) && IsNumber(other, 2, 9)
    ensures "FC2PPV" + number != "FC2" + other
  {
    assert ("FC2PPV" + number)[3] == 'P' && ("FC2" + other)[3] == other[0];
  }

  /** The key of a text: its letters and digits, with the full name of the FC2 family. */
  ghost predicate IsKeyOf(core: string, key: string) {
    if exists number :: IsSerial(core, number) then exists number :: IsSerial(core, number) && key == "FC2PPV" + number
    else key == core
  }

  lemma AliasExactly(core: string)
    ensures forall key :: IsKeyOf(core, key) <==> key == Alias(core)
    ensures forall number :: IsSerial(core, number) <==> Serial("FC2PPV", Alias(core)) == Some(number)
  {
    forall number ensures IsSerial(core, number) <==> Serial("FC2PPV", Alias(core)) == Some(number) {
      SerialOfAlias(core, number);
    }
    if number :| IsSerial(core, number) {
      SerialIs("FC2PPV", Alias(core), number);
    } else {
      NoSerialNoAlias(core);
    }
  }

  lemma NoSerialNoAlias(core: string)
    requires forall number :: !IsSerial(core, number)
    ensures Alias(core) == core
  {
    if Serial("FC2", core).Some? {
      SerialIs("FC2", core, Serial("FC2", core).value);
      assert IsSerial(core, Serial("FC2", core).value);
    }
  }

  lemma SerialOfAlias(core: string, number: string)
    ensures IsSerial(core, number) <==> Serial("FC2PPV", Alias(core)) == Some(number)
  {
    SerialIs("FC2PPV", core, number);
    SerialIs("FC2", core, number);
    SerialIs("FC2PPV", Alias(core), number);
    if Serial("FC2PPV", core).Some? {
      var full := Serial("FC2PPV", core).value;
      SerialIs("FC2PPV", core, full);
      if IsNumber(number, 2, 9) {
        NotBoth(full, number);
      }
    } else if Serial("FC2", core).Some? {
      var short := Serial("FC2", core).value;
      SerialIs("FC2", core, short);
      assert ("FC2PPV" + short)[6..] == short;
      assert core[3..] == short && ("FC2" + number)[3..] == number && ("FC2PPV" + number)[6..] == number;
    }
  }

  lemma SplitIsSimple(text: string, letters: string, gap: string, digits: string)
    requires IsSplit(text, letters, gap, digits)
    ensures AsSimple(text) == Some(Simple(letters, digits))
  {
    var n := |letters|;
    assert text[..n] == letters && text[n..] == gap + digits;
    assert AllLetters(letters);
    assert !IsLetter(text[n]) by {
      assert text[n] == (gap + digits)[0];
    }
    LettersEnd(text, n);
    if gap == "" {
      assert gap + digits == digits;
    } else {
      assert (gap + digits)[1..] == digits && (gap + digits)[0] == gap[0];
    }
  }

  lemma SimpleParts(text: string)
    requires AsSimple(text).Some?
    ensures var simple := AsSimple(text).value;
            var n := |simple.letters|;
            && n < |text| && text == simple.letters + text[n..] && IsWord(simple.letters, 2, 12) && IsNumber(simple.digits, 2, 8)
            && simple.digits == if IsSeparator(text[n]) then text[n + 1..] else text[n..]
  {
    var n := LetterPrefix(text);
    assert AsSimple(text).value.letters == text[..n];
  }

  lemma SimpleIsSplit(text: string) returns (gap: string)
    requires AsSimple(text).Some?
    ensures IsSplit(text, AsSimple(text).value.letters, gap, AsSimple(text).value.digits)
  {
    var simple := AsSimple(text).value;
    SimpleParts(text);
    var n := |simple.letters|;
    gap := if IsSeparator(text[n]) then [text[n]] else "";
    assert text[n..] == gap + simple.digits;
  }

  /** The display form of a text: FC2 codes have one of their own, a short word and a number get a dash between
      them, and everything else stays as it is. */
  ghost predicate IsDisplayOf(text: string, core: string, display: string) {
    if exists number :: IsSerial(core, number) then exists number :: IsSerial(core, number) && display == "FC2-PPV-" + number
    else if exists letters, gap, digits :: IsSplit(text, letters, gap, digits) then
      exists letters, gap, digits :: IsSplit(text, letters, gap, digits) && display == letters + "-" + digits
    else display == text
  }

  /** The display form as the code computes it. */
  function Displayed(text: string, key: string): string {
    match Serial("FC2PPV", key)
    case Some(number) => "FC2-PPV-" + number
    case None =>
      match AsSimple(text)
      case Some(simple) => simple.letters + "-" + simple.digits
      case None => text
  }

  lemma SerialDisplayExactly(text: string, core: string, display: string, number: string)
    requires IsSerial(core, number)
    ensures IsDisplayOf(text, core, display) <==> display == "FC2-PPV-" + number
    ensures Displayed(text, Alias(core)) == "FC2-PPV-" + number
  {
    forall other | IsSerial(core, other) ensures other == number {
      SerialOfAlias(core, number);
      SerialOfAlias(core, other);
    }
    SerialOfAlias(core, number);
  }

  lemma SplitIsUnique(text: string, letters: string, gap: string, digits: string)
    requires IsSplit(text, letters, gap, digits)
    ensures forall other, between, number | IsSplit(text, other, between, number) :: other == letters && number == digits
  {
    SplitIsSimple(text, letters, gap, digits);
    forall other, between, number | IsSplit(text, other, between, number) ensures other == letters && number == digits {
      SplitIsSimple(text, other, between, number);
    }
  }

  lemma SerialFound(core: string)
    ensures Serial("FC2PPV", Alias(core)).Some? ==> IsSerial(core, Serial("FC2PPV", Alias(core)).value)
  {
    if Serial("FC2PPV", Alias(core)).Some? {
      SerialOfAlias(core, Serial("FC2PPV", Alias(core)).value);
    }
  }

  lemma NoSerial(text: string, core: string)
    requires forall number :: !IsSerial(core, number)
    ensures Displayed(text, Alias(core)) ==
            if AsSimple(text).Some? then AsSimple(text).value.letters + "-" + AsSimple(text).value.digits else text
  {
    SerialFound(core);
  }

  lemma SplitFound(text: string)
    ensures AsSimple(text).Some? ==> exists letters, gap, digits :: IsSplit(text, letters, gap, digits)
  {
    if AsSimple(text).Some? {
      var gap := SimpleIsSplit(text);
      assert IsSplit(text, AsSimple(text).value.letters, gap, AsSimple(text).value.digits);
    }
  }

  lemma SplitDisplayExactly(text: string, core: string, display: string, letters: string, gap: string, digits: string)
    requires (forall number :: !IsSerial(core, number)) && IsSplit(text, letters, gap, digits)
    ensures IsDisplayOf(text, core, display) <==> display == letters + "-" + digits
  {
    SplitIsUnique(text, letters, gap, digits);
  }

  lemma DisplayExactly(text: string, core: string, display: string)
    ensures IsDisplayOf(text, core, display) <==> display == Displayed(text, Alias(core))
  {
    if number :| IsSerial(core, number) {
      SerialDisplayExactly(text, core, display, number);
    } else {
      NoSerial(text, core);
      SplitFound(text);
      if letters, gap, digits :| IsSplit(text, letters, gap, digits) {
        SplitIsSimple(text, letters, gap, digits);
        SplitDisplayExactly(text, core, display, letters, gap, digits);
      }
    }
  }

  // ---------------------------------------------------------------- what is refused

  predicate HasTwoLetters(text: string) {
    exists i, j :: 0 <= i < j < |text| && 'A' <= text[i] <= 'Z' && 'A' <= text[j] <= 'Z'
  }

  predicate IsBlank(c: char) { c == ' ' || '\t' <= c <= '\r' || '\U{1c}' <= c <= '\U{1f}' }

  predicate IsAllowed(text: string) {
    forall i | 0 <= i < |text| :: IsCore(text[i]) || text[i] in {'-', '_', '.'} || IsBlank(text[i])
  }

  predicate IsReadable(text: string) {
    && (exists i :: 0 <= i < |text| && 'A' <= text[i] <= 'Z') && (exists i :: 0 <= i < |text| && '0' <= text[i] <= '9')
  }

  predicate HasSeparator(text: string) { exists i :: 0 <= i < |text| && text[i] in {'-', '_', '.', ' '} }

  /** A letter and a digit at least, three of them in all, and more than a picture quality; and there is a separator or
      a second letter. */
  ghost predicate IsCode(text: string, core: string) {
    && IsAllowed(text) && IsReadable(text)
    && |core| >= 3 && !SaysQuality(core)
    && (HasSeparator(text) || HasTwoLetters(core))
  }

  lemma GroupsExactly(text: string)
    ensures IsGroups(text) <==> IsDisplay(text)
  {
  }

  lemma {:induction false} SomeLetter(s: string)
    ensures Letters(s) >= 1 <==> exists i :: 0 <= i < |s| && 'A' <= s[i] <= 'Z'
  {
    if s != "" {
      SomeLetter(s[1..]);
      if i :| 0 <= i < |s[1..]| && 'A' <= s[1..][i] <= 'Z' {
        assert 'A' <= s[i + 1] <= 'Z';
      }
      if i :| 0 <= i < |s| && 'A' <= s[i] <= 'Z' && i > 0 {
        assert s[1..][i - 1] == s[i];
      }
    }
  }

  lemma {:induction false} TwoLetters(s: string)
    ensures Letters(s) >= 2 <==> HasTwoLetters(s)
  {
    if s != "" {
      TwoLetters(s[1..]);
      SomeLetter(s[1..]);
      if i, j :| 0 <= i < j < |s[1..]| && 'A' <= s[1..][i] <= 'Z' && 'A' <= s[1..][j] <= 'Z' {
        assert 'A' <= s[i + 1] <= 'Z' && 'A' <= s[j + 1] <= 'Z';
      }
      if i :| 0 <= i < |s[1..]| && 'A' <= s[1..][i] <= 'Z' {
        assert s[i + 1] == s[1..][i];
      }
      if i, j :| 0 <= i < j < |s| && 'A' <= s[i] <= 'Z' && 'A' <= s[j] <= 'Z' {
        assert s[1..][j - 1] == s[j] && (i > 0 ==> s[1..][i - 1] == s[i]);
      }
    }
  }

  lemma FamilyIsNoToken(word: string)
    requires word != "" && word[0] == 'F' && (|word| >= 2 ==> word[1] == 'C')
    ensures !IsQualityToken(word)
  {
  }

  lemma FamilyIsNoQuality(s: string)
    requires |s| >= 2 && s[0] == 'F' && s[1] == 'C'
    ensures !IsQuality(s)
  {
    forall n | 1 <= n <= |s| ensures !IsQualityToken(s[..n]) {
      FamilyIsNoToken(s[..n]);
    }
  }

  /** The full name of the FC2 family changes nothing about whether a text is a code. */
  lemma AliasIsNoMatter(core: string)
    ensures |Alias(core)| >= 3 <==> |core| >= 3
    ensures IsQuality(Alias(core)) <==> IsQuality(core)
    ensures Letters(Alias(core)) >= 2 <==> Letters(core) >= 2
  {
    if Alias(core) != core {
      assert core[..3] == "FC2" && core[0] == 'F' && core[1] == 'C';
      assert Alias(core)[0] == 'F' && Alias(core)[1] == 'C';
      FamilyIsNoQuality(core);
      FamilyIsNoQuality(Alias(core));
      TwoLetters(core);
      TwoLetters(Alias(core));
    }
  }

  lemma CanonicalOfReadable(text: string, key: string, maxLength: nat)
    requires IsAllowed(text) && |text| <= maxLength && IsReadable(text) && key == Alias(Squeeze(text))
    ensures Canonical(text, maxLength) ==
            if |key| < 3 || IsQuality(key) || (!HasSeparator(text) && Letters(key) < 2) then None else Some(key)
  {
  }

  lemma UnreadableIsRefused(text: string, maxLength: nat)
    requires |text| > maxLength || !IsAllowed(text) || !IsReadable(text)
    ensures Canonical(text, maxLength) == None
  {
  }

  /** `canonical_catalog_code` answers with the key of exactly the codes that fit within the length. */
  lemma CanonicalExactly(text: string, core: string, maxLength: nat)
    requires Spells(text, core)
    ensures forall key :: Canonical(text, maxLength) == Some(key) <==>
              IsCode(text, core) && |text| <= maxLength && IsKeyOf(core, key)
  {
    SpellsExactly(text, core);
    AliasExactly(core);
    if |text| > maxLength || !IsAllowed(text) || !IsReadable(text) {
      UnreadableIsRefused(text, maxLength);
    } else {
      CanonicalOfReadable(text, Alias(core), maxLength);
      QualityExactly(core);
      AliasIsNoMatter(core);
      TwoLetters(core);
    }
  }

  // ---------------------------------------------------------------- cleaning

  predicate AreBlank(s: string) { forall i | 0 <= i < |s| :: IsBlank(s[i]) }

  predicate IsCapitals(word: string, text: string) {
    |text| == |word| && forall i | 0 <= i < |word| ::
      text[i] == if 'a' <= word[i] <= 'z' then word[i] - 'a' + 'A' else word[i]
  }

  predicate IsMiddle(raw: string, before: string, middle: string, after: string) {
    && raw == before + (middle + after) && AreBlank(before) && AreBlank(after)
    && (middle != "" ==> !IsBlank(middle[0]) && !IsBlank(middle[|middle| - 1]))
  }

  /** The text is the raw text in capitals, without the white space at both ends. */
  ghost predicate IsCleaned(raw: string, text: string) {
    exists before, middle, after :: IsMiddle(raw, before, middle, after) && IsCapitals(middle, text)
  }

  lemma Around(before: string, middle: string, after: string, c: char)
    ensures [c] + (before + (middle + after)) == ([c] + before) + (middle + after)
    ensures (before + (middle + after)) + [c] == before + (middle + (after + [c]))
  {
  }

  lemma {:induction false} StripExactly(raw: string) returns (before: string, after: string)
    ensures IsMiddle(raw, before, Strip(raw), after)
    decreases |raw|
  {
    before, after := "", "";
    if raw != "" && IsBlank(raw[0]) {
      before, after := StripExactly(raw[1..]);
      Around(before, Strip(raw[1..]), after, raw[0]);
      assert raw == [raw[0]] + raw[1..];
      before := [raw[0]] + before;
    } else if raw != "" && IsBlank(raw[|raw| - 1]) {
      var n := |raw| - 1;
      before, after := StripExactly(raw[..n]);
      Around(before, Strip(raw[..n]), after, raw[n]);
      assert raw == raw[..n] + [raw[n]];
      after := after + [raw[n]];
    } else {
      assert raw == "" + (raw + "");
    }
  }

  lemma CleanIsCleaned(raw: string)
    ensures IsCleaned(raw, Clean(raw))
  {
    var before, after := StripExactly(raw);
    assert IsCapitals(Strip(raw), Clean(raw));
  }

  lemma {:induction false} BlankIsStripped(raw: string)
    requires AreBlank(raw)
    ensures Strip(raw) == ""
  {
    if raw != "" {
      BlankIsStripped(raw[1..]);
    }
  }

  lemma {:induction false} StripOfMiddle(raw: string, before: string, middle: string, after: string)
    requires IsMiddle(raw, before, middle, after) && middle != ""
    ensures Strip(raw) == middle
    decreases |raw|
  {
    if before != "" {
      assert raw[0] == before[0] && raw[1..] == before[1..] + (middle + after);
      StripOfMiddle(raw[1..], before[1..], middle, after);
    } else if after != "" {
      var n := |raw| - 1;
      assert raw[0] == middle[0] && raw[n] == after[|after| - 1];
      assert raw[..n] == before + (middle + after[..|after| - 1]);
      StripOfMiddle(raw[..n], before, middle, after[..|after| - 1]);
    } else {
      assert raw == middle;
    }
  }

  lemma CleanedExactly(raw: string, text: string)
    ensures IsCleaned(raw, text) <==> text == Clean(raw)
  {
    CleanIsCleaned(raw);
    if before, middle, after :| IsMiddle(raw, before, middle, after) && IsCapitals(middle, text) {
      if middle == "" {
        BlankIsStripped(raw);
      } else {
        StripOfMiddle(raw, before, middle, after);
      }
      assert text == Upper(middle);
    }
  }

  // ---------------------------------------------------------------- what a text normalizes to

  lemma NormalizeIs(text: string, maxLength: nat)
    ensures NormalizeClean(text, maxLength) ==
            match Canonical(text, maxLength)
            case None => None
            case Some(key) =>
              if IsDisplay(text) && |Displayed(text, key)| <= maxLength then Some(Identity(Displayed(text, key), key))
              else None
  {
  }

  /** What a code in groups normalizes to, if it fits within the length. */
  ghost predicate IsIdentityOf(text: string, core: string, identity: Identity) {
    IsDisplayOf(text, core, identity.display) && IsKeyOf(core, identity.key)
  }

  lemma IdentityIs(text: string, core: string)
    ensures forall identity :: IsIdentityOf(text, core, identity) <==>
              identity == Identity(Displayed(text, Alias(core)), Alias(core))
  {
    AliasExactly(core);
    forall identity ensures IsIdentityOf(text, core, identity) <==>
                            identity == Identity(Displayed(text, Alias(core)), Alias(core)) {
      DisplayExactly(text, core, identity.display);
    }
  }

  /** `normalize_catalog_code` on any raw text: once the white space is stripped and the rest is in capitals, exactly the
      codes in groups that fit within the length, before and in their display form, have an identity, and it is their
      display form and their key; all other text is refused. */
  lemma NormalizeExactly(raw: string, text: string, core: string, maxLength: nat)
    requires IsCleaned(raw, text) && Spells(text, core)
    ensures forall identity :: Normalize(raw, maxLength) == Some(identity) <==>
              && IsCode(text, core) && IsGroups(text) && |text| <= maxLength && |identity.display| <= maxLength
              && IsIdentityOf(text, core, identity)
    ensures Normalize(raw, maxLength) == None <==>
            || !IsCode(text, core) || !IsGroups(text) || |text| > maxLength
            || forall identity | IsIdentityOf(text, core, identity) :: |identity.display| > maxLength
  {
    CleanedExactly(raw, text);
    GroupsExactly(text);
    AliasExactly(core);
    CanonicalExactly(text, core, maxLength);
    IdentityIs(text, core);
    NormalizeIs(text, maxLength);
    assert IsIdentityOf(text, core, Identity(Displayed(text, Alias(core)), Alias(core)));
  }

  /** With its one identity at hand. */
  lemma NormalizeTo(raw: string, text: string, core: string, maxLength: nat, identity: Identity)
    requires IsCleaned(raw, text) && Spells(text, core) && IsGroups(text)
    requires forall other :: IsIdentityOf(text, core, other) <==> other == identity
    ensures Normalize(raw, maxLength) ==
            if IsCode(text, core) && |text| <= maxLength && |identity.display| <= maxLength then Some(identity) else None
  {
    NormalizeExactly(raw, text, core, maxLength);
  }

  // ---------------------------------------------------------------- the FC2 family

  lemma {:induction false} SpelledOut(text: string, core: string, j: nat) returns (i: nat)
    requires Spells(text, core) && j < |core|
    ensures i < |text| && text[i] == core[j]
    decreases |text|
  {
    if !IsCore(text[0]) {
      i := SpelledOut(text[1..], core, j);
      i := i + 1;
    } else if j == 0 {
      i := 0;
    } else {
      i := SpelledOut(text[1..], core[1..], j - 1);
      i := i + 1;
    }
  }

  lemma SerialIsCode(text: string, core: string, number: string)
    requires IsGroups(text) && Spells(text, core) && IsSerial(core, number)
    ensures IsCode(text, core)
  {
    assert core[0] == 'F' && core[1] == 'C' && core[2] == '2';
    var letter := SpelledOut(text, core, 0);
    var digit := SpelledOut(text, core, 2);
    FamilyIsNoQuality(core);
    QualityExactly(core);
  }

  lemma SerialIdentity(text: string, core: string, number: string)
    requires IsSerial(core, number)
    ensures forall identity :: IsIdentityOf(text, core, identity) <==>
              identity == Identity("FC2-PPV-" + number, "FC2PPV" + number)
  {
    IdentityIs(text, core);
    SerialDisplayExactly(text, core, "FC2-PPV-" + number, number);
    SerialOfAlias(core, number);
    SerialIs("FC2PPV", Alias(core), number);
  }

  /** Every spelling of FC2 or FC2PPV and a number, with separators anywhere between the letters and digits, has one
      display form and one key. */
  lemma FamilyExactly(raw: string, text: string, core: string, number: string, maxLength: nat)
    requires IsCleaned(raw, text) && IsGroups(text) && Spells(text, core) && IsSerial(core, number)
    ensures Normalize(raw, maxLength) ==
            if |text| <= maxLength && 8 + |number| <= maxLength then
              Some(Identity("FC2-PPV-" + number, "FC2PPV" + number))
            else None
  {
    SerialIsCode(text, core, number);
    SerialIdentity(text, core, number);
    NormalizeTo(raw, text, core, maxLength, Identity("FC2-PPV-" + number, "FC2PPV" + number));
  }

  // ---------------------------------------------------------------- a word and a number

  lemma SplitSpells(text: string, letters: string, gap: string, digits: string)
    requires IsSplit(text, letters, gap, digits)
    ensures Spells(text, letters + digits)
  {
    SplitIsSimple(text, letters, gap, digits);
    SqueezeSimple(text);
    SpellsExactly(text, letters + digits);
  }

  lemma SplitAt(text: string, letters: string, gap: string, digits: string, i: nat)
    requires IsSplit(text, letters, gap, digits) && i < |text|
    ensures i < |letters| ==> text[i] == letters[i]
    ensures |letters| <= i < |letters| + |gap| ==> text[i] == gap[0]
    ensures |letters| + |gap| <= i ==> text[i] == digits[i - |letters| - |gap|]
  {
  }

  lemma SplitIsGroups(text: string, letters: string, gap: string, digits: string)
    requires IsSplit(text, letters, gap, digits)
    ensures IsGroups(text)
  {
    SplitAt(text, letters, gap, digits, 0);
    SplitAt(text, letters, gap, digits, |text| - 1);
    forall i | 0 <= i < |text|
      ensures IsCore(text[i]) || (text[i] in {'-', '_', '.'} && i == |letters| && gap != "")
    {
      SplitAt(text, letters, gap, digits, i);
    }
  }

  lemma SplitIsCode(text: string, letters: string, gap: string, digits: string)
    requires IsSplit(text, letters, gap, digits)
    ensures IsCode(text, letters + digits) <==> !SaysQuality(letters + digits)
  {
    SplitIsGroups(text, letters, gap, digits);
    SplitSpells(text, letters, gap, digits);
    var core := letters + digits;
    var letter := SpelledOut(text, core, 0);
    var digit := SpelledOut(text, core, |letters|);
    assert core[0] == letters[0] && core[1] == letters[1] && core[|letters|] == digits[0];
  }

  /** Whether a word and a number are a code of the FC2 family: FC and a number that starts with 2. */
  predicate IsFamily(letters: string, digits: string) {
    letters == "FC" && digits != "" && digits[0] == '2' && |digits| >= 3
  }

  lemma ThirdOf(letters: string, digits: string)
    requires IsWord(letters, 2, 12) && IsNumber(digits, 2, 8)
    ensures |letters| > 2 ==> 'A' <= (letters + digits)[2] <= 'Z'
  {
  }

  lemma FamilyStart(letters: string, digits: string)
    requires IsWord(letters, 2, 12) && IsNumber(digits, 2, 8)
    requires "FC2" <= letters + digits
    ensures letters == "FC" && digits[0] == '2'
  {
    var core := letters + digits;
    assert core[0] == 'F' && core[1] == 'C' && core[2] == '2';
    ThirdOf(letters, digits);
    assert letters[0] == core[0] && letters[1] == core[1];
  }

  lemma NotTheFullName(letters: string, digits: string, number: string)
    requires letters == "FC" && IsNumber(digits, 2, 8)
    ensures letters + digits != "FC2PPV" + number
  {
    assert (letters + digits)[3] == digits[1] && ("FC2PPV" + number)[3] == 'P';
  }

  lemma SplitSerial(letters: string, digits: string, number: string)
    requires IsWord(letters, 2, 12) && IsNumber(digits, 2, 8)
    ensures IsSerial(letters + digits, number) <==> IsFamily(letters, digits) && number == digits[1..]
  {
    var core := letters + digits;
    if IsFamily(letters, digits) && number == digits[1..] {
      assert core == "FC2" + number;
    }
    if IsSerial(core, number) {
      assert "FC2" <= core;
      FamilyStart(letters, digits);
      NotTheFullName(letters, digits, number);
      assert core[3..] == number && core[2..] == digits && digits[1..] == core[3..];
    }
  }

  lemma SplitIdentity(text: string, letters: string, gap: string, digits: string)
    requires IsSplit(text, letters, gap, digits)
    ensures forall identity :: IsIdentityOf(text, letters + digits, identity) <==>
              identity == IdentityOfSplit(letters, digits)
  {
    var core := letters + digits;
    forall number ensures IsSerial(core, number) <==> IsFamily(letters, digits) && number == digits[1..] {
      SplitSerial(letters, digits, number);
    }
    if IsFamily(letters, digits) {
      SerialIdentity(text, core, digits[1..]);
    } else {
      IdentityIs(text, core);
      NoSerialNoAlias(core);
      NoSerial(text, core);
      SplitIsSimple(text, letters, gap, digits);
    }
  }

  function IdentityOfSplit(letters: string, digits: string): Identity {
    if IsFamily(letters, digits) then Identity("FC2-PPV-" + digits[1..], "FC2PPV" + digits[1..])
    else Identity(letters + "-" + digits, letters + digits)
  }

  /** A word of 2 to 12 letters and a number of 2 to 8 digits, with a separator between them or none: the word, a dash and
      the number, with the word and the number as key, within the length.  It is refused if it says nothing but a picture
      quality; and FC with a number that starts with 2 is read as a code of the FC2 family. */
  lemma SplitExactly(raw: string, text: string, letters: string, gap: string, digits: string, maxLength: nat)
    requires IsCleaned(raw, text) && IsSplit(text, letters, gap, digits)
    ensures Normalize(raw, maxLength) ==
            if SaysQuality(letters + digits) || |text| > maxLength then None
            else if IsFamily(letters, digits) then
              if 7 + |digits| <= maxLength then Some(Identity("FC2-PPV-" + digits[1..], "FC2PPV" + digits[1..])) else None
            else if |letters| + 1 + |digits| <= maxLength then Some(Identity(letters + "-" + digits, letters + digits))
            else None
  {
    SplitSpells(text, letters, gap, digits);
    SplitIsGroups(text, letters, gap, digits);
    SplitIsCode(text, letters, gap, digits);
    SplitIdentity(text, letters, gap, digits);
    NormalizeTo(raw, text, letters + digits, maxLength, IdentityOfSplit(letters, digits));
  }

  lemma CleanedAlready(text: string)
    requires IsGroups(text)
    ensures IsCleaned(text, text)
  {
    CleanedExactly(text, text);
    GroupsExactly(text);
    CleanKeepsDisplay(text);
  }

  lemma FamilyGroups(number: string)
    requires IsNumber(number, 2, 9)
    ensures IsGroups("FC2-" + number)
  {
    var text := "FC2-" + number;
    forall i | 0 <= i < |text| ensures IsCore(text[i]) || (i == 3 && text[i] == '-') {
      assert i >= 4 ==> text[i] == number[i - 4];
    }
  }

  lemma FamilyText(number: string)
    requires IsNumber(number, 2, 9)
    ensures Spells("FC2-" + number, "FC2" + number)
  {
    SqueezeConcat("FC2-", number);
    SqueezeAlnum(number);
    SqueezeFamily();
    SpellsExactly("FC2-" + number, "FC2" + number);
  }

  lemma SqueezeFamily()
    ensures Squeeze("FC2-") == "FC2"
  {
    SqueezeConcat("FC2", "-");
    SqueezeAlnum("FC2");
    assert "FC2" + "-" == "FC2-" && Squeeze("-") == "";
  }

  lemma SplitFamily(number: string)
    requires IsNumber(number, 2, 7)
    ensures IsSplit("FC-2" + number, "FC", "-", "2" + number) && IsFamily("FC", "2" + number)
    ensures IdentityOfSplit("FC", "2" + number) == Identity("FC2-PPV-" + number, "FC2PPV" + number)
    ensures !SaysQuality("FC" + ("2" + number))
  {
    assert "FC-2" + number == "FC" + ("-" + ("2" + number));
    assert ("2" + number)[1..] == number;
    FamilyIsNoQuality("FC" + ("2" + number));
    QualityExactly("FC" + ("2" + number));
  }

  /** Words and numbers that get neither their own display form nor their own key: FC and any number of 3 to 8 digits that
      starts with 2 is taken for the code of the FC2 family with the other digits. */
  lemma WordWithAnotherKey(number: string)
    requires IsNumber(number, 2, 7)
    ensures Normalize("FC-2" + number, 64) == Some(Identity("FC2-PPV-" + number, "FC2PPV" + number))
    ensures Normalize("FC-2" + number, 64) == Normalize("FC2-" + number, 64)
  {
    SplitFamily(number);
    SplitIsGroups("FC-2" + number, "FC", "-", "2" + number);
    CleanedAlready("FC-2" + number);
    SplitExactly("FC-2" + number, "FC-2" + number, "FC", "-", "2" + number, 64);
    FamilyText(number);
    FamilyGroups(number);
    CleanedAlready("FC2-" + number);
    FamilyExactly("FC2-" + number, "FC2-" + number, "FC2" + number, number, 64);
  }

  // ---------------------------------------------------------------- one key for all spellings

  /** Two texts have the same key exactly when their letters and digits agree, up to the second name of the FC2 family. */
  lemma KeysAgreeExactly(raw: string, other: string, core: string, otherCore: string, maxLength: nat)
    requires Normalize(raw, maxLength).Some? && Normalize(other, maxLength).Some?
    requires Spells(Clean(raw), core) && Spells(Clean(other), otherCore)
    ensures Normalize(raw, maxLength).value.key == Normalize(other, maxLength).value.key <==>
            core == otherCore || exists number :: IsSerial(core, number) && IsSerial(otherCore, number)
  {
    CleanIsCleaned(raw);
    CleanIsCleaned(other);
    NormalizeExactly(raw, Clean(raw), core, maxLength);
    NormalizeExactly(other, Clean(other), otherCore, maxLength);
    KeysOfCores(core, otherCore, Normalize(raw, maxLength).value.key, Normalize(other, maxLength).value.key);
  }

  lemma KeysOfCores(core: string, otherCore: string, key: string, otherKey: string)
    requires IsKeyOf(core, key) && IsKeyOf(otherCore, otherKey)
    ensures key == otherKey <==>
            core == otherCore || exists number :: IsSerial(core, number) && IsSerial(otherCore, number)
  {
    AliasExactly(core);
    AliasExactly(otherCore);
    if key == otherKey && core != otherCore {
      if number :| IsSerial(core, number) {
        assert IsSerial(otherCore, number);
      } else {
        NoSerialNoAlias(core);
        NoSerialNoAlias(otherCore);
      }
    }
    if number :| IsSerial(core, number) && IsSerial(otherCore, number) {
      SerialIs("FC2PPV", Alias(core), number);
      SerialIs("FC2PPV", Alias(otherCore), number);
    }
  }
}
