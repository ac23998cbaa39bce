/**
 * Catalog codes (jav_pilot/core/catalog_code.py): the display form of a code and the key that
 * identifies it whatever its separators.  Text is taken as already in Unicode normal form KC.
 */
module CatalogCode {
  import opened Collections

  datatype Identity = Identity(display: string, key: string)

  predicate IsDigit(c: char) { '0' <= c <= '9' }

  predicate IsLetter(c: char) { 'A' <= c <= 'Z' }

  predicate IsAlnum(c: char) { IsDigit(c) || IsLetter(c) }

  predicate IsSeparator(c: char) { c == '-' || c == '.' || c == '_' }

  predicate IsSpace(c: char) { c == ' ' || '\t' <= c <= '\r' || '\U{1c}' <= c <= '\U{1f}' }

  predicate AllDigits(s: string) { forall i | 0 <= i < |s| :: IsDigit(s[i]) }

  predicate AllLetters(s: string) { forall i | 0 <= i < |s| :: IsLetter(s[i]) }

  // ---------------------------------------------------------------- cleaning

  function Upper(s: string): (r: string)
    ensures |r| == |s|
    ensures forall i | 0 <= i < |s| :: r[i] == if 'a' <= s[i] <= 'z' then s[i] - 'a' + 'A' else s[i]
  {
    if s == [] then ""
    else [if 'a' <= s[0] <= 'z' then s[0] - 'a' + 'A' else s[0]] + Upper(s[1..])
  }

  function Strip(s: string): string
    decreases |s|
  {
    if s != [] && IsSpace(s[0]) then Strip(s[1..])
    else if s != [] && IsSpace(s[|s| - 1]) then Strip(s[..|s| - 1])
    else s
  }

  function Clean(raw: string): string { Upper(Strip(raw)) }

  // ---------------------------------------------------------------- the key

  function Squeeze(s: string): string {
    if s == [] then "" else (if IsAlnum(s[0]) then [s[0]] else "") + Squeeze(s[1..])
  }

  function Letters(s: string): nat {
    if s == [] then 0 else (if IsLetter(s[0]) then 1 else 0) + Letters(s[1..])
  }

  /** The serial number of a key of the FC2 family. */
  function Serial(prefix: string, s: string): Option<string> {
    if prefix <= s && 2 <= |s| - |prefix| <= 9 && AllDigits(s[|prefix|..]) then Some(s[|prefix|..]) else None
  }

  function Alias(squeezed: string): string {
    match (Serial("FC2PPV", squeezed), Serial("FC2", squeezed))
    case (Some(_), _) => squeezed
    case (None, Some(number)) => "FC2PPV" + number
    case _ => squeezed
  }

  const QUALITY_WORDS := ["2K", "4K", "8K", "720P", "1080P", "2160P", "4320P", "SD", "HD", "FHD", "UHD", "VR",
                          "HDR", "HEVC", "H264", "H265", "X264", "X265", "AV1"]

  predicate IsFrameRate(s: string) {
    && 5 <= |s| <= 6
    && s[|s| - 3..] == "FPS"
    && AllDigits(s[..|s| - 3])
  }

  /** One or more tokens, one after the other. */
  predicate IsRepeated(isToken: string -> bool, s: string)
    decreases |s|
  {
    exists n | 1 <= n <= |s| :: isToken(s[..n]) && (n == |s| || IsRepeated(isToken, s[n..]))
  }

  predicate IsQualityToken(s: string) { s in QUALITY_WORDS || IsFrameRate(s) }

  /** A sequence of one or more words that name a picture quality. */
  predicate IsQuality(s: string) { IsRepeated(IsQualityToken, s) }

  /** `canonical_catalog_code`, on cleaned text. */
  function Canonical(clean: string, maxLength: nat): Option<string> {
    if clean == [] || |clean| > maxLength then None
    else if exists i | 0 <= i < |clean| :: !IsAlnum(clean[i]) && !IsSeparator(clean[i]) && !IsSpace(clean[i]) then None
    else if !(exists i | 0 <= i < |clean| :: IsLetter(clean[i])) then None
    else if !(exists i | 0 <= i < |clean| :: IsDigit(clean[i])) then None
    else
      var key := Alias(Squeeze(clean));
      var separated := exists i | 0 <= i < |clean| :: IsSeparator(clean[i]) || clean[i] == ' ';
      if |key| < 3 || IsQuality(key) then None
      else if !separated && Letters(key) < 2 then None
      else Some(key)
  }

  // ---------------------------------------------------------------- the display form

  /** Groups of letters and digits with one separator between neighbours. */
  predicate IsDisplay(s: string) {
    && s != []
    && IsAlnum(s[0]) && IsAlnum(s[|s| - 1])
    && (forall i | 0 <= i < |s| :: IsAlnum(s[i]) || IsSeparator(s[i]))
    && (forall i, j | 0 <= i < |s| && j == i + 1 < |s| :: IsAlnum(s[i]) || IsAlnum(s[j]))
  }

  function LetterPrefix(s: string): (n: nat)
    ensures n <= |s| && AllLetters(s[..n]) && (n < |s| ==> !IsLetter(s[n]))
  {
    if s == [] || !IsLetter(s[0]) then 0
    else
      assert forall i | 0 <= i < LetterPrefix(s[1..]) :: s[i + 1] == s[1..][i];
      1 + LetterPrefix(s[1..])
  }

  datatype Simple = Simple(letters: string, digits: string)

  /** A short word and a number, with or without a separator between them. */
  function AsSimple(s: string): Option<Simple> {
    var n := LetterPrefix(s);
    var rest := s[n..];
    var digits := if rest != [] && IsSeparator(rest[0]) then rest[1..] else rest;
    if 2 <= n <= 12 && 2 <= |digits| <= 8 && AllDigits(digits) then Some(Simple(s[..n], digits)) else None
  }

  /** `normalize_catalog_code`. */
  function Normalize(raw: string, maxLength: nat): Option<Identity> {
    NormalizeClean(Clean(raw), maxLength)
  }

  function NormalizeClean(clean: string, maxLength: nat): Option<Identity> {
    match Canonical(clean, maxLength)
    case None => None
    case Some(key) =>
      if !IsDisplay(clean) then None
      else
        var display := match Serial("FC2PPV", key)
          case Some(number) => "FC2-PPV-" + number
          case None =>
            match AsSimple(clean)
            case Some(simple) => simple.letters + "-" + simple.digits
            case None => clean;
        if |display| > maxLength then None else Some(Identity(display, key))
  }

  // ---------------------------------------------------------------- display forms are fixed points

  lemma {:induction false} CleanKeepsDisplay(s: string)
    requires IsDisplay(s)
    ensures Clean(s) == s
  {
    assert Strip(s) == s;
  }

  lemma {:induction false} SqueezeConcat(a: string, b: string)
    ensures Squeeze(a + b) == Squeeze(a) + Squeeze(b)
  {
    if a == [] {
      assert a + b == b;
    } else {
      SqueezeConcat(a[1..], b);
      SqueezeCons(a[0], a[1..]);
      SqueezeCons(a[0], a[1..] + b);
      assert a == [a[0]] + a[1..] && a + b == [a[0]] + (a[1..] + b);
      Associates(Squeeze([a[0]]), Squeeze(a[1..]), Squeeze(b));
    }
  }

  lemma SqueezeCons(c: char, s: string)
    ensures Squeeze([c] + s) == Squeeze([c]) + Squeeze(s)
  {
    assert ([c] + s)[1..] == s;
  }

  lemma Associates(x: string, y: string, z: string)
    ensures x + (y + z) == (x + y) + z
  {
  }

  lemma {:induction false} SqueezeAlnum(s: string)
    requires forall i | 0 <= i < |s| :: IsAlnum(s[i])
    ensures Squeeze(s) == s
  {
    if s != [] {
      SqueezeAlnum(s[1..]);
    }
  }

  /** A word and a number squeeze to the same text with any separator or none between them. */
  lemma {:induction false} SqueezeSimple(s: string)
    requires AsSimple(s).Some?
    ensures var simple := AsSimple(s).value;
            Squeeze(s) == simple.letters + simple.digits == Squeeze(simple.letters + "-" + simple.digits)
  {
    var simple := AsSimple(s).value;
    var n := LetterPrefix(s);
    var gap := s[n..|s| - |simple.digits|];
    assert gap == "" || gap == [s[n]];
    assert s == simple.letters + gap + simple.digits;
    SqueezeJoined(simple.letters, gap, simple.digits);
    SqueezeJoined(simple.letters, "-", simple.digits);
  }

  lemma {:induction false} SqueezeJoined(letters: string, gap: string, digits: string)
    requires AllLetters(letters) && AllDigits(digits)
    requires gap == "" || (|gap| == 1 && IsSeparator(gap[0]))
    ensures Squeeze(letters + gap + digits) == letters + digits
  {
    SqueezeAlnum(letters);
    SqueezeAlnum(digits);
    SqueezeConcat(letters + gap, digits);
    SqueezeConcat(letters, gap);
    assert Squeeze(gap) == "";
    assert letters + "" == letters;
  }

  lemma {:induction false} PrefixOfHyphenated(letters: string, digits: string)
    requires 2 <= |letters| <= 12 && AllLetters(letters) && 2 <= |digits| <= 8 && AllDigits(digits)
    ensures AsSimple(letters + "-" + digits) == Some(Simple(letters, digits))
    ensures IsDisplay(letters + "-" + digits)
  {
    var s := letters + "-" + digits;
    LettersEnd(s, |letters|);
    assert s[..|letters|] == letters;
    assert s[|letters|..] == "-" + digits;
  }

  lemma {:induction false} LettersEnd(s: string, n: nat)
    requires n < |s| && AllLetters(s[..n]) && !IsLetter(s[n])
    ensures LetterPrefix(s) == n
  {
    assert forall i | 0 <= i < n :: s[..n][i] == s[i];
    var m := LetterPrefix(s);
    assert forall i | 0 <= i < m :: s[..m][i] == s[i];
  }

  /** Text with a letter, a digit and a separator has the key its letters and digits spell. */
  lemma CanonicalOf(text: string, key: string, maxLength: nat, letter: nat, digit: nat, separator: nat)
    requires IsDisplay(text) && |text| <= maxLength && Alias(Squeeze(text)) == key
    requires letter < |text| && IsLetter(text[letter])
    requires digit < |text| && IsDigit(text[digit])
    requires separator < |text| && IsSeparator(text[separator])
    requires |key| >= 3 && !IsQuality(key)
    ensures Canonical(text, maxLength) == Some(key)
  {
  }

  /** The display form of a simple code stands for itself and has the same key. */
  lemma {:induction false} SimpleFixed(clean: string, key: string, maxLength: nat)
    requires AsSimple(clean).Some? && Alias(Squeeze(clean)) == key && Serial("FC2PPV", key).None?
    requires |key| >= 3 && !IsQuality(key)
    requires |AsSimple(clean).value.letters + "-" + AsSimple(clean).value.digits| <= maxLength
    ensures var display := AsSimple(clean).value.letters + "-" + AsSimple(clean).value.digits;
            IsDisplay(display) && NormalizeClean(display, maxLength) == Some(Identity(display, key))
  {
    var simple := AsSimple(clean).value;
    var display := simple.letters + "-" + simple.digits;
    SqueezeSimple(clean);
    NoAlias(Squeeze(clean));
    PrefixOfHyphenated(simple.letters, simple.digits);
    CanonicalOf(display, key, maxLength, 0, |display| - 1, |simple.letters|);
  }

  /** An alias that is not spelled out already changes the key. */
  lemma {:induction false} NoAlias(squeezed: string)
    requires Serial("FC2PPV", Alias(squeezed)).None?
    ensures Alias(squeezed) == squeezed
  {
    if Serial("FC2", squeezed).Some? {
      var number := Serial("FC2", squeezed).value;
      assert ("FC2PPV" + number)[6..] == number;
    }
  }

  /** The display form of an FC2 code stands for itself and has the same key. */
  lemma {:induction false} SerialFixed(key: string, number: string, maxLength: nat)
    requires Serial("FC2PPV", key) == Some(number) && !IsQuality(key)
    requires |"FC2-PPV-" + number| <= maxLength
    ensures var display := "FC2-PPV-" + number;
            IsDisplay(display) && NormalizeClean(display, maxLength) == Some(Identity(display, key))
  {
    var display := "FC2-PPV-" + number;
    SerialDisplay(number);
    SerialSqueeze(key, number);
    CanonicalOf(display, key, maxLength, 0, 2, 3);
  }

  lemma {:induction false} SerialDisplay(number: string)
    requires AllDigits(number) && |number| >= 2
    ensures IsDisplay("FC2-PPV-" + number)
  {
  }

  lemma {:induction false} SerialSqueeze(key: string, number: string)
    requires Serial("FC2PPV", key) == Some(number)
    ensures Alias(Squeeze("FC2-PPV-" + number)) == key
  {
    SqueezeHyphenated("FC2", "PPV", number);
    assert "FC2" + "-" + "PPV" + "-" + number == "FC2-PPV-" + number;
    assert key == "FC2" + "PPV" + number;
  }

  lemma {:induction false} SqueezeHyphenated(a: string, b: string, c: string)
    requires forall i | 0 <= i < |a + b + c| :: IsAlnum((a + b + c)[i])
    ensures Squeeze(a + "-" + b + "-" + c) == a + b + c
  {
    assert forall i | 0 <= i < |a| :: a[i] == (a + b + c)[i];
    assert forall i | 0 <= i < |b| :: b[i] == (a + b + c)[|a| + i];
    assert forall i | 0 <= i < |c| :: c[i] == (a + b + c)[|a| + |b| + i];
    SqueezeAlnum(a);
    SqueezeAlnum(b);
    SqueezeAlnum(c);
    SqueezeConcat(a + "-" + b + "-", c);
    SqueezeConcat(a + "-" + b, "-");
    SqueezeConcat(a + "-", b);
    SqueezeConcat(a, "-");
    assert Squeeze("-") == "";
    assert a + "" == a && a + b + "" == a + b;
  }

  /** A cleaned code normalizes to a display form that stands for itself. */
  lemma NormalizedIsFixed(clean: string, maxLength: nat)
    requires NormalizeClean(clean, maxLength).Some?
    ensures var identity := NormalizeClean(clean, maxLength).value;
            IsDisplay(identity.display) && NormalizeClean(identity.display, maxLength) == Some(identity)
  {
    var key := Canonical(clean, maxLength).value;
    if Serial("FC2PPV", key).Some? {
      SerialFixed(key, Serial("FC2PPV", key).value, maxLength);
    } else if AsSimple(clean).Some? {
      SimpleFixed(clean, key, maxLength);
    }
  }

  /** Normalizing again changes nothing. */
  lemma NormalizeIsIdempotent(raw: string, maxLength: nat)
    requires Normalize(raw, maxLength).Some?
    ensures Normalize(Normalize(raw, maxLength).value.display, maxLength) == Normalize(raw, maxLength)
  {
    NormalizedIsFixed(Clean(raw), maxLength);
    CleanKeepsDisplay(Normalize(raw, maxLength).value.display);
  }
}
