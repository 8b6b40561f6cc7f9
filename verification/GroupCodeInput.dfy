/** Normalising a group code that a user typed: a current code of 22 symbols, or a legacy code in lower case. */
module GroupCodeInput {
  import opened Identifiers
  import opened GroupCode
  import opened Text

  const MAX_LEGACY_LENGTH: nat := 80

  function TrimEnd(s: string): string
    decreases |s|
  {
    if s != "" && IsWhitespace(s[|s| - 1]) then TrimEnd(s[..|s| - 1]) else s
  }

  function Trim(s: string): string {
    TrimEnd(TrimStart(s))
  }

  /** The pieces between dashes; a text without dashes is one piece, even when empty. */
  function Split(s: string): (parts: seq<string>)
    ensures parts != []
    decreases |s|
  {
    if s == "" then [""]
    else
      var parts := Split(s[..|s| - 1]);
      var c := s[|s| - 1];
      if c == '-' then parts + [""] else parts[|parts| - 1 := parts[|parts| - 1] + [c]]
  }

  predicate AllAlnum(s: string) {
    forall i | 0 <= i < |s| :: IsAlnum(s[i])
  }

  predicate PartsAreAlnum(parts: seq<string>) {
    forall part <- parts :: part != "" && AllAlnum(part)
  }

  function NormalizeGroupCode(typed: string): Option<string> {
    var code := Trim(typed);
    if |code| == 22 && AllAlnum(code) then Some(code)
    else
      var legacy := Lower(code);
      if |legacy| <= MAX_LEGACY_LENGTH && PartsAreAlnum(Split(legacy)) then Some(legacy)
      else None
  }

  // ----- what is accepted -----

  /** The format the database asks of a legacy code: runs of lower-case letters and numerals joined by dashes. */
  ghost predicate LegacyFormat(s: string) {
    && s != "" && s[0] != '-' && s[|s| - 1] != '-'
    && (forall i | 0 <= i < |s| :: s[i] == '-' || '0' <= s[i] <= '9' || 'a' <= s[i] <= 'z')
    && (forall i | 0 < i < |s| :: s[i - 1] != '-' || s[i] != '-')
  }

  ghost predicate Plain(part: string) {
    part != "" && AllAlnum(part)
  }

  /** All finished pieces are plain; the last may still be empty. */
  ghost predicate PlainSoFar(parts: seq<string>) {
    && (forall k | 0 <= k < |parts| - 1 :: Plain(parts[k]))
    && (parts != [] ==> AllAlnum(parts[|parts| - 1]))
  }

  ghost predicate DashedSoFar(s: string) {
    && (s != "" ==> s[0] != '-')
    && (forall i | 0 <= i < |s| :: s[i] == '-' || IsAlnum(s[i]))
    && (forall i | 0 < i < |s| :: s[i - 1] != '-' || s[i] != '-')
  }

  lemma DashedByLast(s: string)
    requires s != ""
    ensures var n := |s| - 1;
      DashedSoFar(s) <==> DashedSoFar(s[..n]) && if s[n] == '-' then n > 0 && s[n - 1] != '-' else IsAlnum(s[n])
  {
    var n := |s| - 1;
    var init := s[..n];
    if DashedSoFar(s) {
      forall i | 0 <= i < n ensures init[i] == '-' || IsAlnum(init[i]) { assert s[i] == '-' || IsAlnum(s[i]); }
      forall i | 0 < i < n ensures init[i - 1] != '-' || init[i] != '-' { assert s[i - 1] != '-' || s[i] != '-'; }
    }
    if DashedSoFar(init) && if s[n] == '-' then n > 0 && s[n - 1] != '-' else IsAlnum(s[n]) {
      forall i | 0 <= i < n ensures s[i] == '-' || IsAlnum(s[i]) { assert init[i] == '-' || IsAlnum(init[i]); }
      forall i | 0 < i < n ensures s[i - 1] != '-' || s[i] != '-' { assert init[i - 1] != '-' || init[i] != '-'; }
    }
  }

  lemma {:induction false} SplitSeesDashes(s: string)
    ensures PlainSoFar(Split(s)) <==> DashedSoFar(s)
    ensures Split(s)[|Split(s)| - 1] == "" <==> s == "" || s[|s| - 1] == '-'
    decreases |s|
  {
    if s != "" {
      var n := |s| - 1;
      SplitSeesDashes(s[..n]);
      DashedByLast(s);
      PlainByLast(Split(s[..n]), s[n]);
    }
  }

  lemma PlainByLast(parts: seq<string>, c: char)
    requires parts != []
    ensures c == '-' ==> (PlainSoFar(parts + [""]) <==> PlainSoFar(parts) && parts[|parts| - 1] != "")
    ensures var m := |parts| - 1; PlainSoFar(parts[m := parts[m] + [c]]) <==> PlainSoFar(parts) && IsAlnum(c)
  {
    var m := |parts| - 1;
    AlnumByLast(parts[m], c);
    var longer, grown := parts + [""], parts[m := parts[m] + [c]];
    assert forall k | 0 <= k < m :: longer[k] == parts[k] && grown[k] == parts[k];
    assert longer[m] == parts[m] && grown[m] == parts[m] + [c];
  }

  lemma AlnumByLast(part: string, c: char)
    ensures AllAlnum(part + [c]) <==> AllAlnum(part) && IsAlnum(c)
  {
    var longer := part + [c];
    assert longer[|part|] == c;
    assert forall i | 0 <= i < |part| :: longer[i] == part[i];
  }

  lemma PiecesPlain(s: string)
    ensures PartsAreAlnum(Split(s)) <==> DashedSoFar(s) && s != "" && s[|s| - 1] != '-'
  {
    SplitSeesDashes(s);
    var parts := Split(s);
    if PartsAreAlnum(parts) {
      assert forall k | 0 <= k < |parts| :: parts[k] in parts;
    }
    if PlainSoFar(parts) && parts[|parts| - 1] != "" {
      assert forall k | 0 <= k < |parts| :: Plain(parts[k]);
    }
  }

  predicate NoUpperCase(s: string) {
    forall i | 0 <= i < |s| :: !('A' <= s[i] <= 'Z')
  }

  lemma LowerHasNoUpperCase(s: string)
    ensures NoUpperCase(Lower(s))
  {}

  lemma LowerCaseFormat(s: string)
    requires NoUpperCase(s)
    ensures LegacyFormat(s) <==> DashedSoFar(s) && s != "" && s[|s| - 1] != '-'
  {
    assert forall i | 0 <= i < |s| :: IsAlnum(s[i]) <==> '0' <= s[i] <= '9' || 'a' <= s[i] <= 'z';
  }

  lemma NothingToTrim(s: string)
    requires s != "" ==> !IsWhitespace(s[0]) && !IsWhitespace(s[|s| - 1])
    ensures Trim(s) == s
  {}

  lemma LowerOfLower(s: string)
    requires NoUpperCase(s)
    ensures Lower(s) == s
  {}

  /** Acceptance, both ways: a trimmed input that is a code stays as it is; otherwise it is accepted exactly when
      its lower-case form has the legacy format and at most 80 characters. */
  lemma AcceptedExactly(typed: string)
    ensures IsCode(Trim(typed)) ==> NormalizeGroupCode(typed) == Some(Trim(typed))
    ensures !IsCode(Trim(typed)) ==> (NormalizeGroupCode(typed) ==
      if LegacyFormat(Lower(Trim(typed))) && |Trim(typed)| <= MAX_LEGACY_LENGTH then Some(Lower(Trim(typed))) else None)
  {
    PiecesPlain(Lower(Trim(typed)));
    LowerHasNoUpperCase(Trim(typed));
    LowerCaseFormat(Lower(Trim(typed)));
  }

  /** What comes out has one of the two stored formats, and every stored code comes out of itself. */
  lemma StoredFormatsAreFixed(code: string)
    ensures (IsCode(code) || (LegacyFormat(code) && |code| <= MAX_LEGACY_LENGTH)) <==>
      NormalizeGroupCode(code) == Some(code)
  {
    if IsCode(code) || LegacyFormat(code) {
      NothingToTrim(code);
      if LegacyFormat(code) { LowerOfLower(code); }
    }
    AcceptedExactly(code);
  }

  lemma NormalisingTwice(typed: string)
    requires NormalizeGroupCode(typed).Some?
    ensures NormalizeGroupCode(NormalizeGroupCode(typed).value) == NormalizeGroupCode(typed)
  {
    AcceptedExactly(typed);
    StoredFormatsAreFixed(NormalizeGroupCode(typed).value);
  }

  // ----- white space around a code -----

  lemma {:induction false} TrimEndOfPadding(s: string, pad: string)
    requires AllIn(pad, Whitespace)
    requires s != "" && !IsWhitespace(s[|s| - 1])
    ensures TrimEnd(s + pad) == s
    decreases |pad|
  {
    if pad == "" {
      assert s + pad == s;
    } else {
      var n := |pad| - 1;
      assert (s + pad)[..|s + pad| - 1] == s + pad[..n];
      TrimEndOfPadding(s, pad[..n]);
    }
  }

  lemma PaddingIsTrimmed(before: string, s: string, after: string)
    requires AllIn(before, Whitespace) && AllIn(after, Whitespace)
    requires s != "" && !IsWhitespace(s[0]) && !IsWhitespace(s[|s| - 1])
    ensures Trim(before + s + after) == s
  {
    assert before + s + after == before + (s + after);
    DropPadding(before, s + after, Whitespace);
    TrimEndOfPadding(s, after);
  }

  /** A generated code, with any white space around it, is understood as itself. */
  lemma GeneratedCodeIsUnderstood(uuid: seq<Byte>, before: string, after: string)
    requires |uuid| == UUID_LENGTH
    requires AllIn(before, Whitespace) && AllIn(after, Whitespace)
    ensures NormalizeGroupCode(before + Encode(Value(uuid, 256)) + after) == Some(Encode(Value(uuid, 256)))
  {
    CodeReadsBack(uuid);
    PaddedCodeIsUnderstood(Encode(Value(uuid, 256)), before, after);
  }

  lemma PaddedCodeIsUnderstood(code: string, before: string, after: string)
    requires IsCode(code) && AllIn(before, Whitespace) && AllIn(after, Whitespace)
    ensures NormalizeGroupCode(before + code + after) == Some(code)
  {
    PaddingIsTrimmed(before, code, after);
    AcceptedExactly(before + code + after);
  }
}
