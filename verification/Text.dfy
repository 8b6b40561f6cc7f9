/** Character classes and searches that the server's text scanners share. */
module Text {
  /** Unicode white space, as `char::is_whitespace` has it. */
  predicate IsWhitespace(c: char) {
    var p := c as int;
    || 0x09 <= p <= 0x0D || p == 0x20 || p == 0x85 || p == 0xA0 || p == 0x1680 || 0x2000 <= p <= 0x200A
    || p == 0x2028 || p == 0x2029 || p == 0x202F || p == 0x205F || p == 0x3000
  }

  /** What the scanners search for: separators are white space and slashes; they and an equals sign end a name. */
  datatype CharClass = Whitespace | Slash | Separator | NameEnd | Only(wanted: char)

  predicate In(c: char, k: CharClass) {
    match k
    case Whitespace => IsWhitespace(c)
    case Slash => c == '/'
    case Separator => c == '/' || IsWhitespace(c)
    case NameEnd => c == '=' || c == '/' || IsWhitespace(c)
    case Only(d) => c == d
  }

  predicate AllIn(s: string, k: CharClass) {
    forall i | 0 <= i < |s| :: In(s[i], k)
  }

  predicate NoneIn(s: string, k: CharClass) {
    forall i | 0 <= i < |s| :: !In(s[i], k)
  }

  /** The first index from `from` on whose character is in the class, or the length. */
  function FirstFrom(s: string, from: nat, k: CharClass): (r: nat)
    requires from <= |s|
    ensures from <= r <= |s|
    decreases |s| - from
  {
    if from == |s| || In(s[from], k) then from else FirstFrom(s, from + 1, k)
  }

  function FirstIn(s: string, k: CharClass): nat {
    FirstFrom(s, 0, k)
  }

  /** The number of leading characters of the class, beyond the first `from`. */
  function LeadingFrom(s: string, from: nat, k: CharClass): (r: nat)
    requires from <= |s|
    ensures from <= r <= |s|
    decreases |s| - from
  {
    if from < |s| && In(s[from], k) then LeadingFrom(s, from + 1, k) else from
  }

  /** `trim_start_matches`: the text without its leading characters of the class. */
  function Drop(s: string, k: CharClass): string {
    s[LeadingFrom(s, 0, k)..]
  }

  function TrimStart(s: string): string {
    Drop(s, Whitespace)
  }

  function LowerChar(c: char): char {
    if 'A' <= c <= 'Z' then c - 'A' + 'a' else c
  }

  /** ASCII lower case. */
  function Lower(s: string): (r: string)
    ensures |r| == |s|
    ensures forall i | 0 <= i < |s| :: r[i] == LowerChar(s[i])
    decreases |s|
  {
    if s == "" then "" else Lower(s[..|s| - 1]) + [LowerChar(s[|s| - 1])]
  }

  lemma {:induction false} FirstIsFirst(s: string, from: nat, k: CharClass)
    requires from <= |s|
    ensures var r := FirstFrom(s, from, k);
      (r < |s| ==> In(s[r], k)) && forall i | from <= i < r :: !In(s[i], k)
    decreases |s| - from
  {
    if from < |s| && !In(s[from], k) { FirstIsFirst(s, from + 1, k); }
  }

  lemma {:induction false} LeadingIsLeading(s: string, from: nat, k: CharClass)
    requires from <= |s|
    ensures var r := LeadingFrom(s, from, k);
      (r < |s| ==> !In(s[r], k)) && forall i | from <= i < r :: In(s[i], k)
    decreases |s| - from
  {
    if from < |s| && In(s[from], k) { LeadingIsLeading(s, from + 1, k); }
  }

  lemma DroppedAtFirst(s: string, k: CharClass, n: nat)
    requires n <= |s| && (forall i | 0 <= i < n :: In(s[i], k)) && (n < |s| ==> !In(s[n], k))
    ensures Drop(s, k) == s[n..]
  {
    LeadingIsLeading(s, 0, k);
  }

  lemma DropStartsOutside(s: string, k: CharClass)
    ensures Drop(s, k) != "" ==> !In(Drop(s, k)[0], k)
  {
    LeadingIsLeading(s, 0, k);
  }

  lemma DroppedPart(s: string, k: CharClass) returns (pad: string)
    ensures AllIn(pad, k) && s == pad + Drop(s, k)
  {
    LeadingIsLeading(s, 0, k);
    pad := s[..LeadingFrom(s, 0, k)];
  }

  lemma DropPadding(pad: string, s: string, k: CharClass)
    requires AllIn(pad, k)
    ensures Drop(pad + s, k) == Drop(s, k)
  {
    LeadingIsLeading(s, 0, k);
    var n := LeadingFrom(s, 0, k);
    forall i | 0 <= i < |pad| + n ensures In((pad + s)[i], k) {
      if i >= |pad| { assert (pad + s)[i] == s[i - |pad|]; }
    }
    DroppedAtFirst(pad + s, k, |pad| + n);
    assert (pad + s)[|pad| + n..] == s[n..];
  }

  lemma NothingToDrop(s: string, k: CharClass)
    requires s != "" ==> !In(s[0], k)
    ensures Drop(s, k) == s
  {
    DroppedAtFirst(s, k, 0);
  }

  /** Where the class first occurs after a text free of it. */
  lemma FirstAfter(before: string, rest: string, k: CharClass)
    requires NoneIn(before, k) && (rest != "" ==> In(rest[0], k))
    ensures FirstIn(before + rest, k) == |before|
  {
    FirstIsFirst(before + rest, 0, k);
    assert forall i | 0 <= i < |before| :: (before + rest)[i] == before[i];
    if rest != "" { assert (before + rest)[|before|] == rest[0]; }
  }
}
