/** The attribute scanner of the link-preview parser, and the scan over the head's `<meta` tags that uses it. */
module LinkAttributes {
  import opened Identifiers
  import opened Text

  type Attributes = map<string, string>

  /** One attribute read from the front of the text, and what is left of it. */
  datatype Read = Read(name: string, value: string, remaining: string)

  /** The value after an equals sign: quoted by either quote, unquoted up to white space. */
  function ReadValue(name: string, text: string): (read: Read)
    ensures |read.remaining| <= |text|
  {
    if text != "" && (text[0] == '"' || text[0] == '\'') then
      var quote, inside := text[0], text[1..];
      var end := FirstIn(inside, Only(quote));
      if end < |inside| then Read(name, inside[..end], inside[end + 1..]) else Read(name, inside, "")
    else
      var end := FirstIn(text, Whitespace);
      Read(name, text[..end], text[end..])
  }

  function ReadAttribute(text: string): Read {
    var nameEnd := FirstIn(text, NameEnd);
    var name := Lower(text[..nameEnd]);
    var after := TrimStart(text[nameEnd..]);
    if after != "" && after[0] == '=' then ReadValue(name, TrimStart(after[1..])) else Read(name, "", after)
  }

  function Insert(attributes: Attributes, name: string, value: string): Attributes {
    if name == "" then attributes else attributes[name := value]
  }

  /** A text that starts with no separator has a name, or starts with an equals sign. */
  lemma NamelessStartsWithEquals(text: string)
    requires text != "" && !In(text[0], Separator)
    ensures FirstIn(text, NameEnd) == 0 ==> TrimStart(text[0..]) == text && text[0] == '='
  {
    DropPadding("", text, Whitespace);
    assert "" + text == text && text[0..] == text;
  }

  /** So whenever no equals sign follows the name, the name is not empty. */
  lemma GuardIsIdle(text: string)
    requires text != "" && !In(text[0], Separator)
    ensures var nameEnd := FirstIn(text, NameEnd);
      TrimStart(text[nameEnd..]) == "" || TrimStart(text[nameEnd..])[0] != '=' ==> nameEnd > 0
  {
    NamelessStartsWithEquals(text);
  }

  lemma ReadingShortens(text: string)
    requires text != "" && !In(text[0], Separator)
    ensures |ReadAttribute(text).remaining| < |text|
  {
    GuardIsIdle(text);
  }

  /** All attributes of a tag, read in order; a later one of the same name replaces an earlier. */
  function Parsed(text: string, attributes: Attributes): Attributes
    decreases |text|, 1
  {
    ParsedFrom(Drop(text, Separator), attributes)
  }

  function ParsedFrom(rest: string, attributes: Attributes): Attributes
    decreases |rest|, 0
  {
    if rest == "" || In(rest[0], Separator) then attributes
    else
      var read := ReadAttribute(rest);
      ReadingShortens(rest);
      Parsed(read.remaining, Insert(attributes, read.name, read.value))
  }

  lemma PaddingIsSkipped(pad: string, text: string, attributes: Attributes)
    requires AllIn(pad, Separator)
    ensures Parsed(pad + text, attributes) == Parsed(text, attributes)
  {
    DropPadding(pad, text, Separator);
  }

  lemma SlashesFirst(tag: string, attributes: Attributes)
    ensures Parsed(Drop(tag, Slash), attributes) == Parsed(tag, attributes)
  {
    var pad := DroppedPart(tag, Slash);
    assert forall i | 0 <= i < |pad| :: In(pad[i], Slash);
    PaddingIsSkipped(pad, Drop(tag, Slash), attributes);
  }

  /** `parse_attributes`: it ends because the rest gets shorter; the guard that skips a character is never needed. */
  method ParseAttributes(tag: string) returns (attributes: Attributes)
    ensures attributes == Parsed(tag, map[])
  {
    attributes := map[];
    var rest := Drop(tag, Slash);
    SlashesFirst(tag, attributes);
    while true
      invariant Parsed(rest, attributes) == Parsed(tag, map[])
      decreases |rest|
    {
      DropStartsOutside(rest, Separator);
      rest := Drop(rest, Separator);
      if rest == "" {
        break;
      }
      ReadingShortens(rest);
      attributes, rest := ParseOne(rest, attributes);
    }
  }

  /** One round of the loop, from the start of a name. */
  method ParseOne(text: string, known: Attributes) returns (attributes: Attributes, rest: string)
    requires text != "" && !In(text[0], Separator)
    ensures rest == ReadAttribute(text).remaining
    ensures attributes == Insert(known, ReadAttribute(text).name, ReadAttribute(text).value)
  {
    var nameEnd := FirstIn(text, NameEnd);
    var name := Lower(text[..nameEnd]);
    rest := TrimStart(text[nameEnd..]);
    if rest == "" || rest[0] != '=' {
      attributes := Insert(known, name, "");
      if nameEnd == 0 {
        GuardIsIdle(text);
        assert false;
      }
      return;
    }
    var read := ReadValue(name, TrimStart(rest[1..]));
    attributes := Insert(known, name, read.value);
    rest := read.remaining;
  }

  // ----- what a writing of attributes means -----

  /** The ways an attribute may be written; a quote that is never closed encloses the rest of the tag. */
  datatype Form =
    | Bare
    | Quoted(quote: char, value: string)
    | Unclosed(quote: char, value: string)
    | Unquoted(value: string)

  /** `gap` separates the attribute from the one before; `left` and `right` surround its equals sign. */
  datatype Written = Written(gap: string, name: string, left: string, right: string, form: Form)

  function Shown(w: Written): string {
    match w.form
    case Bare => w.name
    case Quoted(quote, value) => w.name + (w.left + ("=" + (w.right + ([quote] + (value + [quote])))))
    case Unclosed(quote, value) => w.name + (w.left + ("=" + (w.right + ([quote] + value))))
    case Unquoted(value) => w.name + (w.left + ("=" + (w.right + value)))
  }

  function ValueOf(form: Form): string {
    if form.Bare? then "" else form.value
  }

  /** A value may lack its name, which only a bare name cannot. */
  predicate WellWritten(w: Written) {
    && (w.name == "" ==> w.left == "" && !w.form.Bare?) && NoneIn(w.name, NameEnd)
    && AllIn(w.gap, Separator) && AllIn(w.left, Whitespace) && AllIn(w.right, Whitespace)
    && match w.form
       case Bare => true
       case Quoted(quote, value) => (quote == '"' || quote == '\'') && NoneIn(value, Only(quote))
       case Unclosed(quote, value) => (quote == '"' || quote == '\'') && NoneIn(value, Only(quote))
       case Unquoted(value) =>
         NoneIn(value, Whitespace) && (value != "" ==> value[0] != '"' && value[0] != '\'')
  }

  /** What may follow: white space must end an unquoted value that is not empty, and a bare name needs a separator. */
  predicate MayFollow(form: Form, following: string) {
    following == "" || match form
                       case Bare => In(following[0], Separator) && BareEnds(following)
                       case Quoted(_, _) => true
                       case Unclosed(_, _) => false
                       case Unquoted(value) => value != "" && IsWhitespace(following[0])
  }

  /** After a bare name the next thing that is not white space is no equals sign. */
  predicate BareEnds(following: string) {
    TrimStart(following) == "" || TrimStart(following)[0] != '='
  }

  function ShownAll(ws: seq<Written>, tail: string): string {
    if ws == [] then tail else ws[0].gap + (Shown(ws[0]) + ShownAll(ws[1..], tail))
  }

  predicate AllWellWritten(ws: seq<Written>, tail: string) {
    if ws == [] then AllIn(tail, Separator)
    else WellWritten(ws[0]) && MayFollow(ws[0].form, ShownAll(ws[1..], tail)) && AllWellWritten(ws[1..], tail)
  }

  /** The map that a list of attributes means; a value without a name means nothing. */
  function Meaning(ws: seq<Written>, attributes: Attributes): Attributes {
    if ws == [] then attributes
    else if ws[0].name == "" then Meaning(ws[1..], attributes)
    else Meaning(ws[1..], attributes[Lower(ws[0].name) := ValueOf(ws[0].form)])
  }

  lemma QuotedIsRead(name: string, quote: char, value: string, following: string)
    requires (quote == '"' || quote == '\'') && NoneIn(value, Only(quote))
    ensures ReadValue(name, [quote] + (value + [quote]) + following) == Read(name, value, following)
  {
    var text := [quote] + (value + [quote]) + following;
    var inside := text[1..];
    assert inside == value + ([quote] + following);
    FirstAfter(value, [quote] + following, Only(quote));
  }

  lemma UnclosedIsRead(name: string, quote: char, value: string)
    requires (quote == '"' || quote == '\'') && NoneIn(value, Only(quote))
    ensures ReadValue(name, [quote] + value) == Read(name, value, "")
  {
    assert ([quote] + value)[1..] == value;
    assert value + "" == value;
    FirstAfter(value, "", Only(quote));
  }

  lemma UnquotedIsRead(name: string, value: string, following: string)
    requires (value != "" ==> value[0] != '"' && value[0] != '\'') && NoneIn(value, Whitespace)
    requires following == "" || (value != "" && IsWhitespace(following[0]))
    ensures ReadValue(name, value + following) == Read(name, value, following)
  {
    FirstAfter(value, following, Whitespace);
  }

  lemma NameIsRead(name: string, rest: string)
    requires NoneIn(name, NameEnd) && (rest != "" ==> In(rest[0], NameEnd))
    ensures FirstIn(name + rest, NameEnd) == |name|
    ensures (name + rest)[..|name|] == name && (name + rest)[|name|..] == rest
  {
    FirstAfter(name, rest, NameEnd);
  }

  lemma EqualsIsFound(left: string, right: string, value: string)
    requires AllIn(left, Whitespace) && AllIn(right, Whitespace) && (value != "" ==> !In(value[0], Whitespace))
    ensures var after := TrimStart(left + ("=" + (right + value)));
      after != "" && after[0] == '=' && TrimStart(after[1..]) == value
  {
    var rest := "=" + (right + value);
    DropPadding(left, rest, Whitespace);
    NothingToDrop(rest, Whitespace);
    assert rest[1..] == right + value;
    DropPadding(right, value, Whitespace);
    NothingToDrop(value, Whitespace);
  }

  lemma ValuedIsRead(w: Written, shownValue: string, following: string)
    requires WellWritten(w) && !w.form.Bare?
    requires shownValue + following != "" ==> !In((shownValue + following)[0], Whitespace)
    ensures ReadAttribute(w.name + (w.left + ("=" + (w.right + shownValue))) + following)
            == ReadValue(Lower(w.name), shownValue + following)
  {
    var value := shownValue + following;
    var rest := w.left + ("=" + (w.right + value));
    assert w.name + (w.left + ("=" + (w.right + shownValue))) + following == w.name + rest;
    NameIsRead(w.name, rest);
    EqualsIsFound(w.left, w.right, value);
  }

  lemma AttributeIsRead(w: Written, following: string)
    requires WellWritten(w) && MayFollow(w.form, following)
    ensures var read := ReadAttribute(Shown(w) + following);
      read.name == Lower(w.name) && read.value == ValueOf(w.form)
      && read.remaining == if w.form.Bare? then TrimStart(following) else following
  {
    match w.form
    case Bare =>
      NameIsRead(w.name, following);
    case Quoted(quote, value) =>
      ValuedIsRead(w, [quote] + (value + [quote]), following);
      QuotedIsRead(Lower(w.name), quote, value, following);
    case Unclosed(quote, value) =>
      ValuedIsRead(w, [quote] + value, following);
      assert [quote] + value + following == [quote] + value;
      UnclosedIsRead(Lower(w.name), quote, value);
    case Unquoted(value) =>
      ValuedIsRead(w, value, following);
      UnquotedIsRead(Lower(w.name), value, following);
  }

  lemma TrimmingIsSkipped(text: string, attributes: Attributes)
    ensures Parsed(TrimStart(text), attributes) == Parsed(text, attributes)
  {
    var pad := DroppedPart(text, Whitespace);
    assert forall i | 0 <= i < |pad| :: In(pad[i], Whitespace);
    PaddingIsSkipped(pad, TrimStart(text), attributes);
  }

  lemma GapIsSkipped(gap: string, rest: string, attributes: Attributes)
    requires AllIn(gap, Separator) && rest != "" && !In(rest[0], Separator)
    ensures Parsed(gap + rest, attributes) ==
            Parsed(ReadAttribute(rest).remaining,
              Insert(attributes, ReadAttribute(rest).name, ReadAttribute(rest).value))
  {
    DropPadding(gap, rest, Separator);
  }

  /** Scanning any well-formed writing of attributes gives exactly the map they mean, whatever quotes, white space,
      slashes and letter case are used. */
  lemma {:induction false} WritingIsUnderstood(ws: seq<Written>, tail: string, attributes: Attributes)
    requires AllWellWritten(ws, tail)
    ensures Parsed(ShownAll(ws, tail), attributes) == Meaning(ws, attributes)
    decreases |ws|
  {
    if ws == [] {
      DropPadding(tail, "", Separator);
      assert tail + "" == tail;
    } else {
      var w, following := ws[0], ShownAll(ws[1..], tail);
      var next := Insert(attributes, Lower(w.name), ValueOf(w.form));
      var rest := Shown(w) + following;
      assert rest[0] == if w.name == "" then '=' else w.name[0];
      AttributeIsRead(w, following);
      GapIsSkipped(w.gap, rest, attributes);
      assert Lower(w.name) == "" <==> w.name == "";
      TrimmingIsSkipped(following, next);
      WritingIsUnderstood(ws[1..], tail, next);
    }
  }

  /** The attribute at `i` is the last one of the name. */
  ghost predicate WrittenLast(ws: seq<Written>, i: int, name: string, value: string) {
    && 0 <= i < |ws| && Lower(ws[i].name) == name && ValueOf(ws[i].form) == value
    && forall j | i < j < |ws| :: Lower(ws[j].name) != name
  }

  ghost predicate Has(ws: seq<Written>, name: string, value: string) {
    exists i :: WrittenLast(ws, i, name, value)
  }

  ghost predicate Lacks(ws: seq<Written>, name: string) {
    forall i | 0 <= i < |ws| :: Lower(ws[i].name) != name
  }

  lemma HasByFirst(ws: seq<Written>, name: string, value: string)
    requires ws != []
    ensures Has(ws, name, value) <==>
      Has(ws[1..], name, value)
      || (Lacks(ws[1..], name) && Lower(ws[0].name) == name && ValueOf(ws[0].form) == value)
    ensures Lacks(ws, name) <==> Lacks(ws[1..], name) && Lower(ws[0].name) != name
  {
    var rest := ws[1..];
    if i :| WrittenLast(ws, i, name, value) {
      if i > 0 {
        assert WrittenLast(rest, i - 1, name, value) by {
          forall j | i - 1 < j < |rest| ensures Lower(rest[j].name) != name { assert rest[j] == ws[j + 1]; }
        }
      } else {
        assert forall j | 0 <= j < |rest| :: rest[j] == ws[j + 1];
      }
    }
    if i :| WrittenLast(rest, i, name, value) {
      assert WrittenLast(ws, i + 1, name, value) by {
        forall j | i + 1 < j < |ws| ensures Lower(ws[j].name) != name { assert ws[j] == rest[j - 1]; }
      }
    }
    if Lacks(rest, name) {
      forall j | 0 < j < |ws| ensures Lower(ws[j].name) != name { assert ws[j] == rest[j - 1]; }
      if Lower(ws[0].name) == name && ValueOf(ws[0].form) == value { assert WrittenLast(ws, 0, name, value); }
    }
    if Lacks(ws, name) { assert forall j | 0 <= j < |rest| :: rest[j] == ws[j + 1]; }
  }

  /** A name has the value of its last attribute, and is there exactly when it has one. */
  lemma {:induction false} MeaningIsTheLast(ws: seq<Written>, attributes: Attributes, name: string, value: string)
    requires name != ""
    ensures name in Meaning(ws, attributes) && Meaning(ws, attributes)[name] == value <==>
      Has(ws, name, value) || (Lacks(ws, name) && name in attributes && attributes[name] == value)
    ensures name in Meaning(ws, attributes) <==> !Lacks(ws, name) || name in attributes
    decreases |ws|
  {
    if ws != [] {
      var next := if ws[0].name == "" then attributes else attributes[Lower(ws[0].name) := ValueOf(ws[0].form)];
      HasByFirst(ws, name, value);
      MeaningIsTheLast(ws[1..], next, name, value);
      if Has(ws[1..], name, value) { assert !Lacks(ws[1..], name); }
    }
  }

  /** With distinct lower-case names the map has exactly the listed pairs. */
  lemma {:induction false} MeaningOfDistinctNames(ws: seq<Written>, attributes: Attributes, name: string)
    requires forall i, j | 0 <= i < j < |ws| :: Lower(ws[i].name) != Lower(ws[j].name)
    ensures forall i | 0 <= i < |ws| && Lower(ws[i].name) == name && name != "" ::
      name in Meaning(ws, attributes) && Meaning(ws, attributes)[name] == ValueOf(ws[i].form)
    ensures (forall i | 0 <= i < |ws| :: Lower(ws[i].name) != name) ==>
      (name in Meaning(ws, attributes) <==> name in attributes)
      && (name in attributes ==> Meaning(ws, attributes)[name] == attributes[name])
    decreases |ws|
  {
    if ws != [] {
      var next := if ws[0].name == "" then attributes else attributes[Lower(ws[0].name) := ValueOf(ws[0].form)];
      MeaningOfDistinctNames(ws[1..], next, name);
      assert forall i | 0 < i < |ws| :: ws[1..][i - 1] == ws[i];
    }
  }

  // ----- every text is such a writing -----

  /** The value at the front of a text that starts with no white space, and what follows it. */
  lemma ValueIsWritten(text: string) returns (form: Form, following: string)
    requires text != "" ==> !In(text[0], Whitespace)
    ensures !form.Bare? && MayFollow(form, following) && WellWritten(Written("", "a", "", "", form))
    ensures |following| <= |text|
    ensures text == (match form
                     case Quoted(quote, value) => [quote] + (value + [quote])
                     case Unclosed(quote, value) => [quote] + value
                     case Unquoted(value) => value
                     case Bare => "") + following
  {
    if text != "" && (text[0] == '"' || text[0] == '\'') {
      var quote, inside := text[0], text[1..];
      var end := FirstIn(inside, Only(quote));
      FirstIsFirst(inside, 0, Only(quote));
      if end < |inside| {
        form, following := Quoted(quote, inside[..end]), inside[end + 1..];
        assert inside == inside[..end] + [quote] + following;
      } else {
        form, following := Unclosed(quote, inside), "";
      }
    } else {
      var end := FirstIn(text, Whitespace);
      FirstIsFirst(text, 0, Whitespace);
      form, following := Unquoted(text[..end]), text[end..];
    }
  }

  /** The attribute at the front of a text that starts with no separator, and what follows it. */
  lemma AttributeIsWritten(text: string, gap: string) returns (w: Written, following: string)
    requires text != "" && !In(text[0], Separator) && AllIn(gap, Separator)
    ensures w.gap == gap && WellWritten(w) && MayFollow(w.form, following)
    ensures Shown(w) + following == text && |following| < |text|
  {
    var after := text[FirstIn(text, NameEnd)..];
    if TrimStart(after) == "" || TrimStart(after)[0] != '=' {
      w, following := BareIsWritten(text, gap);
    } else {
      w, following := ValuedIsWritten(text, gap);
    }
  }

  /** The name at the front of a text that starts with no separator. */
  lemma NameIsSplit(text: string) returns (name: string, after: string)
    requires text != "" && !In(text[0], Separator)
    ensures text == name + after && name == text[..FirstIn(text, NameEnd)] && after == text[FirstIn(text, NameEnd)..]
    ensures NoneIn(name, NameEnd) && (after != "" ==> In(after[0], NameEnd))
    ensures name == "" ==> after[0] == '='
  {
    FirstIsFirst(text, 0, NameEnd);
    name, after := text[..FirstIn(text, NameEnd)], text[FirstIn(text, NameEnd)..];
  }

  lemma BareIsWritten(text: string, gap: string) returns (w: Written, following: string)
    requires text != "" && !In(text[0], Separator) && AllIn(gap, Separator)
    requires var after := TrimStart(text[FirstIn(text, NameEnd)..]); after == "" || after[0] != '='
    ensures w.gap == gap && WellWritten(w) && MayFollow(w.form, following)
    ensures Shown(w) + following == text && |following| < |text|
  {
    var name, after := NameIsSplit(text);
    NothingTrimmedBeforeEquals(after);
    w, following := Written(gap, name, "", "", Bare), after;
  }

  lemma ValuedIsWritten(text: string, gap: string) returns (w: Written, following: string)
    requires text != "" && !In(text[0], Separator) && AllIn(gap, Separator)
    requires var after := TrimStart(text[FirstIn(text, NameEnd)..]); after != "" && after[0] == '='
    ensures w.gap == gap && WellWritten(w) && MayFollow(w.form, following)
    ensures Shown(w) + following == text && |following| < |text|
  {
    var name, after := NameIsSplit(text);
    var left, right, value := EqualsIsSplit(after);
    var form;
    form, following := ValueIsWritten(value);
    w := Written(gap, name, left, right, form);
    SameForm(w);
    ShownValue(w, following, value);
    assert |after| == |left| + 1 + |right| + |value|;
  }

  lemma SameForm(w: Written)
    requires WellWritten(Written("", "a", "", "", w.form)) && !w.form.Bare?
    requires NoneIn(w.name, NameEnd) && (w.name == "" ==> w.left == "")
    requires AllIn(w.gap, Separator) && AllIn(w.left, Whitespace) && AllIn(w.right, Whitespace)
    ensures WellWritten(w)
  {}

  /** White space, an equals sign, white space, and a value that starts with none. */
  lemma EqualsIsSplit(after: string) returns (left: string, right: string, value: string)
    requires TrimStart(after) != "" && TrimStart(after)[0] == '='
    ensures AllIn(left, Whitespace) && AllIn(right, Whitespace) && (value != "" ==> !In(value[0], Whitespace))
    ensures after == left + ("=" + (right + value)) && (after[0] == '=' ==> left == "")
  {
    var trimmed := TrimStart(after);
    left := DroppedPart(after, Whitespace);
    right := DroppedPart(trimmed[1..], Whitespace);
    value := TrimStart(trimmed[1..]);
    DropStartsOutside(trimmed[1..], Whitespace);
    assert trimmed == "=" + trimmed[1..];
    if left != "" { assert after[0] == left[0]; }
  }

  lemma NothingTrimmedBeforeEquals(after: string)
    ensures after != "" && after[0] == '=' ==> TrimStart(after) == after
  {
    if after != "" && after[0] == '=' { NothingToDrop(after, Whitespace); }
  }

  lemma ShownValue(w: Written, following: string, value: string)
    requires !w.form.Bare?
    requires value == (match w.form
                       case Quoted(quote, value) => [quote] + (value + [quote])
                       case Unclosed(quote, value) => [quote] + value
                       case Unquoted(value) => value
                       case Bare => "") + following
    ensures Shown(w) + following == w.name + (w.left + ("=" + (w.right + value)))
  {}

  /** Any text whatever is a writing of attributes, so scanning always gives the map that the attributes mean. */
  lemma {:induction false} EveryTextIsWritten(text: string) returns (ws: seq<Written>, tail: string)
    ensures AllWellWritten(ws, tail) && ShownAll(ws, tail) == text
    ensures Parsed(text, map[]) == Meaning(ws, map[])
    decreases |text|
  {
    var gap := DroppedPart(text, Separator);
    var rest := Drop(text, Separator);
    DropStartsOutside(text, Separator);
    if rest == "" {
      ws, tail := [], text;
      assert text == gap;
    } else {
      var w, following := AttributeIsWritten(rest, gap);
      var more;
      more, tail := EveryTextIsWritten(following);
      ws := [w] + more;
      assert ws[1..] == more;
    }
    WritingIsUnderstood(ws, tail, map[]);
  }

  // ----- the scan over the head -----

  const META: string := "<meta"

  predicate OccursAt(s: string, pattern: string, i: int) {
    0 <= i && i + |pattern| <= |s| && s[i..i + |pattern|] == pattern
  }

  /** The first occurrence of the pattern from `from` on. */
  function Find(s: string, pattern: string, from: nat): (at: Option<nat>)
    ensures at.Some? ==> from <= at.value && OccursAt(s, pattern, at.value)
    ensures forall i | from <= i && (at.Some? ==> i < at.value) :: !OccursAt(s, pattern, i)
    decreases |s| - from
  {
    if from + |pattern| > |s| then None
    else if OccursAt(s, pattern, from) then Some(from)
    else Find(s, pattern, from + 1)
  }

  /** The closing bracket of a tag lies after its name, so the tag's text is well defined. */
  lemma BracketAfterName(lower: string, start: nat)
    requires OccursAt(lower, META, start)
    ensures FirstFrom(lower, start, Only('>')) >= start + |META|
  {
    FirstIsFirst(lower, start, Only('>'));
    var end := FirstFrom(lower, start, Only('>'));
    forall i | start <= i < start + |META| ensures lower[i] != '>' {
      assert lower[i] == lower[start..start + |META|][i - start] == META[i - start];
    }
  }

  /** The `<meta` tags from `from` on, in order, as where each starts and where its closing bracket is; the scan
      resumes at the bracket. */
  function Spans(lower: string, from: nat): (spans: seq<(nat, nat)>)
    ensures forall k | 0 <= k < |spans| :: IsTag(lower, spans[k])
    decreases |lower| - from
  {
    match Find(lower, META, from)
    case None => []
    case Some(start) =>
      var end := FirstFrom(lower, start, Only('>'));
      BracketAfterName(lower, start);
      if end == |lower| then [] else [(start, end)] + Spans(lower, end)
  }

  /** A tag starts with its name and goes to the first closing bracket after it. */
  predicate IsTag(lower: string, span: (nat, nat)) {
    && OccursAt(lower, META, span.0) && span.0 + |META| <= span.1 < |lower|
    && span.1 == FirstFrom(lower, span.0, Only('>'))
  }

  /** The texts of the tags. */
  function Tags(head: string, lower: string, from: nat): seq<string>
    requires |head| == |lower|
    decreases |lower| - from
  {
    match Find(lower, META, from)
    case None => []
    case Some(start) =>
      var end := FirstFrom(lower, start, Only('>'));
      BracketAfterName(lower, start);
      if end == |lower| then [] else [head[start + |META|..end]] + Tags(head, lower, end)
  }

  /** They are exactly the texts between each tag's name and its closing bracket. */
  lemma {:induction false} TagsAreTheSpans(head: string, lower: string, from: nat, k: nat)
    requires |head| == |lower|
    ensures |Tags(head, lower, from)| == |Spans(lower, from)|
    ensures k < |Spans(lower, from)| ==> Tags(head, lower, from)[k] == TagText(head, lower, Spans(lower, from)[k])
    decreases |lower| - from
  {
    var found := Find(lower, META, from);
    if found.Some? {
      var end := FirstFrom(lower, found.value, Only('>'));
      BracketAfterName(lower, found.value);
      if end < |lower| { TagsAreTheSpans(head, lower, end, if k == 0 then 0 else k - 1); }
    }
  }

  function TagText(head: string, lower: string, span: (nat, nat)): string
    requires |head| == |lower| && IsTag(lower, span)
  {
    head[span.0 + |META|..span.1]
  }

  /** The scanned tags follow each other without overlapping. */
  lemma {:induction false} SpansFollowEachOther(lower: string, from: nat)
    ensures forall k | 0 <= k < |Spans(lower, from)| :: from <= Spans(lower, from)[k].0
    ensures forall j, k | 0 <= j < k < |Spans(lower, from)| :: Spans(lower, from)[j].1 <= Spans(lower, from)[k].0
    decreases |lower| - from
  {
    var found := Find(lower, META, from);
    if found.Some? {
      var end := FirstFrom(lower, found.value, Only('>'));
      BracketAfterName(lower, found.value);
      if end < |lower| { SpansFollowEachOther(lower, end); }
    }
  }

  ghost predicate Covers(spans: seq<(nat, nat)>, k: int, i: nat) {
    0 <= k < |spans| && spans[k].0 <= i < spans[k].1
  }

  /** Every occurrence of `<meta` with a closing bracket after it is a scanned tag or lies inside an earlier one. */
  lemma {:induction false} EveryTagIsScanned(lower: string, from: nat, i: nat)
    requires from <= i && OccursAt(lower, META, i) && FirstFrom(lower, i, Only('>')) < |lower|
    ensures exists k :: Covers(Spans(lower, from), k, i)
    decreases |lower| - from
  {
    var start := Find(lower, META, from).value;
    var end := FirstFrom(lower, start, Only('>'));
    BracketAfterName(lower, start);
    FirstIsFirst(lower, start, Only('>'));
    FirstIsFirst(lower, i, Only('>'));
    assert end < |lower|;
    if i < end {
      assert Covers(Spans(lower, from), 0, i);
    } else {
      EveryTagIsScanned(lower, end, i);
      var k :| Covers(Spans(lower, end), k, i);
      assert Spans(lower, from)[k + 1] == Spans(lower, end)[k];
      assert Covers(Spans(lower, from), k + 1, i);
    }
  }

  /** The key and content that a tag declares: the key is its `property`, else its `name`, in lower case. */
  function Declares(tag: string): Option<(string, string)> {
    var attributes := Parsed(tag, map[]);
    if "content" !in attributes then None
    else if "property" in attributes then Some((Lower(attributes["property"]), attributes["content"]))
    else if "name" in attributes then Some((Lower(attributes["name"]), attributes["content"]))
    else None
  }

  /** A tag written with these attributes declares a key and content exactly when it has that content, and the key is
      its property, or its name if it has no property. */
  lemma DeclaredExactly(ws: seq<Written>, tail: string, key: string, content: string)
    requires AllWellWritten(ws, tail)
    ensures Declares(ShownAll(ws, tail)) == Some((key, content)) <==>
      Has(ws, "content", content) && exists k :: Lower(k) == key && Keyed(ws, k)
  {
    WritingIsUnderstood(ws, tail, map[]);
    var attributes := Parsed(ShownAll(ws, tail), map[]);
    forall name, value | name != ""
      ensures name in attributes && attributes[name] == value <==> Has(ws, name, value)
      ensures name in attributes <==> !Lacks(ws, name)
    {
      MeaningIsTheLast(ws, map[], name, value);
    }
    if Declares(ShownAll(ws, tail)) == Some((key, content)) {
      var k := if "property" in attributes then attributes["property"] else attributes["name"];
      assert Lower(k) == key && Keyed(ws, k);
    }
  }

  ghost predicate Keyed(ws: seq<Written>, k: string) {
    Has(ws, "property", k) || (Lacks(ws, "property") && Has(ws, "name", k))
  }

  function Metadata(tags: seq<string>, known: map<string, string>): map<string, string> {
    if tags == [] then known
    else
      match Declares(tags[0])
      case Some((key, content)) => Metadata(tags[1..], if key in known then known else known[key := content])
      case None => Metadata(tags[1..], known)
  }

  ghost predicate DeclaredFirst(tags: seq<string>, i: int, key: string, content: string) {
    && 0 <= i < |tags| && Declares(tags[i]) == Some((key, content))
    && forall j | 0 <= j < i :: Declares(tags[j]).Some? ==> Declares(tags[j]).value.0 != key
  }

  /** Each key has the content of the first tag that declares it; no other key is there. */
  lemma {:induction false} FirstDeclarationWins(tags: seq<string>, known: map<string, string>, key: string,
                                                content: string)
    ensures key in known ==> key in Metadata(tags, known) && Metadata(tags, known)[key] == known[key]
    ensures key !in known ==>
      (key in Metadata(tags, known) && Metadata(tags, known)[key] == content <==>
        exists i :: DeclaredFirst(tags, i, key, content))
    decreases |tags|
  {
    if tags != [] {
      var declared := Declares(tags[0]);
      var adds := declared.Some? && declared.value.0 !in known;
      var next := if adds then known[declared.value.0 := declared.value.1] else known;
      FirstDeclarationWins(tags[1..], next, key, content);
      if key !in known {
        if i :| DeclaredFirst(tags, i, key, content) {
          if i > 0 { assert DeclaredFirst(tags[1..], i - 1, key, content); }
        }
        if i :| DeclaredFirst(tags[1..], i, key, content) && key !in next {
          assert DeclaredFirst(tags, i + 1, key, content);
        }
        if declared == Some((key, content)) {
          assert DeclaredFirst(tags, 0, key, content);
        }
      }
    }
  }

  /** The loop of `parse_preview` over the head. */
  method ScanMetadata(head: string) returns (meta: map<string, string>)
    ensures meta == Metadata(Tags(head, Lower(head), 0), map[])
  {
    var lower := Lower(head);
    meta := map[];
    var searchFrom: nat := 0;
    while true
      invariant Metadata(Tags(head, lower, searchFrom), meta) == Metadata(Tags(head, lower, 0), map[])
      decreases |head| - searchFrom
    {
      var found := Find(lower, META, searchFrom);
      if found.None? {
        break;
      }
      var start := found.value;
      var end := FirstFrom(lower, start, Only('>'));
      if end == |lower| {
        break;
      }
      BracketAfterName(lower, start);
      var tag := head[start + |META|..end];
      ghost var rest := Tags(head, lower, end);
      assert ([tag] + rest)[1..] == rest;
      var attributes := ParseAttributes(tag);
      var key := if "property" in attributes then Some(attributes["property"])
                 else if "name" in attributes then Some(attributes["name"]) else None;
      if key.Some? && "content" in attributes && Lower(key.value) !in meta {
        meta := meta[Lower(key.value) := attributes["content"]];
      }
      searchFrom := end;
    }
  }
}
