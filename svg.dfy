/** The attribute helpers of SVGProcessor: reading and writing one attribute
    of the first `<svg` tag by plain string search, without parsing XML. */
module SvgProcessor {
  import opened Wrappers
  import opened JsString

  // ---------------------------------------------------------------------
  // _getAttribute
  // ---------------------------------------------------------------------

  /** The tag `_getAttribute` reads: from the first `<svg` through the first
      `>` after it, with JavaScript's clamping when either is missing. */
  function GetTag(s: string): string
  {
    var svgStart := IndexOf(s, "<svg", 0);
    var svgEnd := IndexOf(s, ">", svgStart) + 1;
    Substring(s, svgStart, svgEnd)
  }

  /** The value of `name` in `tag`: the text between the first pair of
      double quotes after `name=`, else between the first pair of single
      quotes after it, else None. */
  function ValueIn(tag: string, name: string): Option<string>
  {
    var attrStart := IndexOf(tag, name + "=", 0);
    if attrStart == -1 then None
    else
      var quoteStart := IndexOf(tag, "\"", attrStart) + 1;
      var quoteEnd := IndexOf(tag, "\"", quoteStart);
      if quoteStart == 0 || quoteEnd == -1 then
        var singleQuoteStart := IndexOf(tag, "'", attrStart) + 1;
        var singleQuoteEnd := IndexOf(tag, "'", singleQuoteStart);
        if singleQuoteStart == 0 || singleQuoteEnd == -1 then None
        else Some(tag[singleQuoteStart..singleQuoteEnd])
      else Some(tag[quoteStart..quoteEnd])
  }

  /** _getAttribute(svgContent, attributeName); None stands for null. */
  function GetAttribute(s: string, name: string): Option<string>
  {
    ValueIn(GetTag(s), name)
  }

  // ---------------------------------------------------------------------
  // _setAttribute
  // ---------------------------------------------------------------------

  /** A pair of quote positions found by the search encloses a value to
      replace: the opening quote exists and the closing one lies after it
      (or, when empty values are accepted, right at it). */
  predicate Encloses(quoteStart: int, quoteEnd: int, acceptEmpty: bool)
  {
    quoteStart > 0 && (quoteEnd > quoteStart || (acceptEmpty && quoteEnd == quoteStart))
  }

  /** The quoted value after `pattern`, replaced by `value`: double quotes
      first, then single quotes; None when neither pair encloses a value.
      Quote positions that pass the test lie inside the tag, so the
      substring calls are plain slices. */
  function ReplaceValue(tag: string, pattern: string, value: string, acceptEmpty: bool): Option<string>
  {
    var attrStart := IndexOf(tag, pattern, 0);
    var quoteStart := IndexOf(tag, "\"", attrStart) + 1;
    var quoteEnd := IndexOf(tag, "\"", quoteStart);
    if Encloses(quoteStart, quoteEnd, acceptEmpty) then
      Some(tag[..quoteStart] + value + tag[quoteEnd..])
    else
      var singleQuoteStart := IndexOf(tag, "'", attrStart) + 1;
      var singleQuoteEnd := IndexOf(tag, "'", singleQuoteStart);
      if Encloses(singleQuoteStart, singleQuoteEnd, acceptEmpty) then
        Some(tag[..singleQuoteStart] + value + tag[singleQuoteEnd..])
      else None
  }

  /** The attribute written right after `<svg`, in double quotes. */
  function InsertAttribute(tag: string, name: string, value: string): string
  {
    "<svg " + name + "=\"" + value + "\"" + SubstringFrom(tag, 4)
  }

  /** The rewritten tag: the value replaced in place when `name=` is present
      with a quoted value, the attribute inserted otherwise. */
  function NewTag(tag: string, name: string, value: string, acceptEmpty: bool): string
  {
    var pattern := name + "=";
    var replaced := if Includes(tag, pattern) then ReplaceValue(tag, pattern, value, acceptEmpty) else None;
    if replaced.Some? then replaced.value else InsertAttribute(tag, name, value)
  }

  /** _setAttribute with its quote test as a parameter: `acceptEmpty` false
      is the test as written (closing quote strictly after the opening one),
      true the corrected test that also replaces an empty value. Once both
      searches succeed their positions lie inside the content, so each
      substring call is a plain slice. */
  function SetAttributeWith(s: string, name: string, value: string, acceptEmpty: bool): string
  {
    var svgStart := IndexOf(s, "<svg", 0);
    var svgEnd := IndexOf(s, ">", svgStart);
    if svgStart == -1 || svgEnd == -1 then s
    else
      s[..svgStart] + NewTag(s[svgStart..svgEnd + 1], name, value, acceptEmpty) + s[svgEnd + 1..]
  }

  /** _setAttribute(svgContent, attributeName, value), as written. */
  function SetAttribute(s: string, name: string, value: string): string
  {
    SetAttributeWith(s, name, value, false)
  }

  /** _setAttribute with an empty quoted value replaced in place. */
  function SetAttributeCorrected(s: string, name: string, value: string): string
  {
    SetAttributeWith(s, name, value, true)
  }

  // ---------------------------------------------------------------------
  // Vocabulary of the lemmas
  // ---------------------------------------------------------------------

  predicate NoChar(s: string, c: char)
  {
    forall j :: 0 <= j < |s| ==> s[j] != c
  }

  /** A name that cannot be confused with the tag's punctuation. */
  predicate SafeName(name: string)
  {
    NoChar(name, '"') && NoChar(name, '\'') && NoChar(name, '>') && NoChar(name, '=')
  }

  /** A value that neither closes its quotes nor the tag early. */
  predicate SafeValue(value: string)
  {
    NoChar(value, '"') && NoChar(value, '\'') && NoChar(value, '>')
  }

  /** The content has a `<svg` with a `>` after it. */
  predicate HasTag(s: string)
  {
    IndexOf(s, "<svg", 0) != -1 && IndexOf(s, ">", IndexOf(s, "<svg", 0)) != -1
  }

  /** The search for a pair of double quotes from position a fails, as the
      first test of `_getAttribute` and `_setAttribute` sees it. */
  predicate NoDoubleFound(tag: string, a: int)
  {
    var d := IndexOf(tag, "\"", a);
    d == -1 || IndexOf(tag, "\"", d + 1) == -1
  }

  /** Two quote characters `c` at or after position a. */
  predicate QuotePairAfter(tag: string, c: char, a: int)
  {
    exists i, j :: 0 <= i < j < |tag| && a <= i && tag[i] == c && tag[j] == c
  }

  /** A tag as the search delimits it: `<svg` first, its only `>` last. */
  predicate TagShape(t: string)
  {
    |t| >= 5 && t[..4] == "<svg" && t[|t| - 1] == '>' &&
    forall j :: 0 <= j < |t| - 1 ==> t[j] != '>'
  }

  // ---------------------------------------------------------------------
  // Where the tag is
  // ---------------------------------------------------------------------

  /** The first `>` after the first `<svg` lies beyond the `<svg` itself. */
  lemma TagFacts(s: string)
    requires HasTag(s)
    ensures var start := IndexOf(s, "<svg", 0); var end := IndexOf(s, ">", start);
      0 <= start && start + 4 <= end < |s| && s[start..start + 4] == "<svg" && s[end] == '>' &&
      (forall j :: start <= j < end ==> s[j] != '>') &&
      Substring(s, start, end + 1) == s[start..end + 1] && TagShape(s[start..end + 1])
  {
    var start := IndexOf(s, "<svg", 0);
    var end := IndexOf(s, ">", start);
    IndexOfMeaning(s, "<svg", 0);
    IndexOfMeaning(s, ">", start);
    OccursAtChar(s, '>', end);
    forall j | start <= j < end
      ensures s[j] != '>'
    {
      OccursAtChar(s, '>', j);
    }
    assert s[start..start + 4] == "<svg";
    assert s[start] == '<' && s[start + 1] == 's' && s[start + 2] == 'v' && s[start + 3] == 'g';
    assert start + 4 <= end;
    var tag := s[start..end + 1];
    assert tag[..4] == s[start..start + 4];
    assert forall j :: 0 <= j < |tag| - 1 ==> tag[j] == s[start + j];
  }

  /** The tag the search delimits starts with `<svg` and is well-shaped. */
  lemma TagBounds(s: string)
    requires HasTag(s)
    ensures var start := IndexOf(s, "<svg", 0); var end := IndexOf(s, ">", start);
      0 <= start && start + 4 <= end < |s| && s[start..start + 4] == "<svg" &&
      TagShape(s[start..end + 1])
  {
    TagFacts(s);
  }

  /** The tag the search delimits is well-shaped. */
  lemma TagIsShaped(s: string)
    requires HasTag(s)
    ensures var start := IndexOf(s, "<svg", 0); var end := IndexOf(s, ">", start);
      0 <= start <= end < |s| && TagShape(s[start..end + 1])
  {
    TagFacts(s);
  }

  /** With a `<svg` and a later `>`, the tag read is exactly the text from
      the first `<svg` through the first `>` after it. */
  lemma GetTagFirst(s: string)
    requires HasTag(s)
    ensures var start := IndexOf(s, "<svg", 0);
      GetTag(s) == s[start..IndexOf(s, ">", start) + 1]
  {
    TagFacts(s);
  }

  /** With a `<svg` but no `>` after it, the clamped substring is the text
      before the `<svg`. */
  lemma GetTagUnclosed(s: string)
    requires IndexOf(s, "<svg", 0) != -1 && IndexOf(s, ">", IndexOf(s, "<svg", 0)) == -1
    ensures GetTag(s) == s[..IndexOf(s, "<svg", 0)]
  {
  }

  /** Without a `<svg`, the search starts at -1, clamped to 0: the tag is
      everything up to the first `>`, or empty when there is none. */
  lemma GetTagNoSvg(s: string)
    requires IndexOf(s, "<svg", 0) == -1
    ensures GetTag(s) == s[..IndexOf(s, ">", 0) + 1]
  {
  }

  // ---------------------------------------------------------------------
  // What _getAttribute returns
  // ---------------------------------------------------------------------

  /** The search for the closing quote succeeds exactly when two quote
      characters follow position a. */
  lemma PairIff(tag: string, c: char, a: nat)
    requires a <= |tag|
    ensures var quoteStart := IndexOf(tag, [c], a) + 1;
      (quoteStart != 0 && IndexOf(tag, [c], quoteStart) != -1) <==> QuotePairAfter(tag, c, a)
  {
    PairFound(tag, c, a);
    if QuotePairAfter(tag, c, a) {
      PairSearched(tag, c, a);
    }
  }

  /** Two quotes found by the search are a pair after position a. */
  lemma PairFound(tag: string, c: char, a: nat)
    requires a <= |tag|
    ensures var q := IndexOf(tag, [c], a);
      q != -1 && IndexOf(tag, [c], q + 1) != -1 ==> QuotePairAfter(tag, c, a)
  {
    var q := IndexOf(tag, [c], a);
    IndexOfMeaning(tag, [c], a);
    if q != -1 {
      OccursAtChar(tag, c, q);
      var q2 := IndexOf(tag, [c], q + 1);
      IndexOfMeaning(tag, [c], q + 1);
      if q2 != -1 {
        OccursAtChar(tag, c, q2);
        assert a <= q < q2 < |tag| && tag[q] == c && tag[q2] == c;
      }
    }
  }

  /** A pair of quotes after position a is found by the search. */
  lemma PairSearched(tag: string, c: char, a: nat)
    requires a <= |tag| && QuotePairAfter(tag, c, a)
    ensures var q := IndexOf(tag, [c], a); q != -1 && IndexOf(tag, [c], q + 1) != -1
  {
    var i, j :| 0 <= i < j < |tag| && a <= i && tag[i] == c && tag[j] == c;
    OccursAtChar(tag, c, i);
    OccursAtChar(tag, c, j);
    IndexOfMeaning(tag, [c], a);
    var q := IndexOf(tag, [c], a);
    assert q != -1 && q <= i;
    IndexOfMeaning(tag, [c], q + 1);
  }

  /** The text between two quotes found by the search holds no such quote. */
  lemma BetweenQuotes(tag: string, c: char, from: nat)
    requires from <= |tag| && IndexOf(tag, [c], from) != -1
    ensures var q := IndexOf(tag, [c], from);
      q < |tag| && tag[q] == c && NoChar(tag[from..q], c)
  {
    var q := IndexOf(tag, [c], from);
    IndexOfMeaning(tag, [c], from);
    OccursAtChar(tag, c, q);
    forall j | from <= j < q
      ensures tag[j] != c
    {
      OccursAtChar(tag, c, j);
    }
  }

  /** A value is read only where `name=` occurs. */
  lemma ValueInNeedsName(tag: string, name: string)
    ensures ValueIn(tag, name).Some? ==> Includes(tag, name + "=")
  {
  }

  /** With a pair of double quotes after `name=`, the value is the text
      between the first two of them, and holds no double quote. */
  lemma ValueInDoubleQuoted(tag: string, name: string)
    requires Includes(tag, name + "=")
    requires QuotePairAfter(tag, '"', IndexOf(tag, name + "=", 0))
    ensures var q := IndexOf(tag, "\"", IndexOf(tag, name + "=", 0));
      var q2 := IndexOf(tag, "\"", q + 1);
      0 <= q < q2 <= |tag| &&
      ValueIn(tag, name) == Some(tag[q + 1..q2]) && NoChar(tag[q + 1..q2], '"')
  {
    var a := IndexOf(tag, name + "=", 0);
    PairIff(tag, '"', a);
    var q := IndexOf(tag, "\"", a);
    BetweenQuotes(tag, '"', q + 1);
  }

  /** With no pair of double quotes but a pair of single quotes after
      `name=`, the value is the text between the first two single quotes,
      and holds no single quote. */
  lemma ValueInSingleQuoted(tag: string, name: string)
    requires Includes(tag, name + "=")
    requires !QuotePairAfter(tag, '"', IndexOf(tag, name + "=", 0))
    requires QuotePairAfter(tag, '\'', IndexOf(tag, name + "=", 0))
    ensures var q := IndexOf(tag, "'", IndexOf(tag, name + "=", 0));
      var q2 := IndexOf(tag, "'", q + 1);
      0 <= q < q2 <= |tag| &&
      ValueIn(tag, name) == Some(tag[q + 1..q2]) && NoChar(tag[q + 1..q2], '\'')
  {
    var a := IndexOf(tag, name + "=", 0);
    PairIff(tag, '"', a);
    PairIff(tag, '\'', a);
    var q := IndexOf(tag, "'", a);
    BetweenQuotes(tag, '\'', q + 1);
  }

  /** No value exactly when `name=` is missing or is followed by neither a
      pair of double quotes nor a pair of single quotes. */
  lemma ValueInNone(tag: string, name: string)
    ensures ValueIn(tag, name).None? <==>
      !Includes(tag, name + "=") ||
      (!QuotePairAfter(tag, '"', IndexOf(tag, name + "=", 0)) &&
       !QuotePairAfter(tag, '\'', IndexOf(tag, name + "=", 0)))
  {
    var a := IndexOf(tag, name + "=", 0);
    if a != -1 {
      PairIff(tag, '"', a);
      PairIff(tag, '\'', a);
    }
  }

  // ---------------------------------------------------------------------
  // What _setAttribute changes
  // ---------------------------------------------------------------------

  /** Without a `<svg`, or without a `>` after it, nothing changes. */
  lemma SetAttributeNoTag(s: string, name: string, value: string, acceptEmpty: bool)
    requires !HasTag(s)
    ensures SetAttributeWith(s, name, value, acceptEmpty) == s
  {
  }

  /** A quote character searched for after any position of a well-shaped
      tag is found, if at all, beyond the leading `<svg`. */
  lemma QuoteAfterSvg(tag: string, c: char, from: int)
    requires TagShape(tag) && (c == '"' || c == '\'')
    ensures var q := IndexOf(tag, [c], from); q == -1 || (4 <= q < |tag| - 1 && tag[q] == c)
  {
    var q := IndexOf(tag, [c], from);
    IndexOfMeaning(tag, [c], from);
    if q != -1 {
      OccursAtChar(tag, c, q);
    }
  }

  /** The rewritten tag still starts with `<svg`. */
  lemma NewTagStart(tag: string, name: string, value: string, acceptEmpty: bool)
    requires TagShape(tag)
    ensures |NewTag(tag, name, value, acceptEmpty)| >= 4 && NewTag(tag, name, value, acceptEmpty)[..4] == "<svg"
  {
    var pattern := name + "=";
    if Includes(tag, pattern) {
      var a := IndexOf(tag, pattern, 0);
      QuoteAfterSvg(tag, '"', a);
      QuoteAfterSvg(tag, '\'', a);
    }
  }

  /** Only the tag is rewritten: the content keeps its text up to and
      including the `<svg`, and its text after the tag. */
  lemma SetAttributeFrame(s: string, name: string, value: string, acceptEmpty: bool)
    requires HasTag(s)
    ensures var start := IndexOf(s, "<svg", 0); var end := IndexOf(s, ">", start);
      var r := SetAttributeWith(s, name, value, acceptEmpty);
      start <= end < |s| && start + 4 <= |r| && |s| - end - 1 <= |r| &&
      r[..start + 4] == s[..start + 4] && r[|r| - (|s| - end - 1)..] == s[end + 1..]
  {
    TagBounds(s);
    var start := IndexOf(s, "<svg", 0);
    var end := IndexOf(s, ">", start);
    var newTag := NewTag(s[start..end + 1], name, value, acceptEmpty);
    NewTagStart(s[start..end + 1], name, value, acceptEmpty);
    assert SetAttributeWith(s, name, value, acceptEmpty) == s[..start] + newTag + s[end + 1..];
    SpliceFrame(s, start, end, newTag);
  }

  /** Replacing s[start..end + 1] by a text that starts like it. */
  lemma SpliceFrame(s: string, start: nat, end: nat, newTag: string)
    requires start + 4 <= end < |s| && |newTag| >= 4 && newTag[..4] == s[start..start + 4]
    ensures var r := s[..start] + newTag + s[end + 1..];
      start + 4 <= |r| && |s| - end - 1 <= |r| &&
      r[..start + 4] == s[..start + 4] && r[|r| - (|s| - end - 1)..] == s[end + 1..]
  {
    var r := s[..start] + newTag + s[end + 1..];
    assert r[..start + 4] == s[..start] + newTag[..4];
    assert s[..start + 4] == s[..start] + s[start..start + 4];
  }

  /** `name=` cannot start inside the leading `<svg`: the `=` comes after it. */
  lemma NameAfterSvg(tag: string, name: string)
    requires TagShape(tag) && Includes(tag, name + "=")
    ensures 4 <= IndexOf(tag, name + "=", 0) + |name| < |tag|
    ensures tag[IndexOf(tag, name + "=", 0) + |name|] == '='
  {
    var a := IndexOf(tag, name + "=", 0);
    IndexOfMeaning(tag, name + "=", 0);
    assert tag[a..a + |name| + 1][|name|] == '=';
  }

  /** A quote found after `name=`, for a name without quotes, lies beyond
      the `=`, so beyond the leading `<svg`. */
  lemma QuoteAfterName(tag: string, name: string, c: char)
    requires TagShape(tag) && Includes(tag, name + "=") && c != '='
    requires NoChar(name, c)
    ensures var a := IndexOf(tag, name + "=", 0); var q := IndexOf(tag, [c], a);
      q == -1 || (a + |name| + 1 <= q < |tag| && tag[q] == c)
  {
    var a := IndexOf(tag, name + "=", 0);
    var q := IndexOf(tag, [c], a);
    IndexOfMeaning(tag, name + "=", 0);
    IndexOfMeaning(tag, [c], a);
    NameAfterSvg(tag, name);
    if q != -1 {
      OccursAtChar(tag, c, q);
    }
  }

  /** When `name=` is not in the tag, the attribute is inserted right after
      `<svg` and everything else is kept. */
  lemma SetAttributeInsertsWhenAbsent(s: string, name: string, value: string, acceptEmpty: bool)
    requires HasTag(s)
    requires !Includes(s[IndexOf(s, "<svg", 0)..IndexOf(s, ">", IndexOf(s, "<svg", 0)) + 1], name + "=")
    ensures var start := IndexOf(s, "<svg", 0);
      start + 4 <= |s| &&
      SetAttributeWith(s, name, value, acceptEmpty) ==
        s[..start] + "<svg " + name + "=\"" + value + "\"" + s[start + 4..]
  {
    InsertedTail(s, name, value, acceptEmpty);
  }

  /** When `name=` is followed by neither a pair of double quotes nor a pair
      of single quotes (an unterminated value, or none), the attribute is
      inserted right after `<svg`. */
  lemma SetAttributeInsertsWhenUnquoted(s: string, name: string, value: string, acceptEmpty: bool)
    requires HasTag(s)
    requires var tag := s[IndexOf(s, "<svg", 0)..IndexOf(s, ">", IndexOf(s, "<svg", 0)) + 1];
      var a := IndexOf(tag, name + "=", 0);
      !QuotePairAfter(tag, '"', a) && !QuotePairAfter(tag, '\'', a)
    ensures var start := IndexOf(s, "<svg", 0);
      start + 4 <= |s| &&
      SetAttributeWith(s, name, value, acceptEmpty) ==
        s[..start] + "<svg " + name + "=\"" + value + "\"" + s[start + 4..]
  {
    var start := IndexOf(s, "<svg", 0);
    var end := IndexOf(s, ">", start);
    var tag := s[start..end + 1];
    NotReplacedWhenUnquoted(tag, name, value, acceptEmpty);
    TagFacts(s);
    assert SetAttributeWith(s, name, value, acceptEmpty) == s[..start] + NewTag(tag, name, value, acceptEmpty) + s[end + 1..];
    assert SetAttributeWith(s, name, value, acceptEmpty) == s[..start] + InsertAttribute(tag, name, value) + s[end + 1..];
    InsertedTail(s, name, value, acceptEmpty);
  }

  /** Without a pair of either quote after `name=`, nothing is replaced. */
  lemma NotReplacedWhenUnquoted(tag: string, name: string, value: string, acceptEmpty: bool)
    requires var a := IndexOf(tag, name + "=", 0);
      !QuotePairAfter(tag, '"', a) && !QuotePairAfter(tag, '\'', a)
    ensures NewTag(tag, name, value, acceptEmpty) == InsertAttribute(tag, name, value)
  {
    var a := IndexOf(tag, name + "=", 0);
    if a != -1 {
      PairIff(tag, '"', a);
      PairIff(tag, '\'', a);
    }
  }

  /** As written, an empty double-quoted value is not replaced: unless a
      non-empty single-quoted value follows, the attribute is inserted. */
  lemma NotReplacedWhenEmpty(tag: string, name: string, value: string)
    requires Includes(tag, name + "=")
    requires var a := IndexOf(tag, name + "=", 0); var q := IndexOf(tag, "\"", a);
      QuotePairAfter(tag, '"', a) && IndexOf(tag, "\"", q + 1) == q + 1
    requires var a := IndexOf(tag, name + "=", 0); var q := IndexOf(tag, "'", a);
      !QuotePairAfter(tag, '\'', a) || IndexOf(tag, "'", q + 1) == q + 1
    ensures NewTag(tag, name, value, false) == InsertAttribute(tag, name, value)
  {
    var a := IndexOf(tag, name + "=", 0);
    var dq := IndexOf(tag, "\"", a);
    var sq := IndexOf(tag, "'", a);
    PairIff(tag, '\'', a);
    assert !Encloses(dq + 1, IndexOf(tag, "\"", dq + 1), false);
    assert !Encloses(sq + 1, IndexOf(tag, "'", sq + 1), false);
  }

  /** The kept text after an inserted attribute. */
  lemma InsertedTail(s: string, name: string, value: string, acceptEmpty: bool)
    requires HasTag(s)
    ensures var start := IndexOf(s, "<svg", 0); var end := IndexOf(s, ">", start);
      start + 4 <= end < |s| &&
      s[..start] + InsertAttribute(s[start..end + 1], name, value) + s[end + 1..] ==
        s[..start] + "<svg " + name + "=\"" + value + "\"" + s[start + 4..]
  {
    TagFacts(s);
    var start := IndexOf(s, "<svg", 0);
    var end := IndexOf(s, ">", start);
    assert s[start..end + 1][4..] + s[end + 1..] == s[start + 4..];
  }

  /** When `name=` is followed by a pair of double quotes enclosing a value
      the test accepts (a non-empty one, or also an empty one when empty
      values are accepted), exactly the text between them is replaced. */
  lemma NewTagReplacesDoubleQuoted(tag: string, name: string, value: string, acceptEmpty: bool)
    requires Includes(tag, name + "=")
    requires var a := IndexOf(tag, name + "=", 0); var q := IndexOf(tag, "\"", a);
      QuotePairAfter(tag, '"', a) && (acceptEmpty || IndexOf(tag, "\"", q + 1) != q + 1)
    ensures var a := IndexOf(tag, name + "=", 0); var q := IndexOf(tag, "\"", a);
      var q2 := IndexOf(tag, "\"", q + 1);
      0 <= a <= q < q2 < |tag| && NewTag(tag, name, value, acceptEmpty) == tag[..q + 1] + value + tag[q2..]
  {
    var a := IndexOf(tag, name + "=", 0);
    PairIff(tag, '"', a);
    var q := IndexOf(tag, "\"", a);
    assert Encloses(q + 1, IndexOf(tag, "\"", q + 1), acceptEmpty);
  }

  /** When the double-quote test fails (no pair of double quotes after
      `name=`, or, as written, an empty pair) and a pair of single quotes
      encloses a value the test accepts, exactly the text between the
      single quotes is replaced. */
  lemma NewTagReplacesSingleQuoted(tag: string, name: string, value: string, acceptEmpty: bool)
    requires Includes(tag, name + "=")
    requires var a := IndexOf(tag, name + "=", 0); var q := IndexOf(tag, "\"", a);
      !QuotePairAfter(tag, '"', a) || (!acceptEmpty && IndexOf(tag, "\"", q + 1) == q + 1)
    requires var a := IndexOf(tag, name + "=", 0); var q := IndexOf(tag, "'", a);
      QuotePairAfter(tag, '\'', a) && (acceptEmpty || IndexOf(tag, "'", q + 1) != q + 1)
    ensures var a := IndexOf(tag, name + "=", 0); var q := IndexOf(tag, "'", a);
      var q2 := IndexOf(tag, "'", q + 1);
      0 <= a <= q < q2 < |tag| && NewTag(tag, name, value, acceptEmpty) == tag[..q + 1] + value + tag[q2..]
  {
    var a := IndexOf(tag, name + "=", 0);
    PairIff(tag, '"', a);
    PairIff(tag, '\'', a);
    NewTagAtSingle(tag, name, value, acceptEmpty);
  }

  /** The single-quoted replacement, once the quote tests are decided. */
  lemma NewTagAtSingle(tag: string, name: string, value: string, acceptEmpty: bool)
    requires Includes(tag, name + "=")
    requires var a := IndexOf(tag, name + "=", 0); var dq := IndexOf(tag, "\"", a);
      !Encloses(dq + 1, IndexOf(tag, "\"", dq + 1), acceptEmpty)
    requires var a := IndexOf(tag, name + "=", 0); var q := IndexOf(tag, "'", a);
      Encloses(q + 1, IndexOf(tag, "'", q + 1), acceptEmpty)
    ensures var a := IndexOf(tag, name + "=", 0); var q := IndexOf(tag, "'", a);
      var q2 := IndexOf(tag, "'", q + 1);
      0 <= a <= q < q2 < |tag| && NewTag(tag, name, value, acceptEmpty) == tag[..q + 1] + value + tag[q2..]
  {
  }

  // ---------------------------------------------------------------------
  // Read after write
  // ---------------------------------------------------------------------

  /** Reading a content whose tag was replaced by a well-shaped tag reads
      that tag. */
  lemma ReadBack(s: string, newTag: string)
    requires HasTag(s) && TagShape(newTag)
    ensures var start := IndexOf(s, "<svg", 0); var end := IndexOf(s, ">", start);
      start <= end < |s| && GetTag(s[..start] + newTag + s[end + 1..]) == newTag
  {
    TagFacts(s);
    var start := IndexOf(s, "<svg", 0);
    var end := IndexOf(s, ">", start);
    var r := s[..start] + newTag + s[end + 1..];
    SpliceFrame(s, start, end, newTag);
    IndexOfSamePrefix(s, r, "<svg", 0, start + 4);
    var last := start + |newTag| - 1;
    forall j | start <= j < last
      ensures r[j] != '>'
    {
      assert r[j] == newTag[j - start];
    }
    assert r[last] == newTag[|newTag| - 1];
    IndexOfCharAt(r, '>', start, last);
    assert r[start..last + 1] == newTag;
  }

  /** Where the characters of the inserted attribute's tag come from. */
  lemma InsertAt(tag: string, name: string, value: string)
    requires |tag| >= 4
    ensures var t := InsertAttribute(tag, name, value); var n := |name|; var m := |value|;
      |t| == |tag| + n + m + 4 && t[..5] == "<svg " &&
      (forall j :: 5 <= j < 5 + n ==> t[j] == name[j - 5]) &&
      t[5 + n] == '=' && t[6 + n] == '"' &&
      (forall j :: 7 + n <= j < 7 + n + m ==> t[j] == value[j - 7 - n]) &&
      t[7 + n + m] == '"' &&
      (forall j :: 8 + n + m <= j < |t| ==> t[j] == tag[j - 4 - n - m])
  {
    var t := InsertAttribute(tag, name, value);
    assert t == "<svg " + name + "=\"" + value + "\"" + tag[4..];
  }

  /** The inserted attribute keeps the tag well-shaped. */
  lemma InsertedShape(tag: string, name: string, value: string)
    requires TagShape(tag) && SafeName(name) && SafeValue(value)
    ensures TagShape(InsertAttribute(tag, name, value))
  {
    InsertAt(tag, name, value);
    var t := InsertAttribute(tag, name, value);
    assert t[..4] == t[..5][..4];
  }

  /** The inserted attribute reads back as the value. */
  lemma InsertedValue(tag: string, name: string, value: string)
    requires TagShape(tag) && SafeName(name) && SafeValue(value)
    ensures ValueIn(InsertAttribute(tag, name, value), name) == Some(value)
  {
    InsertAt(tag, name, value);
    var t := InsertAttribute(tag, name, value);
    var n := |name|;
    var pattern := name + "=";
    assert t[5..5 + n + 1] == pattern;
    forall j | 0 <= j < 5
      ensures !OccursAt(t, pattern, j)
    {
      if j + n < 5 {
        assert t[j + n] == t[..5][j + n];
      }
      assert pattern[n] == '=';
      OccursAtIndex(t, pattern, j, n);
    }
    IndexOfAt(t, pattern, 0, 5);
    IndexOfCharAt(t, '"', 5, 6 + n);
    IndexOfCharAt(t, '"', 7 + n, 7 + n + |value|);
    assert t[7 + n..7 + n + |value|] == value;
  }

  /** Where the characters of a spliced text come from. */
  lemma SpliceAt(tag: string, q1: nat, q2: nat, value: string)
    requires q1 <= q2 <= |tag|
    ensures var t := tag[..q1] + value + tag[q2..]; var off := q1 + |value|;
      |t| == |tag| - q2 + off && t[..q1] == tag[..q1] && t[q1..off] == value &&
      (forall j :: q1 <= j < off ==> t[j] == value[j - q1]) &&
      (forall j :: off <= j < |t| ==> t[j] == tag[j - off + q2])
  {
  }

  /** Splicing a value without `>` into a well-shaped tag, beyond its
      `<svg` and before its `>`, keeps it well-shaped. */
  lemma SpliceShape(tag: string, q1: nat, q2: nat, value: string)
    requires TagShape(tag) && 4 <= q1 <= q2 < |tag| && NoChar(value, '>')
    ensures TagShape(tag[..q1] + value + tag[q2..])
  {
    SpliceAt(tag, q1, q2, value);
    var t := tag[..q1] + value + tag[q2..];
    assert t[..4] == t[..q1][..4];
    assert tag[..4] == tag[..q1][..4];
  }

  /** The quote characters `c` found after `name=` lie between the `=` and
      the closing `>`. */
  lemma QuotesAfterName(tag: string, name: string, c: char)
    requires TagShape(tag) && SafeName(name) && (c == '"' || c == '\'')
    requires Includes(tag, name + "=")
    requires var q := IndexOf(tag, [c], IndexOf(tag, name + "=", 0)); q != -1 && IndexOf(tag, [c], q + 1) != -1
    ensures var a := IndexOf(tag, name + "=", 0);
      var q := IndexOf(tag, [c], a); var q2 := IndexOf(tag, [c], q + 1);
      0 <= a && a + |name| + 1 <= q && 4 <= q < q2 < |tag| - 1 && tag[q2] == c
  {
    var a := IndexOf(tag, name + "=", 0);
    assert NoChar(name, c);
    NameAfterSvg(tag, name);
    QuoteAfterName(tag, name, c);
    var q := IndexOf(tag, [c], a);
    QuoteAfterSvg(tag, c, q + 1);
  }

  /** Replacing the text between the quote characters `c` found after
      `name=` keeps the tag's shape and where the search finds `name=` and
      the opening quote, and the closing quote now follows the value. */
  lemma SplicedValue(tag: string, name: string, value: string, c: char)
    requires TagShape(tag) && SafeName(name) && SafeValue(value) && (c == '"' || c == '\'')
    requires Includes(tag, name + "=")
    requires var q := IndexOf(tag, [c], IndexOf(tag, name + "=", 0)); q != -1 && IndexOf(tag, [c], q + 1) != -1
    ensures var a := IndexOf(tag, name + "=", 0);
      var q := IndexOf(tag, [c], a); var q2 := IndexOf(tag, [c], q + 1);
      0 <= a < q < q2 < |tag| - 1
    ensures var a := IndexOf(tag, name + "=", 0);
      var q := IndexOf(tag, [c], a); var q2 := IndexOf(tag, [c], q + 1);
      var t := tag[..q + 1] + value + tag[q2..];
      TagShape(t) && IndexOf(t, name + "=", 0) == a && IndexOf(t, [c], a) == q &&
      IndexOf(t, [c], q + 1) == q + 1 + |value|
  {
    QuotesAfterName(tag, name, c);
    var a := IndexOf(tag, name + "=", 0);
    var q := IndexOf(tag, [c], a);
    var q2 := IndexOf(tag, [c], q + 1);
    assert NoChar(value, c);
    SpliceShape(tag, q + 1, q2, value);
    SplicePositions(tag, name + "=", value, c, q2);
  }

  /** The searches of a spliced tag: up to the opening quote the text is
      unchanged, and the closing quote follows the value. */
  lemma SplicePositions(tag: string, pattern: string, value: string, c: char, q2: nat)
    requires IndexOf(tag, pattern, 0) != -1
    requires var a := IndexOf(tag, pattern, 0); var q := IndexOf(tag, [c], a);
      a + |pattern| <= q + 1 && q < q2 < |tag| && tag[q2] == c && q2 == IndexOf(tag, [c], q + 1)
    requires NoChar(value, c)
    ensures var a := IndexOf(tag, pattern, 0); var q := IndexOf(tag, [c], a);
      var t := tag[..q + 1] + value + tag[q2..];
      IndexOf(t, pattern, 0) == a && IndexOf(t, [c], a) == q && IndexOf(t, [c], q + 1) == q + 1 + |value|
  {
    var a := IndexOf(tag, pattern, 0);
    var q := IndexOf(tag, [c], a);
    var t := tag[..q + 1] + value + tag[q2..];
    SpliceAt(tag, q + 1, q2, value);
    IndexOfSamePrefix(tag, t, pattern, 0, q + 1);
    IndexOfSamePrefix(tag, t, [c], a, q + 1);
    IndexOfCharAt(t, c, q + 1, q + 1 + |value|);
  }

  /** Splicing in a value without quote `d` creates no new pair of `d`s. */
  lemma NoPairAfterSplice(tag: string, value: string, d: char, a: nat, q1: nat, q2: nat)
    requires a < q1 <= q2 <= |tag| && NoChar(value, d)
    requires !QuotePairAfter(tag, d, a)
    ensures !QuotePairAfter(tag[..q1] + value + tag[q2..], d, a)
  {
    var t := tag[..q1] + value + tag[q2..];
    if QuotePairAfter(t, d, a) {
      PairBeforeSplice(tag, value, d, a, q1, q2);
    }
  }

  /** A pair of `d`s after a in the spliced text comes from a pair in the
      original one. */
  lemma PairBeforeSplice(tag: string, value: string, d: char, a: nat, q1: nat, q2: nat)
    requires a < q1 <= q2 <= |tag| && NoChar(value, d)
    requires QuotePairAfter(tag[..q1] + value + tag[q2..], d, a)
    ensures QuotePairAfter(tag, d, a)
  {
    var t := tag[..q1] + value + tag[q2..];
    var i, j :| a <= i < j < |t| && t[i] == d && t[j] == d;
    var off := q1 + |value|;
    var i', j' := if i < q1 then i else i - off + q2, if j < q1 then j else j - off + q2;
    assert !(q1 <= i < off) && !(q1 <= j < off);
    assert tag[i'] == t[i] && tag[j'] == t[j];
    assert a <= i' < j' < |tag|;
  }

  /** The value read when the searches for `name=` and for the double quotes
      after it succeed at known positions. */
  lemma ValueInAtDouble(tag: string, name: string, a: nat, q: nat, q2: nat)
    requires IndexOf(tag, name + "=", 0) == a && IndexOf(tag, "\"", a) == q && IndexOf(tag, "\"", q + 1) == q2
    requires q2 <= |tag|
    ensures ValueIn(tag, name) == Some(tag[q + 1..q2])
  {
    var quoteStart := IndexOf(tag, "\"", a) + 1;
    var quoteEnd := IndexOf(tag, "\"", quoteStart);
    assert quoteStart == q + 1 && quoteEnd == q2;
    assert !(quoteStart == 0 || quoteEnd == -1);
  }

  /** The value read when the search for a pair of double quotes after
      `name=` fails and the single quotes are found at known positions. */
  lemma ValueInAtSingle(tag: string, name: string, a: nat, q: nat, q2: nat)
    requires IndexOf(tag, name + "=", 0) == a && NoDoubleFound(tag, a)
    requires IndexOf(tag, "'", a) == q && IndexOf(tag, "'", q + 1) == q2
    requires q2 <= |tag|
    ensures ValueIn(tag, name) == Some(tag[q + 1..q2])
  {
  }

  /** Splicing a value between the double quotes found after `name=`
      reads back as the value. */
  lemma DoubleSpliceRead(tag: string, name: string, value: string)
    requires TagShape(tag) && SafeName(name) && SafeValue(value)
    requires Includes(tag, name + "=")
    requires var q := IndexOf(tag, "\"", IndexOf(tag, name + "=", 0)); q != -1 && IndexOf(tag, "\"", q + 1) != -1
    ensures var q := IndexOf(tag, "\"", IndexOf(tag, name + "=", 0)); var q2 := IndexOf(tag, "\"", q + 1);
      0 <= q < q2 <= |tag| &&
      TagShape(tag[..q + 1] + value + tag[q2..]) &&
      ValueIn(tag[..q + 1] + value + tag[q2..], name) == Some(value)
  {
    SplicedValue(tag, name, value, '"');
    var a := IndexOf(tag, name + "=", 0);
    var q := IndexOf(tag, "\"", a);
    var q2 := IndexOf(tag, "\"", q + 1);
    var t := tag[..q + 1] + value + tag[q2..];
    assert t[q + 1..q + 1 + |value|] == value;
    ValueInAtDouble(t, name, a, q, q + 1 + |value|);
  }

  /** Splicing a value between the single quotes found after `name=`, when
      no pair of double quotes follows it, reads back as the value. */
  lemma SingleSpliceRead(tag: string, name: string, value: string)
    requires TagShape(tag) && SafeName(name) && SafeValue(value)
    requires Includes(tag, name + "=")
    requires NoDoubleFound(tag, IndexOf(tag, name + "=", 0))
    requires var q := IndexOf(tag, "'", IndexOf(tag, name + "=", 0)); q != -1 && IndexOf(tag, "'", q + 1) != -1
    ensures var q := IndexOf(tag, "'", IndexOf(tag, name + "=", 0)); var q2 := IndexOf(tag, "'", q + 1);
      0 <= q < q2 <= |tag| &&
      TagShape(tag[..q + 1] + value + tag[q2..]) &&
      ValueIn(tag[..q + 1] + value + tag[q2..], name) == Some(value)
  {
    var a := IndexOf(tag, name + "=", 0);
    SplicedValue(tag, name, value, '\'');
    var q := IndexOf(tag, "'", a);
    var q2 := IndexOf(tag, "'", q + 1);
    SingleSpliceValue(tag, name, value, a, q, q2);
  }

  /** The value read back from a tag spliced between single quotes at known
      positions, when no pair of double quotes follows `name=`. */
  lemma SingleSpliceValue(tag: string, name: string, value: string, a: nat, q: nat, q2: nat)
    requires SafeValue(value) && a < q < q2 <= |tag| && NoDoubleFound(tag, a)
    requires var t := tag[..q + 1] + value + tag[q2..];
      IndexOf(t, name + "=", 0) == a && IndexOf(t, "'", a) == q && IndexOf(t, "'", q + 1) == q + 1 + |value|
    ensures ValueIn(tag[..q + 1] + value + tag[q2..], name) == Some(value)
  {
    var t := tag[..q + 1] + value + tag[q2..];
    SplicedNoDoublePair(tag, value, a, q + 1, q2);
    assert t[q + 1..q + 1 + |value|] == value;
    ValueInAtSingle(t, name, a, q, q + 1 + |value|);
  }

  /** Splicing a value without double quotes where the search for a pair of
      double quotes after a fails leaves that search failing. */
  lemma SplicedNoDoublePair(tag: string, value: string, a: nat, q1: nat, q2: nat)
    requires a < q1 <= q2 <= |tag| && NoChar(value, '"') && NoDoubleFound(tag, a)
    ensures NoDoubleFound(tag[..q1] + value + tag[q2..], a)
  {
    PairIff(tag, '"', a);
    NoPairAfterSplice(tag, value, '"', a, q1, q2);
    PairIff(tag[..q1] + value + tag[q2..], '"', a);
  }

  /** Replacing a double-quoted value reads back as the value. */
  lemma DoubleQuotedReadBack(tag: string, name: string, value: string)
    requires TagShape(tag) && SafeName(name) && SafeValue(value)
    requires Includes(tag, name + "=") && QuotePairAfter(tag, '"', IndexOf(tag, name + "=", 0))
    ensures TagShape(NewTag(tag, name, value, true))
    ensures ValueIn(NewTag(tag, name, value, true), name) == Some(value)
  {
    PairIff(tag, '"', IndexOf(tag, name + "=", 0));
    NewTagReplacesDoubleQuoted(tag, name, value, true);
    DoubleSpliceRead(tag, name, value);
  }

  /** Replacing a single-quoted value, when no pair of double quotes
      follows `name=`, reads back as the value. */
  lemma SingleQuotedReadBack(tag: string, name: string, value: string)
    requires TagShape(tag) && SafeName(name) && SafeValue(value)
    requires Includes(tag, name + "=")
    requires !QuotePairAfter(tag, '"', IndexOf(tag, name + "=", 0))
    requires QuotePairAfter(tag, '\'', IndexOf(tag, name + "=", 0))
    ensures TagShape(NewTag(tag, name, value, true))
    ensures ValueIn(NewTag(tag, name, value, true), name) == Some(value)
  {
    PairIff(tag, '\'', IndexOf(tag, name + "=", 0));
    NewTagReplacesSingleQuoted(tag, name, value, true);
    PairIff(tag, '"', IndexOf(tag, name + "=", 0));
    SingleSpliceRead(tag, name, value);
  }

  /** With the corrected test the rewritten tag is well-shaped and holds the
      written value, whichever way it was written. */
  lemma NewTagReadBack(tag: string, name: string, value: string)
    requires TagShape(tag) && SafeName(name) && SafeValue(value)
    ensures TagShape(NewTag(tag, name, value, true))
    ensures ValueIn(NewTag(tag, name, value, true), name) == Some(value)
  {
    if !Includes(tag, name + "=") {
      InsertedShape(tag, name, value);
      InsertedValue(tag, name, value);
    } else {
      var a := IndexOf(tag, name + "=", 0);
      if QuotePairAfter(tag, '"', a) {
        DoubleQuotedReadBack(tag, name, value);
      } else if QuotePairAfter(tag, '\'', a) {
        SingleQuotedReadBack(tag, name, value);
      } else {
        NotReplacedWhenUnquoted(tag, name, value, true);
        InsertedShape(tag, name, value);
        InsertedValue(tag, name, value);
      }
    }
  }

  /** With the corrected test, reading an attribute right after writing it
      gives the written value, provided the content has a `<svg … >` tag and
      neither the name nor the value contains the punctuation the search
      relies on. */
  lemma ReadAfterWrite(s: string, name: string, value: string)
    requires HasTag(s) && SafeName(name) && SafeValue(value)
    ensures GetAttribute(SetAttributeCorrected(s, name, value), name) == Some(value)
  {
    TagIsShaped(s);
    var start := IndexOf(s, "<svg", 0);
    var end := IndexOf(s, ">", start);
    var tag := s[start..end + 1];
    var newTag := NewTag(tag, name, value, true);
    NewTagReadBack(tag, name, value);
    ReadBack(s, newTag);
    assert SetAttributeCorrected(s, name, value) == s[..start] + newTag + s[end + 1..];
  }

  // ---------------------------------------------------------------------
  // The empty-value case
  // ---------------------------------------------------------------------

  /** As written, an empty double-quoted value is not replaced: the search
      moves on to the next single-quoted value, so the attribute read back is
      still empty. */
  lemma SetAttributeEmptyValueCounterexample(s: string)
    requires s == "<svg n=\"\" x='a'>"
    ensures SetAttribute(s, "n", "v") == "<svg n=\"\" x='v'>"
    ensures GetAttribute(SetAttribute(s, "n", "v"), "n") == Some("")
  {
    EmptyValueWrite(s);
    EmptyValueRead(SetAttribute(s, "n", "v"));
  }

  /** The write of the counterexample replaces the single-quoted value. */
  lemma EmptyValueWrite(s: string)
    requires s == "<svg n=\"\" x='a'>"
    ensures SetAttribute(s, "n", "v") == "<svg n=\"\" x='v'>"
  {
    EmptyValueFacts(s);
    WholeTag(s, "n", "v", false);
    EmptyValueReplace(s, false);
  }

  /** The read of the counterexample finds the empty double-quoted value. */
  lemma EmptyValueRead(t: string)
    requires t == "<svg n=\"\" x='v'>"
    ensures GetAttribute(t, "n") == Some("")
  {
    EmptyValueFacts(t);
    WholeTag(t, "n", "v", false);
    EmptyValueReadTag(t);
  }

  /** A content that is a single tag is read and written as that tag. */
  lemma WholeTag(s: string, name: string, value: string, acceptEmpty: bool)
    requires |s| > 0 && IndexOf(s, "<svg", 0) == 0 && IndexOf(s, ">", 0) == |s| - 1
    ensures GetTag(s) == s
    ensures SetAttributeWith(s, name, value, acceptEmpty) == NewTag(s, name, value, acceptEmpty)
  {
    assert s[0..|s|] == s;
    assert s[..0] + s[0..|s|] + s[|s|..] == s[0..|s|];
  }

  /** The tag-level rewrite of the counterexample, as written and corrected. */
  lemma EmptyValueReplace(s: string, acceptEmpty: bool)
    requires s == "<svg n=\"\" x='a'>"
    ensures NewTag(s, "n", "v", acceptEmpty) ==
      if acceptEmpty then "<svg n=\"v\" x='a'>" else "<svg n=\"\" x='v'>"
  {
    EmptyValueFacts(s);
    assert "n" + "=" == "n=";
    assert s[..8] + "v" + s[8..] == "<svg n=\"v\" x='a'>";
    assert s[..13] + "v" + s[14..] == "<svg n=\"\" x='v'>";
  }

  /** The tag-level read of the counterexample. */
  lemma EmptyValueReadTag(t: string)
    requires t == "<svg n=\"\" x='v'>"
    ensures ValueIn(t, "n") == Some("")
  {
    EmptyValueFacts(t);
    assert "n" + "=" == "n=";
    assert t[8..8] == "";
  }

  /** Where the searches land in the tags of the counterexample. */
  lemma EmptyValueFacts(s: string)
    requires s == "<svg n=\"\" x='a'>" || s == "<svg n=\"\" x='v'>"
    ensures IndexOf(s, "<svg", 0) == 0 && IndexOf(s, ">", 0) == 15
    ensures IndexOf(s, "n=", 0) == 5 && IndexOf(s, "\"", 5) == 7 && IndexOf(s, "\"", 8) == 8
    ensures IndexOf(s, "'", 5) == 12 && IndexOf(s, "'", 13) == 14
  {
    EmptyValueTagFacts(s);
    EmptyValueNameFacts(s);
    IndexOfCharAt(s, '"', 5, 7);
    IndexOfCharAt(s, '"', 8, 8);
    IndexOfCharAt(s, '\'', 5, 12);
    IndexOfCharAt(s, '\'', 13, 14);
  }

  /** Where the searches for the tag land in the counterexample. */
  lemma EmptyValueTagFacts(s: string)
    requires s == "<svg n=\"\" x='a'>" || s == "<svg n=\"\" x='v'>"
    ensures IndexOf(s, "<svg", 0) == 0 && IndexOf(s, ">", 0) == 15
  {
    assert s[0..4] == "<svg";
    IndexOfAt(s, "<svg", 0, 0);
    IndexOfCharAt(s, '>', 0, 15);
  }

  /** Where the search for `n=` lands in the counterexample. */
  lemma EmptyValueNameFacts(s: string)
    requires s == "<svg n=\"\" x='a'>" || s == "<svg n=\"\" x='v'>"
    ensures IndexOf(s, "n=", 0) == 5
  {
    assert s[5..7] == "n=";
    forall j | 0 <= j < 5
      ensures !OccursAt(s, "n=", j)
    {
      OccursAtIndex(s, "n=", j, 0);
    }
    IndexOfAt(s, "n=", 0, 5);
  }

  /** With the corrected test the empty value is replaced in place. */
  lemma SetAttributeCorrectedEmptyValue(s: string)
    requires s == "<svg n=\"\" x='a'>"
    ensures SetAttributeCorrected(s, "n", "v") == "<svg n=\"v\" x='a'>"
  {
    EmptyValueFacts(s);
    WholeTag(s, "n", "v", true);
    EmptyValueReplace(s, true);
  }

  // ---------------------------------------------------------------------
  // Searches not bounded by the attribute
  // ---------------------------------------------------------------------

  /** The quote searches run from `name=` to the end of the tag, not to the
      end of the attribute: an unquoted value is skipped, and the next
      double-quoted value, which belongs to another attribute, is the one
      read and the one written. */
  lemma UnquotedValueUsesNextAttribute(s: string)
    requires s == "<svg n=1 x=\"a\">"
    ensures GetAttribute(s, "n") == Some("a")
    ensures SetAttribute(s, "n", "v") == "<svg n=1 x=\"v\">"
  {
    UnquotedValueFacts(s);
    WholeTag(s, "n", "v", false);
    assert "n" + "=" == "n=";
    assert s[12..13] == "a";
    assert s[..12] + "v" + s[13..] == "<svg n=1 x=\"v\">";
  }

  /** Where the searches land in `<svg n=1 x="a">`. */
  lemma UnquotedValueFacts(s: string)
    requires s == "<svg n=1 x=\"a\">"
    ensures IndexOf(s, "<svg", 0) == 0 && IndexOf(s, ">", 0) == 14
    ensures IndexOf(s, "n=", 0) == 5 && IndexOf(s, "\"", 5) == 11 && IndexOf(s, "\"", 12) == 13
  {
    assert s[0..4] == "<svg";
    IndexOfAt(s, "<svg", 0, 0);
    IndexOfCharAt(s, '>', 0, 14);
    assert s[5..7] == "n=";
    forall j | 0 <= j < 5
      ensures !OccursAt(s, "n=", j)
    {
      OccursAtIndex(s, "n=", j, 0);
    }
    IndexOfAt(s, "n=", 0, 5);
    IndexOfCharAt(s, '"', 5, 11);
    IndexOfCharAt(s, '"', 12, 13);
  }

  /** `name=` is searched as plain text, so it is also found at the end of
      a longer name: `a=` matches inside `data=`, and the value of `data`
      is read and written as that of `a`. */
  lemma NameMatchesLongerName(s: string)
    requires s == "<svg data=\"1\">"
    ensures GetAttribute(s, "a") == Some("1")
    ensures SetAttribute(s, "a", "2") == "<svg data=\"2\">"
  {
    LongerNameFacts(s);
    WholeTag(s, "a", "2", false);
    assert "a" + "=" == "a=";
    assert s[11..12] == "1";
    assert s[..11] + "2" + s[12..] == "<svg data=\"2\">";
  }

  /** Where the searches land in `<svg data="1">`. */
  lemma LongerNameFacts(s: string)
    requires s == "<svg data=\"1\">"
    ensures IndexOf(s, "<svg", 0) == 0 && IndexOf(s, ">", 0) == 13
    ensures IndexOf(s, "a=", 0) == 8 && IndexOf(s, "\"", 8) == 10 && IndexOf(s, "\"", 11) == 12
  {
    assert s[0..4] == "<svg";
    IndexOfAt(s, "<svg", 0, 0);
    IndexOfCharAt(s, '>', 0, 13);
    assert s[8..10] == "a=";
    forall j | 0 <= j < 8
      ensures !OccursAt(s, "a=", j)
    {
      OccursAtIndex(s, "a=", j, 0);
      OccursAtIndex(s, "a=", j, 1);
    }
    IndexOfAt(s, "a=", 0, 8);
    IndexOfCharAt(s, '"', 8, 10);
    IndexOfCharAt(s, '"', 11, 12);
  }
}
