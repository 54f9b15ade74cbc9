/** Whole documents: which links a document has, what the rewrite leaves alone,
    and that the rewritten document reads back as intended. */
module MarkdownDocuments {
  import opened Options
  import opened Text

  /** `](target)` at the beginning of the text: the length of a nonempty target
      without ')' that a ')' follows. */
  function Match(text: string): (n: Option<nat>)
    ensures n.Some? ==> 0 < n.value && n.value + 3 <= |text|
  {
    if |text| > 2 && text[0] == ']' && text[1] == '(' then
      var n := IndexOf(text[2..], ')');
      if 0 < n < |text| - 2 then Some(n) else None
    else None
  }

  /** The text around the leftmost match. */
  datatype Cut = Uncut | Cut(text: string, raw: string, rest: string)

  function CutAtMatch(text: string): (c: Cut)
    ensures c.Cut? ==> |c.rest| < |text|
  {
    if text == "" then Uncut
    else
      match Match(text)
      case Some(n) => Cut("", text[2..2 + n], text[3 + n..])
      case None =>
        match CutAtMatch(text[1..])
        case Uncut => Uncut
        case Cut(before, raw, rest) => Cut([text[0]] + before, raw, rest)
  }

  /** A document as literal text, a link target, and the rest, or literal text alone. */
  datatype Document = Literal(text: string) | Linked(text: string, raw: string, rest: Document)

  function Read(text: string): Document
    decreases |text|
  {
    match CutAtMatch(text)
    case Uncut => Literal(text)
    case Cut(before, raw, rest) => Linked(before, raw, Read(rest))
  }

  function Wrap(text: string, raw: string, rest: string): string {
    text + ("](" + (raw + (")" + rest)))
  }

  function Print(d: Document): string {
    match d
    case Literal(text) => text
    case Linked(text, raw, rest) => Wrap(text, raw, Print(rest))
  }

  function MapLinks(d: Document, f: string -> string): Document {
    match d
    case Literal(text) => d
    case Linked(text, raw, rest) => Linked(text, f(raw), MapLinks(rest, f))
  }

  /** `MARKDOWN_TARGET.sub(f, text)`, where `f` maps the text between the parentheses. */
  function Substitute(text: string, f: string -> string): string
    decreases |text|
  {
    match CutAtMatch(text)
    case Uncut => text
    case Cut(before, raw, rest) => Wrap(before, f(raw), Substitute(rest, f))
  }

  /** The substitution changes link targets only: literal text and the order of links stay. */
  lemma {:induction false} SubstituteMapsLinks(text: string, f: string -> string)
    ensures Substitute(text, f) == Print(MapLinks(Read(text), f))
    decreases |text|
  {
    if CutAtMatch(text).Cut? {
      SubstituteMapsLinks(CutAtMatch(text).rest, f);
    }
  }

  // -------------------------------------------------------------- reading back

  predicate GoodRaw(raw: string) {
    raw != "" && ')' !in raw
  }

  /** Every target of a document is nonempty and without ')'. */
  predicate GoodLinks(d: Document) {
    match d
    case Literal(_) => true
    case Linked(_, raw, rest) => GoodRaw(raw) && GoodLinks(rest)
  }

  /** Literal text in which no match begins when a link follows it. */
  predicate Quiet(text: string) {
    text != "" ==>
      && Quiet(text[1..])
      && (text[0] == ']' && |text| > 1 && text[1] == '(' ==> |text| > 2 && text[2] == ')')
  }

  predicate Readable(d: Document) {
    match d
    case Literal(text) => CutAtMatch(text).Uncut?
    case Linked(text, raw, rest) => Quiet(text) && Readable(rest)
  }

  lemma FirstClose(raw: string, rest: string)
    requires ')' !in raw
    ensures IndexOf(raw + (")" + rest), ')') == |raw|
  {
    var tail := raw + (")" + rest);
    assert forall k | 0 <= k < |raw| :: tail[k] == raw[k];
    FirstIndex(tail, ')', |raw|);
  }

  lemma MatchBehindBracket(text: string, tail: string)
    requires text == "](" + tail
    ensures Match(text) == var n := IndexOf(tail, ')'); if 0 < n < |tail| then Some(n) else None
  {
    assert text[0] == ']' && text[1] == '(' && text[2..] == tail;
  }

  lemma MatchOfLink(raw: string, rest: string)
    requires GoodRaw(raw)
    ensures Match(Wrap("", raw, rest)) == Some(|raw|)
  {
    var tail := raw + (")" + rest);
    FirstClose(raw, rest);
    assert Wrap("", raw, rest) == "](" + tail;
    MatchBehindBracket(Wrap("", raw, rest), tail);
  }

  lemma SlicesOfThree(a: string, b: string, c: string)
    ensures var s := a + (b + c);
      |s| == |a| + |b| + |c| && s[|a|..|a| + |b|] == b && s[|a| + |b|..] == c
  {
  }

  lemma SlicesOfLink(raw: string, rest: string)
    ensures var whole := Wrap("", raw, rest);
      |whole| == |raw| + |rest| + 3 && whole[2..2 + |raw|] == raw && whole[3 + |raw|..] == rest
  {
    var whole := Wrap("", raw, rest);
    assert whole == "](" + (raw + (")" + rest));
    SlicesOfThree("](", raw, ")" + rest);
    assert whole[2 + |raw|..] == ")" + rest;
    assert whole[3 + |raw|..] == whole[2 + |raw|..][1..] == rest;
  }

  lemma WrapTail(text: string, raw: string, rest: string)
    requires text != ""
    ensures Wrap(text, raw, rest) == [text[0]] + Wrap(text[1..], raw, rest)
    ensures Wrap(text, raw, rest)[1..] == Wrap(text[1..], raw, rest) && [text[0]] + text[1..] == text
  {
    assert text == [text[0]] + text[1..];
    var tail := "](" + (raw + (")" + rest));
    assert text + tail == [text[0]] + (text[1..] + tail);
  }

  lemma {:induction false} CutOfWrapped(text: string, raw: string, rest: string)
    requires Quiet(text) && GoodRaw(raw)
    ensures CutAtMatch(Wrap(text, raw, rest)) == Cut(text, raw, rest)
  {
    var whole := Wrap(text, raw, rest);
    if text == "" {
      MatchOfLink(raw, rest);
      SlicesOfLink(raw, rest);
    } else {
      CutOfWrapped(text[1..], raw, rest);
      WrapTail(text, raw, rest);
      QuietHidesMatch(text, raw, rest);
    }
  }

  lemma QuietHidesMatch(text: string, raw: string, rest: string)
    requires Quiet(text) && text != ""
    ensures Match(Wrap(text, raw, rest)).None?
  {
    var whole := Wrap(text, raw, rest);
    assert whole[0] == text[0];
    assert |text| == 1 ==> whole[1] == ']';
    assert |text| > 1 ==> whole[1] == text[1];
    assert |text| > 2 ==> whole[2] == text[2] && whole[2..][0] == text[2];
  }

  /** A printed document with good targets and quiet literals reads back. */
  lemma {:induction false} PrintedReadsBack(d: Document)
    requires Readable(d) && GoodLinks(d)
    ensures Read(Print(d)) == d
  {
    match d
    case Literal(_) =>
    case Linked(text, raw, rest) =>
      CutOfWrapped(text, raw, Print(rest));
      PrintedReadsBack(rest);
  }

  lemma CutInThree(s: string, i: nat, j: nat)
    requires i <= j <= |s|
    ensures s == s[..i] + (s[i..j] + s[j..])
  {
  }

  lemma CutOne(s: string, i: nat)
    requires i < |s|
    ensures s[i..] == [s[i]] + s[i + 1..]
  {
  }

  lemma RebuildLink(head: string, raw: string, tail: string, rest: string)
    requires head == "](" && tail == [')'] + rest
    ensures head + (raw + tail) == Wrap("", raw, rest)
  {
    assert tail == ")" + rest;
  }

  lemma MatchBounds(text: string)
    requires Match(text).Some?
    ensures var close := 2 + Match(text).value;
      2 < close < |text| && text[..2] == "](" && text[close] == ')' && ')' !in text[2..close]
  {
    var n := Match(text).value;
    var close := 2 + n;
    assert text[2..][..n] == text[2..close];
    assert text[2..][n] == text[close];
  }

  lemma MatchIs(text: string)
    requires Match(text).Some?
    ensures var n := Match(text).value;
      GoodRaw(text[2..2 + n]) && text == Wrap("", text[2..2 + n], text[3 + n..])
  {
    var close := 2 + Match(text).value;
    MatchBounds(text);
    CutInThree(text, 2, close);
    CutOne(text, close);
    RebuildLink(text[..2], text[2..close], text[close..], text[close + 1..]);
  }

  lemma {:induction false} CutIs(text: string)
    requires CutAtMatch(text).Cut?
    ensures var c := CutAtMatch(text);
      Quiet(c.text) && GoodRaw(c.raw) && text == Wrap(c.text, c.raw, c.rest)
  {
    if Match(text).Some? {
      MatchIs(text);
    } else {
      CutIs(text[1..]);
      var c := CutAtMatch(text[1..]);
      var longer := [text[0]] + c.text;
      WrapTail(longer, c.raw, c.rest);
      assert longer[1..] == c.text && text == [text[0]] + text[1..];
      UnmatchedIsQuiet(longer, c.raw, c.rest);
    }
  }

  lemma UnmatchedIsQuiet(text: string, raw: string, rest: string)
    requires text != "" && Quiet(text[1..]) && GoodRaw(raw) && Match(Wrap(text, raw, rest)).None?
    ensures Quiet(text)
  {
    var whole := Wrap(text, raw, rest);
    assert whole[0] == text[0] && (|text| > 1 ==> whole[1] == text[1]);
    if text[0] == ']' && |text| > 1 && text[1] == '(' {
      var tail := whole[2..];
      var q := |text| + |raw|;
      assert tail == text[2..] + ("](" + (raw + (")" + rest)));
      assert tail[q] == ')';
      assert IndexOf(tail, ')') == 0;
      assert tail[0] == if |text| > 2 then text[2] else ']';
    }
  }

  lemma {:induction false} ReadIsReadable(text: string)
    ensures Readable(Read(text)) && GoodLinks(Read(text)) && Print(Read(text)) == text
    decreases |text|
  {
    if CutAtMatch(text).Cut? {
      CutIs(text);
      ReadIsReadable(CutAtMatch(text).rest);
    }
  }

  lemma {:induction false} MapKeepsReadable(d: Document, f: string -> string)
    requires Readable(d)
    ensures Readable(MapLinks(d, f))
  {
    if d.Linked? {
      MapKeepsReadable(d.rest, f);
    }
  }

  /** A printed document reads back exactly when its targets are nonempty and without ')',
      provided its literal text is that of a document that was read. */
  lemma ReadsBackExactlyWhen(d: Document)
    requires Readable(d)
    ensures Read(Print(d)) == d <==> GoodLinks(d)
  {
    ReadIsReadable(Print(d));
    if GoodLinks(d) {
      PrintedReadsBack(d);
    }
  }

  /** Reading the rewritten document finds the same literal text and the rewritten
      targets exactly when no rewritten target is empty or contains ')'. */
  lemma RewrittenDocumentReadsBackExactlyWhen(text: string, f: string -> string)
    ensures Read(Substitute(text, f)) == MapLinks(Read(text), f) <==> GoodLinks(MapLinks(Read(text), f))
  {
    SubstituteMapsLinks(text, f);
    ReadIsReadable(text);
    MapKeepsReadable(Read(text), f);
    ReadsBackExactlyWhen(MapLinks(Read(text), f));
  }
}
