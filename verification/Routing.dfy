/** The route table of the frontend: building and matching paths, percent-encoding
    (section 2.1 of RFC 3986), the base path, and the operations redirect.

    Identifiers are UTF-8 byte strings: every character stands for one byte. */
module Routing {
  import opened Options
  import opened PosixPath

  // ---------------------------------------------------------- percent-encoding

  predicate IsBytes(s: string) {
    forall i | 0 <= i < |s| :: s[i] < '\U{100}'
  }

  /** The characters `encodeURIComponent` leaves alone. */
  predicate Unescaped(c: char) {
    'A' <= c <= 'Z' || 'a' <= c <= 'z' || '0' <= c <= '9' || c in "-_.!~*'()"
  }

  function HexDigit(n: nat): char
    requires n < 16
  {
    "0123456789ABCDEF"[n]
  }

  function HexValue(c: char): Option<nat> {
    if '0' <= c <= '9' then Some((c - '0') as nat)
    else if 'A' <= c <= 'F' then Some((c - 'A') as nat + 10)
    else if 'a' <= c <= 'f' then Some((c - 'a') as nat + 10)
    else None
  }

  function EncodeByte(c: char): string
    requires c < '\U{100}'
  {
    if Unescaped(c) then [c] else ['%', HexDigit(c as nat / 16), HexDigit(c as nat % 16)]
  }

  /** `encodeURIComponent` */
  function Encode(id: string): string
    requires IsBytes(id)
  {
    if id == "" then "" else EncodeByte(id[0]) + Encode(id[1..])
  }

  /** `decodeURIComponent`; `None` is the exception a malformed escape raises. */
  function Decode(s: string): Option<string> {
    if s == "" then Some("")
    else if s[0] != '%' then
      match Decode(s[1..])
      case None => None
      case Some(rest) => Some([s[0]] + rest)
    else if |s| < 3 then None
    else
      match (HexValue(s[1]), HexValue(s[2]), Decode(s[3..]))
      case (Some(hi), Some(lo), Some(rest)) => Some([(16 * hi + lo) as char] + rest)
      case _ => None
  }

  lemma HexReadsBack(n: nat)
    requires n < 16
    ensures HexValue(HexDigit(n)) == Some(n) && HexDigit(n) != '/' && HexDigit(n) != '%' && HexDigit(n) < '\U{100}'
  {
    if n < 10 {
      assert HexDigit(n) == '0' + n as char;
    } else {
      assert HexDigit(n) == 'A' + (n - 10) as char;
    }
  }

  lemma DecodeStep(c: char, rest: string)
    requires c < '\U{100}' && Decode(rest).Some?
    ensures Decode(EncodeByte(c) + rest) == Some([c] + Decode(rest).value)
  {
    var s := EncodeByte(c) + rest;
    if Unescaped(c) {
      assert s[0] == c && s[1..] == rest;
    } else {
      HexReadsBack(c as nat / 16);
      HexReadsBack(c as nat % 16);
      assert s[0] == '%' && s[1] == HexDigit(c as nat / 16) && s[2] == HexDigit(c as nat % 16) && s[3..] == rest;
      assert (16 * (c as nat / 16) + c as nat % 16) as char == c;
    }
  }

  /** Decoding inverts encoding, and an encoded identifier is one path segment. */
  lemma {:induction false} EncodedReadsBack(id: string)
    requires IsBytes(id)
    ensures Decode(Encode(id)) == Some(id)
    ensures '/' !in Encode(id) && (id != "" ==> Encode(id) != "")
  {
    if id != "" {
      assert id == [id[0]] + id[1..];
      EncodedReadsBack(id[1..]);
      DecodeStep(id[0], Encode(id[1..]));
      HexReadsBack(id[0] as nat / 16);
      HexReadsBack(id[0] as nat % 16);
      assert '/' !in EncodeByte(id[0]);
    }
  }

  lemma {:induction false} DecodedIsBytes(s: string)
    requires IsBytes(s) && Decode(s).Some?
    ensures IsBytes(Decode(s).value) && (s != "" ==> Decode(s).value != "")
    decreases |s|
  {
    if s != "" {
      if s[0] != '%' {
        assert s == [s[0]] + s[1..];
        DecodedIsBytes(s[1..]);
      } else {
        assert forall c | c in s[3..] :: c in s;
        DecodedIsBytes(s[3..]);
      }
    }
  }

  const UPPER_HEX := "0123456789ABCDEF"
  const LOWER_HEX := "0123456789abcdef"

  /** A character that stands for the number, in either case. */
  predicate HexOf(c: char, n: nat)
    requires n < 16
  {
    c == UPPER_HEX[n] || c == LOWER_HEX[n]
  }

  lemma HexValueIs(c: char, n: nat)
    requires n < 16
    ensures HexValue(c) == Some(n) <==> HexOf(c, n)
  {
    if n < 10 {
      assert UPPER_HEX[n] == LOWER_HEX[n] == '0' + n as char;
    } else {
      assert UPPER_HEX[n] == 'A' + (n - 10) as char && LOWER_HEX[n] == 'a' + (n - 10) as char;
    }
  }

  /** An escape stands for the byte its two digits spell, in either case. */
  lemma EscapeSpellsByte(a: char, b: char, high: nat, low: nat, rest: string)
    requires high < 16 && low < 16 && HexOf(a, high) && HexOf(b, low) && Decode(rest).Some?
    ensures Decode("%" + [a, b] + rest) == Some([(16 * high + low) as char] + Decode(rest).value)
  {
    HexValueIs(a, high);
    HexValueIs(b, low);
    var s := "%" + [a, b] + rest;
    assert s[0] == '%' && s[1] == a && s[2] == b && s[3..] == rest;
  }

  /** A character that an encoded id may have. */
  predicate EncodedChar(c: char) {
    'A' <= c <= 'Z' || 'a' <= c <= 'z' || '0' <= c <= '9' || c in "-_.!~*'()%"
  }

  lemma MarksStandApart()
    ensures !EncodedChar('?') && !EncodedChar('#') && !EncodedChar(' ') && !EncodedChar('/')
  {
  }

  lemma EncodedByteIsPlain(b: char)
    requires b < '\U{100}'
    ensures forall c | c in EncodeByte(b) :: EncodedChar(c)
  {
    HexDigitIsPlain(b as nat / 16);
    HexDigitIsPlain(b as nat % 16);
  }

  /** An encoded id has letters, digits, a few marks and '%' only, so that no '?', '#' or
      space ends it early. */
  lemma {:induction false} EncodedIsPlain(id: string)
    requires IsBytes(id)
    ensures forall c | c in Encode(id) :: EncodedChar(c)
    ensures '?' !in Encode(id) && '#' !in Encode(id) && ' ' !in Encode(id)
  {
    MarksStandApart();
    if id != "" {
      EncodedIsPlain(id[1..]);
      EncodedByteIsPlain(id[0]);
    }
  }

  lemma HexDigitIsPlain(n: nat)
    requires n < 16
    ensures 'A' <= HexDigit(n) <= 'Z' || '0' <= HexDigit(n) <= '9'
  {
    if n < 10 {
      assert HexDigit(n) == '0' + n as char;
    } else {
      assert HexDigit(n) == 'A' + (n - 10) as char;
    }
  }

  /** An id of such letters, digits and marks stands for itself. */
  lemma {:induction false} PlainIdIsKept(id: string)
    requires IsBytes(id)
    requires forall c | c in id :: 'A' <= c <= 'Z' || 'a' <= c <= 'z' || '0' <= c <= '9' || c in "-_.!~*'()"
    ensures Encode(id) == id
  {
    if id != "" {
      assert id == [id[0]] + id[1..];
      PlainIdIsKept(id[1..]);
    }
  }

  /** Every other byte is written as an escape in upper case. */
  lemma OthersAreEscaped(b: char)
    requires b < '\U{100}' && !('A' <= b <= 'Z' || 'a' <= b <= 'z' || '0' <= b <= '9' || b in "-_.!~*'()")
    ensures Encode([b]) == "%" + [UPPER_HEX[b as nat / 16], UPPER_HEX[b as nat % 16]]
  {
    assert [b][1..] == "";
  }

  // ------------------------------------------------------------------- routes

  /** One shape per route; the operations route has two, with and without a surface. */
  datatype Shape =
    | Analysis | Dashboard | Home | Datasets | Blueprint | BlueprintV2 | BlueprintV4 | Comparison
    | Operations | OperationsSurface
    | Agent | Ontology | Governance | Modeling

  /** A segment of a route: fixed text, or a parameter. */
  datatype Segment = Fixed(text: string) | Parameter

  function Pattern(shape: Shape): seq<Segment> {
    if shape == Analysis then [Fixed(""), Fixed("app"), Fixed("analysis"), Parameter] else Project(Tail(shape))
  }

  function Project(tail: seq<Segment>): seq<Segment> {
    [Fixed(""), Fixed("app"), Fixed("projects"), Parameter] + tail
  }

  function Arity(pattern: seq<Segment>): nat {
    if pattern == [] then 0 else (if pattern[0].Parameter? then 1 else 0) + Arity(pattern[1..])
  }

  predicate Ids(ids: seq<string>) {
    forall i | 0 <= i < |ids| :: ids[i] != "" && IsBytes(ids[i])
  }

  /** The number of ids in a path. */
  function Count(shape: Shape): nat {
    if shape in {OperationsSurface, Agent, Ontology, Governance, Modeling} then 2 else 1
  }

  /** The template string of a builder, with the texts put in for its expressions. */
  function Template(shape: Shape, texts: seq<string>): string
    requires |texts| == Count(shape)
  {
    match shape
    case Analysis => "/app/analysis/" + texts[0]
    case Dashboard => "/app/projects/" + texts[0]
    case Home => "/app/projects/" + texts[0] + "/home"
    case Datasets => "/app/projects/" + texts[0] + "/datasets"
    case Blueprint => "/app/projects/" + texts[0] + "/blueprint"
    case BlueprintV2 => "/app/projects/" + texts[0] + "/blueprint-v2"
    case BlueprintV4 => "/app/projects/" + texts[0] + "/blueprint-v4"
    case Comparison => "/app/projects/" + texts[0] + "/blueprint-compare"
    case Operations => "/app/projects/" + texts[0] + "/operations"
    case OperationsSurface => "/app/projects/" + texts[0] + "/operations/" + texts[1]
    case Agent => "/app/projects/" + texts[0] + "/workspaces/" + texts[1] + "/agent"
    case Ontology => "/app/projects/" + texts[0] + "/workspaces/" + texts[1] + "/ontology"
    case Governance => "/app/projects/" + texts[0] + "/workspaces/" + texts[1] + "/governance"
    case Modeling => "/app/projects/" + texts[0] + "/workspaces/" + texts[1] + "/modeling"
  }

  function Encoded(ids: seq<string>): (texts: seq<string>)
    requires Ids(ids)
    ensures |texts| == |ids|
  {
    seq(|ids|, i requires 0 <= i < |ids| => Encode(ids[i]))
  }

  /** The path a builder prints. */
  function Build(shape: Shape, ids: seq<string>): string
    requires |ids| == Count(shape) && Ids(ids)
  {
    Template(shape, Encoded(ids))
  }

  /** A pattern with texts in the place of its parameters. */
  function Fill(pattern: seq<Segment>, texts: seq<string>): seq<string>
    requires |texts| == Arity(pattern)
  {
    if pattern == [] then []
    else
      match pattern[0]
      case Fixed(text) => [text] + Fill(pattern[1..], texts)
      case Parameter => [texts[0]] + Fill(pattern[1..], texts[1..])
  }

  /** Whether a pathname has the form a matcher's regular expression asks for. */
  predicate Fits(pattern: seq<Segment>, segments: seq<string>) {
    && |pattern| == |segments|
    && forall i | 0 <= i < |pattern| ::
         match pattern[i] case Fixed(text) => segments[i] == text case Parameter => segments[i] != ""
  }

  /** The parameters, decoded; `None` if one is malformed. */
  function Parameters(pattern: seq<Segment>, segments: seq<string>): Option<seq<string>>
    requires |pattern| == |segments|
  {
    if pattern == [] then Some([])
    else
      match Parameters(pattern[1..], segments[1..])
      case None => None
      case Some(rest) =>
        match pattern[0]
        case Fixed(_) => Some(rest)
        case Parameter =>
          match Decode(segments[0])
          case None => None
          case Some(id) => Some([id] + rest)
  }

  /** What a matcher returns: null, an exception, or the identifiers. */
  datatype Matching = NoMatch | Malformed | Matched(ids: seq<string>)

  function Match(shape: Shape, pathname: string): Matching {
    var segments := Split(pathname);
    if !Fits(Pattern(shape), segments) then NoMatch
    else
      match Parameters(Pattern(shape), segments)
      case None => Malformed
      case Some(ids) => Matched(ids)
  }

  lemma EncodedTail(ids: seq<string>)
    requires Ids(ids) && ids != []
    ensures Encoded(ids)[0] == Encode(ids[0]) && Encoded(ids)[1..] == Encoded(ids[1..])
  {
  }

  lemma {:induction false} FilledFits(pattern: seq<Segment>, ids: seq<string>)
    requires |ids| == Arity(pattern) && Ids(ids)
    requires WordsOnly(pattern)
    ensures var segments := Fill(pattern, Encoded(ids));
      && Fits(pattern, segments) && Parameters(pattern, segments) == Some(ids)
      && forall i | 0 <= i < |segments| :: OneSegment(segments[i])
  {
    if pattern != [] {
      if pattern[0].Parameter? {
        EncodedReadsBack(ids[0]);
        EncodedIsBytes(ids[0]);
        EncodedTail(ids);
        FilledFits(pattern[1..], ids[1..]);
        assert ids == [ids[0]] + ids[1..];
      } else {
        FilledFits(pattern[1..], ids);
      }
      var segments := Fill(pattern, Encoded(ids));
      forall i | 0 <= i < |pattern|
        ensures match pattern[i] case Fixed(text) => segments[i] == text case Parameter => segments[i] != ""
      {
        if i > 0 {
          assert pattern[i] == pattern[1..][i - 1] && segments[i] == segments[1..][i - 1];
        }
      }
    }
  }

  /** Text that can stand in a path as one segment. */
  predicate OneSegment(s: string) {
    IsBytes(s) && '/' !in s
  }

  /** A segment of letters, digits and hyphens, as the fixed ones are. */
  predicate Word(s: string) {
    OneSegment(s) && '.' !in s && '%' !in s
  }

  lemma PrefixWords()
    ensures Word("") && Word("app") && Word("analysis") && Word("projects") && Word("workspaces")
  {
  }

  lemma PageWords()
    ensures Word("home") && Word("datasets") && Word("operations")
  {
  }

  lemma BlueprintWords()
    ensures Word("blueprint") && Word("blueprint-v2") && Word("blueprint-v4") && Word("blueprint-compare")
  {
  }

  lemma WorkbenchWords()
    ensures Word("agent") && Word("ontology") && Word("governance") && Word("modeling")
  {
  }

  predicate WordsOnly(pattern: seq<Segment>) {
    forall i | 0 <= i < |pattern| :: pattern[i].Fixed? ==> Word(pattern[i].text)
  }

  lemma ProjectWordsOnly(tail: seq<Segment>)
    requires WordsOnly(tail)
    ensures WordsOnly(Project(tail))
  {
    PrefixWords();
    var p := Project(tail);
    assert forall i | 4 <= i < |p| :: p[i] == tail[i - 4];
  }

  function Tail(shape: Shape): seq<Segment> {
    match shape
    case Analysis => []
    case Dashboard => []
    case Home => [Fixed("home")]
    case Datasets => [Fixed("datasets")]
    case Blueprint => [Fixed("blueprint")]
    case BlueprintV2 => [Fixed("blueprint-v2")]
    case BlueprintV4 => [Fixed("blueprint-v4")]
    case Comparison => [Fixed("blueprint-compare")]
    case Operations => [Fixed("operations")]
    case OperationsSurface => [Fixed("operations"), Parameter]
    case Agent => [Fixed("workspaces"), Parameter, Fixed("agent")]
    case Ontology => [Fixed("workspaces"), Parameter, Fixed("ontology")]
    case Governance => [Fixed("workspaces"), Parameter, Fixed("governance")]
    case Modeling => [Fixed("workspaces"), Parameter, Fixed("modeling")]
  }

  lemma PatternsAreSegments(shape: Shape)
    ensures WordsOnly(Pattern(shape))
    ensures |Pattern(shape)| >= 4 && Pattern(shape)[0] == Fixed("") && Pattern(shape)[1] == Fixed("app")
  {
    PrefixWords();
    PageWords();
    BlueprintWords();
    WorkbenchWords();
    assert WordsOnly(Tail(shape));
    ProjectWordsOnly(Tail(shape));
  }

  lemma FilledFixed(text: string, rest: seq<Segment>, texts: seq<string>)
    requires |texts| == Arity([Fixed(text)] + rest)
    ensures |texts| == Arity(rest) && Fill([Fixed(text)] + rest, texts) == [text] + Fill(rest, texts)
  {
    assert ([Fixed(text)] + rest)[1..] == rest;
  }

  lemma FilledParameter(rest: seq<Segment>, texts: seq<string>)
    requires |texts| == Arity([Parameter] + rest)
    ensures |texts| == 1 + Arity(rest) && Fill([Parameter] + rest, texts) == [texts[0]] + Fill(rest, texts[1..])
  {
    assert ([Parameter] + rest)[1..] == rest;
  }

  lemma FourInFront(a: string, b: string, c: string, d: string, rest: seq<string>)
    ensures [a] + ([b] + ([c] + ([d] + rest))) == [a, b] + ([c, d] + rest)
  {
  }

  lemma ProjectUnfolds(tail: seq<Segment>)
    ensures Project(tail) == [Fixed("")] + ([Fixed("app")] + ([Fixed("projects")] + ([Parameter] + tail)))
  {
  }

  lemma ProjectArity(tail: seq<Segment>)
    ensures Arity(Project(tail)) == 1 + Arity(tail)
  {
    ProjectUnfolds(tail);
    ArityOfNext(Fixed(""), [Fixed("app")] + ([Fixed("projects")] + ([Parameter] + tail)));
    ArityOfNext(Fixed("app"), [Fixed("projects")] + ([Parameter] + tail));
    ArityOfNext(Fixed("projects"), [Parameter] + tail);
    ArityOfNext(Parameter, tail);
  }

  lemma ArityOfNext(first: Segment, rest: seq<Segment>)
    ensures Arity([first] + rest) == (if first.Parameter? then 1 else 0) + Arity(rest)
  {
    assert ([first] + rest)[1..] == rest;
  }

  lemma FilledProject(tail: seq<Segment>, texts: seq<string>)
    requires |texts| == Arity(Project(tail))
    ensures |texts| == 1 + Arity(tail)
    ensures Fill(Project(tail), texts) == ["", "app"] + (["projects", texts[0]] + Fill(tail, texts[1..]))
  {
    ProjectUnfolds(tail);
    FilledFixed("", [Fixed("app")] + ([Fixed("projects")] + ([Parameter] + tail)), texts);
    FilledFixed("app", [Fixed("projects")] + ([Parameter] + tail), texts);
    FilledFixed("projects", [Parameter] + tail, texts);
    FilledParameter(tail, texts);
    FourInFront("", "app", "projects", texts[0], Fill(tail, texts[1..]));
  }

  /** How a path of a project is joined. */
  lemma JoinedProject(project: string, rest: seq<string>)
    ensures Join(["", "app"] + (["projects", project] + rest))
         == "/app/projects/" + project + (if rest == [] then "" else "/" + Join(rest))
  {
    var tail := ["projects", project] + rest;
    assert (["", "app"] + tail)[1..] == ["app"] + tail && (["app"] + tail)[1..] == tail;
    assert tail[1..] == [project] + rest && ([project] + rest)[1..] == rest;
    assert Join([project] + rest) == project + (if rest == [] then "" else "/" + Join(rest));
    assert Join(tail) == "projects" + "/" + Join([project] + rest);
    assert Join(["app"] + tail) == "app" + "/" + Join(tail);
    assert Join(["", "app"] + tail) == "" + "/" + Join(["app"] + tail);
    assert "" + "/" + ("app" + "/" + ("projects" + "/" + Join([project] + rest)))
        == "/app/projects/" + Join([project] + rest);
  }

  lemma FilledOne(text: string)
    ensures Arity([Fixed(text)]) == 0 && Fill([Fixed(text)], []) == [text] && Join([text]) == text
  {
    ArityOfNext(Fixed(text), []);
    assert [Fixed(text)] + [] == [Fixed(text)];
    FilledFixed(text, [], []);
  }

  lemma FilledSurface(texts: seq<string>)
    requires |texts| == 1
    ensures Arity([Fixed("operations"), Parameter]) == 1
    ensures Fill([Fixed("operations"), Parameter], texts) == ["operations", texts[0]]
    ensures Join(["operations", texts[0]]) == "operations" + "/" + texts[0]
  {
    assert [Fixed("operations")] + [Parameter] == [Fixed("operations"), Parameter] && [Parameter] + [] == [Parameter];
    ArityOfNext(Fixed("operations"), [Parameter]);
    ArityOfNext(Parameter, []);
    FilledFixed("operations", [Parameter], texts);
    FilledParameter([], texts);
    assert ["operations", texts[0]][1..] == [texts[0]];
  }

  lemma FilledWorkspace(page: string, texts: seq<string>)
    requires |texts| == 1
    ensures Arity([Fixed("workspaces"), Parameter, Fixed(page)]) == 1
    ensures Fill([Fixed("workspaces"), Parameter, Fixed(page)], texts) == ["workspaces", texts[0], page]
    ensures Join(["workspaces", texts[0], page]) == "workspaces" + "/" + (texts[0] + "/" + page)
  {
    assert [Fixed("workspaces")] + [Parameter, Fixed(page)] == [Fixed("workspaces"), Parameter, Fixed(page)];
    assert [Parameter] + [Fixed(page)] == [Parameter, Fixed(page)];
    ArityOfNext(Fixed("workspaces"), [Parameter, Fixed(page)]);
    ArityOfNext(Parameter, [Fixed(page)]);
    FilledOne(page);
    FilledFixed("workspaces", [Parameter, Fixed(page)], texts);
    FilledParameter([Fixed(page)], texts);
    assert texts[1..] == [];
    assert ["workspaces", texts[0], page][1..] == [texts[0], page] && [texts[0], page][1..] == [page];
  }

  lemma WorkspacePath(project: string, workspace: string, page: string)
    ensures "/app/projects/" + project + ("/" + ("workspaces" + "/" + (workspace + "/" + page)))
         == "/app/projects/" + project + "/workspaces/" + workspace + ("/" + page)
  {
    assert "/" + "workspaces" + "/" == "/workspaces/";
    assert "/" + ("workspaces" + "/" + (workspace + "/" + page)) == "/workspaces/" + workspace + ("/" + page);
  }

  /** What follows the project in a template. */
  function Rest(shape: Shape, texts: seq<string>): seq<string>
    requires |texts| == Count(shape)
  {
    match shape
    case Analysis => []
    case Dashboard => []
    case Home => ["home"]
    case Datasets => ["datasets"]
    case Blueprint => ["blueprint"]
    case BlueprintV2 => ["blueprint-v2"]
    case BlueprintV4 => ["blueprint-v4"]
    case Comparison => ["blueprint-compare"]
    case Operations => ["operations"]
    case OperationsSurface => ["operations", texts[1]]
    case Agent => ["workspaces", texts[1], "agent"]
    case Ontology => ["workspaces", texts[1], "ontology"]
    case Governance => ["workspaces", texts[1], "governance"]
    case Modeling => ["workspaces", texts[1], "modeling"]
  }

  lemma FilledTail(shape: Shape, texts: seq<string>)
    requires |texts| == Count(shape)
    ensures Arity(Tail(shape)) == Count(shape) - 1 && Fill(Tail(shape), texts[1..]) == Rest(shape, texts)
  {
    match shape
    case Analysis | Dashboard => assert texts[1..] == [];
    case OperationsSurface => FilledSurface(texts[1..]);
    case Agent => FilledWorkspace("agent", texts[1..]);
    case Ontology => FilledWorkspace("ontology", texts[1..]);
    case Governance => FilledWorkspace("governance", texts[1..]);
    case Modeling => FilledWorkspace("modeling", texts[1..]);
    case _ =>
      assert texts[1..] == [];
      FilledOne(Tail(shape)[0].text);
  }

  lemma TemplateOfPage(shape: Shape, page: string, slashed: string, texts: seq<string>)
    requires |texts| == 1 && Count(shape) == 1 && Rest(shape, texts) == [page] && slashed == "/" + page
    requires Template(shape, texts) == "/app/projects/" + texts[0] + slashed
    ensures Template(shape, texts) == "/app/projects/" + texts[0] + ("/" + Join(Rest(shape, texts)))
  {
    assert Join([page]) == page;
  }

  lemma TemplateOfPages(shape: Shape, texts: seq<string>)
    requires shape in {Home, Datasets, Blueprint, Operations} && |texts| == 1
    ensures Template(shape, texts) == "/app/projects/" + texts[0] + ("/" + Join(Rest(shape, texts)))
  {
    match shape
    case Home => TemplateOfPage(shape, "home", "/home", texts);
    case Datasets => TemplateOfPage(shape, "datasets", "/datasets", texts);
    case Blueprint => TemplateOfPage(shape, "blueprint", "/blueprint", texts);
    case Operations => TemplateOfPage(shape, "operations", "/operations", texts);
    case _ =>
  }

  lemma TemplateOfDesigns(shape: Shape, texts: seq<string>)
    requires shape in {BlueprintV2, BlueprintV4, Comparison} && |texts| == 1
    ensures Template(shape, texts) == "/app/projects/" + texts[0] + ("/" + Join(Rest(shape, texts)))
  {
    match shape
    case BlueprintV2 => TemplateOfPage(shape, "blueprint-v2", "/blueprint-v2", texts);
    case BlueprintV4 => TemplateOfPage(shape, "blueprint-v4", "/blueprint-v4", texts);
    case Comparison => TemplateOfPage(shape, "blueprint-compare", "/blueprint-compare", texts);
    case _ =>
  }

  lemma TemplateOfWorkspace(shape: Shape, page: string, slashed: string, texts: seq<string>)
    requires |texts| == 2 && Count(shape) == 2 && slashed == "/" + page
    requires Rest(shape, texts) == ["workspaces", texts[1], page]
    requires Template(shape, texts) == "/app/projects/" + texts[0] + "/workspaces/" + texts[1] + slashed
    ensures Template(shape, texts) == "/app/projects/" + texts[0] + ("/" + Join(Rest(shape, texts)))
  {
    FilledWorkspace(page, [texts[1]]);
    WorkspacePath(texts[0], texts[1], page);
  }

  lemma TemplateOfWorkspaces(shape: Shape, texts: seq<string>)
    requires shape in {Agent, Ontology, Governance, Modeling} && |texts| == 2
    ensures Template(shape, texts) == "/app/projects/" + texts[0] + ("/" + Join(Rest(shape, texts)))
  {
    match shape
    case Agent => TemplateOfWorkspace(shape, "agent", "/agent", texts);
    case Ontology => TemplateOfWorkspace(shape, "ontology", "/ontology", texts);
    case Governance => TemplateOfWorkspace(shape, "governance", "/governance", texts);
    case Modeling => TemplateOfWorkspace(shape, "modeling", "/modeling", texts);
    case _ =>
  }

  lemma TemplateOfSurface(texts: seq<string>)
    requires |texts| == 2
    ensures Template(OperationsSurface, texts)
         == "/app/projects/" + texts[0] + ("/" + Join(Rest(OperationsSurface, texts)))
  {
    FilledSurface([texts[1]]);
    assert "/" + ("operations" + "/" + texts[1]) == "/operations/" + texts[1];
  }

  lemma TemplateOfProject(shape: Shape, texts: seq<string>)
    requires |texts| == Count(shape) && shape != Analysis && shape != Dashboard
    ensures Template(shape, texts) == "/app/projects/" + texts[0] + ("/" + Join(Rest(shape, texts)))
  {
    if shape == OperationsSurface {
      TemplateOfSurface(texts);
    } else if Count(shape) == 2 {
      TemplateOfWorkspaces(shape, texts);
    } else if shape in {BlueprintV2, BlueprintV4, Comparison} {
      TemplateOfDesigns(shape, texts);
    } else {
      TemplateOfPages(shape, texts);
    }
  }

  lemma JoinedFour(a: string, b: string, c: string, d: string)
    ensures Join([a, b, c, d]) == a + "/" + (b + "/" + (c + "/" + d))
  {
    assert [a, b, c, d][1..] == [b, c, d] && [b, c, d][1..] == [c, d] && [c, d][1..] == [d];
    assert Join([d]) == d && Join([c, d]) == c + "/" + Join([d]) && Join([b, c, d]) == b + "/" + Join([c, d]);
  }

  lemma FilledAnalysis(texts: seq<string>)
    requires |texts| == 1
    ensures Arity(Pattern(Analysis)) == 1 && Fill(Pattern(Analysis), texts) == ["", "app", "analysis", texts[0]]
  {
    var last := [Parameter] + [];
    var third := [Fixed("analysis")] + last;
    var second := [Fixed("app")] + third;
    assert Pattern(Analysis) == [Fixed("")] + second;
    ArityOfNext(Parameter, []);
    ArityOfNext(Fixed("analysis"), last);
    ArityOfNext(Fixed("app"), third);
    ArityOfNext(Fixed(""), second);
    FilledFixed("", second, texts);
    FilledFixed("app", third, texts);
    FilledFixed("analysis", last, texts);
    FilledParameter([], texts);
  }

  lemma TemplateOfAnalysis(texts: seq<string>)
    requires |texts| == 1
    ensures Template(Analysis, texts) == Join(["", "app", "analysis", texts[0]])
  {
    JoinedFour("", "app", "analysis", texts[0]);
    assert "" + "/" + ("app" + "/" + ("analysis" + "/" + texts[0])) == "/app/analysis/" + texts[0];
  }

  /** A template is its pattern, filled and joined. */
  lemma TemplateIsFilled(shape: Shape, texts: seq<string>)
    requires |texts| == Count(shape)
    ensures Arity(Pattern(shape)) == Count(shape)
    ensures Template(shape, texts) == Join(Fill(Pattern(shape), texts))
  {
    if shape == Analysis {
      FilledAnalysis(texts);
      TemplateOfAnalysis(texts);
    } else {
      FilledTail(shape, texts);
      ProjectArity(Tail(shape));
      FilledProject(Tail(shape), texts);
      JoinedProject(texts[0], Rest(shape, texts));
      if shape != Dashboard {
        TemplateOfProject(shape, texts);
      }
    }
  }

  /** A built path, taken apart again. */
  lemma BuiltIs(shape: Shape, ids: seq<string>)
    requires |ids| == Count(shape) && Ids(ids)
    ensures Arity(Pattern(shape)) == Count(shape)
    ensures var segments := Fill(Pattern(shape), Encoded(ids));
      && Build(shape, ids) == Join(segments) && Split(Build(shape, ids)) == segments
      && Fits(Pattern(shape), segments) && Parameters(Pattern(shape), segments) == Some(ids)
      && forall i | 0 <= i < |segments| :: OneSegment(segments[i])
  {
    PatternsAreSegments(shape);
    TemplateIsFilled(shape, Encoded(ids));
    FilledFits(Pattern(shape), ids);
    SplitJoin(Fill(Pattern(shape), Encoded(ids)));
  }

  /** Every matcher inverts its builder. */
  lemma BuiltPathMatches(shape: Shape, ids: seq<string>)
    requires |ids| == Count(shape) && Ids(ids)
    ensures Match(shape, Build(shape, ids)) == Matched(ids)
  {
    BuiltIs(shape, ids);
  }

  // ------------------------------------------------------ what a matcher accepts

  /** A pathname is the template of a route with nonempty segments in it. */
  ghost predicate Spells(shape: Shape, texts: seq<string>, pathname: string) {
    |texts| == Count(shape) && (forall t | t in texts :: t != "" && '/' !in t) && pathname == Template(shape, texts)
  }

  /** The segments at the parameters. */
  function TextsAt(pattern: seq<Segment>, segments: seq<string>): (texts: seq<string>)
    requires |pattern| == |segments|
    ensures |texts| == Arity(pattern)
  {
    if pattern == [] then []
    else (if pattern[0].Parameter? then [segments[0]] else []) + TextsAt(pattern[1..], segments[1..])
  }

  lemma {:induction false} FittingIsFilled(pattern: seq<Segment>, segments: seq<string>)
    requires Fits(pattern, segments)
    ensures Fill(pattern, TextsAt(pattern, segments)) == segments
    ensures forall t | t in TextsAt(pattern, segments) :: t != "" && t in segments
  {
    if pattern != [] {
      FitsTail(pattern, segments);
      FittingIsFilled(pattern[1..], segments[1..]);
      assert segments == [segments[0]] + segments[1..];
      var texts, rest := TextsAt(pattern, segments), TextsAt(pattern[1..], segments[1..]);
      assert texts == if pattern[0].Parameter? then [segments[0]] + rest else rest;
      assert pattern[0].Parameter? ==> texts[1..] == rest;
    }
  }

  lemma FitsTail(pattern: seq<Segment>, segments: seq<string>)
    requires Fits(pattern, segments) && pattern != []
    ensures Fits(pattern[1..], segments[1..])
    ensures match pattern[0] case Fixed(text) => segments[0] == text case Parameter => segments[0] != ""
  {
    forall i | 0 <= i < |pattern| - 1
      ensures match pattern[1..][i]
              case Fixed(text) => segments[1..][i] == text
              case Parameter => segments[1..][i] != ""
    {
      assert pattern[1..][i] == pattern[i + 1] && segments[1..][i] == segments[i + 1];
    }
  }

  lemma {:induction false} FilledWithFits(pattern: seq<Segment>, texts: seq<string>)
    requires |texts| == Arity(pattern) && WordsOnly(pattern) && forall t | t in texts :: t != "" && '/' !in t
    ensures var segments := Fill(pattern, texts);
      Fits(pattern, segments) && TextsAt(pattern, segments) == texts && forall s | s in segments :: '/' !in s
  {
    if pattern != [] {
      if pattern[0].Parameter? {
        assert texts[0] in texts && forall t | t in texts[1..] :: t in texts;
        FilledWithFits(pattern[1..], texts[1..]);
      } else {
        FilledWithFits(pattern[1..], texts);
      }
      FitsNext(pattern, Fill(pattern, texts));
    }
  }

  lemma FitsNext(pattern: seq<Segment>, segments: seq<string>)
    requires pattern != [] && |pattern| == |segments| && Fits(pattern[1..], segments[1..])
    requires match pattern[0] case Fixed(text) => segments[0] == text case Parameter => segments[0] != ""
    ensures Fits(pattern, segments)
  {
    forall i | 0 <= i < |pattern|
      ensures match pattern[i] case Fixed(text) => segments[i] == text case Parameter => segments[i] != ""
    {
      if i > 0 {
        assert pattern[i] == pattern[1..][i - 1] && segments[i] == segments[1..][i - 1];
      }
    }
  }

  /** What a matcher returns: the decoded texts, or an exception when one is malformed. */
  ghost predicate Returns(m: Matching, texts: seq<string>) {
    match m
    case NoMatch => false
    case Malformed => exists t :: t in texts && Decode(t).None?
    case Matched(ids) => |ids| == |texts| && forall i | 0 <= i < |ids| :: Decode(texts[i]) == Some(ids[i])
  }

  lemma {:induction false} ParametersAre(pattern: seq<Segment>, segments: seq<string>)
    requires |pattern| == |segments|
    ensures var texts := TextsAt(pattern, segments);
      match Parameters(pattern, segments)
      case None => exists t :: t in texts && Decode(t).None?
      case Some(ids) => |ids| == |texts| && forall i | 0 <= i < |ids| :: Decode(texts[i]) == Some(ids[i])
  {
    if pattern != [] {
      ParametersAre(pattern[1..], segments[1..]);
      var texts, rest := TextsAt(pattern, segments), TextsAt(pattern[1..], segments[1..]);
      if pattern[0].Parameter? {
        assert texts[0] == segments[0] && texts[1..] == rest;
        assert forall i | 1 <= i < |texts| :: texts[i] == rest[i - 1];
      }
    }
  }

  /** A matcher accepts exactly the pathnames its route spells, and returns the decoded segments. */
  lemma MatchesExactlyWhen(shape: Shape, pathname: string)
    ensures !Match(shape, pathname).NoMatch? <==> exists texts :: Spells(shape, texts, pathname)
    ensures forall texts | Spells(shape, texts, pathname) :: Returns(Match(shape, pathname), texts)
  {
    var pattern, segments := Pattern(shape), Split(pathname);
    if Fits(pattern, segments) {
      FittingIsSpelled(shape, pathname);
    }
    forall texts | Spells(shape, texts, pathname)
      ensures Fits(pattern, segments) && Returns(Match(shape, pathname), texts)
    {
      SpelledFits(shape, texts, pathname);
    }
  }

  lemma FittingIsSpelled(shape: Shape, pathname: string)
    requires Fits(Pattern(shape), Split(pathname))
    ensures exists texts :: Spells(shape, texts, pathname)
  {
    var texts := TextsAt(Pattern(shape), Split(pathname));
    FittingIsFilled(Pattern(shape), Split(pathname));
    forall t | t in texts
      ensures '/' !in t
    {
      var i :| 0 <= i < |Split(pathname)| && Split(pathname)[i] == t;
      SplitPieces(pathname, i);
    }
    ArityIsCount(shape);
    TemplateIsFilled(shape, texts);
    JoinSplit(pathname);
    assert Spells(shape, texts, pathname);
  }

  lemma ArityIsCount(shape: Shape)
    ensures Arity(Pattern(shape)) == Count(shape)
  {
    TemplateIsFilled(shape, if Count(shape) == 2 then ["", ""] else [""]);
  }

  lemma SpelledFits(shape: Shape, texts: seq<string>, pathname: string)
    requires Spells(shape, texts, pathname)
    ensures Fits(Pattern(shape), Split(pathname)) && Returns(Match(shape, pathname), texts)
  {
    PatternsAreSegments(shape);
    TemplateIsFilled(shape, texts);
    FilledWithFits(Pattern(shape), texts);
    SplitJoin(Fill(Pattern(shape), texts));
    ParametersAre(Pattern(shape), Split(pathname));
  }

  function At(pattern: seq<Segment>, i: nat): Segment {
    if i < |pattern| then pattern[i] else Parameter
  }

  /** The route that a pathname of this many segments, with this text at places 2, 4 and 6, can fit. */
  function ShapeOf(length: nat, second: Segment, fourth: Segment, sixth: Segment): Shape {
    if length == 4 then (if second == Fixed("analysis") then Analysis else Dashboard)
    else if length == 5 then
      if fourth == Fixed("home") then Home
      else if fourth == Fixed("datasets") then Datasets
      else if fourth == Fixed("blueprint") then Blueprint
      else if fourth == Fixed("blueprint-v2") then BlueprintV2
      else if fourth == Fixed("blueprint-v4") then BlueprintV4
      else if fourth == Fixed("blueprint-compare") then Comparison
      else Operations
    else if length == 6 then OperationsSurface
    else if sixth == Fixed("agent") then Agent
    else if sixth == Fixed("ontology") then Ontology
    else if sixth == Fixed("governance") then Governance
    else Modeling
  }

  /** The fixed texts tell the routes apart. */
  lemma ShapeIsRead(shape: Shape)
    ensures var p := Pattern(shape);
      && ShapeOf(|p|, At(p, 2), At(p, 4), At(p, 6)) == shape
      && At(p, 2).Fixed? && (|p| > 4 ==> At(p, 4).Fixed?) && (|p| > 6 ==> At(p, 6).Fixed?)
  {
    assert "projects"[0] == 'p' && "analysis"[0] == 'a';
    assert "home"[0] == 'h' && "datasets"[0] == 'd' && "blueprint"[0] == 'b' && "operations"[0] == 'o';
    assert |"blueprint"| == 9 && |"blueprint-v2"| == 12 && |"blueprint-v4"| == 12 && |"blueprint-compare"| == 17;
    assert "blueprint-v2"[11] == '2' && "blueprint-v4"[11] == '4';
    assert "blueprint-v2"[0] == 'b' && "blueprint-v4"[0] == 'b' && "blueprint-compare"[0] == 'b';
    assert "agent"[0] == 'a' && "ontology"[0] == 'o' && "governance"[0] == 'g' && "modeling"[0] == 'm';
  }

  lemma SameFixedText(p: seq<Segment>, q: seq<Segment>, segments: seq<string>, i: nat)
    requires Fits(p, segments) && Fits(q, segments) && (i < |segments| ==> p[i].Fixed? && q[i].Fixed?)
    ensures At(p, i) == At(q, i)
  {
  }

  /** No pathname is accepted by two matchers. */
  lemma RoutesAreUnambiguous(a: Shape, b: Shape, pathname: string)
    requires !Match(a, pathname).NoMatch? && !Match(b, pathname).NoMatch?
    ensures a == b
  {
    ShapeIsRead(a);
    ShapeIsRead(b);
    SameFixedText(Pattern(a), Pattern(b), Split(pathname), 2);
    SameFixedText(Pattern(a), Pattern(b), Split(pathname), 4);
    SameFixedText(Pattern(a), Pattern(b), Split(pathname), 6);
  }

  // ---------------------------------------------------------------- base path

  function TrimSlashes(s: string): (r: string)
    ensures r <= s && (r != "" ==> r[|r| - 1] != '/')
  {
    if s != "" && s[|s| - 1] == '/' then TrimSlashes(s[..|s| - 1]) else s
  }

  function NormalizePathname(base: string, pathname: string): string {
    var withoutBase :=
      if base == "" then pathname
      else if pathname == base then "/"
      else if base + "/" <= pathname then
        (var rest := pathname[|base|..]; if rest == "" then "/" else rest)
      else pathname;
    if |withoutBase| > 1 then TrimSlashes(withoutBase) else withoutBase
  }

  function WithBasePath(base: string, path: string): string {
    if base == "" || !Absolute(path) then path else base + path
  }

  /** The base path is transparent exactly for paths without a trailing slash. */
  lemma BasePathIsTransparentExactlyWhen(base: string, path: string)
    requires Absolute(path)
    ensures NormalizePathname(base, WithBasePath(base, path)) == path <==> path == "/" || path[|path| - 1] != '/'
  {
    var full := WithBasePath(base, path);
    if base != "" {
      assert full[..|base|] == base && full[|base|..] == path;
      assert full[|base|] == '/';
      assert base + "/" <= full;
    }
  }

  lemma {:induction false} JoinEnds(cs: seq<string>)
    requires |cs| >= 2 && cs[|cs| - 1] != ""
    ensures |Join(cs)| > 1 && Join(cs)[|Join(cs)| - 1] == cs[|cs| - 1][|cs[|cs| - 1]| - 1]
    ensures cs[0] == "" ==> Absolute(Join(cs))
  {
    if |cs| > 2 {
      JoinEnds(cs[1..]);
    } else {
      assert Join(cs[1..]) == cs[1];
    }
  }

  lemma FilledEnds(pattern: seq<Segment>, ids: seq<string>)
    requires |ids| == Arity(pattern) && Ids(ids) && WordsOnly(pattern) && |pattern| > 1 && pattern[0] == Fixed("")
    requires pattern[|pattern| - 1].Fixed? ==> pattern[|pattern| - 1].text != ""
    ensures var cs := Fill(pattern, Encoded(ids));
      && |cs| == |pattern| && cs[0] == "" && cs[|cs| - 1] != ""
      && cs[|cs| - 1][|cs[|cs| - 1]| - 1] != '/'
  {
    FilledFits(pattern, ids);
    var last := Fill(pattern, Encoded(ids))[|pattern| - 1];
    assert OneSegment(last) && last[|last| - 1] in last;
  }

  lemma LastTextIsNotEmpty(shape: Shape)
    ensures var p := Pattern(shape); |p| > 1 && (p[|p| - 1].Fixed? ==> p[|p| - 1].text != "")
  {
  }

  lemma BaseIsTransparentForJoined(base: string, cs: seq<string>)
    requires |cs| >= 2 && cs[0] == "" && cs[|cs| - 1] != "" && cs[|cs| - 1][|cs[|cs| - 1]| - 1] != '/'
    ensures NormalizePathname(base, WithBasePath(base, Join(cs))) == Join(cs) && Absolute(Join(cs))
  {
    JoinEnds(cs);
    BasePathIsTransparentExactlyWhen(base, Join(cs));
  }

  lemma BuiltEnds(shape: Shape, ids: seq<string>)
    requires |ids| == Count(shape) == Arity(Pattern(shape)) && Ids(ids)
    ensures var cs := Fill(Pattern(shape), Encoded(ids));
      |cs| >= 2 && cs[0] == "" && cs[|cs| - 1] != "" && cs[|cs| - 1][|cs[|cs| - 1]| - 1] != '/'
  {
    PatternsAreSegments(shape);
    LastTextIsNotEmpty(shape);
    FilledEnds(Pattern(shape), ids);
  }

  /** Adding and removing a base leaves a built path alone. */
  lemma BaseIsTransparentForBuilt(shape: Shape, ids: seq<string>, base: string)
    requires |ids| == Count(shape) && Ids(ids)
    ensures NormalizePathname(base, WithBasePath(base, Build(shape, ids))) == Build(shape, ids)
    ensures Absolute(Build(shape, ids))
  {
    BuiltIs(shape, ids);
    BuiltEnds(shape, ids);
    BaseIsTransparentForJoined(base, Fill(Pattern(shape), Encoded(ids)));
  }

  // ------------------------------------------------------------- the address bar

  predicate DotSegment(s: string) {
    s == "." || s == ".."
  }

  /** The segments that are left of a path when its dot segments are removed. */
  function Settle(done: seq<string>, segments: seq<string>): seq<string>
    decreases |segments|
  {
    if segments == [] then done
    else
      var next :=
        if segments[0] == "." then done
        else if segments[0] == ".." then (if done == [] then [] else done[..|done| - 1])
        else done + [segments[0]];
      if |segments| == 1 && DotSegment(segments[0]) then next + [""] else Settle(next, segments[1..])
  }

  /** The pathname a browser has after a navigation to an absolute path: dot segments
      are removed (section 5.2.4 of RFC 3986). */
  function Shown(path: string): string {
    Join([""] + Settle([], Split(path)[1..]))
  }

  /** Text that is not a dot segment, also when it is decoded. */
  predicate Undotted(s: string) {
    Decode(s) != Some(".") && Decode(s) != Some("..")
  }

  predicate AllUndotted(segments: seq<string>) {
    forall s | s in segments :: Undotted(s)
  }

  /** A base path: none, or absolute without dot segments. */
  predicate BasePath(base: string) {
    base == "" || (Absolute(base) && AllUndotted(Split(base)))
  }

  lemma {:induction false} PlainDecodes(s: string)
    requires '%' !in s
    ensures Decode(s) == Some(s)
  {
    if s != "" {
      assert s == [s[0]] + s[1..];
      PlainDecodes(s[1..]);
    }
  }

  lemma DotsAreDotted(s: string)
    requires DotSegment(s)
    ensures !Undotted(s)
  {
    PlainDecodes(s);
  }

  lemma WordsAreUndotted(s: string)
    requires Word(s)
    ensures Undotted(s)
  {
    PlainDecodes(s);
    assert '.' in "." && '.' in "..";
  }

  lemma EncodedIsDotSegmentExactlyWhen(id: string)
    requires IsBytes(id)
    ensures DotSegment(id) ==> Encode(id) == id
    ensures !DotSegment(id) ==> Undotted(Encode(id))
  {
    EncodedReadsBack(id);
    assert "."[1..] == "" && ".."[1..] == ".";
    assert Encode("") == "" && Encode(".") == "." && Encode("..") == "." + Encode(".");
  }

  lemma {:induction false} SettleLeavesUndotted(done: seq<string>, segments: seq<string>)
    requires AllUndotted(done) && forall s | s in segments :: DotSegment(s) || Undotted(s)
    ensures AllUndotted(Settle(done, segments))
    decreases |segments|
  {
    if segments != [] {
      var s := segments[0];
      assert s in segments;
      var next := if s == "." then done
                  else if s == ".." then (if done == [] then [] else done[..|done| - 1])
                  else done + [s];
      assert forall t | t in next :: t in done || (t == s && !DotSegment(s));
      PlainDecodes("");
      if !(|segments| == 1 && DotSegment(s)) {
        assert forall t | t in segments[1..] :: t in segments;
        SettleLeavesUndotted(next, segments[1..]);
      }
    }
  }

  lemma {:induction false} SettleKeepsUndotted(done: seq<string>, segments: seq<string>)
    requires AllUndotted(segments)
    ensures Settle(done, segments) == done + segments
    decreases |segments|
  {
    if segments != [] {
      var s := segments[0];
      assert s in segments;
      if DotSegment(s) {
        DotsAreDotted(s);
      }
      assert forall t | t in segments[1..] :: t in segments;
      SettleKeepsUndotted(done + [s], segments[1..]);
      assert done + [s] + segments[1..] == done + segments;
    }
  }

  lemma ShownIsItself(path: string)
    requires Absolute(path) && AllUndotted(Split(path))
    ensures Shown(path) == path
  {
    var segments := Split(path)[1..];
    assert forall t | t in segments :: t in Split(path);
    SettleKeepsUndotted([], segments);
    JoinSplit(path);
    assert [] + segments == segments && [""] + segments == Split(path);
  }

  lemma {:induction false} SettledIsSlashFree(done: seq<string>, segments: seq<string>)
    requires forall s | s in done || s in segments :: '/' !in s
    ensures forall s | s in Settle(done, segments) :: '/' !in s
    decreases |segments|
  {
    if segments != [] {
      var s := segments[0];
      var next := if s == "." then done
                  else if s == ".." then (if done == [] then [] else done[..|done| - 1])
                  else done + [s];
      assert forall t | t in next :: t in done || t == s;
      if !(|segments| == 1 && DotSegment(s)) {
        assert forall t | t in segments[1..] :: t in segments;
        SettledIsSlashFree(next, segments[1..]);
      }
    }
  }

  lemma ShownIsUndotted(path: string)
    requires Absolute(path) && forall s | s in Split(path) :: DotSegment(s) || Undotted(s)
    ensures AllUndotted(Split(Shown(path)))
  {
    var segments := Split(path)[1..];
    forall t | t in segments
      ensures t in Split(path) && '/' !in t
    {
      var i :| 0 <= i < |segments| && segments[i] == t;
      SplitPieces(path, i + 1);
    }
    SettleLeavesUndotted([], segments);
    SettledIsSlashFree([], segments);
    SplitJoin([""] + Settle([], segments));
    PlainDecodes("");
  }

  lemma {:induction false} TrimmedIsUndotted(s: string)
    requires AllUndotted(Split(s))
    ensures AllUndotted(Split(TrimSlashes(s)))
    decreases |s|
  {
    if s != "" && s[|s| - 1] == '/' {
      var shorter := s[..|s| - 1];
      assert s == shorter + "/" + "";
      SplitAtSlash(shorter, "");
      assert forall t | t in Split(shorter) :: t in Split(s);
      TrimmedIsUndotted(shorter);
    }
  }

  lemma NormalizedIsUndotted(base: string, pathname: string)
    requires AllUndotted(Split(pathname))
    ensures AllUndotted(Split(NormalizePathname(base, pathname)))
  {
    PlainDecodes("");
    assert Split("/") == [""] + [""];
    if base != "" && pathname != base && base + "/" <= pathname {
      var rest := pathname[|base| + 1..];
      assert pathname == base + "/" + rest && pathname[|base|..] == "" + "/" + rest;
      SplitAtSlash(base, rest);
      SplitAtSlash("", rest);
      assert forall t | t in Split(rest) :: t in Split(pathname);
      TrimmedIsUndotted("" + "/" + rest);
    } else {
      TrimmedIsUndotted(pathname);
    }
  }

  lemma {:induction false} FilledIsUndotted(pattern: seq<Segment>, ids: seq<string>)
    requires |ids| == Arity(pattern) && Ids(ids) && WordsOnly(pattern)
    ensures forall s | s in Fill(pattern, Encoded(ids)) :: Undotted(s) || (DotSegment(s) && s in ids)
    ensures forall id | id in ids && DotSegment(id) :: id in Fill(pattern, Encoded(ids))
  {
    if pattern != [] {
      if pattern[0].Parameter? {
        EncodedIsDotSegmentExactlyWhen(ids[0]);
        EncodedTail(ids);
        FilledIsUndotted(pattern[1..], ids[1..]);
        assert ids == [ids[0]] + ids[1..];
      } else {
        WordsAreUndotted(pattern[0].text);
        FilledIsUndotted(pattern[1..], ids);
      }
    }
  }

  lemma {:induction false} ParametersAreUndotted(pattern: seq<Segment>, segments: seq<string>)
    requires |pattern| == |segments| && AllUndotted(segments) && Parameters(pattern, segments).Some?
    ensures forall id | id in Parameters(pattern, segments).value :: !DotSegment(id)
  {
    if pattern != [] {
      assert segments[0] in segments && forall t | t in segments[1..] :: t in segments;
      ParametersAreUndotted(pattern[1..], segments[1..]);
    }
  }

  /** The segments of a built path below a base. */
  lemma SegmentsBelowBase(base: string, path: string)
    requires BasePath(base) && Absolute(path)
    ensures Absolute(WithBasePath(base, path))
    ensures forall s | s in Split(WithBasePath(base, path)) :: s in Split(path) || Undotted(s)
    ensures forall s | s in Split(path) :: s == "" || s in Split(WithBasePath(base, path))
  {
    if base != "" {
      var rest := path[1..];
      assert path == "" + "/" + rest && base + path == base + "/" + rest;
      SplitAtSlash("", rest);
      SplitAtSlash(base, rest);
    }
  }

  /** A built path survives the trip through the address bar, below any base, and is
      matched with the same ids, exactly when no id is a dot segment. */
  lemma BuiltPathSurvivesNavigationExactlyWhen(shape: Shape, ids: seq<string>, base: string)
    requires |ids| == Count(shape) && Ids(ids) && BasePath(base)
    ensures var shown := NormalizePathname(base, Shown(WithBasePath(base, Build(shape, ids))));
      && (Match(shape, shown) == Matched(ids) <==> forall id | id in ids :: !DotSegment(id))
      && (shown == Build(shape, ids) <==> forall id | id in ids :: !DotSegment(id))
  {
    var path := Build(shape, ids);
    var full := WithBasePath(base, path);
    var shown := NormalizePathname(base, Shown(full));
    BuiltPathMatches(shape, ids);
    BaseIsTransparentForBuilt(shape, ids, base);
    SplitOfBuilt(shape, ids);
    SegmentsBelowBase(base, path);
    if forall id | id in ids :: !DotSegment(id) {
      ShownIsItself(full);
    } else {
      ShownIsUndotted(full);
      NormalizedIsUndotted(base, Shown(full));
      if Match(shape, shown).Matched? {
        ParametersAreUndotted(Pattern(shape), Split(shown));
      }
    }
  }

  lemma SplitOfBuilt(shape: Shape, ids: seq<string>)
    requires |ids| == Count(shape) && Ids(ids)
    ensures forall s | s in Split(Build(shape, ids)) :: Undotted(s) || (DotSegment(s) && s in ids)
    ensures forall id | id in ids && DotSegment(id) :: id in Split(Build(shape, ids))
  {
    PatternsAreSegments(shape);
    BuiltIs(shape, ids);
    FilledIsUndotted(Pattern(shape), ids);
  }

  // ----------------------------------------------------------------- redirect

  datatype Redirect = Stay | GoTo(path: string) | Throws

  /** `matchOperationsProjectPath`, which also accepts a surface. */
  function MatchOperations(pathname: string): Matching {
    match Match(Operations, pathname)
    case NoMatch => Match(OperationsSurface, pathname)
    case other => other
  }

  /** The segment behind "/app/projects/" at the beginning of a pathname. */
  function ProjectSegment(pathname: string): Option<string> {
    var segments := Split(pathname);
    if |segments| >= 4 && segments[..3] == ["", "app", "projects"] && segments[3] != "" then Some(segments[3]) else None
  }

  /** Matchers evaluated one after the other, until one accepts or throws. */
  function FirstOf(shapes: seq<Shape>, pathname: string): Matching {
    if shapes == [] then NoMatch
    else if Match(shapes[0], pathname).NoMatch? then FirstOf(shapes[1..], pathname)
    else Match(shapes[0], pathname)
  }

  /** The project the redirect goes to: from the pathname, else the fallback. */
  function RedirectProject(pathname: string, fallback: Option<string>): Matching {
    match ProjectSegment(pathname)
    case Some(segment) =>
      (match Decode(segment)
       case None => Malformed
       case Some(id) => Matched([id]))
    case None => if fallback.Some? && fallback.value != "" then Matched([fallback.value]) else NoMatch
  }

  /** The design pages that stay, and those the comparison page embeds. */
  function Preserved(embed: bool): seq<Shape> {
    [Comparison, BlueprintV4] + if embed then [Dashboard, Blueprint, BlueprintV2, Ontology] else []
  }

  /** `week2OperationsRedirectPath`; `embed` is whether the search has comparison_embed=1. */
  function OperationsRedirect(pathname: string, fallback: Option<string>, embed: bool): Redirect
    requires IsBytes(pathname) && (fallback.Some? ==> IsBytes(fallback.value))
  {
    if MatchOperations(pathname).Malformed? then Throws
    else if MatchOperations(pathname).Matched? || !("/app" <= pathname) then Stay
    else
      match FirstOf(Preserved(embed), pathname)
      case Malformed => Throws
      case Matched(_) => Stay
      case NoMatch =>
        match RedirectProject(pathname, fallback)
        case Malformed => Throws
        case NoMatch => Stay
        case Matched(ids) =>
          RedirectProjectIsId(pathname, fallback);
          GoTo(Build(Operations, ids))
  }

  lemma {:induction false} SplitIsBytes(s: string)
    requires IsBytes(s)
    ensures forall i | 0 <= i < |Split(s)| :: IsBytes(Split(s)[i])
  {
    if s != "" {
      assert s == [s[0]] + s[1..];
      SplitIsBytes(s[1..]);
    }
  }

  lemma RedirectProjectIsId(pathname: string, fallback: Option<string>)
    requires IsBytes(pathname) && (fallback.Some? ==> IsBytes(fallback.value))
    requires RedirectProject(pathname, fallback).Matched?
    ensures var ids := RedirectProject(pathname, fallback).ids; |ids| == Count(Operations) && Ids(ids)
  {
    SplitIsBytes(pathname);
    if ProjectSegment(pathname).Some? {
      DecodedIsBytes(Split(pathname)[3]);
    }
  }

  /** One redirect is enough: its target, as the browser shows it below any base,
      names the redirected project and is not redirected again, whatever the fallback
      and the search are then. The browser shows it exactly when the project is not
      called "." or "..". */
  lemma RedirectReachesAFixedPoint(
    pathname: string, fallback: Option<string>, embed: bool, base: string, fallback': Option<string>, embed': bool)
    requires IsBytes(pathname) && (fallback.Some? ==> IsBytes(fallback.value)) && BasePath(base)
    requires fallback'.Some? ==> IsBytes(fallback'.value)
    requires OperationsRedirect(pathname, fallback, embed).GoTo?
    ensures var target := OperationsRedirect(pathname, fallback, embed).path;
      var shown := NormalizePathname(base, Shown(WithBasePath(base, target)));
      var project := RedirectProject(pathname, fallback);
      && project.Matched? && |project.ids| == 1 && (shown == target <==> !DotSegment(project.ids[0]))
      && (shown == target ==>
            IsBytes(shown) && MatchOperations(shown) == project
            && OperationsRedirect(shown, fallback', embed') == Stay)
  {
    RedirectProjectIsId(pathname, fallback);
    var ids := RedirectProject(pathname, fallback).ids;
    assert forall id | id in ids :: id == ids[0];
    assert ids[0] in ids;
    BuiltPathMatches(Operations, ids);
    BuiltPathSurvivesNavigationExactlyWhen(Operations, ids, base);
    BuiltIsBytes(Operations, ids);
  }

  lemma EncodedByteIsBytes(c: char)
    requires c < '\U{100}'
    ensures IsBytes(EncodeByte(c))
  {
    HexReadsBack(c as nat / 16);
    HexReadsBack(c as nat % 16);
  }

  lemma {:induction false} EncodedIsBytes(id: string)
    requires IsBytes(id)
    ensures IsBytes(Encode(id))
  {
    if id != "" {
      assert id == [id[0]] + id[1..];
      EncodedByteIsBytes(id[0]);
      EncodedIsBytes(id[1..]);
    }
  }

  lemma BuiltIsBytes(shape: Shape, ids: seq<string>)
    requires |ids| == Count(shape) && Ids(ids)
    ensures IsBytes(Build(shape, ids))
  {
    BuiltIs(shape, ids);
    JoinIsBytes(Fill(Pattern(shape), Encoded(ids)));
  }

  lemma {:induction false} JoinIsBytes(cs: seq<string>)
    requires forall i | 0 <= i < |cs| :: IsBytes(cs[i])
    ensures IsBytes(Join(cs))
  {
    if |cs| > 1 {
      JoinIsBytes(cs[1..]);
    }
  }

  lemma ProjectOfJoined(segment: string, rest: seq<string>)
    requires segment != "" && '/' !in segment && forall c | c in rest :: '/' !in c
    ensures ProjectSegment(Join(["", "app"] + (["projects", segment] + rest))) == Some(segment)
  {
    var cs := ["", "app"] + (["projects", segment] + rest);
    PrefixWords();
    assert forall c | c in cs :: c in ["", "app", "projects", segment] || c in rest;
    SplitJoin(cs);
    assert cs[..3] == ["", "app", "projects"];
  }

  lemma TemplateInProject(shape: Shape, texts: seq<string>) returns (rest: string)
    requires |texts| == Count(shape) && shape != Analysis && texts[0] != "" && '/' !in texts[0]
    ensures InProject(Template(shape, texts), texts[0], rest)
  {
    if shape == Dashboard {
      rest := "";
      assert texts[0] + "" == texts[0];
    } else {
      TemplateOfProject(shape, texts);
      rest := "/" + Join(Rest(shape, texts));
    }
  }

  lemma InProjectIsInApp(pathname: string, segment: string, rest: string)
    requires InProject(pathname, segment, rest)
    ensures "/app" <= pathname
  {
    assert "/app/projects/"[..4] == "/app";
    assert pathname[..4] == "/app/projects/"[..4];
  }

  lemma ProjectOfBuilt(shape: Shape, ids: seq<string>)
    requires |ids| == Count(shape) && Ids(ids) && shape != Analysis
    ensures |ids| > 0 && ProjectSegment(Build(shape, ids)) == Some(Encode(ids[0]))
    ensures "/app" <= Build(shape, ids)
  {
    EncodedReadsBack(ids[0]);
    EncodedTail(ids);
    var rest := TemplateInProject(shape, Encoded(ids));
    ProjectIsRead(Build(shape, ids), Encode(ids[0]), rest);
    InProjectIsInApp(Build(shape, ids), Encode(ids[0]), rest);
  }

  /** The pages that are never redirected, and those shown inside the comparison page. */
  predicate Exempt(shape: Shape, embed: bool) {
    || shape in {Operations, OperationsSurface, Comparison, BlueprintV4}
    || (embed && shape in {Dashboard, Blueprint, BlueprintV2, Ontology})
  }

  /** Among the well-formed project routes exactly the exempt ones stay; every other
      goes to the operations page of its own project. */
  lemma ProjectRoutesAreRedirected(shape: Shape, ids: seq<string>, fallback: Option<string>, embed: bool)
    requires |ids| == Count(shape) && Ids(ids) && shape != Analysis
    requires fallback.Some? ==> IsBytes(fallback.value)
    ensures IsBytes(Build(shape, ids)) && Count(Operations) == 1 <= |ids|
    ensures OperationsRedirect(Build(shape, ids), fallback, embed) ==
      if Exempt(shape, embed) then Stay else GoTo(Build(Operations, [ids[0]]))
  {
    BuiltIsBytes(shape, ids);
    BuiltPathMatches(shape, ids);
    ProjectOfBuilt(shape, ids);
    EncodedReadsBack(ids[0]);
    OnlyItsMatcher(shape, Operations, Build(shape, ids));
    OnlyItsMatcher(shape, OperationsSurface, Build(shape, ids));
    FirstOfIs(Preserved(embed), shape, Build(shape, ids));
    RedirectOfProject(Build(shape, ids), shape, ids[0], fallback, embed);
  }

  /** What the redirect does with a pathname that one matcher accepts. */
  lemma RedirectOfProject(path: string, shape: Shape, id: string, fallback: Option<string>, embed: bool)
    requires IsBytes(path) && (fallback.Some? ==> IsBytes(fallback.value)) && IsBytes(id) && id != ""
    requires Match(shape, path).Matched? && ProjectSegment(path) == Some(Encode(id)) && "/app" <= path
    requires Match(Operations, path).NoMatch? <==> shape != Operations
    requires Match(OperationsSurface, path).NoMatch? <==> shape != OperationsSurface
    requires FirstOf(Preserved(embed), path) == if shape in Preserved(embed) then Match(shape, path) else NoMatch
    requires Decode(Encode(id)) == Some(id)
    ensures Count(Operations) == 1
    ensures OperationsRedirect(path, fallback, embed) ==
      if Exempt(shape, embed) then Stay else GoTo(Build(Operations, [id]))
  {
  }

  lemma OnlyItsMatcher(shape: Shape, other: Shape, path: string)
    requires !Match(shape, path).NoMatch?
    ensures Match(other, path).NoMatch? <==> other != shape
  {
    if !Match(other, path).NoMatch? {
      RoutesAreUnambiguous(shape, other, path);
    }
  }

  lemma {:induction false} FirstOfIs(shapes: seq<Shape>, shape: Shape, path: string)
    requires !Match(shape, path).NoMatch?
    ensures FirstOf(shapes, path) == if shape in shapes then Match(shape, path) else NoMatch
  {
    if shapes != [] {
      OnlyItsMatcher(shape, shapes[0], path);
      FirstOfIs(shapes[1..], shape, path);
    }
  }

  // ------------------------------------------------------ any other pathname

  /** The pathname lies in a project, whose encoded id is `segment`. */
  predicate InProject(pathname: string, segment: string, rest: string) {
    && segment != "" && '/' !in segment && (rest == "" || rest[0] == '/')
    && pathname == "/app/projects/" + segment + rest
  }

  lemma ProjectIsRead(pathname: string, segment: string, rest: string)
    requires InProject(pathname, segment, rest)
    ensures ProjectSegment(pathname) == Some(segment)
  {
    var tail := if rest == "" then [] else Split(rest[1..]);
    NoSlashInTail(rest);
    JoinedProject(segment, tail);
    if rest != "" {
      JoinSplit(rest[1..]);
      assert rest == "/" + rest[1..];
    }
    ProjectOfJoined(segment, tail);
  }

  lemma NoSlashInTail(rest: string)
    ensures rest != "" ==> forall c | c in Split(rest[1..]) :: '/' !in c
  {
    if rest != "" {
      forall c | c in Split(rest[1..])
        ensures '/' !in c
      {
        var i :| 0 <= i < |Split(rest[1..])| && Split(rest[1..])[i] == c;
        SplitPieces(rest[1..], i);
      }
    }
  }

  lemma ReadProjectIsThere(pathname: string) returns (rest: string)
    requires ProjectSegment(pathname).Some?
    ensures InProject(pathname, ProjectSegment(pathname).value, rest)
  {
    var segments := Split(pathname);
    var tail := segments[4..];
    rest := if tail == [] then "" else "/" + Join(tail);
    SplitPieces(pathname, 3);
    JoinSplit(pathname);
    JoinedProject(segments[3], tail);
    assert segments == ["", "app"] + (["projects", segments[3]] + tail);
  }

  /** Outside "/app" nothing is redirected. Inside, a pathname that no exempt route spells
      goes to the operations page of the project it lies in, or else of the fallback, and
      stays when there is none; a project id that cannot be decoded throws. */
  lemma OthersAreRedirected(pathname: string, fallback: Option<string>, embed: bool)
    requires IsBytes(pathname) && (fallback.Some? ==> IsBytes(fallback.value))
    requires forall shape, texts | Exempt(shape, embed) :: !Spells(shape, texts, pathname)
    ensures var r := OperationsRedirect(pathname, fallback, embed);
      && (!("/app" <= pathname) ==> r == Stay)
      && (forall segment, rest | "/app" <= pathname && InProject(pathname, segment, rest) ::
            match Decode(segment)
            case None => r == Throws
            case Some(id) => IsBytes(id) && r == GoTo("/app/projects/" + Encode(id) + "/operations"))
      && ("/app" <= pathname && (forall segment, rest :: !InProject(pathname, segment, rest)) ==>
            r == if fallback.Some? && fallback.value != ""
                 then GoTo("/app/projects/" + Encode(fallback.value) + "/operations") else Stay)
  {
    ExemptDoNotMatch(pathname, embed);
    RedirectOfOthers(pathname, fallback, embed);
    forall segment, rest | InProject(pathname, segment, rest)
      ensures ProjectSegment(pathname) == Some(segment)
    {
      ProjectIsRead(pathname, segment, rest);
    }
    if ProjectSegment(pathname).Some? {
      var rest := ReadProjectIsThere(pathname);
      RedirectOfProjectId(pathname, fallback);
    }
  }

  lemma ExemptDoNotMatch(pathname: string, embed: bool)
    requires forall shape, texts | Exempt(shape, embed) :: !Spells(shape, texts, pathname)
    ensures forall shape | Exempt(shape, embed) :: Match(shape, pathname).NoMatch?
  {
    forall shape | Exempt(shape, embed)
      ensures Match(shape, pathname).NoMatch?
    {
      MatchesExactlyWhen(shape, pathname);
    }
  }

  lemma NoneOfPreserved(pathname: string, embed: bool)
    requires forall shape | Exempt(shape, embed) :: Match(shape, pathname).NoMatch?
    ensures FirstOf(Preserved(embed), pathname).NoMatch?
  {
    NoneMatch(Preserved(embed), pathname);
  }

  lemma {:induction false} NoneMatch(shapes: seq<Shape>, pathname: string)
    requires forall shape | shape in shapes :: Match(shape, pathname).NoMatch?
    ensures FirstOf(shapes, pathname).NoMatch?
  {
    if shapes != [] {
      assert shapes[0] in shapes && forall shape | shape in shapes[1..] :: shape in shapes;
      NoneMatch(shapes[1..], pathname);
    }
  }

  lemma RedirectOfProjectId(pathname: string, fallback: Option<string>)
    requires IsBytes(pathname) && ProjectSegment(pathname).Some?
    ensures Decode(ProjectSegment(pathname).value).Some? ==>
      IsBytes(Decode(ProjectSegment(pathname).value).value) && Decode(ProjectSegment(pathname).value).value != ""
  {
    SplitIsBytes(pathname);
    if Decode(Split(pathname)[3]).Some? {
      DecodedIsBytes(Split(pathname)[3]);
    }
  }

  lemma RedirectOfOthers(pathname: string, fallback: Option<string>, embed: bool)
    requires IsBytes(pathname) && (fallback.Some? ==> IsBytes(fallback.value))
    requires forall shape | Exempt(shape, embed) :: Match(shape, pathname).NoMatch?
    ensures var r, project := OperationsRedirect(pathname, fallback, embed), RedirectProject(pathname, fallback);
      if !("/app" <= pathname) then r == Stay
      else
        match project
        case Malformed => r == Throws
        case NoMatch => r == Stay
        case Matched(ids) => |ids| == 1 && Ids(ids) && r == GoTo("/app/projects/" + Encode(ids[0]) + "/operations")
  {
    NoneOfPreserved(pathname, embed);
    if RedirectProject(pathname, fallback).Matched? {
      RedirectProjectIsId(pathname, fallback);
    }
  }
}
