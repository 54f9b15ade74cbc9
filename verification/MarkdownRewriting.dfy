/** The rewrite of whole documents: what a reader of the rewritten document finds
    in its links, and which of them still lead to where their old target moved. */
module MarkdownRewriting {
  import opened Options
  import opened PosixPath
  import opened Text
  import opened MarkdownLinks
  import opened LinkText
  import opened LinkReading
  import opened LinkQueries
  import opened LinkTargets
  import opened MarkdownDocuments

  /** A move map whose destinations are files of the repository. */
  ghost predicate MoveMap(moves: map<string, string>) {
    forall from | from in moves :: InRepository(moves[from])
  }

  /** What the rewrite is meant to do to one link. A target that names no path stays as
      it is. In the place of a path the reader finds, in the wrapper of before and with
      the fragment and title of before, a path that leads, from the new place of the
      document, to where the old target moved. */
  predicate KeepsTarget(raw: string, rewritten: string, oldSource: string, newSource: string,
      moves: map<string, string>) {
    if NamesNoPath(SplitTarget(raw).target) then rewritten == raw
    else
      var link, again := Dissect(raw), Dissect(rewritten);
      && link.Relative? && again.Relative? && again == link.(path := again.path)
      && LeadsTo(again.path, newSource, link.path, oldSource, moves)
  }

  /** When a file that a link names survives although the link is left as it is: above
      the root, in a move to the same depth; inside, when its path is still the right one. */
  predicate LeftAloneSurvives(url: string, oldSource: string, newSource: string, moves: map<string, string>) {
    var resolved := ResolvedOld(url, oldSource);
    url == "" ||
    if "../" <= resolved || (resolved == ".." && resolved !in moves) then Depth(newSource) == Depth(oldSource)
    else ResolvedOld(url, newSource) == NormPath(ImageOf(url, oldSource, moves))
  }

  /** The components of the path that the rewrite prints lead to the image, for a link
      without a query: none opens a query, and the holding directory exists. */
  predicate PlainPathSurvives(way: seq<string>, image: string, cwd: seq<string>) {
    !AnyHas(way, Is('?')) && (image == ".." ==> cwd != [])
  }

  /** When a link survives, told by the components on the way from the new directory
      of its document to the image of its target: they fit the link, and lead there. */
  predicate Survives(raw: string, oldSource: string, newSource: string, moves: map<string, string>, cwd: seq<string>) {
    match Dissect(raw)
    case Fixed => true
    case Relative(_, path, _, _) =>
      if "../" <= ResolvedOld(path, oldSource) then LeftAloneSurvives(UrlPart(path), oldSource, newSource, moves)
      else
        var image := ImageOf(path, oldSource, moves);
        var way := WayTo(image, newSource, cwd);
        && Fits(Printed(path, way), Dissect(raw))
        && if '?' in path then QuerySurvives(Printed(path, way), newSource, path, oldSource, moves)
           else PlainPathSurvives(way, image, cwd)
  }

  lemma MiddleIsDetermined(before: string, path: string, other: string, fragment: string, after: string)
    requires before + path + fragment + after == before + other + fragment + after
    ensures path == other
  {
    var s, t := before + path + fragment + after, before + other + fragment + after;
    assert |s| == |before| + |path| + |fragment| + |after|;
    assert path == s[|before|..|before| + |path|];
    assert other == t[|before|..|before| + |other|];
  }

  /** Which path is read in the rewritten text is decided by the text around it. */
  lemma ReadPathIsDetermined(rewritten: string, newPath: string, link: Link)
    requires link.Relative? && rewritten == link.before + newPath + link.fragment + link.after
    requires Dissect(rewritten).Relative? && Dissect(rewritten) == link.(path := Dissect(rewritten).path)
    ensures Dissect(rewritten).path == newPath
  {
    DissectReassembles(rewritten);
    MiddleIsDetermined(link.before, newPath, Dissect(rewritten).path, link.fragment, link.after);
  }

  lemma KeepsTargetMeans(
    raw: string, link: Link, newPath: string, oldSource: string, newSource: string, moves: map<string, string>)
    requires link.Relative? && Dissect(raw) == link
    ensures KeepsTarget(raw, link.before + newPath + link.fragment + link.after, oldSource, newSource, moves)
       <==> FitPath(newPath, link) && LeadsTo(newPath, newSource, link.path, oldSource, moves)
  {
    var rewritten := link.before + newPath + link.fragment + link.after;
    FixedExactlyWhen(raw);
    ReplacedPathIsReadExactlyWhen(raw, newPath);
    if Dissect(rewritten).Relative? && Dissect(rewritten) == link.(path := Dissect(rewritten).path) {
      ReadPathIsDetermined(rewritten, newPath, link);
    }
  }

  // ------------------------------------------------------- links that are rewritten

  lemma ImageOfGuardedLink(path: string, oldSource: string, moves: map<string, string>)
    requires MoveMap(moves) && !Absolute(oldSource) && !Absolute(path) && !("../" <= ResolvedOld(path, oldSource))
    ensures var image := ImageOf(path, oldSource, moves); InRepository(image) || image == ".."
  {
    UnmovedImageIsInside(path, oldSource);
  }

  lemma UpsAreRelative(n: nat)
    ensures !Absolute(Render(Ups(n))) && Render(Ups(n)) != ""
  {
    assert forall c | c in Ups(n) :: c == "..";
    RelativeRender(Ups(n));
  }

  lemma HoldingLinkKeepsTargetExactlyWhen(path: string, start: string, cwd: seq<string>)
    requires Inside(cwd) && InRepository(start)
    ensures NormPath(JoinPath(start, RewrittenPath(path, "..", start, cwd))) == NormPath("..") <==> cwd != []
  {
    LinkToHoldingDirectoryKeepsTargetExactlyWhen(start, cwd);
    WayToHoldingDirectory(start, cwd);
    UpsAreRelative(|Walk([], Split(start), false)| + if cwd == [] then 0 else 1);
    DotSlashIsNothing(start, RelPath("..", start, cwd));
  }

  lemma GuardedPathLeadsExactlyWhen(path: string, image: string, start: string, cwd: seq<string>)
    requires Inside(cwd) && InRepository(start) && (InRepository(image) || image == "..")
    ensures NormPath(JoinPath(start, RewrittenPath(path, image, start, cwd))) == NormPath(image)
       <==> (image == ".." ==> cwd != [])
  {
    if image == ".." {
      HoldingLinkKeepsTargetExactlyWhen(path, start, cwd);
    } else {
      RewrittenPathLeadsBack(path, image, start, cwd);
    }
  }

  lemma PrintedHas(path: string, way: seq<string>, c: char)
    requires c != '.' && c != '/'
    ensures c in Join(Printed(path, way)) <==> AnyHas(way, Is(c))
  {
    JoinHas(Printed(path, way), Is(c));
    HasChar(Join(Printed(path, way)), c);
    HasChar(".", c);
    AnyHasOne(".", Is(c));
    AnyHasInConcat(["."], way, Is(c));
  }

  /** A rewritten path without a query leads to the image exactly when it does not
      grow one on the way, and has a directory to lead to. */
  lemma PlainPathLeadsExactlyWhen(
    path: string, oldSource: string, newSource: string, moves: map<string, string>, cwd: seq<string>)
    requires Inside(cwd) && InRepository(Parent(newSource)) && path != "" && '?' !in path
    requires !Absolute(path) && !Absolute(oldSource)
    requires var image := ImageOf(path, oldSource, moves); InRepository(image) || image == ".."
    ensures var image := ImageOf(path, oldSource, moves);
      LeadsTo(RewrittenPath(path, image, Parent(newSource), cwd), newSource, path, oldSource, moves)
      <==> PlainPathSurvives(WayTo(image, newSource, cwd), image, cwd)
  {
    var image := ImageOf(path, oldSource, moves);
    var newPath := RewrittenPath(path, image, Parent(newSource), cwd);
    NothingToCut(path);
    MovedIs(path, oldSource, moves);
    RewrittenPathIsPrinted(path, image, newSource, cwd);
    PrintedHas(path, WayTo(image, newSource, cwd), '?');
    GuardedPathLeadsExactlyWhen(path, image, Parent(newSource), cwd);
    if '?' !in newPath {
      NothingToCut(newPath);
      var pieces := Printed(path, WayTo(image, newSource, cwd));
      assert pieces[0] in pieces;
      JoinStarts(pieces);
    }
  }

  lemma GuardedLinkSurvives(
    raw: string, link: Link, oldSource: string, newSource: string, moves: map<string, string>, cwd: seq<string>)
    requires link.Relative? && Dissect(raw) == link && !("../" <= ResolvedOld(link.path, oldSource))
    ensures var image := ImageOf(link.path, oldSource, moves);
      var way := WayTo(image, newSource, cwd);
      Survives(raw, oldSource, newSource, moves, cwd) <==>
        && Fits(Printed(link.path, way), link)
        && if '?' in link.path then QuerySurvives(Printed(link.path, way), newSource, link.path, oldSource, moves)
           else PlainPathSurvives(way, image, cwd)
  {
  }

  lemma GuardedLinkKeepsTargetExactlyWhen(
    raw: string, link: Link, oldSource: string, newSource: string, moves: map<string, string>, cwd: seq<string>)
    requires Inside(cwd) && MoveMap(moves)
    requires !Absolute(oldSource) && InRepository(Parent(oldSource)) && InRepository(Parent(newSource))
    requires link.Relative? && Dissect(raw) == link && !("../" <= ResolvedOld(link.path, oldSource))
    ensures var rewritten := RewriteRaw(raw, oldSource, newSource, moves, cwd);
      rewritten.Some? && (KeepsTarget(raw, rewritten.value, oldSource, newSource, moves)
                          <==> Survives(raw, oldSource, newSource, moves, cwd))
  {
    var image := ImageOf(link.path, oldSource, moves);
    var newPath := RewrittenPath(link.path, image, Parent(newSource), cwd);
    RelativePathIsRelative(raw);
    ImageOfGuardedLink(link.path, oldSource, moves);
    GuardedLinkIsRewritten(raw, oldSource, newSource, moves, cwd);
    RewrittenPathIsPrinted(link.path, image, newSource, cwd);
    JoinFits(Printed(link.path, WayTo(image, newSource, cwd)), raw, link);
    if '?' in link.path {
      JoinedQueryLeadsExactlyWhen(
        Printed(link.path, WayTo(image, newSource, cwd)), newSource, link.path, oldSource, moves);
    } else {
      PlainPathLeadsExactlyWhen(link.path, oldSource, newSource, moves, cwd);
    }
    GuardedLinkSurvives(raw, link, oldSource, newSource, moves, cwd);
    KeepsTargetMeans(raw, link, newPath, oldSource, newSource, moves);
  }

  /** No directory of the document and no moved file has a question mark in its name. */
  ghost predicate Unmarked(oldSource: string, newSource: string, moves: map<string, string>) {
    '?' !in Parent(oldSource) && '?' !in Parent(newSource) && Unqueried(moves)
  }

  /** In ordinary names the link with a query survives exactly when its components fit,
      nothing normalises its query and its file is not moved. */
  lemma QueriedLinkSurvivesExactlyWhen(
    raw: string, link: Link, oldSource: string, newSource: string, moves: map<string, string>, cwd: seq<string>)
    requires Inside(cwd) && MoveMap(moves) && Unmarked(oldSource, newSource, moves)
    requires !Absolute(oldSource) && InRepository(Parent(oldSource)) && InRepository(Parent(newSource))
    requires link.Relative? && Dissect(raw) == link && !("../" <= ResolvedOld(link.path, oldSource)) && '?' in link.path
    ensures Survives(raw, oldSource, newSource, moves, cwd) <==>
      && Fits(Printed(link.path, WayTo(ImageOf(link.path, oldSource, moves), newSource, cwd)), link)
      && QueriedFileStays(link.path, oldSource, newSource, moves)
  {
    var image := ImageOf(link.path, oldSource, moves);
    RelativePathIsRelative(raw);
    ImageOfGuardedLink(link.path, oldSource, moves);
    RewrittenPathIsPrinted(link.path, image, newSource, cwd);
    QueriedPathLeadsExactlyWhen(link.path, oldSource, newSource, moves, cwd);
    JoinedQueryLeadsExactlyWhen(
      Printed(link.path, WayTo(image, newSource, cwd)), newSource, link.path, oldSource, moves);
    GuardedLinkSurvives(raw, link, oldSource, newSource, moves, cwd);
  }

  // --------------------------------------------------------- links that are left

  lemma LeftAloneLeadsExactlyWhen(path: string, oldSource: string, newSource: string, moves: map<string, string>)
    requires !Absolute(oldSource) && InRepository(Parent(oldSource)) && InRepository(Parent(newSource))
    requires !Absolute(path)
    ensures LeadsTo(path, newSource, path, oldSource, moves)
       <==> LeftAloneSurvives(UrlPart(path), oldSource, newSource, moves)
  {
    var url := UrlPart(path);
    assert !Absolute(url);
    var resolved := ResolvedOld(url, oldSource);
    UnmovedImageIsInside(url, oldSource);
    MovedIs(url, oldSource, moves);
    JoinedWalk(Parent(newSource), url);
    NormalizeWalks(JoinPath(Parent(newSource), url));
    if "../" <= resolved || (resolved == ".." && resolved !in moves) {
      LinkAboveRootKeepsTargetExactlyWhen(url, oldSource, newSource);
      JoinedWalk(Parent(oldSource), url);
      NormalizeWalks(JoinPath(Parent(oldSource), url));
    }
  }

  lemma LeavingLinkKeepsTargetExactlyWhen(
    raw: string, link: Link, oldSource: string, newSource: string, moves: map<string, string>, cwd: seq<string>)
    requires !Absolute(oldSource) && InRepository(Parent(oldSource)) && InRepository(Parent(newSource))
    requires link.Relative? && Dissect(raw) == link && "../" <= ResolvedOld(link.path, oldSource)
    ensures RewriteRaw(raw, oldSource, newSource, moves, cwd) == Some(raw)
    ensures KeepsTarget(raw, raw, oldSource, newSource, moves) <==> Survives(raw, oldSource, newSource, moves, cwd)
  {
    RelativePathIsRelative(raw);
    FixedExactlyWhen(raw);
    LeftAloneLeadsExactlyWhen(link.path, oldSource, newSource, moves);
  }

  /** The rewrite of a link raises nothing. What is read in the rewritten link leads
      to where the old target moved exactly when the link survives: the components on
      its way contain nothing that cuts the link where it stands, a query in it is
      plain and its file unmoved, and when it leaves the repository it does so from
      the same depth, or to the directory that holds a repository that has one. */
  lemma LinkKeepsTargetExactlyWhen(
    raw: string, oldSource: string, newSource: string, moves: map<string, string>, cwd: seq<string>)
    requires Inside(cwd) && MoveMap(moves)
    requires !Absolute(oldSource) && InRepository(Parent(oldSource)) && InRepository(Parent(newSource))
    ensures var rewritten := RewriteRaw(raw, oldSource, newSource, moves, cwd);
      rewritten.Some? && (KeepsTarget(raw, rewritten.value, oldSource, newSource, moves)
                          <==> Survives(raw, oldSource, newSource, moves, cwd))
  {
    var link := Dissect(raw);
    FixedExactlyWhen(raw);
    if link.Relative? {
      if "../" <= ResolvedOld(link.path, oldSource) {
        LeavingLinkKeepsTargetExactlyWhen(raw, link, oldSource, newSource, moves, cwd);
      } else {
        GuardedLinkKeepsTargetExactlyWhen(raw, link, oldSource, newSource, moves, cwd);
      }
    }
  }

  // ------------------------------------------------------------ the whole pass

  predicate Raises(d: Document, oldSource: string, newSource: string, moves: map<string, string>, cwd: seq<string>) {
    match d
    case Literal(_) => false
    case Linked(_, raw, rest) =>
      RewriteRaw(raw, oldSource, newSource, moves, cwd).None? || Raises(rest, oldSource, newSource, moves, cwd)
  }

  function Rewriter(oldSource: string, newSource: string, moves: map<string, string>,
      cwd: seq<string>): string -> string {
    raw =>
      match RewriteRaw(raw, oldSource, newSource, moves, cwd)
      case Some(rewritten) => rewritten
      case None => raw
  }

  /** `rewrite_markdown_links`; `None` is the exception a move to an empty path raises. */
  function RewriteMarkdownLinks(
    text: string, oldSource: string, newSource: string, moves: map<string, string>, cwd: seq<string>): Option<string>
  {
    if Raises(Read(text), oldSource, newSource, moves, cwd) then None
    else Some(Substitute(text, Rewriter(oldSource, newSource, moves, cwd)))
  }

  /** Same literal text, same number of links, every link kept. */
  predicate KeepsTargets(d: Document, e: Document, oldSource: string, newSource: string,
      moves: map<string, string>) {
    match (d, e)
    case (Literal(a), Literal(b)) => a == b
    case (Linked(a, raw, rest), Linked(b, rewritten, more)) =>
      a == b && KeepsTarget(raw, rewritten, oldSource, newSource, moves)
          && KeepsTargets(rest, more, oldSource, newSource, moves)
    case _ => false
  }

  /** No component on the way of a rewritten link ends its target early. */
  predicate Closes(raw: string, oldSource: string, newSource: string, moves: map<string, string>, cwd: seq<string>) {
    match Dissect(raw)
    case Fixed => true
    case Relative(_, path, _, _) =>
      "../" <= ResolvedOld(path, oldSource)
      || !AnyHas(WayTo(ImageOf(path, oldSource, moves), newSource, cwd), Is(')'))
  }

  predicate AllClose(d: Document, oldSource: string, newSource: string, moves: map<string, string>,
      cwd: seq<string>) {
    match d
    case Literal(_) => true
    case Linked(_, raw, rest) =>
      Closes(raw, oldSource, newSource, moves, cwd) && AllClose(rest, oldSource, newSource, moves, cwd)
  }

  predicate AllSurvive(d: Document, oldSource: string, newSource: string, moves: map<string, string>,
      cwd: seq<string>) {
    match d
    case Literal(_) => true
    case Linked(_, raw, rest) =>
      Survives(raw, oldSource, newSource, moves, cwd) && AllSurvive(rest, oldSource, newSource, moves, cwd)
  }

  lemma {:induction false} MappedLinksKeepTargets(
    d: Document, oldSource: string, newSource: string, moves: map<string, string>, cwd: seq<string>)
    requires Inside(cwd) && MoveMap(moves)
    requires !Absolute(oldSource) && InRepository(Parent(oldSource)) && InRepository(Parent(newSource))
    ensures !Raises(d, oldSource, newSource, moves, cwd)
    ensures KeepsTargets(d, MapLinks(d, Rewriter(oldSource, newSource, moves, cwd)), oldSource, newSource, moves)
       <==> AllSurvive(d, oldSource, newSource, moves, cwd)
  {
    match d
    case Literal(_) =>
    case Linked(_, raw, rest) =>
      LinkKeepsTargetExactlyWhen(raw, oldSource, newSource, moves, cwd);
      MappedLinksKeepTargets(rest, oldSource, newSource, moves, cwd);
  }

  // -------------------------------------------------------------- reading back

  lemma MiddleReplaced(before: string, path: string, newPath: string, fragment: string, after: string)
    requires ')' !in before + path + fragment + after && newPath != ""
    ensures GoodRaw(before + newPath + fragment + after) <==> ')' !in newPath
  {
    var s, t := before + path + fragment + after, before + newPath + fragment + after;
    assert forall c | c in before || c in fragment || c in after :: c in s;
    assert forall c | c in newPath :: c in t;
  }

  lemma PrintedIsNotEmpty(path: string, way: seq<string>)
    requires forall piece | piece in Printed(path, way) :: piece != ""
    ensures Join(Printed(path, way)) != ""
  {
    assert Printed(path, way)[0] in Printed(path, way);
    JoinStarts(Printed(path, way));
  }

  /** What is written in the place of a link that is rewritten. */
  lemma GuardedTargetIsPrinted(
    raw: string, link: Link, oldSource: string, newSource: string, moves: map<string, string>, cwd: seq<string>)
    requires Inside(cwd) && MoveMap(moves) && !Absolute(oldSource) && InRepository(Parent(newSource))
    requires link.Relative? && Dissect(raw) == link && !("../" <= ResolvedOld(link.path, oldSource))
    ensures var newPath := Join(Printed(link.path, WayTo(ImageOf(link.path, oldSource, moves), newSource, cwd)));
      && newPath != ""
      && Rewriter(oldSource, newSource, moves, cwd)(raw) == link.before + newPath + link.fragment + link.after
  {
    var image := ImageOf(link.path, oldSource, moves);
    RelativePathIsRelative(raw);
    ImageOfGuardedLink(link.path, oldSource, moves);
    RewrittenPathIsPrinted(link.path, image, newSource, cwd);
    PrintedIsNotEmpty(link.path, WayTo(image, newSource, cwd));
    GuardedLinkIsRewritten(raw, oldSource, newSource, moves, cwd);
  }

  lemma GuardedTargetIsGoodExactlyWhen(
    raw: string, link: Link, oldSource: string, newSource: string, moves: map<string, string>, cwd: seq<string>)
    requires Inside(cwd) && MoveMap(moves) && !Absolute(oldSource) && InRepository(Parent(newSource)) && GoodRaw(raw)
    requires link.Relative? && Dissect(raw) == link && !("../" <= ResolvedOld(link.path, oldSource))
    ensures GoodRaw(Rewriter(oldSource, newSource, moves, cwd)(raw))
       <==> Closes(raw, oldSource, newSource, moves, cwd)
  {
    var way := WayTo(ImageOf(link.path, oldSource, moves), newSource, cwd);
    DissectReassembles(raw);
    GuardedTargetIsPrinted(raw, link, oldSource, newSource, moves, cwd);
    PrintedHas(link.path, way, ')');
    MiddleReplaced(link.before, link.path, Join(Printed(link.path, way)), link.fragment, link.after);
  }

  lemma KeptTargetIsGood(raw: string, oldSource: string, newSource: string, moves: map<string, string>,
      cwd: seq<string>)
    requires Dissect(raw).Fixed? || "../" <= ResolvedOld(Dissect(raw).path, oldSource)
    ensures Rewriter(oldSource, newSource, moves, cwd)(raw) == raw
    ensures Closes(raw, oldSource, newSource, moves, cwd)
  {
  }

  /** The rewritten targets are free of ')' exactly when no component on their way has one. */
  lemma {:induction false} RewrittenLinksAreGoodExactlyWhen(
    d: Document, oldSource: string, newSource: string, moves: map<string, string>, cwd: seq<string>)
    requires Inside(cwd) && MoveMap(moves) && !Absolute(oldSource) && InRepository(Parent(newSource)) && GoodLinks(d)
    ensures GoodLinks(MapLinks(d, Rewriter(oldSource, newSource, moves, cwd)))
       <==> AllClose(d, oldSource, newSource, moves, cwd)
  {
    if d.Linked? {
      if Dissect(d.raw).Fixed? || "../" <= ResolvedOld(Dissect(d.raw).path, oldSource) {
        KeptTargetIsGood(d.raw, oldSource, newSource, moves, cwd);
      } else {
        GuardedTargetIsGoodExactlyWhen(d.raw, Dissect(d.raw), oldSource, newSource, moves, cwd);
      }
      RewrittenLinksAreGoodExactlyWhen(d.rest, oldSource, newSource, moves, cwd);
    }
  }

  /** No directory above the document and no destination has a ')' in its name. */
  predicate NoParenthesis(oldSource: string, moves: map<string, string>) {
    ')' !in Parent(oldSource) && forall from | from in moves :: ')' !in moves[from]
  }

  function WithoutParenthesis(): string -> bool {
    name => ')' !in name
  }

  lemma NamesInPath(cs: seq<string>, c: char)
    requires c != '.' && forall part | part in cs :: part == "" || part == "." || part == ".." || c !in part
    ensures !AnyHas(cs, Is(c))
  {
    forall i | 0 <= i < |cs|
      ensures !Has(cs[i], Is(c))
    {
      HasChar(cs[i], c);
    }
  }

  lemma ImageHasNoParenthesis(path: string, oldSource: string, moves: map<string, string>)
    requires NoParenthesis(oldSource, moves) && MoveMap(moves) && !Absolute(oldSource)
    requires ')' !in path && !Absolute(path) && !("../" <= ResolvedOld(path, oldSource))
    ensures NamesOf(ImageOf(path, oldSource, moves), WithoutParenthesis())
  {
    var resolved, p := ResolvedOld(path, oldSource), WithoutParenthesis();
    PartsLack(path, ')');
    PartsLack(Parent(oldSource), ')');
    ResolvedNames(path, oldSource, p);
    if resolved in moves {
      PartsLack(moves[resolved], ')');
    }
  }

  lemma WayHasNoParenthesis(image: string, newSource: string, cwd: seq<string>)
    requires InRepository(image) || image == ".."
    requires NamesOf(image, WithoutParenthesis())
    ensures !AnyHas(WayTo(image, newSource, cwd), Is(')'))
  {
    var way := WayTo(image, newSource, cwd);
    if image != ".." {
      WalkKeepsNames([], Split(image), WithoutParenthesis());
      WayKeepsNames(DirectoryOf(newSource), Walk([], Split(image), false), WithoutParenthesis());
      WayIsPlain(DirectoryOf(newSource), Walk([], Split(image), false));
      forall c | c in way
        ensures c == "" || c == "." || c == ".." || ')' !in c
      {
        assert Name(c) ==> WithoutParenthesis()(c);
      }
    }
    NamesInPath(way, ')');
  }

  lemma {:induction false} NoParenthesisCloses(
    d: Document, oldSource: string, newSource: string, moves: map<string, string>, cwd: seq<string>)
    requires MoveMap(moves) && !Absolute(oldSource) && NoParenthesis(oldSource, moves) && GoodLinks(d)
    ensures AllClose(d, oldSource, newSource, moves, cwd)
  {
    if d.Linked? {
      var link := Dissect(d.raw);
      if link.Relative? && !("../" <= ResolvedOld(link.path, oldSource)) {
        RelativePathIsRelative(d.raw);
        PathIsInRaw(d.raw);
        ImageOfGuardedLink(link.path, oldSource, moves);
        ImageHasNoParenthesis(link.path, oldSource, moves);
        WayHasNoParenthesis(ImageOf(link.path, oldSource, moves), newSource, cwd);
      }
      NoParenthesisCloses(d.rest, oldSource, newSource, moves, cwd);
    }
  }

  lemma PathIsInRaw(raw: string)
    requires Dissect(raw).Relative?
    ensures forall c | c in Dissect(raw).path :: c in raw
  {
    DissectReassembles(raw);
  }

  // ------------------------------------------------------- counting parentheses

  function Closings(s: string): nat {
    multiset(s)[')']
  }

  /** The ')' of the literal text, and one for each link. */
  function ClosingsAround(d: Document): nat {
    match d
    case Literal(text) => Closings(text)
    case Linked(text, _, rest) => Closings(text) + 1 + ClosingsAround(rest)
  }

  function ClosingsWithin(d: Document): nat {
    match d
    case Literal(_) => 0
    case Linked(_, raw, rest) => Closings(raw) + ClosingsWithin(rest)
  }

  lemma ClosingsOfWrap(text: string, raw: string, rest: string)
    ensures Closings(Wrap(text, raw, rest)) == Closings(text) + Closings(raw) + 1 + Closings(rest)
  {
    assert multiset(Wrap(text, raw, rest))
        == multiset(text) + (multiset("](") + (multiset(raw) + (multiset(")") + multiset(rest))));
    assert multiset("](")[')'] == 0 && multiset(")")[')'] == 1;
  }

  lemma {:induction false} ClosingsOfPrint(d: Document)
    ensures Closings(Print(d)) == ClosingsAround(d) + ClosingsWithin(d)
  {
    match d
    case Literal(_) =>
    case Linked(text, raw, rest) =>
      ClosingsOfWrap(text, raw, Print(rest));
      ClosingsOfPrint(rest);
  }

  lemma NoClosings(s: string)
    ensures Closings(s) == 0 <==> ')' !in s
  {
    assert ')' in multiset(s) <==> ')' in s;
  }

  lemma {:induction false} GoodLinksHaveNoClosings(d: Document)
    ensures GoodLinks(d) ==> ClosingsWithin(d) == 0
    ensures ClosingsWithin(d) == 0 && NoLinkIsEmpty(d) ==> GoodLinks(d)
  {
    if d.Linked? {
      NoClosings(d.raw);
      GoodLinksHaveNoClosings(d.rest);
    }
  }

  predicate NoLinkIsEmpty(d: Document) {
    match d
    case Literal(_) => true
    case Linked(_, raw, rest) => raw != "" && NoLinkIsEmpty(rest)
  }

  lemma {:induction false} KeptTextHasSameClosings(
    d: Document, e: Document, f: string -> string, oldSource: string, newSource: string, moves: map<string, string>)
    requires KeepsTargets(d, e, oldSource, newSource, moves)
    ensures ClosingsAround(MapLinks(d, f)) == ClosingsAround(e)
  {
    if d.Linked? {
      KeptTextHasSameClosings(d.rest, e.rest, f, oldSource, newSource, moves);
    }
  }

  /** When what is read in the rewritten document keeps its links, it is what was written. */
  lemma KeptDocumentReadsBack(
    text: string, f: string -> string, oldSource: string, newSource: string, moves: map<string, string>)
    requires var d := MapLinks(Read(text), f);
      NoLinkIsEmpty(d) && KeepsTargets(Read(text), Read(Print(d)), oldSource, newSource, moves)
    ensures GoodLinks(MapLinks(Read(text), f))
  {
    var d := MapLinks(Read(text), f);
    var e := Read(Print(d));
    ReadIsReadable(Print(d));
    KeptTextHasSameClosings(Read(text), e, f, oldSource, newSource, moves);
    ClosingsOfPrint(d);
    ClosingsOfPrint(e);
    GoodLinksHaveNoClosings(d);
    GoodLinksHaveNoClosings(e);
  }

  lemma RewrittenTargetIsNotEmpty(raw: string, oldSource: string, newSource: string, moves: map<string, string>,
      cwd: seq<string>)
    requires Inside(cwd) && MoveMap(moves) && !Absolute(oldSource) && InRepository(Parent(newSource)) && raw != ""
    ensures Rewriter(oldSource, newSource, moves, cwd)(raw) != ""
  {
    var link := Dissect(raw);
    if link.Relative? && !("../" <= ResolvedOld(link.path, oldSource)) {
      GuardedTargetIsPrinted(raw, link, oldSource, newSource, moves, cwd);
    } else {
      KeptTargetIsGood(raw, oldSource, newSource, moves, cwd);
    }
  }

  lemma {:induction false} RewrittenLinksAreNotEmpty(
    d: Document, oldSource: string, newSource: string, moves: map<string, string>, cwd: seq<string>)
    requires Inside(cwd) && MoveMap(moves) && !Absolute(oldSource) && InRepository(Parent(newSource)) && GoodLinks(d)
    ensures NoLinkIsEmpty(MapLinks(d, Rewriter(oldSource, newSource, moves, cwd)))
  {
    if d.Linked? {
      RewrittenTargetIsNotEmpty(d.raw, oldSource, newSource, moves, cwd);
      RewrittenLinksAreNotEmpty(d.rest, oldSource, newSource, moves, cwd);
    }
  }

  // ------------------------------------------------------- links that lead elsewhere

  /** The same literal text and as many links, those that point elsewhere unchanged. */
  predicate ElsewhereKept(d: Document, e: Document) {
    match (d, e)
    case (Literal(a), Literal(b)) => a == b
    case (Linked(a, raw, rest), Linked(b, rewritten, more)) =>
      a == b && (PointsElsewhere(raw) ==> rewritten == raw) && ElsewhereKept(rest, more)
    case _ => false
  }

  predicate OnlyElsewhere(d: Document) {
    match d
    case Literal(_) => true
    case Linked(_, raw, rest) => PointsElsewhere(raw) && OnlyElsewhere(rest)
  }

  lemma {:induction false} MappedElsewhereKept(
    d: Document, oldSource: string, newSource: string, moves: map<string, string>, cwd: seq<string>)
    ensures var e := MapLinks(d, Rewriter(oldSource, newSource, moves, cwd));
      ElsewhereKept(d, e) && (OnlyElsewhere(d) ==> e == d)
    ensures OnlyElsewhere(d) ==> !Raises(d, oldSource, newSource, moves, cwd)
  {
    if d.Linked? {
      if PointsElsewhere(d.raw) {
        ElsewhereIsLeftAlone(d.raw, oldSource, newSource, moves, cwd);
      }
      MappedElsewhereKept(d.rest, oldSource, newSource, moves, cwd);
    }
  }

  /** In a rewritten document the links that point elsewhere are where they were, as they
      were; a document with no others is left as it is. */
  lemma ElsewhereLinksStay(
    text: string, oldSource: string, newSource: string, moves: map<string, string>, cwd: seq<string>)
    returns (e: Document)
    ensures var rewritten := RewriteMarkdownLinks(text, oldSource, newSource, moves, cwd);
      rewritten.Some? ==> rewritten == Some(Print(e)) && ElsewhereKept(Read(text), e)
    ensures OnlyElsewhere(Read(text)) ==> RewriteMarkdownLinks(text, oldSource, newSource, moves, cwd) == Some(text)
  {
    e := MapLinks(Read(text), Rewriter(oldSource, newSource, moves, cwd));
    MappedElsewhereKept(Read(text), oldSource, newSource, moves, cwd);
    SubstituteMapsLinks(text, Rewriter(oldSource, newSource, moves, cwd));
    ReadIsReadable(text);
  }

  // ---------------------------------------------------------- what raises

  /** The targets of a document, in order. */
  function Targets(d: Document): seq<string> {
    match d
    case Literal(_) => []
    case Linked(_, raw, rest) => [raw] + Targets(rest)
  }

  /** The file of the link is given the empty path as its destination. */
  predicate MovesNowhere(raw: string, oldSource: string, moves: map<string, string>) {
    match Dissect(raw)
    case Fixed => false
    case Relative(_, path, _, _) =>
      var resolved := ResolvedOld(path, oldSource);
      !("../" <= resolved) && resolved in moves && moves[resolved] == ""
  }

  lemma NormalPathIsNotEmpty(s: string)
    ensures NormPath(s) != ""
  {
    if !Absolute(s) {
      SplitWalkIsNormal([], s);
      var cs := Walk([], Split(s), false);
      assert cs != [] ==> cs[0] != "" && Join(cs)[0] == cs[0][0];
    }
  }

  lemma LinkRaisesExactlyWhen(raw: string, oldSource: string, newSource: string, moves: map<string, string>,
      cwd: seq<string>)
    ensures RewriteRaw(raw, oldSource, newSource, moves, cwd).None? <==> MovesNowhere(raw, oldSource, moves)
  {
    var link := Dissect(raw);
    if link.Relative? {
      NormalPathIsNotEmpty(AsPosix(JoinPath(Parent(oldSource), link.path)));
    }
  }

  lemma {:induction false} RaisesForSomeTarget(
    d: Document, oldSource: string, newSource: string, moves: map<string, string>, cwd: seq<string>)
    ensures Raises(d, oldSource, newSource, moves, cwd)
        <==> exists raw :: raw in Targets(d) && RewriteRaw(raw, oldSource, newSource, moves, cwd).None?
  {
    if d.Linked? {
      RaisesForSomeTarget(d.rest, oldSource, newSource, moves, cwd);
      assert forall raw :: raw in Targets(d) <==> raw == d.raw || raw in Targets(d.rest);
    }
  }

  /** The rewrite raises exactly when the moves give a linked file the empty path. */
  lemma RewriteRaisesExactlyWhen(
    text: string, oldSource: string, newSource: string, moves: map<string, string>, cwd: seq<string>)
    ensures RewriteMarkdownLinks(text, oldSource, newSource, moves, cwd).None?
        <==> exists raw :: raw in Targets(Read(text)) && MovesNowhere(raw, oldSource, moves)
  {
    RaisesForSomeTarget(Read(text), oldSource, newSource, moves, cwd);
    forall raw
      ensures RewriteRaw(raw, oldSource, newSource, moves, cwd).None? <==> MovesNowhere(raw, oldSource, moves)
    {
      LinkRaisesExactlyWhen(raw, oldSource, newSource, moves, cwd);
    }
  }

  // ------------------------------------------------------------------ the result

  /** Rewriting a document raises nothing. Reading the rewritten document finds the
      same literal text and as many links, each of them leading to where its old
      target moved, exactly when every link survives and no component on the way of
      a rewritten link has a ')'. The latter is exactly when the rewritten targets
      are found again, and so whenever no directory or destination has one. */
  lemma RewriteKeepsDocument(text: string, oldSource: string, newSource: string, moves: map<string, string>,
      cwd: seq<string>)
    requires Inside(cwd) && MoveMap(moves)
    requires !Absolute(oldSource) && InRepository(Parent(oldSource)) && InRepository(Parent(newSource))
    ensures var rewritten := RewriteMarkdownLinks(text, oldSource, newSource, moves, cwd);
      && rewritten.Some?
      && (KeepsTargets(Read(text), Read(rewritten.value), oldSource, newSource, moves) <==>
          AllSurvive(Read(text), oldSource, newSource, moves, cwd)
          && AllClose(Read(text), oldSource, newSource, moves, cwd))
      && (Read(rewritten.value) == MapLinks(Read(text), Rewriter(oldSource, newSource, moves, cwd))
          <==> AllClose(Read(text), oldSource, newSource, moves, cwd))
    ensures NoParenthesis(oldSource, moves) ==> AllClose(Read(text), oldSource, newSource, moves, cwd)
  {
    var f := Rewriter(oldSource, newSource, moves, cwd);
    var d := MapLinks(Read(text), f);
    MappedLinksKeepTargets(Read(text), oldSource, newSource, moves, cwd);
    SubstituteMapsLinks(text, f);
    ReadIsReadable(text);
    RewrittenDocumentReadsBackExactlyWhen(text, f);
    RewrittenLinksAreGoodExactlyWhen(Read(text), oldSource, newSource, moves, cwd);
    RewrittenLinksAreNotEmpty(Read(text), oldSource, newSource, moves, cwd);
    if KeepsTargets(Read(text), Read(Print(d)), oldSource, newSource, moves) {
      KeptDocumentReadsBack(text, f, oldSource, newSource, moves);
    }
    if NoParenthesis(oldSource, moves) {
      NoParenthesisCloses(Read(text), oldSource, newSource, moves, cwd);
    }
  }
}
