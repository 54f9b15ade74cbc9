/** Links with a query in front of their fragment. The rewrite takes the query for
    part of the path; a browser ends the path at the question mark. */
module LinkQueries {
  import opened Options
  import opened PosixPath
  import opened Text
  import opened MarkdownLinks
  import opened LinkText
  import opened LinkReading

  /** The path of a relative reference, up to its query. */
  function UrlPart(s: string): string {
    s[..IndexOf(s, '?')]
  }

  function Query(s: string): string {
    s[|UrlPart(s)|..]
  }

  /** The slashes and dots of a query do not climb out of the last name of the path. */
  ghost predicate QueryStays(q: string) {
    Inside(Walk([], Split(q)[1..], false))
  }

  /** Behind the first slash of a query there are names only, so that nothing normalises it. */
  predicate QueryPlain(q: string) {
    forall i | 1 <= i < |Split(q)| :: Name(Split(q)[i])
  }

  ghost predicate Unqueried(moves: map<string, string>) {
    forall from | from in moves :: '?' !in from
  }

  // ------------------------------------------------------- components and queries

  /** The last component of `x` and the first of `y` become one. */
  function Glued(x: seq<string>, y: seq<string>): (g: seq<string>)
    requires x != [] && y != []
    ensures g != []
  {
    x[..|x| - 1] + ([x[|x| - 1] + y[0]] + y[1..])
  }

  lemma GlueBehindSlash(x: seq<string>, y: seq<string>)
    requires x != [] && y != []
    ensures Glued([""] + x, y) == [""] + Glued(x, y)
  {
  }

  lemma GlueBehindChar(c: char, x: seq<string>, y: seq<string>)
    requires x != [] && y != []
    ensures var g := Glued(x, y); Glued([[c] + x[0]] + x[1..], y) == [[c] + g[0]] + g[1..]
  {
    var longer := [[c] + x[0]] + x[1..];
    if |x| == 1 {
      assert ([c] + x[0]) + y[0] == [c] + (x[0] + y[0]);
    } else {
      assert longer[|x| - 1] == x[|x| - 1] && longer[..|x| - 1] == [[c] + x[0]] + x[1..|x| - 1];
      assert x[..|x| - 1] == [x[0]] + x[1..|x| - 1];
    }
  }

  lemma {:induction false} SplitGlued(a: string, b: string)
    ensures Split(a + b) == Glued(Split(a), Split(b))
  {
    if a == "" {
      assert a + b == b;
      assert "" + Split(b)[0] == Split(b)[0];
    } else {
      assert (a + b)[0] == a[0] && (a + b)[1..] == a[1..] + b;
      SplitGlued(a[1..], b);
      GlueBehindSlash(Split(a[1..]), Split(b));
      GlueBehindChar(a[0], Split(a[1..]), Split(b));
    }
  }

  lemma {:induction false} JoinLacks(cs: seq<string>, c: char)
    requires c != '/' && forall part | part in cs :: c !in part
    ensures c !in Join(cs)
  {
    if cs != [] {
      assert cs[0] in cs;
      if |cs| > 1 {
        JoinLacks(cs[1..], c);
      }
    }
  }

  lemma {:induction false} JoinExtends(way: seq<string>, last: string, query: string, names: seq<string>)
    ensures Join(way + ([last + query] + names)) == Join(way + [last]) + Join([query] + names)
  {
    if way == [] {
      assert [] + ([last + query] + names) == [last + query] + names && [] + [last] == [last];
      assert ([query] + names)[1..] == names;
      JoinPrepends(last, [query] + names);
    } else {
      var a, b := way + ([last + query] + names), way + [last];
      JoinExtends(way[1..], last, query, names);
      assert a[1..] == way[1..] + ([last + query] + names) && b[1..] == way[1..] + [last];
      assert way[0] + "/" + (Join(b[1..]) + Join([query] + names))
          == (way[0] + "/" + Join(b[1..])) + Join([query] + names);
    }
  }

  lemma CutAtQuery(path: string, rest: string)
    requires '?' !in path && rest != "" && rest[0] == '?'
    ensures UrlPart(path + rest) == path && Query(path + rest) == rest
  {
    var s := path + rest;
    assert forall k | 0 <= k < |path| :: s[k] == path[k];
    FirstIndex(s, '?', |path|);
  }

  lemma {:induction false} CommonPrefixStops(a: seq<string>, b: seq<string>, c: string, more: seq<string>)
    requires c !in a
    ensures CommonPrefix(a, b + ([c] + more)) == CommonPrefix(a, b)
  {
    var longer := b + ([c] + more);
    if a != [] && b != [] && a[0] == b[0] {
      assert longer[1..] == b[1..] + ([c] + more);
      CommonPrefixStops(a[1..], b[1..], c, more);
    }
  }

  lemma WayExtends(a: seq<string>, b: seq<string>, c: string, more: seq<string>)
    requires c !in a
    ensures Way(a, b + ([c] + more)) == Way(a, b) + ([c] + more)
  {
    CommonPrefixStops(a, b, c, more);
    var shared := CommonPrefix(a, b);
    assert (b + ([c] + more))[shared..] == b[shared..] + ([c] + more);
  }

  // -------------------------------------------------------- where such a link leads

  /** The directory that holds the last component of a path, walked from a directory. */
  function HolderOf(from: seq<string>, path: string): seq<string> {
    Walk(from, Split(path)[..|Split(path)| - 1], false)
  }

  function LastOf(path: string): string {
    Split(path)[|Split(path)| - 1]
  }

  lemma WalkToLast(from: seq<string>, path: string)
    ensures Walk(from, Split(path), false) == Walk(HolderOf(from, path), [LastOf(path)], false)
  {
    var parts := Split(path);
    assert parts == parts[..|parts| - 1] + [LastOf(path)];
    WalkConcat(from, parts[..|parts| - 1], [LastOf(path)], false);
  }

  lemma QueriedName(last: string, query: string)
    requires '/' !in last && '/' !in query && '?' in query
    ensures Name(last + query) && '?' in last + query
  {
    var c := last + query;
    var i :| 0 <= i < |query| && query[i] == '?';
    assert c[|last| + i] == '?';
  }

  lemma FirstOfQuery(q: string)
    requires q != "" && q[0] == '?'
    ensures Split(q)[0] != "" && Split(q)[0][0] == '?' && '/' !in Split(q)[0]
  {
    SplitPieces(q, 0);
  }

  lemma WalkName(done: seq<string>, c: string, tail: seq<string>)
    requires Name(c)
    ensures Walk(done, [c] + tail, false) == Walk(done + [c], tail, false)
  {
    assert ([c] + tail)[0] == c && ([c] + tail)[1..] == tail;
  }

  lemma OneBetween(a: seq<string>, c: string, b: seq<string>)
    ensures a + [c] + b == a + ([c] + b)
  {
  }

  lemma NameThenInside(done: seq<string>, c: string, tail: seq<string>)
    requires Name(c) && (forall part | part in tail :: '/' !in part) && Inside(Walk([], tail, false))
    ensures Walk(done, [c] + tail, false) == done + ([c] + Walk([], tail, false))
  {
    var names := Walk([], tail, false);
    WalkName(done, c, tail);
    WalkIsWalkOfNormal(done + [c], [], tail);
    NormalWalksToItself(done + [c], names);
    OneBetween(done, c, names);
  }

  /** A path with a query is walked to the holder of its last name, the name with the
      query, and what the query adds. */
  lemma QueriedWalk(from: seq<string>, p: string, q: string)
    requires q != "" && q[0] == '?' && QueryStays(q)
    ensures Walk(from, Split(p + q), false)
         == HolderOf(from, p) + ([LastOf(p) + Split(q)[0]] + Walk([], Split(q)[1..], false))
  {
    var init, c, tail := Split(p)[..|Split(p)| - 1], LastOf(p) + Split(q)[0], Split(q)[1..];
    SplitGlued(p, q);
    FirstOfQuery(q);
    SplitPieces(p, |Split(p)| - 1);
    assert Split(q)[0][0] in Split(q)[0];
    QueriedName(LastOf(p), Split(q)[0]);
    NoSlashInPieces(q);
    assert forall part | part in tail :: part in Split(q);
    WalkConcat(from, init, [c] + tail, false);
    NameThenInside(HolderOf(from, p), c, tail);
  }

  /** The relative path to `holder`/`last`?query/names, cut at the query, leads to `holder`/`last`. */
  lemma CutWayLeadsThere(from: seq<string>, holder: seq<string>, last: string, query: string, names: seq<string>)
    requires Inside(from) && Inside(holder) && '/' !in last && query != "" && query[0] == '?'
    requires '?' !in last && (forall c | c in from :: '?' !in c) && (forall c | c in holder :: '?' !in c)
    ensures var path := Join(Way(from, holder) + [last]);
      var relative := Render(Way(from, holder + ([last + query] + names)));
      && UrlPart(relative) == path && Query(relative) == Join([query] + names) && '?' in relative
      && !Absolute(path) && Split(path) == Way(from, holder) + [last]
      && Walk(from, Split(path), false) == Walk(holder, [last], false)
  {
    var way, tail := Way(from, holder), Join([query] + names);
    var path := Join(way + [last]);
    assert (last + query)[|last|] == '?';
    WayExtends(from, holder, last + query, names);
    JoinExtends(way, last, query, names);
    WayIsPlain(from, holder);
    WayLacksQuery(from, holder);
    JoinLacks(way + [last], '?');
    assert tail != "" && tail[0] == '?';
    CutAtQuery(path, tail);
    assert (path + tail)[|path|] == '?';
    JoinedWayIsPath(way, last);
    WayLeadsThere(from, holder);
    WalkConcat(from, way, [last], false);
  }

  lemma WayLacksQuery(from: seq<string>, holder: seq<string>)
    requires forall c | c in holder :: '?' !in c
    ensures forall c | c in Way(from, holder) :: '?' !in c
  {
    var shared := CommonPrefix(from, holder);
    assert forall c | c in holder[shared..] :: c in holder;
  }

  lemma JoinedWayIsPath(way: seq<string>, last: string)
    requires (forall c | c in way :: c != "" && '/' !in c) && '/' !in last
    ensures var path := Join(way + [last]);
      !Absolute(path) && Split(path) == way + [last]
  {
    SplitJoin(way + [last]);
    if way != [] {
      assert way[0] in way;
      assert Join(way + [last]) == way[0] + "/" + Join((way + [last])[1..]);
    }
  }

  function LacksQuery(): string -> bool {
    name => '?' !in name
  }

  lemma HolderIsInside(from: seq<string>, p: string, c: string, names: seq<string>)
    requires Inside(HolderOf(from, p) + ([c] + names))
    ensures Inside(HolderOf(from, p))
  {
    var holder, walked := HolderOf(from, p), HolderOf(from, p) + ([c] + names);
    assert forall i | 0 <= i < |holder| :: holder[i] == walked[i];
  }

  lemma WalkLacksQuery(path: string)
    requires '?' !in path && Inside(Walk([], Split(path), false))
    ensures forall c | c in Walk([], Split(path), false) :: '?' !in c
  {
    var walked := Walk([], Split(path), false);
    PartsLack(path, '?');
    WalkKeepsNames([], Split(path), LacksQuery());
    forall c | c in walked
      ensures '?' !in c
    {
      var i :| 0 <= i < |walked| && walked[i] == c;
      assert LacksQuery()(c);
    }
  }

  lemma QueryOfWalk(path: string, c: string)
    requires Inside(Walk([], Split(path), false)) && c in Walk([], Split(path), false) && '?' in c
    ensures '?' in path
  {
    if '?' !in path {
      WalkLacksQuery(path);
    }
  }

  lemma HolderLacksQuery(from: seq<string>, p: string)
    requires '?' !in p && (forall c | c in from :: '?' !in c) && Inside(HolderOf(from, p))
    ensures forall c | c in HolderOf(from, p) :: '?' !in c
  {
    var init, holder := Split(p)[..|Split(p)| - 1], HolderOf(from, p);
    PartsLack(p, '?');
    assert forall c | c in init :: c in Split(p);
    WalkKeepsNames(from, init, LacksQuery());
    forall c | c in holder
      ensures '?' !in c
    {
      var i :| 0 <= i < |holder| && holder[i] == c;
      assert LacksQuery()(c);
    }
  }

  /** A printed list with a query in a name, not above the root. */
  lemma RenderedQueriedList(walked: seq<string>, k: nat)
    requires Normal(walked) && k < |walked| && '?' in walked[k] && !("../" <= Render(walked))
    ensures InRepository(Render(walked)) && '?' in Render(walked) && Walk([], Split(Render(walked)), false) == walked
  {
    RenderedNormalReadsBack(walked);
    SplitName("..");
    assert Walk([], [".."], false) == [".."];
    QueryOfWalk(Render(walked), walked[k]);
  }

  /** The resolved path of a link with a query: inside the repository, with the query in a name. */
  lemma QueriedPathResolves(p: string, q: string, source: string)
    requires q != "" && q[0] == '?' && QueryStays(q) && !Absolute(p + q)
    requires InRepository(Parent(source)) && !("../" <= ResolvedOld(p + q, source))
    ensures var from, resolved := Walk([], Split(Parent(source)), false), ResolvedOld(p + q, source);
      && InRepository(resolved) && '?' in resolved
      && Walk([], Split(resolved), false) == Walk(from, Split(p + q), false)
  {
    var from := Walk([], Split(Parent(source)), false);
    var walked, holder, c := Walk(from, Split(p + q), false), HolderOf(from, p), LastOf(p) + Split(q)[0];
    QueriedWalk(from, p, q);
    assert walked[|holder|] == c;
    FirstOfQuery(q);
    assert c[|LastOf(p)|] == '?';
    JoinedWalk(Parent(source), p + q);
    NormalizeWalks(JoinPath(Parent(source), p + q));
    SplitWalkIsNormal([], Parent(source));
    SplitWalkIsNormal(from, p + q);
    RenderedQueriedList(walked, |holder|);
  }

  /** A rewritten path with a query, read up to the query, leads to where the path
      without the query led from the old place: moved or not, the file is not followed. */
  lemma QueriedPathLeads(p: string, q: string, oldSource: string, newSource: string, cwd: seq<string>)
    requires Inside(cwd) && InRepository(Parent(oldSource)) && InRepository(Parent(newSource))
    requires '?' !in p && '?' !in Parent(oldSource) && '?' !in Parent(newSource)
    requires q != "" && q[0] == '?' && QueryStays(q) && !Absolute(p) && !Absolute(p + q)
    requires !("../" <= ResolvedOld(p + q, oldSource))
    ensures var relative := RelPath(ResolvedOld(p + q, oldSource), Parent(newSource), cwd);
      && '?' in relative && !Absolute(UrlPart(relative))
      && NormPath(JoinPath(Parent(newSource), UrlPart(relative))) == ResolvedOld(p, oldSource)
      && Query(relative) == Join([Split(q)[0]] + Walk([], Split(q)[1..], false))
      && Split(UrlPart(relative))
         == Way(DirectoryOf(newSource), HolderOf(DirectoryOf(oldSource), p)) + [LastOf(p)]
  {
    var from, to := Walk([], Split(Parent(oldSource)), false), Walk([], Split(Parent(newSource)), false);
    var holder, names := HolderOf(from, p), Walk([], Split(q)[1..], false);
    QueriedPathResolves(p, q, oldSource);
    QueriedWalk(from, p, q);
    HolderIsInside(from, p, LastOf(p) + Split(q)[0], names);
    RelPathIsWay(ResolvedOld(p + q, oldSource), Parent(newSource), cwd);
    WalkLacksQuery(Parent(oldSource));
    WalkLacksQuery(Parent(newSource));
    HolderLacksQuery(from, p);
    PartsLack(p, '?');
    FirstOfQuery(q);
    SplitPieces(p, |Split(p)| - 1);
    CutWayLeadsThere(to, holder, LastOf(p), Split(q)[0], names);
    var url := UrlPart(RelPath(ResolvedOld(p + q, oldSource), Parent(newSource), cwd));
    WalkToLast(from, p);
    JoinedWalk(Parent(newSource), url);
    JoinedWalk(Parent(oldSource), p);
    NormalizeWalks(JoinPath(Parent(oldSource), p));
  }

  lemma DotSlashCut(relative: string)
    requires '?' in relative
    ensures UrlPart("./" + relative) == "./" + UrlPart(relative)
  {
    var url, query := UrlPart(relative), relative[|UrlPart(relative)|..];
    assert relative == url + query;
    DotSlashCutAt(url, query);
  }

  lemma DotSlashCutAt(url: string, query: string)
    requires '?' !in url && query != "" && query[0] == '?'
    ensures UrlPart("./" + (url + query)) == "./" + url
  {
    var dotted := "./" + url;
    assert "./" + (url + query) == dotted + query;
    CutAtQuery(dotted, query);
  }

  lemma DotSlashLeads(relative: string, start: string)
    requires '?' in relative && !Absolute(UrlPart(relative)) && start != "" && !Absolute(start)
    ensures NormPath(JoinPath(start, UrlPart("./" + relative))) == NormPath(JoinPath(start, UrlPart(relative)))
  {
    DotSlashCut(relative);
    DotSlashIsNothing(start, UrlPart(relative));
  }

  lemma RelativeOrDotted(path: string, image: string, start: string, cwd: seq<string>)
    ensures var relative, newPath := RelPath(image, start, cwd), RewrittenPath(path, image, start, cwd);
      newPath == if "./" <= path && !("." <= relative) then "./" + relative else relative
  {
  }

  lemma RewrittenQueryLeads(p: string, q: string, oldSource: string, newSource: string, cwd: seq<string>)
    requires Inside(cwd) && InRepository(Parent(oldSource)) && InRepository(Parent(newSource))
    requires '?' !in p && '?' !in Parent(oldSource) && '?' !in Parent(newSource)
    requires q != "" && q[0] == '?' && QueryStays(q) && !Absolute(p) && !Absolute(p + q)
    requires !("../" <= ResolvedOld(p + q, oldSource))
    ensures var newPath := RewrittenPath(p + q, ResolvedOld(p + q, oldSource), Parent(newSource), cwd);
      NormPath(JoinPath(Parent(newSource), UrlPart(newPath))) == ResolvedOld(p, oldSource)
  {
    var resolved := ResolvedOld(p + q, oldSource);
    QueriedPathLeads(p, q, oldSource, newSource, cwd);
    RelativeOrDotted(p + q, resolved, Parent(newSource), cwd);
    DotSlashLeads(RelPath(resolved, Parent(newSource), cwd), Parent(newSource));
  }

  lemma QueryIsCut(path: string)
    requires '?' in path
    ensures var p, q := UrlPart(path), Query(path);
      && path == p + q && '?' !in p && q != "" && q[0] == '?' && (!Absolute(path) ==> !Absolute(p))
  {
    var p, q := UrlPart(path), Query(path);
    assert path == p + q;
  }

  /** A link with a query in front of its fragment keeps leading to its file exactly
      when the file is not moved. */
  lemma QueriedLinkKeepsTargetExactlyWhen(
    raw: string, oldSource: string, newSource: string, moves: map<string, string>, cwd: seq<string>)
    returns (newPath: string)
    requires Inside(cwd) && InRepository(Parent(oldSource)) && InRepository(Parent(newSource))
    requires '?' !in Parent(oldSource) && '?' !in Parent(newSource) && Unqueried(moves)
    requires Dissect(raw).Relative? && '?' in Dissect(raw).path && !("../" <= ResolvedOld(Dissect(raw).path, oldSource))
    requires var path := Dissect(raw).path; QueryStays(Query(path))
    ensures var link := Dissect(raw);
      RewriteRaw(raw, oldSource, newSource, moves, cwd) == Some(link.before + newPath + link.fragment + link.after)
    ensures var file := ResolvedOld(UrlPart(Dissect(raw).path), oldSource);
      NormPath(JoinPath(Parent(newSource), UrlPart(newPath))) == NormPath(MovedImage(file, moves))
      <==> NormPath(MovedImage(file, moves)) == file
  {
    var path := Dissect(raw).path;
    var p, q := UrlPart(path), Query(path);
    RelativePathIsRelative(raw);
    QueryIsCut(path);
    QueriedPathResolves(p, q, oldSource);
    var resolved := ResolvedOld(path, oldSource);
    newPath := RewrittenPath(path, resolved, Parent(newSource), cwd);
    assert resolved !in moves;
    GuardedLinkIsRewritten(raw, oldSource, newSource, moves, cwd);
    RewrittenQueryLeads(p, q, oldSource, newSource, cwd);
  }

  // ------------------------------------------------ what a reader of the link finds

  /** What a path up to its query refers to: the document itself when it is empty
      (section 5.2.2 of RFC 3986). */
  datatype Place = Itself | At(path: string)

  function PlaceOf(url: string, source: string): Place {
    if url == "" then Itself else At(NormPath(JoinPath(Parent(source), url)))
  }

  /** Where a file is after the moves, or where it was; nothing moves above the root. */
  function Moved(url: string, source: string, moves: map<string, string>): string {
    var here := NormPath(JoinPath(Parent(source), url));
    if here in moves && !("../" <= here) then NormPath(moves[here]) else here
  }

  /** Where that place is after the moves. */
  function MovedPlace(url: string, source: string, moves: map<string, string>): Place {
    if url == "" then Itself else At(Moved(url, source, moves))
  }

  lemma MovedIs(url: string, source: string, moves: map<string, string>)
    requires !Absolute(url) && !Absolute(source)
    ensures NormPath(ImageOf(url, source, moves)) == Moved(url, source, moves)
  {
    ParentIsRelative(source);
    JoinStaysRelative(Parent(source), url);
    NormalizeWalks(JoinPath(Parent(source), url));
    UnmovedImageIsInside(url, source);
  }

  /** A path in the moved document refers to where the place of the old path has moved, with the same query. */
  predicate LeadsTo(newPath: string, newSource: string, path: string, oldSource: string, moves: map<string, string>) {
    Query(newPath) == Query(path) && PlaceOf(UrlPart(newPath), newSource) == MovedPlace(UrlPart(path), oldSource, moves)
  }

  /** The first component with a character in it. */
  function FirstWith(cs: seq<string>, c: char): (k: nat)
    ensures k <= |cs| && (k < |cs| ==> c in cs[k]) && forall i | 0 <= i < k :: c !in cs[i]
  {
    if cs == [] || c in cs[0] then 0 else 1 + FirstWith(cs[1..], c)
  }

  /** The components of a path up to its query, and those of the query. */
  function UrlPieces(pieces: seq<string>): seq<string> {
    var k := FirstWith(pieces, '?');
    if k < |pieces| then pieces[..k] + [UrlPart(pieces[k])] else pieces
  }

  function QueryPieces(pieces: seq<string>): seq<string> {
    var k := FirstWith(pieces, '?');
    if k < |pieces| then [Query(pieces[k])] + pieces[k + 1..] else []
  }

  /** When the components of a new path lead to where a file with a query has moved:
      they end in the components of the query, and those in front of it, if there are
      any, lead from the new directory to the image of the file. */
  predicate QuerySurvives(pieces: seq<string>, newSource: string, path: string, oldSource: string,
      moves: map<string, string>) {
    var url := UrlPart(path);
    && QueryPieces(pieces) == Split(Query(path)) && (UrlPieces(pieces) == [""] <==> url == "")
    && (url != "" ==>
          Walk(DirectoryOf(newSource), UrlPieces(pieces), false)
          == Walk([], Split(ImageOf(url, oldSource, moves)), false))
  }

  lemma CutAround(head: seq<string>, url: string, query: string, tail: seq<string>)
    requires '?' !in url && query != "" && query[0] == '?' && forall c | c in head :: '?' !in c
    ensures var s := Join(head + ([url + query] + tail));
      UrlPart(s) == Join(head + [url]) && Query(s) == Join([query] + tail)
  {
    JoinExtends(head, url, query, tail);
    JoinLacks(head + [url], '?');
    assert Join([query] + tail) != "" && Join([query] + tail)[0] == '?';
    CutAtQuery(Join(head + [url]), Join([query] + tail));
  }

  lemma CutPiece(c: string)
    requires '?' in c && '/' !in c
    ensures c == UrlPart(c) + Query(c) && '?' !in UrlPart(c) && Query(c) != "" && Query(c)[0] == '?'
    ensures '/' !in UrlPart(c) && '/' !in Query(c)
  {
    assert forall d | d in UrlPart(c) || d in Query(c) :: d in c;
  }

  lemma PiecesAroundQuery(pieces: seq<string>, k: nat)
    requires (forall piece | piece in pieces :: piece != "" && '/' !in piece) && k < |pieces|
    requires '?' in pieces[k] && forall i | 0 <= i < k :: '?' !in pieces[i]
    ensures pieces == pieces[..k] + ([UrlPart(pieces[k]) + Query(pieces[k])] + pieces[k + 1..])
    ensures forall c | c in pieces[..k] :: '?' !in c && c != "" && '/' !in c
    ensures forall c | c in [Query(pieces[k])] + pieces[k + 1..] :: '/' !in c
  {
    CutPiece(pieces[k]);
    assert forall c | c in pieces[..k] || c in pieces[k + 1..] :: c in pieces;
  }

  lemma CutJoined(pieces: seq<string>)
    requires (forall piece | piece in pieces :: piece != "" && '/' !in piece)
    requires FirstWith(pieces, '?') < |pieces|
    ensures UrlPart(Join(pieces)) == Join(UrlPieces(pieces)) && Query(Join(pieces)) == Join(QueryPieces(pieces))
    ensures Split(Join(UrlPieces(pieces))) == UrlPieces(pieces) && !Absolute(Join(UrlPieces(pieces)))
    ensures Split(Join(QueryPieces(pieces))) == QueryPieces(pieces)
  {
    var k := FirstWith(pieces, '?');
    PiecesAroundQuery(pieces, k);
    CutPiece(pieces[k]);
    CutAround(pieces[..k], UrlPart(pieces[k]), Query(pieces[k]), pieces[k + 1..]);
    JoinedWayIsPath(pieces[..k], UrlPart(pieces[k]));
    SplitJoin([Query(pieces[k])] + pieces[k + 1..]);
  }

  lemma NothingCut(pieces: seq<string>)
    requires FirstWith(pieces, '?') == |pieces|
    ensures Query(Join(pieces)) == "" && QueryPieces(pieces) == []
  {
    JoinLacks(pieces, '?');
    NothingToCut(Join(pieces));
  }

  lemma PlaceIsReached(url: string, newSource: string, image: string)
    requires !Absolute(url) && InRepository(Parent(newSource)) && !Absolute(image)
    ensures NormPath(JoinPath(Parent(newSource), url)) == NormPath(image)
       <==> Walk(DirectoryOf(newSource), Split(url), false) == Walk([], Split(image), false)
  {
    JoinedWalk(Parent(newSource), url);
    SplitWalkIsNormal([], image);
    RenderedNormalReadsBack(Walk([], Split(image), false));
  }

  lemma EmptyUrl(url: string)
    ensures url == "" <==> Split(url) == [""]
  {
    JoinSplit(url);
    assert Join([""]) == "";
  }

  lemma ImageIsRelative(url: string, oldSource: string, moves: map<string, string>)
    requires !Absolute(url) && !Absolute(oldSource) && forall from | from in moves :: !Absolute(moves[from])
    ensures !Absolute(ImageOf(url, oldSource, moves))
  {
    ParentIsRelative(oldSource);
    JoinedWalk(Parent(oldSource), url);
    NormalizeWalks(JoinPath(Parent(oldSource), url));
    SplitWalkIsNormal([], JoinPath(Parent(oldSource), url));
    RenderedNormalReadsBack(Walk([], Split(JoinPath(Parent(oldSource), url)), false));
  }

  /** A path of components, read up to its query, leads to where a file with a query
      has moved exactly when its components say so. */
  lemma JoinedQueryLeadsExactlyWhen(
    pieces: seq<string>, newSource: string, path: string, oldSource: string, moves: map<string, string>)
    requires forall piece | piece in pieces :: piece != "" && '/' !in piece
    requires InRepository(Parent(newSource)) && !Absolute(oldSource)
    requires '?' in path && !Absolute(path) && forall from | from in moves :: !Absolute(moves[from])
    ensures LeadsTo(Join(pieces), newSource, path, oldSource, moves)
       <==> QuerySurvives(pieces, newSource, path, oldSource, moves)
  {
    QueryIsCut(path);
    if FirstWith(pieces, '?') < |pieces| {
      var url := UrlPart(Join(pieces));
      CutJoined(pieces);
      JoinSplit(Query(path));
      EmptyUrl(url);
      ImageIsRelative(UrlPart(path), oldSource, moves);
      MovedIs(UrlPart(path), oldSource, moves);
      PlaceIsReached(url, newSource, ImageOf(UrlPart(path), oldSource, moves));
    } else {
      NothingCut(pieces);
    }
  }

  // --------------------------------------------- the query that the rewrite prints

  lemma NothingToCut(s: string)
    requires '?' !in s
    ensures UrlPart(s) == s && Query(s) == ""
  {
  }

  lemma QueryOfConcat(a: string, b: string)
    ensures '?' !in a ==> Query(a + b) == Query(b)
    ensures '?' in a ==> Query(a + b) == Query(a) + b
  {
    var s := a + b;
    if '?' in a {
      assert a == UrlPart(a) + Query(a);
      assert s == UrlPart(a) + (Query(a) + b);
      CutAtQuery(UrlPart(a), Query(a) + b);
    } else if '?' in b {
      assert b == UrlPart(b) + Query(b);
      assert s == (a + UrlPart(b)) + Query(b);
      CutAtQuery(a + UrlPart(b), Query(b));
    } else {
      NothingToCut(s);
    }
  }

  lemma QueryOfName(c: string)
    requires '/' !in c
    ensures '/' !in Query(c) && Split(Query(c)) == [Query(c)]
  {
    assert forall d | d in Query(c) :: d in c;
    SplitName(Query(c));
  }

  /** What stands behind the first '?' of a normal list is plain. */
  lemma {:induction false} NormalQueryIsPlain(cs: seq<string>)
    requires Normal(cs)
    ensures QueryPlain(Query(Join(cs)))
  {
    if cs != [] {
      var rest := cs[1..];
      QueryOfName(cs[0]);
      if rest != [] {
        NormalTail(cs);
        NormalQueryIsPlain(rest);
        QueryOfConcat(cs[0] + "/", Join(rest));
        QueryOfConcat(cs[0], "/");
        QueryOfConcat("/", Join(rest));
        if '?' in cs[0] {
          NamesAfterName(cs, |cs|);
          NamesHaveNoSlash(rest);
          SplitJoin(rest);
          SplitAtSlash(Query(cs[0]), Join(rest));
          assert Query(Join(cs)) == Query(cs[0]) + "/" + Join(rest);
        }
      }
    }
  }

  lemma NamesHaveNoSlash(names: seq<string>)
    requires forall i | 0 <= i < |names| :: Name(names[i])
    ensures forall c | c in names :: '/' !in c
  {
  }

  lemma WayIsNormal(from: seq<string>, to: seq<string>)
    requires Inside(to)
    ensures Normal(Way(from, to))
  {
    var n, way := |from| - CommonPrefix(from, to), Way(from, to);
    assert forall i | 0 <= i < n :: way[i] == "..";
    assert forall i | n <= i < |way| :: way[i] == to[i - n + CommonPrefix(from, to)];
  }

  lemma WayToIsNormal(image: string, source: string, cwd: seq<string>)
    requires InRepository(image) || image == ".."
    ensures Normal(WayTo(image, source, cwd))
  {
    if image != ".." {
      WayIsNormal(DirectoryOf(source), Walk([], Split(image), false));
    }
  }

  lemma PrintedWayIsPlain(way: seq<string>)
    requires Normal(way)
    ensures QueryPlain(Query(Render(way))) && Query("./" + Render(way)) == Query(Render(way))
  {
    QueryOfConcat("./", Render(way));
    if way == [] {
      NothingToCut(".");
      SplitName("");
    } else {
      NormalQueryIsPlain(way);
    }
  }

  /** The rewrite prints plain queries only. */
  lemma PrintedQueryIsPlain(path: string, image: string, source: string, cwd: seq<string>)
    requires Inside(cwd) && InRepository(Parent(source)) && (InRepository(image) || image == "..")
    ensures QueryPlain(Query(RewrittenPath(path, image, Parent(source), cwd)))
  {
    RelPathPrintsWay(image, source, cwd);
    WayToIsNormal(image, source, cwd);
    RelativeOrDotted(path, image, Parent(source), cwd);
    PrintedWayIsPlain(WayTo(image, source, cwd));
  }

  lemma PlainQueryStays(q: string)
    requires QueryPlain(q)
    ensures QueryStays(q) && Walk([], Split(q)[1..], false) == Split(q)[1..]
    ensures Join([Split(q)[0]] + Split(q)[1..]) == q
  {
    var names := Split(q)[1..];
    assert forall i | 0 <= i < |names| :: names[i] == Split(q)[i + 1];
    NormalWalksToItself([], names);
    assert [] + names == names && [Split(q)[0]] + names == Split(q);
    JoinSplit(q);
  }

  // ------------------------------------------------- when a queried link survives

  /** What the rewrite prints in front of the query is empty: the path leads, by a
      slash or nothing at its end, to the new directory of the document. */
  predicate PrintsNothing(p: string, oldSource: string, newSource: string) {
    !("./" <= p) && LastOf(p) == "" && HolderOf(DirectoryOf(oldSource), p) == DirectoryOf(newSource)
  }

  /** Nothing normalises the query, the file in front of it has not moved, and what is
      printed for it is not empty; or, when there is no file in front of it, the
      document stays in its directory. */
  predicate QueriedFileStays(path: string, oldSource: string, newSource: string, moves: map<string, string>) {
    var p := UrlPart(path);
    && QueryPlain(Query(path)) && (PrintsNothing(p, oldSource, newSource) <==> p == "")
    && (p != "" ==> NormPath(ImageOf(p, oldSource, moves)) == ResolvedOld(p, oldSource))
  }

  lemma WayIsEmptyExactlyWhen(from: seq<string>, to: seq<string>)
    ensures Way(from, to) == [] <==> from == to
  {
    var shared := CommonPrefix(from, to);
    if from == to {
      PrefixOfItself(to, []);
      assert to + [] == to;
    }
    if Way(from, to) == [] {
      assert |Way(from, to)| == |from| - shared + |to| - shared;
      assert from == from[..shared] && to == to[..shared];
    }
  }

  lemma UrlIsEmptyExactlyWhen(relative: string, way: seq<string>, last: string)
    requires '?' in relative && Split(UrlPart(relative)) == way + [last]
    ensures UrlPart(relative) == "" <==> way == [] && last == ""
    ensures UrlPart(relative) == "" ==> !("." <= relative)
    ensures UrlPart("./" + relative) != "" && Query("./" + relative) == Query(relative)
  {
    DotSlashCut(relative);
    QueryOfConcat("./", relative);
    JoinSplit(UrlPart(relative));
    if way == [] && last == "" {
      assert Join([""]) == "";
    }
    if UrlPart(relative) == "" {
      assert |way + [last]| == 1 && (way + [last])[0] == last;
      assert relative[0] == '?';
    }
  }

  lemma DottedInFront(p: string, q: string)
    requires q != "" && q[0] == '?'
    ensures "./" <= p + q <==> "./" <= p
  {
    var s := p + q;
    assert |p| >= 2 ==> s[..2] == p[..2];
    assert |p| == 1 ==> s[1] == '?';
    assert |p| == 0 ==> s[0] == '?';
  }

  /** What the rewrite of a queried link prints in front of a plain query, and behind it. */
  lemma PlainQueryIsPrinted(p: string, q: string, oldSource: string, newSource: string, cwd: seq<string>)
    requires Inside(cwd) && InRepository(Parent(oldSource)) && InRepository(Parent(newSource))
    requires '?' !in p && '?' !in Parent(oldSource) && '?' !in Parent(newSource)
    requires q != "" && q[0] == '?' && QueryPlain(q) && !Absolute(p) && !Absolute(p + q)
    requires !("../" <= ResolvedOld(p + q, oldSource))
    ensures var newPath := RewrittenPath(p + q, ResolvedOld(p + q, oldSource), Parent(newSource), cwd);
      Query(newPath) == q && (UrlPart(newPath) == "" <==> PrintsNothing(p, oldSource, newSource))
  {
    var resolved := ResolvedOld(p + q, oldSource);
    var to, holder := DirectoryOf(newSource), HolderOf(DirectoryOf(oldSource), p);
    PlainQueryStays(q);
    QueriedPathLeads(p, q, oldSource, newSource, cwd);
    RelativeOrDotted(p + q, resolved, Parent(newSource), cwd);
    DottedInFront(p, q);
    UrlIsEmptyExactlyWhen(RelPath(resolved, Parent(newSource), cwd), Way(to, holder), LastOf(p));
    WayIsEmptyExactlyWhen(to, holder);
  }

  lemma ReachedPlaceIsRightExactlyWhen(
    newPath: string, newSource: string, path: string, oldSource: string, moves: map<string, string>)
    requires !Absolute(UrlPart(path)) && !Absolute(oldSource)
    requires var p := UrlPart(path);
      && Query(newPath) == Query(path) && QueryPlain(Query(path))
      && (UrlPart(newPath) == "" <==> PrintsNothing(p, oldSource, newSource))
      && NormPath(JoinPath(Parent(newSource), UrlPart(newPath))) == ResolvedOld(p, oldSource)
    ensures LeadsTo(newPath, newSource, path, oldSource, moves)
       <==> QueriedFileStays(path, oldSource, newSource, moves)
  {
    MovedIs(UrlPart(path), oldSource, moves);
  }

  lemma QueriedImageIsUnmoved(path: string, oldSource: string, moves: map<string, string>)
    requires InRepository(Parent(oldSource)) && Unqueried(moves) && '?' in path && !Absolute(path)
    requires !("../" <= ResolvedOld(path, oldSource)) && QueryStays(Query(path))
    ensures ImageOf(path, oldSource, moves) == ResolvedOld(path, oldSource)
  {
    QueryIsCut(path);
    QueriedPathResolves(UrlPart(path), Query(path), oldSource);
  }

  lemma PlainQueryLeadsExactlyWhen(
    path: string, oldSource: string, newSource: string, moves: map<string, string>, cwd: seq<string>)
    requires Inside(cwd) && InRepository(Parent(oldSource)) && InRepository(Parent(newSource))
    requires '?' !in Parent(oldSource) && '?' !in Parent(newSource) && Unqueried(moves)
    requires !Absolute(oldSource)
    requires '?' in path && !Absolute(path) && !("../" <= ResolvedOld(path, oldSource)) && QueryPlain(Query(path))
    ensures LeadsTo(RewrittenPath(path, ImageOf(path, oldSource, moves), Parent(newSource), cwd), newSource, path,
                    oldSource, moves)
       <==> QueriedFileStays(path, oldSource, newSource, moves)
  {
    var p, q := UrlPart(path), Query(path);
    QueryIsCut(path);
    PlainQueryStays(q);
    QueriedImageIsUnmoved(path, oldSource, moves);
    RewrittenQueryLeads(p, q, oldSource, newSource, cwd);
    PlainQueryIsPrinted(p, q, oldSource, newSource, cwd);
    ReachedPlaceIsRightExactlyWhen(
      RewrittenPath(path, ResolvedOld(path, oldSource), Parent(newSource), cwd), newSource, path, oldSource, moves);
  }

  /** Where no directory and no moved file has a '?' in its name, the rewritten path of
      a queried link, read up to its query, leads to where the file in front of the
      query has moved exactly when that file stays. */
  lemma QueriedPathLeadsExactlyWhen(
    path: string, oldSource: string, newSource: string, moves: map<string, string>, cwd: seq<string>)
    requires Inside(cwd) && InRepository(Parent(oldSource)) && InRepository(Parent(newSource))
    requires '?' !in Parent(oldSource) && '?' !in Parent(newSource) && Unqueried(moves)
    requires !Absolute(oldSource)
    requires '?' in path && !Absolute(path) && !("../" <= ResolvedOld(path, oldSource))
    requires var image := ImageOf(path, oldSource, moves); InRepository(image) || image == ".."
    ensures LeadsTo(RewrittenPath(path, ImageOf(path, oldSource, moves), Parent(newSource), cwd), newSource, path,
                    oldSource, moves)
       <==> QueriedFileStays(path, oldSource, newSource, moves)
  {
    if QueryPlain(Query(path)) {
      PlainQueryLeadsExactlyWhen(path, oldSource, newSource, moves, cwd);
    } else {
      PrintedQueryIsPlain(path, ImageOf(path, oldSource, moves), newSource, cwd);
    }
  }
}
