/** Rewriting relative Markdown links when documents move. */
module MarkdownLinks {
  import opened Options
  import opened PosixPath
  import opened Text

  /** The length of the leading run without white space, which `\S+` takes. */
  function Word(s: string): (n: nat)
    ensures n <= |s| && (forall i | 0 <= i < n :: !IsSpace(s[i])) && (n < |s| ==> IsSpace(s[n]))
  {
    if s == "" || IsSpace(s[0]) then 0 else 1 + Word(s[1..])
  }

  // ----------------------------------------------------- split_markdown_target

  datatype Split3 = Split3(before: string, target: string, after: string)

  /** The cases of `split_markdown_target` on the stripped text. */
  function SplitValue(value: string): Split3 {
    if value != "" && value[0] == '<' && '>' in value then
      var end := IndexOf(value, '>');
      Split3("<", value[1..end], value[end..])
    else if value == "" || '\n' in value then Split3("", value, "")
    else Split3("", value[..Word(value)], value[Word(value)..])
  }

  /** `split_markdown_target`: wrapper, target, and what follows it. */
  function SplitTarget(raw: string): Split3 {
    var s := SplitValue(Strip(raw));
    Split3(raw[..LeadEnd(raw)] + s.before, s.target, s.after + raw[TrailStart(raw)..])
  }

  function Whole(s: Split3): string {
    s.before + s.target + s.after
  }

  lemma ValueReassembles(value: string)
    ensures Whole(SplitValue(value)) == value
  {
    if value != "" && value[0] == '<' && '>' in value {
      var end := IndexOf(value, '>');
      assert value == "<" + value[1..end] + value[end..];
    }
  }

  lemma Associate(a: string, b: string, c: string, d: string, e: string)
    ensures (a + b) + c + (d + e) == a + (b + c + d) + e
  {
  }

  lemma ThreeSlices(s: string, i: nat, j: nat)
    requires i <= j <= |s|
    ensures s[..i] + s[i..j] + s[j..] == s
  {
  }

  /** The three parts reassemble to the text exactly when the text is empty or
      not blank; a blank text would be counted at both ends. */
  lemma SplitReassembles(raw: string)
    ensures Whole(SplitTarget(raw)) == raw <==> raw == "" || !Blank(raw)
    ensures SplitTarget(raw).target != "" ==> Whole(SplitTarget(raw)) == raw
  {
    StripAgrees(raw);
    var s := SplitValue(Strip(raw));
    ValueReassembles(Strip(raw));
    Associate(raw[..LeadEnd(raw)], s.before, s.target, s.after, raw[TrailStart(raw)..]);
    if Blank(raw) {
      BlankIsDoubled(raw);
    } else {
      ThreeSlices(raw, LeadEnd(raw), TrailStart(raw));
    }
  }

  lemma BlankIsDoubled(raw: string)
    requires Blank(raw)
    ensures SplitTarget(raw).target == "" && Whole(SplitTarget(raw)) == raw + raw
  {
    StripAgrees(raw);
  }

  // -------------------------------------------------------- dissecting a link

  /** Targets that are not paths relative to the document. */
  predicate Elsewhere(target: string) {
    || target == "" || target[0] == '#' || target[0] == '/'
    || "http://" <= target || "https://" <= target || "mailto:" <= target || "data:" <= target
  }

  /** Where the path of a target ends: at its first '#', or without one at its first '?'. */
  function PathEnd(target: string): (n: nat)
    ensures n <= |target|
  {
    if '#' in target then IndexOf(target, '#') else IndexOf(target, '?')
  }

  /** Where it ends according to section 3 of RFC 3986: at the first of either. */
  function UrlPathEnd(target: string): nat {
    var h, q := IndexOf(target, '#'), IndexOf(target, '?');
    if h < q then h else q
  }

  /** The two agree except on a query followed by a fragment. */
  lemma PathEndIsUrlPathEndExactlyWhen(target: string)
    ensures PathEnd(target) == UrlPathEnd(target)
       <==> !('#' in target && '?' in target[..IndexOf(target, '#')])
  {
    var h, q := IndexOf(target, '#'), IndexOf(target, '?');
    if q < h {
      assert target[..h][q] == '?';
    } else {
      assert forall i | 0 <= i < h :: target[..q][i] == target[i];
    }
  }

  datatype Link =
    | Fixed                                                              // left as it is
    | Relative(before: string, path: string, fragment: string, after: string)

  function DissectSplit(s: Split3): Link {
    if Elsewhere(s.target) then Fixed
    else
      var n := PathEnd(s.target);
      if n == 0 then Fixed else Relative(s.before, s.target[..n], s.target[n..], s.after)
  }

  function Dissect(raw: string): Link {
    DissectSplit(SplitTarget(raw))
  }

  lemma CutMiddle(before: string, target: string, after: string, n: nat)
    requires n <= |target|
    ensures before + target[..n] + target[n..] + after == before + target + after
  {
    assert target == target[..n] + target[n..];
  }

  lemma DissectReassembles(raw: string)
    requires Dissect(raw).Relative?
    ensures var link := Dissect(raw); raw == link.before + link.path + link.fragment + link.after
  {
    var s := SplitTarget(raw);
    SplitReassembles(raw);
    CutMiddle(s.before, s.target, s.after, PathEnd(s.target));
  }

  // ---------------------------------------------------------------- rewriting

  function Normalize(s: string): string {
    NormPath(AsPosix(s))
  }

  function ResolvedOld(path: string, oldSource: string): string {
    Normalize(JoinPath(Parent(oldSource), path))
  }

  function MovedImage(resolved: string, moves: map<string, string>): string {
    if resolved in moves then moves[resolved] else resolved
  }

  /** Where the target of a path is after the moves; no move touches what lies above the root. */
  function ImageOf(path: string, oldSource: string, moves: map<string, string>): string {
    var resolved := ResolvedOld(path, oldSource);
    if "../" <= resolved then resolved else MovedImage(resolved, moves)
  }

  function RewrittenPath(path: string, resolvedNew: string, newParent: string, cwd: seq<string>): string {
    var rewritten := RelPath(resolvedNew, newParent, cwd);
    if "./" <= path && !("." <= rewritten) then "./" + rewritten else rewritten
  }

  /** The text between the parentheses after the rewrite. `None` is the
      exception `relpath` raises on an empty path. */
  function RewriteRaw(raw: string, oldSource: string, newSource: string, moves: map<string, string>,
      cwd: seq<string>): Option<string> {
    match Dissect(raw)
    case Fixed => Some(raw)
    case Relative(before, path, fragment, after) =>
      var resolvedOld := ResolvedOld(path, oldSource);
      if "../" <= resolvedOld then Some(raw)
      else
        var resolvedNew := MovedImage(resolvedOld, moves);
        if resolvedNew == "" then None
        else Some(before + RewrittenPath(path, resolvedNew, Parent(newSource), cwd) + fragment + after)
  }

  /** The directory of a document, as names below the root. */
  function DirectoryOf(source: string): seq<string> {
    Walk([], Split(Parent(source)), false)
  }

  /** A path inside the repository: relative, and never above the root. */
  ghost predicate InRepository(path: string) {
    path != "" && !Absolute(path) && Inside(Walk([], Split(path), false))
  }

  lemma {:induction false} NoSlashInPieces(s: string)
    ensures forall c | c in Split(s) :: '/' !in c
  {
    forall c | c in Split(s)
      ensures '/' !in c
    {
      var i :| 0 <= i < |Split(s)| && Split(s)[i] == c;
      SplitPieces(s, i);
    }
  }

  lemma RelativeRender(cs: seq<string>)
    requires forall c | c in cs :: c != "" && '/' !in c
    ensures !Absolute(Render(cs)) && Render(cs) != ""
  {
    if cs != [] {
      assert cs[0] in cs;
      assert Join(cs)[0] == cs[0][0];
    }
  }

  /** `normalize` of a relative path prints the components it walks. */
  lemma NormalizeWalks(s: string)
    requires !Absolute(s)
    ensures Normalize(s) == Render(Walk([], Split(s), false)) == NormPath(s)
  {
    var parts := Parts(Split(s));
    NoSlashInPieces(s);
    forall c | c in parts
      ensures c != "" && '/' !in c
    {
      PartsAreReal(Split(s), c);
    }
    RelativeRender(parts);
    WalkRendered([], parts, false);
    WalkSkipsParts([], Split(s), false);
  }

  /** The directory of a relative source file, walked from the root. */
  lemma ParentIsRelative(source: string)
    requires !Absolute(source)
    ensures !Absolute(Parent(source)) && Parent(source) != ""
  {
    var parts := Parts(Split(source));
    var dir := if parts == [] then [] else parts[..|parts| - 1];
    NoSlashInPieces(source);
    forall c | c in dir
      ensures c != "" && '/' !in c
    {
      assert c in parts;
      PartsAreReal(Split(source), c);
    }
    RelativeRender(dir);
  }

  lemma {:induction false} PartsOfConcat(a: seq<string>, b: seq<string>)
    ensures Parts(a + b) == Parts(a) + Parts(b)
  {
    if a == [] {
      assert a + b == b;
    } else {
      assert (a + b)[0] == a[0] && (a + b)[1..] == a[1..] + b;
      PartsOfConcat(a[1..], b);
    }
  }

  /** The directory of a file is what stands in front of its name. */
  lemma DirectoryOfFile(directory: string, name: string)
    requires !Absolute(directory) && directory != "" && Name(name)
    ensures DirectoryOf(directory + "/" + name) == Walk([], Split(directory), false)
  {
    var path, parts := directory + "/" + name, Parts(Split(directory));
    assert path[0] == directory[0];
    SplitAtSlash(directory, name);
    SplitName(name);
    PartsOfConcat(Split(directory), [name]);
    assert Parts([name]) == [name] + Parts([]);
    assert (parts + [name])[..|parts|] == parts;
    forall c | c in parts
      ensures '/' !in c
    {
      PartsAreReal(Split(directory), c);
      NoSlashInPieces(directory);
    }
    WalkRendered([], parts, false);
    WalkSkipsParts([], Split(directory), false);
  }

  lemma DirectoryOfRootFile(name: string)
    requires Name(name)
    ensures DirectoryOf(name) == []
  {
    SplitName(name);
    assert Parts([name]) == [name] + Parts([]);
    assert [name][..0] == [] && name[0] in name;
    WalkRendered([], [], false);
  }

  lemma AbsoluteInside(cwd: seq<string>, path: string)
    requires Inside(cwd) && !Absolute(path) && Inside(Walk([], Split(path), false))
    ensures AbsComponents(path, cwd) == cwd + Walk([], Split(path), false)
  {
    NoSlashInPieces(path);
    InsideWalkShifts(cwd, [], Split(path));
    assert cwd + [] == cwd;
  }

  /** The relative path from a directory to a file, both inside the repository,
      normalises to the file again, wherever the repository lies. */
  lemma RelPathLeadsBack(path: string, start: string, cwd: seq<string>)
    requires Inside(cwd) && InRepository(path) && InRepository(start)
    ensures NormPath(JoinPath(start, RelPath(path, start, cwd))) == NormPath(path)
    ensures !Absolute(RelPath(path, start, cwd)) && RelPath(path, start, cwd) != ""
  {
    var from, to := Walk([], Split(start), false), Walk([], Split(path), false);
    AbsoluteInside(cwd, start);
    AbsoluteInside(cwd, path);
    WayBelow(cwd, from, to);
    var way := Way(from, to);
    WayIsPlain(from, to);
    RelativeRender(way);
    WayLeadsThere(from, to);
    WalkJoinPath([], start, Render(way), false);
    WalkRendered(from, way, false);
    JoinStaysRelative(start, Render(way));
  }

  lemma RelPathIsWay(path: string, start: string, cwd: seq<string>)
    requires Inside(cwd) && InRepository(path) && InRepository(start)
    ensures RelPath(path, start, cwd) == Render(Way(Walk([], Split(start), false), Walk([], Split(path), false)))
  {
    AbsoluteInside(cwd, start);
    AbsoluteInside(cwd, path);
    WayBelow(cwd, Walk([], Split(start), false), Walk([], Split(path), false));
  }

  lemma WayIsPlain(from: seq<string>, to: seq<string>)
    requires Inside(to)
    ensures forall c | c in Way(from, to) :: c != "" && '/' !in c
  {
    var shared := CommonPrefix(from, to);
    forall c | c in Way(from, to)
      ensures c != "" && '/' !in c
    {
      if c in to[shared..] {
        var i :| shared <= i < |to| && to[i] == c;
        assert Name(to[i]);
      } else {
        assert c == "..";
      }
    }
  }

  lemma JoinStaysRelative(a: string, b: string)
    requires a != "" && !Absolute(a) && !Absolute(b)
    ensures !Absolute(JoinPath(a, b))
  {
    assert JoinPath(a, b)[0] == a[0];
  }

  lemma DotSlashIsNothing(a: string, b: string)
    requires !Absolute(b) && a != "" && !Absolute(a)
    ensures NormPath(JoinPath(a, "./" + b)) == NormPath(JoinPath(a, b))
  {
    assert "./" + b == "." + "/" + b;
    SplitAtSlash(".", b);
    SplitName(".");
    var done := Walk([], Split(a), false);
    WalkJoinPath([], a, b, false);
    WalkJoinPath([], a, "./" + b, false);
    WalkConcat(done, ["."], Split(b), false);
    assert Walk(done, ["."], false) == done;
    JoinStaysRelative(a, b);
    JoinStaysRelative(a, "./" + b);
  }

  /** Rewriting keeps what a link points to: the new path, read from the new
      place of the document, normalises to the place its old target moved to,
      and everything around the path is unchanged. */
  lemma RewrittenLinkKeepsTarget(
    raw: string, oldSource: string, newSource: string, moves: map<string, string>, cwd: seq<string>)
    returns (path: string)
    requires Inside(cwd) && InRepository(Parent(newSource))
    requires Dissect(raw).Relative?
    requires var resolved := ResolvedOld(Dissect(raw).path, oldSource);
      !("../" <= resolved) && InRepository(MovedImage(resolved, moves))
    ensures var link := Dissect(raw);
      && raw == link.before + link.path + link.fragment + link.after
      && RewriteRaw(raw, oldSource, newSource, moves, cwd) == Some(link.before + path + link.fragment + link.after)
    ensures var image := MovedImage(ResolvedOld(Dissect(raw).path, oldSource), moves);
      path == RewrittenPath(Dissect(raw).path, image, Parent(newSource), cwd)
    ensures NormPath(JoinPath(Parent(newSource), path))
         == NormPath(MovedImage(ResolvedOld(Dissect(raw).path, oldSource), moves))
  {
    var link := Dissect(raw);
    DissectReassembles(raw);
    var image := MovedImage(ResolvedOld(link.path, oldSource), moves);
    path := RewrittenPath(link.path, image, Parent(newSource), cwd);
    RelPathLeadsBack(image, Parent(newSource), cwd);
    DotSlashIsNothing(Parent(newSource), RelPath(image, Parent(newSource), cwd));
  }

  lemma RelativePathIsRelative(raw: string)
    requires Dissect(raw).Relative?
    ensures !Absolute(Dissect(raw).path)
  {
  }

  lemma GuardedLinkIsRewritten(
    raw: string, oldSource: string, newSource: string, moves: map<string, string>, cwd: seq<string>)
    requires Dissect(raw).Relative? && !("../" <= ResolvedOld(Dissect(raw).path, oldSource))
    requires MovedImage(ResolvedOld(Dissect(raw).path, oldSource), moves) != ""
    ensures var link := Dissect(raw);
      var image := MovedImage(ResolvedOld(link.path, oldSource), moves);
      RewriteRaw(raw, oldSource, newSource, moves, cwd)
      == Some(link.before + RewrittenPath(link.path, image, Parent(newSource), cwd) + link.fragment + link.after)
  {
  }

  /** Targets that nothing moves need no assumption beyond the guard of the
      code: a link that does not resolve above the root resolves inside it. */
  lemma UnmovedImageIsInside(path: string, oldSource: string)
    requires !Absolute(oldSource) && !Absolute(path)
    ensures var resolved := ResolvedOld(path, oldSource);
      InRepository(resolved) <==> !("../" <= resolved) && resolved != ".."
    ensures NormPath(ResolvedOld(path, oldSource)) == ResolvedOld(path, oldSource)
  {
    ParentIsRelative(oldSource);
    var joined := JoinPath(Parent(oldSource), path);
    JoinStaysRelative(Parent(oldSource), path);
    NormalizeWalks(joined);
    var cs := Walk([], Split(joined), false);
    SplitWalkIsNormal([], joined);
    RenderedNormalReadsBack(cs);
  }

  lemma RenderedNormalReadsBack(cs: seq<string>)
    requires Normal(cs)
    ensures Walk([], Split(Render(cs)), false) == cs && !Absolute(Render(cs)) && Render(cs) != ""
    ensures Inside(cs) <==> !("../" <= Render(cs)) && Render(cs) != ".."
  {
    forall c | c in cs
      ensures c != "" && '/' !in c
    {
      var i :| 0 <= i < |cs| && cs[i] == c;
    }
    RelativeRender(cs);
    WalkRendered([], cs, false);
    NormalWalks([], cs);
    NormalInsideOrUp(cs);
    if cs != [] {
      FirstComponentShows(cs);
    }
  }

  lemma {:induction false} NormalWalks(done: seq<string>, cs: seq<string>)
    requires Normal(done + cs)
    ensures Walk(done, cs, false) == done + cs
    decreases |cs|
  {
    if cs != [] {
      assert (done + cs)[|done|] == cs[0];
      assert done != [] ==> (done + cs)[|done| - 1] == done[|done| - 1];
      assert Push(done, cs[0], false) == done + [cs[0]];
      assert done + cs == done + [cs[0]] + cs[1..];
      NormalWalks(done + [cs[0]], cs[1..]);
    } else {
      assert done + cs == done;
    }
  }

  lemma FirstComponentShows(cs: seq<string>)
    requires cs != [] && forall c | c in cs :: '/' !in c
    ensures cs[0] == ".." <==> "../" <= Render(cs) || Render(cs) == ".."
  {
    assert cs[0] in cs;
    NoSlashNoPrefix(cs[0]);
    if |cs| > 1 {
      ComponentBeforeSlash(cs[0], Join(cs[1..]));
    }
  }

  lemma NoSlashNoPrefix(c: string)
    requires '/' !in c
    ensures !("../" <= c)
  {
    assert forall i | 0 <= i < |c| :: c[i] != '/';
    assert "../"[2] == '/';
  }

  lemma ComponentBeforeSlash(c: string, rest: string)
    requires '/' !in c
    ensures c == ".." <==> "../" <= c + "/" + rest
    ensures c + "/" + rest != ".."
  {
    var s := c + "/" + rest;
    assert s[|c|] == '/';
    assert forall i | 0 <= i < |c| :: s[i] == c[i] && c[i] != '/';
    if "../" <= s {
      assert s[0] == '.' && s[1] == '.' && s[2] == '/';
      assert |c| == 2;
    }
    if c == ".." {
      assert s[..3] == "../";
    }
  }

  // ------------------------------------------------------- the link to ".."

  lemma WorkingDirectoryParent(cwd: seq<string>)
    requires Inside(cwd)
    ensures AbsComponents("..", cwd) == if cwd == [] then [] else cwd[..|cwd| - 1]
  {
    SplitName("..");
    assert cwd != [] ==> Name(cwd[|cwd| - 1]);
    assert Walk(Push(cwd, "..", true), [], true) == Push(cwd, "..", true);
  }

  lemma WayToParent(from: seq<string>, cwd: seq<string>)
    ensures Way(cwd + from, if cwd == [] then [] else cwd[..|cwd| - 1]) == Ups(|from| + if cwd == [] then 0 else 1)
  {
    if cwd == [] {
      assert cwd + from == [] + from;
      WayUp([], from);
    } else {
      var to, last := cwd[..|cwd| - 1], cwd[|cwd| - 1];
      assert cwd + from == to + ([last] + from);
      WayUp(to, [last] + from);
    }
  }

  lemma WayToHoldingDirectory(start: string, cwd: seq<string>)
    requires Inside(cwd) && InRepository(start)
    ensures RelPath("..", start, cwd) == Render(Ups(|Walk([], Split(start), false)| + if cwd == [] then 0 else 1))
  {
    AbsoluteInside(cwd, start);
    WorkingDirectoryParent(cwd);
    WayToParent(Walk([], Split(start), false), cwd);
  }

  /** A link to the directory that holds the repository slips through the guard,
      whose test looks for "../" with the slash. It keeps its meaning exactly when
      the repository is not the root of the file system. */
  lemma LinkToHoldingDirectoryKeepsTargetExactlyWhen(start: string, cwd: seq<string>)
    requires Inside(cwd) && InRepository(start)
    ensures !("../" <= "..")
    ensures NormPath(JoinPath(start, RelPath("..", start, cwd))) == NormPath("..") <==> cwd != []
  {
    var from := Walk([], Split(start), false);
    var k := if cwd == [] then 0 else 1;
    var way := Ups(|from| + k);
    WayToHoldingDirectory(start, cwd);
    assert forall c | c in way :: c == "..";
    RelativeRender(way);
    WalkJoinPath([], start, Render(way), false);
    WalkRendered(from, way, false);
    WalkUpAndOut(from, k);
    JoinStaysRelative(start, Render(way));
    HoldingDirectoryPrints();
  }

  lemma HoldingDirectoryPrints()
    ensures NormPath("..") == ".." && Render(Ups(1)) == ".." && Render(Ups(0)) == "."
  {
    SplitName("..");
    assert Walk([".."], [], false) == [".."];
    assert Ups(1) == [".."] && Ups(0) == [];
  }

  /** For every image the code can be asked for, the rewritten path leads to it. */
  lemma RewrittenPathLeadsBack(path: string, image: string, start: string, cwd: seq<string>)
    requires Inside(cwd) && InRepository(start) && (InRepository(image) || (image == ".." && cwd != []))
    ensures NormPath(JoinPath(start, RewrittenPath(path, image, start, cwd))) == NormPath(image)
  {
    var rewritten := RelPath(image, start, cwd);
    if InRepository(image) {
      RelPathLeadsBack(image, start, cwd);
    } else {
      LinkToHoldingDirectoryKeepsTargetExactlyWhen(start, cwd);
      WayToHoldingDirectory(start, cwd);
      var way := Ups(|Walk([], Split(start), false)| + 1);
      assert forall c | c in way :: c == "..";
      RelativeRender(way);
    }
    DotSlashIsNothing(start, rewritten);
  }

  // ------------------------------------------------- links that leave the repository

  /** The number of directories between the root and a source file. */
  function Depth(source: string): nat {
    |DirectoryOf(source)|
  }

  /** A link that resolves above the root is left as it is. From the new place of
      its document it leads to the same place exactly when the two places are
      equally deep. */
  lemma LinkAboveRootKeepsTargetExactlyWhen(path: string, oldSource: string, newSource: string)
    requires !Absolute(path) && InRepository(Parent(oldSource)) && InRepository(Parent(newSource))
    requires "../" <= ResolvedOld(path, oldSource) || ResolvedOld(path, oldSource) == ".."
    ensures NormPath(JoinPath(Parent(newSource), path)) == NormPath(JoinPath(Parent(oldSource), path))
       <==> Depth(newSource) == Depth(oldSource)
  {
    var a, b := Walk([], Split(Parent(oldSource)), false), Walk([], Split(Parent(newSource)), false);
    JoinedWalk(Parent(oldSource), path);
    JoinedWalk(Parent(newSource), path);
    NormalizeWalks(JoinPath(Parent(oldSource), path));
    NoSlashInPieces(path);
    LeavingWalksAgreeExactlyWhen(a, b, Split(path));
  }

  /** Joining and normalising prints the walk from the one along the other, and can be undone. */
  lemma JoinedWalk(start: string, path: string)
    requires start != "" && !Absolute(start) && !Absolute(path)
    ensures var walked := Walk(Walk([], Split(start), false), Split(path), false);
      && NormPath(JoinPath(start, path)) == Render(walked) && !Absolute(JoinPath(start, path))
      && Walk([], Split(Render(walked)), false) == walked
      && (Inside(walked) <==> !("../" <= Render(walked)) && Render(walked) != "..")
  {
    JoinStaysRelative(start, path);
    WalkJoinPath([], start, path, false);
    SplitWalkIsNormal([], JoinPath(start, path));
    RenderedNormalReadsBack(Walk([], Split(JoinPath(start, path)), false));
  }
}
