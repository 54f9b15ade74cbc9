/** What a rewritten path is made of: the names in it come from the path and the
    place of the document, or from the destination of a move. */
module LinkText {
  import opened PosixPath
  import opened MarkdownLinks

  /** Every name among the components has the property. */
  ghost predicate NamesOf(s: string, p: string -> bool) {
    forall c | c in Split(s) && Name(c) :: p(c)
  }

  ghost predicate NamesIn(cs: seq<string>, p: string -> bool) {
    forall c | c in cs && Name(c) :: p(c)
  }

  lemma {:induction false} PartsLack(s: string, c: char)
    requires c !in s
    ensures forall part | part in Split(s) :: c !in part
  {
    if s != "" {
      assert s == [s[0]] + s[1..];
      PartsLack(s[1..], c);
    }
  }

  lemma {:induction false} WalkKeepsNames(done: seq<string>, cs: seq<string>, p: string -> bool)
    requires NamesIn(done, p) && NamesIn(cs, p)
    ensures NamesIn(Walk(done, cs, false), p)
    decreases |cs|
  {
    if cs != [] {
      var next := Push(done, cs[0], false);
      assert forall c | c in next :: c in done || c == cs[0];
      assert forall c | c in cs[1..] :: c in cs;
      WalkKeepsNames(next, cs[1..], p);
    }
  }

  lemma RenderKeepsNames(cs: seq<string>, p: string -> bool)
    requires NamesIn(cs, p) && forall c | c in cs :: c != "" && '/' !in c
    ensures NamesOf(Render(cs), p)
  {
    if cs == [] {
      SplitName(".");
    } else {
      SplitJoin(cs);
    }
  }

  lemma NormalIsPlain(cs: seq<string>)
    requires Normal(cs)
    ensures forall c | c in cs :: c != "" && '/' !in c
  {
  }

  /** The names of a resolved path are names of the path and of the directory of the document. */
  lemma ResolvedNames(path: string, source: string, p: string -> bool)
    requires !Absolute(path) && !Absolute(source) && NamesOf(Parent(source), p) && NamesOf(path, p)
    ensures NamesOf(ResolvedOld(path, source), p)
  {
    ParentIsRelative(source);
    JoinedWalk(Parent(source), path);
    NormalizeWalks(JoinPath(Parent(source), path));
    WalkKeepsNames([], Split(Parent(source)), p);
    WalkKeepsNames(DirectoryOf(source), Split(path), p);
    SplitWalkIsNormal([], Parent(source));
    SplitWalkIsNormal(DirectoryOf(source), path);
    NormalIsPlain(Walk(DirectoryOf(source), Split(path), false));
    RenderKeepsNames(Walk(DirectoryOf(source), Split(path), false), p);
  }

  lemma WayKeepsNames(from: seq<string>, to: seq<string>, p: string -> bool)
    requires NamesIn(to, p)
    ensures NamesIn(Way(from, to), p)
  {
    var shared := CommonPrefix(from, to);
    assert forall c | c in to[shared..] :: c in to;
  }
}
