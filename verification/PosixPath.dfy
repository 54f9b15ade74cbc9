/** POSIX path strings as `posixpath` and `PurePosixPath` treat them. */
module PosixPath {

  /** `s.split("/")` */
  function Split(s: string): (cs: seq<string>)
    ensures |cs| >= 1
  {
    if s == "" then [""]
    else
      var rest := Split(s[1..]);
      if s[0] == '/' then [""] + rest else [[s[0]] + rest[0]] + rest[1..]
  }

  /** `"/".join(cs)` */
  function Join(cs: seq<string>): string {
    if cs == [] then "" else if |cs| == 1 then cs[0] else cs[0] + "/" + Join(cs[1..])
  }

  /** A component that names something: not empty, not ".", not "..". */
  predicate Name(c: string) {
    c != "" && c != "." && c != ".." && '/' !in c
  }

  /** One round of the loop of `normpath`; `floor` is how much of `done` a ".." may not remove. */
  function Push(done: seq<string>, c: string, rooted: bool): seq<string> {
    if c == "" || c == "." then done
    else if c != ".." || (!rooted && done == []) || (done != [] && done[|done| - 1] == "..") then done + [c]
    else if done != [] then done[..|done| - 1]
    else done
  }

  function Walk(done: seq<string>, cs: seq<string>, rooted: bool): seq<string>
    decreases |cs|
  {
    if cs == [] then done else Walk(Push(done, cs[0], rooted), cs[1..], rooted)
  }

  /** A component list as `normpath` prints it when the path is relative. */
  function Render(cs: seq<string>): string {
    if cs == [] then "." else Join(cs)
  }

  predicate Absolute(s: string) {
    s != "" && s[0] == '/'
  }

  /** POSIX keeps exactly two leading slashes and collapses any other number to one. */
  function Root(s: string): string {
    if !Absolute(s) then ""
    else if |s| >= 2 && s[1] == '/' && !(|s| >= 3 && s[2] == '/') then "//"
    else "/"
  }

  /** `posixpath.normpath` */
  function NormPath(s: string): string {
    if Absolute(s) then Root(s) + Join(Walk([], Split(s), true))
    else Render(Walk([], Split(s), false))
  }

  /** The components `PurePosixPath` keeps. */
  function Parts(cs: seq<string>): seq<string> {
    if cs == [] then []
    else (if cs[0] == "" || cs[0] == "." then [] else [cs[0]]) + Parts(cs[1..])
  }

  function PrintPure(root: string, parts: seq<string>): string {
    if root == "" then Render(parts) else root + Join(parts)
  }

  /** `PurePosixPath(s).as_posix()` */
  function AsPosix(s: string): string {
    PrintPure(Root(s), Parts(Split(s)))
  }

  /** `PurePosixPath(s).parent.as_posix()` */
  function Parent(s: string): string {
    var parts := Parts(Split(s));
    PrintPure(Root(s), if parts == [] then [] else parts[..|parts| - 1])
  }

  /** `posixpath.join(a, b)` */
  function JoinPath(a: string, b: string): string {
    if Absolute(b) then b
    else if a == "" || a[|a| - 1] == '/' then a + b
    else a + "/" + b
  }

  /** The components of `abspath(s)` when the working directory has components `cwd`. */
  function AbsComponents(s: string, cwd: seq<string>): seq<string> {
    Walk(if Absolute(s) then [] else cwd, Split(s), true)
  }

  function CommonPrefix(a: seq<string>, b: seq<string>): (n: nat)
    ensures n <= |a| && n <= |b| && a[..n] == b[..n]
  {
    if a != [] && b != [] && a[0] == b[0] then 1 + CommonPrefix(a[1..], b[1..]) else 0
  }

  function Ups(n: nat): seq<string> {
    seq(n, i => "..")
  }

  /** The components that lead from one directory to another. */
  function Way(from: seq<string>, to: seq<string>): seq<string> {
    var shared := CommonPrefix(from, to);
    Ups(|from| - shared) + to[shared..]
  }

  /** `posixpath.relpath(path, start)`, for a nonempty `path`. */
  function RelPath(path: string, start: string, cwd: seq<string>): string {
    Render(Way(AbsComponents(start, cwd), AbsComponents(path, cwd)))
  }

  // ------------------------------------------------------- splitting, joining

  lemma {:induction false} SplitPieces(s: string, i: nat)
    requires i < |Split(s)|
    ensures '/' !in Split(s)[i]
  {
    if s != "" {
      var rest := Split(s[1..]);
      if i == 0 {
        SplitPieces(s[1..], 0);
      } else {
        SplitPieces(s[1..], if s[0] == '/' then i - 1 else i);
      }
    }
  }

  lemma FirstOfConcat(c: string, x: seq<string>, y: seq<string>)
    requires x != []
    ensures [c + (x + y)[0]] + (x + y)[1..] == ([c + x[0]] + x[1..]) + y
  {
    assert (x + y)[1..] == x[1..] + y;
  }

  lemma TailAtSlash(a: string, b: string)
    requires a != ""
    ensures (a + "/" + b)[0] == a[0] && (a + "/" + b)[1..] == a[1..] + "/" + b
  {
  }

  lemma {:induction false} SplitAtSlash(a: string, b: string)
    ensures Split(a + "/" + b) == Split(a) + Split(b)
  {
    if a == "" {
      assert a + "/" + b == ['/'] + b;
      assert (['/'] + b)[1..] == b;
    } else {
      TailAtSlash(a, b);
      SplitAtSlash(a[1..], b);
      FirstOfConcat([a[0]], Split(a[1..]), Split(b));
      assert [""] + (Split(a[1..]) + Split(b)) == ([""] + Split(a[1..])) + Split(b);
    }
  }

  lemma {:induction false} SplitName(c: string)
    requires '/' !in c
    ensures Split(c) == [c]
  {
    if c != "" {
      SplitName(c[1..]);
      assert [c[0]] + c[1..] == c;
    }
  }

  lemma {:induction false} SplitJoin(cs: seq<string>)
    requires cs != [] && forall c | c in cs :: '/' !in c
    ensures Split(Join(cs)) == cs
  {
    SplitName(cs[0]);
    if |cs| > 1 {
      SplitJoin(cs[1..]);
      SplitAtSlash(cs[0], Join(cs[1..]));
      assert cs == [cs[0]] + cs[1..];
    }
  }

  lemma {:induction false} JoinSplit(s: string)
    ensures Join(Split(s)) == s
  {
    if s != "" {
      var rest := Split(s[1..]);
      JoinSplit(s[1..]);
      assert s == [s[0]] + s[1..];
      if s[0] == '/' {
        assert ([""] + rest)[1..] == rest;
        assert "" + "/" + s[1..] == s;
      } else {
        var longer := [[s[0]] + rest[0]] + rest[1..];
        JoinPrepends([s[0]], rest);
        assert longer[1..] == rest[1..];
      }
    }
  }

  lemma JoinPrepends(a: string, cs: seq<string>)
    requires cs != []
    ensures Join([a + cs[0]] + cs[1..]) == a + Join(cs)
  {
    var longer := [a + cs[0]] + cs[1..];
    assert longer[1..] == cs[1..];
    if |cs| > 1 {
      assert (a + cs[0]) + "/" + Join(cs[1..]) == a + (cs[0] + "/" + Join(cs[1..]));
    }
  }

  lemma {:induction false} WalkConcat(done: seq<string>, a: seq<string>, b: seq<string>, rooted: bool)
    ensures Walk(done, a + b, rooted) == Walk(Walk(done, a, rooted), b, rooted)
    decreases |a|
  {
    if a == [] {
      assert a + b == b;
    } else {
      assert (a + b)[0] == a[0] && (a + b)[1..] == a[1..] + b;
      WalkConcat(Push(done, a[0], rooted), a[1..], b, rooted);
    }
  }

  lemma {:induction false} WalkSkipsParts(done: seq<string>, cs: seq<string>, rooted: bool)
    ensures Walk(done, Parts(cs), rooted) == Walk(done, cs, rooted)
    decreases |cs|
  {
    if cs != [] {
      WalkSkipsParts(Push(done, cs[0], rooted), cs[1..], rooted);
      if cs[0] == "" || cs[0] == "." {
        assert Parts(cs) == Parts(cs[1..]);
      } else {
        assert Parts(cs)[0] == cs[0] && Parts(cs)[1..] == Parts(cs[1..]);
      }
    }
  }

  lemma {:induction false} PartsAreReal(cs: seq<string>, c: string)
    requires c in Parts(cs)
    ensures c in cs && c != "" && c != "."
  {
    if cs[0] != c || cs[0] == "" || cs[0] == "." {
      PartsAreReal(cs[1..], c);
    }
  }

  /** Joining then walking is walking one after the other. */
  lemma WalkJoinPath(done: seq<string>, a: string, b: string, rooted: bool)
    requires !Absolute(b)
    ensures Walk(done, Split(JoinPath(a, b)), rooted) == Walk(Walk(done, Split(a), rooted), Split(b), rooted)
  {
    if a == "" {
      assert a + b == b;
      assert Walk(done, [""], rooted) == done;
    } else if a[|a| - 1] == '/' {
      var a' := a[..|a| - 1];
      assert a == a' + "/" + "" && a + b == a' + "/" + b;
      SplitAtSlash(a', "");
      SplitAtSlash(a', b);
      WalkConcat(done, Split(a'), [""], rooted);
      WalkConcat(done, Split(a'), Split(b), rooted);
      assert Walk(Walk(done, Split(a'), rooted), [""], rooted) == Walk(done, Split(a'), rooted);
    } else {
      SplitAtSlash(a, b);
      WalkConcat(done, Split(a), Split(b), rooted);
    }
  }

  // ------------------------------------------------- the shape of normal lists

  /** Leading ".." components, then names. */
  ghost predicate Normal(cs: seq<string>) {
    forall i | 0 <= i < |cs| :: Name(cs[i]) || (cs[i] == ".." && (i > 0 ==> cs[i - 1] == ".."))
  }

  /** A normal list that stays inside the directory it starts from. */
  ghost predicate Inside(cs: seq<string>) {
    forall i | 0 <= i < |cs| :: Name(cs[i])
  }

  lemma {:induction false} WalkIsNormal(done: seq<string>, cs: seq<string>)
    requires Normal(done) && forall c | c in cs :: '/' !in c
    ensures Normal(Walk(done, cs, false))
    decreases |cs|
  {
    if cs != [] {
      assert cs[0] in cs;
      WalkIsNormal(Push(done, cs[0], false), cs[1..]);
    }
  }

  lemma SplitWalkIsNormal(done: seq<string>, s: string)
    requires Normal(done)
    ensures Normal(Walk(done, Split(s), false))
  {
    forall c | c in Split(s)
      ensures '/' !in c
    {
      var i :| 0 <= i < |Split(s)| && Split(s)[i] == c;
      SplitPieces(s, i);
    }
    WalkIsNormal(done, Split(s));
  }

  lemma NormalInsideOrUp(cs: seq<string>)
    requires Normal(cs)
    ensures Inside(cs) || (cs != [] && cs[0] == "..")
  {
    if cs != [] && Name(cs[0]) {
      NamesAfterName(cs, |cs|);
    }
  }

  lemma {:induction false} NamesAfterName(cs: seq<string>, n: nat)
    requires Normal(cs) && cs != [] && Name(cs[0]) && n <= |cs|
    ensures forall i | 0 <= i < n :: Name(cs[i])
  {
    if n > 1 {
      NamesAfterName(cs, n - 1);
      assert Name(cs[n - 2]);
    }
  }

  /** Once a walk has left upwards it stays outside. */
  lemma {:induction false} UpStaysUp(done: seq<string>, cs: seq<string>)
    requires Normal(done) && done != [] && done[0] == ".." && forall c | c in cs :: '/' !in c
    ensures Walk(done, cs, false) != [] && Walk(done, cs, false)[0] == ".."
    decreases |cs|
  {
    if cs != [] {
      assert cs[0] in cs;
      var next := Push(done, cs[0], false);
      UpStaysUp(next, cs[1..]);
    }
  }

  /** A walk that stays inside is the same walk below any directory. */
  lemma {:induction false} InsideWalkShifts(base: seq<string>, done: seq<string>, cs: seq<string>)
    requires Inside(base) && Inside(done) && (forall c | c in cs :: '/' !in c) && Inside(Walk(done, cs, false))
    ensures Walk(base + done, cs, true) == base + Walk(done, cs, false)
    decreases |cs|
  {
    if cs != [] {
      assert cs[0] in cs;
      var next := Push(done, cs[0], false);
      if cs[0] == ".." && done == [] {
        UpStaysUp(next, cs[1..]);
        assert false;
      } else {
        assert Push(base + done, cs[0], true) == base + next;
        InsideWalkShifts(base, next, cs[1..]);
      }
    }
  }

  lemma {:induction false} NormalWalksToItself(done: seq<string>, names: seq<string>)
    requires Inside(names)
    ensures Walk(done, names, false) == done + names
    decreases |names|
  {
    if names != [] {
      assert Name(names[0]);
      NormalWalksToItself(done + [names[0]], names[1..]);
      assert done + names == done + [names[0]] + names[1..];
    }
  }

  lemma {:induction false} UpsClimb(done: seq<string>, n: nat)
    requires Inside(done) && n <= |done|
    ensures Walk(done, Ups(n), false) == done[..|done| - n]
  {
    if n > 0 {
      assert Ups(n)[0] == ".." && Ups(n)[1..] == Ups(n - 1);
      assert Name(done[|done| - 1]);
      UpsClimb(done[..|done| - 1], n - 1);
    }
  }

  lemma {:induction false} UpsLeave(n: nat, done: seq<string>)
    requires done == Ups(|done|)
    ensures Walk(done, Ups(n), false) == Ups(|done| + n)
  {
    if n > 0 {
      assert Ups(n)[0] == ".." && Ups(n)[1..] == Ups(n - 1);
      assert done + [".."] == Ups(|done| + 1);
      UpsLeave(n - 1, done + [".."]);
    } else {
      assert Ups(0) == [];
    }
  }

  lemma WayBelow(base: seq<string>, a: seq<string>, b: seq<string>)
    ensures Way(base + a, base + b) == Way(a, b)
  {
    SharedBase(base, a, b);
    var shared := CommonPrefix(a, b);
    assert (base + b)[|base| + shared..] == b[shared..];
  }

  lemma {:induction false} PrefixOfItself(a: seq<string>, b: seq<string>)
    ensures CommonPrefix(a + b, a) == |a|
  {
    if a != [] {
      assert (a + b)[1..] == a[1..] + b;
      PrefixOfItself(a[1..], b);
    }
  }

  lemma WayUp(to: seq<string>, beyond: seq<string>)
    ensures Way(to + beyond, to) == Ups(|beyond|)
  {
    PrefixOfItself(to, beyond);
    assert to[|to|..] == [];
  }

  lemma {:induction false} SharedBase(base: seq<string>, a: seq<string>, b: seq<string>)
    ensures CommonPrefix(base + a, base + b) == |base| + CommonPrefix(a, b)
  {
    if base == [] {
      assert base + a == a && base + b == b;
    } else {
      assert (base + a)[1..] == base[1..] + a && (base + b)[1..] == base[1..] + b;
      SharedBase(base[1..], a, b);
    }
  }

  lemma GraftAtShared(from: seq<string>, to: seq<string>, n: nat)
    requires n <= |from| && n <= |to| && from[..n] == to[..n]
    ensures from[..n] + to[n..] == to
  {
  }

  lemma TailIsInside(cs: seq<string>, n: nat)
    requires Inside(cs) && n <= |cs|
    ensures Inside(cs[n..])
  {
  }

  lemma WalkThenDown(from: seq<string>, cs: seq<string>, reached: seq<string>, names: seq<string>)
    requires Walk(from, cs, false) == reached && Inside(names)
    ensures Walk(from, cs + names, false) == reached + names
  {
    WalkConcat(from, cs, names, false);
    NormalWalksToItself(reached, names);
  }

  lemma UpsClimbTo(from: seq<string>, n: nat)
    requires Inside(from) && n <= |from|
    ensures Walk(from, Ups(|from| - n), false) == from[..n]
  {
    UpsClimb(from, |from| - n);
  }

  /** Up to a shared directory and down again. */
  lemma UpAndDown(from: seq<string>, to: seq<string>, n: nat)
    requires Inside(from) && Inside(to) && n <= |from| && n <= |to| && from[..n] == to[..n]
    ensures Walk(from, Ups(|from| - n) + to[n..], false) == to
  {
    UpsClimbTo(from, n);
    TailIsInside(to, n);
    WalkThenDown(from, Ups(|from| - n), from[..n], to[n..]);
    GraftAtShared(from, to, n);
  }

  /** The way from one inside directory to another leads there. */
  lemma WayLeadsThere(from: seq<string>, to: seq<string>)
    requires Inside(from) && Inside(to)
    ensures Walk(from, Way(from, to), false) == to
  {
    UpAndDown(from, to, CommonPrefix(from, to));
  }

  /** Printing a list without slashes and splitting it again walks the same way. */
  lemma WalkRendered(done: seq<string>, cs: seq<string>, rooted: bool)
    requires forall c | c in cs :: '/' !in c
    ensures Walk(done, Split(Render(cs)), rooted) == Walk(done, cs, rooted)
  {
    if cs == [] {
      SplitName(".");
      assert Walk(done, ["."], rooted) == done;
    } else {
      SplitJoin(cs);
    }
  }

  // ------------------------------------------ walking from different directories

  /** How many levels a normal list climbs before it descends. */
  function Climb(cs: seq<string>): (n: nat)
    ensures n <= |cs|
  {
    if cs == [] || cs[0] != ".." then 0 else 1 + Climb(cs[1..])
  }

  lemma UpsNext(n: nat)
    ensures [".."] + Ups(n) == Ups(n + 1)
  {
  }

  lemma UpInFront(cs: seq<string>, n: nat)
    requires cs != [] && cs[0] == ".." && n < |cs| && cs[1..] == Ups(n) + cs[1..][n..]
    ensures cs == Ups(n + 1) + cs[n + 1..] && cs[1..][n..] == cs[n + 1..]
  {
    UpsNext(n);
    assert cs == [cs[0]] + cs[1..];
    assert [cs[0]] + (Ups(n) + cs[1..][n..]) == ([cs[0]] + Ups(n)) + cs[1..][n..];
  }

  lemma {:induction false} NormalClimbsFirst(cs: seq<string>)
    requires Normal(cs)
    ensures cs == Ups(Climb(cs)) + cs[Climb(cs)..] && Inside(cs[Climb(cs)..])
  {
    if cs == [] || cs[0] != ".." {
      assert cs == Ups(0) + cs;
      NormalInsideOrUp(cs);
    } else {
      NormalTail(cs);
      NormalClimbsFirst(cs[1..]);
      UpInFront(cs, Climb(cs[1..]));
    }
  }

  lemma NormalTail(cs: seq<string>)
    requires Normal(cs) && cs != []
    ensures Normal(cs[1..])
  {
    forall i | 0 <= i < |cs| - 1
      ensures Name(cs[1..][i]) || (cs[1..][i] == ".." && (i > 0 ==> cs[1..][i - 1] == ".."))
    {
      assert cs[1..][i] == cs[i + 1];
    }
  }

  /** One component more, and one level up again. */
  lemma PushShifts(from: seq<string>, done: seq<string>, c: string)
    requires Normal(done) && '/' !in c
    ensures Push(Walk(from, done, false), c, false) == Walk(from, Push(done, c, false), false)
  {
    if Push(done, c, false) == done + [c] {
      WalkConcat(from, done, [c], false);
      WalkOne(Walk(from, done, false), c);
    } else if c == ".." && done != [] {
      var n := |done| - 1;
      assert done == done[..n] + [done[n]] && Name(done[n]);
      WalkConcat(from, done[..n], [done[n]], false);
      WalkOne(Walk(from, done[..n], false), done[n]);
    }
  }

  lemma WalkOne(done: seq<string>, c: string)
    ensures Walk(done, [c], false) == Push(done, c, false)
  {
    assert [c][1..] == [];
  }

  /** A walk from any directory is the walk along its normal form. */
  lemma {:induction false} WalkIsWalkOfNormal(from: seq<string>, done: seq<string>, cs: seq<string>)
    requires Normal(done) && forall c | c in cs :: '/' !in c
    ensures Walk(Walk(from, done, false), cs, false) == Walk(from, Walk(done, cs, false), false)
    decreases |cs|
  {
    if cs != [] {
      assert cs[0] in cs;
      PushShifts(from, done, cs[0]);
      WalkIsWalkOfNormal(from, Push(done, cs[0], false), cs[1..]);
    }
  }

  lemma WalkUpAndOut(from: seq<string>, k: nat)
    requires Inside(from)
    ensures Walk(from, Ups(|from| + k), false) == Ups(k)
  {
    assert Ups(|from| + k) == Ups(|from|) + Ups(k);
    WalkConcat(from, Ups(|from|), Ups(k), false);
    UpsClimb(from, |from|);
    UpsLeave(k, []);
  }

  /** Where one ends up from an inside directory, `up` levels higher and then down `names`. */
  function Landing(from: seq<string>, up: nat, names: seq<string>): seq<string> {
    if up <= |from| then from[..|from| - up] + names else Ups(up - |from|) + names
  }

  lemma WalkLands(from: seq<string>, up: nat, names: seq<string>)
    requires Inside(from) && Inside(names)
    ensures Walk(from, Ups(up) + names, false) == Landing(from, up, names)
  {
    WalkConcat(from, Ups(up), names, false);
    if up <= |from| {
      UpsClimb(from, up);
      NormalWalksToItself(from[..|from| - up], names);
    } else {
      WalkUpAndOut(from, up - |from|);
      NormalWalksToItself(Ups(up - |from|), names);
    }
  }

  lemma LandingIsInsideExactlyWhen(from: seq<string>, up: nat, names: seq<string>)
    requires Inside(from) && Inside(names)
    ensures Inside(Landing(from, up, names)) <==> up <= |from|
  {
    if up > |from| {
      assert Landing(from, up, names)[0] == "..";
    }
  }

  lemma LandingsAgreeExactlyWhen(a: seq<string>, b: seq<string>, up: nat, names: seq<string>)
    requires Inside(a) && Inside(b) && Inside(names) && up > |a|
    ensures Landing(b, up, names) == Landing(a, up, names) <==> |a| == |b|
  {
    LandingIsInsideExactlyWhen(a, up, names);
    LandingIsInsideExactlyWhen(b, up, names);
    assert |Landing(a, up, names)| == up - |a| + |names|;
    assert up > |b| ==> |Landing(b, up, names)| == up - |b| + |names|;
  }

  /** A walk from an inside directory lands where its normal form says. */
  lemma WalkFromInside(from: seq<string>, cs: seq<string>)
    requires Inside(from) && forall c | c in cs :: '/' !in c
    ensures var n := Walk([], cs, false);
      Inside(n[Climb(n)..]) && Walk(from, cs, false) == Landing(from, Climb(n), n[Climb(n)..])
  {
    var n := Walk([], cs, false);
    WalkIsNormal([], cs);
    WalkIsWalkOfNormal(from, [], cs);
    NormalClimbsFirst(n);
    WalkLands(from, Climb(n), n[Climb(n)..]);
  }

  /** A walk that leaves above the one directory ends in the same place from the
      other exactly when the two directories are equally deep. */
  lemma LeavingWalksAgreeExactlyWhen(a: seq<string>, b: seq<string>, cs: seq<string>)
    requires Inside(a) && Inside(b) && (forall c | c in cs :: '/' !in c) && !Inside(Walk(a, cs, false))
    ensures Walk(b, cs, false) == Walk(a, cs, false) <==> |a| == |b|
  {
    var n := Walk([], cs, false);
    WalkFromInside(a, cs);
    WalkFromInside(b, cs);
    LandingIsInsideExactlyWhen(a, Climb(n), n[Climb(n)..]);
    LandingsAgreeExactlyWhen(a, b, Climb(n), n[Climb(n)..]);
  }

  // ------------------------------------------------------------ absolute paths

  lemma {:induction false} RootedWalkIsInside(done: seq<string>, cs: seq<string>)
    requires Inside(done) && forall c | c in cs :: '/' !in c
    ensures Inside(Walk(done, cs, true))
    decreases |cs|
  {
    if cs != [] {
      RootedWalkIsInside(Push(done, cs[0], true), cs[1..]);
    }
  }

  lemma {:induction false} RootedWalkOfNames(done: seq<string>, names: seq<string>)
    requires Inside(done) && Inside(names)
    ensures Walk(done, names, true) == done + names
    decreases |names|
  {
    if names == [] {
      assert done + names == done;
    } else {
      RootedWalkOfNames(done + [names[0]], names[1..]);
      assert done + names == done + [names[0]] + names[1..];
    }
  }

  /** The slashes in front of an absolute path that stay. */
  function LeadingSlashes(s: string): string {
    if "//" <= s && !("///" <= s) then "//" else "/"
  }

  lemma RootIs(s: string)
    requires Absolute(s)
    ensures Root(s) == LeadingSlashes(s)
  {
    assert "//" <= s <==> |s| >= 2 && s[0] == s[1] == '/';
    assert "///" <= s <==> |s| >= 3 && s[0] == s[1] == s[2] == '/';
  }

  lemma RootedText(slashes: string, names: seq<string>)
    requires (slashes == "/" || slashes == "//") && Inside(names)
    ensures var s := slashes + Join(names);
      Absolute(s) && Root(s) == slashes && Walk([], Split(s), true) == names
  {
    var s, text := slashes + Join(names), Join(names);
    assert names != [] ==> text != "" && text[0] == names[0][0] && names[0][0] in names[0];
    assert s[|slashes|..] == text;
    RootedWalkOfNames([], names);
    if names == [] {
      assert text == "" && Split("") == [""];
    } else {
      SplitJoin(names);
    }
    var below := Split(text);
    assert Walk([], below, true) == names;
    assert ([""] + below)[1..] == below;
    if slashes == "//" {
      assert s[1..][1..] == text && s[1..][0] == '/';
      assert Split(s) == [""] + ([""] + below);
      assert ([""] + ([""] + below))[1..] == [""] + below;
    } else {
      assert s[1..] == text;
    }
  }

  /** An absolute path is normalised to its leading slashes and names, which stay as they are. */
  lemma AbsoluteIsNormalised(s: string) returns (names: seq<string>)
    requires Absolute(s)
    ensures Inside(names) && NormPath(s) == LeadingSlashes(s) + Join(names)
    ensures NormPath(NormPath(s)) == NormPath(s)
  {
    names := Walk([], Split(s), true);
    forall c | c in Split(s)
      ensures '/' !in c
    {
      var i: nat :| i < |Split(s)| && Split(s)[i] == c;
      SplitPieces(s, i);
    }
    RootedWalkIsInside([], Split(s));
    RootIs(s);
    RootedText(Root(s), names);
  }
}
