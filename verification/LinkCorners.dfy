/** Links at which the rewrite does not do what it is for, each at an input. */
module LinkCorners {
  import opened Options
  import opened PosixPath
  import opened Text
  import opened MarkdownLinks
  import opened LinkReading
  import opened LinkQueries
  import opened LinkTargets
  import opened MarkdownDocuments
  import opened MarkdownRewriting

  lemma FileAtRoot(name: string)
    requires Name(name)
    ensures Split(name) == [name] && Parent(name) == "." && !Absolute(name)
  {
    SplitName(name);
    assert Parts([name]) == [name] + Parts([]);
    assert [name][..0] == [];
    assert name[0] in name;
  }

  lemma FileInDirectory(directory: string, name: string)
    requires Name(directory) && Name(name)
    ensures var path := directory + "/" + name;
      Split(path) == [directory, name] && Parent(path) == directory && Split(directory) == [directory]
          && !Absolute(path)
  {
    SplitName(directory);
    SplitName(name);
    SplitAtSlash(directory, name);
    assert Parts([name]) == [name] + Parts([]);
    assert [directory, name][1..] == [name];
    assert Parts([directory, name]) == [directory] + Parts([name]);
    assert [directory, name][..1] == [directory];
    assert directory[0] in directory;
  }

  lemma WalkAtRoot()
    ensures Split(".") == ["."] && Walk([], ["."], false) == [] && InRepository(".")
  {
    SplitName(".");
    assert Walk(Push([], ".", false), [], false) == [];
  }

  lemma WalkInDirectory(directory: string)
    requires Name(directory)
    ensures Split(directory) == [directory] && Walk([], [directory], false) == [directory] && InRepository(directory)
  {
    SplitName(directory);
    assert Walk(Push([], directory, false), [], false) == [directory];
    assert directory[0] in directory;
  }

  /** Text of one word without the marks of a fragment or a scheme. */
  predicate PlainWord(s: string) {
    && s != "" && s[0] != '<' && s[0] != '/' && ':' !in s
    && forall c | c in s :: !IsSpace(c) && c != '#'
  }

  lemma WordValue(raw: string)
    requires raw != "" && raw[0] != '<' && (forall c | c in raw :: !IsSpace(c))
    ensures SplitValue(raw) == Split3("", raw, "") && !IsSpace(raw[0]) && EndsInWord(raw)
  {
    assert raw[0] in raw && raw[|raw| - 1] in raw;
    BareSplits(raw, "");
    assert "" + raw + "" == raw;
  }

  lemma EmptyEnds(a: string, b: string)
    ensures "" + a + b + "" == a + b
  {
  }

  lemma NothingAround(s: Split3)
    ensures Split3("" + s.before, s.target, s.after + "") == s
  {
  }

  lemma UnsurroundedSplits(raw: string)
    requires raw != "" && !IsSpace(raw[0]) && EndsInWord(raw)
    ensures SplitTarget(raw) == SplitValue(raw)
  {
    NothingAround(SplitValue(raw));
    assert LeadEnd(raw) == 0 && TrailStart(raw) == |raw|;
    assert raw[0..|raw|] == raw && raw[..0] == "" && raw[|raw|..] == "";
  }

  lemma SchemeHasColon(scheme: string, raw: string)
    requires ':' in scheme && scheme <= raw
    ensures ':' in raw
  {
    var i :| 0 <= i < |scheme| && scheme[i] == ':';
    assert raw[i] == ':';
  }

  lemma WordIsHere(raw: string)
    requires raw != "" && raw[0] != '#' && raw[0] != '/' && ':' !in raw
    ensures !Elsewhere(raw)
  {
    if "http://" <= raw { SchemeHasColon("http://", raw); }
    if "https://" <= raw { SchemeHasColon("https://", raw); }
    if "mailto:" <= raw { SchemeHasColon("mailto:", raw); }
    if "data:" <= raw { SchemeHasColon("data:", raw); }
  }

  /** A target of one word; a query in front of a fragment belongs to the path. */
  lemma WordDissects(word: string, fragment: string)
    requires PlainWord(word) && ':' !in fragment && (forall c | c in fragment :: !IsSpace(c))
    requires if fragment != "" then fragment[0] == '#' else '?' !in word
    ensures Dissect(word + fragment) == Relative("", word, fragment, "")
  {
    var raw := word + fragment;
    assert raw[0] == word[0] && word[0] in word;
    assert forall c | c in raw :: c in word || c in fragment;
    WordValue(raw);
    UnsurroundedSplits(raw);
    WordIsHere(raw);
    WordEnds(word, fragment);
    assert raw[..|word|] == word && raw[|word|..] == fragment;
  }

  lemma WordEnds(word: string, fragment: string)
    requires PlainWord(word) && if fragment != "" then fragment[0] == '#' else '?' !in word
    ensures PathEnd(word + fragment) == |word|
  {
    var raw := word + fragment;
    assert forall k | 0 <= k < |word| :: raw[k] == word[k] && word[k] in word;
    if fragment != "" {
      assert raw[|word|] == '#';
      FirstIndex(raw, '#', |word|);
    } else {
      assert raw == word;
    }
  }

  // ------------------------------------------------------------ above the root

  lemma DotDotAndName(name: string)
    requires Name(name)
    ensures var path := ".." + "/" + name;
      && Split(path) == ["..", name] && !Absolute(path)
      && Walk([], ["..", name], false) == ["..", name] && Render(["..", name]) == path && "../" <= path
  {
    SplitAtSlash("..", name);
    SplitName("..");
    SplitName(name);
    assert ["..", name][1..] == [name] && [name][1..] == [];
    assert Push([], "..", false) == [".."] && Push([".."], name, false) == ["..", name];
    assert Walk([".."], [name], false) == Walk(["..", name], [], false);
    assert Join([name]) == name && Join(["..", name]) == ".." + "/" + Join(["..", name][1..]);
    assert (".." + "/" + name)[..3] == "../";
  }

  lemma UpFromDirectory(directory: string, name: string)
    requires Name(directory) && Name(name)
    ensures Walk([directory], ["..", name], false) == [name] && Render([name]) == name
  {
    assert ["..", name][1..] == [name] && [name][1..] == [];
    assert Push([directory], "..", false) == [] && Push([], name, false) == [name];
    assert Walk([], [name], false) == Walk([name], [], false);
  }

  lemma DepthAtRoot(document: string)
    requires Name(document)
    ensures Depth(document) == 0 && Parent(document) == "." && InRepository(".") && !Absolute(document)
    ensures Walk([], Split("."), false) == []
  {
    FileAtRoot(document);
    WalkAtRoot();
  }

  lemma DepthInDirectory(directory: string, document: string)
    requires Name(directory) && Name(document)
    ensures var moved := directory + "/" + document;
      Depth(moved) == 1 && Parent(moved) == directory && InRepository(directory)
    ensures Walk([], Split(directory), false) == [directory]
  {
    FileInDirectory(directory, document);
    WalkInDirectory(directory);
  }

  lemma UpFromBoth(name: string, directory: string)
    requires Name(name) && Name(directory)
    ensures var raw := ".." + "/" + name;
      && NormPath(JoinPath(".", raw)) == raw && Normalize(JoinPath(".", raw)) == raw
      && NormPath(JoinPath(directory, raw)) == name
  {
    var raw := ".." + "/" + name;
    DotDotAndName(name);
    UpFromDirectory(directory, name);
    WalkAtRoot();
    WalkInDirectory(directory);
    JoinedWalk(".", raw);
    JoinedWalk(directory, raw);
    NormalizeWalks(JoinPath(".", raw));
  }

  lemma DeeperLinkIsLost(raw: string, source: string, moved: string, moves: map<string, string>, cwd: seq<string>)
    requires Dissect(raw) == Relative("", raw, "", "") && "../" <= ResolvedOld(raw, source)
    requires !Absolute(source) && InRepository(Parent(source)) && InRepository(Parent(moved))
    requires Depth(moved) != Depth(source) && '?' !in raw
    ensures RewriteRaw(raw, source, moved, moves, cwd) == Some(raw) && !KeepsTarget(raw, raw, source, moved, moves)
  {
    NothingToCut(raw);
    LeavingLinkKeepsTargetExactlyWhen(raw, Dissect(raw), source, moved, moves, cwd);
  }

  lemma UpResolves(name: string, document: string)
    requires Name(name) && Name(document)
    ensures "../" <= ResolvedOld(".." + "/" + name, document)
  {
    DepthAtRoot(document);
    DotDotAndName(name);
    UpFromBoth(name, document);
  }

  lemma UpDissects(name: string)
    requires Name(name) && PlainWord(".." + "/" + name) && '?' !in name
    ensures var raw := ".." + "/" + name; Dissect(raw) == Relative("", raw, "", "")
  {
    var raw := ".." + "/" + name;
    assert '?' !in raw && raw + "" == raw;
    WordDissects(raw, "");
  }

  lemma PlacesAboveRoot(name: string, document: string, directory: string)
    requires Name(name) && Name(document) && Name(directory)
    ensures var raw, moved := ".." + "/" + name, directory + "/" + document;
      && NormPath(JoinPath(Parent(document), raw)) == raw && NormPath(JoinPath(Parent(moved), raw)) == name
      && Depth(moved) != Depth(document)
      && !Absolute(document) && InRepository(Parent(document)) && InRepository(Parent(moved))
  {
    DepthAtRoot(document);
    DepthInDirectory(directory, document);
    UpFromBoth(name, directory);
  }

  /** A link out of the repository to `name`, in a document at the root, leads to
      `name` inside the repository once the document has moved into a directory. */
  lemma LinkAboveRootIsLost(
    name: string, document: string, directory: string, moves: map<string, string>, cwd: seq<string>)
    requires Name(name) && Name(document) && Name(directory) && PlainWord(".." + "/" + name) && '?' !in name
    ensures var raw, moved := ".." + "/" + name, directory + "/" + document;
      && RewriteRaw(raw, document, moved, moves, cwd) == Some(raw)
      && NormPath(JoinPath(Parent(document), raw)) == raw
      && NormPath(JoinPath(Parent(moved), raw)) == name
      && !KeepsTarget(raw, raw, document, moved, moves)
  {
    UpDissects(name);
    UpResolves(name, document);
    PlacesAboveRoot(name, document, directory);
    DeeperLinkIsLost(".." + "/" + name, document, directory + "/" + document, moves, cwd);
  }

  /** So does "../x.md" in "a.md", moved to "d/a.md". */
  lemma LinkToSiblingRepositoryIsLost(moves: map<string, string>, cwd: seq<string>)
    ensures RewriteRaw("../x.md", "a.md", "d/a.md", moves, cwd) == Some("../x.md")
    ensures !KeepsTarget("../x.md", "../x.md", "a.md", "d/a.md", moves)
  {
    assert ".." + "/" + "x.md" == "../x.md" && "d" + "/" + "a.md" == "d/a.md";
    LinkAboveRootIsLost("x.md", "a.md", "d", moves, cwd);
  }

  // ----------------------------------------------------- a query, then a fragment

  lemma ResolvedAtRoot(file: string, document: string)
    requires Name(file) && Name(document)
    ensures ResolvedOld(file, document) == file && !("../" <= file) && InRepository(file) && !Absolute(file)
    ensures Walk([], Split(file), false) == [file]
  {
    DepthAtRoot(document);
    WalkInDirectory(file);
    NoSlashNoPrefix(file);
    JoinedWalk(".", file);
    NormalizeWalks(JoinPath(".", file));
    assert Render([file]) == file;
  }

  lemma WayFromRoot(file: string, cwd: seq<string>)
    requires Inside(cwd) && Name(file)
    ensures RelPath(file, ".", cwd) == file && RewrittenPath(file, file, ".", cwd) == file
  {
    WalkAtRoot();
    WalkInDirectory(file);
    RelPathIsWay(file, ".", cwd);
    assert Way([], [file]) == [file];
    NameIsNotDotted(file);
  }

  lemma NameIsNotDotted(name: string)
    requires Name(name)
    ensures !("./" <= name) && !("../" <= name)
  {
    assert forall i | 0 <= i < |name| :: name[i] != '/';
    assert "./"[1] == '/' && "../"[2] == '/';
  }

  /** What the rewrite prints for a target of one word. */
  lemma WordIsRewritten(
    word: string, fragment: string, oldSource: string, newSource: string, moves: map<string, string>, cwd: seq<string>,
    resolved: string, newPath: string)
    requires Dissect(word + fragment) == Relative("", word, fragment, "")
    requires ResolvedOld(word, oldSource) == resolved != "" && !("../" <= resolved) && resolved !in moves
    requires RewrittenPath(word, resolved, Parent(newSource), cwd) == newPath
    ensures RewriteRaw(word + fragment, oldSource, newSource, moves, cwd) == Some(newPath + fragment)
  {
    GuardedLinkIsRewritten(word + fragment, oldSource, newSource, moves, cwd);
    EmptyEnds(newPath, fragment);
  }

  /** A link between files at the root, with a query in front of its fragment, is
      printed as it was, wherever the moves take the file it names. */
  lemma QueriedLinkIsNotRetargeted(
    name: string, query: string, fragment: string, document: string, moves: map<string, string>, cwd: seq<string>)
    requires Inside(cwd) && Name(document) && Name(name + query) && PlainWord(name + query) && '?' !in name
    requires query != "" && query[0] == '?' && fragment != "" && fragment[0] == '#'
    requires ':' !in fragment && (forall c | c in fragment :: !IsSpace(c)) && name + query !in moves
    ensures RewriteRaw(name + query + fragment, document, document, moves, cwd) == Some(name + query + fragment)
    ensures UrlPart(name + query) == name
  {
    var path := name + query;
    WordDissects(path, fragment);
    DepthAtRoot(document);
    ResolvedAtRoot(path, document);
    WayFromRoot(path, cwd);
    WordIsRewritten(path, fragment, document, document, moves, cwd, path, path);
    CutAtQuery(name, query);
  }

  lemma ReadAgainIsLost(
    raw: string, path: string, fragment: string, source: string, moves: map<string, string>)
    requires Dissect(raw) == Relative("", path, fragment, "") && UrlPart(path) != ""
    requires var url := UrlPart(path);
      NormPath(JoinPath(Parent(source), url)) != NormPath(ImageOf(url, source, moves))
    requires !Absolute(UrlPart(path)) && !Absolute(source)
    ensures !KeepsTarget(raw, raw, source, source, moves)
  {
    FixedExactlyWhen(raw);
    MovedIs(UrlPart(path), source, moves);
  }

  lemma MovedNameIsMissed(name: string, document: string, moves: map<string, string>)
    requires Name(document) && Name(name) && NormPath(MovedImage(name, moves)) != name
    ensures NormPath(JoinPath(Parent(document), name)) != NormPath(ImageOf(name, document, moves))
  {
    DepthAtRoot(document);
    ResolvedAtRoot(name, document);
    NormalizeWalks(JoinPath(".", name));
  }

  /** The file in front of the query has moved, the printed link still names the old place. */
  lemma QueriedLinkIsLost(
    name: string, query: string, fragment: string, document: string, moves: map<string, string>, cwd: seq<string>)
    requires Inside(cwd) && Name(document) && Name(name) && Name(name + query) && PlainWord(name + query)
    requires '?' !in name && query != "" && query[0] == '?' && fragment != "" && fragment[0] == '#'
    requires ':' !in fragment && (forall c | c in fragment :: !IsSpace(c)) && name + query !in moves
    requires NormPath(MovedImage(name, moves)) != name
    ensures RewriteRaw(name + query + fragment, document, document, moves, cwd) == Some(name + query + fragment)
    ensures !KeepsTarget(name + query + fragment, name + query + fragment, document, document, moves)
  {
    QueriedLinkIsNotRetargeted(name, query, fragment, document, moves, cwd);
    WordDissects(name + query, fragment);
    MovedNameIsMissed(name, document, moves);
    ReadAgainIsLost(name + query + fragment, name + query, fragment, document, moves);
  }

  lemma QueriedLinkToMovedFileIsLost(
    name: string, query: string, fragment: string, document: string, directory: string, cwd: seq<string>)
    requires Inside(cwd) && Name(document) && Name(name) && Name(name + query) && PlainWord(name + query)
    requires '?' !in name && query != "" && query[0] == '?' && fragment != "" && fragment[0] == '#' && Name(directory)
    requires ':' !in fragment && (forall c | c in fragment :: !IsSpace(c))
    ensures var raw, moves := name + query + fragment, map[name := directory + "/" + name];
      RewriteRaw(raw, document, document, moves, cwd) == Some(raw) && !KeepsTarget(raw, raw, document, document, moves)
  {
    PrintedIsItself(directory, name);
    assert |name + query| > |name| && |directory + "/" + name| > |name|;
    QueriedLinkIsLost(name, query, fragment, document, map[name := directory + "/" + name], cwd);
  }

  /** So it goes for "a.md?x#f" in "b.md" when "a.md" moves to "d/a.md". */
  lemma MovedFileIsNotFollowed(cwd: seq<string>)
    requires Inside(cwd)
    ensures var moves := map["a.md" := "d/a.md"];
      && RewriteRaw("a.md?x#f", "b.md", "b.md", moves, cwd) == Some("a.md?x#f")
      && !KeepsTarget("a.md?x#f", "a.md?x#f", "b.md", "b.md", moves)
  {
    assert "a.md" + "?x" == "a.md?x" && "a.md?x" + "#f" == "a.md?x#f" && "d" + "/" + "a.md" == "d/a.md";
    QueriedLinkToMovedFileIsLost("a.md", "?x", "#f", "b.md", "d", cwd);
  }

  lemma PrintedIsItself(directory: string, file: string)
    requires Name(directory) && Name(file)
    ensures NormPath(directory + "/" + file) == directory + "/" + file
  {
    ResolvedInDirectory(directory, file, file);
    FileInDirectory(directory, file);
    assert [directory, file][1..] == [file] && Join([directory, file]) == directory + "/" + Join([file]);
  }

  // ------------------------------------------------------- white space in a name

  /** A target of one word with something behind it. */
  lemma WordWithTitleDissects(word: string, title: string)
    requires PlainWord(word) && '?' !in word && EndsInWord(title) && IsSpace(title[0]) && '\n' !in title
    ensures Dissect(word + title) == Relative("", word, "", title)
  {
    var raw := word + title;
    assert word[0] in word && raw[0] == word[0];
    EndOfConcat(word, title);
    EmptyEnds(word, "");
    BareSplits(word, title);
    assert "" + word + title == raw;
    UnsurroundedSplits(raw);
    WordIsHere(word);
    WordEnds(word, "");
    assert word + "" == word && word[..|word|] == word && word[|word|..] == "";
  }

  lemma SpacedPathDissects(word: string, tail: string, file: string)
    requires PlainWord(word) && '?' !in word && PlainWord(file) && tail != "" && IsSpace(tail[0]) && '\n' !in tail
    ensures Dissect(word + (tail + "/" + file)) == Relative("", word, "", tail + "/" + file)
  {
    var title := tail + "/" + file;
    EndOfConcat(tail + "/", file);
    assert file[|file| - 1] in file && title[0] == tail[0];
    assert forall c | c in title :: c in tail || c == '/' || c in file;
    WordWithTitleDissects(word, title);
  }

  /** A link between two files of a directory with white space in its name is read only
      up to the white space once the document has moved to another directory. */
  lemma SpaceCutsLink(head: string, tail: string, file: string, document: string, other: string, cwd: seq<string>)
    requires Inside(cwd) && Name(head + tail) && Name(file) && Name(document) && Name(other) && head + tail != other
    requires PlainWord(file) && '?' !in file && PlainWord(".." + "/" + head) && '?' !in head
    requires tail != "" && IsSpace(tail[0]) && '\n' !in tail
    ensures var directory, word, title := head + tail, ".." + "/" + head, tail + "/" + file;
      && RewriteRaw(file, directory + "/" + document, other + "/" + document, map[], cwd) == Some(word + title)
      && Dissect(word + title) == Relative("", word, "", title)
      && !KeepsTarget(file, word + title, directory + "/" + document, other + "/" + document, map[])
  {
    SpacedPathDissects(".." + "/" + head, tail, file);
    CutAcross(head, tail, file);
    CutLinkIsLost(head + tail, ".." + "/" + head, tail + "/" + file, file, document, other, cwd);
  }

  lemma CutLinkIsLost(
    directory: string, word: string, title: string, file: string, document: string, other: string, cwd: seq<string>)
    requires Inside(cwd) && Name(directory) && Name(file) && Name(document) && Name(other) && directory != other
    requires PlainWord(file) && '?' !in file && ".." + "/" + (directory + "/" + file) == word + title && title != ""
    requires Dissect(word + title) == Relative("", word, "", title)
    ensures RewriteRaw(file, directory + "/" + document, other + "/" + document, map[], cwd) == Some(word + title)
    ensures !KeepsTarget(file, word + title, directory + "/" + document, other + "/" + document, map[])
  {
    LinkAcross(directory, file, document, other, cwd);
    WordDissects(file, "");
    assert file + "" == file;
    LinkWithNewTitleIsLost(file, word + title, directory + "/" + document, other + "/" + document, map[]);
  }

  lemma CutAcross(head: string, tail: string, file: string)
    ensures ".." + "/" + (head + tail + "/" + file) == (".." + "/" + head) + (tail + "/" + file)
  {
  }

  lemma LinkWithNewTitleIsLost(
    raw: string, rewritten: string, oldSource: string, newSource: string, moves: map<string, string>)
    requires Dissect(raw).Relative? && Dissect(rewritten).Relative? && Dissect(raw).after != Dissect(rewritten).after
    ensures !KeepsTarget(raw, rewritten, oldSource, newSource, moves)
  {
    FixedExactlyWhen(raw);
  }

  /** So it goes for the link "b.md" of "p q/a.md", moved to "r/a.md". */
  lemma LinkIntoSpaceIsLost(cwd: seq<string>)
    requires Inside(cwd)
    ensures RewriteRaw("b.md", "p q/a.md", "r/a.md", map[], cwd) == Some("../p q/b.md")
    ensures Dissect("../p q/b.md") == Relative("", "../p", "", " q/b.md")
    ensures !KeepsTarget("b.md", "../p q/b.md", "p q/a.md", "r/a.md", map[])
  {
    assert "p" + " q" == "p q" && "p q" + "/" + "a.md" == "p q/a.md" && "r" + "/" + "a.md" == "r/a.md";
    assert ".." + "/" + "p" == "../p" && " q" + "/" + "b.md" == " q/b.md" && "../p" + " q/b.md" == "../p q/b.md";
    SpaceCutsLink("p", " q", "b.md", "a.md", "r", cwd);
  }

  // ------------------------------------------------------------- a ')' in a name

  function OneLink(raw: string): Document {
    Linked("", raw, Literal(""))
  }

  lemma OneLinkMaps(raw: string, f: string -> string)
    ensures MapLinks(OneLink(raw), f) == OneLink(f(raw))
  {
  }

  lemma OneLinkPrints(raw: string)
    ensures Print(OneLink(raw)) == "](" + raw + ")"
  {
    assert Print(Literal("")) == "";
  }

  lemma OneLinkIsRewritten(
    raw: string, rewritten: string, oldSource: string, newSource: string, moves: map<string, string>, cwd: seq<string>)
    requires GoodRaw(raw) && RewriteRaw(raw, oldSource, newSource, moves, cwd) == Some(rewritten)
    ensures RewriteMarkdownLinks(Print(OneLink(raw)), oldSource, newSource, moves, cwd)
        == Some(Print(OneLink(rewritten)))
  {
    var f := Rewriter(oldSource, newSource, moves, cwd);
    PrintedReadsBack(OneLink(raw));
    OneLinkMaps(raw, f);
    OneLinkDoesNotRaise(raw, oldSource, newSource, moves, cwd);
    SubstituteMapsLinks(Print(OneLink(raw)), f);
  }

  lemma OneLinkDoesNotRaise(raw: string, oldSource: string, newSource: string, moves: map<string, string>,
      cwd: seq<string>)
    requires RewriteRaw(raw, oldSource, newSource, moves, cwd).Some?
    ensures !Raises(OneLink(raw), oldSource, newSource, moves, cwd)
  {
  }

  lemma ParenthesisIsLost(directory: string, file: string)
    requires ')' in directory
    ensures var d := OneLink(".." + "/" + (directory + "/" + file)); Read(Print(d)) != d
  {
    var path := ".." + "/" + (directory + "/" + file);
    var i :| 0 <= i < |directory| && directory[i] == ')';
    assert path[3 + i] == ')';
    ReadsBackExactlyWhen(OneLink(path));
  }

  /** A link between two files of a directory with ')' in its name does not read back
      once the document has moved to another directory. */
  lemma ParenthesisBreaksLink(directory: string, file: string, document: string, other: string, cwd: seq<string>)
    requires Inside(cwd) && Name(directory) && Name(file) && Name(document) && Name(other) && directory != other
    requires PlainWord(file) && '?' !in file && ')' !in file && ')' in directory
    ensures var path := ".." + "/" + (directory + "/" + file);
      && RewriteMarkdownLinks(Print(OneLink(file)), directory + "/" + document, other + "/" + document, map[], cwd)
         == Some(Print(OneLink(path)))
      && Read(Print(OneLink(path))) != OneLink(path)
  {
    var path := ".." + "/" + (directory + "/" + file);
    LinkAcross(directory, file, document, other, cwd);
    OneLinkIsRewritten(file, path, directory + "/" + document, other + "/" + document, map[], cwd);
    ParenthesisIsLost(directory, file);
  }

  /** So it goes for the link "b.md" of "p)/a.md", moved to "q/a.md". */
  lemma LinkInParenthesesBreaks(cwd: seq<string>)
    requires Inside(cwd)
    ensures RewriteMarkdownLinks("](" + "b.md" + ")", "p)/a.md", "q/a.md", map[], cwd)
        == Some("](" + "../p)/b.md" + ")")
    ensures Read("](" + "../p)/b.md" + ")") != OneLink("../p)/b.md")
  {
    assert "p)" + "/" + "a.md" == "p)/a.md" && "q" + "/" + "a.md" == "q/a.md";
    assert ".." + "/" + ("p)" + "/" + "b.md") == "../p)/b.md";
    OneLinkPrints("b.md");
    OneLinkPrints("../p)/b.md");
    ParenthesisBreaksLink("p)", "b.md", "a.md", "q", cwd);
  }

  lemma LinkAcross(directory: string, file: string, document: string, other: string, cwd: seq<string>)
    requires Inside(cwd) && Name(directory) && Name(file) && Name(document) && Name(other) && directory != other
    requires PlainWord(file) && '?' !in file
    ensures RewriteRaw(file, directory + "/" + document, other + "/" + document, map[], cwd)
         == Some(".." + "/" + (directory + "/" + file))
  {
    var path := ".." + "/" + (directory + "/" + file);
    WordDissects(file, "");
    assert file + "" == file && path + "" == path;
    ResolvedInDirectory(directory, file, document);
    PathAcross(directory, file, document, other, cwd);
    WordIsRewritten(file, "", directory + "/" + document, other + "/" + document, map[], cwd, directory + "/" + file,
        path);
  }

  lemma PathAcross(directory: string, file: string, document: string, other: string, cwd: seq<string>)
    requires Inside(cwd) && Name(directory) && Name(file) && Name(document) && Name(other) && directory != other
    ensures RewrittenPath(file, directory + "/" + file, Parent(other + "/" + document), cwd)
         == ".." + "/" + (directory + "/" + file)
  {
    DepthInDirectory(other, document);
    ResolvedInDirectory(directory, file, document);
    RelPathIsWay(directory + "/" + file, other, cwd);
    WayAcross(other, directory, file);
    NameIsNotDotted(file);
  }

  lemma WayAcross(other: string, directory: string, file: string)
    requires other != directory
    ensures Way([other], [directory, file]) == ["..", directory, file]
    ensures Render(["..", directory, file]) == ".." + "/" + (directory + "/" + file)
  {
    assert Ups(1) == [".."] && [directory, file][0..] == [directory, file];
    assert ["..", directory, file][1..] == [directory, file] && [directory, file][1..] == [file];
    assert Join([file]) == file && Join([directory, file]) == directory + "/" + Join([directory, file][1..]);
  }

  lemma ResolvedInDirectory(directory: string, file: string, document: string)
    requires Name(directory) && Name(file) && Name(document)
    ensures var resolved := directory + "/" + file;
      && ResolvedOld(file, directory + "/" + document) == resolved && !("../" <= resolved) && InRepository(resolved)
      && Walk([], Split(resolved), false) == [directory, file]
  {
    var resolved := directory + "/" + file;
    DepthInDirectory(directory, document);
    FileInDirectory(directory, file);
    WalkInDirectory(file);
    assert [directory, file][1..] == [file] && [file][1..] == [];
    assert Push([], directory, false) == [directory] && Push([directory], file, false) == [directory, file];
    assert Walk([directory], [file], false) == [directory, file];
    JoinedWalk(directory, file);
    NormalizeWalks(JoinPath(directory, file));
    assert Join([file]) == file && Join([directory, file]) == directory + "/" + Join([directory, file][1..]);
    ComponentBeforeSlash(directory, file);
  }
}
