/** Reading a rewritten link again: exactly which paths the reader finds in the
    place of the old one. */
module LinkReading {
  import opened Options
  import opened PosixPath
  import opened Text
  import opened MarkdownLinks

  // --------------------------------------------------------------- proper splits

  predicate EndsInWord(s: string) {
    s != "" && !IsSpace(s[|s| - 1])
  }

  /** A target outside angle brackets, and what follows it in the trimmed text. */
  predicate ProperBare(target: string, after: string) {
    && target != "" && !IsSpace(target[0]) && (target[0] == '<' ==> '>' !in target && '>' !in after)
    && if '\n' in target then after == "" && EndsInWord(target)
       else '\n' !in after && (after != "" ==> IsSpace(after[0])) && forall c | c in target :: !IsSpace(c)
  }

  /** Three parts that the reader finds again in the trimmed text they make. */
  predicate Proper(s: Split3) {
    && s.target != "" && (s.after != "" ==> EndsInWord(s.after))
    && if s.before == "<" then s.after != "" && s.after[0] == '>' && '>' !in s.target
       else s.before == "" && ProperBare(s.target, s.after)
  }

  lemma EndOfConcat(a: string, b: string)
    ensures b != "" ==> (EndsInWord(a + b) <==> EndsInWord(b))
    ensures b == "" ==> a + b == a
  {
  }

  lemma AngledSplitIsProper(value: string)
    requires EndsInWord(value) && value[0] == '<' && '>' in value && SplitValue(value).target != ""
    ensures Proper(SplitValue(value))
  {
    var end := IndexOf(value, '>');
    assert forall c | c in value[1..end] :: c in value[..end];
  }

  lemma BareSplitIsProper(value: string)
    requires EndsInWord(value) && !IsSpace(value[0]) && !(value[0] == '<' && '>' in value)
    ensures Proper(SplitValue(value))
  {
    var v := SplitValue(value);
    ValueReassembles(value);
    assert value == v.target + v.after;
    assert forall c | c in v.target || c in v.after :: c in value;
    EndOfConcat(v.target, v.after);
  }

  /** What the reader finds in a trimmed text is proper. */
  lemma SplitIsProper(value: string)
    requires EndsInWord(value) && !IsSpace(value[0]) && SplitValue(value).target != ""
    ensures Proper(SplitValue(value))
  {
    if value[0] == '<' && '>' in value {
      AngledSplitIsProper(value);
    } else {
      BareSplitIsProper(value);
    }
  }

  lemma WordBefore(word: string, rest: string)
    requires (forall c | c in word :: !IsSpace(c)) && (rest != "" ==> IsSpace(rest[0]))
    ensures Word(word + rest) == |word|
  {
    var s := word + rest;
    var n := Word(s);
    assert forall i | 0 <= i < |word| :: s[i] == word[i] && word[i] in word;
    assert rest != "" ==> s[|word|] == rest[0];
  }

  lemma AngledSplits(target: string, after: string)
    requires '>' !in target && after != "" && after[0] == '>'
    ensures SplitValue("<" + target + after) == Split3("<", target, after)
  {
    var value := "<" + target + after;
    assert value[0] == '<' && value[1 + |target|] == '>';
    assert forall k | 1 <= k < 1 + |target| :: value[k] == target[k - 1] && target[k - 1] in target;
    FirstIndex(value, '>', 1 + |target|);
    assert value[1..1 + |target|] == target && value[1 + |target|..] == after;
  }

  lemma BareSplits(target: string, after: string)
    requires ProperBare(target, after)
    ensures SplitValue("" + target + after) == Split3("", target, after)
  {
    var value := target + after;
    assert "" + target + after == value && value[0] == target[0];
    assert forall c | c in value :: c in target || c in after;
    if '\n' in target {
      assert value == target;
    } else {
      WordBefore(target, after);
      assert value[..|target|] == target && value[|target|..] == after;
    }
  }

  /** Proper parts are found again. */
  lemma ProperSplits(s: Split3)
    requires Proper(s)
    ensures SplitValue(Whole(s)) == s && EndsInWord(Whole(s)) && !IsSpace(Whole(s)[0])
  {
    EndOfConcat(s.before + s.target, s.after);
    EndOfConcat(s.before, s.target);
    if s.before == "<" {
      AngledSplits(s.target, s.after);
    } else {
      BareSplits(s.target, s.after);
      assert s.target[|s.target| - 1] in s.target;
    }
  }

  // ------------------------------------------------------------- the parts of a link

  /** An angle bracket opens the target. */
  predicate Angled(link: Link)
    requires link.Relative?
  {
    link.before != "" && link.before[|link.before| - 1] == '<'
  }

  /** What follows the target, without the white space at the end. */
  function Title(link: Link): string
    requires link.Relative?
  {
    link.after[..TrailStart(link.after)]
  }

  lemma BlankSlice(raw: string, a: nat, b: nat)
    requires a <= b <= |raw| && forall i | a <= i < b :: IsSpace(raw[i])
    ensures Blank(raw[a..b])
  {
  }

  lemma SliceEndsInWord(raw: string, a: nat, b: nat)
    requires a < b <= |raw| && !IsSpace(raw[b - 1]) && !IsSpace(raw[a])
    ensures EndsInWord(raw[a..b]) && !IsSpace(raw[a..b][0])
  {
  }

  lemma StrippedPieces(raw: string)
    ensures Blank(raw[..LeadEnd(raw)]) && Blank(raw[TrailStart(raw)..])
    ensures Strip(raw) != "" ==> EndsInWord(Strip(raw)) && !IsSpace(Strip(raw)[0])
  {
    var a, b := LeadEnd(raw), TrailStart(raw);
    BlankSlice(raw, 0, a);
    BlankSlice(raw, b, |raw|);
    if a < b {
      SliceEndsInWord(raw, a, b);
    }
  }

  lemma TrimmedAgain(text: string, trail: string)
    requires Blank(trail) && (text != "" ==> EndsInWord(text))
    ensures (text + trail)[..TrailStart(text + trail)] == text
  {
    var s := text + trail;
    var n := TrailStart(s);
    assert forall i | |text| <= i < |s| :: s[i] == trail[i - |text|];
    assert text != "" ==> s[|text| - 1] == text[|text| - 1];
    assert n == |text|;
  }

  lemma BracketBehindBlank(lead: string, before: string)
    requires Blank(lead) && (before == "<" || before == "")
    ensures (lead + before != "" && (lead + before)[|lead + before| - 1] == '<') <==> before == "<"
  {
    assert before == "" ==> lead + before == lead;
  }

  lemma DissectedPieces(s: Split3)
    requires DissectSplit(s).Relative?
    ensures var link := DissectSplit(s);
      s == Split3(link.before, link.path + link.fragment, link.after) && link.path + link.fragment != ""
  {
    var n := PathEnd(s.target);
    assert s.target == s.target[..n] + s.target[n..];
  }

  /** A link is a proper split of its trimmed text, in its white space. */
  lemma LinkParts(raw: string)
    requires Dissect(raw).Relative?
    ensures var link, v := Dissect(raw), SplitValue(Strip(raw));
      && Proper(v) && v.target == link.path + link.fragment
      && link.before == raw[..LeadEnd(raw)] + v.before && link.after == v.after + raw[TrailStart(raw)..]
      && (Angled(link) <==> v.before == "<") && Title(link) == v.after
  {
    var v := SplitValue(Strip(raw));
    DissectedPieces(SplitTarget(raw));
    StrippedPieces(raw);
    assert Strip(raw) == "" ==> v.target == "";
    SplitIsProper(Strip(raw));
    BracketBehindBlank(raw[..LeadEnd(raw)], v.before);
    TrimmedAgain(v.after, raw[TrailStart(raw)..]);
  }

  // ------------------------------------------------------------- spelling a path

  predicate Has(s: string, p: char -> bool) {
    exists i | 0 <= i < |s| :: p(s[i])
  }

  predicate Starts(s: string, p: char -> bool) {
    s != "" && p(s[0])
  }

  predicate AnyHas(pieces: seq<string>, p: char -> bool) {
    exists i | 0 <= i < |pieces| :: Has(pieces[i], p)
  }

  function Is(c: char): char -> bool {
    d => d == c
  }

  /** A character that ends the path of a link early. */
  function EndsPath(link: Link): char -> bool
    requires link.Relative?
  {
    c => c == '#' || (c == '?' && !("#" <= link.fragment)) || (c == '>' && Angled(link))
  }

  predicate SchemeFree(s: string) {
    !("mailto:" <= s) && !("data:" <= s)
  }

  /** A path that the reader finds again in the place of the path of a link. */
  predicate FitPath(path: string, link: Link)
    requires link.Relative?
  {
    && path != "" && !Elsewhere(path) && !Has(path, EndsPath(link))
    && (!Angled(link) ==> ProperBare(path + link.fragment, Title(link)))
  }

  /** The same over the components of the path: what they must not contain, and how
      the first may begin and the last end outside angle brackets. */
  predicate Fits(pieces: seq<string>, link: Link)
    requires link.Relative? && pieces != []
  {
    && !AnyHas(pieces, EndsPath(link)) && SchemeFree(pieces[0])
    && (!Angled(link) ==> BareFits(pieces, link.fragment, Title(link)))
  }

  predicate BareFits(pieces: seq<string>, fragment: string, title: string)
    requires pieces != []
  {
    && !Starts(pieces[0], IsSpace)
    && (Starts(pieces[0], Is('<')) ==> !AnyHas(pieces + [fragment, title], Is('>')))
    && if AnyHas(pieces + [fragment], Is('\n'))
       then title == "" && (fragment == "" ==> EndsInWord(pieces[|pieces| - 1]))
       else !AnyHas(pieces + [fragment], IsSpace)
  }

  lemma HasChar(s: string, c: char)
    ensures Has(s, Is(c)) <==> c in s
  {
    if c in s {
      var i :| 0 <= i < |s| && s[i] == c;
      assert Is(c)(s[i]);
    }
  }

  lemma HasInConcat(a: string, b: string, p: char -> bool)
    ensures Has(a + b, p) <==> Has(a, p) || Has(b, p)
  {
    var s := a + b;
    if Has(a, p) {
      var i :| 0 <= i < |a| && p(a[i]);
      assert s[i] == a[i];
    }
    if Has(b, p) {
      var i :| 0 <= i < |b| && p(b[i]);
      assert s[|a| + i] == b[i];
    }
  }

  lemma AnyHasInConcat(a: seq<string>, b: seq<string>, p: char -> bool)
    ensures AnyHas(a + b, p) <==> AnyHas(a, p) || AnyHas(b, p)
  {
    var s := a + b;
    if AnyHas(a, p) {
      var i :| 0 <= i < |a| && Has(a[i], p);
      assert s[i] == a[i];
    }
    if AnyHas(b, p) {
      var i :| 0 <= i < |b| && Has(b[i], p);
      assert s[|a| + i] == b[i];
    }
  }

  lemma AnyHasOne(s: string, p: char -> bool)
    ensures AnyHas([s], p) <==> Has(s, p)
  {
    assert [s][0] == s;
  }

  lemma {:induction false} JoinHas(pieces: seq<string>, p: char -> bool)
    requires !p('/')
    ensures Has(Join(pieces), p) <==> AnyHas(pieces, p)
  {
    if |pieces| == 1 {
      assert AnyHas(pieces, p) <==> Has(pieces[0], p);
    } else if |pieces| > 1 {
      var rest := pieces[1..];
      JoinHas(rest, p);
      HasInConcat(pieces[0] + "/", Join(rest), p);
      HasInConcat(pieces[0], "/", p);
      AnyHasInConcat([pieces[0]], rest, p);
      assert pieces == [pieces[0]] + rest;
      AnyHasOne(pieces[0], p);
    }
  }

  /** A joined path with something behind it has a character when one of the pieces has. */
  lemma JoinedHas(pieces: seq<string>, fragment: string, p: char -> bool)
    requires !p('/')
    ensures Has(Join(pieces) + fragment, p) <==> AnyHas(pieces + [fragment], p)
  {
    JoinHas(pieces, p);
    HasInConcat(Join(pieces), fragment, p);
    AnyHasInConcat(pieces, [fragment], p);
    AnyHasOne(fragment, p);
  }

  lemma NoSpaceMeans(s: string)
    ensures !Has(s, IsSpace) <==> forall c | c in s :: !IsSpace(c)
  {
    assert forall i | 0 <= i < |s| :: s[i] in s;
  }

  // --------------------------------------------------- pieces and the joined path

  lemma {:induction false} JoinStarts(pieces: seq<string>)
    requires pieces != [] && pieces[0] != ""
    ensures Join(pieces) != "" && Join(pieces)[0] == pieces[0][0] && pieces[0] <= Join(pieces)
  {
  }

  lemma {:induction false} JoinEnds(pieces: seq<string>)
    requires pieces != [] && pieces[|pieces| - 1] != ""
    ensures EndsInWord(Join(pieces)) <==> EndsInWord(pieces[|pieces| - 1])
    ensures Join(pieces) != ""
  {
    if |pieces| > 1 {
      JoinEnds(pieces[1..]);
      EndOfConcat(pieces[0] + "/", Join(pieces[1..]));
    }
  }

  lemma {:induction false} PrefixInFirst(scheme: string, pieces: seq<string>)
    requires pieces != [] && '/' !in scheme
    ensures scheme <= Join(pieces) <==> scheme <= pieces[0]
  {
    var s, first := Join(pieces), pieces[0];
    assert first <= s && (|pieces| > 1 ==> |s| > |first| && s[|first|] == '/');
    assert forall i | 0 <= i < |scheme| :: scheme[i] in scheme;
    if scheme <= first {
      assert forall i | 0 <= i < |scheme| :: scheme[i] == first[i] == s[i];
    }
  }

  lemma DoubleSlashHasEmptyPart(scheme: string, path: string)
    requires scheme + "//" <= path
    ensures "" in Split(path)
  {
    var rest := path[|scheme| + 2..];
    assert path == scheme + "/" + ("/" + rest);
    SplitAtSlash(scheme, "/" + rest);
    assert "/" + rest == "" + "/" + rest;
    SplitAtSlash("", rest);
    assert Split(path)[|Split(scheme)|] == "";
  }

  lemma JoinedIsHere(pieces: seq<string>)
    requires pieces != [] && forall piece | piece in pieces :: piece != "" && '/' !in piece
    ensures !("#" <= Join(pieces)) ==> (Elsewhere(Join(pieces)) <==> !SchemeFree(pieces[0]))
  {
    var path := Join(pieces);
    assert pieces[0] in pieces;
    JoinStarts(pieces);
    SplitJoin(pieces);
    assert "http:" + "//" == "http://" && "https:" + "//" == "https://";
    if "http://" <= path {
      DoubleSlashHasEmptyPart("http:", path);
    }
    if "https://" <= path {
      DoubleSlashHasEmptyPart("https:", path);
    }
    PrefixInFirst("mailto:", pieces);
    PrefixInFirst("data:", pieces);
  }

  lemma BareJoinFits(pieces: seq<string>, fragment: string, title: string)
    requires pieces != [] && forall piece | piece in pieces :: piece != ""
    requires '\n' !in title && (title != "" ==> IsSpace(title[0]))
    requires title == "" && fragment != "" ==> EndsInWord(fragment)
    ensures ProperBare(Join(pieces) + fragment, title) <==> BareFits(pieces, fragment, title)
  {
    var path := Join(pieces);
    var target := path + fragment;
    assert pieces[0] in pieces && pieces[|pieces| - 1] in pieces;
    JoinStarts(pieces);
    JoinEnds(pieces);
    EndOfConcat(path, fragment);
    JoinedHas(pieces, fragment, Is('\n'));
    HasChar(target, '\n');
    JoinedHas(pieces, fragment, IsSpace);
    NoSpaceMeans(target);
    ClosingIn(pieces, fragment, title);
    assert target[0] == pieces[0][0];
  }

  lemma ClosingIn(pieces: seq<string>, fragment: string, title: string)
    ensures AnyHas(pieces + [fragment, title], Is('>')) <==> '>' in Join(pieces) + fragment || '>' in title
  {
    JoinedHas(pieces, fragment, Is('>'));
    HasChar(Join(pieces) + fragment, '>');
    AnyHasInConcat(pieces + [fragment], [title], Is('>'));
    assert pieces + [fragment] + [title] == pieces + [fragment, title];
    AnyHasOne(title, Is('>'));
    HasChar(title, '>');
  }

  /** What the reader left behind the target of a link. */
  lemma TitleOf(raw: string)
    requires Dissect(raw).Relative? && !Angled(Dissect(raw))
    ensures var link := Dissect(raw);
      && '\n' !in Title(link) && (Title(link) != "" ==> IsSpace(Title(link)[0]))
      && (Title(link) == "" && link.fragment != "" ==> EndsInWord(link.fragment))
  {
    var link := Dissect(raw);
    LinkParts(raw);
    var target := link.path + link.fragment;
    assert target[|target| - 1] in target;
    EndOfConcat(link.path, link.fragment);
  }

  /** A path fits a link exactly when its components do. */
  lemma JoinFits(pieces: seq<string>, raw: string, link: Link)
    requires pieces != [] && (forall piece | piece in pieces :: piece != "" && '/' !in piece)
    requires link.Relative? && Dissect(raw) == link
    ensures FitPath(Join(pieces), link) <==> Fits(pieces, link)
  {
    var path := Join(pieces);
    assert pieces[0] in pieces;
    JoinHas(pieces, EndsPath(link));
    JoinStarts(pieces);
    JoinedIsHere(pieces);
    if "#" <= path {
      assert EndsPath(link)(path[0]);
    }
    if !Angled(link) {
      TitleOf(raw);
      BareJoinFits(pieces, link.fragment, Title(link));
    }
  }

  // ------------------------------------------------- another path in its place

  lemma NoSchemeAcross(scheme: string, path: string, fragment: string)
    requires !(scheme <= path) && '#' !in scheme && '?' !in scheme
    requires fragment != "" ==> fragment[0] == '#' || fragment[0] == '?'
    ensures !(scheme <= path + fragment)
  {
    var target := path + fragment;
    if |scheme| <= |path| {
      assert target[..|scheme|] == path[..|scheme|];
    } else if fragment != "" {
      assert target[|path|] == fragment[0];
      assert scheme[|path|] in scheme;
    }
  }

  lemma HereWithFragment(path: string, fragment: string)
    requires path != "" && !Elsewhere(path) && (fragment != "" ==> fragment[0] == '#' || fragment[0] == '?')
    ensures !Elsewhere(path + fragment)
  {
    assert (path + fragment)[0] == path[0];
    NoSchemeAcross("http://", path, fragment);
    NoSchemeAcross("https://", path, fragment);
    NoSchemeAcross("mailto:", path, fragment);
    NoSchemeAcross("data:", path, fragment);
  }

  lemma PathEndsHere(path: string, fragment: string)
    requires '#' !in path && ('?' in path ==> "#" <= fragment)
    requires fragment != "" ==> fragment[0] == '#' || (fragment[0] == '?' && '#' !in fragment)
    ensures PathEnd(path + fragment) == |path|
  {
    var target := path + fragment;
    assert target[..|path|] == path;
    assert forall c | c in target :: c in path || c in fragment;
    assert forall k | 0 <= k < |path| :: target[k] == path[k] && path[k] in path;
    if fragment != "" {
      assert target[|path|] == fragment[0];
      FirstIndex(target, fragment[0], |path|);
    } else {
      assert target == path;
    }
  }

  lemma NothingEndsPath(path: string, link: Link)
    requires link.Relative? && !Has(path, EndsPath(link))
    ensures '#' !in path && ('?' in path ==> "#" <= link.fragment) && (Angled(link) ==> '>' !in path)
  {
    assert forall i | 0 <= i < |path| :: !EndsPath(link)(path[i]);
  }

  lemma FragmentShape(raw: string)
    requires Dissect(raw).Relative?
    ensures var f := Dissect(raw).fragment; f != "" ==> f[0] == '#' || (f[0] == '?' && '#' !in f)
  {
    var target := SplitTarget(raw).target;
    var n := PathEnd(target);
    if '#' !in target {
      assert forall c | c in target[n..] :: c in target;
    }
  }

  lemma StripBetween(lead: string, value: string, trail: string)
    requires Blank(lead) && Blank(trail) && value != "" && !IsSpace(value[0]) && !IsSpace(value[|value| - 1])
    ensures var raw := lead + value + trail;
      LeadEnd(raw) == |lead| && TrailStart(raw) == |lead| + |value|
      && raw[..|lead|] == lead && Strip(raw) == value && raw[|lead| + |value|..] == trail
  {
    var raw := lead + value + trail;
    assert forall i | 0 <= i < |lead| :: raw[i] == lead[i];
    assert raw[|lead|] == value[0];
    assert raw[|lead| + |value| - 1] == value[|value| - 1];
    assert forall i | |lead| + |value| <= i < |raw| :: raw[i] == trail[i - |lead| - |value|];
  }

  lemma SurroundedSplits(lead: string, value: string, trail: string)
    requires Blank(lead) && Blank(trail) && value != "" && !IsSpace(value[0]) && !IsSpace(value[|value| - 1])
    ensures var v := SplitValue(value);
      SplitTarget(lead + value + trail) == Split3(lead + v.before, v.target, v.after + trail)
  {
    StripBetween(lead, value, trail);
  }

  lemma Reassociate(a: string, b: string, c: string, d: string, e: string, f: string)
    ensures (a + b) + c + d + (e + f) == a + (b + (c + d) + e) + f
  {
  }

  lemma PutBetween(lead: string, before: string, newPath: string, fragment: string, after: string, trail: string)
    requires Blank(lead) && Blank(trail) && Proper(Split3(before, newPath + fragment, after))
    ensures SplitTarget((lead + before) + newPath + fragment + (after + trail))
         == Split3(lead + before, newPath + fragment, after + trail)
  {
    var s := Split3(before, newPath + fragment, after);
    ProperSplits(s);
    SurroundedSplits(lead, Whole(s), trail);
    Reassociate(lead, before, newPath, fragment, after, trail);
  }

  lemma FitIsProper(raw: string, newPath: string)
    requires Dissect(raw).Relative? && FitPath(newPath, Dissect(raw))
    ensures Proper(SplitValue(Strip(raw)).(target := newPath + Dissect(raw).fragment))
  {
    var link := Dissect(raw);
    LinkParts(raw);
    NothingEndsPath(newPath, link);
    assert forall c | c in newPath + link.fragment :: c in newPath || c in link.fragment;
    assert forall c | c in link.fragment :: c in link.path + link.fragment;
  }

  lemma FitDissects(before: string, newPath: string, fragment: string, after: string)
    requires newPath != "" && !Elsewhere(newPath) && '#' !in newPath && ('?' in newPath ==> "#" <= fragment)
    requires fragment != "" ==> fragment[0] == '#' || (fragment[0] == '?' && '#' !in fragment)
    ensures DissectSplit(Split3(before, newPath + fragment, after)) == Relative(before, newPath, fragment, after)
  {
    PathEndsHere(newPath, fragment);
    HereWithFragment(newPath, fragment);
    assert (newPath + fragment)[..|newPath|] == newPath && (newPath + fragment)[|newPath|..] == fragment;
  }

  /** A fitting path is read again, in the same wrapper, with the same fragment and title. */
  lemma FitPathIsRead(raw: string, newPath: string)
    requires Dissect(raw).Relative? && FitPath(newPath, Dissect(raw))
    ensures var link := Dissect(raw);
      Dissect(link.before + newPath + link.fragment + link.after) == link.(path := newPath)
  {
    var link, v := Dissect(raw), SplitValue(Strip(raw));
    LinkParts(raw);
    FitIsProper(raw, newPath);
    StrippedPieces(raw);
    PutBetween(raw[..LeadEnd(raw)], v.before, newPath, link.fragment, v.after, raw[TrailStart(raw)..]);
    FragmentShape(raw);
    NothingEndsPath(newPath, link);
    FitDissects(link.before, newPath, link.fragment, link.after);
  }

  lemma CutIsHere(target: string, n: nat)
    requires !Elsewhere(target) && 0 < n <= |target|
    ensures !Elsewhere(target[..n])
  {
    var path := target[..n];
    assert target == path + target[n..];
    assert path[0] == target[0];
  }

  lemma PathIsCutBefore(target: string)
    ensures var n := PathEnd(target);
      '#' !in target[..n] && ('?' in target[..n] ==> "#" <= target[n..])
  {
    var n := PathEnd(target);
    assert forall c | c in target[..n] :: c in target;
    if '#' in target {
      assert target[n..][0] == '#';
    }
  }

  lemma ReadPathIsCut(s: Split3, link: Link)
    requires link.Relative? && DissectSplit(s) == link
    ensures link.path != "" && !Elsewhere(link.path) && '#' !in link.path
    ensures '?' in link.path ==> "#" <= link.fragment
  {
    PathIsCutBefore(s.target);
    CutIsHere(s.target, PathEnd(s.target));
  }

  lemma CutPathFits(v: Split3, link: Link)
    requires link.Relative? && Proper(v) && v.target == link.path + link.fragment
    requires (Angled(link) <==> v.before == "<") && Title(link) == v.after
    requires link.path != "" && !Elsewhere(link.path) && '#' !in link.path
    requires '?' in link.path ==> "#" <= link.fragment
    ensures FitPath(link.path, link)
  {
    assert forall i | 0 <= i < |link.path| :: link.path[i] in link.path && link.path[i] in v.target;
  }

  /** What is read as a path fits. */
  lemma ReadPathFits(raw: string, link: Link)
    requires link.Relative? && Dissect(raw) == link
    ensures FitPath(link.path, link)
  {
    LinkParts(raw);
    ReadPathIsCut(SplitTarget(raw), link);
    CutPathFits(SplitValue(Strip(raw)), link);
  }

  /** A link whose path is replaced is read with the new path in the place of the
      old one, everything around it unchanged, exactly when the new path fits. */
  lemma ReplacedPathIsReadExactlyWhen(raw: string, newPath: string)
    requires Dissect(raw).Relative?
    ensures var link := Dissect(raw);
      Dissect(link.before + newPath + link.fragment + link.after) == link.(path := newPath) <==> FitPath(newPath, link)
  {
    var link := Dissect(raw);
    var rewritten := link.before + newPath + link.fragment + link.after;
    if FitPath(newPath, link) {
      FitPathIsRead(raw, newPath);
    }
    if Dissect(rewritten) == link.(path := newPath) {
      ReadPathFits(rewritten, Dissect(rewritten));
      SameSurroundings(newPath, link, Dissect(rewritten));
    }
  }

  lemma SameSurroundings(path: string, a: Link, b: Link)
    requires a.Relative? && b == a.(path := path) && FitPath(path, b)
    ensures FitPath(path, a)
  {
    assert forall c :: EndsPath(a)(c) == EndsPath(b)(c);
  }

  // --------------------------------------------------- the way to a moved target

  /** The components of the relative path from the directory of a document to an image. */
  function WayTo(image: string, source: string, cwd: seq<string>): seq<string> {
    if image == ".." then Ups(Depth(source) + if cwd == [] then 0 else 1)
    else Way(DirectoryOf(source), Walk([], Split(image), false))
  }

  /** The components of the path that the rewrite prints. */
  function Printed(path: string, way: seq<string>): (pieces: seq<string>)
    ensures pieces != [] && forall piece | piece in pieces :: piece == "." || piece in way
  {
    if way == [] then ["."] else if "./" <= path && !("." <= way[0]) then ["."] + way else way
  }

  lemma RelPathPrintsWay(image: string, source: string, cwd: seq<string>)
    requires Inside(cwd) && InRepository(Parent(source)) && (InRepository(image) || image == "..")
    ensures var way := WayTo(image, source, cwd);
      RelPath(image, Parent(source), cwd) == Render(way) && forall c | c in way :: c != "" && '/' !in c
  {
    if image == ".." {
      WayToHoldingDirectory(Parent(source), cwd);
    } else {
      RelPathIsWay(image, Parent(source), cwd);
      WayIsPlain(DirectoryOf(source), Walk([], Split(image), false));
    }
  }

  lemma PrintedWay(path: string, way: seq<string>)
    requires forall c | c in way :: c != "" && '/' !in c
    ensures Join(Printed(path, way))
         == if "./" <= path && !("." <= Render(way)) then "./" + Render(way) else Render(way)
    ensures forall piece | piece in Printed(path, way) :: piece != "" && '/' !in piece
  {
    if way != [] {
      assert way[0] in way;
      JoinStarts(way);
      assert (["."] + way)[1..] == way;
      assert "." + "/" + Join(way) == "./" + Join(way);
    }
  }

  lemma RewrittenPathIsPrinted(path: string, image: string, source: string, cwd: seq<string>)
    requires Inside(cwd) && InRepository(Parent(source)) && (InRepository(image) || image == "..")
    ensures var pieces := Printed(path, WayTo(image, source, cwd));
      && RewrittenPath(path, image, Parent(source), cwd) == Join(pieces)
      && forall piece | piece in pieces :: piece != "" && '/' !in piece
  {
    RelPathPrintsWay(image, source, cwd);
    PrintedWay(path, WayTo(image, source, cwd));
  }

  /** The rewritten link is read with its new path, and as before otherwise, exactly
      when the components on the way from the new directory of the document to the
      image fit the link. */
  lemma RewrittenLinkIsReadExactlyWhen(
    raw: string, link: Link, oldSource: string, newSource: string, moves: map<string, string>, cwd: seq<string>)
    requires Inside(cwd) && InRepository(Parent(newSource)) && link.Relative? && Dissect(raw) == link
    requires !("../" <= ResolvedOld(link.path, oldSource))
    requires var image := ImageOf(link.path, oldSource, moves); InRepository(image) || image == ".."
    ensures var pieces := Printed(link.path, WayTo(ImageOf(link.path, oldSource, moves), newSource, cwd));
      var rewritten := RewriteRaw(raw, oldSource, newSource, moves, cwd);
      rewritten.Some? && (Dissect(rewritten.value) == link.(path := Join(pieces)) <==> Fits(pieces, link))
  {
    var image := ImageOf(link.path, oldSource, moves);
    var pieces := Printed(link.path, WayTo(image, newSource, cwd));
    GuardedLinkIsRewritten(raw, oldSource, newSource, moves, cwd);
    RewrittenPathIsPrinted(link.path, image, newSource, cwd);
    JoinFits(pieces, raw, link);
    ReplacedPathIsReadExactlyWhen(raw, Join(pieces));
  }
}
