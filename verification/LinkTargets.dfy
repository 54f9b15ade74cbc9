/** Which targets the rewrite takes for paths, and which it leaves alone. */
module LinkTargets {
  import opened Options
  import opened PosixPath
  import opened Text
  import opened MarkdownLinks
  import opened LinkReading

  /** A target that leads to another place of the page, of the host, or of the network. */
  predicate Begins(s: string) {
    "#" <= s || "/" <= s || "http://" <= s || "https://" <= s || "mailto:" <= s || "data:" <= s
  }

  /** A target that names no path relative to the document. */
  predicate NamesNoPath(target: string) {
    target == "" || Begins(target) || (target[0] == '?' && '#' !in target)
  }

  lemma BeginsElsewhere(target: string)
    ensures Elsewhere(target) <==> target == "" || Begins(target)
  {
    if target != "" && target[0] == '#' {
      assert "#" <= target;
    }
    if target != "" && target[0] == '/' {
      assert "/" <= target;
    }
  }

  /** The rewrite takes a target for a path exactly when it names one. */
  lemma FixedExactlyWhen(raw: string)
    ensures Dissect(raw).Fixed? <==> NamesNoPath(SplitTarget(raw).target)
  {
    var target := SplitTarget(raw).target;
    BeginsElsewhere(target);
    if target != "" && target[0] == '#' {
      assert "#" <= target;
    }
  }

  // ------------------------------------------------------------ left as they are

  /** A link that begins elsewhere, bare or in angle brackets, whatever follows it. */
  predicate PointsElsewhere(raw: string) {
    var value := Strip(raw);
    Begins(value) || ("<" <= value && '>' in value && Begins(value[1..]))
  }

  lemma WordKeeps(b: string, value: string)
    requires forall c | c in b :: !IsSpace(c)
    ensures b <= value ==> b <= value[..Word(value)]
  {
    if b <= value {
      assert forall i | 0 <= i < |b| :: value[i] == b[i] && b[i] in b;
    }
  }

  lemma SliceKeeps(b: string, value: string, end: nat)
    requires '>' !in b && end < |value| && value[end] == '>'
    ensures b <= value ==> b <= value[..end]
  {
    if b <= value {
      assert forall i | 0 <= i < |b| :: value[i] == b[i] && b[i] in b;
    }
  }

  lemma WordBegins(value: string)
    requires Begins(value)
    ensures Begins(value[..Word(value)])
  {
    WordKeeps("#", value);
    WordKeeps("/", value);
    WordKeeps("http://", value);
    WordKeeps("https://", value);
    WordKeeps("mailto:", value);
    WordKeeps("data:", value);
  }

  lemma SliceBegins(value: string, end: nat)
    requires Begins(value) && end < |value| && value[end] == '>'
    ensures Begins(value[..end])
  {
    SliceKeeps("#", value, end);
    SliceKeeps("/", value, end);
    SliceKeeps("http://", value, end);
    SliceKeeps("https://", value, end);
    SliceKeeps("mailto:", value, end);
    SliceKeeps("data:", value, end);
  }

  lemma BeginningIsTarget(value: string)
    requires Begins(value)
    ensures Begins(SplitValue(value).target)
  {
    WordBegins(value);
  }

  lemma BracketedBeginningIsTarget(value: string)
    requires "<" <= value && '>' in value && Begins(value[1..])
    ensures Begins(SplitValue(value).target)
  {
    var end := IndexOf(value, '>');
    SliceBegins(value[1..], end - 1);
    assert value[1..][..end - 1] == value[1..end];
  }

  /** A link that begins elsewhere is left as it is, whatever moves. */
  lemma ElsewhereIsLeftAlone(
    raw: string, oldSource: string, newSource: string, moves: map<string, string>, cwd: seq<string>)
    requires PointsElsewhere(raw)
    ensures RewriteRaw(raw, oldSource, newSource, moves, cwd) == Some(raw)
  {
    if Begins(Strip(raw)) {
      BeginningIsTarget(Strip(raw));
    } else {
      BracketedBeginningIsTarget(Strip(raw));
    }
    FixedExactlyWhen(raw);
  }

  // --------------------------------------------------------------- taken for paths

  /** The target in angle brackets is what stands between them. */
  lemma BracketedTarget(lead: string, target: string, body: string, trail: string)
    requires Blank(lead) && Blank(trail) && target != "" && '>' !in target && (body != "" ==> EndsInWord(body))
    ensures SplitTarget((lead + "<") + target + "" + ((">" + body) + trail))
         == Split3(lead + "<", target, (">" + body) + trail)
  {
    EndOfConcat(">", body);
    assert target + "" == target;
    PutBetween(lead, "<", target, "", ">" + body, trail);
  }

  /** A bare target ends at the first white space. */
  lemma WordTarget(lead: string, word: string, body: string, trail: string)
    requires Blank(lead) && Blank(trail) && word != "" && word[0] != '<' && (forall c | c in word :: !IsSpace(c))
    requires body != "" ==> IsSpace(body[0]) && EndsInWord(body) && '\n' !in body
    ensures SplitTarget((lead + "") + word + "" + (body + trail)) == Split3(lead + "", word, body + trail)
  {
    assert word + "" == word && word[0] in word;
    PutBetween(lead, "", word, "", body, trail);
  }

  /** A word without such a beginning is taken for a path up to its '#', or else to its '?'. */
  lemma WordIsDissected(word: string) returns (path: string, fragment: string)
    requires word != "" && word[0] != '<' && (forall c | c in word :: !IsSpace(c))
    requires !Begins(word) && (word[0] == '?' ==> '#' in word)
    ensures Dissect(word) == Relative("", path, fragment, "") && path != "" && word == path + fragment
    ensures '#' !in path && (fragment == "" || fragment[0] == '#' || (fragment[0] == '?' && '#' !in word))
    ensures '?' in path ==> '#' in word
  {
    WordIsTarget(word);
    FixedExactlyWhen(word);
    path, fragment := WordIsCut(word);
  }

  lemma WordIsTarget(word: string)
    requires word != "" && word[0] != '<' && (forall c | c in word :: !IsSpace(c))
    ensures SplitTarget(word) == Split3("", word, "")
  {
    WordTarget("", word, "", "");
    assert ("" + "") + word + "" + ("" + "") == word;
  }

  lemma WordIsCut(word: string) returns (path: string, fragment: string)
    requires !Elsewhere(word) && (word[0] == '?' ==> '#' in word)
    ensures DissectSplit(Split3("", word, "")) == Relative("", path, fragment, "") && path != ""
    ensures word == path + fragment && '#' !in path && ('?' in path ==> '#' in word)
    ensures fragment == "" || fragment[0] == '#' || (fragment[0] == '?' && '#' !in word)
  {
    var n := PathEnd(word);
    path, fragment := word[..n], word[n..];
    if '#' in word {
      assert word[n] == '#';
    }
    assert forall c | c in path :: c in word;
  }
}
