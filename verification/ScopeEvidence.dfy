/** The excerpt of a review prompt that shows what runs: the lines near a line that
    speaks of scope, in order and without repeats, up to a size. */
module ScopeEvidence {

  /** The test of one line. */
  type LineTest = string -> bool

  const REACH: nat := 2
  const SIZE_CAP: nat := 3400
  const LENGTH_CAP: nat := 3500

  // ------------------------------------------------------------- what is wanted

  /** Some line before line `upTo`, at most two lines away from `i`, passes the test. */
  ghost predicate NearHit(lines: seq<string>, hits: LineTest, upTo: nat, i: nat)
    requires upTo <= |lines|
  {
    exists k | 0 <= k < upTo && i - 2 <= k <= i + 2 :: hits(lines[k])
  }

  predicate Increasing(s: seq<nat>) {
    forall i, j | 0 <= i < j < |s| :: s[i] < s[j]
  }

  /** The indices below `n` of the lines near a hit, in order. */
  ghost function NearBelow(lines: seq<string>, hits: LineTest, n: nat): (picked: seq<nat>)
    requires n <= |lines|
    ensures forall i | 0 <= i < |picked| :: picked[i] < n
  {
    if n == 0 then []
    else
      var before := NearBelow(lines, hits, n - 1);
      if NearHit(lines, hits, |lines|, n - 1) then before + [n - 1] else before
  }

  predicate InRange(lines: seq<string>, picked: seq<nat>) {
    forall i | 0 <= i < |picked| :: picked[i] < |lines|
  }

  function TextAt(lines: seq<string>, picked: seq<nat>): seq<string>
    requires InRange(lines, picked)
  {
    seq(|picked|, i requires 0 <= i < |picked| => lines[picked[i]])
  }

  /** Characters, with one line end for each text. */
  function Size(texts: seq<string>): nat {
    if texts == [] then 0 else Size(texts[..|texts| - 1]) + |texts[|texts| - 1]| + 1
  }

  /** The shortest prefix, of at least `n` texts, that reaches the size cap, or everything. */
  function Capped(texts: seq<string>, n: nat): (m: nat)
    requires n <= |texts|
    ensures n <= m <= |texts|
    decreases |texts| - n
  {
    if n == |texts| || Size(texts[..n]) >= SIZE_CAP then n else Capped(texts, n + 1)
  }

  /** The indices of the lines shown. */
  ghost function Selected(lines: seq<string>, hits: LineTest): seq<nat> {
    var near := NearBelow(lines, hits, |lines|);
    near[..Capped(TextAt(lines, near), 0)]
  }

  /** `"\n".join(texts)` */
  function Join(texts: seq<string>): string {
    if texts == [] then ""
    else if |texts| == 1 then texts[0]
    else Join(texts[..|texts| - 1]) + "\n" + texts[|texts| - 1]
  }

  function Clipped(s: string): string {
    if |s| <= LENGTH_CAP then s else s[..LENGTH_CAP]
  }

  ghost function Evidence(lines: seq<string>, hits: LineTest): string {
    Clipped(Join(TextAt(lines, Selected(lines, hits))))
  }

  // ------------------------------------------------------------ sequences and prefixes

  lemma {:induction false} NearBelowIs(lines: seq<string>, hits: LineTest, n: nat)
    requires n <= |lines|
    ensures var picked := NearBelow(lines, hits, n);
      && Increasing(picked)
      && forall i :: i in picked <==> 0 <= i < n && NearHit(lines, hits, |lines|, i)
  {
    if n > 0 {
      NearBelowIs(lines, hits, n - 1);
    }
  }

  lemma {:induction false} NothingBetween(lines: seq<string>, hits: LineTest, n: nat, m: nat)
    requires n <= m <= |lines| && forall i | n <= i < m :: !NearHit(lines, hits, |lines|, i)
    ensures NearBelow(lines, hits, n) == NearBelow(lines, hits, m)
  {
    if n < m {
      NothingBetween(lines, hits, n, m - 1);
    }
  }

  lemma {:induction false} NearBelowIsPrefix(lines: seq<string>, hits: LineTest, n: nat, m: nat)
    requires n <= m <= |lines|
    ensures NearBelow(lines, hits, n) <= NearBelow(lines, hits, m)
  {
    if n < m {
      NearBelowIsPrefix(lines, hits, n, m - 1);
    }
  }

  lemma {:induction false} SizeOfPrefix(texts: seq<string>, n: nat)
    requires n <= |texts|
    ensures Size(texts[..n]) <= Size(texts)
  {
    if n < |texts| {
      SizeOfPrefix(texts[..|texts| - 1], n);
      assert texts[..|texts| - 1][..n] == texts[..n];
    } else {
      assert texts[..n] == texts;
    }
  }

  /** What the loop stops at is the capped prefix. */
  lemma {:induction false} CappedIs(texts: seq<string>, n: nat, m: nat)
    requires n <= m <= |texts| && (m < |texts| ==> Size(texts[..m]) >= SIZE_CAP)
    requires forall k | n <= k < m :: Size(texts[..k]) < SIZE_CAP
    ensures Capped(texts, n) == m
    decreases m - n
  {
    if n < m {
      CappedIs(texts, n + 1, m);
    }
  }

  lemma TextAtPrefix(lines: seq<string>, near: seq<nat>, n: nat)
    requires n <= |near| && InRange(lines, near)
    ensures TextAt(lines, near[..n]) == TextAt(lines, near)[..n]
  {
  }

  /** A prefix that is complete or has just reached the cap is the capped prefix. */
  lemma StoppedIsCapped(all: seq<string>, texts: seq<string>)
    requires texts <= all && (texts == all || Size(texts) >= SIZE_CAP)
    requires texts != [] ==> Size(texts[..|texts| - 1]) < SIZE_CAP
    ensures Capped(all, 0) == |texts|
  {
    var m := |texts|;
    assert all[..m] == texts;
    forall k | 0 <= k < m
      ensures Size(all[..k]) < SIZE_CAP
    {
      SizeOfPrefix(texts[..m - 1], k);
      assert texts[..m - 1][..k] == all[..k];
    }
    CappedIs(all, 0, m);
  }

  lemma StoppedIsSelected(lines: seq<string>, hits: LineTest, n: nat)
    requires n <= |lines|
    requires var texts := TextAt(lines, NearBelow(lines, hits, n));
      && (n == |lines| || Size(texts) >= SIZE_CAP)
      && (texts != [] ==> Size(texts[..|texts| - 1]) < SIZE_CAP)
    ensures Selected(lines, hits) == NearBelow(lines, hits, n)
  {
    var near, picked := NearBelow(lines, hits, |lines|), NearBelow(lines, hits, n);
    NearBelowIsPrefix(lines, hits, n, |lines|);
    TextAtPrefix(lines, near, |picked|);
    StoppedIsCapped(TextAt(lines, near), TextAt(lines, picked));
  }

  // ----------------------------------------------------------------------- the loop

  function WindowStart(index: nat): nat {
    if index < REACH then 0 else index - REACH
  }

  function WindowEnd(lines: seq<string>, index: nat): nat {
    if |lines| < index + REACH + 1 then |lines| else index + REACH + 1
  }

  /** Seen are the lines near the hits before `index`, and those from `from` to `to`;
      they are all the lines near any hit up to `bound`. */
  ghost predicate SeenSoFar(lines: seq<string>, hits: LineTest, seen: set<nat>, index: nat, from: nat, to: nat,
      bound: nat)
    requires index <= |lines|
  {
    && bound <= |lines|
    && (forall i: nat :: i in seen <==> i < |lines| && (NearHit(lines, hits, index, i) || from <= i < to))
    && (forall i: nat :: i in seen <==> i < bound && NearHit(lines, hits, |lines|, i))
  }

  lemma MissPasses(lines: seq<string>, hits: LineTest, seen: set<nat>, index: nat, bound: nat)
    requires index < |lines| && !hits(lines[index]) && SeenSoFar(lines, hits, seen, index, 0, 0, bound)
    ensures SeenSoFar(lines, hits, seen, index + 1, 0, 0, bound)
  {
  }

  lemma SeenPasses(lines: seq<string>, hits: LineTest, seen: set<nat>, index: nat, nearby: nat, bound: nat)
    requires index < |lines| && WindowStart(index) <= nearby < |lines| && nearby in seen
    requires SeenSoFar(lines, hits, seen, index, WindowStart(index), nearby, bound)
    ensures SeenSoFar(lines, hits, seen, index, WindowStart(index), nearby + 1, bound)
  {
  }

  lemma WindowIsNear(lines: seq<string>, hits: LineTest, seen: set<nat>, index: nat, bound: nat)
    requires index < |lines| && hits(lines[index])
    requires SeenSoFar(lines, hits, seen, index, WindowStart(index), WindowEnd(lines, index), bound)
    ensures SeenSoFar(lines, hits, seen, index + 1, 0, 0, bound)
  {
    forall i: nat | i < |lines|
      ensures NearHit(lines, hits, index + 1, i) <==>
        NearHit(lines, hits, index, i) || WindowStart(index) <= i < WindowEnd(lines, index)
    {
    }
  }

  lemma NoneMissed(lines: seq<string>, hits: LineTest, seen: set<nat>, index: nat, nearby: nat, bound: nat)
    requires index < |lines| && hits(lines[index]) && WindowStart(index) <= nearby < WindowEnd(lines, index)
    requires SeenSoFar(lines, hits, seen, index, WindowStart(index), nearby, bound) && nearby !in seen
    ensures forall i: nat | bound <= i < nearby :: !NearHit(lines, hits, |lines|, i)
  {
    forall i: nat | bound <= i < nearby
      ensures !NearHit(lines, hits, |lines|, i)
    {
      assert i !in seen;
    }
  }

  /** A line of the window not seen before lies behind all lines selected, and no line
      near a hit lies between. */
  lemma NextIsSelected(lines: seq<string>, hits: LineTest, seen: set<nat>, index: nat, nearby: nat, bound: nat)
    requires index < |lines| && hits(lines[index]) && WindowStart(index) <= nearby < WindowEnd(lines, index)
    requires SeenSoFar(lines, hits, seen, index, WindowStart(index), nearby, bound) && nearby !in seen
    ensures NearBelow(lines, hits, nearby + 1) == NearBelow(lines, hits, bound) + [nearby]
    ensures SeenSoFar(lines, hits, seen + {nearby}, index, WindowStart(index), nearby + 1, nearby + 1)
  {
    assert NearHit(lines, hits, |lines|, nearby);
    NoneMissed(lines, hits, seen, index, nearby, bound);
    NothingBetween(lines, hits, bound, nearby);
  }

  lemma TextAtNext(lines: seq<string>, picked: seq<nat>, x: nat)
    requires InRange(lines, picked) && x < |lines|
    ensures TextAt(lines, picked + [x]) == TextAt(lines, picked) + [lines[x]]
  {
  }

  ghost predicate SelectedSoFar(lines: seq<string>, hits: LineTest, selected: seq<string>, bound: nat) {
    bound <= |lines| && selected == TextAt(lines, NearBelow(lines, hits, bound)) && Size(selected) < SIZE_CAP
  }

  lemma SelectedGrows(lines: seq<string>, hits: LineTest, selected: seq<string>, nearby: nat, bound: nat)
    requires SelectedSoFar(lines, hits, selected, bound) && nearby < |lines|
    requires NearBelow(lines, hits, nearby + 1) == NearBelow(lines, hits, bound) + [nearby]
    ensures var after := selected + [lines[nearby]];
      if Size(after) < SIZE_CAP then SelectedSoFar(lines, hits, after, nearby + 1)
      else TextAt(lines, Selected(lines, hits)) == after
  {
    var after := selected + [lines[nearby]];
    TextAtNext(lines, NearBelow(lines, hits, bound), nearby);
    assert after[..|selected|] == selected;
    if Size(after) >= SIZE_CAP {
      StoppedIsSelected(lines, hits, nearby + 1);
    }
  }

  lemma SelectedInTheEnd(lines: seq<string>, hits: LineTest, seen: set<nat>, selected: seq<string>, bound: nat)
    requires SeenSoFar(lines, hits, seen, |lines|, 0, 0, bound) && SelectedSoFar(lines, hits, selected, bound)
    ensures TextAt(lines, Selected(lines, hits)) == selected
  {
    NothingBetween(lines, hits, bound, |lines|);
    SizeOfPrefix(selected, if selected == [] then 0 else |selected| - 1);
    StoppedIsSelected(lines, hits, |lines|);
  }

  /** `_runtime_scope_evidence`, from the lines of the prompt on. */
  method RuntimeScopeEvidence(lines: seq<string>, hits: LineTest) returns (evidence: string)
    ensures evidence == Evidence(lines, hits)
  {
    var selected: seq<string> := [];
    var seen: set<nat> := {};
    ghost var bound: nat := 0;
    for index := 0 to |lines|
      invariant SeenSoFar(lines, hits, seen, index, 0, 0, bound)
      invariant SelectedSoFar(lines, hits, selected, bound)
    {
      if !hits(lines[index]) {
        MissPasses(lines, hits, seen, index, bound);
        continue;
      }
      for nearby := WindowStart(index) to WindowEnd(lines, index)
        invariant SeenSoFar(lines, hits, seen, index, WindowStart(index), nearby, bound)
        invariant SelectedSoFar(lines, hits, selected, bound)
      {
        if nearby in seen {
          SeenPasses(lines, hits, seen, index, nearby, bound);
          continue;
        }
        NextIsSelected(lines, hits, seen, index, nearby, bound);
        SelectedGrows(lines, hits, selected, nearby, bound);
        seen := seen + {nearby};
        bound := nearby + 1;
        selected := selected + [lines[nearby]];
        if Size(selected) >= SIZE_CAP {
          return Clipped(Join(selected));
        }
      }
      WindowIsNear(lines, hits, seen, index, bound);
    }
    SelectedInTheEnd(lines, hits, seen, selected, bound);
    return Clipped(Join(selected));
  }

  // ------------------------------------------------------------------ what is shown

  /** The lines shown are near a hit, in order and without repeats, and no line near a
      hit is left out before one that is shown. */
  lemma ShownInOrder(lines: seq<string>, hits: LineTest)
    ensures var shown := Selected(lines, hits);
      && Increasing(shown)
      && (forall i | i in shown :: i < |lines| && NearHit(lines, hits, |lines|, i))
      && (forall i, j | i in shown && 0 <= j < i && NearHit(lines, hits, |lines|, j) :: j in shown)
  {
    var near := NearBelow(lines, hits, |lines|);
    var m := Capped(TextAt(lines, near), 0);
    NearBelowIs(lines, hits, |lines|);
    forall i, j | i in near[..m] && 0 <= j < i && NearHit(lines, hits, |lines|, j)
      ensures j in near[..m]
    {
      assert j in near;
      var a :| 0 <= a < |near| && near[a] == j;
      var b :| 0 <= b < m && near[b] == i;
      assert a < b;
      assert near[..m][a] == j;
    }
    assert forall i | i in near[..m] :: i in near;
  }

  lemma {:induction false} CappedBelow(texts: seq<string>, n: nat)
    requires n <= |texts|
    ensures var m := Capped(texts, n);
      && (m < |texts| ==> Size(texts[..m]) >= SIZE_CAP)
      && forall k | n <= k < m :: Size(texts[..k]) < SIZE_CAP
    decreases |texts| - n
  {
    if n < |texts| && Size(texts[..n]) < SIZE_CAP {
      CappedBelow(texts, n + 1);
    }
  }

  /** Every line near a hit is shown exactly when all of them but the last stay below
      the size cap. */
  lemma AllIsShownExactlyWhen(lines: seq<string>, hits: LineTest)
    ensures var near := NearBelow(lines, hits, |lines|);
      Selected(lines, hits) == near <==>
        near == [] || Size(TextAt(lines, near)[..|near| - 1]) < 3400
  {
    var near := NearBelow(lines, hits, |lines|);
    var texts := TextAt(lines, near);
    CappedBelow(texts, 0);
    var m := Capped(texts, 0);
    if m < |near| {
      SizeOfPrefix(texts[..|near| - 1], m);
      assert texts[..|near| - 1][..m] == texts[..m];
    }
    assert near[..|near|] == near;
  }

  lemma {:induction false} JoinLength(texts: seq<string>)
    ensures |Join(texts)| == if texts == [] then 0 else Size(texts) - 1
  {
    if |texts| > 1 {
      JoinLength(texts[..|texts| - 1]);
    }
  }

  /** The excerpt is bounded, and holds the shown lines whole exactly when the last of
      them is not longer than what the others leave of the bound. */
  lemma EvidenceIsBounded(lines: seq<string>, hits: LineTest)
    ensures var texts := TextAt(lines, Selected(lines, hits));
      && |Evidence(lines, hits)| <= 3500
      && (Evidence(lines, hits) == Join(texts) <==>
          texts == [] || Size(texts[..|texts| - 1]) + |texts[|texts| - 1]| <= 3500)
      && (texts != [] ==> Size(texts[..|texts| - 1]) < 3400)
  {
    var near := NearBelow(lines, hits, |lines|);
    var m := Capped(TextAt(lines, near), 0);
    var texts := TextAt(lines, Selected(lines, hits));
    TextAtPrefix(lines, near, m);
    CappedBelow(TextAt(lines, near), 0);
    JoinLength(texts);
    if m > 0 {
      assert texts[..m - 1] == TextAt(lines, near)[..m - 1];
    }
  }

  // ------------------------------------------------------------- reading it again

  /** `splitlines` of a text whose lines end in "\n". */
  function Lines(s: string): (lines: seq<string>)
    ensures lines != []
  {
    if s == "" then [""]
    else if s[0] == '\n' then [""] + Lines(s[1..])
    else [[s[0]] + Lines(s[1..])[0]] + Lines(s[1..])[1..]
  }

  lemma FirstOfMore(c: string, x: seq<string>, y: seq<string>)
    requires x != []
    ensures [c + (x + y)[0]] + (x + y)[1..] == ([c + x[0]] + x[1..]) + y
  {
    assert (x + y)[1..] == x[1..] + y;
  }

  lemma TailAtLineEnd(a: string, b: string)
    requires a != ""
    ensures (a + "\n" + b)[0] == a[0] && (a + "\n" + b)[1..] == a[1..] + "\n" + b
  {
  }

  lemma {:induction false} LinesAtLineEnd(a: string, b: string)
    ensures Lines(a + "\n" + b) == Lines(a) + Lines(b)
  {
    if a == "" {
      assert a + "\n" + b == ['\n'] + b;
      assert (['\n'] + b)[1..] == b;
    } else {
      TailAtLineEnd(a, b);
      LinesAtLineEnd(a[1..], b);
      FirstOfMore([a[0]], Lines(a[1..]), Lines(b));
      assert [""] + (Lines(a[1..]) + Lines(b)) == ([""] + Lines(a[1..])) + Lines(b);
    }
  }

  lemma {:induction false} OneLine(line: string)
    requires '\n' !in line
    ensures Lines(line) == [line]
  {
    if line != "" {
      OneLine(line[1..]);
      assert [line[0]] + line[1..] == line;
    }
  }

  lemma {:induction false} JoinedReadsBack(texts: seq<string>)
    requires texts != [] && forall i | 0 <= i < |texts| :: '\n' !in texts[i]
    ensures Lines(Join(texts)) == texts
  {
    var n := |texts| - 1;
    OneLine(texts[n]);
    if n > 0 {
      assert forall i | 0 <= i < n :: texts[..n][i] == texts[i];
      JoinedReadsBack(texts[..n]);
      LinesAtLineEnd(Join(texts[..n]), texts[n]);
      assert texts == texts[..n] + [texts[n]];
    }
  }

  /** The lines of an excerpt that is not clipped are the shown lines, in order. */
  lemma EvidenceReadsBack(lines: seq<string>, hits: LineTest)
    requires forall i | 0 <= i < |lines| :: '\n' !in lines[i]
    ensures var shown, evidence := Selected(lines, hits), Evidence(lines, hits);
      && (shown == [] ==> evidence == "")
      && (shown != [] && |Join(TextAt(lines, shown))| <= 3500 ==>
            |Lines(evidence)| == |shown| && forall i | 0 <= i < |shown| :: Lines(evidence)[i] == lines[shown[i]])
      && evidence <= Join(TextAt(lines, shown))
  {
    var texts := TextAt(lines, Selected(lines, hits));
    if texts != [] {
      JoinedReadsBack(texts);
    }
  }
}
