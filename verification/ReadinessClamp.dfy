/** Clamping a review's merge readiness to what the evidence allows. */
module ReadinessClamp {
  import opened Options
  import opened Text

  datatype Verdict = NotReady | Conditional | ReadyToMerge

  const MARKER: string := "### Merge Readiness"

  function Label(v: Verdict): string {
    match v
    case NotReady => "Not Ready"
    case Conditional => "Conditional"
    case ReadyToMerge => "Ready to Merge"
  }

  function Rank(v: Verdict): nat {
    match v case NotReady => 0 case Conditional => 1 case ReadyToMerge => 2
  }

  function Min(a: Verdict, b: Verdict): Verdict {
    if Rank(a) <= Rank(b) then a else b
  }

  /** The verdict a section states: the worst label that occurs in it. */
  function Stated(section: string): Verdict {
    if Contains(section, Label(NotReady)) then NotReady
    else if Contains(section, Label(Conditional)) then Conditional
    else ReadyToMerge
  }

  function Guard(ceiling: Verdict): string {
    match ceiling
    case NotReady => "선행 deterministic architecture gate가 실패했으므로 현재 병합할 수 없습니다."
    case Conditional => Words(GUARD_OPENING) + Words(GUARD_MIDDLE) + Words(GUARD_CLOSING)
    case ReadyToMerge => ""
  }

  const GUARD_OPENING: seq<string> := ["필수 ", "deterministic ", "evidence가 ", "아직 ", "검증되지 ", "않아 "]
  const GUARD_MIDDLE: seq<string> := ["현재 ", "자동 ", "리뷰의 ", "readiness는 "]
  const GUARD_CLOSING: seq<string> := ["Conditional을 ", "넘을 ", "수 ", "없습니다."]

  const RATIONALE: seq<string> := ["#### ", "Model ", "rationale ", "(참고용)\n\n"]

  function Words(words: seq<string>): string {
    if words == [] then "" else words[0] + Words(words[1..])
  }

  /** What the clamp writes in front of the model's own section. */
  function Notice(ceiling: Verdict): string {
    "\n\n**" + Label(ceiling) + ("**\n\n" + Guard(ceiling) + ("\n\n" + Words(RATIONALE)))
  }

  /** `_enforce_readiness`; `None` is the exit for a review without the section. */
  function Enforce(review: string, ceiling: Verdict): Option<string> {
    EnforceWith(review, ceiling, MARKER, Notice)
  }

  function EnforceWith(review: string, ceiling: Verdict, marker: string, notice: Verdict -> string): Option<string> {
    match Find(review, marker)
    case None => None
    case Some(i) =>
      var section := review[i + |marker|..];
      if Rank(Stated(section)) <= Rank(ceiling) then Some(review)
      else Some(review[..i + |marker|] + notice(ceiling) + Strip(section))
  }

  /** The verdict a published review states. */
  function VerdictOf(review: string, marker: string := MARKER): Option<Verdict> {
    match Find(review, marker)
    case None => None
    case Some(i) => Some(Stated(review[i + |marker|..]))
  }

  function BeforeMarker(review: string, marker: string := MARKER): string {
    match Find(review, marker)
    case None => review
    case Some(i) => review[..i]
  }

  // -------------------------------------------------------------- the notices

  lemma {:induction false} WordsLack(words: seq<string>, c: char)
    requires forall i | 0 <= i < |words| :: c !in words[i]
    ensures c !in Words(words)
  {
    if words != [] {
      assert forall i | 0 <= i < |words[1..]| :: words[1..][i] == words[i + 1];
      WordsLack(words[1..], c);
    }
  }

  lemma OpeningLacksN()
    ensures 'N' !in Words(GUARD_OPENING)
  {
    WordsLack(GUARD_OPENING, 'N');
  }

  lemma MiddleLacksN()
    ensures 'N' !in Words(GUARD_MIDDLE)
  {
    WordsLack(GUARD_MIDDLE, 'N');
  }

  lemma ClosingLacksN()
    ensures 'N' !in Words(GUARD_CLOSING)
  {
    WordsLack(GUARD_CLOSING, 'N');
  }

  lemma GuardLacksN()
    ensures 'N' !in Guard(Conditional)
  {
    OpeningLacksN();
    MiddleLacksN();
    ClosingLacksN();
  }

  lemma RationaleLacksN()
    ensures 'N' !in Words(RATIONALE)
  {
    WordsLack(RATIONALE, 'N');
  }

  lemma LabelInNotice(v: Verdict)
    ensures Contains(Notice(v), Label(v))
  {
    OccurrenceIsContained(Label(v), Label(v), 0);
    ContainedInConcat("\n\n**", Label(v), "**\n\n" + Guard(v) + ("\n\n" + Words(RATIONALE)), Label(v));
  }

  lemma NoticeIsHonest(v: Verdict)
    ensures HonestFor(v, Notice(v))
  {
    LabelInNotice(v);
    GuardLacksN();
    RationaleLacksN();
    NoticeLacksN(Guard(Conditional), Words(RATIONALE));
  }

  lemma NoticeLacksN(guard: string, rationale: string)
    requires 'N' !in guard && 'N' !in rationale
    ensures 'N' !in "\n\n**" + Label(Conditional) + ("**\n\n" + guard + ("\n\n" + rationale))
  {
    assert 'N' !in "\n\n**" && 'N' !in Label(Conditional) && 'N' !in "**\n\n" && 'N' !in "\n\n";
  }

  // ---------------------------------------------------------------- the clamp

  lemma StripContains(section: string, word: string)
    requires Contains(Strip(section), word) && word != ""
    ensures Contains(section, word)
  {
    if LeadEnd(section) < TrailStart(section) {
      ContainedInSlice(section, LeadEnd(section), TrailStart(section), word);
    }
  }

  lemma LabelsDiffer()
    ensures Label(NotReady) != "" && Label(NotReady)[0] == 'N'
  {
  }

  /** The section that the clamp writes states the ceiling. */
  lemma NoticeStates(ceiling: Verdict, notice: string, section: string)
    requires Rank(ceiling) < Rank(Stated(section)) && Contains(notice, Label(ceiling))
    requires ceiling == Conditional ==> 'N' !in notice
    ensures Stated(notice + Strip(section)) == ceiling
  {
    var written := notice + Strip(section);
    ContainedInConcat("", notice, Strip(section), Label(ceiling));
    assert "" + notice + Strip(section) == written;
    if ceiling == Conditional && Contains(written, Label(NotReady)) {
      LabelsDiffer();
      NothingFromTheFront(notice, Strip(section), Label(NotReady));
      StripContains(section, Label(NotReady));
    }
  }

  /** What is needed of the notice for one ceiling. */
  ghost predicate HonestFor(ceiling: Verdict, notice: string) {
    Contains(notice, Label(ceiling)) && (ceiling == Conditional ==> 'N' !in notice)
  }

  lemma ClampedReview(review: string, ceiling: Verdict, marker: string, i: nat, notice: string)
    requires Find(review, marker) == Some(i) && HonestFor(ceiling, notice)
    requires Rank(ceiling) < Rank(Stated(review[i + |marker|..]))
    ensures var clamped := review[..i + |marker|] + notice + Strip(review[i + |marker|..]);
      VerdictOf(clamped, marker) == Some(ceiling) && BeforeMarker(clamped, marker) == review[..i]
  {
    var section := review[i + |marker|..];
    var head, written := review[..i + |marker|], notice + Strip(section);
    assert head + notice + Strip(section) == head + written;
    NewSectionIsFound(review, marker, i, written);
    NoticeStates(ceiling, notice, section);
  }

  lemma FoundReview(review: string, marker: string, i: nat)
    requires Find(review, marker) == Some(i)
    ensures VerdictOf(review, marker) == Some(Stated(review[i + |marker|..]))
    ensures BeforeMarker(review, marker) == review[..i]
  {
  }

  lemma PassedIsMeet(review: string, ceiling: Verdict, marker: string, i: nat, notice: Verdict -> string)
    requires Find(review, marker) == Some(i) && Rank(Stated(review[i + |marker|..])) <= Rank(ceiling)
    ensures EnforceWith(review, ceiling, marker, notice) == Some(review)
    ensures VerdictOf(review, marker).Some?
    ensures Min(VerdictOf(review, marker).value, ceiling) == VerdictOf(review, marker).value
  {
    FoundReview(review, marker, i);
  }

  lemma EnforcedText(review: string, ceiling: Verdict, marker: string, i: nat, notice: Verdict -> string)
    requires Find(review, marker) == Some(i) && Rank(Stated(review[i + |marker|..])) > Rank(ceiling)
    ensures EnforceWith(review, ceiling, marker, notice)
         == Some(review[..i + |marker|] + notice(ceiling) + Strip(review[i + |marker|..]))
  {
  }

  /** The two ways a review with the section leaves the clamp. */
  lemma FoundClampIsMeet(review: string, ceiling: Verdict, marker: string, i: nat, notice: Verdict -> string)
    returns (r: string, stated: Verdict)
    requires Find(review, marker) == Some(i) && HonestFor(ceiling, notice(ceiling))
    ensures EnforceWith(review, ceiling, marker, notice) == Some(r) && VerdictOf(review, marker) == Some(stated)
    ensures VerdictOf(r, marker) == Some(Min(stated, ceiling))
    ensures BeforeMarker(r, marker) == BeforeMarker(review, marker)
  {
    FoundReview(review, marker, i);
    var section := review[i + |marker|..];
    stated := Stated(section);
    if Rank(stated) <= Rank(ceiling) {
      PassedIsMeet(review, ceiling, marker, i, notice);
      r := review;
    } else {
      EnforcedText(review, ceiling, marker, i, notice);
      ClampedReview(review, ceiling, marker, i, notice(ceiling));
      r := review[..i + |marker|] + notice(ceiling) + Strip(section);
    }
  }

  lemma ClampIsMeetWith(review: string, ceiling: Verdict, marker: string, notice: Verdict -> string)
    requires HonestFor(ceiling, notice(ceiling))
    ensures EnforceWith(review, ceiling, marker, notice).None? <==> !Contains(review, marker)
    ensures Contains(review, marker) ==>
      && VerdictOf(review, marker).Some?
      && VerdictOf(EnforceWith(review, ceiling, marker, notice).value, marker)
          == Some(Min(VerdictOf(review, marker).value, ceiling))
      && BeforeMarker(EnforceWith(review, ceiling, marker, notice).value, marker) == BeforeMarker(review, marker)
  {
    if Find(review, marker).Some? {
      var r, stated := FoundClampIsMeet(review, ceiling, marker, Find(review, marker).value, notice);
    }
  }

  lemma NewSectionIsFound(review: string, marker: string, i: nat, written: string)
    requires Find(review, marker) == Some(i)
    ensures var clamped := review[..i + |marker|] + written;
      VerdictOf(clamped, marker) == Some(Stated(written)) && BeforeMarker(clamped, marker) == review[..i]
  {
    var n := i + |marker|;
    var clamped := review[..n] + written;
    assert clamped[..n] == review[..n];
    FindAgrees(review, clamped, marker, i);
    SlicesAgree(review, clamped, n, 0, i);
    assert clamped[n..] == written;
  }

  /** Clamping is a meet with the ceiling, and touches nothing before the section. */
  lemma ClampIsMeet(review: string, ceiling: Verdict)
    ensures Enforce(review, ceiling).None? <==> !Contains(review, MARKER)
    ensures Contains(review, MARKER) ==>
      && VerdictOf(review).Some?
      && VerdictOf(Enforce(review, ceiling).value) == Some(Min(VerdictOf(review).value, ceiling))
      && BeforeMarker(Enforce(review, ceiling).value) == BeforeMarker(review)
  {
    NoticeIsHonest(ceiling);
    ClampIsMeetWith(review, ceiling, MARKER, Notice);
  }

  /** How a review is read: the section behind the first heading, and in it "Not Ready"
      before "Conditional". */
  lemma VerdictMeans(review: string)
    ensures VerdictOf(review).None? <==> !Contains(review, "### Merge Readiness")
    ensures forall i | Find(review, "### Merge Readiness") == Some(i) ::
      var section := review[i + |"### Merge Readiness"|..];
      && (VerdictOf(review) == Some(NotReady) <==> Contains(section, "Not Ready"))
      && (VerdictOf(review) == Some(Conditional) <==>
            Contains(section, "Conditional") && !Contains(section, "Not Ready"))
  {
  }

  lemma MinMeans(a: Verdict, b: Verdict)
    ensures Min(a, b) == NotReady <==> a == NotReady || b == NotReady
    ensures Min(a, b) == ReadyToMerge <==> a == ReadyToMerge && b == ReadyToMerge
    ensures Rank(a) <= Rank(b) <==> b == ReadyToMerge || a == NotReady || a == b
  {
  }

  /** What the clamp makes of the verdict: never better than the ceiling, never better than the review. */
  lemma ClampTells(review: string, ceiling: Verdict)
    requires Contains(review, MARKER)
    ensures Enforce(review, ceiling).Some? && VerdictOf(review).Some?
    ensures var clamped, was := VerdictOf(Enforce(review, ceiling).value), VerdictOf(review).value;
      && (clamped == Some(NotReady) <==> was == NotReady || ceiling == NotReady)
      && (clamped == Some(ReadyToMerge) <==> was == ReadyToMerge && ceiling == ReadyToMerge)
  {
    ClampIsMeet(review, ceiling);
    MinMeans(VerdictOf(review).value, ceiling);
  }

  /** The text begins with the one and ends with the other. */
  predicate Encloses(s: string, head: string, tail: string) {
    |head| + |tail| <= |s| && s[..|head|] == head && s[|s| - |tail|..] == tail
  }

  lemma EnclosedText(head: string, notice: string, tail: string)
    ensures Encloses(head + notice + tail, head, tail)
  {
  }

  /** The section behind the heading. */
  function BehindMarker(review: string, marker: string := MARKER): string {
    match Find(review, marker)
    case None => ""
    case Some(i) => review[i + |marker|..]
  }

  /** Everything up to the section. */
  function UpToSection(review: string, marker: string := MARKER): string {
    match Find(review, marker)
    case None => review
    case Some(i) => review[..i + |marker|]
  }

  lemma LoweredKeepsText(review: string, ceiling: Verdict, marker: string, notice: Verdict -> string, i: nat)
    requires Find(review, marker) == Some(i) && Rank(Stated(review[i + |marker|..])) > Rank(ceiling)
    ensures var clamped := EnforceWith(review, ceiling, marker, notice);
      clamped.Some? && Encloses(clamped.value, UpToSection(review, marker), Strip(BehindMarker(review, marker)))
  {
    EnforcedText(review, ceiling, marker, i, notice);
    EnclosedText(UpToSection(review, marker), notice(ceiling), Strip(BehindMarker(review, marker)));
  }

  lemma ClampKeepsTextWith(review: string, ceiling: Verdict, marker: string, notice: Verdict -> string)
    requires Contains(review, marker)
    ensures VerdictOf(review, marker).Some?
    ensures var clamped, was := EnforceWith(review, ceiling, marker, notice), VerdictOf(review, marker).value;
      clamped.Some? &&
      if ceiling == ReadyToMerge || was == NotReady || was == ceiling then clamped.value == review
      else Encloses(clamped.value, UpToSection(review, marker), Strip(BehindMarker(review, marker)))
  {
    var i := Find(review, marker).value;
    FoundReview(review, marker, i);
    var was := VerdictOf(review, marker).value;
    MinMeans(was, ceiling);
    if Rank(was) <= Rank(ceiling) {
      PassedIsMeet(review, ceiling, marker, i, notice);
    } else {
      LoweredKeepsText(review, ceiling, marker, notice, i);
    }
  }

  /** What it makes of the text: nothing when the review is not above the ceiling; otherwise
      everything up to the section stays in front, and the trimmed section behind. */
  lemma ClampKeepsText(review: string, ceiling: Verdict)
    requires Contains(review, MARKER)
    ensures Enforce(review, ceiling).Some? && VerdictOf(review).Some?
    ensures var clamped, was := Enforce(review, ceiling).value, VerdictOf(review).value;
      if ceiling == ReadyToMerge || was == NotReady || was == ceiling then clamped == review
      else Encloses(clamped, UpToSection(review), Strip(BehindMarker(review)))
  {
    ClampKeepsTextWith(review, ceiling, MARKER, Notice);
  }

  lemma ClampsComposeWith(review: string, first: Verdict, second: Verdict, marker: string, notice: Verdict -> string)
    requires Contains(review, marker) && HonestFor(first, notice(first)) && HonestFor(second, notice(second))
    ensures EnforceWith(review, first, marker, notice).Some?
    ensures var once := EnforceWith(review, first, marker, notice).value;
      && EnforceWith(once, first, marker, notice) == Some(once)
      && EnforceWith(once, second, marker, notice).Some?
          && EnforceWith(review, Min(first, second), marker, notice).Some?
      && VerdictOf(EnforceWith(once, second, marker, notice).value, marker)
         == VerdictOf(EnforceWith(review, Min(first, second), marker, notice).value, marker)
  {
    ClampIsMeetWith(review, first, marker, notice);
    ClampIsMeetWith(review, Min(first, second), marker, notice);
    var once := EnforceWith(review, first, marker, notice).value;
    ClampIsMeetWith(once, second, marker, notice);
  }

  /** Clamping twice with one ceiling is clamping once; clamping with two ceilings
      leaves the verdict of clamping with the lower one. */
  lemma ClampsCompose(review: string, first: Verdict, second: Verdict)
    requires Contains(review, MARKER)
    ensures Enforce(review, first).Some?
    ensures var once := Enforce(review, first).value;
      && Enforce(once, first) == Some(once)
      && Enforce(once, second).Some? && Enforce(review, Min(first, second)).Some?
      && VerdictOf(Enforce(once, second).value) == VerdictOf(Enforce(review, Min(first, second)).value)
  {
    NoticeIsHonest(first);
    NoticeIsHonest(second);
    ClampsComposeWith(review, first, second, MARKER, Notice);
  }

  // --------------------------------------------------------------- the ceiling

  datatype Check = Check(required: bool, verified: bool)

  /** What the workflow knows: the result of the architecture job and three optional checks. */
  datatype Evidence = Evidence(architectureResult: string, docker: Check, frontend: Check, operations: Check)

  function Checks(e: Evidence): seq<Check> {
    [Check(true, e.architectureResult == "success"), e.docker, e.frontend, e.operations]
  }

  /** The required checks without evidence. */
  function MissingBefore(checks: seq<Check>, n: nat): seq<nat>
    requires n <= |checks|
  {
    if n == 0 then []
    else MissingBefore(checks, n - 1) + if checks[n - 1].required && !checks[n - 1].verified then [n - 1] else []
  }

  /** `build_verified_evidence` */
  function Ceiling(e: Evidence): Verdict {
    if e.architectureResult != "success" then NotReady
    else if MissingBefore(Checks(e), 4) != [] then Conditional
    else ReadyToMerge
  }

  /** The missing checks are exactly the required ones without evidence. */
  lemma {:induction false} MissingFindsAll(checks: seq<Check>, n: nat)
    requires n <= |checks|
    ensures forall k :: k in MissingBefore(checks, n) <==> 0 <= k < n && checks[k].required && !checks[k].verified
  {
    if n > 0 {
      MissingFindsAll(checks, n - 1);
    }
  }

  /** Every required check has evidence. */
  predicate AllVerified(e: Evidence) {
    && e.architectureResult == "success" && (e.docker.required ==> e.docker.verified)
    && (e.frontend.required ==> e.frontend.verified) && (e.operations.required ==> e.operations.verified)
  }

  /** What each ceiling means in terms of the evidence. */
  lemma CeilingMeans(e: Evidence)
    ensures Ceiling(e) == ReadyToMerge <==> AllVerified(e)
    ensures Ceiling(e) == NotReady <==> e.architectureResult != "success"
  {
    var checks, missing := Checks(e), MissingBefore(Checks(e), 4);
    MissingFindsAll(checks, 4);
    assert missing != [] ==> missing[0] in missing;
    assert checks[0] == Check(true, e.architectureResult == "success") && checks[1] == e.docker;
    assert checks[2] == e.frontend && checks[3] == e.operations;
    assert AllVerified(e) <==> forall k | 0 <= k < 4 :: checks[k].required ==> checks[k].verified;
  }

  /** A published review says "Ready to Merge" exactly when the model said so and
      every required check is verified, and "Not Ready" exactly when the model
      said so or the architecture job did not succeed. */
  lemma PublishedVerdict(review: string, e: Evidence)
    requires Contains(review, "### Merge Readiness")
    ensures Enforce(review, Ceiling(e)).Some? && VerdictOf(review).Some?
    ensures var published := VerdictOf(Enforce(review, Ceiling(e)).value);
      && (published == Some(ReadyToMerge) <==> VerdictOf(review) == Some(ReadyToMerge) && AllVerified(e))
      && (published == Some(NotReady) <==> VerdictOf(review) == Some(NotReady) || e.architectureResult != "success")
  {
    ClampIsMeet(review, Ceiling(e));
    CeilingMeans(e);
  }
}
