/** One automated reply per reviewed comment: the duplicate check that reads the
    replies back, and the comments of a pull request after any sequence of events. */
module ReplyProtocol {
  import opened Options
  import opened ReplyMarker
  import opened Text

  datatype Comment = Comment(id: nat, body: string)

  datatype Decision = Noop(id: nat) | Update(id: nat) | Create

  /** What the duplicate check concludes from one comment. */
  function Judge(body: string, s: Source, head: string): Option<bool> {
    if !Contains(body, PREFIX) || !Contains(body, Token(s)) then None
    else Some(Contains(body, HeadToken(head)))
  }

  /** `idempotency_decision`: the first comment that carries the source decides. */
  function Decide(comments: seq<Comment>, s: Source, head: string): Decision {
    if comments == [] then Create
    else
      match Judge(comments[0].body, s, head)
      case Some(same) => if same then Noop(comments[0].id) else Update(comments[0].id)
      case None => Decide(comments[1..], s, head)
  }

  method IdempotencyDecision(comments: seq<Comment>, s: Source, head: string) returns (d: Decision)
    ensures d == Decide(comments, s, head)
  {
    assert comments[0..] == comments;
    for n := 0 to |comments|
      invariant Decide(comments, s, head) == Decide(comments[n..], s, head)
    {
      var comment := comments[n];
      assert comments[n..][0] == comment && comments[n..][1..] == comments[n + 1..];
      if !Contains(comment.body, PREFIX) || !Contains(comment.body, Token(s)) {
        continue;
      }
      if Contains(comment.body, HeadToken(head)) {
        return Noop(comment.id);
      }
      return Update(comment.id);
    }
    return Create;
  }

  // ------------------------------------------------- the comments of a pull request

  /** Something posted: a comment by a person, or a review of a comment. */
  datatype Post = Note(body: string) | Review(source: Source, head: string, text: string)

  /** Comments in the order of their creation; the host hands out ids. */
  datatype Thread = Thread(comments: seq<Comment>, nextId: nat)

  function Appended(t: Thread, body: string): Thread {
    Thread(t.comments + [Comment(t.nextId, body)], t.nextId + 1)
  }

  function Patched(t: Thread, id: nat, body: string): Thread {
    t.(comments := seq(|t.comments|, i requires 0 <= i < |t.comments| =>
      if t.comments[i].id == id then Comment(id, body) else t.comments[i]))
  }

  /** A comment is posted; a review decides between nothing, an edit and a new comment. */
  function Handle(t: Thread, p: Post): Thread {
    match p
    case Note(body) => Appended(t, body)
    case Review(s, head, text) =>
      match Decide(t.comments, s, head)
      case Noop(_) => t
      case Update(id) => Patched(t, id, Body(s, head, text))
      case Create => Appended(t, Body(s, head, text))
  }

  function Run(events: seq<Post>): Thread {
    if events == [] then Thread([], 0)
    else Handle(Run(events[..|events| - 1]), events[|events| - 1])
  }

  // ------------------------------------------------------- what it is meant to show

  /** The post that answers `s`, or the length of the board. */
  function Home(board: seq<Post>, s: Source): (i: nat)
    ensures i <= |board| && (i < |board| ==> board[i].Review? && board[i].source == s)
    ensures forall k | 0 <= k < i :: !(board[k].Review? && board[k].source == s)
  {
    if board == [] then 0
    else if board[0].Review? && board[0].source == s then 0
    else 1 + Home(board[1..], s)
  }

  /** The board keeps every note, and one reply for each source. */
  function Record(board: seq<Post>, p: Post): seq<Post> {
    if p.Note? then board + [p]
    else
      var i := Home(board, p.source);
      if i == |board| then board + [p] else if board[i].head == p.head then board else board[i := p]
  }

  function Board(events: seq<Post>): seq<Post> {
    if events == [] then [] else Record(Board(events[..|events| - 1]), events[|events| - 1])
  }

  predicate OneReplyPerSource(board: seq<Post>) {
    forall i, j | 0 <= i < j < |board| && board[i].Review? && board[j].Review? :: board[i].source != board[j].source
  }

  function LatestHead(events: seq<Post>, s: Source): Option<string> {
    if events == [] then None
    else
      var last := events[|events| - 1];
      if last.Review? && last.source == s then Some(last.head) else LatestHead(events[..|events| - 1], s)
  }

  function Notes(posts: seq<Post>): seq<Post> {
    if posts == [] then []
    else
      var last := posts[|posts| - 1];
      Notes(posts[..|posts| - 1]) + if last.Note? then [last] else []
  }

  // ---------------------------------------------------------------- well-formed posts

  function Print(p: Post): string {
    match p
    case Note(body) => body
    case Review(s, head, text) => Body(s, head, text)
  }

  /** Nobody quotes a marker, and no review spells its fields. */
  predicate Clean(p: Post) {
    match p
    case Note(body) => !Contains(body, PREFIX)
    case Review(s, head, text) =>
      PlainSource(s) && Plain(head) && !Contains(text, Field(KIND_FIELD, "")) && !Contains(text, Field(HEAD_FIELD, ""))
  }

  /** Commit ids have one length. */
  predicate Regular(events: seq<Post>) {
    && (forall p | p in events :: Clean(p))
    && (forall p, q | p in events && q in events && p.Review? && q.Review? :: |p.head| == |q.head|)
  }

  // ------------------------------------------------------ what one comment tells

  lemma BeginningIsContained(text: string, a: string, b: string)
    requires Contains(text, a + b)
    ensures Contains(text, a)
  {
    var q := Find(text, a + b).value;
    var found := text[q..q + |a + b|];
    assert found[..|a|] == a;
    assert text[q..q + |a|] == found[..|a|];
    OccurrenceIsContained(text, a, q);
  }

  lemma NoFieldInText(text: string, name: string, value: string)
    requires Contains(text, Field(name, value))
    ensures Contains(text, Field(name, ""))
  {
    assert Field(name, value) == Field(name, "") + value;
    BeginningIsContained(text, Field(name, ""), value);
  }

  /** The check takes a post for an answer to `s`. */
  predicate Answers(p: Post, s: Source) {
    p.Review? && s.kind == p.source.kind && s.id <= p.source.id
  }

  lemma TokensAreOneLine(s: Source, head: string)
    requires PlainSource(s) && Plain(head)
    ensures '\n' !in Token(s) && '\n' !in HeadToken(head) && '\n' !in PREFIX
  {
    assert '\n' !in KIND_FIELD && '\n' !in ID_FIELD && '\n' !in HEAD_FIELD;
  }

  /** What the substring tests find in a reply, whatever the review says. */
  lemma ReplyIsJudged(written: Source, writtenHead: string, text: string, s: Source, head: string)
    requires PlainSource(written) && Plain(writtenHead) && PlainSource(s) && Plain(head)
    ensures var judged := Judge(Body(written, writtenHead, text), s, head);
      && (judged.Some? <==> (s.kind == written.kind && s.id <= written.id) || Contains(text, Token(s)))
      && (judged.Some? ==> (judged.value <==> head <= writtenHead || Contains(text, HeadToken(head))))
  {
    var marker := Marker(written, writtenHead);
    TokensAreOneLine(s, head);
    MarkerHasPrefix(written, writtenHead);
    MarkerContainsTokenExactlyWhen(written, writtenHead, s);
    MarkerContainsHeadExactlyWhen(written, writtenHead, head);
    ContainedInALine(marker, text, PREFIX);
    ContainedInALine(marker, text, Token(s));
    ContainedInALine(marker, text, HeadToken(head));
  }

  lemma PostIsJudged(p: Post, s: Source, head: string)
    requires Clean(p) && PlainSource(s) && Plain(head)
    ensures Judge(Print(p), s, head) == if Answers(p, s) then Some(head <= p.head) else None
  {
    if p.Review? {
      ReplyIsJudged(p.source, p.head, p.text, s, head);
      if Contains(p.text, Token(s)) {
        NoFieldInText(p.text, KIND_FIELD, s.kind + (ID_FIELD + ("=" + s.id)));
      }
      if Contains(p.text, HeadToken(head)) {
        NoFieldInText(p.text, HEAD_FIELD, head);
      }
    }
  }

  // ------------------------------------------------------------ one decision, exactly

  function FirstAnswer(board: seq<Post>, s: Source): (i: nat)
    ensures i <= |board| && (i < |board| ==> Answers(board[i], s))
    ensures forall k | 0 <= k < i :: !Answers(board[k], s)
  {
    if board == [] then 0 else if Answers(board[0], s) then 0 else 1 + FirstAnswer(board[1..], s)
  }

  /** The comments are the printed posts. */
  predicate Prints(comments: seq<Comment>, board: seq<Post>) {
    |comments| == |board| && forall i | 0 <= i < |board| :: comments[i].body == Print(board[i])
  }

  predicate AllClean(board: seq<Post>) {
    forall i | 0 <= i < |board| :: Clean(board[i])
  }

  lemma {:induction false} DecisionIs(comments: seq<Comment>, board: seq<Post>, s: Source, head: string)
    requires Prints(comments, board) && AllClean(board) && PlainSource(s) && Plain(head)
    ensures var i := FirstAnswer(board, s);
      Decide(comments, s, head) ==
        if i == |board| then Create
        else if head <= board[i].head then Noop(comments[i].id)
        else Update(comments[i].id)
  {
    if board != [] {
      PostIsJudged(board[0], s, head);
      if !Answers(board[0], s) {
        DecisionIs(comments[1..], board[1..], s, head);
      }
    }
  }

  /** A source gets a comment of its own exactly when no reply to the same kind has
      an id that begins with the id of the source. */
  lemma CreatesExactlyWhen(comments: seq<Comment>, board: seq<Post>, s: Source, head: string)
    requires Prints(comments, board) && AllClean(board) && PlainSource(s) && Plain(head)
    ensures Decide(comments, s, head) == Create <==>
      forall i | 0 <= i < |board| && board[i].Review? :: board[i].source.kind == s.kind
          ==> !(s.id <= board[i].source.id)
  {
    DecisionIs(comments, board, s, head);
    var i := FirstAnswer(board, s);
    if i == |board| {
      forall k | 0 <= k < |board| && board[k].Review?
        ensures board[k].source.kind == s.kind ==> !(s.id <= board[k].source.id)
      {
        assert !Answers(board[k], s);
      }
    }
  }

  // ---------------------------------------------------------- whole runs

  predicate Shows(t: Thread, board: seq<Post>) {
    && Prints(t.comments, board)
    && (forall i | 0 <= i < |t.comments| :: t.comments[i].id < t.nextId)
    && (forall i, j | 0 <= i < j < |t.comments| :: t.comments[i].id != t.comments[j].id)
  }

  lemma PatchedShows(t: Thread, board: seq<Post>, i: nat, p: Post)
    requires Shows(t, board) && i < |board|
    ensures Shows(Patched(t, t.comments[i].id, Print(p)), board[i := p])
  {
  }

  lemma AppendedShows(t: Thread, board: seq<Post>, p: Post)
    requires Shows(t, board)
    ensures Shows(Appended(t, Print(p)), board + [p])
  {
  }

  /** The substring tests keep the board: one step. */
  lemma HandleShows(t: Thread, board: seq<Post>, p: Post)
    requires Shows(t, board) && AllClean(board) && Clean(p)
    requires p.Review? ==> FirstAnswer(board, p.source) == Home(board, p.source)
    requires forall q | q in board && p.Review? && q.Review? :: |p.head| == |q.head|
    ensures Shows(Handle(t, p), Record(board, p))
  {
    AppendedShows(t, board, p);
    if p.Review? {
      DecisionIs(t.comments, board, p.source, p.head);
      var i := Home(board, p.source);
      if i < |board| {
        assert board[i] in board;
        assert p.head <= board[i].head <==> p.head == board[i].head;
        PatchedShows(t, board, i, p);
      }
    }
  }

  lemma BoardHoldsEvents(events: seq<Post>)
    ensures forall i | 0 <= i < |Board(events)| :: Board(events)[i] in events
  {
    if events != [] {
      var init := events[..|events| - 1];
      BoardHoldsEvents(init);
      assert forall p | p in init :: p in events;
    }
  }

  /** The first post that answers a source is the same on the board and in the events. */
  lemma {:induction false} SameFirstAnswer(events: seq<Post>, s: Source)
    ensures var i, j, board := FirstAnswer(events, s), FirstAnswer(Board(events), s), Board(events);
      && (i < |events| <==> j < |board|)
      && (i < |events| ==> events[i].source == board[j].source)
  {
    if events != [] {
      var init, last := events[..|events| - 1], events[|events| - 1];
      SameFirstAnswer(init, s);
      FirstAnswerAfter(init, last, s);
      assert events == init + [last];
      RecordKeepsFirstAnswer(Board(init), last, s);
    }
  }

  lemma FirstAnswerAfter(init: seq<Post>, last: Post, s: Source)
    ensures var i := FirstAnswer(init, s);
      FirstAnswer(init + [last], s) == if i < |init| || Answers(last, s) then i else |init| + 1
  {
    var events, i, j := init + [last], FirstAnswer(init, s), FirstAnswer(init + [last], s);
    assert events[|init|] == last;
    if i < |init| {
      assert events[i] == init[i];
    }
  }

  lemma RecordKeepsFirstAnswer(board: seq<Post>, p: Post, s: Source)
    ensures var i, after := FirstAnswer(board, s), Record(board, p);
      if i < |board| then FirstAnswer(after, s) == i && after[i].Review? && after[i].source == board[i].source
      else if Answers(p, s) then FirstAnswer(after, s) == i < |after| && after[i] == p
      else FirstAnswer(after, s) == |after|
  {
    var i, after, j := FirstAnswer(board, s), Record(board, p), FirstAnswer(Record(board, p), s);
    assert forall k | 0 <= k < |board| :: Answers(board[k], s) <==> Answers(after[k], s);
    if i == |board| && Answers(p, s) {
      assert forall k | 0 <= k < |board| && board[k].Review? && board[k].source == p.source :: Answers(board[k], s);
      assert after == board + [p];
    }
  }

  /** Of the posts whose id begins with the id of a reviewed source, the first is a
      review of that source itself. */
  predicate FirstComeFirst(events: seq<Post>) {
    forall p | p in events && p.Review? :: OwnAnswer(events, p.source)
  }

  predicate OwnAnswer(events: seq<Post>, s: Source) {
    var i := FirstAnswer(events, s);
    i < |events| ==> events[i].source == s
  }

  lemma OwnAnswerIsHome(init: seq<Post>, last: Post)
    requires last.Review? && OwnAnswer(init + [last], last.source)
    ensures FirstAnswer(Board(init), last.source) == Home(Board(init), last.source)
  {
    FirstAnswerAfter(init, last, last.source);
    SameFirstAnswer(init, last.source);
    var i, j := FirstAnswer(Board(init), last.source), Home(Board(init), last.source);
    assert j < |Board(init)| ==> Answers(Board(init)[j], last.source);
  }

  lemma FirstComeFirstBefore(init: seq<Post>, last: Post)
    requires FirstComeFirst(init + [last])
    ensures FirstComeFirst(init)
  {
    forall p | p in init && p.Review?
      ensures OwnAnswer(init, p.source)
    {
      assert p in init + [last];
      FirstAnswerAfter(init, last, p.source);
    }
  }

  /** The substring tests refine the board: the comments are what the board of one
      reply per source prints. */
  lemma {:induction false} RunShowsBoard(events: seq<Post>)
    requires Regular(events) && FirstComeFirst(events)
    ensures Shows(Run(events), Board(events)) && AllClean(Board(events))
  {
    if events != [] {
      var init, last := events[..|events| - 1], events[|events| - 1];
      assert events == init + [last];
      FirstComeFirstBefore(init, last);
      RunShowsBoard(init);
      BoardHoldsEvents(init);
      BoardHoldsEvents(events);
      if last.Review? {
        OwnAnswerIsHome(init, last);
      }
      HandleShows(Run(init), Board(init), last);
    }
  }

  /** A source that is new to the board but answered there gets no comment. */
  lemma NewSourceLacksComment(t: Thread, board: seq<Post>, p: Post)
    requires Shows(t, board) && AllClean(board) && Clean(p) && p.Review?
    requires FirstAnswer(board, p.source) < |board| == Home(board, p.source)
    ensures !Shows(Handle(t, p), Record(board, p))
  {
    DecisionIs(t.comments, board, p.source, p.head);
  }

  /** At the first review of a source whose id begins the id of a source before it,
      the comment of the source is missed. */
  lemma CommentIsMissed(before: seq<Post>, i: nat, p: Post)
    requires AllClean(Board(before)) && Clean(p) && p.Review?
    requires i < |before| == Home(before, p.source) && Answers(before[i], p.source)
    requires Shows(Run(before), Board(before))
    ensures !Shows(Run(before + [p]), Board(before + [p]))
  {
    assert (before + [p])[..|before|] == before;
    SameFirstAnswer(before, p.source);
    BoardHoldsEvents(before);
    forall k | 0 <= k < |Board(before)|
      ensures !(Board(before)[k].Review? && Board(before)[k].source == p.source)
    {
      assert Board(before)[k] in before;
    }
    NewSourceLacksComment(Run(before), Board(before), p);
  }

  predicate ShowsUpTo(events: seq<Post>, n: nat)
    requires n <= |events|
  {
    Shows(Run(events[..n]), Board(events[..n]))
  }

  lemma BoardIsClean(events: seq<Post>, n: nat)
    requires Regular(events) && n <= |events|
    ensures AllClean(Board(events[..n]))
  {
    BoardHoldsEvents(events[..n]);
    assert forall p | p in events[..n] :: p in events;
  }

  lemma MissedAt(events: seq<Post>, i: nat, j: nat, s: Source)
    requires Regular(events) && i < j == Home(events, s) < |events| && Answers(events[i], s)
    ensures !ShowsUpTo(events, j) || !ShowsUpTo(events, j + 1)
  {
    var before, p := events[..j], events[j];
    assert p in events;
    assert before[i] == events[i];
    assert Home(before, s) == j;
    assert events[..j + 1] == before + [p];
    BoardIsClean(events, j);
    if Shows(Run(before), Board(before)) {
      CommentIsMissed(before, i, p);
    }
  }

  lemma ShownFromTheStart(events: seq<Post>, s: Source, j: nat)
    requires Regular(events) && j == Home(events, s) < |events| && ShowsUpTo(events, j) && ShowsUpTo(events, j + 1)
    ensures OwnAnswer(events, s)
  {
    var i := FirstAnswer(events, s);
    assert Answers(events[j], s);
    if i < j {
      MissedAt(events, i, j, s);
    }
  }

  /** The comments show the board at every moment exactly when every source is reviewed
      before the sources of its kind whose ids extend its own. */
  lemma RunShowsBoardExactlyWhen(events: seq<Post>)
    requires Regular(events)
    ensures (forall n | 0 <= n <= |events| :: ShowsUpTo(events, n)) <==> FirstComeFirst(events)
  {
    if FirstComeFirst(events) {
      forall n | 0 <= n <= |events|
        ensures ShowsUpTo(events, n)
      {
        FirstComeFirstUpTo(events, n);
        RunShowsBoard(events[..n]);
      }
    }
    if forall n | 0 <= n <= |events| :: ShowsUpTo(events, n) {
      forall p | p in events && p.Review?
        ensures OwnAnswer(events, p.source)
      {
        ShownFromTheStart(events, p.source, Home(events, p.source));
      }
    }
  }

  lemma {:induction false} FirstComeFirstUpTo(events: seq<Post>, n: nat)
    requires n <= |events| && FirstComeFirst(events)
    ensures FirstComeFirst(events[..n])
    decreases |events| - n
  {
    if n < |events| {
      FirstComeFirstUpTo(events, n + 1);
      assert events[..n + 1] == events[..n] + [events[n]];
      FirstComeFirstBefore(events[..n], events[n]);
    } else {
      assert events[..n] == events;
    }
  }

  // --------------------------------------------------------- what the board promises

  lemma {:induction false} BoardHasOneReply(events: seq<Post>)
    ensures OneReplyPerSource(Board(events))
  {
    if events != [] {
      BoardHasOneReply(events[..|events| - 1]);
    }
  }

  lemma {:induction false} BoardHasLatestHead(events: seq<Post>, s: Source)
    ensures var i := Home(Board(events), s);
      if i < |Board(events)| then LatestHead(events, s) == Some(Board(events)[i].head)
      else LatestHead(events, s) == None
  {
    if events != [] {
      var init, last := events[..|events| - 1], events[|events| - 1];
      BoardHasLatestHead(init, s);
      BoardHasOneReply(init);
      BoardHasOneReply(events);
      HomeAfter(Board(init), last, s);
    }
  }

  /** Recording a post moves nobody, and gives its own source its head. */
  lemma HomeAfter(board: seq<Post>, p: Post, s: Source)
    requires OneReplyPerSource(board)
    ensures var after, i := Record(board, p), Home(board, s);
      if p.Review? && p.source == s then
        Home(after, s) == i < |after| && after[i].head == p.head
      else if i < |board| then Home(after, s) == i < |after| && after[i] == board[i]
      else Home(after, s) == |after|
  {
    var after, i, j := Record(board, p), Home(board, s), Home(Record(board, p), s);
    if i < |board| {
      assert after[i].Review? && after[i].source == s;
      assert j == i;
    } else if p.Review? && p.source == s {
      assert after[i] == p;
    }
  }

  /** A source that was reviewed has one comment: it carries the head reviewed last, and
      it is the one the next decision about the source goes by. */
  lemma OneReplyWithLatestHead(events: seq<Post>, s: Source, head: string)
    requires Regular(events) && FirstComeFirst(events) && LatestHead(events, s).Some?
    requires Plain(head) && |head| == |LatestHead(events, s).value|
    ensures var comments, i, latest := Run(events).comments, Home(Board(events), s), LatestHead(events, s).value;
      && i < |comments|
      && Decide(comments, s, head) == (if head == latest then Noop(comments[i].id) else Update(comments[i].id))
      && (exists text :: Review(s, latest, text) in events && comments[i].body == Body(s, latest, text))
    ensures Shows(Run(events), Board(events)) && OneReplyPerSource(Board(events))
  {
    var board, i, latest := Board(events), Home(Board(events), s), LatestHead(events, s).value;
    RunShowsBoard(events);
    BoardHoldsEvents(events);
    BoardHasLatestHead(events, s);
    BoardHasOneReply(events);
    var mine := board[i];
    assert mine == Review(s, latest, mine.text) && mine in events && Clean(mine);
    SameFirstAnswer(events, s);
    assert OwnAnswer(events, s);
    assert Answers(mine, s);
    assert FirstAnswer(board, s) == i;
    DecisionIs(Run(events).comments, board, s, head);
  }

  /** A review that comes again, whatever it says now, changes nothing. */
  lemma RepeatIsNoop(events: seq<Post>, p: Post, text: string)
    requires Regular(events + [p]) && FirstComeFirst(events + [p]) && p.Review?
    ensures Handle(Run(events + [p]), p.(text := text)) == Run(events + [p])
  {
    var all := events + [p];
    assert all[|all| - 1] == p;
    OneReplyWithLatestHead(all, p.source, p.head);
  }

  lemma {:induction false} NotesOfUpdate(board: seq<Post>, i: nat, p: Post)
    requires i < |board| && board[i].Review? && p.Review?
    ensures Notes(board[i := p]) == Notes(board)
  {
    var n := |board| - 1;
    if i < n {
      assert board[i := p][..n] == board[..n][i := p];
      NotesOfUpdate(board[..n], i, p);
    } else {
      assert board[i := p][..n] == board[..n];
    }
  }

  lemma NotesOfRecord(board: seq<Post>, p: Post)
    ensures Notes(Record(board, p)) == Notes(board) + if p.Note? then [p] else []
  {
    assert (board + [p])[..|board|] == board;
    if p.Review? && Home(board, p.source) < |board| {
      NotesOfUpdate(board, Home(board, p.source), p);
    }
  }

  /** What people wrote stays on the board, in its order. */
  lemma {:induction false} BoardKeepsNotes(events: seq<Post>)
    ensures Notes(Board(events)) == Notes(events)
  {
    if events != [] {
      var init, last := events[..|events| - 1], events[|events| - 1];
      BoardKeepsNotes(init);
      NotesOfRecord(Board(init), last);
    }
  }

  // -------------------------------------------------------- what people wrote stays

  /** The comments without a marker, in order. */
  function Unmarked(comments: seq<Comment>): seq<string> {
    if comments == [] then []
    else
      var last := comments[|comments| - 1].body;
      Unmarked(comments[..|comments| - 1]) + if Contains(last, PREFIX) then [] else [last]
  }

  function Bodies(notes: seq<Post>): seq<string> {
    if notes == [] then [] else Bodies(notes[..|notes| - 1]) + [Print(notes[|notes| - 1])]
  }

  /** The host hands out every id once. */
  predicate IdsAreUnique(t: Thread) {
    && (forall i | 0 <= i < |t.comments| :: t.comments[i].id < t.nextId)
    && (forall i, j | 0 <= i < j < |t.comments| :: t.comments[i].id != t.comments[j].id)
  }

  lemma RepliesAreMarked(s: Source, head: string, text: string)
    ensures Contains(Body(s, head, text), PREFIX)
  {
    MarkerHasPrefix(s, head);
    ContainedInALine(Marker(s, head), text, PREFIX);
  }

  /** Only a marked comment is taken for a reply. */
  lemma {:induction false} UpdatedIsMarked(comments: seq<Comment>, s: Source, head: string)
    requires Decide(comments, s, head).Update?
    ensures exists i ::
      0 <= i < |comments| && comments[i].id == Decide(comments, s, head).id && Contains(comments[i].body, PREFIX)
  {
    if Judge(comments[0].body, s, head).None? {
      UpdatedIsMarked(comments[1..], s, head);
      var i :| 0 <= i < |comments[1..]| && comments[1..][i].id == Decide(comments[1..], s, head).id
        && Contains(comments[1..][i].body, PREFIX);
      assert comments[i + 1] == comments[1..][i];
    }
  }

  lemma {:induction false} SameUnmarked(a: seq<Comment>, b: seq<Comment>)
    requires |a| == |b|
    requires forall i | 0 <= i < |a| :: a[i] == b[i] || (Contains(a[i].body, PREFIX) && Contains(b[i].body, PREFIX))
    ensures Unmarked(a) == Unmarked(b)
  {
    if a != [] {
      SameUnmarked(a[..|a| - 1], b[..|b| - 1]);
    }
  }

  lemma UnmarkedOfAppended(t: Thread, body: string)
    requires IdsAreUnique(t)
    ensures IdsAreUnique(Appended(t, body))
    ensures Unmarked(Appended(t, body).comments) == Unmarked(t.comments) + if Contains(body, PREFIX) then [] else [body]
  {
    var comments := t.comments + [Comment(t.nextId, body)];
    assert comments[..|comments| - 1] == t.comments;
  }

  lemma UnmarkedOfPatched(t: Thread, id: nat, body: string, i: nat)
    requires IdsAreUnique(t) && i < |t.comments| && t.comments[i].id == id
    requires Contains(t.comments[i].body, PREFIX) && Contains(body, PREFIX)
    ensures IdsAreUnique(Patched(t, id, body)) && Unmarked(Patched(t, id, body).comments) == Unmarked(t.comments)
  {
    SameUnmarked(Patched(t, id, body).comments, t.comments);
  }

  lemma HandleKeepsUnmarked(t: Thread, p: Post)
    requires IdsAreUnique(t) && (p.Note? ==> !Contains(p.body, PREFIX))
    ensures IdsAreUnique(Handle(t, p))
    ensures Unmarked(Handle(t, p).comments) == Unmarked(t.comments) + if p.Note? then [p.body] else []
  {
    match p
    case Note(body) => UnmarkedOfAppended(t, body);
    case Review(s, head, text) =>
      RepliesAreMarked(s, head, text);
      match Decide(t.comments, s, head)
      case Noop(_) =>
      case Update(id) =>
        UpdatedIsMarked(t.comments, s, head);
        var i :| 0 <= i < |t.comments| && t.comments[i].id == id && Contains(t.comments[i].body, PREFIX);
        UnmarkedOfPatched(t, id, Body(s, head, text), i);
      case Create => UnmarkedOfAppended(t, Body(s, head, text));
  }

  lemma BodiesOfNotes(init: seq<Post>, last: Post)
    ensures Bodies(Notes(init + [last])) == Bodies(Notes(init)) + if last.Note? then [last.body] else []
  {
    var events := init + [last];
    assert events[..|events| - 1] == init && events[|events| - 1] == last;
    if last.Note? {
      var notes := Notes(init) + [last];
      assert notes[..|notes| - 1] == Notes(init) && notes[|notes| - 1] == last;
      assert Notes(events) == notes;
    } else {
      assert Notes(events) == Notes(init);
    }
  }

  lemma RunOfLast(init: seq<Post>, last: Post)
    ensures Run(init + [last]) == Handle(Run(init), last)
  {
    assert (init + [last])[..|init|] == init;
  }

  /** Whatever is reviewed, in whatever order: if nobody quotes a marker, the comments
      without one are what people wrote, unchanged and in order. */
  lemma {:induction false} NotesAreKept(events: seq<Post>)
    requires forall p | p in events && p.Note? :: !Contains(p.body, PREFIX)
    ensures Unmarked(Run(events).comments) == Bodies(Notes(events)) && IdsAreUnique(Run(events))
  {
    if events != [] {
      var init, last := events[..|events| - 1], events[|events| - 1];
      assert events == init + [last];
      NotesAreKept(init);
      HandleKeepsUnmarked(Run(init), last);
      RunOfLast(init, last);
      BodiesOfNotes(init, last);
    }
  }

  /** Where the ids are not distinguishable: a review of a source whose id begins
      another's is written over the reply to that other, as "1" over "12". */
  lemma ShorterIdTakesOver(long: Post, short: Post)
    requires long.Review? && short.Review? && Clean(long) && Clean(short)
    requires short.source.kind == long.source.kind && short.source.id < long.source.id
    requires !(short.head <= long.head)
    ensures Run([long, short]).comments == [Comment(0, Print(short))]
  {
    var first := Run([long]);
    assert [long, short][..1] == [long] && [long][..0] == [];
    assert Run([]) == Thread([], 0);
    assert first == Thread([Comment(0, Print(long))], 1);
    PostIsJudged(long, short.source, short.head);
    assert Judge(first.comments[0].body, short.source, short.head) == Some(false);
    assert Run([long, short]) == Handle(first, short);
  }
}
