/** The marker an automated reply carries, and what the substring tests of the
    duplicate check find in it. */
module ReplyMarker {
  import opened Text

  /** The comment that asked for the review. */
  datatype Source = Source(kind: string, id: string)

  const PREFIX: string := "<!-- automated-comment-review"
  const KIND_FIELD: string := "source-kind"
  const ID_FIELD: string := " source-comment-id"
  const HEAD_FIELD: string := "head-sha"

  /** What the duplicate check looks for to recognise the source. */
  function Token(s: Source): string {
    KIND_FIELD + ("=" + (s.kind + (ID_FIELD + ("=" + s.id))))
  }

  /** What the duplicate check looks for to recognise the head. */
  function HeadToken(head: string): string {
    HEAD_FIELD + ("=" + head)
  }

  /** `comment_marker`:
      `<!-- automated-comment-review source-kind=K source-comment-id=I head-sha=H -->` */
  function Marker(s: Source, head: string): string {
    (PREFIX + (" " + KIND_FIELD)) + ("=" + AfterKind(s, head))
  }

  function AfterKind(s: Source, head: string): string {
    (s.kind + ID_FIELD) + ("=" + AfterId(s.id, head))
  }

  function AfterId(id: string, head: string): string {
    (id + (" " + HEAD_FIELD)) + ("=" + (head + " -->"))
  }

  /** A reply: the marker, a line end, and the review. */
  function Body(s: Source, head: string, text: string): string {
    Marker(s, head) + ("\n" + text)
  }

  /** Kinds, comment ids and commit ids are words of this form. */
  predicate Plain(w: string) {
    ' ' !in w && '=' !in w && '\n' !in w
  }

  predicate PlainSource(s: Source) {
    Plain(s.kind) && Plain(s.id)
  }

  // ---------------------------------------------------- occurrences across a line end

  /** A text of one line occurs before the line end or behind it. */
  lemma OccurrenceInALine(p: string, text: string, sub: string, q: nat)
    requires '\n' !in sub && OccursAt(p + ("\n" + text), sub, q)
    ensures q + |sub| <= |p| || q > |p|
  {
    var s := p + ("\n" + text);
    forall k | q <= k < q + |sub|
      ensures s[k] != '\n'
    {
      assert s[k] == s[q..q + |sub|][k - q];
    }
    assert s[|p|] == '\n';
  }

  lemma FoundInALine(p: string, text: string, sub: string)
    requires '\n' !in sub && Contains(p + ("\n" + text), sub)
    ensures Contains(p, sub) || Contains(text, sub)
  {
    var s := p + ("\n" + text);
    var q := Find(s, sub).value;
    OccurrenceInALine(p, text, sub, q);
    if q + |sub| <= |p| {
      OccursInFront(p, "\n" + text, sub, q);
    } else {
      assert s == (p + "\n") + text;
      OccursBehind(p + "\n", text, sub, q);
    }
  }

  lemma ContainedInALine(p: string, text: string, sub: string)
    requires '\n' !in sub
    ensures Contains(p + ("\n" + text), sub) <==> Contains(p, sub) || Contains(text, sub)
  {
    var s := p + ("\n" + text);
    if Contains(s, sub) {
      FoundInALine(p, text, sub);
    }
    if Contains(p, sub) {
      ContainedInConcat("", p, "\n" + text, sub);
      assert "" + p + ("\n" + text) == s;
    }
    if Contains(text, sub) {
      ContainedInConcat(p + "\n", text, "", sub);
      assert p + "\n" + text + "" == s;
    }
  }

  // ---------------------------------------------- occurrences around an equals sign

  /** `name` stands in front of the first '=' of the searched text, `value` behind it. */
  function Field(name: string, value: string): string {
    name + ("=" + value)
  }

  predicate EndsWith(p: string, w: string) {
    |w| <= |p| && p[|p| - |w|..] == w
  }

  /** An occurrence of a field puts its '=' on the one behind `p`, or lies behind it. */
  lemma OccurrenceAroundEquals(p: string, r: string, name: string, value: string, q: nat)
    requires '=' !in name && '=' !in p && OccursAt(Field(p, r), Field(name, value), q)
    ensures q + |name| == |p| || q > |p|
  {
    var s, sub := Field(p, r), Field(name, value);
    forall k | q <= k < q + |name|
      ensures s[k] != '='
    {
      assert s[k] == s[q..q + |sub|][k - q] == sub[k - q] == name[k - q];
    }
    forall k | 0 <= k < |p|
      ensures s[k] != '='
    {
      assert s[k] == p[k];
    }
    assert s[q + |name|] == s[q..q + |sub|][|name|] == sub[|name|] == '=';
    assert s[|p|] == '=';
  }

  lemma BehindEquals(p: string, r: string, sub: string, q: nat)
    requires OccursAt(Field(p, r), sub, q) && q > |p|
    ensures Contains(r, sub)
  {
    assert Field(p, r) == (p + "=") + r;
    OccursBehind(p + "=", r, sub, q);
  }

  lemma OnEquals(p: string, r: string, name: string, value: string, q: nat)
    requires OccursAt(Field(p, r), Field(name, value), q) && q + |name| == |p|
    ensures EndsWith(p, name) && value <= r
  {
    var s, sub := Field(p, r), Field(name, value);
    var found := s[q..q + |sub|];
    assert found[..|name|] == p[q..];
    assert sub[..|name|] == name;
    assert found[|name| + 1..] == r[..|value|];
    assert sub[|name| + 1..] == value;
  }

  /** A field whose name ends otherwise can be skipped. */
  lemma SkipField(p: string, r: string, name: string, value: string)
    requires '=' !in name && '=' !in p && !EndsWith(p, name)
    requires Contains(Field(p, r), Field(name, value))
    ensures Contains(r, Field(name, value))
  {
    var q := Find(Field(p, r), Field(name, value)).value;
    OccurrenceAroundEquals(p, r, name, value, q);
    if q + |name| == |p| {
      OnEquals(p, r, name, value, q);
    } else {
      BehindEquals(p, r, Field(name, value), q);
    }
  }

  /** At the field of that name its value decides, or something behind it. */
  lemma HitField(p: string, r: string, name: string, value: string)
    requires '=' !in name && '=' !in p && Contains(Field(p, r), Field(name, value))
    ensures value <= r || Contains(r, Field(name, value))
  {
    var q := Find(Field(p, r), Field(name, value)).value;
    OccurrenceAroundEquals(p, r, name, value, q);
    if q + |name| == |p| {
      OnEquals(p, r, name, value, q);
    } else {
      BehindEquals(p, r, Field(name, value), q);
    }
  }

  lemma FieldInside(front: string, name: string, value: string, rest: string)
    ensures Field(front + name, value + rest) == front + Field(name, value) + rest
  {
  }

  lemma FieldContains(p: string, r: string, name: string, value: string)
    requires EndsWith(p, name) && value <= r
    ensures Contains(Field(p, r), Field(name, value))
  {
    var front, rest := p[..|p| - |name|], r[|value|..];
    assert p == front + name && r == value + rest;
    FieldInside(front, name, value, rest);
    assert OccursAt(Field(name, value), Field(name, value), 0);
    OccurrenceIsContained(Field(name, value), Field(name, value), 0);
    ContainedInConcat(front, Field(name, value), rest, Field(name, value));
  }

  /** What lies behind a field is contained in the whole. */
  lemma BehindIsContained(p: string, r: string, sub: string)
    requires Contains(r, sub)
    ensures Contains(Field(p, r), sub)
  {
    ContainedInConcat(p + "=", r, "", sub);
    assert p + "=" + r + "" == Field(p, r);
  }

  lemma FieldHasEquals(r: string, name: string, value: string)
    requires Contains(r, Field(name, value))
    ensures '=' in r
  {
    var q := Find(r, Field(name, value)).value;
    assert r[q + |name|] == r[q..q + |Field(name, value)|][|name|] == '=';
  }

  // ------------------------------------------------------- words and their spaces

  /** A word in front of a space or line end is read off as a prefix. */
  lemma WordIsPrefix(w: string, v: string, rest: string)
    requires ' ' !in w && rest != "" && rest[0] == ' '
    ensures w <= v + rest <==> w <= v
  {
    var s := v + rest;
    assert s[|v|] == ' ';
    if w <= s {
      assert forall k | 0 <= k < |w| :: w[k] == s[k] && w[k] in w;
      assert |w| <= |v|;
      assert s[..|w|] == v[..|w|];
    }
    if w <= v {
      assert s[..|w|] == v[..|w|];
    }
  }

  /** Two words in front of the same space are one. */
  lemma WordsInFrontOfSpace(w: string, v: string, a: string, b: string)
    requires ' ' !in w && ' ' !in v && a != "" && b != "" && a[0] == ' ' && b[0] == ' '
    requires w + a <= v + b
    ensures w == v && a <= b
  {
    var s, t := w + a, v + b;
    assert s[|w|] == ' ' && t[|v|] == ' ';
    assert forall k | 0 <= k < |w| :: s[k] == w[k] && w[k] in w;
    assert forall k | 0 <= k < |v| :: t[k] == v[k] && v[k] in v;
    assert forall k | 0 <= k < |s| :: s[k] == t[k];
    assert |w| == |v|;
    assert w == s[..|w|] == t[..|v|] == v;
    assert a == s[|w|..] && b == t[|v|..];
    assert a == t[|v|..|s|];
  }

  lemma EndsOtherwise(p: string, w: string, name: string)
    requires |w| >= 2 && |name| >= 2
    requires w[|w| - 1] != name[|name| - 1] || w[|w| - 2] != name[|name| - 2]
    ensures !EndsWith(p + w, name)
  {
    var s := p + w;
    assert s[|s| - 1] == w[|w| - 1] && s[|s| - 2] == w[|w| - 2];
    if |name| <= |s| {
      var end := s[|s| - |name|..];
      assert end[|name| - 1] == s[|s| - 1] && end[|name| - 2] == s[|s| - 2];
    }
  }

  // ------------------------------------------------------ what the marker contains

  lemma MarkerHasNoStrayEquals(s: Source, head: string)
    requires PlainSource(s) && Plain(head)
    ensures '=' !in PREFIX + (" " + KIND_FIELD) && '=' !in s.kind + ID_FIELD
    ensures '=' !in s.id + (" " + HEAD_FIELD) && '=' !in head + " -->"
  {
    assert '=' !in PREFIX && '=' !in KIND_FIELD && '=' !in ID_FIELD && '=' !in HEAD_FIELD && '=' !in " -->";
  }

  /** Behind the kind there is no further `source-kind` field. */
  lemma NoLaterKind(s: Source, head: string, value: string)
    requires PlainSource(s) && Plain(head)
    ensures !Contains(AfterKind(s, head), Field(KIND_FIELD, value))
  {
    MarkerHasNoStrayEquals(s, head);
    if Contains(AfterKind(s, head), Field(KIND_FIELD, value)) {
      EndsOtherwise(s.kind, ID_FIELD, KIND_FIELD);
      SkipField(s.kind + ID_FIELD, AfterId(s.id, head), KIND_FIELD, value);
      EndsOtherwise(s.id, " " + HEAD_FIELD, KIND_FIELD);
      SkipField(s.id + (" " + HEAD_FIELD), head + " -->", KIND_FIELD, value);
      FieldHasEquals(head + " -->", KIND_FIELD, value);
    }
  }

  /** The source is recognised in a marker exactly when the kinds are equal and the
      searched id is a prefix of the id in the marker. */
  lemma MarkerContainsTokenExactlyWhen(written: Source, head: string, s: Source)
    requires PlainSource(written) && Plain(head) && PlainSource(s)
    ensures Contains(Marker(written, head), Token(s)) <==> s.kind == written.kind && s.id <= written.id
  {
    var start, value := PREFIX + (" " + KIND_FIELD), s.kind + (ID_FIELD + ("=" + s.id));
    var rest := AfterKind(written, head);
    MarkerHasNoStrayEquals(written, head);
    NoLaterKind(written, head, value);
    ValueFitsExactlyWhen(written, head, s);
    assert start == (PREFIX + " ") + KIND_FIELD;
    assert EndsWith(start, KIND_FIELD);
    if Contains(Marker(written, head), Token(s)) {
      HitField(start, rest, KIND_FIELD, value);
    }
    if value <= rest {
      FieldContains(start, rest, KIND_FIELD, value);
    }
  }

  lemma PrefixBehind(m: string, a: string, b: string)
    requires m + a <= m + b
    ensures a <= b
  {
    assert a == (m + a)[|m|..] == (m + b)[|m|..|m + a|] == b[..|a|];
  }

  /** Two words, each in front of a space. */
  lemma WordsFitExactlyWhen(kind: string, id: string, writtenKind: string, writtenId: string, mid: string, tail: string)
    requires ' ' !in kind && ' ' !in id && ' ' !in writtenKind
    requires mid != "" && mid[0] == ' ' && tail != "" && tail[0] == ' '
    ensures kind + (mid + id) <= writtenKind + (mid + (writtenId + tail)) <==> kind == writtenKind && id <= writtenId
  {
    WordIsPrefix(id, writtenId, tail);
    if kind + (mid + id) <= writtenKind + (mid + (writtenId + tail)) {
      WordsInFrontOfSpace(kind, writtenKind, mid + id, mid + (writtenId + tail));
      PrefixBehind(mid, id, writtenId + tail);
    }
  }

  lemma ValueFitsExactlyWhen(written: Source, head: string, s: Source)
    requires PlainSource(written) && PlainSource(s)
    ensures s.kind + (ID_FIELD + ("=" + s.id)) <= AfterKind(written, head)
        <==> s.kind == written.kind && s.id <= written.id
  {
    var mid, tail := ID_FIELD + "=", " " + HEAD_FIELD + ("=" + (head + " -->"));
    assert s.kind + (ID_FIELD + ("=" + s.id)) == s.kind + (mid + s.id);
    assert AfterId(written.id, head) == written.id + tail;
    assert AfterKind(written, head) == written.kind + (mid + (written.id + tail));
    WordsFitExactlyWhen(s.kind, s.id, written.kind, written.id, mid, tail);
  }

  /** The head is recognised in a marker exactly when it is a prefix of the head there. */
  lemma MarkerContainsHeadExactlyWhen(written: Source, head: string, h: string)
    requires PlainSource(written) && Plain(head) && Plain(h)
    ensures Contains(Marker(written, head), HeadToken(h)) <==> h <= head
  {
    var start, middle, last := PREFIX + (" " + KIND_FIELD), written.kind + ID_FIELD, written.id + (" " + HEAD_FIELD);
    MarkerHasNoStrayEquals(written, head);
    WordIsPrefix(h, head, " -->");
    if Contains(Marker(written, head), HeadToken(h)) {
      EndsOtherwise(PREFIX, " " + KIND_FIELD, HEAD_FIELD);
      SkipField(start, AfterKind(written, head), HEAD_FIELD, h);
      EndsOtherwise(written.kind, ID_FIELD, HEAD_FIELD);
      SkipField(middle, AfterId(written.id, head), HEAD_FIELD, h);
      HitField(last, head + " -->", HEAD_FIELD, h);
      if Contains(head + " -->", HeadToken(h)) {
        FieldHasEquals(head + " -->", HEAD_FIELD, h);
      }
    }
    if h <= head {
      assert last == (written.id + " ") + HEAD_FIELD;
      FieldContains(last, head + " -->", HEAD_FIELD, h);
      BehindIsContained(middle, AfterId(written.id, head), HeadToken(h));
      BehindIsContained(start, AfterKind(written, head), HeadToken(h));
    }
  }

  lemma MarkerHasPrefix(s: Source, head: string)
    ensures Contains(Marker(s, head), PREFIX)
  {
    assert Marker(s, head)[0..|PREFIX|] == PREFIX;
    OccurrenceIsContained(Marker(s, head), PREFIX, 0);
  }

  // ------------------------------------------------------------ the printed forms

  lemma FieldsAre()
    ensures (PREFIX + (" " + KIND_FIELD)) + "=" == "<!-- automated-comment-review source-kind="
    ensures ID_FIELD + "=" == " source-comment-id=" && (" " + HEAD_FIELD) + "=" == " head-sha="
  {
  }

  /** What a marker and the two tokens look like. */
  lemma MarkerSpells(s: Source, head: string)
    ensures Marker(s, head)
         == "<!-- automated-comment-review source-kind=" + s.kind + " source-comment-id=" + s.id + " head-sha=" + head
            + " -->"
    ensures Token(s) == "source-kind=" + s.kind + " source-comment-id=" + s.id
    ensures HeadToken(head) == "head-sha=" + head
  {
    FieldsAre();
    MarkerGrouped(PREFIX + (" " + KIND_FIELD), s.kind, ID_FIELD, s.id, " " + HEAD_FIELD, head);
    assert KIND_FIELD + "=" == "source-kind=" && HEAD_FIELD + "=" == "head-sha=";
    TokenGrouped(KIND_FIELD, s.kind, ID_FIELD, s.id);
  }

  lemma MarkerGrouped(a: string, kind: string, b: string, id: string, c: string, head: string)
    ensures a + ("=" + ((kind + b) + ("=" + ((id + c) + ("=" + (head + " -->"))))))
         == (a + "=") + kind + (b + "=") + id + (c + "=") + head + " -->"
  {
  }

  lemma TokenGrouped(a: string, kind: string, b: string, id: string)
    ensures a + ("=" + (kind + (b + ("=" + id)))) == (a + "=") + kind + (b + "=") + id
  {
  }
}
