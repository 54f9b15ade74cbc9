/** Strings as Python's methods on `str` treat them. */
module Text {
  import opened Options

  // -------------------------------------------------------------- white space

  /** The characters `str.strip` removes and `\s` matches. */
  predicate IsSpace(c: char) {
    || '\t' <= c <= '\r' || '\U{1c}' <= c <= ' ' || c == '\U{85}' || c == '\U{a0}' || c == '\U{1680}'
    || '\U{2000}' <= c <= '\U{200a}' || c == '\U{2028}' || c == '\U{2029}' || c == '\U{202f}' || c == '\U{205f}'
    || c == '\U{3000}'
  }

  /** The same by code point. */
  lemma SpacesAre(c: char)
    ensures IsSpace(c) <==>
      c as int in {9, 10, 11, 12, 13, 28, 29, 30, 31, 32, 0x85, 0xa0, 0x1680, 0x2000, 0x2001, 0x2002, 0x2003, 0x2004,
                   0x2005, 0x2006, 0x2007, 0x2008, 0x2009, 0x200a, 0x2028, 0x2029, 0x202f, 0x205f, 0x3000}
  {
  }

  /** Where the text without leading white space begins. */
  function LeadEnd(s: string): (n: nat)
    ensures n <= |s| && (forall i | 0 <= i < n :: IsSpace(s[i])) && (n < |s| ==> !IsSpace(s[n]))
  {
    if s == "" || !IsSpace(s[0]) then 0 else 1 + LeadEnd(s[1..])
  }

  /** Where the text without trailing white space ends. */
  function TrailStart(s: string): (n: nat)
    ensures n <= |s| && (forall i | n <= i < |s| :: IsSpace(s[i])) && (n > 0 ==> !IsSpace(s[n - 1]))
  {
    if s == "" || !IsSpace(s[|s| - 1]) then |s| else TrailStart(s[..|s| - 1])
  }

  /** `str.strip` */
  function Strip(s: string): string {
    if LeadEnd(s) < TrailStart(s) then s[LeadEnd(s)..TrailStart(s)] else ""
  }

  predicate Blank(s: string) {
    forall i | 0 <= i < |s| :: IsSpace(s[i])
  }

  /** The index of the first `c`, or the length when there is none. */
  function IndexOf(s: string, c: char): (i: nat)
    ensures i <= |s| && c !in s[..i] && (i < |s| ==> s[i] == c)
    ensures i < |s| <==> c in s
  {
    if s == "" then 0
    else if s[0] == c then 0
    else
      var i := 1 + IndexOf(s[1..], c);
      assert s[..i] == [s[0]] + s[1..][..i - 1];
      i
  }

  lemma StripAgrees(raw: string)
    ensures Blank(raw) ==> LeadEnd(raw) == |raw| && TrailStart(raw) == 0
    ensures !Blank(raw) ==> LeadEnd(raw) < TrailStart(raw)
  {
    if !Blank(raw) {
      var i :| 0 <= i < |raw| && !IsSpace(raw[i]);
      assert LeadEnd(raw) <= i < TrailStart(raw);
    }
  }

  lemma FirstIndex(s: string, c: char, i: nat)
    requires i < |s| && s[i] == c && forall k | 0 <= k < i :: s[k] != c
    ensures IndexOf(s, c) == i
  {
    var n := IndexOf(s, c);
    assert c in s;
    assert forall k | 0 <= k < n :: s[..n][k] == s[k];
    assert forall k | 0 <= k < n :: s[k] != c;
  }

  // --------------------------------------------------------------- substrings

  predicate OccursAt(s: string, sub: string, i: nat) {
    i + |sub| <= |s| && s[i..i + |sub|] == sub
  }

  /** Where `sub` first occurs at or after position `from`. */
  function FindFrom(s: string, sub: string, from: nat): (at: Option<nat>)
    requires from <= |s|
    ensures at.Some? ==> from <= at.value && OccursAt(s, sub, at.value)
    decreases |s| - from
  {
    if OccursAt(s, sub, from) then Some(from)
    else if from == |s| then None
    else FindFrom(s, sub, from + 1)
  }

  /** `s.find(sub)` */
  function Find(s: string, sub: string): Option<nat> {
    FindFrom(s, sub, 0)
  }

  lemma {:induction false} FindFromIsFirst(s: string, sub: string, from: nat)
    requires from <= |s|
    ensures var at := FindFrom(s, sub, from);
      forall i | from <= i <= |s| && (at.Some? ==> i < at.value) :: !OccursAt(s, sub, i)
    decreases |s| - from
  {
    if !OccursAt(s, sub, from) && from < |s| {
      FindFromIsFirst(s, sub, from + 1);
    }
  }

  lemma {:induction false} FirstIsFound(s: string, sub: string, from: nat, i: nat)
    requires from <= i <= |s| && OccursAt(s, sub, i) && forall k | from <= k < i :: !OccursAt(s, sub, k)
    ensures FindFrom(s, sub, from) == Some(i)
    decreases i - from
  {
    if from < i {
      FirstIsFound(s, sub, from + 1, i);
    }
  }

  /** `sub in s` */
  predicate Contains(s: string, sub: string) {
    Find(s, sub).Some?
  }

  lemma OccurrenceIsContained(s: string, sub: string, i: nat)
    requires OccursAt(s, sub, i)
    ensures Contains(s, sub)
  {
    FindFromIsFirst(s, sub, 0);
  }

  lemma SlicesAgree(s: string, t: string, n: nat, i: nat, j: nat)
    requires n <= |s| && n <= |t| && s[..n] == t[..n] && i <= j <= n
    ensures s[i..j] == t[i..j]
  {
    assert forall k | 0 <= k < n :: s[k] == s[..n][k] && t[k] == t[..n][k];
  }

  /** Texts that agree up to the end of the first occurrence have it at the same place. */
  lemma FindAgrees(s: string, t: string, sub: string, i: nat)
    requires Find(s, sub) == Some(i) && i + |sub| <= |t| && s[..i + |sub|] == t[..i + |sub|]
    ensures Find(t, sub) == Some(i)
  {
    FindFromIsFirst(s, sub, 0);
    forall k | 0 <= k <= i
      ensures OccursAt(s, sub, k) == OccursAt(t, sub, k)
    {
      SlicesAgree(s, t, i + |sub|, k, k + |sub|);
    }
    FirstIsFound(t, sub, 0, i);
  }

  /** What a text contains, a longer text contains. */
  lemma ContainedInConcat(a: string, b: string, c: string, sub: string)
    requires Contains(b, sub)
    ensures Contains(a + b + c, sub)
  {
    var i := Find(b, sub).value;
    var s := a + b + c;
    assert s[|a| + i..|a| + i + |sub|] == b[i..i + |sub|];
    OccurrenceIsContained(s, sub, |a| + i);
  }

  lemma OccursBehind(a: string, b: string, sub: string, i: nat)
    requires OccursAt(a + b, sub, i) && i >= |a|
    ensures OccursAt(b, sub, i - |a|) && Contains(b, sub)
  {
    var s, j := a + b, i - |a|;
    var found, behind := s[i..i + |sub|], b[j..j + |sub|];
    forall k | 0 <= k < |sub|
      ensures behind[k] == found[k]
    {
      assert s[i + k] == b[j + k];
    }
    assert behind == found;
    OccurrenceIsContained(b, sub, j);
  }

  lemma OccursInFront(a: string, b: string, sub: string, i: nat)
    requires OccursAt(a + b, sub, i) && i + |sub| <= |a|
    ensures OccursAt(a, sub, i) && Contains(a, sub)
  {
    assert (a + b)[..|a|] == a;
    SlicesAgree(a + b, a, |a|, i, i + |sub|);
    OccurrenceIsContained(a, sub, i);
  }

  /** Text in front that lacks the first character adds no occurrence. */
  lemma NothingFromTheFront(a: string, b: string, sub: string)
    requires sub != "" && sub[0] !in a && Contains(a + b, sub)
    ensures Contains(b, sub)
  {
    var s := a + b;
    var i := Find(s, sub).value;
    assert s[i] == s[i..i + |sub|][0] == sub[0];
    assert forall k | 0 <= k < |a| :: s[k] == a[k] && a[k] in a;
    OccursBehind(a, b, sub, i);
  }

  /** A slice contains only what the whole contains. */
  lemma ContainedInSlice(s: string, i: nat, j: nat, sub: string)
    requires i <= j <= |s| && Contains(s[i..j], sub)
    ensures Contains(s, sub)
  {
    var k := Find(s[i..j], sub).value;
    assert forall m | 0 <= m < j - i :: s[i..j][m] == s[i + m];
    assert s[i + k..i + k + |sub|] == s[i..j][k..k + |sub|];
    OccurrenceIsContained(s, sub, i + k);
  }
}
