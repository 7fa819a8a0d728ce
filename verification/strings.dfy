/** The few Python string primitives the scripts rely on: `str.replace`,
    `str.startswith`, `str.endswith`, `str.isspace` and `str.strip`. */
module Strings {

  /** `s.startswith(p)` */
  predicate StartsWith(s: string, p: string) {
    |p| <= |s| && s[..|p|] == p
  }

  /** `s.endswith(p)` */
  predicate EndsWith(s: string, p: string) {
    |p| <= |s| && s[|s| - |p|..] == p
  }

  /** `k` occurs in `s` starting at index `i`. */
  predicate OccursAt(s: string, k: string, i: nat) {
    i + |k| <= |s| && s[i..i + |k|] == k
  }

  /** `k` occurs somewhere in `s` (Python's `k in s`). */
  ghost predicate Occurs(s: string, k: string) {
    exists i: nat :: OccursAt(s, k, i)
  }

  /** Python's `str.replace(k, v)`: scanning left to right, every
      non-overlapping occurrence of `k` is replaced by `v`; an empty `k`
      inserts `v` before every character and at the end. */
  function ReplaceAll(s: string, k: string, v: string): string
    decreases |s|
  {
    if |k| == 0 then
      if |s| == 0 then v else v + [s[0]] + ReplaceAll(s[1..], k, v)
    else if |s| < |k| then s
    else if s[..|k|] == k then v + ReplaceAll(s[|k|..], k, v)
    else [s[0]] + ReplaceAll(s[1..], k, v)
  }

  /** Replacing a string by itself changes nothing. */
  lemma {:induction false} ReplaceSelf(s: string, k: string)
    ensures ReplaceAll(s, k, k) == s
    decreases |s|
  {
    if |k| == 0 {
      if |s| > 0 {
        ReplaceSelf(s[1..], k);
        assert [s[0]] + s[1..] == s;
      }
    } else if |s| < |k| {
    } else if s[..|k|] == k {
      ReplaceSelf(s[|k|..], k);
      assert s[..|k|] + s[|k|..] == s;
    } else {
      ReplaceSelf(s[1..], k);
      assert [s[0]] + s[1..] == s;
    }
  }

  /** A non-empty key that does not occur leaves the string unchanged. */
  lemma {:induction false} ReplaceAbsent(s: string, k: string, v: string)
    requires |k| > 0 && !Occurs(s, k)
    ensures ReplaceAll(s, k, v) == s
    decreases |s|
  {
    if |s| >= |k| {
      assert !OccursAt(s, k, 0);
      assert s[0..0 + |k|] == s[..|k|];
      if Occurs(s[1..], k) {
        var i: nat :| OccursAt(s[1..], k, i);
        assert s[i + 1..i + 1 + |k|] == s[1..][i..i + |k|];
        assert OccursAt(s, k, i + 1);
        assert false;
      }
      ReplaceAbsent(s[1..], k, v);
      assert [s[0]] + s[1..] == s;
    }
  }

  /** One step of the scan: the key does not start at the head, so the head
      character is copied. */
  lemma ReplaceStep(s: string, k: string, v: string)
    requires |k| > 0 && |s| > 0 && !StartsWith(s, k)
    ensures ReplaceAll(s, k, v) == [s[0]] + ReplaceAll(s[1..], k, v)
  {
  }

  /** A string differing from `k` at a position both have does not start
      with `k`. */
  lemma NotStartsWithAt(s: string, k: string, p: nat)
    requires p < |s| && p < |k| && s[p] != k[p]
    ensures !StartsWith(s, k)
  {
    if |k| <= |s| {
      assert s[..|k|][p] == s[p];
    }
  }

  /** The key at the head is replaced and the scan resumes after it. */
  lemma ReplaceHead(k: string, t: string, v: string)
    requires |k| > 0
    ensures ReplaceAll(k + t, k, v) == v + ReplaceAll(t, k, v)
  {
    assert (k + t)[..|k|] == k;
    assert (k + t)[|k|..] == t;
  }

  /** A suffix cut in two. */
  lemma SliceSplit(s: string, i: nat, j: nat)
    requires i <= j <= |s|
    ensures s[i..j] + s[j..] == s[i..]
  {
  }

  /** The head and the tail of a concatenation with a non-empty front. */
  lemma ConcatHead(u: string, t: string)
    requires |u| > 0
    ensures (u + t)[0] == u[0] && (u + t)[1..] == u[1..] + t
    ensures [u[0]] + (u[1..] + t) == u + t
  {
  }

  /** A prefix without the key's first character is copied unchanged. */
  lemma {:induction false} ReplaceSkipPrefix(u: string, t: string, k: string, v: string)
    requires |k| > 0
    requires forall i :: 0 <= i < |u| ==> u[i] != k[0]
    ensures ReplaceAll(u + t, k, v) == u + ReplaceAll(t, k, v)
    decreases |u|
  {
    if |u| > 0 {
      var s := u + t;
      ConcatHead(u, t);
      NotStartsWithAt(s, k, 0);
      ReplaceStep(s, k, v);
      ReplaceSkipPrefix(u[1..], t, k, v);
      ConcatHead(u, ReplaceAll(t, k, v));
    } else {
      assert u + t == t;
    }
  }

  /** An occurrence in the tail is an occurrence one place on. */
  lemma OccursInTail(s: string, k: string, i: nat)
    requires |s| > 0
    ensures OccursAt(s[1..], k, i) == OccursAt(s, k, i + 1)
  {
    if i + 1 + |k| <= |s| {
      assert s[1..][i..i + |k|] == s[i + 1..i + 1 + |k|];
    }
  }

  /** A prefix in which no occurrence of the key starts is copied
      unchanged. */
  lemma {:induction false} ReplaceSkipClean(u: string, t: string, k: string, v: string)
    requires |k| > 0
    requires forall i :: 0 <= i < |u| ==> !OccursAt(u + t, k, i)
    ensures ReplaceAll(u + t, k, v) == u + ReplaceAll(t, k, v)
    decreases |u|
  {
    if |u| > 0 {
      var s := u + t;
      ConcatHead(u, t);
      assert !OccursAt(s, k, 0);
      assert !StartsWith(s, k) by {
        if |k| <= |s| { assert s[0..|k|] == s[..|k|]; }
      }
      ReplaceStep(s, k, v);
      forall i | 0 <= i < |u[1..]|
        ensures !OccursAt(u[1..] + t, k, i)
      {
        OccursInTail(s, k, i);
      }
      ReplaceSkipClean(u[1..], t, k, v);
      ConcatHead(u, ReplaceAll(t, k, v));
    } else {
      assert u + t == t;
    }
  }

  /** `s.replace(a, b)` with one-character arguments maps every `a` to `b`
      and keeps every other character in place. */
  lemma {:induction false} ReplaceChar(s: string, a: char, b: char)
    ensures |ReplaceAll(s, [a], [b])| == |s|
    ensures forall i :: 0 <= i < |s| ==>
      ReplaceAll(s, [a], [b])[i] == (if s[i] == a then b else s[i])
    decreases |s|
  {
    if |s| > 0 {
      ReplaceChar(s[1..], a, b);
      var r := ReplaceAll(s[1..], [a], [b]);
      if s[..1] == [a] {
        assert s[0] == a;
        assert ReplaceAll(s, [a], [b]) == [b] + r;
        assert s[1..] == s[|[a]|..];
      } else {
        assert s[0] != a;
        assert ReplaceAll(s, [a], [b]) == [s[0]] + r;
      }
      forall i | 0 <= i < |s|
        ensures ReplaceAll(s, [a], [b])[i] == (if s[i] == a then b else s[i])
      {
        if i > 0 {
          assert s[i] == s[1..][i - 1];
        }
      }
    }
  }

  /** Python's `str.isspace()` for one character, which is also the class of
      the regular-expression escape `\s` on `str` patterns: the ASCII
      controls 9-13 and 28-31, the space, NEL, NBSP and the Unicode space
      separators and line/paragraph separators. */
  predicate IsSpace(c: char) {
    || ('\t' <= c <= '\r')
    || ('\U{001C}' <= c <= ' ')
    || c == '\U{0085}' || c == '\U{00A0}' || c == '\U{1680}'
    || ('\U{2000}' <= c <= '\U{200A}')
    || c == '\U{2028}' || c == '\U{2029}' || c == '\U{202F}'
    || c == '\U{205F}' || c == '\U{3000}'
  }

  /** `s.strip()` is empty: every character is whitespace. */
  predicate IsBlank(s: string) {
    forall i :: 0 <= i < |s| ==> IsSpace(s[i])
  }

  /** Index just past the longest run of whitespace that starts at `i`
      (the greedy `\s*`). */
  function SpaceEnd(s: string, i: nat): (e: nat)
    requires i <= |s|
    ensures i <= e <= |s|
    ensures forall p :: i <= p < e ==> IsSpace(s[p])
    ensures e < |s| ==> !IsSpace(s[e])
    decreases |s| - i
  {
    if i < |s| && IsSpace(s[i]) then SpaceEnd(s, i + 1) else i
  }
}
