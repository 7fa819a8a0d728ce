/** The format protector shared by Multi-Translator.py and
    SinglePath-Translator.py: one left-to-right scan of the message against
    the alternation of six markup patterns, every match replaced by the
    token `__MD_<n>__` and recorded, in match order, as a placeholder. */
module Protector {
  import opened Wrappers
  import opened Strings

  /** The six alternatives of the combined pattern, declared in the order in
      which they are joined with `|`. */
  datatype Kind = Link | Bold | Italic | Code | Mention | Tag

  /** Position of an alternative in the alternation. */
  function Rank(k: Kind): nat {
    match k
    case Link => 0
    case Bold => 1
    case Italic => 2
    case Code => 3
    case Mention => 4
    case Tag => 5
  }

  function KindAt(n: nat): Kind
    requires n < 6
  {
    [Link, Bold, Italic, Code, Mention, Tag][n]
  }

  lemma KindAtRank(n: nat)
    requires n < 6
    ensures Rank(KindAt(n)) == n
  {
  }

  /** Python's `$` without MULTILINE: at the end of the input or just before
      a final newline. */
  predicate AtEnd(s: string, p: nat) {
    p == |s| || (p + 1 == |s| && s[p] == '\n')
  }

  /** The lazy `.*?` followed by the closing delimiter `d` (DOTALL: any
      character): the end of the first occurrence of `d` at or after `i`. */
  function CloseAt(s: string, i: nat, d: string): (r: Option<nat>)
    requires i <= |s|
    ensures r.Some? ==> i + |d| <= r.value <= |s| && OccursAt(s, d, r.value - |d|)
    ensures r.Some? ==> forall p: nat :: i <= p < r.value - |d| ==> !OccursAt(s, d, p)
    ensures r.None? ==> forall p: nat :: i <= p ==> !OccursAt(s, d, p)
    decreases |s| - i
  {
    if i + |d| > |s| then None
    else if s[i..i + |d|] == d then Some(i + |d|)
    else CloseAt(s, i + 1, d)
  }

  /** End of the greedy `\w*` that starts at `i`, for the word class `w`. */
  function WordEnd(w: char -> bool, s: string, i: nat): (e: nat)
    requires i <= |s|
    ensures i <= e <= |s|
    ensures forall p :: i <= p < e ==> w(s[p])
    ensures e < |s| ==> !w(s[e])
    decreases |s| - i
  {
    if i < |s| && w(s[i]) then WordEnd(w, s, i + 1) else i
  }

  /** End of the greedy `\S*` that starts at `i`. */
  function NonSpaceEnd(s: string, i: nat): (e: nat)
    requires i <= |s|
    ensures i <= e <= |s|
    ensures forall p :: i <= p < e ==> !IsSpace(s[p])
    ensures e < |s| ==> IsSpace(s[e])
    decreases |s| - i
  {
    if i < |s| && !IsSpace(s[i]) then NonSpaceEnd(s, i + 1) else i
  }

  /** `\S+$` at `q`. Backtracking the greedy run cannot help: the only
      positions where `$` holds are the end and a final newline, and a
      newline is whitespace, so it ends the run. */
  function UrlTail(s: string, q: nat): Option<nat>
    requires q <= |s|
  {
    var e := NonSpaceEnd(s, q);
    if q < e && AtEnd(s, e) then Some(e) else None
  }

  /** `https?://\S+$` at `p`; the greedy `s?` is tried with the `s` first. */
  function UrlAt(s: string, p: nat): Option<nat>
    requires p <= |s|
  {
    if p + 4 <= |s| && s[p..p + 4] == "http" then
      var secure := if p + 8 <= |s| && s[p + 4..p + 8] == "s://" then UrlTail(s, p + 8) else None;
      if secure.Some? then secure
      else if p + 7 <= |s| && s[p + 4..p + 7] == "://" then UrlTail(s, p + 7)
      else None
    else None
  }

  /** The link alternative `$$.*?$$$https?://\S+$` started at `i`, with the
      lazy body tried up to `p`, `p + 1`, ...  The regular expression treats
      every `$` as an end-of-input anchor, and the `h` of the scheme would
      have to sit at such a position, so the alternative never matches. */
  function LinkFrom(s: string, i: nat, p: nat): (r: Option<nat>)
    requires i <= p <= |s|
    ensures r.None?
    decreases |s| - p
  {
    if !AtEnd(s, i) then None
    else
      var here := if AtEnd(s, p) then UrlAt(s, p) else None;
      if here.Some? then here
      else if p < |s| then LinkFrom(s, i, p + 1)
      else None
  }

  /** The link alternative at `i`: it never matches any input. */
  function MatchLink(s: string, i: nat): (r: Option<nat>)
    requires i <= |s|
    ensures r == None
  {
    LinkFrom(s, i, i)
  }

  /** Reference meaning of `https?://\S+$` matching `s[p..e]`: a scheme,
      a non-empty run of non-space characters, then the end anchor. */
  ghost predicate UrlSpan(s: string, p: nat, e: nat) {
    && e <= |s| && AtEnd(s, e)
    && (|| (OccursAt(s, "http://", p) && p + 7 < e && forall r :: p + 7 <= r < e ==> !IsSpace(s[r]))
        || (OccursAt(s, "https://", p) && p + 8 < e && forall r :: p + 8 <= r < e ==> !IsSpace(s[r])))
  }

  /** `\S+$` at `q` ends at `e` exactly when a non-empty run of non-space
      characters from `q` reaches the end anchor at `e`. */
  lemma UrlTailSpans(s: string, q: nat, e: nat)
    requires q <= |s|
    ensures UrlTail(s, q) == Some(e) <==>
      (q < e <= |s| && AtEnd(s, e) && forall r :: q <= r < e ==> !IsSpace(s[r]))
  {
    var f := NonSpaceEnd(s, q);
    if q < e <= |s| && AtEnd(s, e) && forall r :: q <= r < e ==> !IsSpace(s[r]) {
      if e < |s| {
        assert IsSpace(s[e]);
      }
      assert f == e;
    }
  }

  /** The operational `UrlAt` finds exactly the declarative URL spans. */
  lemma UrlAtSpans(s: string, p: nat, e: nat)
    requires p <= |s|
    ensures UrlAt(s, p) == Some(e) <==> UrlSpan(s, p, e)
  {
    var plain := OccursAt(s, "http://", p);
    var secure := OccursAt(s, "https://", p);
    assert plain <==> p + 7 <= |s| && s[p..p + 4] == "http" && s[p + 4..p + 7] == "://" by {
      if p + 7 <= |s| {
        assert s[p..p + 7] == s[p..p + 4] + s[p + 4..p + 7];
        assert "http://" == "http" + "://";
        if s[p..p + 7] == "http://" {
          assert s[p..p + 4] == s[p..p + 7][..4];
          assert s[p + 4..p + 7] == s[p..p + 7][4..];
        }
      }
    }
    assert secure <==> p + 8 <= |s| && s[p..p + 4] == "http" && s[p + 4..p + 8] == "s://" by {
      if p + 8 <= |s| {
        assert s[p..p + 8] == s[p..p + 4] + s[p + 4..p + 8];
        assert "https://" == "http" + "s://";
        if s[p..p + 8] == "https://" {
          assert s[p..p + 4] == s[p..p + 8][..4];
          assert s[p + 4..p + 8] == s[p..p + 8][4..];
        }
      }
    }
    if p + 7 <= |s| {
      UrlTailSpans(s, p + 7, e);
    }
    if p + 8 <= |s| {
      UrlTailSpans(s, p + 8, e);
    }
  }

  /** Reference meaning of the link alternative matching `s[i..e]`: the
      anchors `$$` at `i`, a lazy body up to `p`, the anchors `$$$` at `p`,
      then a URL running to `e`. */
  ghost predicate LinkSpan(s: string, i: nat, e: nat) {
    exists p: nat :: i <= p <= |s| && AtEnd(s, i) && AtEnd(s, p) && UrlSpan(s, p, e)
  }

  /** No input has a link span: a URL needs seven characters after its
      start, and the anchors leave at most one. */
  lemma LinkNeverSpans(s: string, i: nat, e: nat)
    ensures !LinkSpan(s, i, e)
  {
    forall p: nat | i <= p <= |s| && AtEnd(s, p)
      ensures !UrlSpan(s, p, e)
    {
      assert !OccursAt(s, "http://", p) && !OccursAt(s, "https://", p);
    }
  }

  /** Reference meaning of `\*\*.*?\*\*` matching `s[i..e]`: it opens with
      `**` and closes at the first `**` after the opener. */
  ghost predicate BoldSpan(s: string, i: nat, e: nat) {
    && i + 4 <= e <= |s| && OccursAt(s, "**", i) && OccursAt(s, "**", e - 2)
    && forall p: nat :: i + 2 <= p < e - 2 ==> !OccursAt(s, "**", p)
  }

  /** Reference meaning of `c.*?c` (italic with `*`, code with a backtick)
      matching `s[i..e]`: no `c` strictly inside. */
  ghost predicate DelimitedSpan(c: char, s: string, i: nat, e: nat) {
    && i + 2 <= e <= |s| && s[i] == c && s[e - 1] == c
    && forall p :: i < p < e - 1 ==> s[p] != c
  }

  /** Reference meaning of `c\w+` (mention with `@`, tag with `#`) matching
      `s[i..e]`: a maximal non-empty run of word characters after `c`. */
  ghost predicate WordSpan(c: char, w: char -> bool, s: string, i: nat, e: nat) {
    && i + 2 <= e <= |s| && s[i] == c
    && (forall p :: i < p < e ==> w(s[p])) && (e == |s| || !w(s[e]))
  }

  /** Alternative `k` matches `s[i..e]`. */
  ghost predicate Spans(k: Kind, w: char -> bool, s: string, i: nat, e: nat) {
    match k
    case Link => LinkSpan(s, i, e)
    case Bold => BoldSpan(s, i, e)
    case Italic => DelimitedSpan('*', s, i, e)
    case Code => DelimitedSpan('`', s, i, e)
    case Mention => WordSpan('@', w, s, i, e)
    case Tag => WordSpan('#', w, s, i, e)
  }

  /** Characters a protected span can start with. */
  predicate IsOpener(c: char) {
    c == '*' || c == '`' || c == '@' || c == '#'
  }

  /** `\*\*.*?\*\*` at `i`. */
  function MatchBold(s: string, i: nat): (r: Option<nat>)
    requires i < |s|
    ensures forall e: nat :: BoldSpan(s, i, e) <==> r == Some(e)
  {
    if i + 2 <= |s| && s[i..i + 2] == "**" then
      var r := CloseAt(s, i + 2, "**");
      assert OccursAt(s, "**", i);
      r
    else
      assert !OccursAt(s, "**", i);
      None
  }

  /** `c.*?c` at `i`. */
  function MatchDelimited(c: char, s: string, i: nat): (r: Option<nat>)
    requires i < |s|
    ensures forall e: nat :: DelimitedSpan(c, s, i, e) <==> r == Some(e)
  {
    if s[i] == c then
      var r := CloseAt(s, i + 1, [c]);
      assert forall p: nat :: p < |s| ==> (OccursAt(s, [c], p) <==> s[p] == c) by {
        forall p: nat | p < |s| ensures OccursAt(s, [c], p) <==> s[p] == c {
          assert s[p..p + 1] == [s[p]];
        }
      }
      r
    else None
  }

  /** `c\w+` at `i`. */
  function MatchWord(c: char, w: char -> bool, s: string, i: nat): (r: Option<nat>)
    requires i < |s|
    ensures forall e: nat :: WordSpan(c, w, s, i, e) <==> r == Some(e)
  {
    if s[i] == c && i + 1 < |s| && w(s[i + 1]) then Some(WordEnd(w, s, i + 1)) else None
  }

  /** Alternative `k` tried at `i`: the end of its match, if any. */
  function Try(k: Kind, w: char -> bool, s: string, i: nat): (r: Option<nat>)
    requires i < |s|
    ensures forall e: nat :: Spans(k, w, s, i, e) <==> r == Some(e)
    ensures r.Some? ==> i + 2 <= r.value <= |s| && IsOpener(s[i])
  {
    match k
    case Link =>
      forall e: nat ensures !LinkSpan(s, i, e) {
        LinkNeverSpans(s, i, e);
      }
      MatchLink(s, i)
    case Bold =>
      var r := MatchBold(s, i);
      assert r.Some? ==> BoldSpan(s, i, r.value);
      r
    case Italic =>
      var r := MatchDelimited('*', s, i);
      assert r.Some? ==> DelimitedSpan('*', s, i, r.value);
      r
    case Code =>
      var r := MatchDelimited('`', s, i);
      assert r.Some? ==> DelimitedSpan('`', s, i, r.value);
      r
    case Mention =>
      var r := MatchWord('@', w, s, i);
      assert r.Some? ==> WordSpan('@', w, s, i, r.value);
      r
    case Tag =>
      var r := MatchWord('#', w, s, i);
      assert r.Some? ==> WordSpan('#', w, s, i, r.value);
      r
  }

  /** The alternation at `i`, trying the alternatives of rank `n` and above
      in order; the first one that matches wins. */
  function FirstFrom(w: char -> bool, s: string, i: nat, n: nat): (r: Option<(Kind, nat)>)
    requires i < |s| && n <= 6
    ensures r.Some? ==> n <= Rank(r.value.0) && Spans(r.value.0, w, s, i, r.value.1)
    ensures r.Some? ==> i + 2 <= r.value.1 <= |s| && IsOpener(s[i])
    ensures r.Some? ==> forall k, e: nat :: n <= Rank(k) < Rank(r.value.0) ==> !Spans(k, w, s, i, e)
    ensures r.None? ==> forall k, e: nat :: n <= Rank(k) ==> !Spans(k, w, s, i, e)
    decreases 6 - n
  {
    if n == 6 then None
    else
      var k := KindAt(n);
      KindAtRank(n);
      match Try(k, w, s, i)
      case Some(e) => Some((k, e))
      case None =>
        var r := FirstFrom(w, s, i, n + 1);
        assert forall k' :: Rank(k') == n ==> k' == k;
        r
  }

  /** The whole alternation at `i` (Python's `re` tries the alternatives
      left to right and takes the first that matches). */
  function MatchAt(w: char -> bool, s: string, i: nat): (r: Option<(Kind, nat)>)
    requires i < |s|
    ensures r.Some? ==> Spans(r.value.0, w, s, i, r.value.1)
    ensures r.Some? ==> forall k, e: nat :: Rank(k) < Rank(r.value.0) ==> !Spans(k, w, s, i, e)
    ensures r.None? <==> forall k, e: nat :: !Spans(k, w, s, i, e)
    ensures r.Some? ==> i + 2 <= r.value.1 <= |s| && IsOpener(s[i])
  {
    FirstFrom(w, s, i, 0)
  }

  /** A piece of the scanned message: an unmatched character, copied as is,
      or a protected span together with the alternative that matched it. */
  datatype Segment = Lit(c: char) | Span(kind: Kind, text: string)

  /** The message the segments were cut from. */
  function Flatten(segs: seq<Segment>): string {
    if segs == [] then ""
    else
      match segs[0]
      case Lit(c) => [c] + Flatten(segs[1..])
      case Span(_, t) => t + Flatten(segs[1..])
  }

  /** The texts of the protected spans, in match order. */
  function Values(segs: seq<Segment>): seq<string> {
    if segs == [] then []
    else
      match segs[0]
      case Lit(_) => Values(segs[1..])
      case Span(_, t) => [t] + Values(segs[1..])
  }

  /** `re.sub` over the whole message from `i`: leftmost, non-overlapping
      matches, scanning resumes after each match, and a position where no
      alternative matches contributes its character unchanged. */
  function Scan(w: char -> bool, s: string, i: nat): (segs: seq<Segment>)
    requires i <= |s|
    ensures Flatten(segs) == s[i..]
    decreases |s| - i
  {
    if i == |s| then []
    else
      var m := MatchAt(w, s, i);
      var seg := if m.Some? then Span(m.value.0, s[i..m.value.1]) else Lit(s[i]);
      var next := if m.Some? then m.value.1 else i + 1;
      var rest := Scan(w, s, next);
      FlattenCons(seg, rest);
      SliceSplit(s, i, next);
      [seg] + rest
  }

  lemma FlattenCons(seg: Segment, rest: seq<Segment>)
    ensures Flatten([seg] + rest) == (match seg case Lit(c) => [c] case Span(_, t) => t) + Flatten(rest)
  {
    assert ([seg] + rest)[1..] == rest;
  }

  /** Reference meaning of `re.sub`'s scan: the segments, read from
      position `p`, are what a leftmost, non-overlapping matcher with
      ordered alternatives produces. A literal character sits where no
      alternative matches; a span is matched by its alternative and by no
      alternative listed before it; and the next segment starts where this
      one ends. */
  ghost predicate Leftmost(w: char -> bool, s: string, p: nat, segs: seq<Segment>)
    decreases |segs|
  {
    if segs == [] then p == |s|
    else
      p < |s| &&
      match segs[0]
      case Lit(c) =>
        && s[p] == c
        && (forall k, e: nat :: !Spans(k, w, s, p, e))
        && Leftmost(w, s, p + 1, segs[1..])
      case Span(k, t) =>
        && p + |t| <= |s| && s[p..p + |t|] == t && Spans(k, w, s, p, p + |t|)
        && (forall k', e: nat :: Rank(k') < Rank(k) ==> !Spans(k', w, s, p, e))
        && Leftmost(w, s, p + |t|, segs[1..])
  }

  /** The scan is leftmost and non-overlapping, tries the alternatives in
      their listed order, and copies unmatched characters. */
  lemma {:induction false} ScanLeftmost(w: char -> bool, s: string, i: nat)
    requires i <= |s|
    ensures Leftmost(w, s, i, Scan(w, s, i))
    decreases |s| - i
  {
    if i < |s| {
      var m := MatchAt(w, s, i);
      if m.Some? {
        ScanLeftmost(w, s, m.value.1);
        LeftmostSpan(w, s, i, m.value.0, m.value.1, Scan(w, s, m.value.1));
        ScanSpanStep(w, s, i);
      } else {
        ScanLeftmost(w, s, i + 1);
        LeftmostLit(w, s, i, Scan(w, s, i + 1));
        ScanLitStep(w, s, i);
      }
    }
  }

  /** An unmatched character in front of a leftmost segmentation. */
  lemma LeftmostLit(w: char -> bool, s: string, i: nat, rest: seq<Segment>)
    requires i < |s| && MatchAt(w, s, i).None?
    requires Leftmost(w, s, i + 1, rest)
    ensures Leftmost(w, s, i, [Lit(s[i])] + rest)
  {
    assert ([Lit(s[i])] + rest)[1..] == rest;
  }

  /** The first alternative matching at `i` in front of a leftmost
      segmentation. */
  lemma LeftmostSpan(w: char -> bool, s: string, i: nat, k: Kind, e: nat, rest: seq<Segment>)
    requires i < |s| && MatchAt(w, s, i) == Some((k, e))
    requires Leftmost(w, s, e, rest)
    ensures Leftmost(w, s, i, [Span(k, s[i..e])] + rest)
  {
    var segs := [Span(k, s[i..e])] + rest;
    assert segs[1..] == rest;
    assert i + |s[i..e]| == e;
    assert s[i..i + |s[i..e]|] == s[i..e];
  }

  /** Alternatives of equal rank are the same alternative. */
  lemma RankInjective(a: Kind, b: Kind)
    requires Rank(a) == Rank(b)
    ensures a == b
  {
  }

  /** The leftmost segmentation is unique: any segmentation meeting the
      reference meaning is the scan's. */
  lemma {:induction false} LeftmostUnique(w: char -> bool, s: string, i: nat, segs: seq<Segment>)
    requires i <= |s| && Leftmost(w, s, i, segs)
    ensures segs == Scan(w, s, i)
    decreases |segs|, 1
  {
    if segs == [] {
    } else if segs[0].Lit? {
      LeftmostUniqueLitCase(w, s, i, segs);
    } else {
      LeftmostUniqueSpanCase(w, s, i, segs);
    }
  }

  /** Uniqueness when the segmentation starts with a copied character. */
  lemma {:induction false} LeftmostUniqueLitCase(w: char -> bool, s: string, i: nat, segs: seq<Segment>)
    requires segs != [] && segs[0].Lit? && Leftmost(w, s, i, segs)
    ensures i < |s| && segs == Scan(w, s, i)
    decreases |segs|, 0
  {
    LeftmostLitTail(w, s, i, segs);
    LeftmostUnique(w, s, i + 1, segs[1..]);
    LeftmostUniqueLit(w, s, i, segs);
  }

  /** Uniqueness when the segmentation starts with a span. */
  lemma {:induction false} LeftmostUniqueSpanCase(w: char -> bool, s: string, i: nat, segs: seq<Segment>)
    requires segs != [] && segs[0].Span? && Leftmost(w, s, i, segs)
    ensures i < |s| && segs == Scan(w, s, i)
    decreases |segs|, 0
  {
    LeftmostSpanTail(w, s, i, segs);
    var e := i + |segs[0].text|;
    LeftmostUnique(w, s, e, segs[1..]);
    LeftmostUniqueSpan(w, s, i, segs, segs[0].kind, e);
  }

  /** A leftmost segmentation headed by a copied character continues with
      a leftmost segmentation of the rest. */
  lemma LeftmostLitTail(w: char -> bool, s: string, i: nat, segs: seq<Segment>)
    requires segs != [] && segs[0].Lit? && Leftmost(w, s, i, segs)
    ensures i < |s| && segs[0] == Lit(s[i]) && MatchAt(w, s, i).None?
    ensures Leftmost(w, s, i + 1, segs[1..])
  {
  }

  /** A leftmost segmentation headed by a span continues with a leftmost
      segmentation after it, and the span is the alternation's match. */
  lemma LeftmostSpanTail(w: char -> bool, s: string, i: nat, segs: seq<Segment>)
    requires segs != [] && segs[0].Span? && Leftmost(w, s, i, segs)
    ensures i < |s| && i + |segs[0].text| <= |s|
    ensures segs[0] == Span(segs[0].kind, s[i..i + |segs[0].text|])
    ensures MatchAt(w, s, i) == Some((segs[0].kind, i + |segs[0].text|))
    ensures Leftmost(w, s, i + |segs[0].text|, segs[1..])
  {
    HeadSpan(w, s, i, segs[0].kind, segs[0].text);
  }

  /** The scan copies the character heading a segmentation when no
      alternative matches there. */
  lemma LeftmostUniqueLit(w: char -> bool, s: string, i: nat, segs: seq<Segment>)
    requires i < |s| && MatchAt(w, s, i).None?
    requires segs != [] && segs[0] == Lit(s[i])
    requires segs[1..] == Scan(w, s, i + 1)
    ensures segs == Scan(w, s, i)
  {
    ScanLitStep(w, s, i);
    HeadAndTail(segs, Lit(s[i]), Scan(w, s, i + 1));
  }

  /** The scan takes the span heading a leftmost segmentation. */
  lemma LeftmostUniqueSpan(w: char -> bool, s: string, i: nat, segs: seq<Segment>, k: Kind, e: nat)
    requires i < |s| && i <= e <= |s| && MatchAt(w, s, i) == Some((k, e))
    requires segs != [] && segs[0] == Span(k, s[i..e])
    requires segs[1..] == Scan(w, s, e)
    ensures segs == Scan(w, s, i)
  {
    ScanSpanAt(w, s, i, k, e);
    HeadAndTail(segs, Span(k, s[i..e]), Scan(w, s, e));
  }

  /** A sequence with a given head and tail is the two joined. */
  lemma HeadAndTail(segs: seq<Segment>, hd: Segment, tl: seq<Segment>)
    requires segs != [] && segs[0] == hd && segs[1..] == tl
    ensures segs == [hd] + tl
  {
  }

  /** The scan at an unmatched character. */
  lemma ScanLitStep(w: char -> bool, s: string, i: nat)
    requires i < |s| && MatchAt(w, s, i).None?
    ensures Scan(w, s, i) == [Lit(s[i])] + Scan(w, s, i + 1)
  {
  }

  /** The scan at a match. */
  lemma ScanSpanStep(w: char -> bool, s: string, i: nat)
    requires i < |s| && MatchAt(w, s, i).Some?
    ensures Scan(w, s, i) == [Span(MatchAt(w, s, i).value.0, s[i..MatchAt(w, s, i).value.1])] + Scan(w, s, MatchAt(w, s, i).value.1)
  {
  }

  /** The scan at a match whose alternative and end are known. */
  lemma ScanSpanAt(w: char -> bool, s: string, i: nat, k: Kind, e: nat)
    requires i < |s| && MatchAt(w, s, i) == Some((k, e))
    ensures e <= |s| && Scan(w, s, i) == [Span(k, s[i..e])] + Scan(w, s, e)
  {
    ScanSpanStep(w, s, i);
  }

  /** A span matched by its alternative and by none listed before it is
      the match the scan takes. */
  lemma HeadSpan(w: char -> bool, s: string, i: nat, k: Kind, t: string)
    requires i < |s| && i + |t| <= |s| && s[i..i + |t|] == t && Spans(k, w, s, i, i + |t|)
    requires forall k', e: nat :: Rank(k') < Rank(k) ==> !Spans(k', w, s, i, e)
    ensures MatchAt(w, s, i) == Some((k, i + |t|))
  {
    var m := MatchAt(w, s, i);
    var k', e' := m.value.0, m.value.1;
    assert Rank(k') == Rank(k);
    RankInjective(k, k');
    SpanEndUnique(k, w, s, i, i + |t|, e');
  }

  /** An alternative matching at `i` has one end. */
  lemma SpanEndUnique(k: Kind, w: char -> bool, s: string, i: nat, e: nat, e': nat)
    requires i < |s| && Spans(k, w, s, i, e) && Spans(k, w, s, i, e')
    ensures e == e'
  {
    var r := Try(k, w, s, i);
  }

  /** Python's `str(n)` for a natural number. */
  function Digits(n: nat): (r: string)
    ensures |r| >= 1
    ensures forall i :: 0 <= i < |r| ==> '0' <= r[i] <= '9'
  {
    var d := ['0' + (n % 10) as char];
    if n < 10 then d else Digits(n / 10) + d
  }

  /** Distinct numbers have distinct decimal spellings. */
  lemma {:induction false} DigitsInjective(a: nat, b: nat)
    requires Digits(a) == Digits(b)
    ensures a == b
  {
    var da, db := Digits(a), Digits(b);
    assert da[|da| - 1] == '0' + (a % 10) as char;
    assert db[|db| - 1] == '0' + (b % 10) as char;
    assert a % 10 == b % 10;
    if a >= 10 && b >= 10 {
      assert Digits(a / 10) == da[..|da| - 1];
      assert Digits(b / 10) == db[..|db| - 1];
      DigitsInjective(a / 10, b / 10);
    }
  }

  /** The placeholder token for the `n`-th match: `__MD_<n>__`. */
  function Key(n: nat): string {
    "__MD_" + Digits(n) + "__"
  }

  /** The scanned message with spans numbered from `b`: a span whose number
      is below `j` shows its original text, any other span shows its token.
      `Render(segs, 0, 0)` is the protected text; after `j` restoration
      steps the text is `Render(segs, 0, j)`. */
  function Render(segs: seq<Segment>, b: nat, j: nat): string {
    if segs == [] then ""
    else
      match segs[0]
      case Lit(c) => [c] + Render(segs[1..], b, j)
      case Span(_, t) => (if b < j then t else Key(b)) + Render(segs[1..], b + 1, j)
  }

  /** The result of `_protect_special_format`: the protected text and the
      placeholder dictionary as its list of items in insertion order. */
  datatype Protection = Protection(text: string, placeholders: seq<(string, string)>)

  /** The items `(__MD_i__, v_i)` for the span texts `vs`. */
  function Items(vs: seq<string>): seq<(string, string)>
  {
    seq(|vs|, i requires 0 <= i < |vs| => (Key(i), vs[i]))
  }

  /** `_protect_special_format(text)`. */
  function Protect(w: char -> bool, text: string): (r: Protection)
    ensures var segs := Scan(w, text, 0);
      && Flatten(segs) == text
      && r.text == Render(segs, 0, 0)
      && |r.placeholders| == |Values(segs)|
      && forall i :: 0 <= i < |r.placeholders| ==>
           r.placeholders[i].0 == Key(i) && r.placeholders[i].1 == Values(segs)[i]
  {
    var segs := Scan(w, text, 0);
    Protection(Render(segs, 0, 0), Items(Values(segs)))
  }

  /** The dictionary built by assigning the items in order. */
  function Dict(ph: seq<(string, string)>): map<string, string> {
    if ph == [] then map[]
    else Dict(ph[..|ph| - 1])[ph[|ph| - 1].0 := ph[|ph| - 1].1]
  }

  /** The tokens of the first `n` matches. */
  ghost function KeySet(n: nat): set<string> {
    set i | 0 <= i < n :: Key(i)
  }

  /** There are `n` distinct tokens for `n` matches. */
  lemma {:induction false} KeySetSize(n: nat)
    ensures |KeySet(n)| == n
  {
    if n > 0 {
      KeySetSize(n - 1);
      assert KeySet(n) == KeySet(n - 1) + {Key(n - 1)};
      if Key(n - 1) in KeySet(n - 1) {
        var i :| 0 <= i < n - 1 && Key(i) == Key(n - 1);
        KeyInjective(i, n - 1);
      }
    } else {
      assert KeySet(0) == {};
    }
  }

  /** The dictionary built from the items of `vs` maps the token of match
      `i` to the `i`-th matched text, and holds no other key. */
  lemma {:induction false} DictOfItems(vs: seq<string>)
    ensures Dict(Items(vs)).Keys == KeySet(|vs|)
    ensures forall i :: 0 <= i < |vs| ==> Dict(Items(vs))[Key(i)] == vs[i]
  {
    if vs != [] {
      DictOfItems(vs[..|vs| - 1]);
      DictOfItemsStep(vs);
    } else {
      assert KeySet(0) == {};
    }
  }

  /** One more matched text: its token is added to the dictionary, and the
      earlier tokens keep their texts. */
  lemma DictOfItemsStep(vs: seq<string>)
    requires vs != []
    requires Dict(Items(vs[..|vs| - 1])).Keys == KeySet(|vs| - 1)
    requires forall i :: 0 <= i < |vs| - 1 ==> Dict(Items(vs[..|vs| - 1]))[Key(i)] == vs[..|vs| - 1][i]
    ensures Dict(Items(vs)).Keys == KeySet(|vs|)
    ensures forall i :: 0 <= i < |vs| ==> Dict(Items(vs))[Key(i)] == vs[i]
  {
    var n := |vs| - 1;
    DictOfItemsLast(vs);
    assert KeySet(|vs|) == KeySet(n) + {Key(n)};
    forall i | 0 <= i < |vs| ensures Dict(Items(vs))[Key(i)] == vs[i] {
      DictOfItemsAt(vs, i);
    }
  }

  /** The dictionary of all matches is that of all but the last, with the
      last token added. */
  lemma DictOfItemsLast(vs: seq<string>)
    requires vs != []
    ensures Dict(Items(vs)) == Dict(Items(vs[..|vs| - 1]))[Key(|vs| - 1) := vs[|vs| - 1]]
  {
    assert Items(vs)[..|vs| - 1] == Items(vs[..|vs| - 1]);
  }

  lemma DictOfItemsAt(vs: seq<string>, i: nat)
    requires vs != [] && i < |vs|
    requires Dict(Items(vs[..|vs| - 1])).Keys == KeySet(|vs| - 1)
    requires forall i :: 0 <= i < |vs| - 1 ==> Dict(Items(vs[..|vs| - 1]))[Key(i)] == vs[..|vs| - 1][i]
    requires Dict(Items(vs)) == Dict(Items(vs[..|vs| - 1]))[Key(|vs| - 1) := vs[|vs| - 1]]
    ensures Key(i) in Dict(Items(vs)) && Dict(Items(vs))[Key(i)] == vs[i]
  {
    var n := |vs| - 1;
    if i < n && Key(i) == Key(n) {
      KeyInjective(i, n);
    }
  }

  /** Token uniqueness: protecting a message with `n` matches yields a
      dictionary of exactly `n` entries, keyed `__MD_0__` ... `__MD_{n-1}__`,
      whose entry for `__MD_i__` is the `i`-th matched text. */
  lemma TokenUniqueness(w: char -> bool, text: string)
    ensures var vs := Values(Scan(w, text, 0));
      var d := Dict(Protect(w, text).placeholders);
      && d.Keys == KeySet(|vs|)
      && |d| == |vs|
      && forall i :: 0 <= i < |vs| ==> d[Key(i)] == vs[i]
  {
    var vs := Values(Scan(w, text, 0));
    assert Protect(w, text).placeholders == Items(vs);
    DictOfItems(vs);
    KeySetSize(|vs|);
    assert |Dict(Items(vs))| == |Dict(Items(vs)).Keys|;
  }

  /** Tokens for distinct numbers are distinct. */
  lemma KeyInjective(a: nat, b: nat)
    requires Key(a) == Key(b)
    ensures a == b
  {
    var da, db := Digits(a), Digits(b);
    assert |da| == |db|;
    assert da == Key(a)[5..5 + |da|];
    assert db == Key(b)[5..5 + |db|];
    DigitsInjective(a, b);
  }

  /** Ordered choice: where both `**` and a later `**` are present, the
      span is taken as bold, never as italic, even though the italic
      alternative would also match there. */
  lemma BoldBeforeItalic(w: char -> bool, s: string, i: nat, e: nat)
    requires i < |s| && Spans(Bold, w, s, i, e)
    ensures MatchAt(w, s, i) == Some((Bold, e))
  {
    var r := MatchAt(w, s, i);
    assert !Spans(Link, w, s, i, r.value.1);
    assert Try(Bold, w, s, i) == Some(e);
  }
}
