/** googletrans_translator.py: the msgstr values of a `.po` file read as raw
    text with a regular expression, unescaped and filtered
    (`extract_translations`), translated one by one with a fallback to the
    original (`translate_texts`), and written back by splitting the text at
    every `msgstr` opener and inserting the translations
    (`update_po_file`). File reading and writing, the network translator and
    the delays between requests are left out. */
module RawPo {
  import opened Wrappers
  import opened Strings

  // ---------------------------------------------------------------------
  // The opener `msgstr\s+"`, shared by the extraction pattern and by the
  // split pattern of the updater.
  // ---------------------------------------------------------------------

  /** `x` is exactly one opener: `msgstr`, at least one whitespace
      character, and a double quote. */
  predicate IsOpener(x: string) {
    |x| >= 8 && x[..6] == "msgstr" && x[|x| - 1] == '"'
    && forall p :: 6 <= p < |x| - 1 ==> IsSpace(x[p])
  }

  /** The end of the opener starting at `i`, if one does. The greedy `\s+`
      can only stop at the end of the whitespace run, since the quote that
      must follow is not whitespace. */
  function OpenerAt(s: string, i: nat): (r: Option<nat>)
    requires i <= |s|
    ensures forall e :: i <= e <= |s| ==> (IsOpener(s[i..e]) <==> r == Some(e))
    ensures r.Some? ==> i + 8 <= r.value <= |s|
  {
    OpenersFrom(s, i);
    if i + 6 <= |s| && s[i..i + 6] == "msgstr" then
      var q := SpaceEnd(s, i + 6);
      if q > i + 6 && q < |s| && s[q] == '"' then Some(q + 1) else None
    else None
  }

  /** An opener from `i` to `e` is `msgstr`, the whitespace run after it
      (which is not empty), and the quote ending that run. */
  lemma OpenerShape(s: string, i: nat, e: nat)
    requires i <= e <= |s|
    ensures IsOpener(s[i..e]) ==>
      i + 6 <= |s| && s[i..i + 6] == "msgstr" && SpaceEnd(s, i + 6) == e - 1 > i + 6 && s[e - 1] == '"'
  {
    var x := s[i..e];
    if IsOpener(x) {
      assert s[i..i + 6] == x[..6];
      assert forall p :: i + 6 <= p < e - 1 ==> s[p] == x[p - i];
      assert s[e - 1] == x[|x| - 1];
    }
  }

  /** Which `e` end an opener starting at `i`: exactly the one after the
      quote that ends the whitespace run after `msgstr`. */
  lemma OpenersFrom(s: string, i: nat)
    requires i <= |s|
    ensures forall e :: i <= e <= |s| ==>
      (IsOpener(s[i..e]) <==>
        i + 6 <= |s| && s[i..i + 6] == "msgstr" && SpaceEnd(s, i + 6) == e - 1 > i + 6 && s[e - 1] == '"')
  {
    forall e | i <= e <= |s|
      ensures IsOpener(s[i..e]) <==>
        i + 6 <= |s| && s[i..i + 6] == "msgstr" && SpaceEnd(s, i + 6) == e - 1 > i + 6 && s[e - 1] == '"'
    {
      OpenerShape(s, i, e);
      if i + 6 <= |s| && s[i..i + 6] == "msgstr" && SpaceEnd(s, i + 6) == e - 1 > i + 6 && s[e - 1] == '"' {
        var x := s[i..e];
        assert x[..6] == s[i..i + 6];
        assert forall p :: 6 <= p < |x| - 1 ==> x[p] == s[i + p];
      }
    }
  }

  // ---------------------------------------------------------------------
  // The value body `(?:[^"\\]|\\"|\\\\)*` and its closing quote
  // ---------------------------------------------------------------------

  /** `b` is a sequence of body items: a character other than a quote or a
      backslash, or one of the two escapes `\"` and `\\`. */
  predicate ValidBody(b: string)
    decreases |b|
  {
    if b == [] then true
    else if b[0] == '"' then false
    else if b[0] == '\\' then |b| >= 2 && (b[1] == '"' || b[1] == '\\') && ValidBody(b[2..])
    else ValidBody(b[1..])
  }

  /** The text a valid body denotes, item by item: each escape stands for
      the character after its backslash. */
  function Decode(b: string): string
    requires ValidBody(b)
    decreases |b|
  {
    if b == [] then []
    else if b[0] == '\\' then [b[1]] + Decode(b[2..])
    else [b[0]] + Decode(b[1..])
  }

  /** The greedy body scan from `p`: it stops at the first position where no
      item starts, having consumed a valid body. */
  function BodyEnd(s: string, p: nat): (e: nat)
    requires p <= |s|
    ensures p <= e <= |s|
    ensures ValidBody(s[p..e])
    ensures e < |s| && s[e] != '"' ==> s[e] == '\\' && (e + 1 == |s| || (s[e + 1] != '"' && s[e + 1] != '\\'))
    decreases |s| - p
  {
    if p == |s| || s[p] == '"' then p
    else if s[p] == '\\' then
      if p + 1 < |s| && (s[p + 1] == '"' || s[p + 1] == '\\') then
        var e := BodyEnd(s, p + 2);
        assert s[p..e][2..] == s[p + 2..e];
        e
      else p
    else
      var e := BodyEnd(s, p + 1);
      assert s[p..e][1..] == s[p + 1..e];
      e
  }

  /** A valid body followed by a quote is exactly what the scan consumes:
      no item starts with a quote, so the scan cannot stop earlier or run
      past it. */
  lemma {:induction false} BodyEndUnique(s: string, p: nat, e: nat)
    requires p <= e < |s| && s[e] == '"' && ValidBody(s[p..e])
    ensures BodyEnd(s, p) == e
    decreases e - p
  {
    if p < e {
      var b := s[p..e];
      assert b[0] == s[p];
      if s[p] == '\\' {
        assert b[1] == s[p + 1];
        assert b[2..] == s[p + 2..e];
        BodyEndUnique(s, p + 2, e);
      } else {
        assert b[1..] == s[p + 1..e];
        BodyEndUnique(s, p + 1, e);
      }
    }
  }

  // ---------------------------------------------------------------------
  // `pattern.findall(content)` with `msgstr\s+"((?:[^"\\]|\\"|\\\\)*)"`
  // ---------------------------------------------------------------------

  /** The extraction pattern matches at `i` with the opener `s[i..body]`,
      the valid body `s[body..close]` and the closing quote at `close`. */
  ghost predicate Matches(s: string, i: nat, body: nat, close: nat) {
    i <= body <= close < |s| && IsOpener(s[i..body]) && ValidBody(s[body..close]) && s[close] == '"'
  }

  /** Where a match puts its captured body and its closing quote. */
  datatype Match = Match(body: nat, close: nat)

  /** The pattern tried at `i`. There is at most one match: the opener's
      end is fixed, and so is the body's end, since no body item starts
      with a quote. */
  function MatchMsgstr(s: string, i: nat): (r: Option<Match>)
    requires i <= |s|
    ensures r.Some? ==> Matches(s, i, r.value.body, r.value.close)
    ensures forall b, c :: Matches(s, i, b, c) ==> r == Some(Match(b, c))
  {
    match OpenerAt(s, i)
    case None => None
    case Some(b) =>
      var c := BodyEnd(s, b);
      assert forall b', c' :: Matches(s, i, b', c') ==> b' == b && c' == c by {
        forall b', c' | Matches(s, i, b', c') ensures b' == b && c' == c {
          BodyEndUnique(s, b', c');
        }
      }
      if c < |s| && s[c] == '"' then Some(Match(b, c)) else None
  }

  /** A `msgstr[n]` plural slot never matches: the opener needs whitespace
      straight after `msgstr`. */
  lemma PluralNeverMatches(s: string, i: nat)
    requires i + 6 < |s| && s[i..i + 6] == "msgstr" && s[i + 6] == '['
    ensures MatchMsgstr(s, i) == None
  {
  }

  /** A match found by the scan: where it starts, where its body starts,
      and where its closing quote is. */
  datatype Hit = Hit(at: nat, body: nat, close: nat)

  /** Position `p` lies within one of the matches `hs`. */
  ghost predicate Covered(hs: seq<Hit>, p: nat) {
    exists k :: 0 <= k < |hs| && hs[k].at <= p <= hs[k].close
  }

  /** A position within the first match, or covered by the later ones, is
      covered by the whole list. */
  lemma CoveredCons(h: Hit, rest: seq<Hit>, p: nat)
    requires (h.at <= p <= h.close) || Covered(rest, p)
    ensures Covered([h] + rest, p)
  {
    var hs := [h] + rest;
    if h.at <= p <= h.close {
      assert hs[0] == h;
    } else {
      var k :| 0 <= k < |rest| && rest[k].at <= p <= rest[k].close;
      assert hs[k + 1] == rest[k];
    }
  }

  /** Each hit ends before the next one starts. */
  predicate Ordered(hs: seq<Hit>) {
    forall k :: 0 < k < |hs| ==> hs[k - 1].close < hs[k].at
  }

  /** Every match from a hit's start on lies within that hit or is
      covered by the hits after it. */
  lemma CoveredFrom(s: string, h: Hit, rest: seq<Hit>)
    requires forall p: nat, b, c :: h.close + 1 <= p && Matches(s, p, b, c) ==> Covered(rest, p)
    ensures forall p: nat, b, c :: h.at <= p && Matches(s, p, b, c) ==> Covered([h] + rest, p)
  {
    forall p: nat, b, c | h.at <= p && Matches(s, p, b, c) ensures Covered([h] + rest, p) {
      CoveredCons(h, rest, p);
    }
  }

  /** With no match at `i`, the matches from `i` on are those from `i + 1`
      on. */
  lemma CoveredSkip(s: string, i: nat, hs: seq<Hit>)
    requires i < |s| && MatchMsgstr(s, i).None?
    requires forall p: nat, b, c :: i + 1 <= p && Matches(s, p, b, c) ==> Covered(hs, p)
    ensures forall p: nat, b, c :: i <= p && Matches(s, p, b, c) ==> Covered(hs, p)
  {
  }

  /** Every hit of `hs` is a match starting at `i` or later. */
  ghost predicate AllMatch(s: string, hs: seq<Hit>, i: nat) {
    forall k :: 0 <= k < |hs| ==> i <= hs[k].at && Matches(s, hs[k].at, hs[k].body, hs[k].close)
  }

  /** A match in front of later matches. */
  lemma AllMatchCons(s: string, h: Hit, rest: seq<Hit>)
    requires Matches(s, h.at, h.body, h.close)
    requires AllMatch(s, rest, h.close + 1)
    requires Ordered(rest)
    ensures AllMatch(s, [h] + rest, h.at)
    ensures Ordered([h] + rest)
  {
    var hs := [h] + rest;
    forall k | 0 <= k < |hs| ensures h.at <= hs[k].at && Matches(s, hs[k].at, hs[k].body, hs[k].close) {
      if k > 0 { assert hs[k] == rest[k - 1]; }
    }
  }

  /** Matches from `i + 1` on are matches from `i` on. */
  lemma AllMatchWeaken(s: string, hs: seq<Hit>, i: nat)
    requires AllMatch(s, hs, i + 1)
    ensures AllMatch(s, hs, i)
  {
  }

  /** The matches `findall` reports from position `i` on: leftmost first,
      resuming after each match, so they come in file order, do not
      overlap, and every position where the pattern could match lies within
      one of them. */
  function HitsFrom(s: string, i: nat): (hs: seq<Hit>)
    requires i <= |s|
    ensures AllMatch(s, hs, i)
    ensures Ordered(hs)
    ensures forall p: nat, b, c :: i <= p && Matches(s, p, b, c) ==> Covered(hs, p)
    decreases |s| - i
  {
    if i == |s| then []
    else
      match MatchMsgstr(s, i)
      case None =>
        var hs := HitsFrom(s, i + 1);
        AllMatchWeaken(s, hs, i);
        CoveredSkip(s, i, hs);
        hs
      case Some(m) =>
        var h := Hit(i, m.body, m.close);
        var rest := HitsFrom(s, m.close + 1);
        AllMatchCons(s, h, rest);
        CoveredFrom(s, h, rest);
        [h] + rest
  }

  // ---------------------------------------------------------------------
  // Unescaping and filtering
  // ---------------------------------------------------------------------

  /** `match.replace('\\"', '"').replace('\\\\', '\\')`: escaped quotes
      first, then escaped backslashes. */
  function Unescape(g: string): (r: string)
    ensures ValidBody(g) ==> r == Decode(g)
  {
    TwoStepDecodes(g);
    ReplaceAll(ReplaceAll(g, "\\\"", "\""), "\\\\", "\\")
  }

  /** The two replacements, in this order, decode a valid body. */
  lemma TwoStepDecodes(g: string)
    ensures ValidBody(g) ==> ReplaceAll(ReplaceAll(g, "\\\"", "\""), "\\\\", "\\") == Decode(g)
  {
    if ValidBody(g) {
      UnescapeQuotes(g);
      UnescapeBackslashes(g);
    }
  }

  /** A valid body after its escaped quotes are replaced: escaped
      backslashes are still doubled. */
  function HalfDecoded(b: string): string
    requires ValidBody(b)
    decreases |b|
  {
    if b == [] then []
    else if b[0] == '\\' then (if b[1] == '"' then "\"" else "\\\\") + HalfDecoded(b[2..])
    else [b[0]] + HalfDecoded(b[1..])
  }

  /** The first replacement only meets real escaped quotes: a backslash
      that ends an escaped backslash is never followed by a quote. */
  lemma {:induction false} UnescapeQuotes(b: string)
    requires ValidBody(b)
    ensures ReplaceAll(b, "\\\"", "\"") == HalfDecoded(b)
    decreases |b|
  {
    var k := "\\\"";
    var v := "\"";
    if b == [] {
    } else if b[0] == '\\' && b[1] == '"' {
      assert b == k + b[2..];
      ReplaceHead(k, b[2..], v);
      UnescapeQuotes(b[2..]);
    } else if b[0] == '\\' {
      var rest := b[2..];
      assert b[..2] != k;
      ReplaceStep(b, k, v);
      assert b[1..] == "\\" + rest;
      if |rest| > 0 {
        assert rest[0] != '"';
        assert b[1..][..2] != k;
        ReplaceStep(b[1..], k, v);
      }
      assert b[1..][1..] == rest;
      UnescapeQuotes(rest);
      assert [b[0]] + ([b[1]] + HalfDecoded(rest)) == "\\\\" + HalfDecoded(rest);
    } else {
      ReplaceSkipPrefix([b[0]], b[1..], k, v);
      assert [b[0]] + b[1..] == b;
      UnescapeQuotes(b[1..]);
    }
  }

  /** The second replacement pairs the remaining backslashes up exactly as
      the escapes did. */
  lemma {:induction false} UnescapeBackslashes(b: string)
    requires ValidBody(b)
    ensures ReplaceAll(HalfDecoded(b), "\\\\", "\\") == Decode(b)
    decreases |b|
  {
    var k := "\\\\";
    var v := "\\";
    if b == [] {
    } else if b[0] == '\\' && b[1] == '"' {
      ReplaceSkipPrefix("\"", HalfDecoded(b[2..]), k, v);
      UnescapeBackslashes(b[2..]);
    } else if b[0] == '\\' {
      ReplaceHead(k, HalfDecoded(b[2..]), v);
      UnescapeBackslashes(b[2..]);
    } else {
      ReplaceSkipPrefix([b[0]], HalfDecoded(b[1..]), k, v);
      UnescapeBackslashes(b[1..]);
    }
  }

  /** On every body the pattern can capture, the two-step unescape is the
      item-by-item decoding. */
  lemma UnescapeDecodes(b: string)
    requires ValidBody(b)
    ensures Unescape(b) == Decode(b)
  {
    UnescapeQuotes(b);
    UnescapeBackslashes(b);
  }

  // ---------------------------------------------------------------------
  // `extract_translations`
  // ---------------------------------------------------------------------

  /** The captured body of a hit. */
  function Group(s: string, h: Hit): string
    requires h.body <= h.close <= |s|
  {
    s[h.body..h.close]
  }

  /** Every hit's body lies within the text. */
  predicate InBounds(s: string, hs: seq<Hit>) {
    forall k :: 0 <= k < |hs| ==> hs[k].body <= hs[k].close <= |s|
  }

  /** The unescaped bodies of `hs`, in order, keeping those that are not
      blank after `strip()`. */
  function Kept(s: string, hs: seq<Hit>): (r: seq<string>)
    requires InBounds(s, hs)
    ensures |r| <= |hs|
    ensures forall k :: 0 <= k < |r| ==> !IsBlank(r[k])
    ensures forall k :: 0 <= k < |r| ==> exists j :: 0 <= j < |hs| && r[k] == Unescape(Group(s, hs[j]))
    ensures forall j :: 0 <= j < |hs| && !IsBlank(Unescape(Group(s, hs[j]))) ==> Unescape(Group(s, hs[j])) in r
    decreases |hs|
  {
    if hs == [] then []
    else
      var t := Unescape(Group(s, hs[0]));
      var rest := Kept(s, hs[1..]);
      assert forall j :: 1 <= j < |hs| ==> hs[j] == hs[1..][j - 1];
      (if IsBlank(t) then [] else [t]) + rest
  }

  /** Filtering keeps file order: the values of two runs of hits are the
      values of the first run followed by those of the second. */
  lemma {:induction false} KeptAppend(s: string, a: seq<Hit>, b: seq<Hit>)
    requires InBounds(s, a) && InBounds(s, b)
    ensures InBounds(s, a + b)
    ensures Kept(s, a + b) == Kept(s, a) + Kept(s, b)
    decreases |a|
  {
    if a != [] {
      var h, a' := a[0], a[1..];
      assert a == [h] + a';
      assert a + b == [h] + (a' + b);
      KeptAppend(s, a', b);
      KeptCons(s, h, a');
      KeptCons(s, h, a' + b);
      KeptFront(Unescape(Group(s, h)), Kept(s, a'), Kept(s, b));
    } else {
      assert a + b == b;
    }
  }

  /** One hit in front: its value, unless blank, followed by the rest's. */
  lemma KeptCons(s: string, h: Hit, rest: seq<Hit>)
    requires h.body <= h.close <= |s| && InBounds(s, rest)
    ensures InBounds(s, [h] + rest)
    ensures Kept(s, [h] + rest) ==
      (if IsBlank(Unescape(Group(s, h))) then [] else [Unescape(Group(s, h))]) + Kept(s, rest)
  {
    assert ([h] + rest)[1..] == rest;
  }

  /** Keeping a value in front commutes with appending. */
  lemma KeptFront(t: string, x: seq<string>, y: seq<string>)
    ensures (if IsBlank(t) then [] else [t]) + (x + y) == ((if IsBlank(t) then [] else [t]) + x) + y
  {
  }

  /** Matches lie within the text. */
  lemma AllMatchInBounds(s: string, hs: seq<Hit>, i: nat)
    requires AllMatch(s, hs, i)
    ensures InBounds(s, hs)
  {
    forall k | 0 <= k < |hs| ensures hs[k].body <= hs[k].close <= |s| {
      assert Matches(s, hs[k].at, hs[k].body, hs[k].close);
    }
  }

  /** `extract_translations`: every non-blank unescaped msgstr value the
      pattern finds, in file order. */
  function Extract(s: string): (r: seq<string>)
    ensures |r| <= |HitsFrom(s, 0)|
    ensures forall k :: 0 <= k < |r| ==> !IsBlank(r[k])
  {
    var hs := HitsFrom(s, 0);
    AllMatchInBounds(s, hs, 0);
    Kept(s, hs)
  }

  /** Every extracted string is the decoding of a body the pattern
      matches, so a value holding any other escape than `\"` or `\\` is
      never extracted. */
  lemma ExtractSound(s: string, k: nat)
    requires k < |Extract(s)|
    ensures exists h: Hit :: Matches(s, h.at, h.body, h.close) && Extract(s)[k] == Decode(s[h.body..h.close])
  {
    var hs := HitsFrom(s, 0);
    AllMatchInBounds(s, hs, 0);
    var j :| 0 <= j < |hs| && Extract(s)[k] == Unescape(Group(s, hs[j]));
    var h := hs[j];
    assert Matches(s, h.at, h.body, h.close);
    UnescapeDecodes(s[h.body..h.close]);
    assert Extract(s)[k] == Decode(s[h.body..h.close]);
  }

  /** Every match the scan reports whose decoded value is not blank is
      extracted. */
  lemma ExtractComplete(s: string, j: nat)
    requires j < |HitsFrom(s, 0)|
    ensures var h := HitsFrom(s, 0)[j];
      h.body <= h.close <= |s| && ValidBody(s[h.body..h.close])
      && (!IsBlank(Decode(s[h.body..h.close])) ==> Decode(s[h.body..h.close]) in Extract(s))
  {
    var hs := HitsFrom(s, 0);
    AllMatchInBounds(s, hs, 0);
    assert Matches(s, hs[j].at, hs[j].body, hs[j].close);
    UnescapeDecodes(s[hs[j].body..hs[j].close]);
  }

  // ---------------------------------------------------------------------
  // `translate_texts`
  // ---------------------------------------------------------------------

  /** `translate_texts(texts)`: the texts are sent to the translator one by
      one, `tr(i, text)` being the outcome of the `i`-th request (`None`
      for a raised exception). A failed request keeps the original text, so
      the output lines up with the input. */
  method TranslateTexts(texts: seq<string>, tr: (nat, string) -> Option<string>) returns (out: seq<string>)
    ensures |out| == |texts|
    ensures forall i :: 0 <= i < |texts| && tr(i, texts[i]).None? ==> out[i] == texts[i]
    ensures forall i :: 0 <= i < |texts| && tr(i, texts[i]).Some? ==> out[i] == tr(i, texts[i]).value
  {
    out := [];
    var i := 0;
    while i < |texts|
      invariant i <= |texts| && |out| == i
      invariant forall j :: 0 <= j < i && tr(j, texts[j]).None? ==> out[j] == texts[j]
      invariant forall j :: 0 <= j < i && tr(j, texts[j]).Some? ==> out[j] == tr(j, texts[j]).value
    {
      match tr(i, texts[i]) {
        case Some(t) => out := out + [t];
        case None => out := out + [texts[i]];
      }
      i := i + 1;
    }
  }

  // ---------------------------------------------------------------------
  // `update_po_file`
  // ---------------------------------------------------------------------

  /** `''.join(parts)` */
  function Concat(parts: seq<string>): string
    decreases |parts|
  {
    if parts == [] then [] else parts[0] + Concat(parts[1..])
  }

  /** `re.split(r'(msgstr\s+")', s)` from scan position `i`, the current
      text part having started at `start`: text parts alternate with the
      captured openers, the first and last parts being text. */
  function SplitFrom(s: string, start: nat, i: nat): (parts: seq<string>)
    requires start <= i <= |s|
    ensures |parts| % 2 == 1
    ensures Concat(parts) == s[start..]
    ensures forall k :: 0 <= k < |parts| && k % 2 == 1 ==> IsOpener(parts[k])
    ensures OpenersAtOdd(parts, false)
    decreases |s| - i
  {
    if i == |s| then
      assert Concat([s[start..]]) == s[start..] + Concat([]);
      [s[start..]]
    else
      match OpenerAt(s, i)
      case None => SplitFrom(s, start, i + 1)
      case Some(e) =>
        var rest := SplitFrom(s, e, e);
        SplitCons(s[start..i], s[i..e], rest);
        assert s[start..] == s[start..i] + (s[i..e] + s[e..]);
        [s[start..i], s[i..e]] + rest
  }

  /** A text part and an opener in front of a split keep its shape. */
  lemma SplitCons(a: string, b: string, rest: seq<string>)
    requires IsOpener(b) && |rest| % 2 == 1
    requires forall k :: 0 <= k < |rest| && k % 2 == 1 ==> IsOpener(rest[k])
    requires OpenersAtOdd(rest, false)
    ensures |[a, b] + rest| % 2 == 1
    ensures Concat([a, b] + rest) == a + (b + Concat(rest))
    ensures forall k :: 0 <= k < |[a, b] + rest| && k % 2 == 1 ==> IsOpener(([a, b] + rest)[k])
    ensures OpenersAtOdd([a, b] + rest, false)
  {
    var parts := [a, b] + rest;
    assert parts[1..] == [b] + rest;
    assert parts[1..][1..] == rest;
    forall k | 0 <= k < |parts| && k % 2 == 1
      ensures IsOpener(parts[k])
    {
      if k > 1 {
        assert parts[k] == rest[k - 2];
        assert (k - 2) % 2 == 1;
      }
    }
  }

  /** The split of the whole file: every opener in it is cut out, none is
      left inside a text part. */
  function Split(s: string): (parts: seq<string>)
    ensures |parts| % 2 == 1
    ensures Concat(parts) == s
    ensures forall k :: 0 <= k < |parts| && k % 2 == 1 ==> IsOpener(parts[k])
    ensures OpenersAtOdd(parts, false)
    ensures TextPartsOpenerFree(s, 0, parts, false)
  {
    SplitFromMaximal(s, 0, 0);
    SplitFrom(s, 0, 0)
  }

  /** No opener starts inside a text part: the parts of `s` from offset
      `o` on, the first being a text part unless `odd` holds. */
  ghost predicate TextPartsOpenerFree(s: string, o: nat, parts: seq<string>, odd: bool)
    decreases |parts|
  {
    parts == [] ||
    ((odd || forall p :: o <= p < o + |parts[0]| && p <= |s| ==> OpenerAt(s, p).None?)
     && TextPartsOpenerFree(s, o + |parts[0]|, parts[1..], !odd))
  }

  /** The scan cuts out every opener: when none starts in `s[start..i]`,
      none starts in any text part of the split from there. */
  lemma {:induction false} SplitFromMaximal(s: string, start: nat, i: nat)
    requires start <= i <= |s|
    requires forall p :: start <= p < i ==> OpenerAt(s, p).None?
    ensures TextPartsOpenerFree(s, start, SplitFrom(s, start, i), false)
    decreases |s| - i
  {
    if i == |s| {
      var parts := SplitFrom(s, start, i);
      assert parts == [s[start..]];
      assert parts[1..] == [];
    } else {
      match OpenerAt(s, i)
      case None =>
        SplitFromMaximal(s, start, i + 1);
      case Some(e) =>
        SplitFromMaximal(s, e, e);
        var rest := SplitFrom(s, e, e);
        assert SplitFrom(s, start, i) == [s[start..i], s[i..e]] + rest;
        OpenerFreeCons(s, start, i, e, rest);
    }
  }

  /** A text part without openers and an opener part in front of a split
      whose text parts have none. */
  lemma OpenerFreeCons(s: string, start: nat, i: nat, e: nat, rest: seq<string>)
    requires start <= i <= e <= |s|
    requires forall p :: start <= p < i ==> OpenerAt(s, p).None?
    requires TextPartsOpenerFree(s, e, rest, false)
    ensures TextPartsOpenerFree(s, start, [s[start..i], s[i..e]] + rest, false)
  {
    var parts := [s[start..i], s[i..e]] + rest;
    assert parts[1..] == [s[i..e]] + rest;
    assert parts[1..][1..] == rest;
    assert TextPartsOpenerFree(s, i, parts[1..], true);
  }

  /** The pieces of the rewritten file: a part of the original, or a
      translation inserted between parts. */
  datatype Piece = Original(text: string) | Inserted(text: string)

  /** The file text the pieces make up. */
  function Texts(ps: seq<Piece>): string
    decreases |ps|
  {
    if ps == [] then [] else ps[0].text + Texts(ps[1..])
  }

  /** The original parts among the pieces, in order. */
  function Originals(ps: seq<Piece>): seq<string>
    decreases |ps|
  {
    if ps == [] then [] else (if ps[0].Original? then [ps[0].text] else []) + Originals(ps[1..])
  }

  /** The inserted texts among the pieces, in order. */
  function Insertions(ps: seq<Piece>): seq<string>
    decreases |ps|
  {
    if ps == [] then [] else (if ps[0].Inserted? then [ps[0].text] else []) + Insertions(ps[1..])
  }

  /** `t.replace('"', '\\"')`: quotes are escaped, backslashes are not.
      A text without backslashes escapes to a body the extraction pattern
      accepts, decoding back to the text. */
  function Escape(t: string): (r: string)
    ensures (forall i :: 0 <= i < |t| ==> t[i] != '\\') ==> ValidBody(r) && Decode(r) == t
  {
    QuoteEscapeWithoutBackslash(t);
    ReplaceAll(t, "\"", "\\\"")
  }

  /** Quote-escaping decodes back whenever the text has no backslash. */
  lemma QuoteEscapeWithoutBackslash(t: string)
    ensures (forall i :: 0 <= i < |t| ==> t[i] != '\\') ==>
      ValidBody(ReplaceAll(t, "\"", "\\\"")) && Decode(ReplaceAll(t, "\"", "\\\"")) == t
  {
    if forall i :: 0 <= i < |t| ==> t[i] != '\\' {
      QuoteEscapeDecodes(t);
    }
  }

  /** Each translation escaped. */
  function EscapeAll(ts: seq<string>): (r: seq<string>)
    ensures |r| == |ts|
    decreases |ts|
  {
    if ts == [] then [] else [Escape(ts[0])] + EscapeAll(ts[1..])
  }

  /** How many parts start with `msgstr`. */
  function CountMsgstr(parts: seq<string>): nat
    decreases |parts|
  {
    if parts == [] then 0 else (if StartsWith(parts[0], "msgstr") then 1 else 0) + CountMsgstr(parts[1..])
  }

  function Min(a: nat, b: nat): nat {
    if a <= b then a else b
  }

  /** The next `c` translations from `ts[n]` on, or as many as remain. */
  function TakeFrom(ts: seq<string>, n: nat, c: nat): seq<string>
    requires n <= |ts|
  {
    ts[n..n + Min(c, |ts| - n)]
  }

  /** Taking one more translation, when one is left, takes `ts[n]` first. */
  lemma TakeFromCons(ts: seq<string>, n: nat, c: nat, m: nat)
    requires n < |ts| && m == c + 1
    ensures TakeFrom(ts, n, m) == [ts[n]] + TakeFrom(ts, n + 1, c)
  {
  }

  /** Nothing is taken once the translations are used up. */
  lemma TakeFromEnd(ts: seq<string>, c: nat)
    ensures TakeFrom(ts, |ts|, c) == []
  {
  }

  /** Nothing is taken when nothing is asked for. */
  lemma TakeFromZero(ts: seq<string>, n: nat)
    requires n <= |ts|
    ensures TakeFrom(ts, n, 0) == []
  {
  }

  /** An insertion directly follows an original part starting with
      `msgstr`. */
  predicate InsertsAfterMsgstr(ps: seq<Piece>) {
    forall k :: 0 <= k < |ps| && ps[k].Inserted? ==>
      0 < k && ps[k - 1].Original? && StartsWith(ps[k - 1].text, "msgstr")
  }

  /** The three views of a piece list, one piece at a time. */
  lemma PiecesCons(a: Piece, rest: seq<Piece>)
    ensures Texts([a] + rest) == a.text + Texts(rest)
    ensures Originals([a] + rest) == (if a.Original? then [a.text] else []) + Originals(rest)
    ensures Insertions([a] + rest) == (if a.Inserted? then [a.text] else []) + Insertions(rest)
  {
    assert ([a] + rest)[1..] == rest;
  }

  /** Escaping a list one translation at a time. */
  lemma EscapeAllCons(t: string, r: seq<string>)
    ensures EscapeAll([t] + r) == [Escape(t)] + EscapeAll(r)
  {
    assert ([t] + r)[1..] == r;
  }

  /** The loop of `update_po_file` from part `parts[0]` on, the next
      translation being `ts[n]`: after every part that starts with `msgstr`,
      while translations remain, the next escaped translation is inserted.
      The original parts are all kept. */
  function UpdatePieces(parts: seq<string>, ts: seq<string>, n: nat): (ps: seq<Piece>)
    requires n <= |ts|
    ensures Originals(ps) == parts
    ensures InsertsAfterMsgstr(ps)
    decreases |parts|
  {
    if parts == [] then
      assert ts[n..n] == [];
      []
    else
      var p := parts[0];
      assert parts == [p] + parts[1..];
      if StartsWith(p, "msgstr") && n < |ts| then
        var rest := UpdatePieces(parts[1..], ts, n + 1);
        var ins := [Inserted(Escape(ts[n]))] + rest;
        PiecesCons(Inserted(Escape(ts[n])), rest);
        PiecesCons(Original(p), ins);
        var ps := [Original(p)] + ins;
        assert forall k :: 2 <= k < |ps| ==> ps[k] == rest[k - 2];
        ps
      else
        var rest := UpdatePieces(parts[1..], ts, n);
        PiecesCons(Original(p), rest);
        var ps := [Original(p)] + rest;
        assert forall k :: 1 <= k < |ps| ==> ps[k] == rest[k - 1];
        ps
  }

  /** The inserted texts are the escaped translations from `ts[n]` on, one
      per part starting with `msgstr`, as many as both allow. */
  lemma {:induction false} UpdateInsertions(parts: seq<string>, ts: seq<string>, n: nat)
    requires n <= |ts|
    ensures Insertions(UpdatePieces(parts, ts, n)) == EscapeAll(TakeFrom(ts, n, CountMsgstr(parts)))
    decreases |parts|
  {
    if parts == [] {
      TakeFromZero(ts, n);
    } else if StartsWith(parts[0], "msgstr") && n < |ts| {
      UpdateInsertions(parts[1..], ts, n + 1);
      InsertionsStepInsert(parts, ts, n);
    } else {
      UpdateInsertions(parts[1..], ts, n);
      InsertionsStepSkip(parts, ts, n);
    }
  }

  /** A part starting with `msgstr` while translations remain takes the
      next one. */
  lemma InsertionsStepInsert(parts: seq<string>, ts: seq<string>, n: nat)
    requires parts != [] && StartsWith(parts[0], "msgstr") && n < |ts|
    requires Insertions(UpdatePieces(parts[1..], ts, n + 1)) == EscapeAll(TakeFrom(ts, n + 1, CountMsgstr(parts[1..])))
    ensures Insertions(UpdatePieces(parts, ts, n)) == EscapeAll(TakeFrom(ts, n, CountMsgstr(parts)))
  {
    InsertionsTakeOne(parts, ts, n);
    var c := CountMsgstr(parts[1..]);
    CountAfterMsgstr(parts);
    TakeFromCons(ts, n, c, CountMsgstr(parts));
    EscapeAllCons(ts[n], TakeFrom(ts, n + 1, c));
  }

  /** At a part starting with `msgstr`, with translations left, the loop
      inserts the next one and carries on. */
  lemma InsertionsTakeOne(parts: seq<string>, ts: seq<string>, n: nat)
    requires parts != [] && StartsWith(parts[0], "msgstr") && n < |ts|
    ensures Insertions(UpdatePieces(parts, ts, n)) == [Escape(ts[n])] + Insertions(UpdatePieces(parts[1..], ts, n + 1))
  {
    var rest := UpdatePieces(parts[1..], ts, n + 1);
    var ins := [Inserted(Escape(ts[n]))] + rest;
    assert UpdatePieces(parts, ts, n) == [Original(parts[0])] + ins;
    PiecesCons(Inserted(Escape(ts[n])), rest);
    PiecesCons(Original(parts[0]), ins);
  }

  /** A part starting with `msgstr` counts once. */
  lemma CountAfterMsgstr(parts: seq<string>)
    requires parts != [] && StartsWith(parts[0], "msgstr")
    ensures CountMsgstr(parts) == CountMsgstr(parts[1..]) + 1
  {
  }

  /** Any other part takes nothing. */
  lemma InsertionsStepSkip(parts: seq<string>, ts: seq<string>, n: nat)
    requires parts != [] && !(StartsWith(parts[0], "msgstr") && n < |ts|) && n <= |ts|
    requires Insertions(UpdatePieces(parts[1..], ts, n)) == EscapeAll(TakeFrom(ts, n, CountMsgstr(parts[1..])))
    ensures Insertions(UpdatePieces(parts, ts, n)) == EscapeAll(TakeFrom(ts, n, CountMsgstr(parts)))
  {
    InsertionsKeepOne(parts, ts, n);
    if StartsWith(parts[0], "msgstr") {
      TakeFromEnd(ts, CountMsgstr(parts));
      TakeFromEnd(ts, CountMsgstr(parts[1..]));
    } else {
      assert CountMsgstr(parts) == CountMsgstr(parts[1..]);
    }
  }

  /** Any other part is kept and nothing is inserted after it. */
  lemma InsertionsKeepOne(parts: seq<string>, ts: seq<string>, n: nat)
    requires parts != [] && !(StartsWith(parts[0], "msgstr") && n < |ts|) && n <= |ts|
    ensures Insertions(UpdatePieces(parts, ts, n)) == Insertions(UpdatePieces(parts[1..], ts, n))
  {
    var rest := UpdatePieces(parts[1..], ts, n);
    assert UpdatePieces(parts, ts, n) == [Original(parts[0])] + rest;
    PiecesCons(Original(parts[0]), rest);
  }

  /** `update_po_file` on the file text `s`: the text written back. */
  function Update(s: string, ts: seq<string>): (r: string)
    ensures ts == [] ==> r == s
  {
    if ts == [] then
      NothingInserted(Split(s), ts);
      Texts(UpdatePieces(Split(s), ts, 0))
    else Texts(UpdatePieces(Split(s), ts, 0))
  }

  /** Without translations left to insert, the pieces spell the parts. */
  lemma {:induction false} NothingInserted(parts: seq<string>, ts: seq<string>)
    ensures Texts(UpdatePieces(parts, ts, |ts|)) == Concat(parts)
    decreases |parts|
  {
    if parts != [] {
      var rest := UpdatePieces(parts[1..], ts, |ts|);
      assert UpdatePieces(parts, ts, |ts|) == [Original(parts[0])] + rest;
      PiecesCons(Original(parts[0]), rest);
      NothingInserted(parts[1..], ts);
    }
  }

  /** With no translations the file is written back unchanged. */
  lemma UpdateWithoutTranslations(s: string)
    ensures Update(s, []) == s
  {
    NothingInserted(Split(s), []);
  }

  /** The original text survives every update: deleting the inserted
      strings gives back the file, so each old msgstr value stays in place
      right after the inserted translation. */
  lemma UpdateKeepsOriginal(s: string, ts: seq<string>)
    ensures Concat(Originals(UpdatePieces(Split(s), ts, 0))) == s
  {
  }

  /** An update inserts `min(#parts starting with msgstr, #translations)`
      escaped translations, in order. */
  lemma UpdateInsertionCount(s: string, ts: seq<string>)
    ensures Insertions(UpdatePieces(Split(s), ts, 0)) == EscapeAll(ts[..Min(CountMsgstr(Split(s)), |ts|)])
    ensures |Insertions(UpdatePieces(Split(s), ts, 0))| == Min(CountMsgstr(Split(s)), |ts|)
  {
    UpdateInsertions(Split(s), ts, 0);
    assert TakeFrom(ts, 0, CountMsgstr(Split(s))) == ts[..Min(CountMsgstr(Split(s)), |ts|)];
  }

  // ---------------------------------------------------------------------
  // Which translation goes after which part
  // ---------------------------------------------------------------------

  /** How many of the first `k` pieces are insertions. */
  function InsertedBefore(ps: seq<Piece>, k: nat): (r: nat)
    requires k <= |ps|
    ensures r <= k
    decreases k
  {
    if k == 0 then 0 else InsertedBefore(ps, k - 1) + (if ps[k - 1].Inserted? then 1 else 0)
  }

  /** Counting insertions behind one more piece in front. */
  lemma {:induction false} InsertedBeforeCons(a: Piece, rest: seq<Piece>, k: nat)
    requires k <= |rest|
    ensures InsertedBefore([a] + rest, k + 1) == (if a.Inserted? then 1 else 0) + InsertedBefore(rest, k)
    decreases k
  {
    if k > 0 {
      InsertedBeforeCons(a, rest, k - 1);
      assert ([a] + rest)[k] == rest[k - 1];
    }
  }

  /** Every original piece is the part whose index is its own position
      less the insertions in front of it. */
  predicate PartsInPlace(ps: seq<Piece>, parts: seq<string>) {
    forall k {:trigger InsertedBefore(ps, k)} :: 0 <= k < |ps| && ps[k].Original? ==>
      k - InsertedBefore(ps, k) < |parts| && ps[k].text == parts[k - InsertedBefore(ps, k)]
  }

  /** The j-th insertion is translation `ts[n + j]`, escaped by `esc`. */
  predicate InsertsInTurn(ps: seq<Piece>, ts: seq<string>, n: nat, esc: string -> string) {
    forall k {:trigger InsertedBefore(ps, k)} :: 0 <= k < |ps| && ps[k].Inserted? ==>
      n + InsertedBefore(ps, k) < |ts| && ps[k].text == esc(ts[n + InsertedBefore(ps, k)])
  }

  /** Every original piece starting with `msgstr` is followed by an
      insertion while translations are left. */
  predicate MsgstrPartsFilled(ps: seq<Piece>, ts: seq<string>, n: nat) {
    forall k {:trigger InsertedBefore(ps, k)} :: 0 <= k < |ps| && ps[k].Original? && StartsWith(ps[k].text, "msgstr")
                && n + InsertedBefore(ps, k) < |ts|
             ==> k + 1 < |ps| && ps[k + 1].Inserted?
  }

  /** One more piece in front of pieces that keep the parts in place, at
      one position. */
  lemma PartsInPlaceConsAt(a: Piece, rest: seq<Piece>, parts: seq<string>, k: nat)
    requires a.Original? ==> parts != [] && a.text == parts[0]
    requires PartsInPlace(rest, if a.Original? then parts[1..] else parts)
    requires k < |[a] + rest| && ([a] + rest)[k].Original?
    ensures k - InsertedBefore([a] + rest, k) < |parts|
    ensures ([a] + rest)[k].text == parts[k - InsertedBefore([a] + rest, k)]
  {
    var ps := [a] + rest;
    if k > 0 {
      InsertedBeforeCons(a, rest, k - 1);
      assert ps[k] == rest[k - 1];
      var q := if a.Original? then parts[1..] else parts;
      var j := k - 1 - InsertedBefore(rest, k - 1);
      assert j < |q| && rest[k - 1].text == q[j];
      if a.Original? {
        assert k - InsertedBefore(ps, k) == j + 1;
        assert q[j] == parts[j + 1];
      } else {
        assert k - InsertedBefore(ps, k) == j;
      }
    }
  }

  /** One more piece in front of pieces that keep the parts in place. */
  lemma PartsInPlaceCons(a: Piece, rest: seq<Piece>, parts: seq<string>)
    requires a.Original? ==> parts != [] && a.text == parts[0]
    requires PartsInPlace(rest, if a.Original? then parts[1..] else parts)
    ensures PartsInPlace([a] + rest, parts)
  {
    forall k | 0 <= k < |[a] + rest| && ([a] + rest)[k].Original?
      ensures k - InsertedBefore([a] + rest, k) < |parts|
           && ([a] + rest)[k].text == parts[k - InsertedBefore([a] + rest, k)]
    {
      PartsInPlaceConsAt(a, rest, parts, k);
    }
  }

  /** One more piece in front of pieces that take the translations in
      turn, at one position. */
  lemma InsertsInTurnConsAt(a: Piece, rest: seq<Piece>, ts: seq<string>, n: nat, esc: string -> string, k: nat)
    requires a.Inserted? ==> n < |ts| && a.text == esc(ts[n])
    requires InsertsInTurn(rest, ts, if a.Inserted? then n + 1 else n, esc)
    requires k < |[a] + rest| && ([a] + rest)[k].Inserted?
    ensures n + InsertedBefore([a] + rest, k) < |ts|
    ensures ([a] + rest)[k].text == esc(ts[n + InsertedBefore([a] + rest, k)])
  {
    if k > 0 {
      InsertedBeforeCons(a, rest, k - 1);
      assert ([a] + rest)[k] == rest[k - 1];
    }
  }

  /** One more piece in front of pieces that take the translations in
      turn. */
  lemma InsertsInTurnCons(a: Piece, rest: seq<Piece>, ts: seq<string>, n: nat, esc: string -> string)
    requires a.Inserted? ==> n < |ts| && a.text == esc(ts[n])
    requires InsertsInTurn(rest, ts, if a.Inserted? then n + 1 else n, esc)
    ensures InsertsInTurn([a] + rest, ts, n, esc)
  {
    forall k | 0 <= k < |[a] + rest| && ([a] + rest)[k].Inserted?
      ensures n + InsertedBefore([a] + rest, k) < |ts|
           && ([a] + rest)[k].text == esc(ts[n + InsertedBefore([a] + rest, k)])
    {
      InsertsInTurnConsAt(a, rest, ts, n, esc, k);
    }
  }

  /** One more piece in front of pieces that fill every `msgstr` part while
      translations last, at one position. */
  lemma MsgstrPartsFilledConsAt(a: Piece, rest: seq<Piece>, ts: seq<string>, n: nat, k: nat)
    requires a.Original? && StartsWith(a.text, "msgstr") && n < |ts| ==> rest != [] && rest[0].Inserted?
    requires MsgstrPartsFilled(rest, ts, if a.Inserted? then n + 1 else n)
    requires k < |[a] + rest| && ([a] + rest)[k].Original? && StartsWith(([a] + rest)[k].text, "msgstr")
    requires n + InsertedBefore([a] + rest, k) < |ts|
    ensures k + 1 < |[a] + rest| && ([a] + rest)[k + 1].Inserted?
  {
    var ps := [a] + rest;
    if k == 0 {
      assert ps[1] == rest[0];
    } else {
      InsertedBeforeCons(a, rest, k - 1);
      assert ps[k] == rest[k - 1];
      assert k < |rest| && rest[k].Inserted?;
      assert ps[k + 1] == rest[k];
    }
  }

  /** One more piece in front of pieces that fill every `msgstr` part while
      translations last. */
  lemma MsgstrPartsFilledCons(a: Piece, rest: seq<Piece>, ts: seq<string>, n: nat)
    requires a.Original? && StartsWith(a.text, "msgstr") && n < |ts| ==> rest != [] && rest[0].Inserted?
    requires MsgstrPartsFilled(rest, ts, if a.Inserted? then n + 1 else n)
    ensures MsgstrPartsFilled([a] + rest, ts, n)
  {
    forall k | 0 <= k < |[a] + rest| && ([a] + rest)[k].Original? && StartsWith(([a] + rest)[k].text, "msgstr")
               && n + InsertedBefore([a] + rest, k) < |ts|
      ensures k + 1 < |[a] + rest| && ([a] + rest)[k + 1].Inserted?
    {
      MsgstrPartsFilledConsAt(a, rest, ts, n, k);
    }
  }

  /** Where the loop of `update_po_file` puts the translations: each part
      keeps its place, the j-th insertion is `ts[n + j]` escaped, and every
      part starting with `msgstr` gets one while translations are left. So
      the j-th translation follows the j-th part starting with `msgstr`. */
  lemma {:induction false} UpdatePlacement(parts: seq<string>, ts: seq<string>, n: nat)
    requires n <= |ts|
    ensures PartsInPlace(UpdatePieces(parts, ts, n), parts)
    ensures InsertsInTurn(UpdatePieces(parts, ts, n), ts, n, Escape)
    ensures MsgstrPartsFilled(UpdatePieces(parts, ts, n), ts, n)
    decreases |parts|
  {
    if parts != [] {
      var p := parts[0];
      if StartsWith(p, "msgstr") && n < |ts| {
        var rest := UpdatePieces(parts[1..], ts, n + 1);
        UpdatePlacement(parts[1..], ts, n + 1);
        var x := Inserted(Escape(ts[n]));
        PartsInPlaceCons(x, rest, parts[1..]);
        PartsInPlaceCons(Original(p), [x] + rest, parts);
        InsertsInTurnCons(x, rest, ts, n, Escape);
        InsertsInTurnCons(Original(p), [x] + rest, ts, n, Escape);
        MsgstrPartsFilledCons(x, rest, ts, n);
        MsgstrPartsFilledCons(Original(p), [x] + rest, ts, n);
      } else {
        var rest := UpdatePieces(parts[1..], ts, n);
        UpdatePlacement(parts[1..], ts, n);
        PartsInPlaceCons(Original(p), rest, parts);
        InsertsInTurnCons(Original(p), rest, ts, n, Escape);
        MsgstrPartsFilledCons(Original(p), rest, ts, n);
      }
    }
  }

  // ---------------------------------------------------------------------
  // Escaping inserted text
  // ---------------------------------------------------------------------

  /** Replacing every quote by an escaped quote in a text without
      backslashes gives a valid body that decodes back to the text. */
  lemma {:induction false} QuoteEscapeDecodes(t: string)
    requires forall i :: 0 <= i < |t| ==> t[i] != '\\'
    ensures ValidBody(ReplaceAll(t, "\"", "\\\"")) && Decode(ReplaceAll(t, "\"", "\\\"")) == t
    decreases |t|
  {
    var k := "\"";
    var v := "\\\"";
    if t != [] {
      assert t == [t[0]] + t[1..];
      QuoteEscapeDecodes(t[1..]);
      var r := ReplaceAll(t[1..], k, v);
      if t[0] == '"' {
        assert t == k + t[1..];
        ReplaceHead(k, t[1..], v);
        assert ReplaceAll(t, k, v) == v + r;
        assert (v + r)[2..] == r;
      } else {
        ReplaceSkipPrefix([t[0]], t[1..], k, v);
        assert ReplaceAll(t, k, v) == [t[0]] + r;
        assert ([t[0]] + r)[1..] == r;
      }
    }
  }

  /** A backslash is not escaped, so a translation consisting of one
      backslash is written as a body the extraction pattern rejects. */
  lemma EscapeLeavesBackslash()
    ensures Escape("\\") == "\\"
    ensures !ValidBody(Escape("\\"))
  {
    var b := "\\";
    assert b[0] == '\\' && b[..1] != "\"";
    ReplaceStep(b, "\"", "\\\"");
    assert b[1..] == [];
  }

  /** Escaping as a PO body needs it: a backslash before every quote and
      every backslash, each other character kept. */
  function EscapeBody(t: string): (r: string)
    ensures |r| >= |t|
    decreases |t|
  {
    if t == [] then []
    else (if t[0] == '"' || t[0] == '\\' then ['\\', t[0]] else [t[0]]) + EscapeBody(t[1..])
  }

  /** Every text escapes to a valid body that decodes back to it. */
  lemma {:induction false} EscapeBodyDecodes(t: string)
    ensures ValidBody(EscapeBody(t)) && Decode(EscapeBody(t)) == t
    decreases |t|
  {
    if t != [] {
      EscapeBodyDecodes(t[1..]);
      var r := EscapeBody(t[1..]);
      assert t == [t[0]] + t[1..];
      if t[0] == '"' || t[0] == '\\' {
        assert (['\\', t[0]] + r)[2..] == r;
      } else {
        assert ([t[0]] + r)[1..] == r;
      }
    }
  }

  /** Every valid body is the escaping of what it decodes to. */
  lemma {:induction false} DecodeEscapes(b: string)
    requires ValidBody(b)
    ensures EscapeBody(Decode(b)) == b
    decreases |b|
  {
    if b != [] {
      if b[0] == '\\' {
        DecodeEscapes(b[2..]);
        var d := Decode(b[2..]);
        assert ([b[1]] + d)[1..] == d;
        assert b == [b[0], b[1]] + b[2..];
      } else {
        DecodeEscapes(b[1..]);
        var d := Decode(b[1..]);
        assert ([b[0]] + d)[1..] == d;
        assert b == [b[0]] + b[1..];
      }
    }
  }

  /** For a text without backslashes the two escapings agree. */
  lemma EscapeBodyAgrees(t: string)
    requires forall i :: 0 <= i < |t| ==> t[i] != '\\'
    ensures EscapeBody(t) == Escape(t)
  {
    DecodeEscapes(Escape(t));
  }

  /** Escaping a list for a PO body. */
  function EscapeBodyAll(ts: seq<string>): (r: seq<string>)
    ensures |r| == |ts|
    decreases |ts|
  {
    if ts == [] then [] else [EscapeBody(ts[0])] + EscapeBodyAll(ts[1..])
  }

  /** Escaping a list one translation at a time. */
  lemma EscapeBodyAllCons(t: string, r: seq<string>)
    ensures EscapeBodyAll([t] + r) == [EscapeBody(t)] + EscapeBodyAll(r)
  {
    assert ([t] + r)[1..] == r;
  }

  // ---------------------------------------------------------------------
  // Inserting after the captured openers only
  // ---------------------------------------------------------------------

  /** An insertion directly follows an original part that is an opener. */
  predicate InsertsAfterOpener(ps: seq<Piece>) {
    forall k :: 0 <= k < |ps| && ps[k].Inserted? ==>
      0 < k && ps[k - 1].Original? && IsOpener(ps[k - 1].text)
  }

  /** How many of `len` consecutive parts sit at odd indices, the first
      one's index being odd exactly when `odd` holds. */
  function OddCount(odd: bool, len: nat): nat
    decreases len
  {
    if len == 0 then 0 else (if odd then 1 else 0) + OddCount(!odd, len - 1)
  }

  /** Every part at an odd index is an opener, the first part's index
      being odd exactly when `odd` holds. */
  predicate OpenersAtOdd(parts: seq<string>, odd: bool)
    decreases |parts|
  {
    parts == [] || ((odd ==> IsOpener(parts[0])) && OpenersAtOdd(parts[1..], !odd))
  }

  /** The update loop inserting after the parts `re.split` captured, that
      is after the parts at odd indices. */
  function FixedPieces(parts: seq<string>, ts: seq<string>, n: nat, odd: bool): (ps: seq<Piece>)
    requires n <= |ts|
    ensures Originals(ps) == parts
    decreases |parts|
  {
    if parts == [] then []
    else
      var p := parts[0];
      assert parts == [p] + parts[1..];
      if odd && n < |ts| then
        var rest := FixedPieces(parts[1..], ts, n + 1, !odd);
        var ins := [Inserted(EscapeBody(ts[n]))] + rest;
        PiecesCons(Inserted(EscapeBody(ts[n])), rest);
        PiecesCons(Original(p), ins);
        [Original(p)] + ins
      else
        var rest := FixedPieces(parts[1..], ts, n, !odd);
        PiecesCons(Original(p), rest);
        [Original(p)] + rest
  }

  /** An original part in front keeps insertions after openers. */
  lemma AfterOpenerOriginal(p: string, rest: seq<Piece>)
    requires InsertsAfterOpener(rest)
    ensures InsertsAfterOpener([Original(p)] + rest)
  {
    var ps := [Original(p)] + rest;
    assert forall k :: 1 <= k < |ps| ==> ps[k] == rest[k - 1];
  }

  /** An opener followed by an insertion in front keeps insertions after
      openers. */
  lemma AfterOpenerInsert(p: string, t: string, rest: seq<Piece>)
    requires IsOpener(p) && InsertsAfterOpener(rest)
    ensures InsertsAfterOpener([Original(p)] + ([Inserted(t)] + rest))
  {
    var ps := [Original(p)] + ([Inserted(t)] + rest);
    assert forall k :: 2 <= k < |ps| ==> ps[k] == rest[k - 2];
  }

  /** When the parts at odd indices are all openers, the corrected loop
      inserts right after openers only. */
  lemma {:induction false} FixedAfterOpener(parts: seq<string>, ts: seq<string>, n: nat, odd: bool)
    requires n <= |ts| && OpenersAtOdd(parts, odd)
    ensures InsertsAfterOpener(FixedPieces(parts, ts, n, odd))
    decreases |parts|
  {
    if parts != [] {
      if odd && n < |ts| {
        var rest := FixedPieces(parts[1..], ts, n + 1, !odd);
        FixedAfterOpener(parts[1..], ts, n + 1, !odd);
        assert FixedPieces(parts, ts, n, odd) == [Original(parts[0])] + ([Inserted(EscapeBody(ts[n]))] + rest);
        AfterOpenerInsert(parts[0], EscapeBody(ts[n]), rest);
      } else {
        var rest := FixedPieces(parts[1..], ts, n, !odd);
        FixedAfterOpener(parts[1..], ts, n, !odd);
        assert FixedPieces(parts, ts, n, odd) == [Original(parts[0])] + rest;
        AfterOpenerOriginal(parts[0], rest);
      }
    }
  }

  /** The updater as evidently intended: the k-th translation goes right
      after the k-th `msgstr` opener, and nowhere else. */
  function UpdateFixed(s: string, ts: seq<string>): string {
    Texts(FixedPieces(Split(s), ts, 0, false))
  }

  /** At an odd part with a translation left, the corrected loop inserts
      that translation and carries on with the next one. */
  lemma FixedPiecesInsert(parts: seq<string>, ts: seq<string>, n: nat)
    requires parts != [] && n < |ts|
    ensures Insertions(FixedPieces(parts, ts, n, true))
         == [EscapeBody(ts[n])] + Insertions(FixedPieces(parts[1..], ts, n + 1, false))
  {
    var rest := FixedPieces(parts[1..], ts, n + 1, false);
    var ins := [Inserted(EscapeBody(ts[n]))] + rest;
    assert FixedPieces(parts, ts, n, true) == [Original(parts[0])] + ins;
    PiecesCons(Inserted(EscapeBody(ts[n])), rest);
    PiecesCons(Original(parts[0]), ins);
  }

  /** The corrected loop takes the next translation at an odd part. */
  lemma {:induction false} FixedStepInsert(parts: seq<string>, ts: seq<string>, n: nat)
    requires parts != [] && n < |ts|
    ensures Insertions(FixedPieces(parts, ts, n, true)) == EscapeBodyAll(TakeFrom(ts, n, OddCount(true, |parts|)))
    decreases |parts|, 0
  {
    FixedInsertions(parts[1..], ts, n + 1, false);
    FixedPiecesInsert(parts, ts, n);
    TakeFromInsert(ts, n, |parts|);
  }

  /** At an odd part with a translation left, the escaped translations
      taken are `ts[n]`'s followed by those taken from the next part on. */
  lemma TakeFromInsert(ts: seq<string>, n: nat, len: nat)
    requires len > 0 && n < |ts|
    ensures EscapeBodyAll(TakeFrom(ts, n, OddCount(true, len)))
         == [EscapeBody(ts[n])] + EscapeBodyAll(TakeFrom(ts, n + 1, OddCount(false, len - 1)))
  {
    var c := OddCount(false, len - 1);
    assert OddCount(true, len) == c + 1;
    TakeFromCons(ts, n, c, OddCount(true, len));
    EscapeBodyAllCons(ts[n], TakeFrom(ts, n + 1, c));
  }

  /** The corrected loop takes nothing at an even part. */
  lemma {:induction false} FixedStepEven(parts: seq<string>, ts: seq<string>, n: nat)
    requires parts != [] && n <= |ts|
    ensures Insertions(FixedPieces(parts, ts, n, false)) == EscapeBodyAll(TakeFrom(ts, n, OddCount(false, |parts|)))
    decreases |parts|, 0
  {
    FixedInsertions(parts[1..], ts, n, true);
    FixedPiecesSkip(parts, ts, n, false);
    TakeFromSkip(ts, n, false, |parts|);
  }

  /** The corrected loop takes nothing once the translations are used up. */
  lemma {:induction false} FixedStepDone(parts: seq<string>, ts: seq<string>)
    requires parts != []
    ensures Insertions(FixedPieces(parts, ts, |ts|, true)) == EscapeBodyAll(TakeFrom(ts, |ts|, OddCount(true, |parts|)))
    decreases |parts|, 0
  {
    FixedInsertions(parts[1..], ts, |ts|, false);
    FixedPiecesSkip(parts, ts, |ts|, true);
    TakeFromSkip(ts, |ts|, true, |parts|);
  }

  /** At an even part, or with the translations used up, the corrected loop
      inserts nothing in front of the rest. */
  lemma FixedPiecesSkip(parts: seq<string>, ts: seq<string>, n: nat, odd: bool)
    requires parts != [] && n <= |ts| && !(odd && n < |ts|)
    ensures Insertions(FixedPieces(parts, ts, n, odd)) == Insertions(FixedPieces(parts[1..], ts, n, !odd))
  {
    var rest := FixedPieces(parts[1..], ts, n, !odd);
    assert FixedPieces(parts, ts, n, odd) == [Original(parts[0])] + rest;
    PiecesCons(Original(parts[0]), rest);
  }

  /** Passing an even part, or with the translations used up, takes the
      same translations as before it. */
  lemma TakeFromSkip(ts: seq<string>, n: nat, odd: bool, len: nat)
    requires len > 0 && n <= |ts| && !(odd && n < |ts|)
    ensures TakeFrom(ts, n, OddCount(odd, len)) == TakeFrom(ts, n, OddCount(!odd, len - 1))
  {
    if odd {
      TakeFromEnd(ts, OddCount(odd, len));
      TakeFromEnd(ts, OddCount(!odd, len - 1));
    } else {
      assert OddCount(odd, len) == OddCount(!odd, len - 1);
    }
  }

  /** The corrected loop inserts the escaped translations from `ts[n]` on,
      one per odd part, as many as both allow. */
  lemma {:induction false} FixedInsertions(parts: seq<string>, ts: seq<string>, n: nat, odd: bool)
    requires n <= |ts|
    ensures Insertions(FixedPieces(parts, ts, n, odd)) == EscapeBodyAll(TakeFrom(ts, n, OddCount(odd, |parts|)))
    decreases |parts|, 1
  {
    if parts == [] {
      TakeFromZero(ts, n);
    } else if !odd {
      FixedStepEven(parts, ts, n);
    } else if n < |ts| {
      FixedStepInsert(parts, ts, n);
    } else {
      FixedStepDone(parts, ts);
    }
  }

  /** Whether part `j` is at an odd index of the split, when part 0 is at
      an odd index exactly if `odd`. */
  predicate OddPart(odd: bool, j: nat) {
    OddIndex(j) != odd
  }

  /** Whether `j` is odd, counted one step at a time. */
  predicate OddIndex(j: nat) {
    j > 0 && !OddIndex(j - 1)
  }

  /** Every original piece at an odd index of the split is followed by an
      insertion while translations are left. */
  predicate OpenersFilled(ps: seq<Piece>, ts: seq<string>, n: nat, odd: bool) {
    forall k {:trigger InsertedBefore(ps, k)} :: 0 <= k < |ps| && ps[k].Original? && OddPart(odd, k - InsertedBefore(ps, k))
                && n + InsertedBefore(ps, k) < |ts|
             ==> k + 1 < |ps| && ps[k + 1].Inserted?
  }

  /** Every insertion directly follows an original piece at an odd index
      of the split. */
  predicate InsertedAfterOddPart(ps: seq<Piece>, odd: bool) {
    (|ps| > 0 ==> ps[0].Original?)
    && forall k {:trigger InsertedBefore(ps, k)} :: 0 <= k < |ps| - 1 && ps[k + 1].Inserted? ==>
         ps[k].Original? && OddPart(odd, k - InsertedBefore(ps, k))
  }

  /** One part further on, the parity flips. */
  lemma OddPartShift(odd: bool, j: nat)
    ensures OddPart(odd, j + 1) == OddPart(!odd, j)
  {
    assert OddIndex(j + 1) == !OddIndex(j);
  }

  /** One more piece in front of pieces that fill every odd part while
      translations last, at one position. */
  lemma OpenersFilledConsAt(a: Piece, rest: seq<Piece>, ts: seq<string>, n: nat, odd: bool, k: nat)
    requires a.Original? && odd && n < |ts| ==> rest != [] && rest[0].Inserted?
    requires OpenersFilled(rest, ts, if a.Inserted? then n + 1 else n, if a.Original? then !odd else odd)
    requires k < |[a] + rest| && ([a] + rest)[k].Original?
    requires OddPart(odd, k - InsertedBefore([a] + rest, k)) && n + InsertedBefore([a] + rest, k) < |ts|
    ensures k + 1 < |[a] + rest| && ([a] + rest)[k + 1].Inserted?
  {
    var ps := [a] + rest;
    if k == 0 {
      assert ps[1] == rest[0];
    } else {
      InsertedBeforeCons(a, rest, k - 1);
      assert ps[k] == rest[k - 1];
      var j := k - 1 - InsertedBefore(rest, k - 1);
      if a.Original? {
        OddPartShift(odd, j);
      }
      assert k < |rest| && rest[k].Inserted?;
      assert ps[k + 1] == rest[k];
    }
  }

  /** One more piece in front of pieces that fill every odd part while
      translations last. */
  lemma OpenersFilledCons(a: Piece, rest: seq<Piece>, ts: seq<string>, n: nat, odd: bool)
    requires a.Original? && odd && n < |ts| ==> rest != [] && rest[0].Inserted?
    requires OpenersFilled(rest, ts, if a.Inserted? then n + 1 else n, if a.Original? then !odd else odd)
    ensures OpenersFilled([a] + rest, ts, n, odd)
  {
    forall k | 0 <= k < |[a] + rest| && ([a] + rest)[k].Original?
               && OddPart(odd, k - InsertedBefore([a] + rest, k)) && n + InsertedBefore([a] + rest, k) < |ts|
      ensures k + 1 < |[a] + rest| && ([a] + rest)[k + 1].Inserted?
    {
      OpenersFilledConsAt(a, rest, ts, n, odd, k);
    }
  }

  /** An odd part and its insertion in front of pieces that fill every odd
      part from the next translation on. */
  lemma OpenersFilledInsert(p: string, t: string, rest: seq<Piece>, ts: seq<string>, n: nat, odd: bool)
    requires odd && n < |ts| && OpenersFilled(rest, ts, n + 1, !odd)
    ensures OpenersFilled([Original(p)] + ([Inserted(t)] + rest), ts, n, odd)
  {
    OpenersFilledCons(Inserted(t), rest, ts, n, !odd);
    OpenersFilledCons(Original(p), [Inserted(t)] + rest, ts, n, odd);
  }

  /** A part after which nothing is inserted keeps the fill of the rest. */
  lemma OpenersFilledSkip(p: string, rest: seq<Piece>, ts: seq<string>, n: nat, odd: bool)
    requires !(odd && n < |ts|) && OpenersFilled(rest, ts, n, !odd)
    ensures OpenersFilled([Original(p)] + rest, ts, n, odd)
  {
    OpenersFilledCons(Original(p), rest, ts, n, odd);
  }

  /** An original piece in front of pieces whose first one is original. */
  lemma AfterOddPartOriginal(p: string, rest: seq<Piece>, odd: bool)
    requires InsertedAfterOddPart(rest, !odd)
    ensures InsertedAfterOddPart([Original(p)] + rest, odd)
  {
    var ps := [Original(p)] + rest;
    forall k | 0 < k < |ps| - 1 && ps[k + 1].Inserted?
      ensures ps[k].Original? && OddPart(odd, k - InsertedBefore(ps, k))
    {
      assert ps[k + 1] == rest[k];
      assert ps[k] == rest[k - 1];
      InsertedBeforeCons(Original(p), rest, k - 1);
      var j := k - 1 - InsertedBefore(rest, k - 1);
      assert k - InsertedBefore(ps, k) == j + 1;
      OddPartShift(odd, j);
    }
    assert |ps| > 1 ==> ps[1] == rest[0];
  }

  /** An odd part and its insertion in front of pieces that start with the
      next, even, part. */
  lemma AfterOddPartInsert(p: string, t: string, rest: seq<Piece>, odd: bool)
    requires odd && InsertedAfterOddPart(rest, !odd)
    ensures InsertedAfterOddPart([Original(p)] + ([Inserted(t)] + rest), odd)
  {
    var ps := [Original(p)] + ([Inserted(t)] + rest);
    forall k | 1 < k < |ps| - 1 && ps[k + 1].Inserted?
      ensures ps[k].Original? && OddPart(odd, k - InsertedBefore(ps, k))
    {
      assert ps[k + 1] == rest[k - 1];
      assert ps[k] == rest[k - 2];
      InsertedBeforeCons(Inserted(t), rest, k - 2);
      InsertedBeforeCons(Original(p), [Inserted(t)] + rest, k - 1);
      var j := k - 2 - InsertedBefore(rest, k - 2);
      assert k - InsertedBefore(ps, k) == j + 1;
      OddPartShift(odd, j);
    }
    assert InsertedBefore(ps, 0) == 0;
    assert |ps| > 2 ==> ps[2] == rest[0];
  }

  /** The corrected loop keeps every part in place and takes the
      translations in turn. */
  lemma {:induction false} FixedInTurn(parts: seq<string>, ts: seq<string>, n: nat, odd: bool)
    requires n <= |ts|
    ensures PartsInPlace(FixedPieces(parts, ts, n, odd), parts)
    ensures InsertsInTurn(FixedPieces(parts, ts, n, odd), ts, n, EscapeBody)
    decreases |parts|
  {
    if parts != [] {
      var p := parts[0];
      if odd && n < |ts| {
        var rest := FixedPieces(parts[1..], ts, n + 1, !odd);
        FixedInTurn(parts[1..], ts, n + 1, !odd);
        var x := Inserted(EscapeBody(ts[n]));
        PartsInPlaceCons(x, rest, parts[1..]);
        PartsInPlaceCons(Original(p), [x] + rest, parts);
        InsertsInTurnCons(x, rest, ts, n, EscapeBody);
        InsertsInTurnCons(Original(p), [x] + rest, ts, n, EscapeBody);
      } else {
        var rest := FixedPieces(parts[1..], ts, n, !odd);
        FixedInTurn(parts[1..], ts, n, !odd);
        PartsInPlaceCons(Original(p), rest, parts);
        InsertsInTurnCons(Original(p), rest, ts, n, EscapeBody);
      }
    }
  }

  /** The corrected loop fills every odd part while translations last. */
  lemma {:induction false} FixedFillsOddParts(parts: seq<string>, ts: seq<string>, n: nat, odd: bool)
    requires n <= |ts|
    ensures OpenersFilled(FixedPieces(parts, ts, n, odd), ts, n, odd)
    decreases |parts|
  {
    if parts != [] {
      var p := parts[0];
      if odd && n < |ts| {
        var rest := FixedPieces(parts[1..], ts, n + 1, !odd);
        FixedFillsOddParts(parts[1..], ts, n + 1, !odd);
        OpenersFilledInsert(p, EscapeBody(ts[n]), rest, ts, n, odd);
      } else {
        var rest := FixedPieces(parts[1..], ts, n, !odd);
        FixedFillsOddParts(parts[1..], ts, n, !odd);
        OpenersFilledSkip(p, rest, ts, n, odd);
      }
    }
  }

  /** The corrected loop inserts after odd parts only. */
  lemma {:induction false} FixedOnlyOddParts(parts: seq<string>, ts: seq<string>, n: nat, odd: bool)
    requires n <= |ts|
    ensures InsertedAfterOddPart(FixedPieces(parts, ts, n, odd), odd)
    decreases |parts|
  {
    if parts != [] {
      var p := parts[0];
      if odd && n < |ts| {
        var rest := FixedPieces(parts[1..], ts, n + 1, !odd);
        FixedOnlyOddParts(parts[1..], ts, n + 1, !odd);
        AfterOddPartInsert(p, EscapeBody(ts[n]), rest, odd);
      } else {
        var rest := FixedPieces(parts[1..], ts, n, !odd);
        FixedOnlyOddParts(parts[1..], ts, n, !odd);
        AfterOddPartOriginal(p, rest, odd);
      }
    }
  }

  /** Where the corrected loop puts the translations: each part keeps its
      place, the j-th insertion is `ts[n + j]` escaped, every part at an
      odd index gets one while translations are left, and no other part
      does. So the j-th translation follows the j-th odd part. */
  lemma FixedPlacement(parts: seq<string>, ts: seq<string>, n: nat, odd: bool)
    requires n <= |ts|
    ensures PartsInPlace(FixedPieces(parts, ts, n, odd), parts)
    ensures InsertsInTurn(FixedPieces(parts, ts, n, odd), ts, n, EscapeBody)
    ensures OpenersFilled(FixedPieces(parts, ts, n, odd), ts, n, odd)
    ensures InsertedAfterOddPart(FixedPieces(parts, ts, n, odd), odd)
  {
    FixedInTurn(parts, ts, n, odd);
    FixedFillsOddParts(parts, ts, n, odd);
    FixedOnlyOddParts(parts, ts, n, odd);
  }

  /** Among `2m + 1` consecutive indices starting at an even one, `m` are
      odd. */
  lemma {:induction false} OddCountOfSplit(m: nat)
    ensures OddCount(false, 2 * m + 1) == m
    decreases m
  {
    if m > 0 {
      OddCountOfSplit(m - 1);
      assert OddCount(false, 2 * m + 1) == OddCount(true, 2 * m) == 1 + OddCount(false, 2 * m - 1);
    }
  }

  /** The corrected update inserts after openers only, keeps the file's
      text, and the k-th of the first `min(#openers, #translations)`
      translations follows the k-th opener. */
  lemma UpdateFixedCorrect(s: string, ts: seq<string>)
    ensures InsertsAfterOpener(FixedPieces(Split(s), ts, 0, false))
    ensures Concat(Originals(FixedPieces(Split(s), ts, 0, false))) == s
    ensures Insertions(FixedPieces(Split(s), ts, 0, false)) == EscapeBodyAll(ts[..Min(|Split(s)| / 2, |ts|)])
    ensures PartsInPlace(FixedPieces(Split(s), ts, 0, false), Split(s))
    ensures InsertsInTurn(FixedPieces(Split(s), ts, 0, false), ts, 0, EscapeBody)
    ensures OpenersFilled(FixedPieces(Split(s), ts, 0, false), ts, 0, false)
    ensures InsertedAfterOddPart(FixedPieces(Split(s), ts, 0, false), false)
  {
    var parts := Split(s);
    FixedPlacement(parts, ts, 0, false);
    FixedAfterOpener(parts, ts, 0, false);
    FixedInsertionsOfSplit(parts, ts);
  }

  /** On an odd number of parts, starting at an even index, the corrected
      update inserts the first `min(#openers, #translations)` translations. */
  lemma FixedInsertionsOfSplit(parts: seq<string>, ts: seq<string>)
    requires |parts| % 2 == 1
    ensures Insertions(FixedPieces(parts, ts, 0, false)) == EscapeBodyAll(ts[..Min(|parts| / 2, |ts|)])
  {
    FixedInsertions(parts, ts, 0, false);
    var m := |parts| / 2;
    assert |parts| == 2 * m + 1;
    OddCountOfSplit(m);
    assert TakeFrom(ts, 0, m) == ts[..Min(m, |ts|)];
  }

  // ---------------------------------------------------------------------
  // A value that itself starts with `msgstr`
  // ---------------------------------------------------------------------

  /** No opener starts where the character six places on is not
      whitespace. */
  lemma NoOpenerBeforeNonSpace(s: string, i: nat)
    requires i + 6 < |s| && !IsSpace(s[i + 6])
    ensures OpenerAt(s, i) == None
  {
  }

  /** Text without whitespace is a single split part: no opener starts in
      it. */
  lemma {:induction false} SplitWithoutSpace(s: string, start: nat, i: nat)
    requires start <= i <= |s|
    requires forall j :: i <= j < |s| ==> !IsSpace(s[j])
    ensures SplitFrom(s, start, i) == [s[start..]]
    decreases |s| - i
  {
    if i < |s| {
      if i + 6 < |s| {
        NoOpenerBeforeNonSpace(s, i);
      }
      assert OpenerAt(s, i) == None;
      SplitWithoutSpace(s, start, i + 1);
    }
  }

  /** An opener followed by a value without whitespace splits into the
      empty text before it, the opener, and the value. */
  lemma SplitOpenerValue(d: string, x: string)
    requires IsOpener(d)
    requires forall j :: 0 <= j < |x| ==> !IsSpace(x[j])
    ensures Split(d + x) == ["", d, x]
  {
    var s := d + x;
    assert s[0..|d|] == d;
    assert OpenerAt(s, 0) == Some(|d|);
    SplitWithoutSpace(s, |d|, |d|);
    assert s[|d|..] == x;
    assert s[0..0] == "";
  }

  /** One step of the loop as written, on the file text. */
  lemma UpdateTextStep(parts: seq<string>, ts: seq<string>, n: nat)
    requires parts != [] && n <= |ts|
    ensures Texts(UpdatePieces(parts, ts, n)) ==
      if StartsWith(parts[0], "msgstr") && n < |ts|
      then parts[0] + (Escape(ts[n]) + Texts(UpdatePieces(parts[1..], ts, n + 1)))
      else parts[0] + Texts(UpdatePieces(parts[1..], ts, n))
  {
    if StartsWith(parts[0], "msgstr") && n < |ts| {
      var rest := UpdatePieces(parts[1..], ts, n + 1);
      assert UpdatePieces(parts, ts, n) == [Original(parts[0])] + ([Inserted(Escape(ts[n]))] + rest);
      PiecesCons(Inserted(Escape(ts[n])), rest);
      PiecesCons(Original(parts[0]), [Inserted(Escape(ts[n]))] + rest);
    } else {
      var rest := UpdatePieces(parts[1..], ts, n);
      assert UpdatePieces(parts, ts, n) == [Original(parts[0])] + rest;
      PiecesCons(Original(parts[0]), rest);
    }
  }

  /** One step of the corrected loop, on the file text. */
  lemma FixedTextStep(parts: seq<string>, ts: seq<string>, n: nat, odd: bool)
    requires parts != [] && n <= |ts|
    ensures Texts(FixedPieces(parts, ts, n, odd)) ==
      if odd && n < |ts|
      then parts[0] + (EscapeBody(ts[n]) + Texts(FixedPieces(parts[1..], ts, n + 1, !odd)))
      else parts[0] + Texts(FixedPieces(parts[1..], ts, n, !odd))
  {
    if odd && n < |ts| {
      var rest := FixedPieces(parts[1..], ts, n + 1, !odd);
      assert FixedPieces(parts, ts, n, odd) == [Original(parts[0])] + ([Inserted(EscapeBody(ts[n]))] + rest);
      PiecesCons(Inserted(EscapeBody(ts[n])), rest);
      PiecesCons(Original(parts[0]), [Inserted(EscapeBody(ts[n]))] + rest);
    } else {
      var rest := FixedPieces(parts[1..], ts, n, !odd);
      assert FixedPieces(parts, ts, n, odd) == [Original(parts[0])] + rest;
      PiecesCons(Original(parts[0]), rest);
    }
  }

  /** The loop as written over an empty text, an opener and a value that
      both start with `msgstr`. */
  lemma UpdateThreeParts(d: string, x: string, t1: string, t2: string)
    requires StartsWith(d, "msgstr") && StartsWith(x, "msgstr")
    ensures Texts(UpdatePieces(["", d, x], [t1, t2], 0)) == d + Escape(t1) + x + Escape(t2)
  {
    var ts := [t1, t2];
    var parts := ["", d, x];
    assert !StartsWith("", "msgstr");
    assert parts[1..] == [d, x] && [d, x][1..] == [x] && [x][1..] == [];
    UpdateTextStep([x], ts, 1);
    assert Texts(UpdatePieces([], ts, 2)) == "";
    UpdateTextStep([d, x], ts, 0);
    UpdateTextStep(parts, ts, 0);
    var e1, e2 := Escape(t1), Escape(t2);
    assert Texts(UpdatePieces(parts, ts, 0)) == "" + (d + (e1 + (x + (e2 + ""))));
    Regroup4(d, e1, x, e2);
  }

  /** Regrouping the four strings of an update's text. */
  lemma Regroup4(a: string, b: string, c: string, e: string)
    ensures "" + (a + (b + (c + (e + "")))) == a + b + c + e
  {
    assert "" + (a + (b + (c + (e + "")))) == a + (b + (c + e));
  }

  /** Regrouping the three strings of a corrected update's text. */
  lemma Regroup3(a: string, b: string, c: string)
    ensures "" + (a + (b + (c + ""))) == a + b + c
  {
    assert "" + (a + (b + (c + ""))) == a + (b + c);
  }

  /** The corrected loop over the same three parts. */
  lemma FixedThreeParts(d: string, x: string, t1: string, t2: string)
    ensures Texts(FixedPieces(["", d, x], [t1, t2], 0, false)) == d + EscapeBody(t1) + x
  {
    var ts := [t1, t2];
    var parts := ["", d, x];
    assert parts[1..] == [d, x] && [d, x][1..] == [x] && [x][1..] == [];
    FixedTextStep([x], ts, 1, false);
    assert Texts(FixedPieces([], ts, 1, true)) == "";
    FixedTextStep([d, x], ts, 0, true);
    FixedTextStep(parts, ts, 0, false);
    var e1 := EscapeBody(t1);
    assert Texts(FixedPieces(parts, ts, 0, false)) == "" + (d + (e1 + (x + "")));
    Regroup3(d, e1, x);
  }

  /** As written, the loop also inserts after a value that starts with
      `msgstr`: updating `msgstr "msgstr"` (an opener `d` and the value
      `x`) with two translations puts the second one after the closing
      quote, outside every string, although the file has a single opener. */
  lemma UpdateAfterValue(d: string, x: string, t1: string, t2: string)
    requires IsOpener(d) && StartsWith(x, "msgstr")
    requires forall j :: 0 <= j < |x| ==> !IsSpace(x[j])
    ensures Update(d + x, [t1, t2]) == d + Escape(t1) + x + Escape(t2)
  {
    SplitOpenerValue(d, x);
    assert StartsWith(d, "msgstr");
    UpdateThreeParts(d, x, t1, t2);
  }

  /** The corrected loop inserts the first translation only, after the one
      opener. */
  lemma UpdateFixedAfterValue(d: string, x: string, t1: string, t2: string)
    requires IsOpener(d) && StartsWith(x, "msgstr")
    requires forall j :: 0 <= j < |x| ==> !IsSpace(x[j])
    ensures UpdateFixed(d + x, [t1, t2]) == d + EscapeBody(t1) + x
  {
    SplitOpenerValue(d, x);
    FixedThreeParts(d, x, t1, t2);
  }

  /** A character other than a quote is left as it is. */
  lemma EscapePlain(c: char)
    requires c != '"'
    ensures Escape([c]) == [c]
  {
    var t := [c];
    var k := "\"";
    assert t[..1][0] == c && k[0] == '"';
    assert !StartsWith(t, k);
    ReplaceStep(t, k, "\\\"");
    assert t[1..] == [];
  }

  /** The smallest such file: `msgstr "msgstr"` updated with `A` and `B`
      becomes `msgstr "Amsgstr"B`. */
  lemma UpdateAfterValueExample()
    ensures Update("msgstr \"msgstr\"", ["A", "B"]) == "msgstr \"Amsgstr\"B"
  {
    var d, x := "msgstr \"", "msgstr\"";
    assert d[..6] == "msgstr" && IsSpace(d[6]) && d[7] == '"';
    assert IsOpener(d);
    assert x[..6] == "msgstr";
    assert forall j :: 0 <= j < |x| ==> !IsSpace(x[j]);
    UpdateAfterValue(d, x, "A", "B");
    EscapePlain('A');
    EscapePlain('B');
    ExampleSpelling();
  }

  /** The example's input and output spelled out of their parts. */
  lemma ExampleSpelling()
    ensures "msgstr \"" + "msgstr\"" == "msgstr \"msgstr\""
    ensures "msgstr \"" + "A" + "msgstr\"" + "B" == "msgstr \"Amsgstr\"B"
  {
  }
}
