/** The format restorer shared by Multi-Translator.py and
    SinglePath-Translator.py: every placeholder token in the translated text
    is replaced by its original span, dictionary item by dictionary item, and
    two full-width characters are then mapped back to ASCII. */
module Restorer {
  import opened Strings
  import opened Protector

  /** The restore loop: `translated = translated.replace(ph, value)` for
      every item of the placeholder dictionary, in insertion order. */
  function Restore(t: string, ph: seq<(string, string)>): (r: string)
    ensures (forall i :: 0 <= i < |ph| ==> |ph[i].0| > 0 && !Occurs(t, ph[i].0)) ==> r == t
    decreases |ph|
  {
    if ph == [] then t
    else
      AbsentKeyStep(t, ph[0].0, ph[0].1);
      Restore(ReplaceAll(t, ph[0].0, ph[0].1), ph[1..])
  }

  /** A non-empty key absent from `t` leaves it as it is. */
  lemma AbsentKeyStep(t: string, k: string, v: string)
    ensures |k| > 0 && !Occurs(t, k) ==> ReplaceAll(t, k, v) == t
  {
    if |k| > 0 && !Occurs(t, k) {
      ReplaceAbsent(t, k, v);
    }
  }

  const FullWidthPercent: char := '\U{FF05}'
  const FullWidthHash: char := '\U{FF03}'

  /** What normalisation does to one character. */
  function NormalChar(c: char): char {
    if c == FullWidthPercent then '%' else if c == FullWidthHash then '#' else c
  }

  /** `translated.replace('％', '%').replace('＃', '#')`: the length is kept,
      each full-width percent or hash becomes its ASCII form, every other
      character stays in place, and neither full-width character is left. */
  function Normalise(t: string): (r: string)
    ensures |r| == |t|
    ensures forall i :: 0 <= i < |t| ==> r[i] == NormalChar(t[i])
    ensures forall i :: 0 <= i < |r| ==> r[i] != FullWidthPercent && r[i] != FullWidthHash
  {
    var a := ReplaceAll(t, [FullWidthPercent], ['%']);
    ReplaceChar(t, FullWidthPercent, '%');
    ReplaceChar(a, FullWidthHash, '#');
    ReplaceAll(a, [FullWidthHash], ['#'])
  }

  /** Normalising twice is normalising once. */
  lemma NormaliseIdempotent(t: string)
    ensures Normalise(Normalise(t)) == Normalise(t)
  {
    var n := Normalise(t);
    assert forall i :: 0 <= i < |n| ==> Normalise(n)[i] == n[i];
  }

  /** Text without either full-width character is left as it is. */
  lemma NormaliseKeeps(t: string)
    requires forall i :: 0 <= i < |t| ==> t[i] != FullWidthPercent && t[i] != FullWidthHash
    ensures Normalise(t) == t
  {
    assert forall i :: 0 <= i < |t| ==> Normalise(t)[i] == t[i];
  }

  // ---------------------------------------------------------------------
  // Round trip: restoring the protected text through its own placeholders
  // gives back the message, provided the message contains no underscore.
  // Every underscore of the protected text then belongs to a token, which is
  // what rules out a token being found across a token boundary.
  // ---------------------------------------------------------------------

  predicate NoUnderscore(s: string) {
    forall i :: 0 <= i < |s| ==> s[i] != '_'
  }

  predicate IsDigit(c: char) {
    '0' <= c <= '9'
  }

  /** The segments of a message without underscores: literal characters are
      not `_`, and a span starts with one of `*`, backtick, `@`, `#` and holds
      no `_`. */
  predicate WellFormed(segs: seq<Segment>) {
    segs == [] ||
    (&& (match segs[0]
         case Lit(c) => c != '_'
         case Span(_, t) => |t| >= 1 && IsOpener(t[0]) && NoUnderscore(t))
     && WellFormed(segs[1..]))
  }

  lemma {:induction false} ScanWellFormed(w: char -> bool, s: string, i: nat)
    requires i <= |s|
    requires forall p :: i <= p < |s| ==> s[p] != '_'
    ensures WellFormed(Scan(w, s, i))
    decreases |s| - i
  {
    if i < |s| {
      var m := MatchAt(w, s, i);
      var next := if m.Some? then m.value.1 else i + 1;
      ScanWellFormed(w, s, next);
      var segs := Scan(w, s, i);
      assert segs[1..] == Scan(w, s, next);
      if m.Some? {
        var t := s[i..m.value.1];
        assert t[0] == s[i];
        assert forall p :: 0 <= p < |t| ==> t[p] == s[i + p];
      }
    }
  }

  /** A rendering of well-formed segments that starts with `_` starts with a
      token, hence with `__`. */
  lemma UnderscoreStartsToken(segs: seq<Segment>, b: nat, j: nat)
    requires WellFormed(segs)
    ensures var u := Render(segs, b, j);
      |u| > 0 && u[0] == '_' ==> |u| >= 2 && u[1] == '_'
  {
    if segs != [] {
      match segs[0]
      case Lit(c) =>
      case Span(_, t) =>
        if b >= j {
          assert Render(segs, b, j)[..2] == Key(b)[..2];
        }
    }
  }

  /** No token can be found starting in the last two characters of a token
      followed by `t`: `t` does not start with `_M`, nor with `MD_` and a
      digit. */
  predicate SafeAfterToken(t: string) {
    && !(|t| >= 2 && t[0] == '_' && t[1] == 'M')
    && !(|t| >= 4 && t[0] == 'M' && t[1] == 'D' && t[2] == '_' && IsDigit(t[3]))
  }

  lemma NoDUnderscoreDigit(segs: seq<Segment>, b: nat, j: nat)
    requires WellFormed(segs)
    ensures var u := Render(segs, b, j);
      !(|u| >= 3 && u[0] == 'D' && u[1] == '_' && IsDigit(u[2]))
  {
    var u := Render(segs, b, j);
    if segs != [] && |u| >= 3 && u[0] == 'D' {
      match segs[0]
      case Lit(c) =>
        var v := Render(segs[1..], b, j);
        assert u == [c] + v;
        UnderscoreStartsToken(segs[1..], b, j);
        assert u[1] == v[0] && u[2] == v[1];
      case Span(_, t) =>
        if b >= j {
          assert u[0] == Key(b)[0];
        }
    }
  }

  lemma SafeRender(segs: seq<Segment>, b: nat, j: nat)
    requires WellFormed(segs)
    ensures SafeAfterToken(Render(segs, b, j))
  {
    var u := Render(segs, b, j);
    UnderscoreStartsToken(segs, b, j);
    if segs != [] && |u| >= 4 && u[0] == 'M' {
      match segs[0]
      case Lit(c) =>
        var v := Render(segs[1..], b, j);
        assert u == [c] + v;
        NoDUnderscoreDigit(segs[1..], b, j);
        assert u[1] == v[0] && u[2] == v[1] && u[3] == v[2];
      case Span(_, t) =>
        if b >= j {
          assert u[0] == Key(b)[0];
        }
    }
  }

  /** A token is never a prefix of another token followed by anything. */
  lemma KeyNotPrefix(i: nat, j: nat, t: string)
    requires i != j
    ensures !StartsWith(Key(i) + t, Key(j))
  {
    if StartsWith(Key(i) + t, Key(j)) {
      KeyPrefix(i, j, t);
    }
  }

  lemma KeyPrefix(i: nat, j: nat, t: string)
    requires StartsWith(Key(i) + t, Key(j))
    ensures i == j
  {
    var s := Key(i) + t;
    var di, dj := Digits(i), Digits(j);
    assert s[5..5 + |di|] == di && s[5 + |di|] == '_';
    assert Key(j)[5..5 + |dj|] == dj && Key(j)[5 + |dj|] == '_';
    assert s[..|Key(j)|] == Key(j);
    if |dj| == |di| {
      assert di == dj;
      DigitsInjective(i, j);
    }
  }

  /** What the skipping lemmas need to know of a token: its first six
      characters are `__MD_` and a digit. */
  predicate KeyLike(k: string) {
    |k| >= 6 && k[0] == '_' && k[1] == '_' && k[2] == 'M' && k[3] == 'D' && k[4] == '_' && IsDigit(k[5])
  }

  lemma KeyIsKeyLike(j: nat)
    ensures KeyLike(Key(j))
  {
    var d := Digits(j);
    assert Key(j) == "__MD_" + d + "__";
    assert Key(j)[5] == d[0];
  }

  /** No token starts two characters before a safe text. */
  lemma TokenNotAfterTwo(t: string, k: string)
    requires KeyLike(k) && SafeAfterToken(t)
    ensures !StartsWith("__" + t, k)
  {
    var s := "__" + t;
    if |t| >= 4 {
      if t[0] != 'M' {
        NotStartsWithAt(s, k, 2);
      } else if t[1] != 'D' {
        NotStartsWithAt(s, k, 3);
      } else if t[2] != '_' {
        NotStartsWithAt(s, k, 4);
      } else {
        NotStartsWithAt(s, k, 5);
      }
    }
  }

  /** No token starts one character before a safe text. */
  lemma TokenNotAfterOne(t: string, k: string)
    requires KeyLike(k) && SafeAfterToken(t)
    ensures !StartsWith("_" + t, k)
  {
    var s := "_" + t;
    if |t| >= 2 {
      if t[0] != '_' {
        NotStartsWithAt(s, k, 1);
      } else {
        NotStartsWithAt(s, k, 2);
      }
    }
  }

  /** Two underscores in front, one at a time. */
  lemma SpellTwo(r: string)
    ensures ['_'] + (['_'] + r) == "__" + r
  {
  }

  /** The scan passes over the closing `__` of a token. */
  lemma SkipTokenTail(t: string, k: string, v: string)
    requires KeyLike(k) && SafeAfterToken(t)
    ensures ReplaceAll("__" + t, k, v) == "__" + ReplaceAll(t, k, v)
  {
    TokenNotAfterTwo(t, k);
    ConcatHead("__", t);
    assert "__"[1..] == "_";
    ReplaceStep("__" + t, k, v);
    TokenNotAfterOne(t, k);
    ConcatHead("_", t);
    assert "_"[1..] == "";
    ReplaceStep("_" + t, k, v);
    SpellTwo(ReplaceAll(t, k, v));
  }

  /** The scan passes over the `_<digits>` in the middle of a token. */
  lemma SkipUnderscoreDigits(d: string, rest: string, k: string, v: string)
    requires KeyLike(k)
    requires |d| > 0 && forall p :: 0 <= p < |d| ==> IsDigit(d[p])
    ensures ReplaceAll("_" + (d + rest), k, v) == "_" + (d + ReplaceAll(rest, k, v))
  {
    var t4 := "_" + (d + rest);
    NotStartsWithAt(t4, k, 1);
    ReplaceStep(t4, k, v);
    assert t4[1..] == d + rest;
    ReplaceSkipPrefix(d, rest, k, v);
  }

  /** The middle of a token spelled in two ways. */
  lemma SpellMiddle(d: string, r: string)
    ensures "MD" + ("_" + (d + r)) == "MD_" + d + r
  {
  }

  /** The scan passes over the `MD_<digits>` in the middle of a token. */
  lemma SkipTokenBody(d: string, rest: string, k: string, v: string)
    requires KeyLike(k)
    requires |d| > 0 && forall p :: 0 <= p < |d| ==> IsDigit(d[p])
    ensures ReplaceAll("MD_" + d + rest, k, v) == "MD_" + d + ReplaceAll(rest, k, v)
  {
    SkipUnderscoreDigits(d, rest, k, v);
    ReplaceSkipPrefix("MD", "_" + (d + rest), k, v);
    SpellMiddle(d, rest);
    SpellMiddle(d, ReplaceAll(rest, k, v));
  }

  /** Two leading characters the key cannot start at are copied. */
  lemma SkipTwo(s: string, k: string, v: string)
    requires |s| >= 2 && |k| >= 2 && !StartsWith(s, k) && !StartsWith(s[1..], k)
    ensures ReplaceAll(s, k, v) == s[..2] + ReplaceAll(s[2..], k, v)
  {
    var r := ReplaceAll(s[2..], k, v);
    ReplaceStep(s, k, v);
    ReplaceStep(s[1..], k, v);
    assert s[1..][1..] == s[2..];
    assert ReplaceAll(s, k, v) == [s[0]] + ([s[1]] + r);
    assert s[..2] == [s[0]] + [s[1]];
  }

  /** A token followed by text, cut after its opening `__`. */
  lemma KeyHead(i: nat, tail: string)
    ensures var s := Key(i) + tail;
      && |s| >= 3 && s[1] == '_' && s[2] == 'M'
      && s[..2] == "__" && s[2..] == "MD_" + Digits(i) + ("__" + tail)
  {
  }

  /** The scan passes over the opening `__` of a token that is not the one
      being restored. */
  lemma SkipTokenHead(i: nat, j: nat, tail: string, v: string)
    requires i != j
    ensures ReplaceAll(Key(i) + tail, Key(j), v)
         == "__" + ReplaceAll("MD_" + Digits(i) + ("__" + tail), Key(j), v)
  {
    var k := Key(j);
    var s := Key(i) + tail;
    KeyNotPrefix(i, j, tail);
    KeyHead(i, tail);
    KeyIsKeyLike(j);
    assert s[1..][1] == s[2];
    NotStartsWithAt(s[1..], k, 1);
    SkipTwo(s, k, v);
  }

  lemma SkipTokenMiddle(d: string, t: string, k: string, v: string)
    requires KeyLike(k)
    requires |d| > 0 && forall p :: 0 <= p < |d| ==> IsDigit(d[p])
    requires SafeAfterToken(t)
    ensures ReplaceAll("MD_" + d + ("__" + t), k, v)
         == "MD_" + d + ("__" + ReplaceAll(t, k, v))
  {
    var rest := "__" + t;
    SkipTokenBody(d, rest, k, v);
    SkipTokenTail(t, k, v);
  }

  lemma KeySpelling(i: nat, r: string)
    ensures "__" + ("MD_" + Digits(i) + ("__" + r)) == Key(i) + r
  {
  }

  /** The scan passes over a token other than the one being restored without
      changing it. */
  lemma KeySkip(i: nat, j: nat, t: string, v: string)
    requires i != j && SafeAfterToken(t)
    ensures ReplaceAll(Key(i) + t, Key(j), v) == Key(i) + ReplaceAll(t, Key(j), v)
  {
    SkipTokenHead(i, j, t, v);
    KeyIsKeyLike(j);
    SkipTokenMiddle(Digits(i), t, Key(j), v);
    KeySpelling(i, ReplaceAll(t, Key(j), v));
  }

  /** One turn of the restore loop: replacing the token of span `j` by that
      span's text turns restoration stage `j` into stage `j + 1`. */
  lemma {:induction false} RestoreStep(segs: seq<Segment>, b: nat, j: nat, v: string)
    requires WellFormed(segs)
    requires b <= j < b + |Values(segs)| ==> Values(segs)[j - b] == v
    ensures ReplaceAll(Render(segs, b, j), Key(j), v) == Render(segs, b, j + 1)
    decreases |segs|, 1
  {
    if segs != [] {
      if segs[0].Lit? {
        RestoreStepLit(segs, b, j, v);
      } else {
        RestoreStepSpan(segs, b, j, v);
      }
    }
  }

  /** The restore step over a leading literal character. */
  lemma {:induction false} RestoreStepLit(segs: seq<Segment>, b: nat, j: nat, v: string)
    requires WellFormed(segs) && segs != [] && segs[0].Lit?
    requires b <= j < b + |Values(segs)| ==> Values(segs)[j - b] == v
    ensures ReplaceAll(Render(segs, b, j), Key(j), v) == Render(segs, b, j + 1)
    decreases |segs|, 0
  {
    var rest := segs[1..];
    assert Values(segs) == Values(rest);
    RestoreStep(rest, b, j, v);
    RestoreLit(segs[0].c, Render(rest, b, j), j, v);
  }

  /** The restore step over a leading span. */
  lemma {:induction false} RestoreStepSpan(segs: seq<Segment>, b: nat, j: nat, v: string)
    requires WellFormed(segs) && segs != [] && segs[0].Span?
    requires b <= j < b + |Values(segs)| ==> Values(segs)[j - b] == v
    ensures ReplaceAll(Render(segs, b, j), Key(j), v) == Render(segs, b, j + 1)
    decreases |segs|, 0
  {
    ValuesAfterSpan(segs, b, j, v);
    RestoreStep(segs[1..], b + 1, j, v);
    RestoreSpanAt(segs, b, j, v);
  }

  /** The restore step over a leading span, given the step over the rest. */
  lemma RestoreSpanAt(segs: seq<Segment>, b: nat, j: nat, v: string)
    requires WellFormed(segs) && segs != [] && segs[0].Span?
    requires b == j ==> v == segs[0].text
    requires ReplaceAll(Render(segs[1..], b + 1, j), Key(j), v) == Render(segs[1..], b + 1, j + 1)
    ensures ReplaceAll(Render(segs, b, j), Key(j), v) == Render(segs, b, j + 1)
  {
    RestoreSpan(segs[0].text, segs[1..], b, j, v);
    RenderSpan(segs, b, j);
    RenderSpan(segs, b, j + 1);
  }

  /** The rendering of a leading span. */
  lemma RenderSpan(segs: seq<Segment>, b: nat, j: nat)
    requires segs != [] && segs[0].Span?
    ensures Render(segs, b, j) == (if b < j then segs[0].text else Key(b)) + Render(segs[1..], b + 1, j)
  {
  }

  /** The span values after a leading span, and the value of that span. */
  lemma ValuesAfterSpan(segs: seq<Segment>, b: nat, j: nat, v: string)
    requires WellFormed(segs) && segs != [] && segs[0].Span?
    requires b <= j < b + |Values(segs)| ==> Values(segs)[j - b] == v
    ensures WellFormed(segs[1..])
    ensures b + 1 <= j < b + 1 + |Values(segs[1..])| ==> Values(segs[1..])[j - (b + 1)] == v
    ensures b == j ==> v == segs[0].text
  {
    assert Values(segs) == [segs[0].text] + Values(segs[1..]);
  }

  lemma RestoreLit(c: char, u: string, j: nat, v: string)
    requires c != '_'
    ensures ReplaceAll([c] + u, Key(j), v) == [c] + ReplaceAll(u, Key(j), v)
  {
    assert Key(j)[0] == '_';
    ReplaceStep([c] + u, Key(j), v);
    assert ([c] + u)[1..] == u;
  }

  lemma RestoreSpan(t: string, rest: seq<Segment>, b: nat, j: nat, v: string)
    requires WellFormed(rest) && NoUnderscore(t)
    requires b == j ==> v == t
    requires ReplaceAll(Render(rest, b + 1, j), Key(j), v) == Render(rest, b + 1, j + 1)
    ensures ReplaceAll((if b < j then t else Key(b)) + Render(rest, b + 1, j), Key(j), v)
         == (if b < j + 1 then t else Key(b)) + Render(rest, b + 1, j + 1)
  {
    var k := Key(j);
    var u := Render(rest, b + 1, j);
    if b < j {
      ReplaceSkipPrefix(t, u, k, v);
    } else if b == j {
      ReplaceHead(k, u, v);
    } else {
      SafeRender(rest, b + 1, j);
      KeySkip(b, j, u, v);
    }
  }

  /** Once every span has been restored the rendering is the message. */
  lemma {:induction false} RenderDone(segs: seq<Segment>, b: nat, j: nat)
    requires b + |Values(segs)| <= j
    ensures Render(segs, b, j) == Flatten(segs)
    decreases |segs|
  {
    if segs != [] {
      match segs[0]
      case Lit(c) =>
        assert Values(segs) == Values(segs[1..]);
        RenderDone(segs[1..], b, j);
      case Span(_, t) =>
        assert Values(segs) == [t] + Values(segs[1..]);
        RenderDone(segs[1..], b + 1, j);
    }
  }

  lemma {:induction false} RestoreFrom(segs: seq<Segment>, j: nat)
    requires WellFormed(segs) && j <= |Values(segs)|
    ensures Restore(Render(segs, 0, j), Items(Values(segs))[j..]) == Flatten(segs)
    decreases |Values(segs)| - j
  {
    var vs := Values(segs);
    var ph := Items(vs)[j..];
    if j == |vs| {
      assert ph == [];
      RenderDone(segs, 0, j);
    } else {
      assert ph[0] == (Key(j), vs[j]);
      assert ph[1..] == Items(vs)[j + 1..];
      RestoreStep(segs, 0, j, vs[j]);
      RestoreFrom(segs, j + 1);
    }
  }

  /** Round trip: with an identity translation, restoring the protected text
      through its placeholders in insertion order gives back the message,
      for every message without an underscore. */
  lemma RoundTrip(w: char -> bool, text: string)
    requires NoUnderscore(text)
    ensures var p := Protect(w, text); Restore(p.text, p.placeholders) == text
  {
    var segs := Scan(w, text, 0);
    ScanWellFormed(w, text, 0);
    RestoreFrom(segs, 0);
    assert Items(Values(segs))[0..] == Items(Values(segs));
  }
}
