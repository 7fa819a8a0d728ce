/** The entry loop of `_process_single_file` in both translator scripts: every
    untranslated entry with a non-empty msgid is protected, sent to the
    provider (retried), restored and normalised, and the result becomes its
    msgstr. Reading and writing the catalog (polib) are left out; a catalog
    is the sequence of its entries. */
module Catalog {
  import opened Wrappers
  import opened Strings
  import opened Protector
  import opened Restorer
  import opened Translator

  /** One catalog entry as the loop sees it. `untranslated` is polib's
      verdict on the entry as read (membership in `untranslated_entries()`),
      which the loop does not change. */
  datatype Entry = Entry(msgid: string, msgstr: string, untranslated: bool)

  /** The loop visits the entry and does not skip it. */
  predicate Selected(e: Entry) {
    e.untranslated && e.msgid != ""
  }

  /** One message through protect, translate, restore and normalise;
      `None` when the provider call failed. */
  function TranslateMessage(w: char -> bool, tr: string -> Option<string>, msgid: string): (r: Option<string>)
    ensures r.None? <==> tr(Protect(w, msgid).text).None?
    ensures r.Some? ==> forall i :: 0 <= i < |r.value| ==>
      r.value[i] != FullWidthPercent && r.value[i] != FullWidthHash
  {
    var p := Protect(w, msgid);
    match tr(p.text)
    case None => None
    case Some(t) => Some(Normalise(Restore(t, p.placeholders)))
  }

  /** What the loop does to one entry: a selected entry gets the pipeline's
      output as its msgstr; nothing else about any entry changes. */
  ghost predicate Processed(w: char -> bool, tr: string -> Option<string>, before: Entry, after: Entry) {
    if Selected(before) then
      TranslateMessage(w, tr, before.msgid).Some?
      && after == before.(msgstr := TranslateMessage(w, tr, before.msgid).value)
    else after == before
  }

  /** The loop body for one entry: a selected entry is translated (or the
      failure reported), any other entry is kept as it is. */
  function ProcessEntry(w: char -> bool, tr: string -> Option<string>, e: Entry): (r: Option<Entry>)
    ensures r.None? <==> Selected(e) && TranslateMessage(w, tr, e.msgid).None?
    ensures r.Some? ==> Processed(w, tr, e, r.value)
  {
    if !Selected(e) then Some(e)
    else
      match TranslateMessage(w, tr, e.msgid)
      case None => None
      case Some(t) => Some(e.(msgstr := t))
  }

  /** The loop from entry `i` on. A failed provider call propagates out of
      the loop and the catalog is not saved; the failure carries the index of
      the entry whose translation failed. */
  function ProcessFrom(w: char -> bool, tr: string -> Option<string>, es: seq<Entry>, i: nat): (r: Result<seq<Entry>, nat>)
    requires i <= |es|
    ensures r.Success? <==>
      forall k :: i <= k < |es| && Selected(es[k]) ==> TranslateMessage(w, tr, es[k].msgid).Some?
    ensures r.Success? ==> |r.value| == |es| - i
    ensures r.Success? ==> forall k :: i <= k < |es| ==> Processed(w, tr, es[k], r.value[k - i])
    ensures r.Failure? ==>
      i <= r.error < |es| && Selected(es[r.error])
      && TranslateMessage(w, tr, es[r.error].msgid).None?
      && forall k :: i <= k < r.error && Selected(es[k]) ==> TranslateMessage(w, tr, es[k].msgid).Some?
    decreases |es| - i
  {
    if i == |es| then Success([])
    else
      match ProcessEntry(w, tr, es[i])
      case None => Failure(i)
      case Some(e) =>
        match ProcessFrom(w, tr, es, i + 1)
        case Failure(k) => Failure(k)
        case Success(rest) => Success([e] + rest)
  }

  /** The client's retried `Translate` as the provider of the pipeline. */
  function Retried(c: Client, call: (Provider, string, string, nat) -> Option<string>): string -> Option<string> {
    (t: string) => Translate(c, call, t).result
  }

  /** The loop over a whole catalog, the provider being called through the
      client's retried `Translate`: it succeeds exactly when every selected
      entry translates within the attempts, and otherwise names the first
      selected entry whose every attempt failed. */
  function ProcessFile(w: char -> bool, c: Client, call: (Provider, string, string, nat) -> Option<string>,
                       es: seq<Entry>): (r: Result<seq<Entry>, nat>)
    ensures r.Success? <==>
      forall k :: 0 <= k < |es| && Selected(es[k]) ==> TranslateMessage(w, Retried(c, call), es[k].msgid).Some?
    ensures r.Success? ==> |r.value| == |es|
    ensures r.Success? ==> forall k :: 0 <= k < |es| ==>
      Processed(w, Retried(c, call), es[k], r.value[k])
    ensures r.Failure? ==>
      r.error < |es| && Selected(es[r.error])
      && Translate(c, call, Protect(w, es[r.error].msgid).text).result.None?
      && forall k :: 0 <= k < r.error && Selected(es[k]) ==> TranslateMessage(w, Retried(c, call), es[k].msgid).Some?
  {
    ProcessFrom(w, Retried(c, call), es, 0)
  }

  /** With a provider that hands the protected text back unchanged, a message
      without underscores and without full-width `％`/`＃` comes out of the
      pipeline exactly as it went in. */
  lemma IdentityTranslation(w: char -> bool, msgid: string)
    requires NoUnderscore(msgid)
    requires forall i :: 0 <= i < |msgid| ==> msgid[i] != FullWidthPercent && msgid[i] != FullWidthHash
    ensures TranslateMessage(w, t => Some(t), msgid) == Some(msgid)
  {
    RoundTrip(w, msgid);
    NormaliseKeeps(msgid);
  }
}
