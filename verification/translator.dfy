/** The translation client of Multi-Translator.py and
    SinglePath-Translator.py: the constructor's provider and target-language
    rules, and the call to the provider retried up to three times. The
    provider itself (Google Cloud Translation or DeepL over the network) is a
    parameter: `call(provider, target, text, n)` is the outcome of the `n`-th
    call for `text`, `None` standing for a raised exception. */
module Translator {
  import opened Wrappers

  datatype Provider = Google | DeepL

  /** The configured translator: which provider, and the target language
      code sent with every request. */
  datatype Client = Client(provider: Provider, target: string)

  /** The `ValueError` raised for a provider name other than the two known. */
  datatype ConfigError = UnsupportedProvider(name: string)

  /** `POTranslator.__init__(api_provider, api_key, target_lang)`: Google
      keeps the requested target language, every other provider gets `"ZH"`,
      and a provider other than `"google"` or `"deepl"` is refused. */
  function NewClient(apiProvider: string, targetLang: string): (r: Result<Client, ConfigError>)
    ensures r.Success? <==> apiProvider == "google" || apiProvider == "deepl"
    ensures r.Failure? ==> r.error == UnsupportedProvider(apiProvider)
    ensures r.Success? ==> (r.value.provider == Google <==> apiProvider == "google")
    ensures r.Success? && apiProvider == "google" ==> r.value.target == targetLang
    ensures r.Success? && apiProvider != "google" ==> r.value.target == "ZH"
  {
    var target := if apiProvider == "google" then targetLang else "ZH";
    if apiProvider == "google" then Success(Client(Google, target))
    else if apiProvider == "deepl" then Success(Client(DeepL, target))
    else Failure(UnsupportedProvider(apiProvider))
  }

  /** For DeepL the requested target language makes no difference at all. */
  lemma DeepLTargetIgnored(a: string, b: string)
    ensures NewClient("deepl", a) == NewClient("deepl", b) == Success(Client(DeepL, "ZH"))
  {
  }

  /** `stop_after_attempt(3)` */
  const MaxAttempts: nat := 3

  /** The outcome of a retried call: the translation, if any attempt
      succeeded, and how many times the provider was called. */
  datatype Outcome = Outcome(result: Option<string>, calls: nat)

  /** Attempts `n`, `n + 1`, ... of a retried call, `attempt(k)` being the
      outcome of the `k`-th provider call. The first success is returned at
      once; after the third failure the failure propagates. */
  function RetryFrom(attempt: nat -> Option<string>, n: nat): (r: Outcome)
    requires n < MaxAttempts
    ensures n < r.calls <= MaxAttempts
    ensures forall k :: n <= k < r.calls - 1 ==> attempt(k).None?
    ensures r.result.Some? ==> r.result == attempt(r.calls - 1)
    ensures r.result.None? ==> r.calls == MaxAttempts && attempt(MaxAttempts - 1).None?
    decreases MaxAttempts - n
  {
    match attempt(n)
    case Some(t) => Outcome(Some(t), n + 1)
    case None =>
      if n + 1 == MaxAttempts then Outcome(None, MaxAttempts) else RetryFrom(attempt, n + 1)
  }

  /** `_translate_text(text)` with its `@retry` decorator: the provider is
      called with the client's target language, at most three times. */
  function Translate(c: Client, call: (Provider, string, string, nat) -> Option<string>, text: string): (r: Outcome)
    ensures 1 <= r.calls <= MaxAttempts
    ensures r.result.Some? <==> exists k :: 0 <= k < MaxAttempts && call(c.provider, c.target, text, k).Some?
    ensures r.result.Some? ==> r.result == call(c.provider, c.target, text, r.calls - 1)
    ensures forall k :: 0 <= k < r.calls - 1 ==> call(c.provider, c.target, text, k).None?
  {
    var r := RetryFrom((k: nat) => call(c.provider, c.target, text, k), 0);
    assert r.result.None? ==> forall k :: 0 <= k < MaxAttempts ==> call(c.provider, c.target, text, k).None?;
    r
  }

  /** Two failures then a success: the third result is returned after
      exactly three calls. */
  lemma SucceedsOnThirdAttempt(attempt: nat -> Option<string>, t: string)
    requires attempt(0).None? && attempt(1).None? && attempt(2) == Some(t)
    ensures RetryFrom(attempt, 0) == Outcome(Some(t), 3)
  {
  }

  /** Three failures: the failure propagates after the third call, and no
      fourth call is made whatever it would have returned. */
  lemma FailsAfterThreeAttempts(attempt: nat -> Option<string>)
    requires attempt(0).None? && attempt(1).None? && attempt(2).None?
    ensures RetryFrom(attempt, 0) == Outcome(None, 3)
  {
  }
}
