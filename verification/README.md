# PO translator core, modelled in Dafny

The repository translates gettext `.po` catalogs with remote machine
translation. Three scripts share a small pure core, which this project models
and proves properties of:

- **Format protection** (Multi-Translator.py and SinglePath-Translator.py,
  the same code in both). `_protect_special_format` scans a message once from
  left to right. At each position it tries six Markdown alternatives in a fixed
  order: link, `**bold**`, `*italic*`, `` `code` ``, `@mention` and `#tag`.
  Every match is replaced by the token `__MD_<n>__`, and the token-to-text map
  is recorded. After translation, the tokens are replaced back in insertion
  order. Full-width `％` and `＃` are then normalised to `%` and `#`.
- **The entry loop** of `_process_single_file`. Every untranslated entry with
  a non-empty msgid gets `normalise(restore(translate(protect(msgid))))` as its
  msgstr. The provider call is retried up to three times. The constructor
  decides the provider and the target language.
- **Output paths.** Multi-Translator.py handles a single file and a directory
  tree. SinglePath-Translator.py writes the output next to its input.
- **The raw-text pipeline** of googletrans_translator.py:
  - `extract_translations` uses a regular expression to find every
    `msgstr "…"` value, unescapes it and drops blank values;
  - `translate_texts` falls back to the original text for each item that
    fails;
  - `update_po_file` splits the file at every `msgstr` opener and inserts the
    translations.

Modules:

| module | file | contents |
|---|---|---|
| `Wrappers` | wrappers.dfy | `Option`, `Result` |
| `Strings` | strings.dfy | Python's `str.replace`, `startswith`/`endswith`, `isspace`, `strip()`-blankness |
| `Protector` | protector.dfy | the six alternatives, the scanner, the tokens and the placeholder map |
| `Restorer` | restorer.dfy | the restore loop, normalisation, the round trip |
| `Translator` | translator.dfy | the constructor rules and the three-attempt retry |
| `Catalog` | catalog.dfy | the entry loop of `_process_single_file` |
| `Paths` | paths.dfy | `splitext`/`dirname`/`basename`/`join` and both scripts' output paths |
| `RawPo` | rawpo.dfy | extraction, `translate_texts`, the updater, and a corrected updater |

Modelling choices:

- The regular expressions are not interpreted by a general engine. Each
  alternative is a small matcher with an independent declarative predicate
  (`LinkSpan` built on `UrlSpan`, `BoldSpan`, `DelimitedSpan`, `WordSpan`).
  Each matcher is proved to find exactly the span its predicate describes.
- A lazy `.*?` body ends at the first closing delimiter. `re.DOTALL` lets it
  cross newlines.
- `\w` is a parameter `w: char -> bool`, because its Unicode classification
  is not modelled. Whitespace (`str.isspace`, and `\s` of the `re` module) is
  the fixed character set Python uses.
- Remote providers are parameters that return `Option<string>`, with `None`
  standing for a raised exception.
- Paths follow POSIX `posixpath` rules: `/` is the only separator.
- A catalog is a sequence of `Entry(msgid, msgstr, untranslated)`. The
  `untranslated` flag is polib's verdict, supplied with the entry.

## Model

| member | source | states |
|---|---|---|
| Translator.NewClient | Multi-Translator.py:22-32 | The client is created exactly for `"google"` and `"deepl"`. Any other provider fails with that name. Google keeps the requested target language. Every other provider gets `"ZH"`. |
| Translator.DeepLTargetIgnored | SinglePath-Translator.py:23 | For DeepL, two different requested target languages give the same client, with target `"ZH"`. |
| Translator.RetryFrom | Multi-Translator.py:45-57 | The provider is called between one and three times. Every call before the last one failed. A success returns that call's result. A failure means all three calls failed. |
| Translator.Translate | SinglePath-Translator.py:45-57 | The retried call succeeds exactly when one of the first three provider calls does, and returns the first success. The client's target language is passed on every call. |
| Translator.SucceedsOnThirdAttempt | Multi-Translator.py:45 | Two failures then a success return that success after exactly three calls. |
| Translator.FailsAfterThreeAttempts | Multi-Translator.py:45 | Three failures propagate after three calls. A fourth call is never made. |
| Protector.MatchLink | Multi-Translator.py:36 | The link alternative never matches. `$` holds only at the end of the input or before a final newline, so `h` cannot follow it. |
| Protector.UrlTailSpans | Multi-Translator.py:36 | The scan after `http://` or `https://` succeeds with end `e` exactly when `e` is past the scheme, is an end for `$`, and only non-whitespace lies between. |
| Protector.UrlAtSpans | Multi-Translator.py:36 | The URL matcher finds end `e` exactly when `https?://\S+$` spans from the position to `e`. |
| Protector.LinkNeverSpans | Multi-Translator.py:36 | No span satisfies the whole link pattern: `\S+$` ends the text or a final line, and a URL must follow it. |
| Protector.MatchBold | Multi-Translator.py:37 | `\*\*.*?\*\*` matches exactly the span from `**` to the first later `**`. |
| Protector.MatchDelimited | Multi-Translator.py:38-39 | `\*.*?\*` and `` `.*?` `` match exactly the span from the opener to the first later copy of the delimiter. |
| Protector.MatchWord | Multi-Translator.py:40-41 | `@\w+` and `#\w+` match exactly the longest non-empty run of word characters after the sigil. |
| Protector.Try | Multi-Translator.py:35-42 | Each alternative matches exactly the span its declarative description gives. A match is at least two characters long and starts at `*`, `` ` ``, `@` or `#`. |
| Protector.FirstFrom | Multi-Translator.py:43 | Alternatives are tried in the listed order. The result is the first one that matches, and no earlier one matches at that position. |
| Protector.MatchAt | Multi-Translator.py:43 | The alternation matches at a position exactly when some alternative does. The first one in list order wins. |
| Protector.BoldBeforeItalic | Multi-Translator.py:37-38 | Where bold matches, the alternation takes bold, so `**x**` is never taken as italic. |
| Protector.Scan | Multi-Translator.py:68 | The scan's segments spell the scanned text back: matched spans, plus unmatched characters copied verbatim. |
| Protector.ScanLeftmost | Multi-Translator.py:68 | The scan is leftmost and non-overlapping. A character is copied only where no alternative matches. A span is the first alternative's match, and scanning resumes after it. |
| Protector.LeftmostUnique | Multi-Translator.py:68 | Only one segmentation is leftmost, so the scan is the unique one. |
| Protector.SpanEndUnique | Multi-Translator.py:35-42 | An alternative can match at a position with only one end. |
| Protector.DigitsInjective | Multi-Translator.py:64 | The decimal spelling of `len(placeholders)` is injective. |
| Protector.KeyInjective | Multi-Translator.py:64 | `Key`, the token `__MD_<n>__` for counter n, gives different counters different tokens. |
| Protector.Protect | SinglePath-Translator.py:59-69 | The protected text replaces the n-th match by `__MD_<n>__`. There is one placeholder per match, in match order, holding the matched text. |
| Protector.KeySetSize | Multi-Translator.py:63-65 | The keys `__MD_0__` … `__MD_{n-1}__` are n distinct strings. |
| Protector.DictOfItems | Multi-Translator.py:63-65 | The placeholder dictionary's keys are exactly `__MD_0__` … `__MD_{n-1}__`, and each key maps to its match. |
| Protector.TokenUniqueness | Multi-Translator.py:59-69 | For a whole message with n matches, the dictionary has exactly n entries. Its keys are `__MD_0__` … `__MD_{n-1}__`, and each value is the matched substring. |
| Restorer.Restore | Multi-Translator.py:83-84 | When no non-empty token of the dictionary occurs in the translated text, restoring leaves the text as it is. |
| Restorer.Normalise | Multi-Translator.py:87 | Normalisation keeps the length and changes only `％` and `＃`, to `%` and `#`. The result contains neither full-width character. |
| Restorer.NormaliseIdempotent | SinglePath-Translator.py:92 | Normalising twice equals normalising once. |
| Restorer.NormaliseKeeps | Multi-Translator.py:87 | A text without `％` and `＃` is left unchanged. |
| Restorer.ScanWellFormed | Multi-Translator.py:68 | In a message without `_`, neither copied characters nor matched spans contain `_`. |
| Restorer.RestoreStep | Multi-Translator.py:83-84 | Replacing token `__MD_<j>__` by its value turns the text with tokens j… still protected into the text with tokens j+1… still protected. Nothing else changes. |
| Strings.ReplaceSelf | Multi-Translator.py:84 | `ReplaceAll`, Python's `str.replace`, changes nothing when a string is replaced by itself. |
| Strings.ReplaceAbsent | Multi-Translator.py:84 | `ReplaceAll` with a non-empty key that does not occur leaves the string as it is. |
| Strings.ReplaceHead | Multi-Translator.py:84 | `ReplaceAll` replaces a key at the head and resumes the scan right after it. |
| Strings.ReplaceChar | Multi-Translator.py:87 | `ReplaceAll` with one-character arguments keeps the length, maps every such character, and keeps all others in place. |
| Strings.ReplaceSkipClean | Multi-Translator.py:111 | `ReplaceAll` copies a prefix in which no occurrence of the key starts, and replaces only in the rest. |
| Restorer.KeySkip | Multi-Translator.py:84 | `str.replace` of one token leaves a different token in front untouched. |
| Restorer.RestoreFrom | Multi-Translator.py:83-84 | Restoring placeholders j… in insertion order gives back the scanned text. |
| Restorer.RoundTrip | SinglePath-Translator.py:88-89 | With an identity translation, restoring `protect(text)` through all its placeholders in insertion order gives back `text` (for text without `_`). |
| Catalog.TranslateMessage | Multi-Translator.py:81-87 | The pipeline fails exactly when the provider fails on the protected text. A successful output has no `％` or `＃`. |
| Catalog.ProcessEntry | Multi-Translator.py:76-88 | A selected entry (untranslated, non-empty msgid) gets the pipeline's output as its msgstr, or reports the failure. Every other entry is returned unchanged. |
| Catalog.ProcessFrom | Multi-Translator.py:75-88 | The loop succeeds exactly when every selected entry translates. It keeps the number and order of entries. It changes only selected entries' msgstr. On failure it reports the first failing selected entry. |
| Catalog.ProcessFile | SinglePath-Translator.py:80-93 | The same loop with the retried provider. It succeeds exactly when every selected entry translates within the attempts. Entries keep their order and only selected entries change. A failure names the first selected entry whose every attempt failed, and every selected entry before it translated. |
| Catalog.IdentityTranslation | Multi-Translator.py:81-88 | An identity provider gives back a message without `_`, `％` or `＃` unchanged. |
| Paths.SplitExt | Multi-Translator.py:101 | `splitext` splits the path into stem and extension. The extension is empty, or a dot followed by neither dot nor slash. |
| Paths.SplitExtHasExtension | SinglePath-Translator.py:76 | `splitext` finds an extension exactly when the last component has a dot with a non-dot character before it. The stem then ends at the last dot. |
| Paths.MultiFileOutput | Multi-Translator.py:99-103 | A single input file gives an output exactly when it ends in `.po`. For a plain `.po` path the output is the stem plus the suffix plus `.po`. |
| Paths.MultiFileOutputDistinct | Multi-Translator.py:101 | The output overwrites the input exactly when the suffix is empty. |
| Paths.MultiFileHiddenName | Multi-Translator.py:101 | A hidden file named `.po` has no extension: `locale/.po` becomes `locale/.po_translated.po`. |
| Paths.MultiDirOutput | Multi-Translator.py:105-112 | With an empty suffix, the directory-mode output is the joined path itself. |
| Paths.PoNotBefore | Multi-Translator.py:111 | When `u` contains no `.po` and `t` starts with a dot, no `.po` of `u + t` starts inside `u`. |
| Paths.MultiDirOutputSingleOccurrence | Multi-Translator.py:110-111 | For a joined path `stem.po` where `stem` contains no `.po`, directory mode gives `stem + suffix + ".po"`, as file mode does. |
| Paths.MultiDirOutputRenamesDirectories | Multi-Translator.py:111 | For a joined path `a.po` + `b.po` where neither `a` nor `b` contains `.po`, both occurrences gain the suffix, the one in a directory name included. |
| Paths.MultiDirOutputFixed | Multi-Translator.py:101 | Corrected directory mode: only the final `.po` of the joined path gains the suffix. |
| Paths.MultiDirOutputFixedKeepsDirectories | Multi-Translator.py:111 | With the correction, a `.po` inside a directory name is left as it is. |
| Paths.MultiDirOutputFixedAgrees | Multi-Translator.py:110-111 | For a plain joined path `stem.po` where `stem` contains no `.po`, the correction agrees with the code as written. |
| Paths.SaveDirectory | Multi-Translator.py:90-91 | `makedirs(dirname(output))` fails exactly when the output path has no slash. Otherwise the created directory is a prefix of the output path. |
| Paths.DirNameEmpty | Multi-Translator.py:90 | `dirname` is empty exactly for a path without a slash. |
| Paths.SaveBareNameFails | Multi-Translator.py:90-103 | For a bare plain `.po` name and a suffix without a slash, file mode produces an output path, and saving it fails. |
| Paths.SaveDirectoryFixed | Multi-Translator.py:90-91 | Corrected saving always succeeds. It agrees with the code whenever the code succeeds, and it uses the working directory for a path without a slash. |
| Paths.SinglePathBareName | SinglePath-Translator.py:74-76 | `SinglePathOutput` of a bare plain `.po` name keeps its stem and gains the suffix. |
| Paths.SplitDirectory | SinglePath-Translator.py:74-75 | `dirname` and `basename` of `d/name` are `d` and `name`. |
| Paths.SinglePathInDirectoryOutput | SinglePath-Translator.py:74-76 | `SinglePathOutput` of `d/name.po` is `d/` + stem + suffix + `.po`, for a non-empty `d` not ending in a slash. |
| Paths.SinglePathInDirectory | SinglePath-Translator.py:74-76 | For a plain `.po` name in a non-empty directory `d` not ending in a slash, `SinglePathOutput` equals the input exactly when the suffix is empty. |
| Paths.SplitDoubleSlash | SinglePath-Translator.py:74-75 | `dirname` strips both slashes of `d//name`. |
| Paths.SinglePathDoubleSlash | SinglePath-Translator.py:74-76 | `SinglePathOutput` collapses a doubled slash. With an empty suffix the output is then not the input's spelling. |
| RawPo.OpenerAt | googletrans_translator.py:22-25 | `msgstr\s+"` matches at a position exactly when some end makes the text up to it `msgstr`, whitespace and a quote. That end is then unique. |
| RawPo.BodyEnd | googletrans_translator.py:23 | The greedy body scan consumes a valid body. It stops only at a quote, at the end, or at a backslash that starts no escape. |
| RawPo.BodyEndUnique | googletrans_translator.py:23 | A valid body that ends at a quote is the one the scan finds. |
| RawPo.MatchMsgstr | googletrans_translator.py:22-25 | The pattern matches at a position exactly when opener, valid body and closing quote line up. There is at most one such match. |
| RawPo.PluralNeverMatches | googletrans_translator.py:23 | `msgstr[n]` plural slots never match. |
| RawPo.HitsFrom | googletrans_translator.py:27 | `findall`'s matches are real matches, in increasing order and non-overlapping. Every position where the pattern could match lies inside one of them. |
| RawPo.Unescape | googletrans_translator.py:29 | On a valid body, the two replacements decode it item by item. |
| RawPo.UnescapeQuotes | googletrans_translator.py:29 | The first replacement turns each `\"` of a valid body into `"`. |
| RawPo.UnescapeBackslashes | googletrans_translator.py:29 | The second replacement then turns each `\\` into `\`. |
| RawPo.UnescapeDecodes | googletrans_translator.py:29 | Unescaping in that order decodes a valid body item by item. |
| RawPo.Kept | googletrans_translator.py:30 | The kept values are non-blank unescaped groups. Every non-blank group is kept. |
| RawPo.KeptAppend | googletrans_translator.py:27-31 | Filtering commutes with concatenation, so file order is kept. |
| RawPo.Extract | googletrans_translator.py:15-33 | Every extracted string is non-blank. There are no more of them than matches. |
| RawPo.ExtractSound | googletrans_translator.py:22-31 | Every extracted string decodes a body the pattern matches. A value with any escape other than `\"` or `\\` is never extracted. |
| RawPo.ExtractComplete | googletrans_translator.py:27-31 | Every match with a non-blank decoded value is extracted. |
| RawPo.TranslateTexts | googletrans_translator.py:36-54 | The output is as long as the input. A failed item keeps its original text at the same index. A successful item holds the translation. |
| RawPo.SplitFrom | googletrans_translator.py:63 | The split has an odd number of parts, and concatenating them gives back the text. The odd-indexed parts are exactly the openers. |
| RawPo.Split | googletrans_translator.py:63 | `re.split` with a capturing group: the parts spell the text, every odd part is an opener, and no opener starts inside an even (text) part. |
| RawPo.SplitFromMaximal | googletrans_translator.py:63 | When no opener starts in the current text part so far, none starts in any text part of the rest of the split. |
| RawPo.UpdatePieces | googletrans_translator.py:68-77 | The updater keeps every part, in order, and inserts only directly after a part that starts with `msgstr`. |
| RawPo.UpdateInsertions | googletrans_translator.py:68-77 | The insertions are the escaped translations from the current index on. Their number is the number of parts starting with `msgstr` still to come, or of translations left, whichever is smaller. |
| RawPo.UpdateInsertionCount | googletrans_translator.py:63-77 | Updating inserts exactly `min(#parts starting with msgstr, #translations)` escaped translations, in order. |
| RawPo.UpdateKeepsOriginal | googletrans_translator.py:63-77 | Deleting the inserted strings gives back the original content. |
| RawPo.UpdatePlacement | googletrans_translator.py:63-77 | Each part keeps its place. The j-th insertion is translation n+j, escaped. Every part starting with `msgstr` is followed by an insertion while translations remain. So the j-th translation follows the j-th such part. |
| RawPo.Update | googletrans_translator.py:57-80 | With no translations, the file text is written back unchanged. |
| RawPo.UpdateWithoutTranslations | googletrans_translator.py:68-77 | With no translations, the content is unchanged. |
| RawPo.QuoteEscapeDecodes | googletrans_translator.py:73 | `ReplaceAll` of `"` by `\"` on text without a backslash gives a valid body that decodes back to the text. |
| RawPo.Escape | googletrans_translator.py:73 | For text without a backslash, the escaped text is a valid body that decodes back to the text. |
| RawPo.EscapeLeavesBackslash | googletrans_translator.py:73 | A lone backslash is inserted as it is, and `\` alone is not a valid body. |
| RawPo.EscapeBody | googletrans_translator.py:73 | Corrected escaping: both `"` and `\` get a backslash. |
| RawPo.EscapeBodyDecodes | googletrans_translator.py:73 | Corrected escaping always yields a valid body that decodes back to the text. |
| RawPo.DecodeEscapes | googletrans_translator.py:29 | Decoding and corrected escaping are inverse: escaping a decoded valid body gives the body back. |
| RawPo.EscapeBodyAgrees | googletrans_translator.py:73 | For text without a backslash, the corrected escaping agrees with the code. |
| RawPo.FixedPieces | googletrans_translator.py:68-77 | The corrected updater keeps every part in order. |
| RawPo.FixedAfterOpener | googletrans_translator.py:63-69 | The corrected updater inserts only directly after a captured opener. |
| RawPo.FixedInsertions | googletrans_translator.py:68-77 | The corrected updater inserts the escaped translations in order, one per opener, while translations last. |
| RawPo.FixedPlacement | googletrans_translator.py:68-77 | Corrected: each part keeps its place, the j-th insertion is translation n+j with corrected escaping, every odd part gets one while translations remain, and no other part does. |
| RawPo.UpdateFixedCorrect | googletrans_translator.py:63-77 | The corrected updater keeps the content and inserts only after openers. It inserts `min(#openers, #translations)` correctly escaped translations, in order, the j-th right after the j-th opener. |
| RawPo.SplitOpenerValue | googletrans_translator.py:63 | An opener followed by text without whitespace splits into `["", opener, text]`. |
| RawPo.UpdateAfterValue | googletrans_translator.py:69 | As written, a value that itself starts with `msgstr` receives a second translation after it. |
| RawPo.UpdateAfterValueExample | googletrans_translator.py:69 | `msgstr "msgstr"` updated with `A`, `B` becomes `msgstr "Amsgstr"B`. |
| RawPo.UpdateFixedAfterValue | googletrans_translator.py:63-77 | With the correction, the same input gets only the first translation, after the opener. |

## Left out

- Reading and saving catalogs with polib, and reading and writing raw
  `.po` text. The models work on the entry sequence and on the file's text.
- Which entries polib counts as untranslated. `Entry.untranslated` is an
  input.
- The Google Cloud Translation, DeepL and googletrans network clients. They
  are parameters that return `Option<string>`.
- Tenacity's exponential backoff and the `time.sleep` delay between requests.
  These are wall-clock behaviour, and the number of attempts is modelled
  without them.
- The `print` progress and error messages.
- The directories `os.makedirs` creates, `os.walk`, `os.path.relpath`,
  `os.path.isfile`, `find_po_files` and `process_files`. Directory traversal
  is file-system plumbing. A walked file is given by its relative path. Of
  `os.makedirs`, only the failure on an empty directory name is modelled
  (`Paths.SaveDirectory`).
- The command-line `main` blocks.
- `process_po_file` in googletrans_translator.py (lines 93-128), which is
  file-system plumbing around the modelled functions. Read from the text, not
  executed: line 112 renames the file to `.bak` before line 116 calls
  `update_po_file` on the original path. That function opens the path for
  reading at line 59, and the path no longer exists, so the open raises. The
  handler at lines 120-124 renames the backup back and returns `False`. As
  written, the googletrans tool therefore never writes a translation into any
  file. `RawPo.Update` models what `update_po_file` would write if the read
  succeeded.
- source/conf.py is not part of this model: it is static Sphinx configuration
  without logic.
- Unicode classification for `\w`, which is an uninterpreted parameter.
  Whitespace is the fixed set of characters Python's `str.isspace` accepts.
- Restorer.RoundTrip: requires a message without `_`, which is stronger than
  "no `__MD_`". The weaker condition is not enough: `*a**b*MD_0__` protects to
  `__MD_0____MD_1__MD_0__`, and restoring token 0 also replaces the
  occurrence that straddles the two tokens.
- RawPo.Extract: file order is stated through `HitsFrom` (ordered,
  non-overlapping matches) and `KeptAppend`, not as one ensures clause on
  `Extract`.
- RawPo.EscapeAll: states only that escaping keeps the number of
  translations. The content of each escape is stated by `Escape`,
  `QuoteEscapeDecodes` and `EscapeLeavesBackslash`.
- RawPo.UpdatePieces: its own contract says which parts are kept and where
  insertions may go. Which translation follows which part is stated by
  `UpdatePlacement`.
- RawPo.FixedInsertions: states which translations are inserted, in order.
  After which opener each one goes is stated by `FixedPlacement`.
- RawPo.Update: its own contract covers only the empty translation list. The
  content and placement of an update are stated on `UpdatePieces` by
  `UpdateKeepsOriginal`, `UpdateInsertionCount` and `UpdatePlacement`.
- Paths.SinglePathInDirectory: covers a non-empty directory that does not end
  in a slash. A doubled slash is covered by `SinglePathDoubleSlash`. The hidden
  name `d/.po`, which `splitext` leaves without an extension, has no lemma.
- Windows paths. The path functions follow POSIX `posixpath`, with `/` as the
  only separator and no drive letters.
- Provider state. A provider is a pure function of the provider name, target
  language, text and attempt number, so equal msgids always get equal
  outcomes. A remote service whose answers change from call to call is not
  modelled.
- Paths.MultiDirOutput: describes the renaming of every `.po` only for the
  path shapes covered by `MultiDirOutputSingleOccurrence` and
  `MultiDirOutputRenamesDirectories`. Other shapes have no general lemma.

## Findings

| source | as written | input that shows it | evidently intended | confidence | as-written member | corrected member |
|---|---|---|---|---|---|---|
| googletrans_translator.py:69 | Every split part that starts with `msgstr` is treated as an opener, including msgstr values whose text begins with `msgstr`. | content `msgstr "msgstr"` with translations `A`, `B` becomes `msgstr "Amsgstr"B` | insert only after the openers `re.split` captured (the odd-indexed parts) | not executed | RawPo.UpdateAfterValue | RawPo.UpdateFixedAfterValue |
| googletrans_translator.py:73 | Only `"` is escaped before insertion; a backslash is inserted bare. | a translation consisting of one backslash `\` is inserted as `\`, which the extraction pattern cannot read back | escape `\` as `\\` as well, so that extraction decodes the inserted text | not executed | RawPo.EscapeLeavesBackslash | RawPo.EscapeBodyDecodes |
| Multi-Translator.py:90 | `os.makedirs(os.path.dirname(output_path))` runs before every save, and `dirname` of a bare file name is empty. | single-file mode on `a.po` in the working directory with suffix `_t`: output `a_t.po`, `makedirs("")` raises after the whole catalog was translated | save into the working directory when the output path has no directory part | not executed | Paths.SaveBareNameFails | Paths.SaveDirectoryFixed |
| Multi-Translator.py:111 | `str.replace(".po", suffix + ".po")` renames every `.po` in the output path, directory names and the output root included. | output root `out`, relative path `a.pot/b.po`, suffix `_t` gives `out/a_t.pot/b_t.po` | rename only the file's extension, as the single-file branch at line 101 does | not executed | Paths.MultiDirOutputRenamesDirectories | Paths.MultiDirOutputFixed |
