# kind2anki in Dafny

A Dafny model of the pure core of kind2anki, an Anki add-on that turns the
words a Kindle's Vocabulary Builder recorded into flash cards. The model covers
the string and sequence transformations between the database rows and the
text file Anki imports:

- `detect_word_type`, the suffix-based guess at a word's part of speech
  (`word_type.dfy`);
- the fill-in-the-blank rewrite of a word's usage sentence in
  `translateWords` (`usage.dfy`);
- the card record `translateWords` builds, with its defaults, and the nine-field,
  semicolon-delimited line `createTemporaryFile` writes for it (`cards.dfy`);
- `get_audio_url`, the JapanesePod101 or Forvo pronunciation URL
  (`audio_url.dfy`);
- `lookupDictionary`, which turns the free dictionary API's JSON answer into an
  HTML block (`dictionary_api.dfy`);
- the Oxford Learner's Dictionary helpers: `get_url`, the result shaping of
  `lookup_oxford_dictionary`, and the audio file name of `download_audio_file`
  (`oxford.dfy`).

Two supporting modules model the Python library behaviour these rely on:
`text.dfy` has `str.lower`, `strip`, `rstrip`, `split()`, `split(sep)`,
`join`, `replace` and the character filter of a generator expression, and
`url_quote.dfy` has `urllib.parse.quote` with its default `safe='/'`: UTF-8
encoding followed by `%XX` escapes with upper-case hex digits. A strict
decoder is defined alongside it, so that the round trip `Unquote(Quote(s)) ==
Some(s)` can be proved. `wrappers.dfy` holds the `Option` type.

Everything the add-on gets from outside is an input: the database query
results (`Cards.Vocabulary`), the translation service and the HTTP responses
(`Cards.Services`), the scraped Oxford record (`Oxford.WordInfo`), and the
file-system and download outcomes of `download_audio_file`.

## Model

| member | source | states |
|---|---|---|
| `WordType.DetectWordType` | kind2anki/kindleimporter.py:313-324 | The chosen rule accepts the normalised word, and every rule tried before it rejects it: verb suffixes, then `ly`, then adjective suffixes, then noun suffixes, then more than one whitespace-separated piece, then the fallback. |
| `WordType.DetectWordTypeLabel` | kind2anki/kindleimporter.py:313-324 | The label is one of the six, it is "verb" exactly when the normalised word ends in `ing`, `ed` or `en`, and it is "word" only when no other rule applies. Whatever label it returns names a rule that accepts the normalised word while every rule tried before it rejects it, so the label is fixed for every word. |
| `WordType.Label` | kind2anki/kindleimporter.py:314-324 | Each word type maps into the set of six labels the method can return. |
| `WordType.LabelInjective` | kind2anki/kindleimporter.py:313-324 | Distinct word types get distinct labels, so the label identifies the rule that fired. |
| `WordType.Normalize` | kind2anki/kindleimporter.py:310 | The normalised word is no longer than the word, has no whitespace at either end, and has no upper-case ASCII letter; each of its characters is a lower-cased character of the word. |
| `WordType.NormalizeStripped` | kind2anki/kindleimporter.py:310 | The normalised word is `word.lower().strip()`: a slice of the lower-cased word with only whitespace around it, neither starting nor ending with whitespace (which `Text.StrippedUnique` shows fixes it). |
| `WordType.NormalizeIdempotent` | kind2anki/kindleimporter.py:310 | `w.lower().strip()` applied twice is the same as applied once. |
| `WordType.DetectNormalized` | kind2anki/kindleimporter.py:310 | The classification depends only on the lower-cased, stripped word: normalising first does not change it. |
| `WordType.SplitMoreThanOne` | kind2anki/kindleimporter.py:321 | For a string with no whitespace at either end, `split()` gives more than one piece exactly when it has whitespace inside. |
| `WordType.PhraseIffInnerSpace` | kind2anki/kindleimporter.py:313-322 | A word is a "phrase" exactly when no suffix rule applies and the normalised word contains whitespace. |
| `Text.StripLowerCommute` | kind2anki/kindleimporter.py:310 | Lower-casing and stripping whitespace commute. |
| `Text.TrimIdempotent` | kind2anki/kindleimporter.py:224 | `strip(chars)` is idempotent. |
| `Text.Split` | kind2anki/kindleimporter.py:221 | `split()` returns only non-empty, whitespace-free pieces. |
| `Text.SplitConcat` | kind2anki/kindleimporter.py:221 | The pieces of `split()`, glued back together, are exactly the input's non-whitespace characters in their original order. |
| `Text.SplitCount` | kind2anki/kindleimporter.py:221 | `split()` returns one piece for each non-whitespace character that is followed by whitespace or by the end of the input. |
| `Text.SplitSpaces` | kind2anki/kindleimporter.py:221 | Whitespace in front of the text contributes no piece to `split()`. |
| `Text.SplitTokenThenSpaces` | kind2anki/kindleimporter.py:221 | A whitespace-free word followed by whitespace is the first piece of `split()`, ending exactly where the whitespace starts; with `SplitToken` and `SplitSpaces` this fixes `split()` on every input. |
| `Text.SplitToken` | kind2anki/kindleimporter.py:221 | A non-empty whitespace-free string splits into itself alone. |
| `Text.TrimStripped` | kind2anki/kindleimporter.py:224 | `strip(chars)` removes exactly the stripped characters at both ends: the result is a slice of the input with only such characters around it, neither starting nor ending with one. |
| `Text.StrippedUnique` | kind2anki/kindleimporter.py:224 | Only one string is the input stripped of given characters at both ends. |
| `Text.SplitJoin` | kind2anki/kindleimporter.py:231 | `split()` of `" ".join(tokens)` gives the tokens back when each is non-empty and whitespace-free. |
| `Text.EscapeSemicolons` | kind2anki/kindleimporter.py:295 | `replace(";", ",")` keeps the length, turns every `;` into `,` in place, leaves no `;`, and leaves every other character where it was. |
| `Text.EscapeJoin` | kind2anki/kindleimporter.py:231 | Escaping after joining on a separator without `;` equals joining the escaped pieces. |
| `Text.Filter` | kind2anki/kindleimporter.py:227 | A character filter keeps only accepted characters of the input, each as many times as the input has it. |
| `Text.FilterAppend` | kind2anki/kindleimporter.py:227 | Filtering distributes over concatenation, so kept characters stay in their original order. |
| `Text.TrimEnd` | kind2anki/oxford_dictionary.py:367 | `rstrip` returns a prefix of the input that does not end in a dropped character, and everything it removed is dropped characters. |
| `Text.JoinExcludes` | kind2anki/kindleimporter.py:295 | A character absent from the separator and from every part is absent from the join. |
| `Text.SplitOnJoin` | kind2anki/kindleimporter.py:295 | For a non-empty list of parts, none of which contains the separator, `sep.join(parts).split(sep)` gives the parts back. |
| `Text.JoinChars` | kind2anki/kindleimporter.py:231 | Every character of `sep.join(parts)` comes from the separator or from one of the parts. |
| `Text.EscapeKeepsOut` | kind2anki/kindleimporter.py:295 | Replacing `;` by `,` adds no character other than `,`. |
| `Usage.Clean` | kind2anki/kindleimporter.py:224 | The cleaned word is no longer than the sentence word, neither starts nor ends with `.,!?;:"()[]`, and has no upper-case ASCII letter. |
| `Usage.CleanStripped` | kind2anki/kindleimporter.py:224 | The cleaned word is the sentence word with exactly its edge punctuation `.,!?;:"()[]` stripped, then lower-cased. |
| `Usage.MatchesIsPrefix` | kind2anki/kindleimporter.py:225 | A sentence word matches exactly when its cleaned form starts with the lower-cased word; the equality test adds nothing. |
| `Usage.Blanked` | kind2anki/kindleimporter.py:227-228 | A matched word becomes `_____` followed by the word's non-alphanumeric characters in their original order, each as many times as the word has it, and nothing else. |
| `Usage.BlankFirst` | kind2anki/kindleimporter.py:221-229 | The word count is unchanged; with no matching word nothing changes; otherwise exactly the first matching word is blanked and the others stay in place. |
| `Usage.BlankOut` | kind2anki/kindleimporter.py:221-229 | The word count is unchanged; with no word matching the lower-cased word nothing changes; otherwise exactly the first matching word is blanked. |
| `Usage.UsageExample` | kind2anki/kindleimporter.py:214-233 | The card's sentence has no `;`. Its only whitespace is the single space, so it has no newline. It is empty when usage is off or no sentence was stored. |
| `Usage.BlankFirstChangesAtMostOne` | kind2anki/kindleimporter.py:222-229 | If the rewrite changed one word, it changed no other word. |
| `Usage.FirstMatchIndex` | kind2anki/kindleimporter.py:222-229 | When some word matches, there is a first matching word, which is the one the loop stops at. |
| `Usage.BlankedIsToken` | kind2anki/kindleimporter.py:228 | Blanking a whitespace-free word gives a whitespace-free word. |
| `Usage.BlankFirstTokens` | kind2anki/kindleimporter.py:221-229 | When every word of the sentence is whitespace-free, every word after the blank-out still is. |
| `Usage.EscapedJoinSpaces` | kind2anki/kindleimporter.py:231-233 | Whitespace-free words joined with `" "` and escaped contain no whitespace character other than the joining spaces. |
| `Usage.UsageExampleWords` | kind2anki/kindleimporter.py:221-231 | Splitting the rewritten sentence on whitespace gives back, one for one, the sentence's words with the first match blanked and `;` turned into `,`. |
| `Cards.DictionaryHtml` | kind2anki/kindleimporter.py:67-100 | The dictionary HTML for a word is empty when the request raises, is non-empty exactly when the response is a 200 with a non-empty, complete list of entries, and is then wrapped in the definition `div`. |
| `Cards.TranslatedDefinition` | kind2anki/kindleimporter.py:236-240 | The translation field is empty when translation is off, the service's translation when it answers, and "cannot translate" when it raises. |
| `Cards.DictionaryDefinition` | kind2anki/kindleimporter.py:243-257 | The dictionary field is empty when the dictionary is off. English words, including words with no stored language, are looked up directly. When translating another language into English fails, the field is empty; when it succeeds, the English translation is looked up. |
| `Cards.MakeCard` | kind2anki/kindleimporter.py:202-257 | The card keeps the word. A stored reading, frequency, book name or audio URL is copied; a missing one is empty, or "Unknown Book" for the book name. The sentence has no `;` and no newline; it is the rewritten stored sentence when usage is on, and empty when usage is off or no sentence is stored. The translation and dictionary fields are those of `TranslatedDefinition` and `DictionaryDefinition`. |
| `Cards.MakeCardLocal` | kind2anki/kindleimporter.py:200-210 | A card depends on the database only through the entries stored for its own id: two vocabularies that agree there give the same card. |
| `Cards.TranslateWords` | kind2anki/kindleimporter.py:195-261 | One card per pair of `zip(words, word_keys)`, in order, so the number of cards is the shorter list's length. |
| `Cards.Definition` | kind2anki/kindleimporter.py:273-275 | The Def field starts with the translation. It equals the translation exactly when the dictionary definition is empty, and otherwise is the translation, `<hr>` and the dictionary definition. |
| `Cards.Fields` | kind2anki/kindleimporter.py:282-292 | A card has exactly nine fields. The word, reading and sentence are in place, and the type is `detect_word_type` of the word, one of the six labels. The sound field is `[sound:word.mp3]`, the image field is empty, the Def field is next, then `Source: ` and the book name, then the attribution. |
| `Cards.EscapedFields` | kind2anki/kindleimporter.py:295 | The nine escaped fields are the nine fields of the card, each with `;` replaced, so none contains `;`. |
| `Cards.CardLine` | kind2anki/kindleimporter.py:295 | Splitting a card's line on `;` gives back exactly its nine escaped fields. |
| `Cards.FieldsNoNewline` | kind2anki/kindleimporter.py:282-292 | When no field of the card data (the sentence included) has a newline, none of the nine fields does. |
| `Cards.CardLineNoNewline` | kind2anki/kindleimporter.py:295 | When no field of the card data (the sentence included) has a newline, neither does its line. |
| `Cards.TemporaryFile` | kind2anki/kindleimporter.py:264-265 | There is no file exactly when there are no words. |
| `Cards.FileText` | kind2anki/kindleimporter.py:271-295 | The text is empty exactly when there are no cards; otherwise it starts with the first card's line and a newline, and ends with a newline. |
| `Cards.FileLines` | kind2anki/kindleimporter.py:264-297 | For the cards `translateWords` builds, when no word, reading, translation, dictionary HTML or book name holds a newline, the file splits on newlines into exactly one line per card, in card order, followed by the empty text after the final newline. The example sentence needs no such condition: `MakeCard` never leaves a newline in it. |
| `Cards.FileTextLines` | kind2anki/kindleimporter.py:271-295 | When no card has a newline in any field, writing each card's line followed by `\n` gives text whose newline split is the lines in order. |
| `AudioUrl.HasJapanese` | kind2anki/kindleimporter.py:37 | The scan answers yes exactly when some character of the word lies above U+3000. |
| `AudioUrl.GetAudioUrl` | kind2anki/kindleimporter.py:37-45 | A word with a character above U+3000 gets the JapanesePod101 URL; any other word gets a Forvo URL ending in `.mp3`. The URL has an `&` exactly when the word is Japanese and the reading is non-empty. |
| `AudioUrl.JapaneseQuery` | kind2anki/kindleimporter.py:39-42 | The text after `kanji=` holds an `&` exactly when the reading is non-empty. |
| `AudioUrl.JapaneseParameters` | kind2anki/kindleimporter.py:39-42 | The query after `kanji=` splits on `&` into the quoted word alone, or, when there is a reading, the quoted word and `kana=` with the quoted reading. |
| `AudioUrl.ForvoWord` | kind2anki/kindleimporter.py:45 | The file-name part of a Forvo URL decodes back to the word. |
| `UrlQuote.Quote` | kind2anki/kindleimporter.py:40 | Every character of a quoted string is a safe character or `%`, so it has no `&`, `=`, `?` or space. |
| `UrlQuote.QuoteRoundTrip` | kind2anki/kindleimporter.py:45 | Quoting is lossless: percent-decoding and UTF-8 decoding give back the original string. |
| `UrlQuote.Utf8RoundTrip` | kind2anki/kindleimporter.py:40 | UTF-8 decoding undoes the UTF-8 encoding `quote` applies first. |
| `UrlQuote.PercentDecodeQuoteBytes` | kind2anki/kindleimporter.py:40 | Percent-decoding undoes the byte quoting. |
| `DictionaryApi.EntryUrl` | kind2anki/kindleimporter.py:75 | The request URL is the API base followed by a component that decodes back to the word. |
| `DictionaryApi.DefinitionHtml` | kind2anki/kindleimporter.py:77-100 | The HTML is empty exactly when the request raised, the status is not 200, the body is not a non-empty list, or some definition object lacks `definition`. Otherwise it is wrapped in the definition `div`. |
| `DictionaryApi.RenderSenses` | kind2anki/kindleimporter.py:91-94 | The loop over definition objects fails exactly when one lacks `definition`; otherwise it builds each `<li>` item with its optional example. |
| `DictionaryApi.RenderMeaning` | kind2anki/kindleimporter.py:87-95 | One meaning renders exactly when its definitions are complete, as the optional part of speech followed by the optional list. |
| `DictionaryApi.RenderMeanings` | kind2anki/kindleimporter.py:86-95 | The loop over meanings succeeds exactly when every meaning is complete, concatenating them in order. |
| `DictionaryApi.RenderEntries` | kind2anki/kindleimporter.py:84-95 | The loop over entries succeeds exactly when every entry is complete, concatenating their HTML in order. |
| `DictionaryApi.LookupDictionary` | kind2anki/kindleimporter.py:77-98 | The nested loops of `lookupDictionary`, with the early exits, build exactly the HTML that `DefinitionHtml` describes. |
| `Oxford.Slug` | kind2anki/oxford_dictionary.py:55 | The URL form of a word has the word's length and no space: a hyphen wherever the word had a space, and the lower-cased character everywhere else. |
| `Oxford.GetUrl` | kind2anki/oxford_dictionary.py:49-55 | The URL is the search base or the definition base followed by the word's URL form, which has no space. |
| `Oxford.SlugIdempotent` | kind2anki/oxford_dictionary.py:55 | Normalising a normalised word changes nothing. |
| `Oxford.GetUrlNormalized` | kind2anki/oxford_dictionary.py:78-79 | `get_word_info` normalises the word before calling `get_url`, and this gives the same URL as passing the raw word. |
| `Oxford.SearchUrlsDiffer` | kind2anki/oxford_dictionary.py:51-54 | No search URL equals a definition URL. |
| `Oxford.Take` | kind2anki/oxford_dictionary.py:319 | `s[:n]` is a prefix of `s`. Its length is `min(n, len(s))`, or for a negative `n` is `max(len(s) + n, 0)`. |
| `Oxford.FormatDefinition` | kind2anki/oxford_dictionary.py:320-326 | A definition ends with its text. The labels come first when present, and the parenthesised grammar leads when only it is present. Each prefix appears only when its key does, so with neither the text is unchanged; the text is exactly labels, space, parenthesised grammar, space and definition, each part only when present. |
| `Oxford.KeptDefinitions` | kind2anki/oxford_dictionary.py:317-319 | The kept definitions are a prefix of the scraped list, empty when there is no list, and exactly `min(max_definitions, len)` long, or `max(len + max_definitions, 0)` for a negative limit. |
| `Oxford.ExamplesOf` | kind2anki/oxford_dictionary.py:330-333 | Every collected example is an example of one of the kept definitions. |
| `Oxford.Preferred` | kind2anki/oxford_dictionary.py:308-314 | No dictionary gives no entry; otherwise the American entry when there is one, else the British entry. |
| `Oxford.Pronunciation` | kind2anki/oxford_dictionary.py:308-314 | The pronunciation is empty exactly when there is no preferred entry; otherwise it is that entry between slashes. |
| `Oxford.LookupOxford` | kind2anki/oxford_dictionary.py:292-343 | No record gives `None`, and a record always gives a result. The result carries the scraped name, possibly `None`, and the word form. Its definitions are exactly the kept definitions formatted one for one, so at most `max_definitions` of them, the i-th formatted from the i-th scraped definition. The examples are collected from the kept definitions, and the pronunciation and audio URL are the preferred entries. |
| `Oxford.FormatDefinitions` | kind2anki/oxford_dictionary.py:317-333 | The loop of `lookup_oxford_dictionary` appends exactly the formatted kept definitions and their limited examples. |
| `Oxford.LookupOxfordDictionary` | kind2anki/oxford_dictionary.py:292-347 | The statements of `lookup_oxford_dictionary` compute exactly the result `LookupOxford` describes for the record `get_word_info` returns. |
| `Oxford.ExamplesBound` | kind2anki/oxford_dictionary.py:330-333 | For a non-negative `max_examples_per_def`, collecting examples over `n` definitions gives at most `n * max_examples_per_def` of them. |
| `Oxford.TotalExamplesBound` | kind2anki/oxford_dictionary.py:319-333 | For non-negative `max_definitions` and `max_examples_per_def`, a result has at most `max_definitions * max_examples_per_def` examples. |
| `Oxford.DefaultLimits` | kind2anki/oxford_dictionary.py:280 | With the default limits a result has at most three definitions and at most six examples. |
| `Oxford.ExamplesAppend` | kind2anki/oxford_dictionary.py:330-333 | Examples are collected in definition order: collecting over two runs of definitions concatenates their collections. |
| `Oxford.ExamplesOfOne` | kind2anki/oxford_dictionary.py:331-333 | One definition contributes the first `max_examples_per_def` of its examples (by Python slicing), in order, and all of them when the limit allows. |
| `Oxford.AmericanPreferred` | kind2anki/oxford_dictionary.py:310-312 | An American entry is used whatever the British entry says. |
| `Oxford.BritishFallback` | kind2anki/oxford_dictionary.py:336-341 | Without an American entry the British one is used. Without either, or with no dictionary, the pronunciation and the audio URL are empty. |
| `Oxford.SafeWord` | kind2anki/oxford_dictionary.py:367 | The safe word is the word's alphanumerics, spaces, hyphens and underscores in order, with only trailing spaces removed: a prefix of that filtered text, the rest of which is spaces, and it does not end in a space. |
| `Oxford.AudioFileName` | kind2anki/oxford_dictionary.py:367-368 | The file name is the safe word followed by `_oxford.mp3`, and it contains neither `/` nor `\`. |
| `Oxford.DownloadAudioFile` | kind2anki/oxford_dictionary.py:362-393 | An empty audio URL gives `None`. Otherwise the result is the file name exactly when the file is already present or the download succeeds. |
| `Oxford.SafeWordIdempotent` | kind2anki/oxford_dictionary.py:367 | Sanitising a sanitised word changes nothing. |
| `Oxford.SafeWordKeeps` | kind2anki/oxford_dictionary.py:367 | A word of file-name characters that does not end in a space is kept as it is. |
| `Oxford.AudioFileNameIgnoresOthers` | kind2anki/oxford_dictionary.py:367-368 | Words with the same file-name characters share one audio file. |

## Left out

- Text.Lower, Text.IsAlnum: `str.lower` and `str.isalnum` are modelled for ASCII only. Python's Unicode case mapping and alphanumeric tables are not modelled, so non-ASCII letters are neither lower-cased nor kept as alphanumeric. This affects `detect_word_type`, the blank-out match (`word.lower()` and the cleaned sentence word, kindleimporter.py:218 and 224), the blank-out punctuation, `get_url` and the audio file name.
- Python strings can hold lone surrogate code points, but Dafny's `char` cannot. `quote` of such a string raises in `get_audio_url`, and the model does not have that case.
- SQLite access in `getWordsFromDB` (kindleimporter.py:125-193) is database I/O. Its results are the input `Cards.Vocabulary`. As written, it stores an empty reading for every word, so the `&kana=` branch of `get_audio_url` is never taken from there.
- `fetchWordsFromDBWithoutTranslation` (kindleimporter.py:121-123) is not modelled. Its list of empty strings is not a list of card records.
- `createTimestamp` is not modelled: it reads the wall clock and the local time zone.
- The translation service (`translate`, whose module is not part of this model), `translateWord` and every HTTP request are parameters. This covers `lookupDictionary`'s request, `get_word_info`'s session and the audio download. A service that raises is `None`. `str(...)` around the translation is taken to give its text.
- `response.json()` is taken as already decoded into `DictionaryApi.Body`. List elements that are not JSON objects are not modelled, and neither is a decoding failure.
- `get_word_info` and its BeautifulSoup scrapers (oxford_dictionary.py:57-277) are left out; the record they build is the input `Oxford.WordInfo`. The `except Exception` of `lookup_oxford_dictionary` is not modelled, because nothing in the modelled steps raises on such a record.
- Writing the temporary file, its path and its UTF-8 encoding are left out; the model is the text written.
- `ensure_dependencies_installed` (pip in a subprocess), the Qt dialog, and the debug and packaging scripts are left out.
- Oxford.ExamplesOf: its own contract states only that each example comes from a kept definition. Which examples are taken, and in what order, is stated by `ExamplesOfOne` and `ExamplesAppend` together.
- AudioUrl.JapaneseParameters: states the query parameters in their quoted form. Decoding the JapanesePod101 word back is `QuoteRoundTrip` applied to the first parameter, and is not restated in the lemma.
