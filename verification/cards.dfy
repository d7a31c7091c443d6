/** `KindleImporter.translateWords` and `createTemporaryFile`: building one card
    record per looked-up word from what the vocabulary database gave, and
    writing each card as a nine-field, semicolon-delimited line for Anki's
    text importer. */
module Cards {
  import opened Wrappers
  import opened Text
  import opened WordType
  import opened Usage
  import DictionaryApi

  /** A word's id in the Kindle vocabulary database. */
  type Key = string

  /** What `getWordsFromDB` leaves behind, taken as given: the words and their
      ids in query order, and per-id maps of language, reading, first usage
      sentence, frequency, book title and audio URL. */
  datatype Vocabulary = Vocabulary(
    words: seq<string>,
    keys: seq<Key>,
    langs: map<Key, string>,
    readings: map<Key, string>,
    sentences: map<Key, string>,
    frequencies: map<Key, string>,
    bookNames: map<Key, string>,
    audioUrls: map<Key, string>)

  /** The importer's options. */
  datatype Settings = Settings(
    targetLanguage: string,
    includeUsage: bool,
    doTranslate: bool,
    includeDictionary: bool)

  /** The network, as inputs: `translate(text, from_lang, to_lang)` (`None` when
      it raises; no `from_lang` means the service default), and the dictionary
      API's response to a URL (`None` when the request raises). */
  datatype Services = Services(
    translate: (string, Option<string>, string) -> Option<string>,
    fetch: string -> Option<DictionaryApi.Response>)

  /** The `card_data` dictionary built for each word. */
  datatype CardData = CardData(
    word: string,
    reading: string,
    translatedDefinition: string,
    dictionaryDefinition: string,
    sentence: string,
    frequency: string,
    bookName: string,
    audioUrl: string)

  const UnknownBook: string := "Unknown Book"
  const CannotTranslate: string := "cannot translate"
  const DefaultLanguage: string := "en"

  /** `m.get(k, default)`. */
  function Get(m: map<Key, string>, k: Key, default: string): string {
    if k in m then m[k] else default
  }

  /** `lookupDictionary(word)`: request the word's entry and shape the answer. */
  function DictionaryHtml(word: string, services: Services): (html: string)
    ensures services.fetch(DictionaryApi.EntryUrl(word)).None? ==> html == ""
    ensures html != "" ==> StartsWith(html, DictionaryApi.OpenDiv) && EndsWith(html, DictionaryApi.CloseDiv)
    ensures var response := services.fetch(DictionaryApi.EntryUrl(word));
            html != "" <==> response.Some? && response.value.status == 200
                            && response.value.body.EntryList? && |response.value.body.entries| > 0
                            && DictionaryApi.Complete(response.value.body.entries)
  {
    DictionaryApi.DefinitionHtml(services.fetch(DictionaryApi.EntryUrl(word)))
  }

  /** The translation field: the translation into the target language,
      "cannot translate" when the service raises, empty when switched off. */
  function TranslatedDefinition(word: string, settings: Settings, services: Services): (t: string)
    ensures !settings.doTranslate ==> t == ""
    ensures settings.doTranslate && services.translate(word, None, settings.targetLanguage).None?
            ==> t == CannotTranslate
    ensures settings.doTranslate && services.translate(word, None, settings.targetLanguage).Some?
            ==> t == services.translate(word, None, settings.targetLanguage).value
  {
    if settings.doTranslate then services.translate(word, None, settings.targetLanguage).GetOr(CannotTranslate)
    else ""
  }

  /** The dictionary field: English words are looked up as they are; other
      words are first translated into English, and a failed translation
      leaves the field empty. */
  function DictionaryDefinition(word: string, key: Key, vocabulary: Vocabulary, settings: Settings,
                                services: Services): (d: string)
    ensures !settings.includeDictionary ==> d == ""
    ensures settings.includeDictionary && Get(vocabulary.langs, key, DefaultLanguage) == DefaultLanguage
            ==> d == DictionaryHtml(word, services)
    ensures settings.includeDictionary && Get(vocabulary.langs, key, DefaultLanguage) != DefaultLanguage
            && services.translate(word, Some(Get(vocabulary.langs, key, DefaultLanguage)), DefaultLanguage).None?
            ==> d == ""
    ensures settings.includeDictionary && Get(vocabulary.langs, key, DefaultLanguage) != DefaultLanguage
            && services.translate(word, Some(Get(vocabulary.langs, key, DefaultLanguage)), DefaultLanguage).Some?
            ==> d == DictionaryHtml(
                  services.translate(word, Some(Get(vocabulary.langs, key, DefaultLanguage)), DefaultLanguage).value,
                  services)
  {
    if !settings.includeDictionary then ""
    else
      var lang := Get(vocabulary.langs, key, DefaultLanguage);
      if lang == DefaultLanguage then DictionaryHtml(word, services)
      else match services.translate(word, Some(lang), DefaultLanguage)
        case None => ""
        case Some(english) => DictionaryHtml(english, services)
  }

  /** One iteration of `translateWords`: the card for `word` (whose id is `key`),
      with the documented defaults for ids the database maps lack. */
  function MakeCard(word: string, key: Key, vocabulary: Vocabulary, settings: Settings,
                    services: Services): (card: CardData)
    ensures card.word == word
    ensures key in vocabulary.readings ==> card.reading == vocabulary.readings[key]
    ensures key !in vocabulary.readings ==> card.reading == ""
    ensures key in vocabulary.frequencies ==> card.frequency == vocabulary.frequencies[key]
    ensures key !in vocabulary.frequencies ==> card.frequency == ""
    ensures key in vocabulary.audioUrls ==> card.audioUrl == vocabulary.audioUrls[key]
    ensures key !in vocabulary.audioUrls ==> card.audioUrl == ""
    ensures key in vocabulary.bookNames ==> card.bookName == vocabulary.bookNames[key]
    ensures key !in vocabulary.bookNames ==> card.bookName == UnknownBook
    ensures ';' !in card.sentence && '\n' !in card.sentence
    ensures !settings.includeUsage || key !in vocabulary.sentences ==> card.sentence == ""
    ensures settings.includeUsage && key in vocabulary.sentences
            ==> card.sentence == UsageExample(vocabulary.sentences[key], word, true)
    ensures card.translatedDefinition == TranslatedDefinition(word, settings, services)
    ensures card.dictionaryDefinition == DictionaryDefinition(word, key, vocabulary, settings, services)
  {
    CardData(
      word,
      Get(vocabulary.readings, key, ""),
      TranslatedDefinition(word, settings, services),
      DictionaryDefinition(word, key, vocabulary, settings, services),
      UsageExample(Get(vocabulary.sentences, key, ""), word, settings.includeUsage),
      Get(vocabulary.frequencies, key, ""),
      Get(vocabulary.bookNames, key, UnknownBook),
      Get(vocabulary.audioUrls, key, ""))
  }

  /** `translateWords`: one card per pair of `zip(words, word_keys)`, in order. */
  method TranslateWords(vocabulary: Vocabulary, settings: Settings, services: Services)
    returns (cards: seq<CardData>)
    ensures |cards| == Min(|vocabulary.words|, |vocabulary.keys|)
    ensures forall i :: 0 <= i < |cards| ==>
      cards[i] == MakeCard(vocabulary.words[i], vocabulary.keys[i], vocabulary, settings, services)
  {
    var n := Min(|vocabulary.words|, |vocabulary.keys|);
    cards := [];
    var i := 0;
    while i < n
      invariant 0 <= i <= n
      invariant |cards| == i
      invariant forall j :: 0 <= j < i ==>
        cards[j] == MakeCard(vocabulary.words[j], vocabulary.keys[j], vocabulary, settings, services)
    {
      cards := cards + [MakeCard(vocabulary.words[i], vocabulary.keys[i], vocabulary, settings, services)];
      i := i + 1;
    }
  }

  // ---------------------------------------------------------------------------
  // The Anki line
  // ---------------------------------------------------------------------------

  const FieldCount: nat := 9
  const Attribution: string := "Generated by Kind2Anki " + "from Kindle Vocabulary Builder"

  /** The "Def" field: the translation, followed by a rule and the dictionary
      definition when there is one. */
  function Definition(card: CardData): (d: string)
    ensures StartsWith(d, card.translatedDefinition)
    ensures card.dictionaryDefinition == "" <==> d == card.translatedDefinition
    ensures card.dictionaryDefinition != "" ==> EndsWith(d, "<hr>" + card.dictionaryDefinition)
    ensures card.dictionaryDefinition != "" ==> d == card.translatedDefinition + "<hr>" + card.dictionaryDefinition
  {
    if card.dictionaryDefinition != "" then
      var d := card.translatedDefinition + "<hr>" + card.dictionaryDefinition;
      assert d[..|card.translatedDefinition|] == card.translatedDefinition;
      assert d[|d| - |"<hr>" + card.dictionaryDefinition|..] == "<hr>" + card.dictionaryDefinition;
      d
    else card.translatedDefinition
  }

  /** The nine fields of the note type, in order: Word, Word Type, Phonetic,
      Example, Sound, Image, Def, Content, Copyright. */
  function Fields(card: CardData): (fs: seq<string>)
    ensures |fs| == FieldCount
    ensures fs[0] == card.word && fs[2] == card.reading && fs[3] == card.sentence
    ensures fs[1] == DetectWordTypeLabel(card.word)
    ensures fs[4] == "[sound:" + card.word + ".mp3]"
    ensures fs[5] == ""
    ensures fs[6] == Definition(card)
    ensures fs[7] == "Source: " + card.bookName
    ensures fs[8] == Attribution
  {
    [ card.word,
      DetectWordTypeLabel(card.word),
      card.reading,
      card.sentence,
      "[sound:" + card.word + ".mp3]",
      "",
      Definition(card),
      "Source: " + card.bookName,
      Attribution ]
  }

  /** Each field with its semicolons turned into commas. */
  function EscapedFields(card: CardData): (fs: seq<string>)
    ensures |fs| == FieldCount
    ensures forall i :: 0 <= i < FieldCount ==> ';' !in fs[i]
    ensures forall i :: 0 <= i < FieldCount ==> fs[i] == EscapeSemicolons(Fields(card)[i])
  {
    var raw := Fields(card);
    seq(FieldCount, i requires 0 <= i < FieldCount => EscapeSemicolons(raw[i]))
  }

  /** The line written for a card, without its newline. Splitting it on `;`
      gives back exactly its nine escaped fields: no field can leak into its
      neighbour. */
  function CardLine(card: CardData): (line: string)
    ensures SplitOn(';', line) == EscapedFields(card)
    ensures |SplitOn(';', line)| == FieldCount
  {
    SplitOnJoin(';', EscapedFields(card));
    Join([';'], EscapedFields(card))
  }

  /** The contents of the temporary import file, or `None` when there were no
      words (`createTemporaryFile` returns `None` before creating the file). */
  function TemporaryFile(wordCount: nat, cards: seq<CardData>): (file: Option<string>)
    ensures file.None? <==> wordCount == 0
  {
    if wordCount == 0 then None else Some(FileText(cards))
  }

  /** The lines of the file, each followed by a newline, in card order. */
  function FileText(cards: seq<CardData>): (text: string)
    ensures |cards| == 0 <==> text == ""
    ensures |cards| > 0 ==> text[|text| - 1] == '\n'
    ensures |cards| > 0 ==> StartsWith(text, CardLine(cards[0]) + "\n")
    decreases |cards|
  {
    if |cards| == 0 then "" else CardLine(cards[0]) + "\n" + FileText(cards[1..])
  }

  /** The cards' lines without their newlines, in card order. */
  function Lines(cards: seq<CardData>): (ls: seq<string>)
    ensures |ls| == |cards|
    decreases |cards|
  {
    if |cards| == 0 then [] else [CardLine(cards[0])] + Lines(cards[1..])
  }

  // ---------------------------------------------------------------------------
  // Lemmas
  // ---------------------------------------------------------------------------

  /** `m` and `m2` hold the same entry for `k`, or both lack one. */
  predicate SameEntry(m: map<Key, string>, m2: map<Key, string>, k: Key) {
    (k in m <==> k in m2) && (k in m ==> m[k] == m2[k])
  }

  /** Two vocabularies that agree on everything stored for `key`. */
  predicate AgreeOn(v: Vocabulary, v2: Vocabulary, key: Key) {
    && SameEntry(v.langs, v2.langs, key)
    && SameEntry(v.readings, v2.readings, key)
    && SameEntry(v.sentences, v2.sentences, key)
    && SameEntry(v.frequencies, v2.frequencies, key)
    && SameEntry(v.bookNames, v2.bookNames, key)
    && SameEntry(v.audioUrls, v2.audioUrls, key)
  }

  /** A card depends on the database only through its own id's entries: the
      other words' data never leaks into it. */
  lemma MakeCardLocal(word: string, key: Key, v: Vocabulary, v2: Vocabulary, settings: Settings,
                      services: Services)
    requires AgreeOn(v, v2, key)
    ensures MakeCard(word, key, v, settings, services) == MakeCard(word, key, v2, settings, services)
  {
    assert Get(v.langs, key, DefaultLanguage) == Get(v2.langs, key, DefaultLanguage);
  }

  /** No newline in the card data that `createTemporaryFile` writes without
      rewriting: the word, reading, translation, dictionary HTML and book name.
      (The example sentence is re-joined on spaces, so `MakeCard` never leaves
      a newline in it.) */
  predicate NoNewline(card: CardData) {
    && '\n' !in card.word && '\n' !in card.reading
    && '\n' !in card.translatedDefinition && '\n' !in card.dictionaryDefinition
    && '\n' !in card.bookName
  }

  /** No character of any field of the card is a newline. */
  predicate SingleLine(card: CardData) {
    NoNewline(card) && '\n' !in card.sentence
  }

  /** None of the nine raw fields holds a newline. */
  lemma FieldsNoNewline(card: CardData)
    requires SingleLine(card)
    ensures forall i :: 0 <= i < FieldCount ==> '\n' !in Fields(card)[i]
  {
    var raw := Fields(card);
    forall i | 0 <= i < FieldCount
      ensures '\n' !in raw[i]
    {
      if i == 1 {
        LabelNoNewline(raw[1]);
      } else if i == 4 {
        assert raw[4] == "[sound:" + card.word + ".mp3]";
      } else if i == 6 {
        DefinitionNoNewline(card);
      } else if i == 7 {
        assert raw[7] == "Source: " + card.bookName;
      } else if i == 8 {
        FixedFieldsNoNewline();
      }
    }
  }

  lemma LabelNoNewline(name: string)
    requires name in Labels
    ensures '\n' !in name
  {
  }

  lemma DefinitionNoNewline(card: CardData)
    requires NoNewline(card)
    ensures '\n' !in Definition(card)
  {
    if card.dictionaryDefinition != "" {
      assert Definition(card) == card.translatedDefinition + "<hr>" + card.dictionaryDefinition;
    }
  }

  lemma FixedFieldsNoNewline()
    ensures '\n' !in Attribution
  {
    assert '\n' !in "Generated by Kind2Anki ";
    assert '\n' !in "from Kindle Vocabulary Builder";
  }

  lemma CardLineNoNewline(card: CardData)
    requires SingleLine(card)
    ensures '\n' !in CardLine(card)
  {
    var raw := Fields(card);
    var fs := EscapedFields(card);
    FieldsNoNewline(card);
    forall i | 0 <= i < |fs|
      ensures '\n' !in fs[i]
    {
      EscapeKeepsOut('\n', raw[i]);
    }
    JoinExcludes('\n', [';'], fs);
  }

  /** For the cards `translateWords` builds, when no word, reading,
      translation, dictionary HTML or book name holds a newline, the file
      splits on `\n` into exactly one line per card, in order, followed by the
      empty text after the last newline. */
  lemma {:induction false} FileLines(wordCount: nat, vocabulary: Vocabulary, settings: Settings,
                                     services: Services, cards: seq<CardData>)
    requires wordCount > 0
    requires |cards| <= |vocabulary.words| && |cards| <= |vocabulary.keys|
    requires forall i :: 0 <= i < |cards| ==>
      cards[i] == MakeCard(vocabulary.words[i], vocabulary.keys[i], vocabulary, settings, services)
    requires forall i :: 0 <= i < |cards| ==> NoNewline(cards[i])
    ensures SplitOn('\n', TemporaryFile(wordCount, cards).value) == Lines(cards) + [""]
  {
    FileTextLines(cards);
  }

  lemma {:induction false} FileTextLines(cards: seq<CardData>)
    requires forall i :: 0 <= i < |cards| ==> SingleLine(cards[i])
    ensures SplitOn('\n', FileText(cards)) == Lines(cards) + [""]
    decreases |cards|
  {
    if |cards| > 0 {
      FileTextStep(cards);
      FileTextLines(cards[1..]);
    }
  }

  /** The first card's line is the first piece of the file split on `\n`. */
  lemma {:induction false} FileTextStep(cards: seq<CardData>)
    requires |cards| > 0 && SingleLine(cards[0])
    ensures SplitOn('\n', FileText(cards)) == [CardLine(cards[0])] + SplitOn('\n', FileText(cards[1..]))
  {
    var line := CardLine(cards[0]);
    CardLineNoNewline(cards[0]);
    assert FileText(cards) == line + ['\n'] + FileText(cards[1..]);
    SplitOnFirst('\n', line, FileText(cards[1..]));
  }

}
