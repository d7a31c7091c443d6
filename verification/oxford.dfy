/** The Oxford Learner's Dictionary integration: the page URL for a word, the
    reduction of a scraped word-information record to the add-on's result, and
    the file name an audio download is saved under. The scraping and the
    requests are inputs: the record, or `None` when `get_word_info` failed. */
module Oxford {
  import opened Wrappers
  import opened Text

  // ---------------------------------------------------------------------------
  // get_url
  // ---------------------------------------------------------------------------

  const Site: string := "https://www.oxfordlearnersdictionaries.com"
  const SearchBase: string := Site + "/search/english/?q="
  const DefinitionBase: string := Site + "/definition/english/"

  /** The word as it appears in an Oxford URL: spaces become hyphens, then the
      whole is lower-cased. */
  function Slug(word: string): (s: string)
    ensures |s| == |word|
    ensures ' ' !in s
    ensures forall i :: 0 <= i < |word| && word[i] == ' ' ==> s[i] == '-'
    ensures forall i :: 0 <= i < |word| && word[i] != ' ' ==> s[i] == LowerChar(word[i])
  {
    Lower(ReplaceChar(word, ' ', '-'))
  }

  function BaseUrl(isSearch: bool): string {
    if isSearch then SearchBase else DefinitionBase
  }

  /** `OxfordDictionary.get_url`: the search or the definition page of a word. */
  function GetUrl(word: string, isSearch: bool): (url: string)
    ensures StartsWith(url, BaseUrl(isSearch))
    ensures url[|BaseUrl(isSearch)|..] == Slug(word)
    ensures ' ' !in url[|BaseUrl(isSearch)|..]
  {
    var url := BaseUrl(isSearch) + Slug(word);
    assert url[..|BaseUrl(isSearch)|] == BaseUrl(isSearch);
    assert url[|BaseUrl(isSearch)|..] == Slug(word);
    url
  }

  /** A slug is its own slug. */
  lemma SlugIdempotent(word: string)
    ensures Slug(Slug(word)) == Slug(word)
  {
    var s := Slug(word);
    assert forall i :: 0 <= i < |s| ==> LowerChar(s[i]) == s[i];
  }

  /** `get_word_info` normalises the word before passing it to `get_url`, which
      normalises it again; the second pass changes nothing. */
  lemma GetUrlNormalized(word: string, isSearch: bool)
    ensures GetUrl(Slug(word), isSearch) == GetUrl(word, isSearch)
  {
    SlugIdempotent(word);
  }

  /** A search URL is never a definition URL: the page kind can be read back
      from the URL. */
  lemma SearchUrlsDiffer(word: string, other: string)
    ensures GetUrl(word, true) != GetUrl(other, false)
  {
    var k := |Site| + 1;
    assert GetUrl(word, true)[k] == SearchBase[k] == 's';
    assert GetUrl(other, false)[k] == DefinitionBase[k] == 'd';
  }

  // ---------------------------------------------------------------------------
  // The word information record
  // ---------------------------------------------------------------------------

  /** A `{'british': …, 'american': …}` dictionary; a missing key is `None`. */
  datatype Accents = Accents(british: Option<string>, american: Option<string>)

  /** One scraped sense: its definition, and the grammar, labels and examples
      keys, each of which may be missing. */
  datatype DefInfo = DefInfo(
    definition: Option<string>,
    grammar: Option<string>,
    labels: Option<string>,
    examples: Option<seq<string>>)

  /** The record `get_word_info` returns. All six keys are always present; the
      scrapers leave a value `None` when they find nothing. */
  datatype WordInfo = WordInfo(
    name: Option<string>,
    wordform: Option<string>,
    pronunciations: Option<Accents>,
    definitions: Option<seq<DefInfo>>,
    examples: Option<seq<string>>,
    audioUrls: Option<Accents>)

  /** The dictionary `lookup_oxford_dictionary` returns. */
  datatype OxfordEntry = OxfordEntry(
    word: Option<string>,
    wordType: Option<string>,
    pronunciation: string,
    definitions: seq<string>,
    examples: seq<string>,
    audioUrl: string)

  const DefaultMaxDefinitions: int := 3
  const DefaultMaxExamples: int := 2

  /** Python's `s[:n]`: the first `n` items, or, for a negative `n`, all but
      the last `-n`. */
  function Take<T>(s: seq<T>, n: int): (r: seq<T>)
    ensures |r| <= |s| && r == s[..|r|]
    ensures n >= 0 ==> |r| == Min(n, |s|)
    ensures n < 0 ==> |r| == Max(|s| + n, 0)
  {
    if n >= 0 then (if n <= |s| then s[..n] else s)
    else if |s| + n >= 0 then s[..|s| + n]
    else []
  }

  // ---------------------------------------------------------------------------
  // lookup_oxford_dictionary
  // ---------------------------------------------------------------------------

  function LabelsPrefix(d: DefInfo): string {
    if d.labels.Some? then d.labels.value + " " else ""
  }

  function GrammarPrefix(d: DefInfo): string {
    if d.grammar.Some? then "(" + d.grammar.value + ") " else ""
  }

  /** One definition as the result shows it: the labels outside the
      parenthesised grammar, both in front of the definition text, each only
      when its key is present. */
  function FormatDefinition(d: DefInfo): (text: string)
    ensures EndsWith(text, d.definition.GetOr(""))
    ensures d.labels.Some? ==> StartsWith(text, d.labels.value + " ")
    ensures d.labels.None? && d.grammar.Some? ==> StartsWith(text, "(" + d.grammar.value + ") ")
    ensures d.labels.None? && d.grammar.None? ==> text == d.definition.GetOr("")
    ensures |text| == |LabelsPrefix(d)| + |GrammarPrefix(d)| + |d.definition.GetOr("")|
    ensures text == LabelsPrefix(d) + GrammarPrefix(d) + d.definition.GetOr("")
  {
    var base := d.definition.GetOr("");
    var withGrammar := if d.grammar.Some? then "(" + d.grammar.value + ") " + base else base;
    var text := if d.labels.Some? then d.labels.value + " " + withGrammar else withGrammar;
    assert text == LabelsPrefix(d) + GrammarPrefix(d) + base;
    assert text[|text| - |base|..] == base;
    assert d.labels.Some? ==> text[..|d.labels.value + " "|] == d.labels.value + " ";
    text
  }

  /** The definitions kept from a record: at most `maxDefinitions` of them (by
      Python slicing), taken from the front. */
  function KeptDefinitions(info: WordInfo, maxDefinitions: int): (kept: seq<DefInfo>)
    ensures info.definitions.None? ==> kept == []
    ensures info.definitions.Some? ==>
              |kept| <= |info.definitions.value| && kept == info.definitions.value[..|kept|]
    ensures maxDefinitions >= 0 ==> |kept| <= maxDefinitions
    ensures info.definitions.Some? && maxDefinitions >= 0
            ==> |kept| == Min(maxDefinitions, |info.definitions.value|)
    ensures info.definitions.Some? && maxDefinitions < 0
            ==> |kept| == Max(|info.definitions.value| + maxDefinitions, 0)
  {
    if info.definitions.Some? then Take(info.definitions.value, maxDefinitions) else []
  }

  /** The formatted definitions, one for one. */
  function FormatAll(ds: seq<DefInfo>): (texts: seq<string>)
    ensures |texts| == |ds|
  {
    seq(|ds|, i requires 0 <= i < |ds| => FormatDefinition(ds[i]))
  }

  /** The examples collected from the kept definitions: at most `maxExamples`
      from each, in definition order. */
  function ExamplesOf(ds: seq<DefInfo>, maxExamples: int): (xs: seq<string>)
    ensures forall x :: x in xs ==> exists i :: 0 <= i < |ds| && x in ds[i].examples.GetOr([])
    decreases |ds|
  {
    if |ds| == 0 then []
    else
      var last := Take(ds[|ds| - 1].examples.GetOr([]), maxExamples);
      var xs := ExamplesOf(ds[..|ds| - 1], maxExamples) + last;
      assert forall x :: x in last ==> x in ds[|ds| - 1].examples.GetOr([]);
      assert forall i :: 0 <= i < |ds| - 1 ==> ds[..|ds| - 1][i] == ds[i];
      xs
  }

  /** The accent a pronunciation or audio dictionary gives: the American one
      when present, else the British one. */
  function Preferred(accents: Option<Accents>): (p: Option<string>)
    ensures accents.None? ==> p.None?
    ensures accents.Some? && accents.value.american.Some? ==> p == accents.value.american
    ensures accents.Some? && accents.value.american.None? ==> p == accents.value.british
  {
    match accents
    case None => None
    case Some(a) => if a.american.Some? then a.american else a.british
  }

  /** The pronunciation between slashes, or empty when there is none. */
  function Pronunciation(pronunciations: Option<Accents>): (p: string)
    ensures p == "" <==> Preferred(pronunciations).None?
    ensures p != "" ==> p == "/" + Preferred(pronunciations).value + "/"
  {
    match Preferred(pronunciations)
    case None => ""
    case Some(text) => "/" + text + "/"
  }

  /** `lookup_oxford_dictionary` over the record `get_word_info` produced:
      `None` when there is none, otherwise the name and word form as scraped,
      the preferred pronunciation and audio URL, and the first
      `maxDefinitions` definitions with up to `maxExamples` examples each. */
  function LookupOxford(info: Option<WordInfo>, maxDefinitions: int, maxExamples: int): (r: Option<OxfordEntry>)
    ensures r.None? <==> info.None?
    ensures r.Some? ==> r.value.word == info.value.name && r.value.wordType == info.value.wordform
    ensures r.Some? && maxDefinitions >= 0 ==> |r.value.definitions| <= maxDefinitions
    ensures r.Some? ==> forall i :: 0 <= i < |r.value.definitions| ==>
              && info.value.definitions.Some?
              && i < |info.value.definitions.value|
              && r.value.definitions[i] == FormatDefinition(info.value.definitions.value[i])
    ensures r.Some? ==> r.value.definitions == FormatAll(KeptDefinitions(info.value, maxDefinitions))
    ensures r.Some? ==> r.value.pronunciation == Pronunciation(info.value.pronunciations)
    ensures r.Some? ==> r.value.examples == ExamplesOf(KeptDefinitions(info.value, maxDefinitions), maxExamples)
    ensures r.Some? ==> r.value.audioUrl == Preferred(info.value.audioUrls).GetOr("")
  {
    match info
    case None => None
    case Some(w) =>
      var kept := KeptDefinitions(w, maxDefinitions);
      Some(OxfordEntry(
        w.name,
        w.wordform,
        Pronunciation(w.pronunciations),
        FormatAll(kept),
        ExamplesOf(kept, maxExamples),
        Preferred(w.audioUrls).GetOr("")))
  }

  /** The loop of `lookup_oxford_dictionary` over the kept definitions,
      appending each formatted definition and its first examples. */
  method FormatDefinitions(kept: seq<DefInfo>, maxExamples: int)
    returns (definitions: seq<string>, examples: seq<string>)
    ensures definitions == FormatAll(kept)
    ensures examples == ExamplesOf(kept, maxExamples)
  {
    definitions := [];
    examples := [];
    var i := 0;
    while i < |kept|
      invariant 0 <= i <= |kept|
      invariant definitions == FormatAll(kept[..i])
      invariant examples == ExamplesOf(kept[..i], maxExamples)
    {
      var d := kept[i];
      var text := d.definition.GetOr("");
      if d.grammar.Some? {
        text := "(" + d.grammar.value + ") " + text;
      }
      if d.labels.Some? {
        text := d.labels.value + " " + text;
      }
      FormatStep(kept, i, maxExamples);
      definitions := definitions + [text];
      examples := examples + Take(d.examples.GetOr([]), maxExamples);
      i := i + 1;
    }
    assert kept[..i] == kept;
  }

  /** One more kept definition extends both lists at their ends. */
  lemma FormatStep(kept: seq<DefInfo>, i: int, maxExamples: int)
    requires 0 <= i < |kept|
    ensures FormatAll(kept[..i + 1]) == FormatAll(kept[..i]) + [FormatDefinition(kept[i])]
    ensures ExamplesOf(kept[..i + 1], maxExamples)
         == ExamplesOf(kept[..i], maxExamples) + Take(kept[i].examples.GetOr([]), maxExamples)
  {
    assert kept[..i + 1][..i] == kept[..i];
  }

  /** `lookup_oxford_dictionary(word, max_definitions, max_examples_per_def)`,
      with `get_word_info` as a parameter. */
  method LookupOxfordDictionary(word: string, getWordInfo: string -> Option<WordInfo>,
                                maxDefinitions: int, maxExamples: int)
    returns (r: Option<OxfordEntry>)
    ensures r == LookupOxford(getWordInfo(word), maxDefinitions, maxExamples)
  {
    var info := getWordInfo(word);
    if info.None? {
      return None;
    }
    var w := info.value;
    var pronunciation := "";
    if w.pronunciations.Some? {
      if w.pronunciations.value.american.Some? {
        pronunciation := "/" + w.pronunciations.value.american.value + "/";
      } else if w.pronunciations.value.british.Some? {
        pronunciation := "/" + w.pronunciations.value.british.value + "/";
      }
    }
    var definitions: seq<string> := [];
    var examples: seq<string> := [];
    if w.definitions.Some? {
      definitions, examples := FormatDefinitions(Take(w.definitions.value, maxDefinitions), maxExamples);
    }
    var audioUrl := "";
    if w.audioUrls.Some? {
      if w.audioUrls.value.american.Some? {
        audioUrl := w.audioUrls.value.american.value;
      } else if w.audioUrls.value.british.Some? {
        audioUrl := w.audioUrls.value.british.value;
      }
    }
    return Some(OxfordEntry(w.name, w.wordform, pronunciation, definitions, examples, audioUrl));
  }

  // ---------------------------------------------------------------------------
  // Properties of the lookup
  // ---------------------------------------------------------------------------

  /** Each kept definition contributes at most `maxExamples` examples. */
  lemma {:induction false} ExamplesBound(ds: seq<DefInfo>, maxExamples: int)
    requires maxExamples >= 0
    ensures |ExamplesOf(ds, maxExamples)| <= |ds| * maxExamples
    decreases |ds|
  {
    if |ds| > 0 {
      ExamplesBound(ds[..|ds| - 1], maxExamples);
      assert |ds| * maxExamples == (|ds| - 1) * maxExamples + maxExamples;
    }
  }

  /** The result holds at most `maxDefinitions * maxExamples` examples. */
  lemma TotalExamplesBound(info: WordInfo, maxDefinitions: int, maxExamples: int)
    requires maxDefinitions >= 0 && maxExamples >= 0
    ensures |LookupOxford(Some(info), maxDefinitions, maxExamples).value.examples| <= maxDefinitions * maxExamples
  {
    var kept := KeptDefinitions(info, maxDefinitions);
    ExamplesBound(kept, maxExamples);
    MultiplyMonotone(|kept|, maxDefinitions, maxExamples);
  }

  /** With the default limits a result has at most three definitions and at
      most six examples. */
  lemma DefaultLimits(info: WordInfo)
    ensures var r := LookupOxford(Some(info), DefaultMaxDefinitions, DefaultMaxExamples).value;
            |r.definitions| <= 3 && |r.examples| <= 6
  {
    TotalExamplesBound(info, DefaultMaxDefinitions, DefaultMaxExamples);
  }

  lemma MultiplyMonotone(a: int, b: int, c: int)
    requires 0 <= a <= b && c >= 0
    ensures a * c <= b * c
  {
  }

  /** Collecting examples over two runs of definitions gives the first run's
      examples followed by the second's: the order is kept. */
  lemma {:induction false} ExamplesAppend(a: seq<DefInfo>, b: seq<DefInfo>, maxExamples: int)
    ensures ExamplesOf(a + b, maxExamples) == ExamplesOf(a, maxExamples) + ExamplesOf(b, maxExamples)
    decreases |b|
  {
    if |b| == 0 {
      assert a + b == a;
    } else {
      var b' := b[..|b| - 1];
      assert (a + b)[..|a + b| - 1] == a + b';
      assert (a + b)[|a + b| - 1] == b[|b| - 1];
      ExamplesAppend(a, b', maxExamples);
    }
  }

  /** A single definition contributes its first `maxExamples` examples (by
      Python slicing), and all of them when the limit allows. */
  lemma ExamplesOfOne(d: DefInfo, maxExamples: int)
    ensures ExamplesOf([d], maxExamples) == Take(d.examples.GetOr([]), maxExamples)
    ensures maxExamples >= 0 ==> |ExamplesOf([d], maxExamples)| == Min(maxExamples, |d.examples.GetOr([])|)
    ensures maxExamples >= |d.examples.GetOr([])| ==> ExamplesOf([d], maxExamples) == d.examples.GetOr([])
  {
    assert [d][..0] == [];
  }

  /** The American entry wins whatever the British one says, for both the
      pronunciation and the audio URL. */
  lemma AmericanPreferred(british: Option<string>, other: Option<string>, american: string)
    ensures Preferred(Some(Accents(british, Some(american)))) == Some(american)
    ensures Pronunciation(Some(Accents(british, Some(american))))
         == Pronunciation(Some(Accents(other, Some(american))))
  {
  }

  /** Without an American entry the British one is used, and without either
      the pronunciation and the audio URL are empty. */
  lemma BritishFallback(accents: Option<Accents>)
    requires accents.None? || accents.value.american.None?
    ensures Pronunciation(accents) == if accents.Some? && accents.value.british.Some?
                                      then "/" + accents.value.british.value + "/" else ""
    ensures Preferred(accents).GetOr("") == if accents.Some? && accents.value.british.Some?
                                           then accents.value.british.value else ""
  {
  }

  // ---------------------------------------------------------------------------
  // download_audio_file
  // ---------------------------------------------------------------------------

  const AudioSuffix: string := "_oxford.mp3"

  /** The characters kept in an audio file name. */
  predicate IsFileNameChar(c: char) {
    IsAlnum(c) || c == ' ' || c == '-' || c == '_'
  }

  /** The word reduced to file-name characters, with trailing whitespace
      removed. */
  function SafeWord(word: string): (w: string)
    ensures forall c :: c in w ==> c in word && IsFileNameChar(c)
    ensures w == [] || w[|w| - 1] != ' '
    ensures |w| <= |word|
    ensures |w| <= |Filter(word, IsFileNameChar)| && Filter(word, IsFileNameChar)[..|w|] == w
    ensures forall i :: |w| <= i < |Filter(word, IsFileNameChar)| ==> Filter(word, IsFileNameChar)[i] == ' '
  {
    var kept := Filter(word, IsFileNameChar);
    var w := TrimEnd(kept, IsSpace);
    assert forall c :: c in w ==> c in kept;
    BlankTail(kept, |w|);
    w
  }

  /** The only whitespace a file-name character can be is the space. */
  lemma BlankTail(kept: string, n: nat)
    requires forall c :: c in kept ==> IsFileNameChar(c)
    requires n <= |kept|
    requires forall i :: n <= i < |kept| ==> IsSpace(kept[i])
    ensures forall i :: n <= i < |kept| ==> kept[i] == ' '
  {
    forall i | n <= i < |kept|
      ensures kept[i] == ' '
    {
      assert kept[i] in kept;
    }
  }

  /** The audio file's name: never a path, always ending in `_oxford.mp3`,
      with the safe word in front. */
  function AudioFileName(word: string): (name: string)
    ensures EndsWith(name, AudioSuffix)
    ensures name[..|name| - |AudioSuffix|] == SafeWord(word)
    ensures '/' !in name && '\\' !in name
  {
    var name := SafeWord(word) + AudioSuffix;
    assert name[|name| - |AudioSuffix|..] == AudioSuffix;
    assert name[..|name| - |AudioSuffix|] == SafeWord(word);
    NoSeparators(SafeWord(word));
    name
  }

  /** Neither path separator is a file-name character or part of the suffix. */
  lemma NoSeparators(safe: string)
    requires forall c :: c in safe ==> IsFileNameChar(c)
    ensures '/' !in safe + AudioSuffix && '\\' !in safe + AudioSuffix
  {
    assert '/' !in AudioSuffix && '\\' !in AudioSuffix;
    assert !IsFileNameChar('/') && !IsFileNameChar('\\');
  }

  /** `download_audio_file`, with the file system and the download as inputs:
      whether the file is already in the media folder, and whether the request
      and the write succeed. No URL, no file; otherwise the file's name when it
      is there or was fetched. */
  function DownloadAudioFile(audioUrl: string, word: string, alreadyPresent: bool, downloaded: bool)
    : (r: Option<string>)
    ensures audioUrl == "" ==> r.None?
    ensures r.Some? <==> audioUrl != "" && (alreadyPresent || downloaded)
    ensures r.Some? ==> r.value == AudioFileName(word)
  {
    if audioUrl == "" then None
    else if alreadyPresent || downloaded then Some(AudioFileName(word))
    else None
  }

  /** Sanitising a sanitised word changes nothing. */
  lemma SafeWordIdempotent(word: string)
    ensures SafeWord(SafeWord(word)) == SafeWord(word)
  {
    SafeWordKeeps(SafeWord(word));
  }

  /** A word made only of file-name characters and not ending in a space is
      its own safe word. */
  lemma SafeWordKeeps(word: string)
    requires forall i :: 0 <= i < |word| ==> IsFileNameChar(word[i])
    requires word == [] || word[|word| - 1] != ' '
    ensures SafeWord(word) == word
  {
    FilterKeepsAll(word, IsFileNameChar);
    assert word != [] ==> !IsSpace(word[|word| - 1]);
  }

  /** Two words with the same file-name characters share an audio file. */
  lemma AudioFileNameIgnoresOthers(a: string, b: string)
    requires Filter(a, IsFileNameChar) == Filter(b, IsFileNameChar)
    ensures AudioFileName(a) == AudioFileName(b)
  {
  }
}
