/** `KindleImporter.detect_word_type`: a suffix heuristic that gives a looked-up
    word a part-of-speech label for the card's "Word Type" field. */
module WordType {
  import opened Text

  datatype WordType = Verb | Adverb | Adjective | Noun | Phrase | Word

  /** The six labels the classifier can produce. */
  const Labels: set<string> := {"verb", "adverb", "adjective", "noun", "phrase", "word"}

  /** The label written into the card for each kind of word. */
  function Label(t: WordType): (r: string)
    ensures r in Labels
  {
    match t
    case Verb => "verb"
    case Adverb => "adverb"
    case Adjective => "adjective"
    case Noun => "noun"
    case Phrase => "phrase"
    case Word => "word"
  }

  /** Distinct kinds get distinct labels, so the label determines the kind. */
  lemma LabelInjective(t: WordType, u: WordType)
    ensures Label(t) == Label(u) ==> t == u
  {
  }

  const VerbSuffixes: seq<string> := ["ing", "ed", "en"]
  const AdverbSuffix: string := "ly"
  const AdjectiveSuffixes: seq<string> := ["ful", "less", "ous", "ive", "able", "ible"]
  const NounSuffixes: seq<string> := ["tion", "sion", "ness", "ment", "ity", "ty"]

  /** `w.endswith(suffixes)` for a tuple of suffixes. */
  predicate EndsWithAny(w: string, suffixes: seq<string>) {
    exists i :: 0 <= i < |suffixes| && EndsWith(w, suffixes[i])
  }

  /** The word as the classifier sees it: `word.lower().strip()`. */
  function Normalize(word: string): (r: string)
    ensures |r| <= |word|
    ensures r == [] || (!IsSpace(r[0]) && !IsSpace(r[|r| - 1]))
    ensures forall c :: c in r ==> c in Lower(word) && !('A' <= c <= 'Z')
  {
    Strip(Lower(word))
  }

  /** Whether the rule for `t`, taken on its own, accepts the normalised word `w`. */
  predicate Accepts(t: WordType, w: string) {
    match t
    case Verb => EndsWithAny(w, VerbSuffixes)
    case Adverb => EndsWith(w, AdverbSuffix)
    case Adjective => EndsWithAny(w, AdjectiveSuffixes)
    case Noun => EndsWithAny(w, NounSuffixes)
    case Phrase => |Split(w)| > 1
    case Word => true
  }

  /** The position of each rule in the order the classifier tries them. */
  function Priority(t: WordType): nat {
    match t
    case Verb => 0
    case Adverb => 1
    case Adjective => 2
    case Noun => 3
    case Phrase => 4
    case Word => 5
  }

  /** The rules tried in order on an already normalised word `w`. */
  function Classify(w: string): (t: WordType)
    ensures Accepts(t, w)
    ensures forall u :: Priority(u) < Priority(t) ==> !Accepts(u, w)
  {
    if EndsWithAny(w, VerbSuffixes) then Verb
    else if EndsWith(w, AdverbSuffix) then Adverb
    else if EndsWithAny(w, AdjectiveSuffixes) then Adjective
    else if EndsWithAny(w, NounSuffixes) then Noun
    else if |Split(w)| > 1 then Phrase
    else Word
  }

  /** The classifier: the first rule, in priority order, that accepts the
      normalised word. `Word` accepts everything, so some rule always applies. */
  function DetectWordType(word: string): (t: WordType)
    ensures Accepts(t, Normalize(word))
    ensures forall u :: Priority(u) < Priority(t) ==> !Accepts(u, Normalize(word))
  {
    Classify(Normalize(word))
  }

  /** The string `detect_word_type` returns. */
  function DetectWordTypeLabel(word: string): (r: string)
    ensures r in Labels
    ensures r == "verb" <==> EndsWithAny(Normalize(word), VerbSuffixes)
    ensures r == "word" ==> forall u :: u != Word ==> !Accepts(u, Normalize(word))
    ensures forall t :: r == Label(t) ==>
              Accepts(t, Normalize(word)) && forall u :: Priority(u) < Priority(t) ==> !Accepts(u, Normalize(word))
  {
    var t := DetectWordType(word);
    LabelOf(t);
    LabelDetermines(t);
    assert t == Word || Priority(t) < Priority(Word);
    Label(t)
  }

  lemma LabelDetermines(d: WordType)
    ensures forall t :: Label(t) == Label(d) ==> t == d
  {
    forall t | Label(t) == Label(d)
      ensures t == d
    {
      LabelInjective(t, d);
    }
  }

  lemma LabelOf(t: WordType)
    ensures Label(t) == "verb" <==> t == Verb
    ensures Label(t) == "word" <==> t == Word
  {
  }

  /** The normalised word is `word.lower().strip()`: the lower-cased word with
      exactly its leading and trailing whitespace removed. */
  lemma NormalizeStripped(word: string)
    ensures StrippedFrom(Normalize(word), Lower(word), IsSpace)
  {
    TrimStripped(Lower(word), IsSpace);
  }

  /** Normalising is idempotent. */
  lemma NormalizeIdempotent(word: string)
    ensures Normalize(Normalize(word)) == Normalize(word)
  {
    var x := Lower(word);
    StripLowerCommute(Strip(x));
    TrimIdempotent(x, IsSpace);
    StripLowerCommute(word);
    LowerIdempotent(Strip(word));
  }

  /** The label depends only on `word.lower().strip()`: classifying the
      normalised word gives the same answer as classifying the word. */
  lemma DetectNormalized(word: string)
    ensures DetectWordType(Normalize(word)) == DetectWordType(word)
  {
    NormalizeIdempotent(word);
  }

  /** A string with a non-whitespace character splits into at least one token. */
  lemma {:induction false} SplitNonEmpty(s: string, k: nat)
    requires k < |s| && !IsSpace(s[k])
    ensures |Split(s)| >= 1
    decreases |s|
  {
    if IsSpace(s[0]) {
      SplitNonEmpty(s[1..], k - 1);
    }
  }

  /** For a string without surrounding whitespace, `len(w.split()) > 1` holds
      exactly when `w` contains a whitespace character. */
  lemma SplitMoreThanOne(w: string)
    requires |w| > 0 ==> !IsSpace(w[0]) && !IsSpace(w[|w| - 1])
    ensures |Split(w)| > 1 <==> exists i :: 0 <= i < |w| && IsSpace(w[i])
  {
    if i :| 0 <= i < |w| && IsSpace(w[i]) {
      var n := TokenLength(w);
      assert n <= i;
      var rest := w[n..];
      SplitNonEmpty(rest, |rest| - 1);
      assert Split(w) == [w[..n]] + Split(rest);
    } else if |w| > 0 {
      SplitToken(w);
    }
  }

  /** A word is labelled a phrase exactly when no suffix rule applies and the
      normalised word has whitespace inside it. */
  lemma PhraseIffInnerSpace(word: string)
    ensures DetectWordType(word) == Phrase
        <==> && !EndsWithAny(Normalize(word), VerbSuffixes)
             && !EndsWith(Normalize(word), AdverbSuffix)
             && !EndsWithAny(Normalize(word), AdjectiveSuffixes)
             && !EndsWithAny(Normalize(word), NounSuffixes)
             && exists i :: 0 <= i < |Normalize(word)| && IsSpace(Normalize(word)[i])
  {
    StripEnds(Lower(word));
    SplitMoreThanOne(Normalize(word));
  }
}
