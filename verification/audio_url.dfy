/** `get_audio_url`: the pronunciation URL stored with each word. Words that look
    Japanese get a JapanesePod101 URL with the word (and, when known, its kana
    reading) as query parameters; every other word gets a Forvo mp3 URL. */
module AudioUrl {
  import opened Wrappers
  import opened Text
  import opened UrlQuote

  const LanguagePodHost: string := "https://assets.languagepod101.com"
  const LanguagePodPath: string := "/dictionary/japanese/audiomp3.php?kanji="
  const LanguagePodUrl: string := LanguagePodHost + LanguagePodPath
  const KanaParameter: string := "kana="
  const ForvoUrl: string := "https://audio.forvo.com/audios/mp3/"
  const Mp3Suffix: string := ".mp3"

  /** The add-on's test for a Japanese word, `any(ord(c) > 0x3000 for c in word)`:
      scanned from the first character, stopping at the first one above U+3000. */
  function HasJapanese(word: string): (b: bool)
    ensures b <==> exists i :: 0 <= i < |word| && word[i] as int > 0x3000
    decreases |word|
  {
    if |word| == 0 then false
    else if word[0] as int > 0x3000 then true
    else
      assert forall i :: 1 <= i < |word| ==> word[i] == word[1..][i - 1];
      HasJapanese(word[1..])
  }

  /** The query text after `kanji=`: the quoted word and, when the reading is
      non-empty, `&kana=` with the quoted reading. */
  function JapaneseQuery(word: string, reading: string): (q: string)
    ensures '&' in q <==> reading != ""
  {
    FixedPartsHaveNoAmpersand();
    if reading != "" then Quote(word) + "&" + KanaParameter + Quote(reading)
    else Quote(word)
  }

  /** The audio URL for `word`. The reading adds a `&kana=` parameter only to a
      Japanese URL and only when it is non-empty: quoting escapes `&`, so the
      URL has an `&` exactly in that case. */
  function GetAudioUrl(word: string, reading: string): (url: string)
    ensures HasJapanese(word) ==> StartsWith(url, LanguagePodUrl)
    ensures !HasJapanese(word) ==> StartsWith(url, ForvoUrl) && EndsWith(url, Mp3Suffix)
    ensures '&' in url <==> HasJapanese(word) && reading != ""
  {
    FixedPartsHaveNoAmpersand();
    if HasJapanese(word) then LanguagePodUrl + JapaneseQuery(word, reading)
    else ForvoUrl + Quote(word) + Mp3Suffix
  }

  /** None of the fixed URL pieces holds an `&`. */
  lemma FixedPartsHaveNoAmpersand()
    ensures '&' !in LanguagePodUrl && '&' !in KanaParameter
    ensures '&' !in ForvoUrl && '&' !in Mp3Suffix
  {
    assert '&' !in LanguagePodHost;
    assert '&' !in LanguagePodPath;
  }

  /** The query of a Japanese URL splits on `&` into the quoted word and, when
      there is a reading, `kana=` and the quoted reading. By `QuoteRoundTrip`
      the first parameter decodes back to the word. */
  lemma JapaneseParameters(word: string, reading: string)
    requires HasJapanese(word)
    ensures var query := GetAudioUrl(word, reading)[|LanguagePodUrl|..];
            var params := SplitOn('&', query);
            params == (if reading == "" then [Quote(word)] else [Quote(word), KanaParameter + Quote(reading)])
  {
    var q := Quote(word);
    var url := GetAudioUrl(word, reading);
    assert url[|LanguagePodUrl|..] == JapaneseQuery(word, reading);
    QuoteHasNoAmpersand(word);
    if reading == "" {
      SplitOnWithout('&', q);
    } else {
      KanaParameters(word, reading);
    }
  }

  lemma QuoteHasNoAmpersand(word: string)
    ensures '&' !in Quote(word)
  {
    assert !IsSafeChar('&');
  }

  /** The two parameters of a query with a reading. */
  lemma KanaParameters(word: string, reading: string)
    requires reading != ""
    ensures SplitOn('&', JapaneseQuery(word, reading)) == [Quote(word), KanaParameter + Quote(reading)]
  {
    var q := Quote(word);
    var kana := KanaParameter + Quote(reading);
    FixedPartsHaveNoAmpersand();
    QuoteHasNoAmpersand(word);
    QuoteHasNoAmpersand(reading);
    assert '&' !in kana;
    assert JapaneseQuery(word, reading) == q + ['&'] + kana;
    SplitOnFirst('&', q, kana);
    SplitOnWithout('&', kana);
  }

  /** The word decodes back from the file name of a Forvo URL. */
  lemma ForvoWord(word: string, reading: string)
    requires !HasJapanese(word)
    ensures var url := GetAudioUrl(word, reading);
            Unquote(url[|ForvoUrl|..|url| - |Mp3Suffix|]) == Some(word)
  {
    var url := GetAudioUrl(word, reading);
    assert url[|ForvoUrl|..|url| - |Mp3Suffix|] == Quote(word);
    QuoteRoundTrip(word);
  }
}
