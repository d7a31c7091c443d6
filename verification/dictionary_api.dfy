/** `lookupDictionary`: turning the free dictionary API's decoded JSON answer
    into the HTML block that becomes the card's dictionary definition. The
    HTTP request itself is an input: the response, or `None` when the request
    raised. */
module DictionaryApi {
  import opened Wrappers
  import opened Text
  import opened UrlQuote

  const ApiUrl: string := "https://api.dictionaryapi.dev/api/v2/entries/en/"

  /** The URL the add-on requests for a word. */
  function EntryUrl(word: string): (url: string)
    ensures StartsWith(url, ApiUrl)
    ensures Unquote(url[|ApiUrl|..]) == Some(word)
  {
    QuoteRoundTrip(word);
    assert (ApiUrl + Quote(word))[|ApiUrl|..] == Quote(word);
    ApiUrl + Quote(word)
  }

  /** One definition object; a missing `definition` key makes the lookup fail. */
  datatype Sense = Sense(definition: Option<string>, example: Option<string>)

  /** One meaning object: the optional `partOfSpeech` and `definitions` keys. */
  datatype Meaning = Meaning(partOfSpeech: Option<string>, definitions: Option<seq<Sense>>)

  /** One entry object: the optional `meanings` key. */
  datatype Entry = Entry(meanings: Option<seq<Meaning>>)

  /** The decoded body: a list of entries, or any other JSON value. */
  datatype Body = EntryList(entries: seq<Entry>) | NotAList

  datatype Response = Response(status: int, body: Body)

  const OpenDiv: string := "<div class='dictionary-definition'>"
  const CloseDiv: string := "</div>"

  // ---------------------------------------------------------------------------
  // The HTML, declaratively
  // ---------------------------------------------------------------------------

  /** Every definition object the loops visit has its `definition` key. */
  predicate MeaningComplete(m: Meaning) {
    m.definitions.Some? ==>
      forall k :: 0 <= k < |m.definitions.value| ==> m.definitions.value[k].definition.Some?
  }

  predicate MeaningsComplete(ms: seq<Meaning>) {
    forall j :: 0 <= j < |ms| ==> MeaningComplete(ms[j])
  }

  predicate EntryComplete(e: Entry) {
    e.meanings.Some? ==> MeaningsComplete(e.meanings.value)
  }

  predicate Complete(entries: seq<Entry>) {
    forall i :: 0 <= i < |entries| ==> EntryComplete(entries[i])
  }

  function SenseHtml(s: Sense): string {
    "<li>" + s.definition.GetOr("") + "</li>"
    + (if s.example.Some? then "<p><i>Example: " + s.example.value + "</i></p>" else "")
  }

  function SensesHtml(ss: seq<Sense>): string
    decreases |ss|
  {
    if |ss| == 0 then "" else SensesHtml(ss[..|ss| - 1]) + SenseHtml(ss[|ss| - 1])
  }

  function PartOfSpeechHtml(m: Meaning): string {
    if m.partOfSpeech.Some? then "<p><i>" + m.partOfSpeech.value + "</i></p>" else ""
  }

  function DefinitionsHtml(m: Meaning): string {
    if m.definitions.Some? then "<ul>" + SensesHtml(m.definitions.value) + "</ul>" else ""
  }

  function MeaningHtml(m: Meaning): string {
    PartOfSpeechHtml(m) + DefinitionsHtml(m)
  }

  function MeaningsHtml(ms: seq<Meaning>): string
    decreases |ms|
  {
    if |ms| == 0 then "" else MeaningsHtml(ms[..|ms| - 1]) + MeaningHtml(ms[|ms| - 1])
  }

  function EntryHtml(e: Entry): string {
    if e.meanings.Some? then MeaningsHtml(e.meanings.value) else ""
  }

  function EntriesHtml(es: seq<Entry>): string
    decreases |es|
  {
    if |es| == 0 then "" else EntriesHtml(es[..|es| - 1]) + EntryHtml(es[|es| - 1])
  }

  /** What `lookupDictionary` returns for a response: the empty string when the
      request raised, the status is not 200, the body is not a non-empty list,
      or a definition object lacks its `definition` key; otherwise the entries'
      HTML wrapped in the definition `div`. */
  function DefinitionHtml(response: Option<Response>): (html: string)
    ensures html == "" <==>
      || response.None?
      || response.value.status != 200
      || response.value.body.NotAList?
      || |response.value.body.entries| == 0
      || !Complete(response.value.body.entries)
    ensures html != "" ==> StartsWith(html, OpenDiv) && EndsWith(html, CloseDiv)
  {
    match response
    case None => ""
    case Some(r) =>
      if r.status != 200 then ""
      else match r.body
        case NotAList => ""
        case EntryList(es) =>
          if |es| == 0 || !Complete(es) then ""
          else
            var html := OpenDiv + EntriesHtml(es) + CloseDiv;
            assert html[..|OpenDiv|] == OpenDiv;
            html
  }

  // ---------------------------------------------------------------------------
  // The loops of `lookupDictionary`
  // ---------------------------------------------------------------------------

  /** The innermost loop, over one meaning's definition objects: `None` where
      `lookupDictionary` raises `KeyError` on a missing `definition` key. */
  method RenderSenses(ds: seq<Sense>) returns (out: Option<string>)
    ensures out.Some? <==> forall k :: 0 <= k < |ds| ==> ds[k].definition.Some?
    ensures out.Some? ==> out.value == SensesHtml(ds)
  {
    var html := "";
    var k := 0;
    while k < |ds|
      invariant 0 <= k <= |ds|
      invariant forall k' :: 0 <= k' < k ==> ds[k'].definition.Some?
      invariant html == SensesHtml(ds[..k])
    {
      assert ds[..k + 1][..k] == ds[..k];
      if ds[k].definition.None? {
        return None;
      }
      html := html + "<li>" + ds[k].definition.value + "</li>";
      if ds[k].example.Some? {
        html := html + "<p><i>Example: " + ds[k].example.value + "</i></p>";
      }
      k := k + 1;
    }
    assert ds[..k] == ds;
    return Some(html);
  }

  /** The body of the middle loop: one meaning's part of speech and list of
      definitions. */
  method RenderMeaning(m: Meaning) returns (out: Option<string>)
    ensures out.Some? <==> MeaningComplete(m)
    ensures out.Some? ==> out.value == MeaningHtml(m)
  {
    var piece := "";
    if m.partOfSpeech.Some? {
      piece := "<p><i>" + m.partOfSpeech.value + "</i></p>";
    }
    if m.definitions.Some? {
      var senses := RenderSenses(m.definitions.value);
      if senses.None? {
        return None;
      }
      piece := piece + "<ul>" + senses.value + "</ul>";
    }
    return Some(piece);
  }

  /** One more meaning extends the HTML at its end. */
  lemma MeaningStep(ms: seq<Meaning>, j: int)
    requires 0 <= j < |ms|
    ensures MeaningsHtml(ms[..j + 1]) == MeaningsHtml(ms[..j]) + MeaningHtml(ms[j])
  {
    assert ms[..j + 1][..j] == ms[..j];
  }

  /** The prefix of meanings stays complete exactly when the new meaning is. */
  lemma MeaningCompleteStep(ms: seq<Meaning>, j: int)
    requires 0 <= j < |ms|
    ensures MeaningsComplete(ms[..j]) && MeaningComplete(ms[j]) ==> MeaningsComplete(ms[..j + 1])
    ensures !MeaningComplete(ms[j]) ==> !MeaningsComplete(ms)
  {
    assert forall k :: 0 <= k < j ==> ms[..j + 1][k] == ms[..j][k];
    assert ms[..j + 1][j] == ms[j];
  }

  /** The middle loop, over one entry's meanings. */
  method RenderMeanings(ms: seq<Meaning>) returns (out: Option<string>)
    ensures out.Some? <==> MeaningsComplete(ms)
    ensures out.Some? ==> out.value == MeaningsHtml(ms)
  {
    var html := "";
    var j := 0;
    while j < |ms|
      invariant 0 <= j <= |ms|
      invariant MeaningsComplete(ms[..j])
      invariant html == MeaningsHtml(ms[..j])
    {
      MeaningStep(ms, j);
      MeaningCompleteStep(ms, j);
      var piece := RenderMeaning(ms[j]);
      if piece.None? {
        return None;
      }
      html := html + piece.value;
      j := j + 1;
    }
    assert ms[..j] == ms;
    return Some(html);
  }

  /** One more entry extends the HTML at its end, and the prefix stays
      complete exactly when the new entry is. */
  lemma EntryStep(entries: seq<Entry>, i: int)
    requires 0 <= i < |entries|
    ensures EntriesHtml(entries[..i + 1]) == EntriesHtml(entries[..i]) + EntryHtml(entries[i])
    ensures Complete(entries[..i]) && EntryComplete(entries[i]) ==> Complete(entries[..i + 1])
    ensures !EntryComplete(entries[i]) ==> !Complete(entries)
  {
    assert entries[..i + 1][..i] == entries[..i];
    assert entries[..i + 1][i] == entries[i];
  }

  /** The outer loop of `lookupDictionary`, over the entries: it fails at the
      first definition object without `definition`. */
  method RenderEntries(entries: seq<Entry>) returns (out: Option<string>)
    ensures out.Some? <==> Complete(entries)
    ensures out.Some? ==> out.value == EntriesHtml(entries)
  {
    var html := "";
    var i := 0;
    while i < |entries|
      invariant 0 <= i <= |entries|
      invariant Complete(entries[..i])
      invariant html == EntriesHtml(entries[..i])
    {
      var e := entries[i];
      EntryStep(entries, i);
      if e.meanings.Some? {
        var meanings := RenderMeanings(e.meanings.value);
        if meanings.None? {
          return None;
        }
        html := html + meanings.value;
      }
      i := i + 1;
    }
    assert entries[..i] == entries;
    return Some(html);
  }

  /** `lookupDictionary` after the request: the status and shape checks, then
      the entries' HTML inside the definition `div`, or `""` where it
      catches the `KeyError` of a definition object without `definition`. It
      builds exactly the HTML `DefinitionHtml` describes. */
  method LookupDictionary(response: Option<Response>) returns (html: string)
    ensures html == DefinitionHtml(response)
  {
    if response.None? || response.value.status != 200 || response.value.body.NotAList? {
      return "";
    }
    var entries := response.value.body.entries;
    if |entries| == 0 {
      return "";
    }
    var body := RenderEntries(entries);
    if body.None? {
      return "";
    }
    html := OpenDiv + body.value + CloseDiv;
  }
}
