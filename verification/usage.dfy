/** The fill-in-the-blank rewrite of a word's usage sentence, done in
    `KindleImporter.translateWords` before the sentence goes on the card. */
module Usage {
  import opened Text

  /** What replaces the looked-up word in its sentence. */
  const Blank: string := "_____"

  /** The characters `strip('.,!?;:"()[]')` removes from the ends of a sentence word. */
  predicate IsEdgePunctuation(c: char) {
    c in ".,!?;:\"()[]"
  }

  predicate NotAlnum(c: char) {
    !IsAlnum(c)
  }

  /** A sentence word as it is compared with the looked-up word: edge
      punctuation stripped, then lower-cased. */
  function Clean(token: string): (r: string)
    ensures |r| <= |token|
    ensures r == [] || (!IsEdgePunctuation(r[0]) && !IsEdgePunctuation(r[|r| - 1]))
    ensures forall i :: 0 <= i < |r| ==> !('A' <= r[i] <= 'Z')
  {
    Lower(Trim(token, IsEdgePunctuation))
  }

  /** Whether a sentence word is taken to be the looked-up word (already
      lower-cased): equal to it, or starting with it, once cleaned. */
  predicate Matches(token: string, wordLower: string) {
    Clean(token) == wordLower || StartsWith(Clean(token), wordLower)
  }

  /** What a matched sentence word becomes: the blank, followed by the word's
      non-alphanumeric characters in their original order. */
  function Blanked(token: string): (r: string)
    ensures StartsWith(r, Blank)
    ensures forall c :: c in r[|Blank|..] ==> c in token && !IsAlnum(c)
    ensures forall c :: !IsAlnum(c) ==> multiset(r[|Blank|..])[c] == multiset(token)[c]
    ensures r[|Blank|..] == Filter(token, NotAlnum)
  {
    assert (Blank + Filter(token, NotAlnum))[|Blank|..] == Filter(token, NotAlnum);
    Blank + Filter(token, NotAlnum)
  }

  /** Whether index `k` holds the first sentence word that passes `isMatch`. */
  predicate IsFirstMatch(tokens: seq<string>, isMatch: string -> bool, k: int) {
    && 0 <= k < |tokens|
    && isMatch(tokens[k])
    && forall j :: 0 <= j < k ==> !isMatch(tokens[j])
  }

  /** The loop over the sentence's words that blanks the first one passing
      `isMatch` and stops. Only that word is replaced; with no match the words
      are unchanged. */
  function BlankFirst(tokens: seq<string>, isMatch: string -> bool): (r: seq<string>)
    ensures |r| == |tokens|
    ensures (forall j :: 0 <= j < |tokens| ==> !isMatch(tokens[j])) ==> r == tokens
    ensures forall k :: IsFirstMatch(tokens, isMatch, k) ==> r == tokens[k := Blanked(tokens[k])]
    decreases |tokens|
  {
    if |tokens| == 0 then []
    else if isMatch(tokens[0]) then [Blanked(tokens[0])] + tokens[1..]
    else [tokens[0]] + BlankFirst(tokens[1..], isMatch)
  }

  /** The sentence's words after the rewrite, for the lower-cased looked-up word. */
  function BlankOut(tokens: seq<string>, wordLower: string): (r: seq<string>)
    ensures |r| == |tokens|
    ensures (forall j :: 0 <= j < |tokens| ==> !Matches(tokens[j], wordLower)) ==> r == tokens
    ensures forall k :: IsFirstMatch(tokens, t => Matches(t, wordLower), k)
                        ==> r == tokens[k := Blanked(tokens[k])]
  {
    BlankFirst(tokens, t => Matches(t, wordLower))
  }

  /** The card's example sentence: empty unless usage is included and a
      sentence was stored; otherwise the sentence split on whitespace, its
      first matching word blanked, re-joined with single spaces and with every
      `;` turned into `,`. */
  function UsageExample(sentence: string, word: string, includeUsage: bool): (r: string)
    ensures ';' !in r
    ensures forall c :: c in r && IsSpace(c) ==> c == ' '
    ensures '\n' !in r
    ensures !includeUsage || sentence == "" ==> r == ""
  {
    if includeUsage && sentence != "" then
      var ws := BlankOut(Split(sentence), Lower(word));
      BlankFirstTokens(Split(sentence), t => Matches(t, Lower(word)));
      EscapedJoinSpaces(ws);
      EscapeSemicolons(Join(" ", ws))
    else ""
  }

  /** The cleaned word is `token.strip('.,!?;:"()[]').lower()`: the token with
      exactly its edge punctuation removed, then lower-cased. */
  lemma CleanStripped(token: string)
    ensures exists t :: StrippedFrom(t, token, IsEdgePunctuation) && Clean(token) == Lower(t)
  {
    TrimStripped(token, IsEdgePunctuation);
  }

  /** A sentence word matches exactly when its cleaned form starts with the
      looked-up word: the equality test is the prefix test's special case. */
  lemma MatchesIsPrefix(token: string, wordLower: string)
    ensures Matches(token, wordLower) <==> StartsWith(Clean(token), wordLower)
  {
    var c := Clean(token);
    if c == wordLower {
      assert c[..|wordLower|] == c;
    }
  }

  /** At most one word of the sentence is changed by the rewrite. */
  lemma BlankFirstChangesAtMostOne(tokens: seq<string>, isMatch: string -> bool, i: int, j: int)
    requires 0 <= i < |tokens| && 0 <= j < |tokens| && i != j
    requires BlankFirst(tokens, isMatch)[i] != tokens[i]
    ensures BlankFirst(tokens, isMatch)[j] == tokens[j]
  {
    if exists m :: 0 <= m < |tokens| && isMatch(tokens[m]) {
      var k := FirstMatchIndex(tokens, isMatch);
    }
  }

  /** When some word passes `isMatch`, there is a first one. */
  lemma FirstMatchIndex(tokens: seq<string>, isMatch: string -> bool) returns (k: int)
    requires exists m :: 0 <= m < |tokens| && isMatch(tokens[m])
    ensures IsFirstMatch(tokens, isMatch, k)
  {
    k := 0;
    while !isMatch(tokens[k])
      invariant 0 <= k < |tokens|
      invariant forall j :: 0 <= j < k ==> !isMatch(tokens[j])
      invariant exists m :: k <= m < |tokens| && isMatch(tokens[m])
      decreases |tokens| - k
    {
      k := k + 1;
    }
  }

  /** A blanked word is still a single whitespace-free word. */
  lemma BlankedIsToken(token: string)
    requires IsToken(token)
    ensures IsToken(Blanked(token))
  {
    var r := Blanked(token);
    forall i | 0 <= i < |r|
      ensures !IsSpace(r[i])
    {
      if i >= |Blank| {
        assert r[i] == r[|Blank|..][i - |Blank|];
        assert r[i] in r[|Blank|..];
      }
    }
  }

  /** Blanking a word keeps every word of the sentence a single
      whitespace-free word. */
  lemma BlankFirstTokens(tokens: seq<string>, isMatch: string -> bool)
    requires forall i :: 0 <= i < |tokens| ==> IsToken(tokens[i])
    ensures forall i :: 0 <= i < |tokens| ==> IsToken(BlankFirst(tokens, isMatch)[i])
  {
    var ws := BlankFirst(tokens, isMatch);
    forall i | 0 <= i < |tokens|
      ensures IsToken(ws[i])
    {
      if ws[i] != tokens[i] {
        var k := FirstMatchIndex(tokens, isMatch);
        BlankedIsToken(tokens[k]);
      }
    }
  }

  /** Whitespace-free words joined by single spaces and escaped hold no
      whitespace but those spaces. */
  lemma EscapedJoinSpaces(ws: seq<string>)
    requires forall i :: 0 <= i < |ws| ==> IsToken(ws[i])
    ensures forall c :: c in EscapeSemicolons(Join(" ", ws)) && IsSpace(c) ==> c == ' '
  {
    var joined := Join(" ", ws);
    var e := EscapeSemicolons(joined);
    forall c | c in e && IsSpace(c)
      ensures c == ' '
    {
      var j :| 0 <= j < |e| && e[j] == c;
      assert joined[j] == c;
      JoinChars(" ", ws, c);
    }
  }

  /** Splitting the card's example sentence on whitespace gives back the
      rewritten words one for one: the sentence's own words with the first
      match blanked and each `;` turned into `,`. */
  lemma UsageExampleWords(sentence: string, word: string)
    requires sentence != ""
    ensures var ws := BlankOut(Split(sentence), Lower(word));
            Split(UsageExample(sentence, word, true))
            == seq(|ws|, i requires 0 <= i < |ws| => EscapeSemicolons(ws[i]))
  {
    var ts := Split(sentence);
    var isMatch := t => Matches(t, Lower(word));
    var ws := BlankFirst(ts, isMatch);
    var es := seq(|ws|, i requires 0 <= i < |ws| => EscapeSemicolons(ws[i]));
    BlankFirstTokens(ts, isMatch);
    forall i | 0 <= i < |es|
      ensures IsToken(es[i])
    {
      EscapeToken(ws[i]);
    }
    EscapeJoin(" ", ws);
    SplitJoin(es);
  }
}
