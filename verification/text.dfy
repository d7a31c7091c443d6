/** The Python `str` operations the add-on relies on, over `string` (`seq<char>`):
    whitespace and alphanumeric tests, `lower`, `strip`/`rstrip`, `split()` on
    whitespace, `split(sep)` on one character, `sep.join`, single-character
    `replace`, and filtering by a character predicate. */
module Text {

  /** Python's `str.isspace()` on one character: the 29 code points Python treats
      as whitespace, which `strip()` removes and `split()` splits on. */
  predicate IsSpace(c: char) {
    || ('\t' <= c <= '\r')
    || ('\U{1C}' <= c <= ' ')
    || c == '\U{85}' || c == '\U{A0}' || c == '\U{1680}'
    || ('\U{2000}' <= c <= '\U{200A}')
    || c == '\U{2028}' || c == '\U{2029}' || c == '\U{202F}'
    || c == '\U{205F}' || c == '\U{3000}'
  }

  /** `str.isalnum()` restricted to ASCII letters and digits. */
  predicate IsAlnum(c: char) {
    ('0' <= c <= '9') || ('A' <= c <= 'Z') || ('a' <= c <= 'z')
  }

  /** `str.lower()` on one character, ASCII letters only. */
  function LowerChar(c: char): char {
    if 'A' <= c <= 'Z' then (c as int + 32) as char else c
  }

  /** `str.lower()`, character by character. */
  function Lower(s: string): (r: string)
    ensures |r| == |s|
    ensures forall c :: c in r ==> !('A' <= c <= 'Z')
    ensures forall i :: 0 <= i < |s| ==> r[i] == LowerChar(s[i])
  {
    seq(|s|, i requires 0 <= i < |s| => LowerChar(s[i]))
  }

  function Min(a: int, b: int): int {
    if a <= b then a else b
  }

  function Max(a: int, b: int): int {
    if a <= b then b else a
  }

  /** `s.replace(a, b)` for one-character `a` and `b`. */
  function ReplaceChar(s: string, a: char, b: char): string {
    seq(|s|, i requires 0 <= i < |s| => if s[i] == a then b else s[i])
  }

  /** `s.replace(";", ",")`, the add-on's only escaping of its field delimiter. */
  function EscapeSemicolons(s: string): (r: string)
    ensures |r| == |s|
    ensures ';' !in r
    ensures forall i :: 0 <= i < |s| && s[i] != ';' ==> r[i] == s[i]
    ensures forall i :: 0 <= i < |s| && s[i] == ';' ==> r[i] == ','
  {
    ReplaceChar(s, ';', ',')
  }

  predicate StartsWith(s: string, prefix: string) {
    |prefix| <= |s| && s[..|prefix|] == prefix
  }

  predicate EndsWith(s: string, suffix: string) {
    |suffix| <= |s| && s[|s| - |suffix|..] == suffix
  }

  /** Removes the leading characters satisfying `drop` (`lstrip`). */
  function TrimStart(s: string, drop: char -> bool): (r: string)
    ensures |r| <= |s| && r == s[|s| - |r|..]
    ensures r == [] || !drop(r[0])
    ensures forall i :: 0 <= i < |s| - |r| ==> drop(s[i])
    decreases |s|
  {
    if |s| > 0 && drop(s[0]) then TrimStart(s[1..], drop) else s
  }

  /** Removes the trailing characters satisfying `drop` (`rstrip`). */
  function TrimEnd(s: string, drop: char -> bool): (r: string)
    ensures |r| <= |s| && r == s[..|r|]
    ensures r == [] || !drop(r[|r| - 1])
    ensures forall i :: |r| <= i < |s| ==> drop(s[i])
    decreases |s|
  {
    if |s| > 0 && drop(s[|s| - 1]) then TrimEnd(s[..|s| - 1], drop) else s
  }

  /** Removes both leading and trailing characters satisfying `drop` (`strip`). */
  function Trim(s: string, drop: char -> bool): (r: string)
    ensures |r| <= |s|
    ensures forall c :: c in r ==> c in s
    ensures r == [] || (!drop(r[0]) && !drop(r[|r| - 1]))
  {
    TrimEnd(TrimStart(s, drop), drop)
  }

  /** `r` is the slice of `s` starting at `a` whose surroundings in `s` are
      all dropped characters. */
  predicate StripAt(r: string, s: string, drop: char -> bool, a: int) {
    && 0 <= a <= |s| - |r|
    && r == s[a..a + |r|]
    && (forall i :: 0 <= i < a ==> drop(s[i]))
    && (forall i :: a + |r| <= i < |s| ==> drop(s[i]))
  }

  /** `r` is `s` with its leading and trailing dropped characters removed:
      a slice of `s` with only dropped characters around it, neither starting
      nor ending with one. */
  ghost predicate StrippedFrom(r: string, s: string, drop: char -> bool) {
    && (r == [] || (!drop(r[0]) && !drop(r[|r| - 1])))
    && exists a :: 0 <= a <= |s| && StripAt(r, s, drop, a)
  }

  /** `s.strip()` with no argument. */
  function Strip(s: string): string {
    Trim(s, IsSpace)
  }

  /** The characters of `s` satisfying `keep`, in order (`"".join(c for c in s if keep(c))`). */
  function Filter(s: string, keep: char -> bool): (r: string)
    ensures |r| <= |s|
    ensures forall c :: c in r ==> c in s && keep(c)
    ensures forall c :: keep(c) ==> multiset(r)[c] == multiset(s)[c]
    decreases |s|
  {
    if |s| == 0 then ""
    else
      assert s == [s[0]] + s[1..];
      (if keep(s[0]) then [s[0]] else "") + Filter(s[1..], keep)
  }

  /** A piece `split()` can return: non-empty and free of whitespace. */
  predicate IsToken(t: string) {
    |t| > 0 && forall i :: 0 <= i < |t| ==> !IsSpace(t[i])
  }

  /** Length of the run of non-whitespace characters at the start of `s`. */
  function TokenLength(s: string): (n: nat)
    ensures n <= |s|
    ensures forall i :: 0 <= i < n ==> !IsSpace(s[i])
    ensures n == |s| || IsSpace(s[n])
    decreases |s|
  {
    if |s| == 0 || IsSpace(s[0]) then 0 else 1 + TokenLength(s[1..])
  }

  predicate NotSpace(c: char) {
    !IsSpace(c)
  }

  /** The number of positions of `s` holding a non-whitespace character that is
      followed by whitespace or by the end of `s`: one per word. */
  function WordEnds(s: string): nat
    decreases |s|
  {
    if |s| == 0 then 0
    else (if !IsSpace(s[0]) && (|s| == 1 || IsSpace(s[1])) then 1 else 0) + WordEnds(s[1..])
  }

  /** Python's `s.split()` with no argument: the maximal whitespace-free runs of `s`. */
  function Split(s: string): (r: seq<string>)
    ensures forall i :: 0 <= i < |r| ==> IsToken(r[i])
    decreases |s|
  {
    if |s| == 0 then []
    else if IsSpace(s[0]) then Split(s[1..])
    else
      var n := TokenLength(s);
      [s[..n]] + Split(s[n..])
  }

  /** Python's `sep.join(parts)`. */
  function Join(sep: string, parts: seq<string>): string
    decreases |parts|
  {
    if |parts| == 0 then ""
    else if |parts| == 1 then parts[0]
    else parts[0] + sep + Join(sep, parts[1..])
  }

  /** Python's `s.split(sep)` for a one-character separator: never empty, and
      `""` splits into `[""]`. */
  function SplitOn(sep: char, s: string): (r: seq<string>)
    ensures |r| >= 1
    decreases |s|
  {
    if |s| == 0 then [""]
    else
      var rest := SplitOn(sep, s[1..]);
      if s[0] == sep then [""] + rest
      else [[s[0]] + rest[0]] + rest[1..]
  }

  /** Concatenation of a sequence of strings (`"".join(parts)`). */
  function Concat(parts: seq<string>): string
    decreases |parts|
  {
    if |parts| == 0 then "" else parts[0] + Concat(parts[1..])
  }

  // ---------------------------------------------------------------------------
  // Lemmas
  // ---------------------------------------------------------------------------

  lemma LowerCharIdempotent(c: char)
    ensures LowerChar(LowerChar(c)) == LowerChar(c)
    ensures IsSpace(LowerChar(c)) == IsSpace(c)
  {
  }

  /** Lower-casing twice is lower-casing once. */
  lemma LowerIdempotent(s: string)
    ensures Lower(Lower(s)) == Lower(s)
  {
    forall i | 0 <= i < |s|
      ensures Lower(Lower(s))[i] == Lower(s)[i]
    {
      LowerCharIdempotent(s[i]);
    }
  }

  lemma {:induction false} TrimEndIdempotent(s: string, drop: char -> bool)
    ensures TrimEnd(TrimEnd(s, drop), drop) == TrimEnd(s, drop)
  {
  }

  /** Removing trailing characters never exposes new leading ones. */
  lemma {:induction false} TrimStartOfTrimEnd(s: string, drop: char -> bool)
    requires s == [] || !drop(s[0])
    ensures TrimStart(TrimEnd(s, drop), drop) == TrimEnd(s, drop)
  {
  }

  /** `strip` is idempotent. */
  lemma TrimIdempotent(s: string, drop: char -> bool)
    ensures Trim(Trim(s, drop), drop) == Trim(s, drop)
  {
    var t := TrimStart(s, drop);
    TrimStartOfTrimEnd(t, drop);
    TrimEndIdempotent(t, drop);
  }

  lemma {:induction false} TrimStartLower(s: string)
    ensures TrimStart(Lower(s), IsSpace) == Lower(TrimStart(s, IsSpace))
    decreases |s|
  {
    if |s| > 0 {
      LowerCharIdempotent(s[0]);
      assert Lower(s)[1..] == Lower(s[1..]);
      if IsSpace(s[0]) {
        TrimStartLower(s[1..]);
      }
    }
  }

  lemma {:induction false} TrimEndLower(s: string)
    ensures TrimEnd(Lower(s), IsSpace) == Lower(TrimEnd(s, IsSpace))
    decreases |s|
  {
    if |s| > 0 {
      LowerCharIdempotent(s[|s| - 1]);
      assert Lower(s)[..|s| - 1] == Lower(s[..|s| - 1]);
      if IsSpace(s[|s| - 1]) {
        TrimEndLower(s[..|s| - 1]);
      }
    }
  }

  /** `s.lower().strip()` is the same string as `s.strip().lower()`. */
  lemma StripLowerCommute(s: string)
    ensures Strip(Lower(s)) == Lower(Strip(s))
  {
    TrimStartLower(s);
    TrimEndLower(TrimStart(s, IsSpace));
  }

  /** The result of `strip()` neither starts nor ends with whitespace. */
  lemma StripEnds(s: string)
    ensures |Strip(s)| > 0 ==> !IsSpace(Strip(s)[0]) && !IsSpace(Strip(s)[|Strip(s)| - 1])
  {
  }

  /** `split()` of a whitespace-free non-empty string is that string alone. */
  lemma SplitToken(t: string)
    requires IsToken(t)
    ensures Split(t) == [t]
  {
    TokenLengthIs(t, |t|);
    assert t[..|t|] == t;
    assert t[|t|..] == [];
  }

  /** `TokenLength` is the index of the first whitespace character (or the length). */
  lemma TokenLengthIs(s: string, k: nat)
    requires k <= |s|
    requires forall i :: 0 <= i < k ==> !IsSpace(s[i])
    requires k == |s| || IsSpace(s[k])
    ensures TokenLength(s) == k
  {
  }

  /** `split()` of `t + " " + rest` for a token `t`. */
  lemma SplitTokenThenSpace(t: string, rest: string)
    requires IsToken(t)
    ensures Split(t + " " + rest) == [t] + Split(rest)
  {
    var s := t + " " + rest;
    assert forall i :: 0 <= i < |t| ==> s[i] == t[i];
    assert s[|t|] == ' ';
    TokenLengthIs(s, |t|);
    var n := |t|;
    assert s[..n] == t;
    assert s[n..] == [' '] + rest;
    assert s[n..][1..] == rest;
  }

  /** `split()` undoes `" ".join` when every piece is a token. */
  lemma {:induction false} SplitJoin(ts: seq<string>)
    requires forall i :: 0 <= i < |ts| ==> IsToken(ts[i])
    ensures Split(Join(" ", ts)) == ts
    decreases |ts|
  {
    if |ts| == 1 {
      SplitToken(ts[0]);
    } else if |ts| > 1 {
      SplitTokenThenSpace(ts[0], Join(" ", ts[1..]));
      SplitJoin(ts[1..]);
      assert ts == [ts[0]] + ts[1..];
    }
  }

  /** `s.split(sep)` of a string without `sep` is that string alone. */
  lemma {:induction false} SplitOnWithout(sep: char, a: string)
    requires sep !in a
    ensures SplitOn(sep, a) == [a]
    decreases |a|
  {
    if |a| > 0 {
      SplitOnWithout(sep, a[1..]);
      assert [a[0]] + a[1..] == a;
    }
  }

  /** `(a + sep + b).split(sep)` when `a` has no `sep`. */
  lemma {:induction false} SplitOnFirst(sep: char, a: string, b: string)
    requires sep !in a
    ensures SplitOn(sep, a + [sep] + b) == [a] + SplitOn(sep, b)
    decreases |a|
  {
    var s := a + [sep] + b;
    if |a| == 0 {
      assert s[1..] == b;
    } else {
      assert s[1..] == a[1..] + [sep] + b;
      SplitOnFirst(sep, a[1..], b);
      assert [a[0]] + a[1..] == a;
    }
  }

  /** `s.split(sep)` undoes `sep.join(parts)` when no part contains `sep`. */
  lemma {:induction false} SplitOnJoin(sep: char, parts: seq<string>)
    requires |parts| >= 1
    requires forall i :: 0 <= i < |parts| ==> sep !in parts[i]
    ensures SplitOn(sep, Join([sep], parts)) == parts
    decreases |parts|
  {
    if |parts| == 1 {
      SplitOnWithout(sep, parts[0]);
    } else {
      SplitOnFirst(sep, parts[0], Join([sep], parts[1..]));
      SplitOnJoin(sep, parts[1..]);
      assert parts == [parts[0]] + parts[1..];
    }
  }

  /** A character absent from the separator and from every part is absent from the join. */
  lemma {:induction false} JoinExcludes(c: char, sep: string, parts: seq<string>)
    requires c !in sep
    requires forall i :: 0 <= i < |parts| ==> c !in parts[i]
    ensures c !in Join(sep, parts)
    decreases |parts|
  {
    if |parts| > 1 {
      JoinExcludes(c, sep, parts[1..]);
    }
  }

  /** Escaping semicolons introduces no character but `,`. */
  lemma EscapeKeepsOut(c: char, s: string)
    requires c != ',' && c !in s
    ensures c !in EscapeSemicolons(s)
  {
  }

  /** Every character of a join comes from the separator or from a part. */
  lemma {:induction false} JoinChars(sep: string, parts: seq<string>, c: char)
    requires c in Join(sep, parts)
    ensures c in sep || exists i :: 0 <= i < |parts| && c in parts[i]
    decreases |parts|
  {
    if |parts| > 1 && c !in parts[0] && c !in sep {
      assert c in Join(sep, parts[1..]);
      JoinChars(sep, parts[1..], c);
      var i :| 0 <= i < |parts[1..]| && c in parts[1..][i];
      assert c in parts[i + 1];
    }
  }

  /** Escaping semicolons after joining on a semicolon-free separator is
      joining the escaped parts. */
  lemma {:induction false} EscapeJoin(sep: string, parts: seq<string>)
    requires ';' !in sep
    ensures EscapeSemicolons(Join(sep, parts))
         == Join(sep, seq(|parts|, i requires 0 <= i < |parts| => EscapeSemicolons(parts[i])))
    decreases |parts|
  {
    var escaped := seq(|parts|, i requires 0 <= i < |parts| => EscapeSemicolons(parts[i]));
    if |parts| > 1 {
      EscapeJoin(sep, parts[1..]);
      assert escaped[1..] == seq(|parts| - 1, i requires 0 <= i < |parts| - 1 => EscapeSemicolons(parts[1..][i]));
      EscapeAppend(parts[0] + sep, Join(sep, parts[1..]));
      EscapeAppend(parts[0], sep);
      assert EscapeSemicolons(sep) == sep;
    }
  }

  lemma EscapeAppend(a: string, b: string)
    ensures EscapeSemicolons(a + b) == EscapeSemicolons(a) + EscapeSemicolons(b)
  {
    assert ReplaceChar(a + b, ';', ',') == ReplaceChar(a, ';', ',') + ReplaceChar(b, ';', ',');
  }

  /** Escaping keeps a token a token: `,` is not whitespace. */
  lemma EscapeToken(t: string)
    requires IsToken(t)
    ensures IsToken(EscapeSemicolons(t))
  {
  }

  /** Filtering distributes over concatenation, so the kept characters stay in order. */
  lemma {:induction false} FilterAppend(a: string, b: string, keep: char -> bool)
    ensures Filter(a + b, keep) == Filter(a, keep) + Filter(b, keep)
    decreases |a|
  {
    if |a| == 0 {
      assert a + b == b;
    } else {
      var head := if keep(a[0]) then [a[0]] else "";
      calc {
        Filter(a + b, keep);
      ==  { FilterHead(a, b, keep); }
        head + Filter(a[1..] + b, keep);
      ==  { FilterAppend(a[1..], b, keep); }
        head + (Filter(a[1..], keep) + Filter(b, keep));
        (head + Filter(a[1..], keep)) + Filter(b, keep);
      }
    }
  }

  lemma {:induction false} FilterHead(a: string, b: string, keep: char -> bool)
    requires |a| > 0
    ensures Filter(a + b, keep) == (if keep(a[0]) then [a[0]] else "") + Filter(a[1..] + b, keep)
  {
    assert (a + b)[1..] == a[1..] + b;
    assert (a + b)[0] == a[0];
  }

  /** Filtering a string whose every character is kept changes nothing. */
  lemma {:induction false} FilterKeepsAll(s: string, keep: char -> bool)
    requires forall i :: 0 <= i < |s| ==> keep(s[i])
    ensures Filter(s, keep) == s
    decreases |s|
  {
    if |s| > 0 {
      FilterKeepsAll(s[1..], keep);
      assert s == [s[0]] + s[1..];
    }
  }

  /** The words of `split()`, glued back together, are the non-whitespace
      characters of `s` in their original order. */
  lemma {:induction false} SplitConcat(s: string)
    ensures Concat(Split(s)) == Filter(s, NotSpace)
    decreases |s|
  {
    if |s| > 0 {
      if IsSpace(s[0]) {
        SplitConcat(s[1..]);
      } else {
        var n := TokenLength(s);
        SplitConcat(s[n..]);
        ConcatCons(s[..n], Split(s[n..]));
        FilterToken(s, n);
      }
    }
  }

  lemma {:induction false} ConcatCons(x: string, rest: seq<string>)
    ensures Concat([x] + rest) == x + Concat(rest)
  {
    assert ([x] + rest)[1..] == rest;
  }

  /** Filtering whitespace out of a string that starts with an `n`-character token. */
  lemma {:induction false} FilterToken(s: string, n: nat)
    requires n <= |s|
    requires forall i :: 0 <= i < n ==> !IsSpace(s[i])
    ensures Filter(s, NotSpace) == s[..n] + Filter(s[n..], NotSpace)
  {
    var a, b := s[..n], s[n..];
    assert s == a + b;
    calc {
      Filter(s, NotSpace);
    ==  { FilterAppend(a, b, NotSpace); }
      Filter(a, NotSpace) + Filter(b, NotSpace);
    ==  { FilterKeepsAll(a, NotSpace); }
      a + Filter(b, NotSpace);
    }
  }

  /** A run of `n` non-whitespace characters ending at whitespace or at the end
      of `s` contributes exactly one word end. */
  lemma {:induction false} RunEnds(s: string, n: nat)
    requires 1 <= n <= |s|
    requires forall i :: 0 <= i < n ==> !IsSpace(s[i])
    requires n == |s| || IsSpace(s[n])
    ensures WordEnds(s) == 1 + WordEnds(s[n..])
    decreases n
  {
    if n > 1 {
      RunEnds(s[1..], n - 1);
      assert s[1..][n - 1..] == s[n..];
    }
  }

  /** `split()` returns one piece per word end of `s`. */
  lemma {:induction false} SplitCount(s: string)
    ensures |Split(s)| == WordEnds(s)
    decreases |s|
  {
    if |s| > 0 {
      if IsSpace(s[0]) {
        SplitCount(s[1..]);
      } else {
        var n := TokenLength(s);
        SplitCount(s[n..]);
        RunEnds(s, n);
      }
    }
  }

  /** Leading whitespace contributes nothing to `split()`. */
  lemma {:induction false} SplitSpaces(ws: string, rest: string)
    requires forall i :: 0 <= i < |ws| ==> IsSpace(ws[i])
    ensures Split(ws + rest) == Split(rest)
    decreases |ws|
  {
    if |ws| > 0 {
      assert (ws + rest)[0] == ws[0];
      assert (ws + rest)[1..] == ws[1..] + rest;
      SplitSpaces(ws[1..], rest);
    } else {
      assert ws + rest == rest;
    }
  }

  /** A token followed by a non-empty run of whitespace is the first piece of
      `split()`, and the piece ends exactly where the whitespace starts. */
  lemma {:induction false} SplitTokenThenSpaces(t: string, ws: string, rest: string)
    requires IsToken(t)
    requires |ws| > 0 && forall i :: 0 <= i < |ws| ==> IsSpace(ws[i])
    ensures Split(t + ws + rest) == [t] + Split(rest)
  {
    var s := t + ws + rest;
    assert forall i :: 0 <= i < |t| ==> s[i] == t[i];
    assert s[|t|] == ws[0];
    TokenLengthIs(s, |t|);
    assert s[..|t|] == t;
    assert s[|t|..] == ws + rest;
    SplitSpaces(ws, rest);
  }

  /** `Trim` removes exactly the dropped characters at both ends. */
  lemma TrimStripped(s: string, drop: char -> bool)
    ensures StrippedFrom(Trim(s, drop), s, drop)
  {
    var t := TrimStart(s, drop);
    var r := TrimEnd(t, drop);
    var a := |s| - |t|;
    assert t == s[a..];
    assert r == t[..|r|];
    assert r == s[a..a + |r|];
    forall i | a + |r| <= i < |s|
      ensures drop(s[i])
    {
      assert s[i] == t[i - a];
    }
    assert StripAt(r, s, drop, a);
  }

  /** Stripping has one answer: `StrippedFrom` fixes the string completely. */
  lemma StrippedUnique(r1: string, r2: string, s: string, drop: char -> bool)
    requires StrippedFrom(r1, s, drop) && StrippedFrom(r2, s, drop)
    ensures r1 == r2
  {
    var a1 :| 0 <= a1 <= |s| && StripAt(r1, s, drop, a1);
    var a2 :| 0 <= a2 <= |s| && StripAt(r2, s, drop, a2);
    if r1 != [] {
      assert r1[0] == s[a1] && r1[|r1| - 1] == s[a1 + |r1| - 1];
    }
    if r2 != [] {
      assert r2[0] == s[a2] && r2[|r2| - 1] == s[a2 + |r2| - 1];
    }
    if r1 != [] && r2 != [] {
      assert a1 == a2;
      assert a1 + |r1| == a2 + |r2|;
    }
  }
}
