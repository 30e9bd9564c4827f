/** Python's string primitives as the detection store uses them: `str.strip()`,
    `str.split()` with no separator, the last-word helper built on them, and
    `str(n)` for a natural number. */
module PyText {

  /** `str.isspace()` for one character: the characters Python's argument-less
      `strip()` and `split()` treat as whitespace. */
  predicate IsSpace(c: char) {
    c == ' ' || ('\t' <= c <= '\r') || ('\U{1c}' <= c <= '\U{1f}')
    || c == '\U{85}' || c == '\U{a0}' || c == '\U{1680}'
    || ('\U{2000}' <= c <= '\U{200a}') || c == '\U{2028}' || c == '\U{2029}'
    || c == '\U{202f}' || c == '\U{205f}' || c == '\U{3000}'
  }

  predicate AllSpace(s: string) {
    forall k :: 0 <= k < |s| ==> IsSpace(s[k])
  }

  predicate NoSpace(s: string) {
    forall k :: 0 <= k < |s| ==> !IsSpace(s[k])
  }

  /** `s.lstrip()`: the longest suffix of `s` that does not start with whitespace. */
  function TrimStart(s: string): (r: string)
    ensures |r| <= |s| && r == s[|s| - |r|..]
    ensures forall k :: 0 <= k < |s| - |r| ==> IsSpace(s[k])
    ensures r != [] ==> !IsSpace(r[0])
  {
    if s != [] && IsSpace(s[0]) then TrimStart(s[1..]) else s
  }

  /** `s.rstrip()`: the longest prefix of `s` that does not end with whitespace. */
  function TrimEnd(s: string): (r: string)
    ensures |r| <= |s| && r == s[..|r|]
    ensures forall k :: |r| <= k < |s| ==> IsSpace(s[k])
    ensures r != [] ==> !IsSpace(r[|r| - 1])
  {
    if s != [] && IsSpace(s[|s| - 1]) then TrimEnd(s[..|s| - 1]) else s
  }

  /** `s.strip()`. */
  function Strip(s: string): (r: string)
  {
    TrimEnd(TrimStart(s))
  }

  /** Where the stripped text begins in its input. */
  function StripOffset(s: string): (n: nat)
    ensures n <= |s|
  {
    |s| - |TrimStart(s)|
  }

  /** What `strip()` leaves is a slice of its input with whitespace cut from
      both ends and none from inside. */
  lemma StripSlice(s: string)
    ensures StripOffset(s) + |Strip(s)| <= |s|
    ensures Strip(s) == s[StripOffset(s)..StripOffset(s) + |Strip(s)|]
    ensures AllSpace(s[..StripOffset(s)]) && AllSpace(s[StripOffset(s) + |Strip(s)|..])
    ensures Strip(s) != [] ==> !IsSpace(Strip(s)[0]) && !IsSpace(Strip(s)[|Strip(s)| - 1])
  {
    StripIsSlice(s);
    StripCutsLeading(s);
    StripCutsTrailing(s);
    StripEnds(s);
  }

  lemma StripIsSlice(s: string)
    ensures StripOffset(s) + |Strip(s)| <= |s|
    ensures Strip(s) == s[StripOffset(s)..StripOffset(s) + |Strip(s)|]
  {
    var t := TrimStart(s);
    var r := TrimEnd(t);
    PrefixOfSuffix(s, t, r, |s| - |t|);
  }

  /** A prefix of a suffix is a slice. */
  lemma PrefixOfSuffix(s: string, t: string, r: string, i: nat)
    requires i <= |s| && t == s[i..] && |r| <= |t| && r == t[..|r|]
    ensures r == s[i..i + |r|]
  {
  }

  lemma StripCutsLeading(s: string)
    ensures AllSpace(s[..StripOffset(s)])
  {
    var pre := s[..StripOffset(s)];
    forall k | 0 <= k < |pre| ensures IsSpace(pre[k]) {
      assert pre[k] == s[k];
    }
  }

  lemma StripCutsTrailing(s: string)
    ensures StripOffset(s) + |Strip(s)| <= |s|
    ensures AllSpace(s[StripOffset(s) + |Strip(s)|..])
  {
    var t := TrimStart(s);
    TrimEndCutsTrailing(t);
    SuffixOfSuffix(s, |s| - |t|, |TrimEnd(t)|);
  }

  /** What `rstrip()` cuts off is whitespace. */
  lemma TrimEndCutsTrailing(t: string)
    ensures AllSpace(t[|TrimEnd(t)|..])
  {
    var post := t[|TrimEnd(t)|..];
    forall k | 0 <= k < |post| ensures IsSpace(post[k]) {
      assert post[k] == t[|TrimEnd(t)| + k];
    }
  }

  lemma StripEnds(s: string)
    ensures Strip(s) != [] ==> !IsSpace(Strip(s)[0]) && !IsSpace(Strip(s)[|Strip(s)| - 1])
  {
    var t := TrimStart(s);
    var r := TrimEnd(t);
    if r != [] {
      assert r[0] == t[0];
    }
  }

  /** Whitespace followed by whitespace is whitespace. */
  lemma AllSpaceJoin(s: string, i: nat)
    requires i <= |s| && AllSpace(s[..i]) && AllSpace(s[i..])
    ensures AllSpace(s)
  {
    forall k | 0 <= k < |s| ensures IsSpace(s[k]) {
      if k < i { assert s[k] == s[..i][k]; } else { assert s[k] == s[i..][k - i]; }
    }
  }

  /** The stripped text is empty exactly when the input is all whitespace. */
  lemma StripBlank(s: string)
    ensures Strip(s) == [] <==> AllSpace(s)
  {
    StripSlice(s);
    var i := StripOffset(s);
    if Strip(s) == [] {
      AllSpaceJoin(s, i);
    } else {
      assert Strip(s)[0] == s[i];
    }
  }

  /** Stripping twice is stripping once. */
  lemma StripIdempotent(s: string)
    ensures Strip(Strip(s)) == Strip(s)
  {
    var r := Strip(s);
    StripSlice(s);
    if r != [] {
      assert TrimStart(r) == r;
      assert TrimEnd(r) == r;
    }
  }

  /** The first maximal run of non-whitespace characters at the front of `s`. */
  function TakeWord(s: string): (w: string)
    ensures |w| <= |s| && w == s[..|w|] && NoSpace(w)
    ensures |w| < |s| ==> IsSpace(s[|w|])
  {
    if s == [] || IsSpace(s[0]) then [] else [s[0]] + TakeWord(s[1..])
  }

  /** `s.split()`: the maximal runs of non-whitespace characters, in order. */
  function Split(s: string): (words: seq<string>)
    ensures forall i :: 0 <= i < |words| ==> words[i] != [] && NoSpace(words[i])
    decreases |s|
  {
    var t := TrimStart(s);
    if t == [] then []
    else
      var w := TakeWord(t);
      assert w != [] && t[0] == s[|s| - |t|];
      var rest := Split(t[|w|..]);
      ConsWords(w, rest);
      [w] + rest
  }

  /** Prepending a word keeps a list of words made of words. */
  lemma ConsWords(w: string, rest: seq<string>)
    requires w != [] && NoSpace(w)
    requires forall i :: 0 <= i < |rest| ==> rest[i] != [] && NoSpace(rest[i])
    ensures forall i :: 0 <= i < |[w] + rest| ==> ([w] + rest)[i] != [] && NoSpace(([w] + rest)[i])
  {
    var words := [w] + rest;
    forall i | 0 <= i < |words| ensures words[i] != [] && NoSpace(words[i]) {
      if i > 0 { assert words[i] == rest[i - 1]; }
    }
  }

  /** `split()` finds no word exactly when the text is all whitespace. */
  lemma SplitEmpty(s: string)
    ensures Split(s) == [] <==> AllSpace(s)
  {
    var t := TrimStart(s);
    if t != [] {
      assert s[|s| - |t|] == t[0];
    }
  }

  /** Where a whitespace-separated token begins: a non-whitespace character at the
      start of the text or right after whitespace.  `afterSpace` says whether the
      character before `s` was whitespace (or `s` starts the text). */
  function WordStarts(s: string, afterSpace: bool): nat
  {
    if s == [] then 0
    else (if afterSpace && !IsSpace(s[0]) then 1 else 0) + WordStarts(s[1..], IsSpace(s[0]))
  }

  lemma {:induction false} WordStartsSkipSpace(s: string, n: nat)
    requires n <= |s| && AllSpace(s[..n])
    ensures WordStarts(s, true) == WordStarts(s[n..], true)
  {
    if n > 0 {
      assert IsSpace(s[..n][0]);
      assert s[1..][..n - 1] == s[..n][1..];
      WordStartsSkipSpace(s[1..], n - 1);
      assert s[1..][n - 1..] == s[n..];
    }
  }

  lemma {:induction false} WordStartsSkipWord(s: string, n: nat)
    requires n <= |s| && NoSpace(s[..n])
    ensures WordStarts(s, false) == WordStarts(s[n..], false)
  {
    if n > 0 {
      assert !IsSpace(s[..n][0]);
      assert s[1..][..n - 1] == s[..n][1..];
      WordStartsSkipWord(s[1..], n - 1);
      assert s[1..][n - 1..] == s[n..];
    }
  }

  /** The number of words `split()` returns is the number of places where a
      token starts: an independent count of the same thing. */
  lemma {:induction false} SplitCountsWordStarts(s: string)
    ensures |Split(s)| == WordStarts(s, true)
    decreases |s|
  {
    var t := TrimStart(s);
    WordStartsSkipSpace(s, |s| - |t|);
    if t != [] {
      SplitUnfold(s);
      WordStartsFirstWord(t);
      SplitCountsWordStarts(t[|TakeWord(t)|..]);
    }
  }

  /** A text that starts with a word has one token start in that word, and
      the rest are counted after it. */
  lemma WordStartsFirstWord(t: string)
    requires t != [] && !IsSpace(t[0])
    ensures WordStarts(t, true) == 1 + WordStarts(t[|TakeWord(t)|..], true)
  {
    var w := TakeWord(t);
    var rest := t[|w|..];
    assert WordStarts(t, true) == 1 + WordStarts(t[1..], false);
    var inner := t[1..][..|w| - 1];
    assert NoSpace(inner) by {
      forall k | 0 <= k < |inner| ensures !IsSpace(inner[k]) {
        assert inner[k] == w[k + 1];
      }
    }
    WordStartsSkipWord(t[1..], |w| - 1);
    SuffixOfSuffix(t, 1, |w| - 1);
    assert WordStarts(rest, false) == WordStarts(rest, true);
  }

  /** `split()` ignores leading and trailing whitespace, so splitting the
      stripped text gives the same words. */
  lemma SplitIgnoresEnds(s: string)
    ensures Split(Strip(s)) == Split(s)
  {
    SplitTrimEnd(TrimStart(s));
    SplitSkipLeadingSpace(s);
  }

  lemma {:induction false} SplitTrimEnd(t: string)
    requires t == [] || !IsSpace(t[0])
    ensures Split(TrimEnd(t)) == Split(t)
    decreases |t|
  {
    if t != [] {
      var e := TrimEnd(t);
      assert e != [];
      var w := TakeWord(t);
      TakeWordPrefix(t, e);
      var rest := t[|w|..];
      TrimEndDrop(t, |w|);
      assert e[|w|..] == TrimEnd(rest);
      var r0 := TrimStart(rest);
      SplitSkipLeadingSpace(rest);
      SplitSkipLeadingSpace(TrimEnd(rest));
      TrimEndAfterTrimStart(rest);
      SplitTrimEnd(r0);
    }
  }

  lemma {:induction false} TakeWordPrefix(t: string, e: string)
    requires 0 < |e| <= |t| && e == t[..|e|] && !IsSpace(e[|e| - 1])
    requires forall k :: |e| <= k < |t| ==> IsSpace(t[k])
    ensures TakeWord(e) == TakeWord(t)
  {
    if !IsSpace(t[0]) && |e| > 1 {
      TakeWordPrefix(t[1..], e[1..]);
    }
  }

  lemma {:induction false} TrimEndDrop(t: string, n: nat)
    requires n <= |TrimEnd(t)|
    ensures TrimEnd(t[n..]) == TrimEnd(t)[n..]
    decreases |t|
  {
    if t != [] && IsSpace(t[|t| - 1]) {
      TrimEndDrop(t[..|t| - 1], n);
      assert t[n..][..|t[n..]| - 1] == t[..|t| - 1][n..];
    }
  }

  lemma {:induction false} TrimEndAfterTrimStart(s: string)
    ensures TrimEnd(TrimStart(s)) == TrimStart(TrimEnd(s))
    decreases |s|
  {
    if s != [] && IsSpace(s[0]) {
      TrimEndAfterTrimStart(s[1..]);
      if TrimEnd(s) != [] {
        TrimEndDrop(s, 1);
      } else {
        assert TrimEnd(s[1..]) == [];
      }
    }
  }

  lemma SplitSkipLeadingSpace(s: string)
    ensures Split(TrimStart(s)) == Split(s)
  {
    var t := TrimStart(s);
    assert TrimStart(t) == t;
  }

  /** `get_last_word_from_sentence`: "" for blank input, otherwise the last
      token of the stripped sentence. */
  function LastWord(sentence: string): (r: string)
    ensures r == [] <==> AllSpace(sentence)
  {
    var t := Strip(sentence);
    StripBlank(sentence);
    if t != [] then
      var words := Split(t);
      if words != [] then words[|words| - 1] else []
    else []
  }

  /** The first word of `t` and the text after it. */
  function FirstWord(t: string): string {
    TakeWord(TrimStart(t))
  }

  function AfterFirstWord(t: string): string {
    var u := TrimStart(t);
    u[|TakeWord(u)|..]
  }

  lemma SplitUnfold(t: string)
    requires TrimStart(t) != []
    ensures Split(t) == [FirstWord(t)] + Split(AfterFirstWord(t))
  {
  }

  /** `w` ends `t` and is preceded there by whitespace unless it is all of `t`. */
  predicate IsFinalToken(t: string, w: string) {
    |w| <= |t| && w == t[|t| - |w|..] && (|w| == |t| || IsSpace(t[|t| - |w| - 1]))
  }

  lemma FinalTokenOfSuffix(t: string, rest: string, w: string)
    requires |rest| <= |t| && rest == t[|t| - |rest|..]
    requires IsFinalToken(rest, w) && |w| < |rest|
    ensures IsFinalToken(t, w)
  {
    assert t[|t| - |w| - 1] == rest[|rest| - |w| - 1];
  }

  /** The last word `split()` finds in a text that ends in a non-whitespace
      character is the final token of that text. */
  lemma {:induction false} SplitLast(t: string)
    requires t != [] && !IsSpace(t[|t| - 1])
    ensures Split(t) != [] && IsFinalToken(t, Split(t)[|Split(t)| - 1])
    decreases |t|
  {
    TrimStartKeepsLast(t);
    SplitUnfold(t);
    var rest := AfterFirstWord(t);
    if rest == [] {
      FirstTokenIsFinal(t);
    } else {
      AfterFirstWordFacts(t);
      SplitLast(rest);
      SplitLastCombine(t);
    }
  }

  lemma TrimStartKeepsLast(t: string)
    requires t != [] && !IsSpace(t[|t| - 1])
    ensures TrimStart(t) != [] && TrimStart(t)[|TrimStart(t)| - 1] == t[|t| - 1]
  {
  }

  /** When nothing follows the first word, it is the final token. */
  lemma FirstTokenIsFinal(t: string)
    requires TrimStart(t) != [] && AfterFirstWord(t) == []
    ensures Split(t) == [FirstWord(t)] && IsFinalToken(t, FirstWord(t))
  {
    var u := TrimStart(t);
    assert TakeWord(u) == u;
    SplitUnfold(t);
  }

  /** What follows the first word is a suffix of the text that starts with
      whitespace and ends where the text ends. */
  lemma AfterFirstWordFacts(t: string)
    requires t != [] && !IsSpace(t[|t| - 1]) && AfterFirstWord(t) != []
    ensures var rest := AfterFirstWord(t);
      && |rest| < |t| && rest == t[|t| - |rest|..]
      && IsSpace(rest[0]) && rest[|rest| - 1] == t[|t| - 1]
  {
    AfterFirstWordIsSuffix(t);
    AfterFirstWordStartsSpace(t);
  }

  lemma AfterFirstWordIsSuffix(t: string)
    requires TrimStart(t) != []
    ensures var rest := AfterFirstWord(t);
      |rest| < |t| && rest == t[|t| - |rest|..]
  {
    var u := TrimStart(t);
    var w := TakeWord(u);
    assert w != [] by { assert !IsSpace(u[0]); }
    SuffixOfSuffix(t, |t| - |u|, |w|);
  }

  lemma AfterFirstWordStartsSpace(t: string)
    requires AfterFirstWord(t) != []
    ensures IsSpace(AfterFirstWord(t)[0])
  {
    var u := TrimStart(t);
    var w := TakeWord(u);
    assert AfterFirstWord(t)[0] == u[|w|];
  }

  /** A suffix of a suffix is a suffix. */
  lemma SuffixOfSuffix(s: string, i: nat, j: nat)
    requires i + j <= |s|
    ensures s[i..][j..] == s[i + j..]
  {
  }

  lemma SplitLastCombine(t: string)
    requires TrimStart(t) != []
    requires var rest := AfterFirstWord(t);
      && rest != [] && |rest| < |t| && rest == t[|t| - |rest|..] && IsSpace(rest[0])
      && Split(rest) != [] && IsFinalToken(rest, Split(rest)[|Split(rest)| - 1])
    ensures Split(t) != [] && IsFinalToken(t, Split(t)[|Split(t)| - 1])
  {
    var rest := AfterFirstWord(t);
    var ws := Split(rest);
    SplitUnfold(t);
    var all := Split(t);
    var w' := ws[|ws| - 1];
    assert all[|all| - 1] == w';
    assert |w'| < |rest| by {
      assert NoSpace(w');
    }
    FinalTokenOfSuffix(t, rest, w');
  }

  /** `get_last_word_from_sentence` returns, for non-blank input, the final
      whitespace-separated token of the stripped sentence: non-empty, free of
      whitespace, a suffix of the stripped text, and preceded there by
      whitespace unless it is all of it. */
  lemma LastWordIsFinalToken(sentence: string)
    requires !AllSpace(sentence)
    ensures LastWord(sentence) != [] && NoSpace(LastWord(sentence))
    ensures IsFinalToken(Strip(sentence), LastWord(sentence))
  {
    var t := Strip(sentence);
    StripBlank(sentence);
    StripSlice(sentence);
    SplitLast(t);
  }

  /** The decimal digit character for `d`. */
  function Digit(d: nat): (c: char)
    requires d < 10
  {
    ('0' as int + d) as char
  }

  predicate IsDigit(c: char) {
    '0' <= c <= '9'
  }

  /** `str(n)` for a natural number: its decimal numeral. */
  function NatToString(n: nat): (s: string)
    ensures s != [] && forall k :: 0 <= k < |s| ==> IsDigit(s[k])
    ensures n > 0 ==> s[0] != '0'
  {
    if n < 10 then [Digit(n)] else NatToString(n / 10) + [Digit(n % 10)]
  }

  /** The value of a decimal numeral, as `int(s)` reads it. */
  function ParseNat(s: string): nat
    requires forall k :: 0 <= k < |s| ==> IsDigit(s[k])
  {
    if s == [] then 0
    else
      var c := s[|s| - 1];
      assert IsDigit(c);
      ParseNat(s[..|s| - 1]) * 10 + (c as int - '0' as int)
  }

  /** Reading back the numeral `str(n)` writes gives `n`. */
  lemma {:induction false} NatToStringRoundTrip(n: nat)
    ensures ParseNat(NatToString(n)) == n
  {
    var s := NatToString(n);
    if n >= 10 {
      NatToStringRoundTrip(n / 10);
      assert s[..|s| - 1] == NatToString(n / 10);
    }
  }
}
