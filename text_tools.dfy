/**
  The word pipeline of the jaundice-rate service (text_tools.py): cleaning one
  token, splitting an article into normalised words, and the charged-word score.

  The morphology analyser is outside the model: it is the parameter
  `normalize`, a total function from a cleaned token to its normal form.
 */
module TextTools {

  // ---------------------------------------------------------------------------
  // Character classes
  // ---------------------------------------------------------------------------

  /** Python's `string.punctuation`: the 32 ASCII punctuation characters. */
  const PUNCTUATION: string := "!\"#$%&'()*+,-./:;<=>?@[\\]^_`{|}~"

  /** The four ASCII ranges that make up `PUNCTUATION`. */
  predicate IsPunctuation(c: char) {
    ('!' <= c <= '/') || (':' <= c <= '@') || ('[' <= c <= '`') || ('{' <= c <= '~')
  }

  lemma PunctuationRanges(c: char)
    ensures IsPunctuation(c) <==> c in PUNCTUATION
  {
    if IsPunctuation(c) {
      RangeInPunctuation(c);
    }
    if c in PUNCTUATION {
      PunctuationInRange(c);
    }
  }

  lemma RangeInPunctuation(c: char)
    requires IsPunctuation(c)
    ensures c in PUNCTUATION
  {
    var i := if c <= '/' then c as int - '!' as int
      else if c <= '@' then c as int - ':' as int + 15
      else if c <= '`' then c as int - '[' as int + 22
      else c as int - '{' as int + 28;
    assert PUNCTUATION[i] == c;
  }

  lemma PunctuationInRange(c: char)
    requires c in PUNCTUATION
    ensures IsPunctuation(c)
  {
    var i :| 0 <= i < |PUNCTUATION| && PUNCTUATION[i] == c;
  }

  /** The three typographic marks `_clean_word` deletes wherever they occur. */
  predicate IsQuoteMark(c: char) {
    c == '«' || c == '»' || c == '…'
  }

  /** Characters on which Python's argument-less `str.split()` breaks a text. */
  predicate IsSpace(c: char) {
    c == ' ' || c == '\t' || c == '\n' || c == '\r' || c == '\U{0B}' || c == '\U{0C}'
    || ('\U{1C}' <= c <= '\U{1F}') || c == '\U{85}' || c == '\U{A0}' || c == '\U{1680}'
    || ('\U{2000}' <= c <= '\U{200A}') || c == '\U{2028}' || c == '\U{2029}'
    || c == '\U{202F}' || c == '\U{205F}' || c == '\U{3000}'
  }

  ghost predicate AllPunctuation(s: string) {
    forall i :: 0 <= i < |s| ==> IsPunctuation(s[i])
  }

  ghost predicate NoQuoteMarks(s: string) {
    forall i :: 0 <= i < |s| ==> !IsQuoteMark(s[i])
  }

  ghost predicate NoSpace(s: string) {
    forall i :: 0 <= i < |s| ==> !IsSpace(s[i])
  }

  /** Empty, or neither the first nor the last character is punctuation. */
  predicate PunctuationFreeEnds(w: string) {
    w == [] || (!IsPunctuation(w[0]) && !IsPunctuation(w[|w| - 1]))
  }

  /** A word with no quote marks and no punctuation at either end. */
  ghost predicate IsClean(w: string) {
    NoQuoteMarks(w) && PunctuationFreeEnds(w)
  }

  /** `r` is a contiguous slice of `u` with only punctuation cut off on either side. */
  ghost predicate IsPunctuationTrim(r: string, u: string) {
    exists i :: 0 <= i <= |u| - |r| && u[i..i + |r|] == r
      && AllPunctuation(u[..i]) && AllPunctuation(u[i + |r|..])
  }

  // ---------------------------------------------------------------------------
  // Subsequences
  // ---------------------------------------------------------------------------

  /** `a` is obtained from `b` by deleting elements, keeping the order of the rest. */
  ghost predicate IsSubsequence<T>(a: seq<T>, b: seq<T>)
    decreases |b|
  {
    if a == [] then true
    else if b == [] then false
    else
      (a[|a| - 1] == b[|b| - 1] && IsSubsequence(a[..|a| - 1], b[..|b| - 1]))
      || IsSubsequence(a, b[..|b| - 1])
  }

  lemma {:induction false} SubsequenceLength<T>(a: seq<T>, b: seq<T>)
    requires IsSubsequence(a, b)
    ensures |a| <= |b|
    ensures forall x :: x in a ==> x in b
    decreases |b|
  {
    if a != [] {
      if a[|a| - 1] == b[|b| - 1] && IsSubsequence(a[..|a| - 1], b[..|b| - 1]) {
        SubsequenceLength(a[..|a| - 1], b[..|b| - 1]);
        assert a == a[..|a| - 1] + [a[|a| - 1]];
        assert b == b[..|b| - 1] + [b[|b| - 1]];
      } else {
        SubsequenceLength(a, b[..|b| - 1]);
        assert b == b[..|b| - 1] + [b[|b| - 1]];
      }
    }
  }

  /** Appending the same element to both keeps a subsequence; appending to the longer one too. */
  lemma SubsequenceExtend<T>(a: seq<T>, b: seq<T>, x: T)
    requires IsSubsequence(a, b)
    ensures IsSubsequence(a + [x], b + [x])
    ensures IsSubsequence(a, b + [x])
  {
    assert (a + [x])[..|a|] == a;
    assert (b + [x])[..|b|] == b;
  }

  // ---------------------------------------------------------------------------
  // _clean_word
  // ---------------------------------------------------------------------------

  /** `s.replace(c, '')`: every occurrence of `c` deleted, all else kept in order. */
  function RemoveChar(s: string, c: char): (r: string)
    ensures c !in r
    ensures c !in s ==> r == s
  {
    if s == [] then []
    else if s[|s| - 1] == c then RemoveChar(s[..|s| - 1], c)
    else RemoveChar(s[..|s| - 1], c) + [s[|s| - 1]]
  }

  /**
    `RemoveChar` keeps every other character, as often as it occurs and in the
    same order: with `c !in r` this pins the result down.
   */
  lemma {:induction false} RemoveCharKeepsOthers(s: string, c: char)
    ensures IsSubsequence(RemoveChar(s, c), s)
    ensures forall x :: x != c ==> multiset(RemoveChar(s, c))[x] == multiset(s)[x]
  {
    if s != [] {
      var s', last := s[..|s| - 1], s[|s| - 1];
      RemoveCharKeepsOthers(s', c);
      assert s == s' + [last];
      SubsequenceExtend(RemoveChar(s', c), s', last);
      if last == c {
        assert RemoveChar(s, c) == RemoveChar(s', c);
      } else {
        assert RemoveChar(s, c) == RemoveChar(s', c) + [last];
      }
    }
  }

  lemma {:induction false} RemoveCharAppend(s: string, t: string, c: char)
    ensures RemoveChar(s + t, c) == RemoveChar(s, c) + RemoveChar(t, c)
    decreases |t|
  {
    if t == [] {
      assert s + t == s;
    } else {
      var t' := t[..|t| - 1];
      assert (s + t)[..|s + t| - 1] == s + t';
      RemoveCharAppend(s, t', c);
    }
  }

  /** The three chained `replace` calls of `_clean_word`. */
  function Unquote(w: string): (r: string)
    ensures NoQuoteMarks(r)
    ensures NoQuoteMarks(w) ==> r == w
  {
    var r1 := RemoveChar(w, '«');
    var r2 := RemoveChar(r1, '»');
    var r := RemoveChar(r2, '…');
    assert '«' !in r by {
      RemoveCharKeepsOthers(r1, '»');
      RemoveCharKeepsOthers(r2, '…');
      assert multiset(r)['«'] == multiset(r1)['«'] == 0;
    }
    assert '»' !in r by {
      RemoveCharKeepsOthers(r2, '…');
      assert multiset(r)['»'] == multiset(r2)['»'] == 0;
    }
    assert forall i :: 0 <= i < |r| ==> r[i] in r;
    r
  }

  /** `s.lstrip(string.punctuation)`: a suffix of `s` that does not start with punctuation. */
  function StripLeft(s: string): (r: string)
    ensures |r| <= |s|
    ensures r == [] || !IsPunctuation(r[0])
  {
    if s != [] && IsPunctuation(s[0]) then StripLeft(s[1..]) else s
  }

  /** `s.rstrip(string.punctuation)`: a prefix of `s` that does not end with punctuation. */
  function StripRight(s: string): (r: string)
    ensures |r| <= |s|
    ensures r == [] || !IsPunctuation(r[|r| - 1])
  {
    if s != [] && IsPunctuation(s[|s| - 1]) then StripRight(s[..|s| - 1]) else s
  }

  /** Left stripping keeps a suffix, drops only punctuation, and drops all of the leading run. */
  lemma {:induction false} StripLeftSpec(s: string)
    ensures var r := StripLeft(s);
      |r| <= |s| && r == s[|s| - |r|..] && AllPunctuation(s[..|s| - |r|])
      && (r == [] || !IsPunctuation(r[0]))
  {
    if s != [] && IsPunctuation(s[0]) {
      StripLeftSpec(s[1..]);
      var r := StripLeft(s);
      var n := |s| - |r|;
      assert r == s[1..][n - 1..];
      assert s[1..][n - 1..] == s[n..];
      var p := s[..n];
      assert p == [s[0]] + s[1..][..n - 1];
      forall i | 0 <= i < |p|
        ensures IsPunctuation(p[i])
      {
        if i > 0 {
          assert p[i] == s[1..][..n - 1][i - 1];
        }
      }
    }
  }

  /** Right stripping keeps a prefix, drops only punctuation, and drops all of the trailing run. */
  lemma {:induction false} StripRightSpec(s: string)
    ensures var r := StripRight(s);
      |r| <= |s| && r == s[..|r|] && AllPunctuation(s[|r|..])
      && (r == [] || !IsPunctuation(r[|r| - 1]))
  {
    if s != [] && IsPunctuation(s[|s| - 1]) {
      var s' := s[..|s| - 1];
      StripRightSpec(s');
      var r := StripRight(s);
      assert s[|r|..] == s'[|r|..] + [s[|s| - 1]];
    }
  }

  /** `s.strip(string.punctuation)`: neither end of the result is punctuation. */
  function Strip(s: string): (r: string)
    ensures PunctuationFreeEnds(r)
  {
    var l := StripLeft(s);
    StripRightSpec(l);
    StripRight(l)
  }

  /** Stripping both ends keeps one contiguous slice and cuts off only punctuation. */
  lemma StripIsTrim(u: string)
    ensures IsPunctuationTrim(Strip(u), u)
    ensures forall k :: 0 <= k < |Strip(u)| ==> Strip(u)[k] in u
  {
    var l := StripLeft(u);
    StripLeftSpec(u);
    StripRightSpec(l);
    var i := |u| - |l|;
    var r := StripRight(l);
    SliceOfSlice(u, l, r, i);
    assert Strip(u) == r;
    assert 0 <= i <= |u| - |r| && u[i..i + |r|] == r
      && AllPunctuation(u[..i]) && AllPunctuation(u[i + |r|..]);
  }

  /** A prefix `r` of the suffix `l == u[i..]`, with punctuation after it, sits at `i` in `u`. */
  lemma SliceOfSlice(u: string, l: string, r: string, i: nat)
    requires i <= |u| && l == u[i..]
    requires |r| <= |l| && r == l[..|r|] && AllPunctuation(l[|r|..])
    ensures u[i..i + |r|] == r
    ensures AllPunctuation(u[i + |r|..])
    ensures forall k :: 0 <= k < |r| ==> r[k] in u
  {
    assert u[i + |r|..] == l[|r|..];
    assert forall k :: 0 <= k < |r| ==> r[k] == u[i + k];
  }

  /**
    `_clean_word`: the quote marks are deleted everywhere, then punctuation is
    stripped from both ends only. The result is one contiguous slice of the
    quote-free word, with nothing but punctuation cut off on either side.
   */
  function CleanWord(w: string): (r: string)
    ensures NoQuoteMarks(r)
    ensures PunctuationFreeEnds(r)
    ensures IsPunctuationTrim(r, Unquote(w))
  {
    var u := Unquote(w);
    StripIsTrim(u);
    Strip(u)
  }

  /** A word without quote marks and without punctuation at either end is left as it is. */
  lemma CleanWordKeepsCleanWord(w: string)
    requires IsClean(w)
    ensures CleanWord(w) == w
  {
    assert Unquote(w) == w;
    assert StripLeft(w) == w;
  }

  /** Cleaning twice is cleaning once. */
  lemma CleanWordIdempotent(w: string)
    ensures CleanWord(CleanWord(w)) == CleanWord(w)
  {
    CleanWordKeepsCleanWord(CleanWord(w));
  }

  lemma UnquoteAppend(s: string, t: string)
    ensures Unquote(s + t) == Unquote(s) + Unquote(t)
  {
    RemoveCharAppend(s, t, '«');
    RemoveCharAppend(RemoveChar(s, '«'), RemoveChar(t, '«'), '»');
    RemoveCharAppend(RemoveChar(RemoveChar(s, '«'), '»'), RemoveChar(RemoveChar(t, '«'), '»'), '…');
  }

  /** A quote mark on its own disappears. */
  lemma UnquoteMark(c: char)
    requires IsQuoteMark(c)
    ensures Unquote([c]) == []
  {
    assert [c][..0] == [];
    assert RemoveChar([c], c) == [];
  }

  /** A clean word followed by one punctuation mark strips back to the word. */
  lemma StripTrailingMark(w: string, p: char)
    requires w != [] && PunctuationFreeEnds(w)
    requires IsPunctuation(p)
    ensures Strip(w + [p]) == w
  {
    assert StripLeft(w + [p]) == w + [p];
    assert (w + [p])[..|w|] == w;
    assert StripRight(w) == w;
  }

  /** Inner punctuation survives: the hyphen of "во-первых" stays, the trailing comma goes. */
  lemma CleanWordKeepsInnerHyphen()
    ensures CleanWord("Во-первых,") == "Во-первых"
  {
    var w := "Во-первых";
    assert "Во-первых," == w + [','];
    assert NoQuoteMarks(w + [',']);
    StripTrailingMark(w, ',');
  }

  /** Guillemets go wherever they are; the punctuation they enclosed is then stripped. */
  lemma CleanWordDropsOpeningGuillemet()
    ensures CleanWord("«Удивительно,") == "Удивительно"
  {
    var a := "Удивительно";
    var w := a + [','];
    assert Unquote("«Удивительно,") == w by {
      assert NoQuoteMarks(w);
      assert "«Удивительно," == "«" + w;
      UnquoteAppend("«", w);
      UnquoteMark('«');
    }
    StripTrailingMark(a, ',');
  }

  lemma CleanWordDropsClosingGuillemet()
    ensures CleanWord("началом!»") == "началом"
  {
    var b := "началом";
    var w := b + ['!'];
    assert Unquote("началом!»") == w by {
      assert NoQuoteMarks(w);
      assert "началом!»" == w + "»";
      UnquoteAppend(w, "»");
      UnquoteMark('»');
    }
    StripTrailingMark(b, '!');
  }

  /** The comma after "хочет" is stripped like the one after "Во-первых". */
  lemma CleanWordDropsComma()
    ensures CleanWord("хочет,") == "хочет"
  {
    assert "хочет," == "хочет" + [','];
    assert NoQuoteMarks("хочет" + [',']);
    StripTrailingMark("хочет", ',');
  }

  /** Words that are already clean come back unchanged. */
  lemma CleanWordKeepsPlainWords()
    ensures CleanWord("он") == "он"
    ensures CleanWord("чтобы") == "чтобы"
  {
    assert "он" == ['о', 'н'];
    assert IsClean("он");
    CleanWordKeepsCleanWord("он");
    assert "чтобы" == ['ч', 'т', 'о', 'б', 'ы'];
    assert IsClean("чтобы");
    CleanWordKeepsCleanWord("чтобы");
  }

  // ---------------------------------------------------------------------------
  // text.split()
  // ---------------------------------------------------------------------------

  /** Length of the run of non-space characters that starts `s`. */
  function WordEnd(s: string): (n: nat)
    requires s != [] && !IsSpace(s[0])
    ensures 1 <= n <= |s|
    ensures NoSpace(s[..n])
    ensures n == |s| || IsSpace(s[n])
  {
    if |s| == 1 || IsSpace(s[1]) then 1 else 1 + WordEnd(s[1..])
  }

  /**
    Python's `text.split()`: the maximal runs of non-space characters, in order;
    leading, trailing and repeated whitespace yield no empty token.
   */
  function Tokens(s: string): (ts: seq<string>)
    ensures forall k :: 0 <= k < |ts| ==> ts[k] != [] && NoSpace(ts[k])
    decreases |s|
  {
    if s == [] then []
    else if IsSpace(s[0]) then Tokens(s[1..])
    else
      var n := WordEnd(s);
      [s[..n]] + Tokens(s[n..])
  }

  /** `' '.join(ws)`. */
  function JoinSpace(ws: seq<string>): string {
    if ws == [] then ""
    else if |ws| == 1 then ws[0]
    else ws[0] + " " + JoinSpace(ws[1..])
  }

  lemma {:induction false} WordEndOfWord(w: string, rest: string)
    requires w != [] && NoSpace(w)
    requires rest == [] || IsSpace(rest[0])
    ensures WordEnd(w + rest) == |w|
    decreases |w|
  {
    var s := w + rest;
    if |w| > 1 {
      assert s[1..] == w[1..] + rest;
      WordEndOfWord(w[1..], rest);
    }
  }

  lemma {:induction false} TokensSkipsSpace(s: string, t: string)
    requires forall i :: 0 <= i < |s| ==> IsSpace(s[i])
    ensures Tokens(s + t) == Tokens(t)
    decreases |s|
  {
    if s == [] {
      assert s + t == t;
    } else {
      assert (s + t)[0] == s[0] && IsSpace(s[0]);
      assert (s + t)[1..] == s[1..] + t;
      TokensSkipsSpace(s[1..], t);
    }
  }

  /**
    Splitting a space-joined list of non-empty, space-free words gives the list
    back: `Tokens` is the inverse of `JoinSpace` on what it produces.
   */
  lemma {:induction false} TokensJoinSpace(ws: seq<string>)
    requires forall k :: 0 <= k < |ws| ==> ws[k] != [] && NoSpace(ws[k])
    ensures Tokens(JoinSpace(ws)) == ws
  {
    if ws == [] {
    } else if |ws| == 1 {
      WordEndOfWord(ws[0], []);
      assert ws[0] + [] == ws[0];
      assert ws[0][|ws[0]|..] == [];
    } else {
      var w, rest := ws[0], " " + JoinSpace(ws[1..]);
      var s := w + rest;
      WordEndOfWord(w, rest);
      assert s[..|w|] == w;
      assert s[|w|..] == rest;
      assert rest == " " + JoinSpace(ws[1..]);
      assert s[0] == w[0] && !IsSpace(s[0]);
      assert Tokens(s) == [w] + Tokens(rest);
      TokensSkipsSpace(" ", JoinSpace(ws[1..]));
      TokensJoinSpace(ws[1..]);
      assert Tokens(rest) == ws[1..];
      assert JoinSpace(ws) == s;
      assert ws == [w] + ws[1..];
    }
  }

  // ---------------------------------------------------------------------------
  // split_by_words
  // ---------------------------------------------------------------------------

  /** The filter of `split_by_words`: longer than two characters, or the particle "не". */
  predicate IsKept(w: string): (b: bool)
    ensures |w| < 2 ==> !b
    ensures |w| == 2 ==> (b <==> w == "не")
    ensures |w| > 2 ==> b
  {
    |w| > 2 || w == "не"
  }

  /**
    What `split_by_words` computes for one token before filtering: the
    analyser's normal form of the cleaned token.
   */
  function TokenForm(normalize: string -> string): (form: string -> string)
  {
    t => normalize(CleanWord(t))
  }

  /** A token that is already clean reaches the analyser unchanged. */
  lemma TokenFormOfCleanToken(normalize: string -> string, t: string)
    requires IsClean(t)
    ensures TokenForm(normalize)(t) == normalize(t)
  {
    CleanWordKeepsCleanWord(t);
  }

  /** The normal form of each token, before the length filter. */
  function Normalized(form: string -> string, tokens: seq<string>): (ns: seq<string>)
    ensures |ns| == |tokens|
    ensures forall k :: 0 <= k < |tokens| ==> ns[k] == form(tokens[k])
  {
    if tokens == [] then []
    else Normalized(form, tokens[..|tokens| - 1]) + [form(tokens[|tokens| - 1])]
  }

  /** What one token contributes: its normal form if that passes the filter, else nothing. */
  function KeptForm(form: string -> string, token: string): (ws: seq<string>)
    ensures |ws| <= 1
    ensures ws == [] <==> !IsKept(form(token))
    ensures ws != [] ==> ws[0] == form(token)
  {
    if IsKept(form(token)) then [form(token)] else []
  }

  /** The words collected from `tokens`, in token order. */
  function KeptWords(form: string -> string, tokens: seq<string>): (ws: seq<string>)
    ensures |ws| <= |tokens|
  {
    if tokens == [] then []
    else KeptWords(form, tokens[..|tokens| - 1]) + KeptForm(form, tokens[|tokens| - 1])
  }

  /** Splitting is compositional: the words of two token runs are the words of each, in order. */
  lemma {:induction false} KeptWordsAppend(form: string -> string, a: seq<string>, b: seq<string>)
    ensures KeptWords(form, a + b) == KeptWords(form, a) + KeptWords(form, b)
    decreases |b|
  {
    if b == [] {
      assert a + b == a;
    } else {
      var b' := b[..|b| - 1];
      assert (a + b)[..|a + b| - 1] == a + b';
      KeptWordsAppend(form, a, b');
    }
  }

  /** Every word kept is longer than two characters or is "не". */
  lemma {:induction false} KeptWordsAreKept(form: string -> string, tokens: seq<string>)
    ensures forall w :: w in KeptWords(form, tokens) ==> IsKept(w)
  {
    if tokens != [] {
      KeptWordsAreKept(form, tokens[..|tokens| - 1]);
    }
  }

  /**
    The kept words are an order-preserving subsequence of the normal forms of
    the tokens.
   */
  lemma {:induction false} KeptWordsSubsequence(form: string -> string, tokens: seq<string>)
    ensures IsSubsequence(KeptWords(form, tokens), Normalized(form, tokens))
  {
    var ws, ns := KeptWords(form, tokens), Normalized(form, tokens);
    if tokens != [] {
      var pre := tokens[..|tokens| - 1];
      var n := form(tokens[|tokens| - 1]);
      KeptWordsSubsequence(form, pre);
      SubsequenceExtend(KeptWords(form, pre), Normalized(form, pre), n);
      assert ns == Normalized(form, pre) + [n];
      if IsKept(n) {
        assert ws == KeptWords(form, pre) + [n];
      } else {
        assert ws == KeptWords(form, pre) + [];
        assert ws == KeptWords(form, pre);
      }
    }
  }

  /** Every kept word is the normal form of some token. */
  lemma KeptWordsFromTokens(form: string -> string, tokens: seq<string>)
    ensures forall w :: w in KeptWords(form, tokens) ==> w in Normalized(form, tokens)
  {
    KeptWordsSubsequence(form, tokens);
    SubsequenceLength(KeptWords(form, tokens), Normalized(form, tokens));
  }

  /** Every token whose normal form passes the filter has that form among the kept words. */
  lemma {:induction false} KeptWordsComplete(form: string -> string, tokens: seq<string>, k: nat)
    requires k < |tokens|
    requires IsKept(form(tokens[k]))
    ensures form(tokens[k]) in KeptWords(form, tokens)
  {
    var pre := tokens[..|tokens| - 1];
    if k < |tokens| - 1 {
      assert tokens[k] == pre[k];
      KeptWordsComplete(form, pre, k);
    }
  }

  /**
    `split_by_words`: for each whitespace token, clean it, normalise it and
    keep the normal form when it passes the filter.
   */
  method SplitByWords(normalize: string -> string, text: string) returns (words: seq<string>)
    ensures words == KeptWords(TokenForm(normalize), Tokens(text))
    ensures forall w :: w in words ==> IsKept(w)
    ensures |words| <= |Tokens(text)|
  {
    var tokens := Tokens(text);
    ghost var form := TokenForm(normalize);
    words := [];
    for i := 0 to |tokens|
      invariant words == KeptWords(form, tokens[..i])
    {
      var cleanedWord := CleanWord(tokens[i]);
      var normalizedWord := normalize(cleanedWord);
      assert normalizedWord == form(tokens[i]);
      KeptWordsStep(form, tokens, i);
      if |normalizedWord| > 2 || normalizedWord == "не" {
        words := words + [normalizedWord];
      }
    }
    assert tokens[..|tokens|] == tokens;
    KeptWordsAreKept(form, tokens);
  }

  /** One more token adds what that token contributes. */
  lemma KeptWordsStep(form: string -> string, tokens: seq<string>, i: nat)
    requires i < |tokens|
    ensures KeptWords(form, tokens[..i + 1]) == KeptWords(form, tokens[..i]) + KeptForm(form, tokens[i])
  {
    assert tokens[..i + 1][..i] == tokens[..i];
  }

  /** The whitespace tokens of the first sentence of the source's tests. */
  lemma ExampleTokens()
    ensures Tokens("Во-первых, он хочет, чтобы") == ["Во-первых,", "он", "хочет,", "чтобы"]
  {
    ExampleWordsJoin();
    TokensJoinSpace(["Во-первых,", "он", "хочет,", "чтобы"]);
  }

  /** The sentence is the space-join of its four words, none of which holds whitespace. */
  lemma ExampleWordsJoin()
    ensures var ts := ["Во-первых,", "он", "хочет,", "чтобы"];
      JoinSpace(ts) == "Во-первых, он хочет, чтобы"
      && forall k :: 0 <= k < |ts| ==> ts[k] != [] && NoSpace(ts[k])
  {
    var ts := ["Во-первых,", "он", "хочет,", "чтобы"];
    assert ts[1..][1..][1..] == ["чтобы"];
    assert NoSpace(ts[0]) && NoSpace(ts[1]) && NoSpace(ts[2]) && NoSpace(ts[3]);
  }

  /**
    Four tokens whose forms are kept, dropped, kept, kept contribute exactly
    the three kept forms, in order.
   */
  lemma KeptWordsOfFour(form: string -> string, t: seq<string>, v: seq<string>)
    requires |t| == 4 && |v| == 4
    requires forall i :: 0 <= i < 4 ==> form(t[i]) == v[i]
    requires IsKept(v[0]) && !IsKept(v[1]) && IsKept(v[2]) && IsKept(v[3])
    ensures KeptWords(form, t) == [v[0], v[2], v[3]]
  {
    assert t[..3][..2][..1][..0] == [];
    assert KeptWords(form, t[..3][..2][..1]) == [v[0]];
    assert KeptWords(form, t[..3][..2]) == [v[0]];
    assert KeptWords(form, t[..3]) == [v[0], v[2]];
  }

  /** The analyser's answer for each cleaned token of the example sentence. */
  lemma HyphenatedTokenForm(normalize: string -> string)
    requires normalize("Во-первых") == "во-первых"
    ensures TokenForm(normalize)("Во-первых,") == "во-первых"
  {
    CleanWordKeepsInnerHyphen();
  }

  lemma CleanTokenForms(normalize: string -> string)
    requires normalize("он") == "он"
    requires normalize("чтобы") == "чтобы"
    ensures TokenForm(normalize)("он") == "он"
    ensures TokenForm(normalize)("чтобы") == "чтобы"
  {
    CleanWordKeepsPlainWords();
  }

  lemma CommaTokenForm(normalize: string -> string)
    requires normalize("хочет") == "хотеть"
    ensures TokenForm(normalize)("хочет,") == "хотеть"
  {
    CleanWordDropsComma();
  }

  /** The kept forms of the four tokens of the example sentence. */
  lemma ExampleKeptWords(normalize: string -> string)
    requires normalize("Во-первых") == "во-первых"
    requires normalize("он") == "он"
    requires normalize("хочет") == "хотеть"
    requires normalize("чтобы") == "чтобы"
    ensures KeptWords(TokenForm(normalize), ["Во-первых,", "он", "хочет,", "чтобы"])
      == ["во-первых", "хотеть", "чтобы"]
  {
    HyphenatedTokenForm(normalize);
    CleanTokenForms(normalize);
    CommaTokenForm(normalize);
    var v := ["во-первых", "он", "хотеть", "чтобы"];
    KeptWordsOfFour(TokenForm(normalize), ["Во-первых,", "он", "хочет,", "чтобы"], v);
  }

  /**
    The first case of the source's tests, with the analyser's answers for the
    four cleaned tokens as hypotheses: the two-letter pronoun "он" is dropped,
    the hyphenated "во-первых" is kept whole.
   */
  lemma SplitExampleDropsShortWords(normalize: string -> string)
    requires normalize("Во-первых") == "во-первых"
    requires normalize("он") == "он"
    requires normalize("хочет") == "хотеть"
    requires normalize("чтобы") == "чтобы"
    ensures KeptWords(TokenForm(normalize), Tokens("Во-первых, он хочет, чтобы"))
      == ["во-первых", "хотеть", "чтобы"]
  {
    ExampleTokens();
    ExampleKeptWords(normalize);
  }

  // ---------------------------------------------------------------------------
  // calculate_jaundice_rate
  // ---------------------------------------------------------------------------

  /** Number of article words that belong to the charged words (with repetition). */
  function ChargedCount(article: seq<string>, charged: seq<string>): (n: nat)
    ensures n <= |article|
    ensures n == 0 <==> forall k :: 0 <= k < |article| ==> article[k] !in charged
  {
    if article == [] then 0
    else
      ChargedCount(article[..|article| - 1], charged)
      + (if article[|article| - 1] in charged then 1 else 0)
  }

  /**
    `calculate_jaundice_rate`: the percentage of article words that are
    charged, exactly (the two-decimal rounding is not modelled); 0 for an empty
    article.
   */
  function JaundiceRate(article: seq<string>, charged: seq<string>): (r: real)
    ensures 0.0 <= r <= 100.0
    ensures article == [] ==> r == 0.0
    ensures r == 0.0 <==> forall k :: 0 <= k < |article| ==> article[k] !in charged
    ensures r == 100.0 <==> article != [] && ChargedCount(article, charged) == |article|
  {
    if article == [] then 0.0
    else
      var n, total := ChargedCount(article, charged) as real, |article| as real;
      assert n <= total;
      assert n / total * 100.0 <= 100.0 by {
        assert n / total <= 1.0;
      }
      n / total * 100.0
  }

  lemma {:induction false} ChargedCountAppend(a: seq<string>, b: seq<string>, charged: seq<string>)
    ensures ChargedCount(a + b, charged) == ChargedCount(a, charged) + ChargedCount(b, charged)
    decreases |b|
  {
    if b == [] {
      assert a + b == a;
    } else {
      var b' := b[..|b| - 1];
      assert (a + b)[..|a + b| - 1] == a + b';
      ChargedCountAppend(a, b', charged);
    }
  }

  /** Reordering the article does not change the count. */
  lemma {:induction false} ChargedCountPermutation(a: seq<string>, b: seq<string>, charged: seq<string>)
    requires multiset(a) == multiset(b)
    ensures ChargedCount(a, charged) == ChargedCount(b, charged)
    decreases |a|
  {
    if a != [] {
      var x := a[|a| - 1];
      var a' := a[..|a| - 1];
      assert a == a' + [x];
      assert x in multiset(b);
      var i :| 0 <= i < |b| && b[i] == x;
      var b' := b[..i] + b[i + 1..];
      MultisetRemoveAt(b, i);
      assert multiset(a') == multiset(a) - multiset{x};
      ChargedCountPermutation(a', b', charged);
      ChargedCountRemoveAt(b, i, charged);
    }
  }

  lemma MultisetRemoveAt(b: seq<string>, i: nat)
    requires i < |b|
    ensures multiset(b[..i] + b[i + 1..]) == multiset(b) - multiset{b[i]}
  {
    assert b == b[..i] + [b[i]] + b[i + 1..];
  }

  lemma ChargedCountRemoveAt(b: seq<string>, i: nat, charged: seq<string>)
    requires i < |b|
    ensures ChargedCount(b, charged)
      == ChargedCount(b[..i] + b[i + 1..], charged) + (if b[i] in charged then 1 else 0)
  {
    ChargedCountAppend(b[..i], [b[i]] + b[i + 1..], charged);
    ChargedCountAppend([b[i]], b[i + 1..], charged);
    ChargedCountAppend(b[..i], b[i + 1..], charged);
    assert ChargedCount([b[i]], charged) == if b[i] in charged then 1 else 0 by {
      assert [b[i]][..0] == [];
    }
    assert b[..i] + ([b[i]] + b[i + 1..]) == b;
  }

  /** Only membership in the charged words matters, not their order or repetition. */
  lemma {:induction false} ChargedCountMembership(a: seq<string>, c1: seq<string>, c2: seq<string>)
    requires forall w :: w in c1 <==> w in c2
    ensures ChargedCount(a, c1) == ChargedCount(a, c2)
  {
    if a != [] {
      ChargedCountMembership(a[..|a| - 1], c1, c2);
    }
  }

  /**
    The score does not change when the article words are reordered, nor when
    the charged words are reordered or repeated.
   */
  lemma JaundiceRateInvariance(a1: seq<string>, a2: seq<string>, c1: seq<string>, c2: seq<string>)
    requires multiset(a1) == multiset(a2)
    requires forall w :: w in c1 <==> w in c2
    ensures JaundiceRate(a1, c1) == JaundiceRate(a2, c2)
  {
    ChargedCountPermutation(a1, a2, c1);
    ChargedCountMembership(a2, c1, c2);
    assert |a1| == |multiset(a1)| == |a2|;
  }

  /** The test case: one charged word among three gives a third of a hundred. */
  lemma JaundiceRateExample()
    ensures JaundiceRate(["все", "аутсайдер", "побег"], ["аутсайдер", "банкротство"]) == 100.0 / 3.0
    ensures 33.0 < JaundiceRate(["все", "аутсайдер", "побег"], ["аутсайдер", "банкротство"]) < 34.0
  {
    var a, c := ["все", "аутсайдер", "побег"], ["аутсайдер", "банкротство"];
    assert a[..2][..1] == ["все"];
    assert "все" !in c;
    assert "побег" !in c;
    assert ChargedCount(a, c) == 1;
  }
}
