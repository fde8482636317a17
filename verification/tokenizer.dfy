/**
 * The per-file tokenizer used when counting words (the `tokenize_text`
 * defined inside collect_diary_data) and the stopword filter applied to it.
 */
module Tokenizer {
  import opened Wrappers
  import opened Text

  /**
   * What the tokenizer takes from outside the model: jieba's segmentation
   * (`jieba.cut`), and which non-ASCII characters Python's `re` treats as
   * word characters (Unicode letters and digits, CJK included).
   */
  datatype Lexicon = Lexicon(segment: string -> seq<string>, nonAsciiWordChar: char -> bool)

  predicate IsAsciiLetter(c: char) {
    ('a' <= c <= 'z') || ('A' <= c <= 'Z')
  }

  /** `\w` in a Python `str` pattern: ASCII letters, digits, `_`, and the Unicode word characters. */
  predicate IsWordChar(lex: Lexicon, c: char) {
    IsAsciiLetter(c) || ('0' <= c <= '9') || c == '_' || (c > '\U{7F}' && lex.nonAsciiWordChar(c))
  }

  /** A non-empty run of ASCII letters. */
  predicate IsLatinWord(w: string) {
    |w| > 0 && forall i :: 0 <= i < |w| ==> IsAsciiLetter(w[i])
  }

  /** Length of the run of ASCII letters that starts `s`. */
  function LetterRun(s: string): (n: nat)
    ensures n <= |s|
    ensures forall i :: 0 <= i < n ==> IsAsciiLetter(s[i])
    ensures n == |s| || !IsAsciiLetter(s[n])
  {
    if |s| > 0 && IsAsciiLetter(s[0]) then 1 + LetterRun(s[1..]) else 0
  }

  /**
   * The matches of `\b[a-zA-Z]+\b` in `s`, scanning left to right, where
   * `afterWord` says whether the character just before `s` is a word character.
   * A match must start where the previous character is not a word character,
   * takes the whole letter run, and must be followed by a non-word character.
   */
  function MatchLatin(lex: Lexicon, afterWord: bool, s: string): (r: seq<string>)
    ensures forall i :: 0 <= i < |r| ==> IsLatinWord(r[i])
    decreases |s|
  {
    if |s| == 0 then []
    else if IsAsciiLetter(s[0]) && !afterWord then
      var n := LetterRun(s);
      if n == |s| || !IsWordChar(lex, s[n]) then [s[..n]] + MatchLatin(lex, true, s[n..])
      else MatchLatin(lex, true, s[1..])
    else MatchLatin(lex, IsWordChar(lex, s[0]), s[1..])
  }

  /** `re.findall(r'\b[a-zA-Z]+\b', text)`. */
  function LatinWords(lex: Lexicon, text: string): seq<string> {
    MatchLatin(lex, false, text)
  }

  /**
   * `t[i..j]` is a match of `\b[a-zA-Z]+\b`: a run of ASCII letters with a
   * non-word character (or the text's edge) on each side.
   */
  predicate LatinMatch(lex: Lexicon, t: string, i: int, j: int) {
    && 0 <= i < j <= |t|
    && (forall k :: i <= k < j ==> IsAsciiLetter(t[k]))
    && (i == 0 || !IsWordChar(lex, t[i - 1]))
    && (j == |t| || !IsWordChar(lex, t[j]))
  }

  /** Whether the character before position `p` of `t` is a word character. */
  predicate AfterWord(lex: Lexicon, t: string, p: int) {
    0 < p <= |t| && IsWordChar(lex, t[p - 1])
  }

  /** `w` is the text of a match that starts at or after position `p`. */
  predicate MatchedFrom(lex: Lexicon, t: string, p: int, w: string) {
    exists i, j :: p <= i < j <= |t| && LatinMatch(lex, t, i, j) && t[i..j] == w
  }

  /** `re.findall` finds a word exactly when it is the text of some match. */
  lemma LatinWordsMembers(lex: Lexicon, t: string, w: string)
    ensures w in LatinWords(lex, t) <==> exists i, j :: LatinMatch(lex, t, i, j) && t[i..j] == w
  {
    MatchLatinFrom(lex, t, 0, w);
    assert t[0..] == t;
  }

  /** Scanning from position `p` finds exactly the matches that start at or after `p`. */
  lemma {:induction false} MatchLatinFrom(lex: Lexicon, t: string, p: nat, w: string)
    requires p <= |t|
    ensures w in MatchLatin(lex, AfterWord(lex, t, p), t[p..]) <==> MatchedFrom(lex, t, p, w)
    decreases |t| - p
  {
    if p < |t| {
      var s := t[p..];
      assert s[0] == t[p];
      assert s[1..] == t[p + 1..];
      if IsAsciiLetter(t[p]) && !AfterWord(lex, t, p) {
        var n := LetterRun(s);
        var q := p + n;
        RunOf(t, p, n);
        if q == |t| || !IsWordChar(lex, t[q]) {
          assert s[..n] == t[p..q] && s[n..] == t[q..];
          MatchLatinFrom(lex, t, q, w);
          WholeRunMatched(lex, t, p, q, w);
        } else {
          MatchLatinFrom(lex, t, p + 1, w);
          RunNotMatched(lex, t, p, q, w);
        }
      } else {
        MatchLatinFrom(lex, t, p + 1, w);
        NoMatchAt(lex, t, p, w);
      }
    }
  }

  /** A maximal letter run with non-word characters around it is one match; the rest start after it. */
  lemma WholeRunMatched(lex: Lexicon, t: string, p: nat, q: nat, w: string)
    requires p < q <= |t|
    requires forall k :: p <= k < q ==> IsAsciiLetter(t[k])
    requires q == |t| || !IsWordChar(lex, t[q])
    requires !AfterWord(lex, t, p)
    ensures MatchedFrom(lex, t, p, w) <==> w == t[p..q] || MatchedFrom(lex, t, q, w)
  {
    assert LatinMatch(lex, t, p, q);
    forall i, j | p <= i < q && LatinMatch(lex, t, i, j) ensures i == p && j == q {
      MatchInRun(lex, t, p, q, i, j);
    }
  }

  /** A letter run followed by a word character holds no match. */
  lemma RunNotMatched(lex: Lexicon, t: string, p: nat, q: nat, w: string)
    requires p < q < |t|
    requires forall k :: p <= k < q ==> IsAsciiLetter(t[k])
    requires !IsAsciiLetter(t[q]) && IsWordChar(lex, t[q])
    ensures MatchedFrom(lex, t, p, w) <==> MatchedFrom(lex, t, p + 1, w)
  {
    forall i, j | p <= i < q && LatinMatch(lex, t, i, j) ensures false {
      MatchInRun(lex, t, p, q, i, j);
    }
  }

  /** Where no match starts, the matches from `p` are those from `p + 1`. */
  lemma NoMatchAt(lex: Lexicon, t: string, p: nat, w: string)
    requires p < |t|
    requires !IsAsciiLetter(t[p]) || AfterWord(lex, t, p)
    ensures MatchedFrom(lex, t, p, w) <==> MatchedFrom(lex, t, p + 1, w)
  {
    assert forall j :: !LatinMatch(lex, t, p, j);
  }

  /** The letter run that `LetterRun` measures, in the coordinates of the whole text. */
  lemma RunOf(t: string, p: nat, n: nat)
    requires p <= |t| && n == LetterRun(t[p..])
    ensures p + n <= |t|
    ensures forall k :: p <= k < p + n ==> IsAsciiLetter(t[k])
    ensures p + n == |t| || !IsAsciiLetter(t[p + n])
  {
    var s := t[p..];
    forall k | p <= k < p + n ensures IsAsciiLetter(t[k]) {
      assert t[k] == s[k - p];
    }
    if p + n < |t| {
      assert t[p + n] == s[n];
    }
  }

  /** Inside a maximal letter run, the only possible match is the whole run. */
  lemma MatchInRun(lex: Lexicon, t: string, p: nat, q: nat, i: int, j: int)
    requires p < q <= |t|
    requires forall k :: p <= k < q ==> IsAsciiLetter(t[k])
    requires q == |t| || !IsAsciiLetter(t[q])
    requires LatinMatch(lex, t, i, j) && p <= i < q
    ensures i == p && j == q
  {
  }

  /** A jieba piece is kept, unstripped, when it is non-blank and longer than one character. */
  function KeepPiece(p: string): Option<string> {
    if Strip(p) != "" && |p| > 1 then Some(p) else None
  }

  /** The jieba pieces kept, in order. */
  function KeepPieces(pieces: seq<string>): (r: seq<string>)
    ensures |r| <= |pieces|
  {
    FilterMap(pieces, KeepPiece)
  }

  /** The pieces kept are exactly those that are non-blank and longer than one character. */
  lemma KeepPiecesMembers(pieces: seq<string>, w: string)
    ensures w in KeepPieces(pieces) <==> w in pieces && !Blank(w) && |w| > 1
  {
    FilterMapMembers(pieces, KeepPiece, w);
    if w in pieces && !Blank(w) && |w| > 1 {
      var i :| 0 <= i < |pieces| && pieces[i] == w;
      assert KeepPiece(pieces[i]) == Some(w);
    }
  }

  /** The local `tokenize_text`: kept jieba pieces, then the Latin words. */
  function Tokenize(lex: Lexicon, text: string): seq<string> {
    KeepPieces(lex.segment(text)) + LatinWords(lex, text)
  }

  /** One token's contribution: its stripped text, unless that is empty or a stopword. */
  function CountedWord(stopwords: set<string>, t: string): Option<string> {
    var w := Strip(t);
    if w != "" && w !in stopwords then Some(w) else None
  }

  function Counter(stopwords: set<string>): string -> Option<string> {
    t => CountedWord(stopwords, t)
  }

  /** The words counted for one file: each token stripped, blanks and stopwords dropped. */
  function CountedWords(tokens: seq<string>, stopwords: set<string>): (r: seq<string>)
    ensures |r| <= |tokens|
    ensures forall x :: x in r ==> x != "" && Stripped(x) && x !in stopwords
  {
    CountedWordsClean(tokens, stopwords);
    FilterMap(tokens, Counter(stopwords))
  }

  lemma CountedWordsClean(tokens: seq<string>, stopwords: set<string>)
    ensures forall x :: x in FilterMap(tokens, Counter(stopwords)) ==> x != "" && Stripped(x) && x !in stopwords
  {
    forall x | x in FilterMap(tokens, Counter(stopwords))
      ensures x != "" && Stripped(x) && x !in stopwords
    {
      var i := FilterMapSound(tokens, Counter(stopwords), x);
    }
  }

  /**
   * A word is counted exactly when some token strips to it and it is neither
   * blank nor a stopword.
   */
  lemma CountedWordsMembers(tokens: seq<string>, stopwords: set<string>, w: string)
    ensures w in CountedWords(tokens, stopwords) <==>
      w != "" && w !in stopwords && exists t :: t in tokens && Strip(t) == w
  {
    var f := Counter(stopwords);
    FilterMapMembers(tokens, f, w);
    if w in CountedWords(tokens, stopwords) {
      var i :| 0 <= i < |tokens| && f(tokens[i]) == Some(w);
      assert tokens[i] in tokens && Strip(tokens[i]) == w;
    }
    if w != "" && w !in stopwords && exists t :: t in tokens && Strip(t) == w {
      var t :| t in tokens && Strip(t) == w;
      var i :| 0 <= i < |tokens| && tokens[i] == t;
      assert f(tokens[i]) == Some(w);
    }
  }

  lemma {:induction false} LatinWordRun(w: string, rest: string)
    requires IsLatinWord(w)
    requires |rest| == 0 || !IsAsciiLetter(rest[0])
    ensures LetterRun(w + rest) == |w|
    decreases |w|
  {
    if |w| > 1 {
      assert (w + rest)[1..] == w[1..] + rest;
      LatinWordRun(w[1..], rest);
    } else {
      assert (w + rest)[1..] == rest;
    }
  }

  /**
   * Latin words separated by single spaces are found exactly, in order: the
   * regex neither splits nor merges them.
   */
  lemma {:induction false} LatinWordsOfSpacedText(lex: Lexicon, ws: seq<string>)
    requires forall i :: 0 <= i < |ws| ==> IsLatinWord(ws[i])
    ensures LatinWords(lex, Join(ws, " ")) == ws
    decreases |ws|
  {
    if |ws| == 1 {
      assert Join(ws, " ") == ws[0];
      MatchOneWord(lex, ws[0]);
    } else if |ws| > 1 {
      var tail := Join(ws[1..], " ");
      assert Join(ws, " ") == ws[0] + " " + tail;
      MatchFirstWord(lex, ws[0], tail);
      LatinWordsOfSpacedText(lex, ws[1..]);
      assert [ws[0]] + ws[1..] == ws;
    }
  }

  /** A lone Latin word is one match. */
  lemma MatchOneWord(lex: Lexicon, w: string)
    requires IsLatinWord(w)
    ensures MatchLatin(lex, false, w) == [w]
  {
    LatinWordRun(w, "");
    assert w + "" == w;
    assert w[..|w|] == w && w[|w|..] == "";
    assert IsAsciiLetter(w[0]);
  }

  /** A Latin word followed by a space is one match, and the scan resumes after the space. */
  lemma MatchFirstWord(lex: Lexicon, w: string, tail: string)
    requires IsLatinWord(w)
    ensures MatchLatin(lex, false, w + " " + tail) == [w] + MatchLatin(lex, false, tail)
  {
    var s := w + " " + tail;
    assert s == w + (" " + tail);
    LatinWordRun(w, " " + tail);
    assert s[0] == w[0] && IsAsciiLetter(s[0]);
    assert s[|w|] == ' ' && !IsWordChar(lex, ' ');
    assert s[..|w|] == w;
    assert s[|w|..] == " " + tail;
    assert (" " + tail)[1..] == tail;
    assert MatchLatin(lex, true, " " + tail) == MatchLatin(lex, false, tail);
  }

  /**
   * Python's `\b` treats CJK characters as word characters, so a Latin word
   * written straight after one is not a token; after a non-word character it is.
   */
  lemma LatinWordAfterWordCharacter(lex: Lexicon, c: char)
    requires c > '\U{7F}'
    ensures LatinWords(lex, [c] + "hello") == if lex.nonAsciiWordChar(c) then [] else ["hello"]
  {
    var s := [c] + "hello";
    assert s[1..] == "hello";
    LatinWordRun("hello", "");
    assert "hello" + "" == "hello";
    assert "hello"[..5] == "hello" && "hello"[5..] == "";
    assert MatchLatin(lex, false, s) == MatchLatin(lex, lex.nonAsciiWordChar(c), "hello");
    if lex.nonAsciiWordChar(c) {
      assert MatchLatin(lex, true, "hello") == MatchLatin(lex, true, "ello");
      assert MatchLatin(lex, true, "ello") == MatchLatin(lex, true, "llo");
      assert MatchLatin(lex, true, "llo") == MatchLatin(lex, true, "lo");
      assert MatchLatin(lex, true, "lo") == MatchLatin(lex, true, "o");
      assert MatchLatin(lex, true, "o") == MatchLatin(lex, true, "");
    }
  }
}
