/**
 * `splitIntoWords` of app/api/analyze/route.ts: the translated text is split
 * on whitespace, each piece loses its leading and trailing characters that are
 * neither letters nor digits, empty pieces are dropped, and each remaining
 * word is paired with its lower-cased form.
 *
 * `split(/\s+/)` is modelled as a split on each single whitespace character:
 * the two differ only in extra empty pieces, which are dropped anyway.
 */
module Tokenizer {
  import opened Text
  import Seqs

  /** `{raw, lower}`. */
  datatype Token = Token(raw: string, lower: string)

  /** `s` without its leading characters that are neither letters nor digits. */
  function StripStart(s: string): (r: string)
    ensures |r| <= |s|
    ensures r != [] ==> IsLetterOrDigit(r[0])
  {
    if s != [] && !IsLetterOrDigit(s[0]) then StripStart(s[1..]) else s
  }

  /** `s` without its trailing characters that are neither letters nor digits. */
  function StripEnd(s: string): (r: string)
    ensures |r| <= |s|
    ensures r != [] ==> IsLetterOrDigit(r[|r| - 1])
  {
    if s != [] && !IsLetterOrDigit(s[|s| - 1]) then StripEnd(s[..|s| - 1]) else s
  }

  predicate HasLetterOrDigit(s: string) {
    exists i :: 0 <= i < |s| && IsLetterOrDigit(s[i])
  }

  /** What `StripStart` removes is a prefix without letters or digits. */
  lemma {:induction false} StripStartSlice(s: string)
    ensures var r := StripStart(s);
      r == s[|s| - |r|..] && !HasLetterOrDigit(s[..|s| - |r|])
    decreases |s|
  {
    if s != [] && !IsLetterOrDigit(s[0]) {
      StripStartSlice(s[1..]);
      var k := |s| - |StripStart(s)|;
      assert s[1..][k - 1..] == s[k..];
      forall i | 0 <= i < k ensures !IsLetterOrDigit(s[..k][i]) {
        if i > 0 {
          assert s[..k][i] == s[1..][..k - 1][i - 1];
        }
      }
    }
  }

  /** What `StripEnd` removes is a suffix without letters or digits. */
  lemma {:induction false} StripEndSlice(s: string)
    ensures var r := StripEnd(s);
      r == s[..|r|] && !HasLetterOrDigit(s[|r|..])
    decreases |s|
  {
    if s != [] && !IsLetterOrDigit(s[|s| - 1]) {
      var init := s[..|s| - 1];
      StripEndSlice(init);
      var k := |StripEnd(s)|;
      assert init[..k] == s[..k];
      forall j | 0 <= j < |s| - k ensures !IsLetterOrDigit(s[k..][j]) {
        if j < |s| - 1 - k {
          assert s[k..][j] == init[k..][j];
        }
      }
    }
  }

  /** `w.replace(/^[^\p{L}\p{N}]+|[^\p{L}\p{N}]+$/gu, '')`. */
  function StripNonAlnum(w: string): (r: string)
    ensures r != [] ==> IsLetterOrDigit(r[0]) && IsLetterOrDigit(r[|r| - 1])
    ensures r == [] <==> !HasLetterOrDigit(w)
  {
    var s := StripStart(w);
    StripStartSlice(w);
    StripEndSlice(s);
    var r := StripEnd(s);
    assert r != [] ==> r[0] == s[0];
    assert s == [] ==> w[..|w|] == w;
    r
  }

  /** The stripped word is the slice of `w` between a non-letter prefix and a non-letter suffix. */
  lemma StripNonAlnumIsSlice(w: string)
    ensures exists a, b ::
      0 <= a <= b <= |w| && StripNonAlnum(w) == w[a..b] && !HasLetterOrDigit(w[..a]) && !HasLetterOrDigit(w[b..])
  {
    var s := StripStart(w);
    StripStartSlice(w);
    StripEndSlice(s);
    var r := StripEnd(s);
    var a := |w| - |s|;
    var b := a + |r|;
    assert r == w[a..b];
    forall j | 0 <= j < |w| - b ensures !IsLetterOrDigit(w[b..][j]) {
      assert w[b..][j] == s[|r|..][j];
    }
  }

  /** A token as `splitIntoWords` yields it: non-empty, letters or digits at both ends, `lower` the lower-cased `raw`. */
  predicate WellFormed(t: Token) {
    t.raw != [] && IsLetterOrDigit(t.raw[0]) && IsLetterOrDigit(t.raw[|t.raw| - 1]) && t.lower == Lower(t.raw)
  }

  /** The token of one piece: none when stripping leaves nothing. */
  function TokenOf(piece: string): (r: seq<Token>)
    ensures |r| <= 1
  {
    var w := StripNonAlnum(piece);
    if w == [] then [] else [Token(w, Lower(w))]
  }

  lemma TokenOfWellFormed(piece: string)
    ensures TokenOf(piece) != [] ==> WellFormed(TokenOf(piece)[0])
    ensures TokenOf(piece) == [] <==> !HasLetterOrDigit(piece)
  {
  }

  /** The tokens of the pieces of a split, in order. */
  function TokensOf(pieces: seq<string>): seq<Token> {
    Seqs.FlatMap(pieces, TokenOf)
  }

  lemma TokensWellFormed(pieces: seq<string>)
    ensures forall i :: 0 <= i < |TokensOf(pieces)| ==> WellFormed(TokensOf(pieces)[i])
  {
    forall i, j | 0 <= i < |pieces| && 0 <= j < |TokenOf(pieces[i])| ensures WellFormed(TokenOf(pieces[i])[j]) {
      TokenOfWellFormed(pieces[i]);
    }
    Seqs.FlatMapAll(pieces, TokenOf, WellFormed);
  }

  /** `splitIntoWords(text)`. */
  function SplitIntoWords(text: string): (r: seq<Token>)
    ensures forall i :: 0 <= i < |r| ==> WellFormed(r[i])
  {
    TokensWellFormed(SplitBy(text, IsSpace));
    TokensOf(SplitBy(text, IsSpace))
  }

  /** Splitting at one separator splits the two sides independently. */
  lemma {:induction false} SplitByJoin(a: string, sep: char, b: string, isSep: char -> bool)
    requires isSep(sep)
    ensures SplitBy(a + [sep] + b, isSep) == SplitBy(a, isSep) + SplitBy(b, isSep)
    decreases |a|
  {
    if a == [] {
      assert a + [sep] + b == [sep] + b;
      assert ([sep] + b)[1..] == b;
    } else {
      assert (a + [sep] + b)[0] == a[0];
      assert (a + [sep] + b)[1..] == a[1..] + [sep] + b;
      SplitByJoin(a[1..], sep, b, isSep);
    }
  }

  /** Words are taken in text order: the words of two texts joined by a space are the words of each, one after the other. */
  lemma SplitIntoWordsJoin(a: string, sep: char, b: string)
    requires IsSpace(sep)
    ensures SplitIntoWords(a + [sep] + b) == SplitIntoWords(a) + SplitIntoWords(b)
  {
    SplitByJoin(a, sep, b, IsSpace);
    Seqs.FlatMapAppend(SplitBy(a, IsSpace), SplitBy(b, IsSpace), TokenOf);
  }

  /** A text without whitespace is one word: itself stripped, or none when it has no letter or digit. */
  lemma {:induction false} SplitBySingle(w: string, isSep: char -> bool)
    requires forall i :: 0 <= i < |w| ==> !isSep(w[i])
    ensures SplitBy(w, isSep) == [w]
    decreases |w|
  {
    if w != [] {
      SplitBySingle(w[1..], isSep);
      assert [w[0]] + w[1..] == w;
    }
  }

  lemma SplitIntoWordsOfWord(w: string)
    requires forall i :: 0 <= i < |w| ==> !IsSpace(w[i])
    ensures HasLetterOrDigit(w) ==> SplitIntoWords(w) == [Token(StripNonAlnum(w), Lower(StripNonAlnum(w)))]
    ensures !HasLetterOrDigit(w) ==> SplitIntoWords(w) == []
  {
    SplitBySingle(w, IsSpace);
    TokenOfWellFormed(w);
    assert [w][1..] == [];
    assert TokensOf([w]) == TokenOf(w) + TokensOf([]);
  }

  /** The pieces hold a letter or digit exactly when their concatenation does. */
  lemma {:induction false} TokensOfEmpty(pieces: seq<string>)
    ensures TokensOf(pieces) == [] <==> !HasLetterOrDigit(Concat(pieces))
    decreases |pieces|
  {
    if pieces != [] {
      TokensOfEmpty(pieces[1..]);
      TokenOfWellFormed(pieces[0]);
      assert TokensOf(pieces) == TokenOf(pieces[0]) + TokensOf(pieces[1..]);
      var c := Concat(pieces);
      assert c == pieces[0] + Concat(pieces[1..]);
      if HasLetterOrDigit(pieces[0]) {
        var i :| 0 <= i < |pieces[0]| && IsLetterOrDigit(pieces[0][i]);
        assert c[i] == pieces[0][i];
      } else if HasLetterOrDigit(Concat(pieces[1..])) {
        var i :| 0 <= i < |Concat(pieces[1..])| && IsLetterOrDigit(Concat(pieces[1..])[i]);
        assert c[|pieces[0]| + i] == Concat(pieces[1..])[i];
      } else {
        forall i | 0 <= i < |c| ensures !IsLetterOrDigit(c[i]) {
          if i < |pieces[0]| {
            assert c[i] == pieces[0][i];
          } else {
            assert c[i] == Concat(pieces[1..])[i - |pieces[0]|];
          }
        }
      }
    }
  }

  /** Dropping whitespace keeps every letter and digit. */
  lemma {:induction false} WithoutSpaceKeepsLetters(s: string)
    ensures HasLetterOrDigit(WithoutSeparators(s, IsSpace)) <==> HasLetterOrDigit(s)
    decreases |s|
  {
    if s != [] {
      WithoutSpaceKeepsLetters(s[1..]);
      var head := if IsSpace(s[0]) then "" else [s[0]];
      LetterOrDigitIsNotSpace(s[0]);
      assert HasLetterOrDigit(head) <==> IsLetterOrDigit(s[0]);
      assert HasLetterOrDigit([s[0]]) <==> IsLetterOrDigit(s[0]);
      HasLetterOrDigitConcat(head, WithoutSeparators(s[1..], IsSpace));
      assert [s[0]] + s[1..] == s;
      HasLetterOrDigitConcat([s[0]], s[1..]);
    }
  }

  lemma HasLetterOrDigitConcat(a: string, b: string)
    ensures HasLetterOrDigit(a + b) <==> HasLetterOrDigit(a) || HasLetterOrDigit(b)
  {
    if HasLetterOrDigit(a + b) {
      var i :| 0 <= i < |a + b| && IsLetterOrDigit((a + b)[i]);
      if i >= |a| {
        assert b[i - |a|] == (a + b)[i];
      }
    }
    if HasLetterOrDigit(a) {
      var j :| 0 <= j < |a| && IsLetterOrDigit(a[j]);
      assert (a + b)[j] == a[j];
    }
    if HasLetterOrDigit(b) {
      var j :| 0 <= j < |b| && IsLetterOrDigit(b[j]);
      assert (a + b)[|a| + j] == b[j];
    }
  }

  /** A text yields no word exactly when it holds no letter and no digit. */
  lemma NoWordsIff(text: string)
    ensures SplitIntoWords(text) == [] <==> !HasLetterOrDigit(text)
  {
    SplitByPieces(text, IsSpace);
    TokensOfEmpty(SplitBy(text, IsSpace));
    WithoutSpaceKeepsLetters(text);
  }
}
