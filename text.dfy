/**
 * String primitives the source takes from JavaScript's `String.prototype`:
 * whitespace (`\s`, `trim`), letters and digits (`\p{L}`, `\p{N}`), case
 * mapping, `split` on a single character class, `indexOf` and `includes`.
 *
 * Whitespace is JavaScript's full set. Letters and digits are restricted to
 * Basic Latin, Latin-1, Latin Extended-A and Cyrillic (U+0400 to U+052F).
 * Case mapping covers every pair of those blocks in which an upper-case and a
 * lower-case letter map to each other one for one. The six letters whose
 * JavaScript mapping changes the length or leaves those pairs (ß, µ, İ, ı,
 * ŉ and ſ) keep their case here.
 */
module Text {
  import opened Wrappers


  /** JavaScript's `\s` (WhiteSpace and LineTerminator), also what `trim` removes. */
  predicate IsSpace(c: char) {
    var n := c as int;
    (9 <= n <= 13) || n == 0x20 || n == 0xA0 || n == 0x1680 || (0x2000 <= n <= 0x200A)
    || n == 0x2028 || n == 0x2029 || n == 0x202F || n == 0x205F || n == 0x3000 || n == 0xFEFF
  }

  /** `\p{L}` or `\p{N}`, restricted to the scripts named above. */
  predicate IsLetterOrDigit(c: char) {
    var n := c as int;
    ('0' <= c <= '9') || ('A' <= c <= 'Z') || ('a' <= c <= 'z')
    || n == 0xAA || n == 0xB2 || n == 0xB3 || n == 0xB5 || n == 0xB9 || n == 0xBA || (0xBC <= n <= 0xBE)
    || (0xC0 <= n <= 0x17F && n != 0xD7 && n != 0xF7)
    || (0x400 <= n <= 0x481) || (0x48A <= n <= 0x52F)
  }

  lemma LetterOrDigitIsNotSpace(c: char)
    ensures IsLetterOrDigit(c) ==> !IsSpace(c)
  {
  }

  /**
   * Ranges of Latin Extended-A and Cyrillic where the upper-case letter of
   * each pair has the even code point and its lower-case letter follows it.
   */
  predicate InEvenPairRange(n: int) {
    (0x100 <= n <= 0x12F) || (0x132 <= n <= 0x137) || (0x14A <= n <= 0x177)
    || (0x460 <= n <= 0x481) || (0x48A <= n <= 0x4BF) || (0x4D0 <= n <= 0x52F)
  }

  /** Ranges where the upper-case letter of each pair has the odd code point. */
  predicate InOddPairRange(n: int) {
    (0x139 <= n <= 0x148) || (0x179 <= n <= 0x17E) || (0x4C1 <= n <= 0x4CE)
  }

  /** The upper-case letter of a pair whose lower-case letter is the next code point. */
  predicate IsPairUpper(n: int) {
    (InEvenPairRange(n) && n % 2 == 0) || (InOddPairRange(n) && n % 2 == 1)
  }

  /** The lower-case letter of a pair whose upper-case letter is the previous code point. */
  predicate IsPairLower(n: int) {
    (InEvenPairRange(n) && n % 2 == 1) || (InOddPairRange(n) && n % 2 == 0)
  }

  predicate IsUpperCase(c: char) {
    var n := c as int;
    ('A' <= c <= 'Z') || (0xC0 <= n <= 0xDE && n != 0xD7) || (0x400 <= n <= 0x42F)
    || IsPairUpper(n) || n == 0x178 || n == 0x4C0
  }

  predicate IsLowerCase(c: char) {
    var n := c as int;
    ('a' <= c <= 'z') || (0xE0 <= n <= 0xFE && n != 0xF7) || (0x430 <= n <= 0x45F)
    || IsPairLower(n) || n == 0xFF || n == 0x4CF
  }

  /** `toLowerCase` on one character. */
  function LowerChar(c: char): (r: char)
    ensures IsUpperCase(c) ==> IsLowerCase(r)
    ensures !IsUpperCase(c) ==> r == c
  {
    var n := c as int;
    if 'A' <= c <= 'Z' || (0xC0 <= n <= 0xDE && n != 0xD7) || (0x410 <= n <= 0x42F) then (n + 0x20) as char
    else if 0x400 <= n <= 0x40F then (n + 0x50) as char
    else if IsPairUpper(n) then (n + 1) as char
    else if n == 0x178 then 0xFF as char
    else if n == 0x4C0 then 0x4CF as char
    else c
  }

  /** `toUpperCase` on one character. */
  function UpperChar(c: char): (r: char)
    ensures IsLowerCase(c) ==> IsUpperCase(r)
    ensures !IsLowerCase(c) ==> r == c
  {
    var n := c as int;
    if 'a' <= c <= 'z' || (0xE0 <= n <= 0xFE && n != 0xF7) || (0x430 <= n <= 0x44F) then (n - 0x20) as char
    else if 0x450 <= n <= 0x45F then (n - 0x50) as char
    else if IsPairLower(n) then (n - 1) as char
    else if n == 0xFF then 0x178 as char
    else if n == 0x4CF then 0x4C0 as char
    else c
  }

  /** No character is both upper-case and lower-case. */
  lemma CaseDisjoint(c: char)
    ensures !(IsUpperCase(c) && IsLowerCase(c))
  {
  }

  /** Lower-casing an upper-case letter and upper-casing it again gives it back. */
  lemma UpperOfLowerChar(c: char)
    requires IsUpperCase(c)
    ensures UpperChar(LowerChar(c)) == c
  {
    var n := c as int;
    if IsPairUpper(n) {
      assert LowerChar(c) as int == n + 1 && IsPairLower(n + 1);
    }
  }

  /** Upper-casing a lower-case letter and lower-casing it again gives it back. */
  lemma LowerOfUpperChar(c: char)
    requires IsLowerCase(c)
    ensures LowerChar(UpperChar(c)) == c
  {
    var n := c as int;
    if IsPairLower(n) {
      assert UpperChar(c) as int == n - 1 && IsPairUpper(n - 1);
    }
  }

  /** Case mapping forgets the original case: both mappings agree after either one. */
  lemma CaseMappingAbsorbs(c: char)
    ensures LowerChar(UpperChar(c)) == LowerChar(c)
    ensures UpperChar(LowerChar(c)) == UpperChar(c)
    ensures LowerChar(LowerChar(c)) == LowerChar(c)
    ensures UpperChar(UpperChar(c)) == UpperChar(c)
  {
    CaseDisjoint(c);
    if IsUpperCase(c) {
      UpperOfLowerChar(c);
      CaseDisjoint(LowerChar(c));
    } else if IsLowerCase(c) {
      LowerOfUpperChar(c);
      CaseDisjoint(UpperChar(c));
    }
  }

  /** Case mapping never turns a non-space into a space or back. */
  lemma CaseMappingKeepsSpace(c: char)
    ensures IsSpace(LowerChar(c)) == IsSpace(c)
    ensures IsSpace(UpperChar(c)) == IsSpace(c)
  {
  }

  /** `s.toLowerCase()`. */
  function Lower(s: string): (r: string)
    ensures |r| == |s|
    ensures forall i :: 0 <= i < |s| ==> r[i] == LowerChar(s[i])
  {
    seq(|s|, i requires 0 <= i < |s| => LowerChar(s[i]))
  }

  /** `s.toUpperCase()`. */
  function Upper(s: string): (r: string)
    ensures |r| == |s|
    ensures forall i :: 0 <= i < |s| ==> r[i] == UpperChar(s[i])
  {
    seq(|s|, i requires 0 <= i < |s| => UpperChar(s[i]))
  }

  lemma LowerOfUpper(s: string)
    ensures Lower(Upper(s)) == Lower(s)
    ensures Lower(Lower(s)) == Lower(s)
    ensures Upper(Lower(s)) == Upper(s)
  {
    forall i | 0 <= i < |s| {
      CaseMappingAbsorbs(s[i]);
    }
  }

  lemma LowerConcat(a: string, b: string)
    ensures Lower(a + b) == Lower(a) + Lower(b)
  {
  }

  predicate AllSpace(s: string) {
    forall i :: 0 <= i < |s| ==> IsSpace(s[i])
  }

  function TrimStart(s: string): (r: string)
    ensures |r| <= |s|
    ensures r != [] ==> !IsSpace(r[0])
  {
    if s != [] && IsSpace(s[0]) then TrimStart(s[1..]) else s
  }

  function TrimEnd(s: string): (r: string)
    ensures |r| <= |s|
    ensures r != [] ==> !IsSpace(r[|r| - 1])
  {
    if s != [] && IsSpace(s[|s| - 1]) then TrimEnd(s[..|s| - 1]) else s
  }

  /** `s.trim()`: `s` without whitespace at either end. */
  function Trim(s: string): (r: string)
    ensures |r| <= |s|
    ensures r != [] ==> !IsSpace(r[0]) && !IsSpace(r[|r| - 1])
  {
    var t := TrimStart(s);
    if t == [] then t
    else
      TrimEndKeepsHead(t);
      TrimEnd(t)
  }

  /** A string trims to nothing exactly when it is all whitespace. */
  lemma TrimEmptyIff(s: string)
    ensures Trim(s) == [] <==> AllSpace(s)
  {
    TrimStartEmptyIff(s);
    if TrimStart(s) != [] {
      TrimEndKeepsHead(TrimStart(s));
    }
  }

  lemma {:induction false} TrimStartEmptyIff(s: string)
    ensures TrimStart(s) == [] <==> AllSpace(s)
    decreases |s|
  {
    if s != [] {
      TrimStartEmptyIff(s[1..]);
      assert AllSpace(s) <==> IsSpace(s[0]) && AllSpace(s[1..]) by {
        if IsSpace(s[0]) && AllSpace(s[1..]) {
          forall i | 0 <= i < |s| ensures IsSpace(s[i]) {
            if i > 0 { assert s[i] == s[1..][i - 1]; }
          }
        }
      }
    }
  }

  lemma {:induction false} TrimEndKeepsHead(s: string)
    requires s != [] && !IsSpace(s[0])
    ensures TrimEnd(s) != [] && TrimEnd(s)[0] == s[0]
    decreases |s|
  {
    if |s| > 1 && IsSpace(s[|s| - 1]) {
      TrimEndKeepsHead(s[..|s| - 1]);
    }
  }

  /** Trimming is idempotent. */
  lemma TrimIdempotent(s: string)
    ensures Trim(Trim(s)) == Trim(s)
  {
    var r := Trim(s);
    if r != [] {
      assert TrimStart(r) == r;
      assert TrimEnd(r) == r;
    }
  }

  /** Whitespace around a string does not survive trimming. */
  lemma {:induction false} TrimIgnoresPadding(pre: string, s: string, post: string)
    requires AllSpace(pre) && AllSpace(post)
    ensures Trim(pre + s + post) == Trim(s)
  {
    TrimStartPadded(pre, s, post);
    if TrimStart(s) != [] {
      TrimEndSkipsSpace(TrimStart(s), post);
    }
  }

  lemma TrimStartPadded(pre: string, s: string, post: string)
    requires AllSpace(pre) && AllSpace(post)
    ensures TrimStart(pre + s + post) == if TrimStart(s) == [] then [] else TrimStart(s) + post
  {
    assert pre + s + post == pre + (s + post);
    TrimStartSkipsSpace(pre, s + post);
    TrimStartAppend(s, post);
    if TrimStart(s) == [] {
      SpaceTrimsToNothing(post);
    }
  }

  lemma {:induction false} SpaceTrimsToNothing(s: string)
    requires AllSpace(s)
    ensures TrimStart(s) == []
    decreases |s|
  {
    if s != [] {
      SpaceTrimsToNothing(s[1..]);
    }
  }

  lemma {:induction false} TrimStartSkipsSpace(pre: string, s: string)
    requires AllSpace(pre)
    ensures TrimStart(pre + s) == TrimStart(s)
    decreases |pre|
  {
    if pre != [] {
      var ps := pre + s;
      assert ps[0] == pre[0] && IsSpace(ps[0]);
      assert ps[1..] == pre[1..] + s;
      TrimStartSkipsSpace(pre[1..], s);
      assert TrimStart(ps) == TrimStart(ps[1..]);
    } else {
      assert pre + s == s;
    }
  }

  lemma {:induction false} TrimStartAppend(s: string, post: string)
    requires AllSpace(post)
    ensures TrimStart(s + post) == if TrimStart(s) == [] then TrimStart(post) else TrimStart(s) + post
    decreases |s|
  {
    if s == [] {
      assert s + post == post;
    } else {
      assert (s + post)[1..] == s[1..] + post;
      if IsSpace(s[0]) {
        TrimStartAppend(s[1..], post);
      }
    }
  }

  lemma {:induction false} TrimEndSkipsSpace(s: string, post: string)
    requires AllSpace(post)
    ensures TrimEnd(s + post) == TrimEnd(s)
    decreases |post|
  {
    if post != [] {
      var p' := post[..|post| - 1];
      assert (s + post)[..|s + post| - 1] == s + p';
      TrimEndSkipsSpace(s, p');
    } else {
      assert s + post == s;
    }
  }

  /** Trimming and lower-casing commute. */
  lemma LowerTrimCommute(s: string)
    ensures Lower(Trim(s)) == Trim(Lower(s))
  {
    LowerTrimStart(s);
    LowerTrimEnd(TrimStart(s));
  }

  lemma {:induction false} LowerTrimStart(s: string)
    ensures Lower(TrimStart(s)) == TrimStart(Lower(s))
    decreases |s|
  {
    if s != [] {
      CaseMappingKeepsSpace(s[0]);
      LowerSlices(s);
      LowerTrimStart(s[1..]);
    }
  }

  lemma {:induction false} LowerTrimEnd(s: string)
    ensures Lower(TrimEnd(s)) == TrimEnd(Lower(s))
    decreases |s|
  {
    if s != [] {
      CaseMappingKeepsSpace(s[|s| - 1]);
      LowerSlices(s);
      LowerTrimEnd(s[..|s| - 1]);
    }
  }

  lemma LowerSlices(s: string)
    requires s != []
    ensures Lower(s)[1..] == Lower(s[1..]) && Lower(s)[..|s| - 1] == Lower(s[..|s| - 1])
  {
  }

  /** Concatenation of a sequence of strings (`join('')`). */
  function Concat(parts: seq<string>): string {
    if parts == [] then "" else parts[0] + Concat(parts[1..])
  }

  lemma {:induction false} ConcatAppend(a: seq<string>, b: seq<string>)
    ensures Concat(a + b) == Concat(a) + Concat(b)
    decreases |a|
  {
    if a != [] {
      assert (a + b)[1..] == a[1..] + b;
      ConcatAppend(a[1..], b);
    } else {
      assert a + b == b;
    }
  }

  /**
   * `s.split(sep)` for a separator matching one character: the pieces between
   * separators, empty pieces included, so there is always at least one.
   */
  function SplitBy(s: string, isSep: char -> bool): (parts: seq<string>)
    ensures |parts| >= 1
    decreases |s|
  {
    if s == [] then [""]
    else
      var rest := SplitBy(s[1..], isSep);
      if isSep(s[0]) then [""] + rest else [[s[0]] + rest[0]] + rest[1..]
  }

  /** The characters of `s` that are not separators, in order. */
  function WithoutSeparators(s: string, isSep: char -> bool): string {
    if s == [] then "" else (if isSep(s[0]) then "" else [s[0]]) + WithoutSeparators(s[1..], isSep)
  }

  /** No piece of a split holds a separator, and the pieces hold every other character, in order. */
  lemma {:induction false} SplitByPieces(s: string, isSep: char -> bool)
    ensures forall k, j :: 0 <= k < |SplitBy(s, isSep)| && 0 <= j < |SplitBy(s, isSep)[k]| ==> !isSep(SplitBy(s, isSep)[k][j])
    ensures Concat(SplitBy(s, isSep)) == WithoutSeparators(s, isSep)
    decreases |s|
  {
    if s != [] {
      var rest := SplitBy(s[1..], isSep);
      SplitByPieces(s[1..], isSep);
      if isSep(s[0]) {
        assert ([""] + rest)[1..] == rest;
      } else {
        ExtendFirstPiece(s[0], rest, isSep);
        ConcatExtendFirst(s[0], rest);
      }
    }
  }

  /** Putting a non-separator in front of the first piece keeps the pieces separator-free. */
  lemma ExtendFirstPiece(c: char, rest: seq<string>, isSep: char -> bool)
    requires rest != [] && !isSep(c)
    requires forall k, j :: 0 <= k < |rest| && 0 <= j < |rest[k]| ==> !isSep(rest[k][j])
    ensures var parts := [[c] + rest[0]] + rest[1..];
      forall k, j :: 0 <= k < |parts| && 0 <= j < |parts[k]| ==> !isSep(parts[k][j])
  {
    var parts := [[c] + rest[0]] + rest[1..];
    forall k, j | 0 <= k < |parts| && 0 <= j < |parts[k]| ensures !isSep(parts[k][j]) {
      if k == 0 {
        if j > 0 { assert parts[0][j] == rest[0][j - 1]; }
      } else {
        assert parts[k] == rest[k];
      }
    }
  }

  /** ... and extends the concatenation of the pieces by that character. */
  lemma ConcatExtendFirst(c: char, rest: seq<string>)
    requires rest != []
    ensures Concat([[c] + rest[0]] + rest[1..]) == [c] + Concat(rest)
  {
    var parts := [[c] + rest[0]] + rest[1..];
    assert parts[1..] == rest[1..];
    calc {
      Concat(parts);
      ([c] + rest[0]) + Concat(rest[1..]);
      [c] + (rest[0] + Concat(rest[1..]));
    }
  }

  /** `s` starts with `p`. */
  predicate HasPrefix(s: string, p: string) {
    |p| <= |s| && s[..|p|] == p
  }

  /** `hay.includes(needle)`: `needle` occurs as a contiguous slice of `hay`. */
  predicate Contains(hay: string, needle: string)
    decreases |hay|
  {
    HasPrefix(hay, needle) || (hay != [] && Contains(hay[1..], needle))
  }

  /** Every string includes the empty string. */
  lemma ContainsEmpty(hay: string)
    ensures Contains(hay, "")
  {
    assert HasPrefix(hay, "");
  }

  /** Position of the first occurrence of a non-empty `sep` in `s` (`indexOf`). */
  function IndexOf(s: string, sep: string): (r: Option<nat>)
    requires sep != ""
    ensures r.Some? ==> r.value + |sep| <= |s| && s[r.value..r.value + |sep|] == sep
    ensures r.Some? ==> forall k :: 0 <= k < r.value ==> !HasPrefix(s[k..], sep)
    ensures r.None? ==> forall k :: 0 <= k <= |s| ==> !HasPrefix(s[k..], sep)
    decreases |s|
  {
    if HasPrefix(s, sep) then Some(0)
    else if s == [] then None
    else
      DropShift(s);
      match IndexOf(s[1..], sep)
      case None => None
      case Some(i) => Some(i + 1)
  }

  lemma DropShift(s: string)
    requires s != []
    ensures forall k :: 1 <= k <= |s| ==> s[k..] == s[1..][k - 1..]
  {
  }
}
