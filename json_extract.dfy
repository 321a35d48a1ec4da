/**
 * `extractJSON` of app/api/analyze/route.ts: the brace-depth scan that pulls
 * the first balanced `{…}` out of a model's reply. The scan runs on the reply
 * after its `<think>` blocks and code fences are removed and it is trimmed;
 * that clean-up is not part of this model. The scan ignores quoting, so a
 * brace inside a JSON string value counts like any other.
 *
 * Two scanners are modelled. `AsWritten` is the loop of the source, whose
 * depth counter goes negative on a `}` seen before any `{`, after which no
 * `{` counts as top-level. `Clamped` never lets the depth fall below zero,
 * which is the same as ignoring `}` before the first `{`. The route uses
 * `AsWritten`; `Clamped` is the corrected scan of the stray-closer finding.
 */
module JsonExtract {
  import opened Wrappers

  datatype Scanner = AsWritten | Clamped

  const NotFound: string := "No JSON object found"

  /** The number of occurrences of `c` in `t`. */
  function Count(t: string, c: char): nat {
    if t == [] then 0 else Count(t[..|t| - 1], c) + (if t[|t| - 1] == c then 1 else 0)
  }

  /** Opening minus closing braces in `t`. */
  function Depth(t: string): int {
    Count(t, '{') - Count(t, '}')
  }

  /**
   * A balanced object: it opens with `{`, closes with `}`, holds as many of
   * each, and no shorter prefix of it is balanced (every proper prefix holds
   * more `{` than `}`).
   */
  predicate Balanced(t: string) {
    |t| >= 2 && t[0] == '{' && t[|t| - 1] == '}' && Count(t, '{') == Count(t, '}')
    && forall k :: 1 <= k < |t| ==> Count(t[..k], '{') > Count(t[..k], '}')
  }

  lemma {:induction false} CountAppend(a: string, b: string, c: char)
    ensures Count(a + b, c) == Count(a, c) + Count(b, c)
    decreases |b|
  {
    if b == [] {
      assert a + b == a;
    } else {
      var b' := b[..|b| - 1];
      assert (a + b)[..|a + b| - 1] == a + b';
      CountAppend(a, b', c);
    }
  }

  /** The depth before position `i`. */
  function DepthAt(s: string, i: nat): int
    requires i <= |s|
  {
    Depth(s[..i])
  }

  /** The depth after position `j`. */
  function DepthAfter(s: string, j: nat): int
    requires j < |s|
  {
    DepthAt(s, j + 1)
  }

  lemma DepthStep(s: string, i: nat)
    requires i < |s|
    ensures DepthAfter(s, i) == DepthAt(s, i) + (if s[i] == '{' then 1 else if s[i] == '}' then -1 else 0)
  {
    assert s[..i + 1][..i] == s[..i];
  }

  lemma DepthSlice(s: string, i: nat, j: nat)
    requires i <= j <= |s|
    ensures Depth(s[i..j]) == DepthAt(s, j) - DepthAt(s, i)
  {
    assert s[..j] == s[..i] + s[i..j];
    CountAppend(s[..i], s[i..j], '{');
    CountAppend(s[..i], s[i..j], '}');
  }

  /** Where a scanner starts an object: any `{` for `Clamped`, a `{` at depth zero for `AsWritten`. */
  predicate IsOpen(s: string, j: nat, scanner: Scanner)
    requires j < |s|
  {
    s[j] == '{' && (scanner == AsWritten ==> DepthAt(s, j) == 0)
  }

  /** The first index from `k` on where the scanner starts an object. */
  function FindOpen(s: string, k: nat, scanner: Scanner): (r: Option<nat>)
    requires k <= |s|
    ensures r.Some? ==> k <= r.value < |s| && IsOpen(s, r.value, scanner)
    ensures forall j :: k <= j < |s| && (r.None? || j < r.value) ==> !IsOpen(s, j, scanner)
    decreases |s| - k
  {
    if k == |s| then None
    else if IsOpen(s, k, scanner) then Some(k)
    else FindOpen(s, k + 1, scanner)
  }

  /** The first index `e` from `k` on where the depth is back to what it was before `st`. */
  function FindClose(s: string, st: nat, k: nat): (r: Option<nat>)
    requires st < k <= |s|
    ensures r.Some? ==> k <= r.value < |s| && DepthAfter(s, r.value) == DepthAt(s, st)
    ensures forall j :: k <= j < |s| && (r.None? || j < r.value) ==> DepthAfter(s, j) != DepthAt(s, st)
    decreases |s| - k
  {
    if k == |s| then None
    else if DepthAfter(s, k) == DepthAt(s, st) then Some(k)
    else FindClose(s, st, k + 1)
  }

  /** The depth moves by one step at a time, so after a `{` it stays above its start until it first returns. */
  lemma {:induction false} StaysAbove(s: string, st: nat, e: nat)
    requires st < e <= |s| && s[st] == '{'
    requires forall j :: st < j < e ==> DepthAfter(s, j) != DepthAt(s, st)
    ensures forall j :: st <= j < e ==> DepthAfter(s, j) > DepthAt(s, st)
    decreases e - st
  {
    DepthStep(s, st);
    if e > st + 1 {
      StaysAbove(s, st, e - 1);
      DepthStep(s, e - 1);
      assert DepthAt(s, e - 1) == DepthAfter(s, e - 2);
    }
  }

  /** The slice from a `{` to the first return of the depth is a balanced object. */
  lemma SpanBalanced(s: string, st: nat, e: nat)
    requires st < e < |s| && s[st] == '{'
    requires DepthAfter(s, e) == DepthAt(s, st)
    requires forall j :: st < j < e ==> DepthAfter(s, j) != DepthAt(s, st)
    ensures BalancedSpan(s, st, e)
  {
    var t := s[st..e + 1];
    StaysAbove(s, st, e);
    DepthSlice(s, st, e + 1);
    DepthStep(s, e);
    assert DepthAt(s, e) == DepthAfter(s, e - 1);
    forall k | 1 <= k < |t| ensures Count(t[..k], '{') > Count(t[..k], '}') {
      assert t[..k] == s[st..st + k];
      DepthSlice(s, st, st + k);
      assert DepthAt(s, st + k) == DepthAfter(s, st + k - 1);
    }
  }

  /** The slice of `s` from `st` to `e`, both included, is a balanced object. */
  predicate BalancedSpan(s: string, st: nat, e: nat)
    requires st <= e < |s|
  {
    Balanced(s[st..e + 1])
  }

  /** The scanner's result: the slice from its first start to the first return of the depth, or the error. */
  function Extract(s: string, scanner: Scanner): Outcome<string> {
    match FindOpen(s, 0, scanner)
    case None => Failure(NotFound)
    case Some(st) => ExtractFrom(s, st)
  }

  /** The object that starts at `st`: the slice up to the first return of the depth, or the error. */
  function ExtractFrom(s: string, st: nat): Outcome<string>
    requires st < |s|
  {
    match FindClose(s, st, st + 1)
    case None => Failure(NotFound)
    case Some(e) => Success(s[st..e + 1])
  }

  /**
   * What `extractJSON` promises: a balanced object that starts where the
   * scanner first starts one; and when it throws, no slice from that start
   * is a balanced object.
   */
  lemma ExtractSpec(s: string, scanner: Scanner)
    ensures Extract(s, scanner).Success? ==>
      var r := Extract(s, scanner).value;
      Balanced(r) && FindOpen(s, 0, scanner).Some?
      && (var st := FindOpen(s, 0, scanner).value; st + |r| <= |s| && r == s[st..st + |r|])
    ensures Extract(s, scanner).Failure? ==> Extract(s, scanner).error == NotFound
    ensures Extract(s, scanner).Failure? && FindOpen(s, 0, scanner).Some? ==>
      var st := FindOpen(s, 0, scanner).value; forall e :: st < e < |s| ==> !BalancedSpan(s, st, e)
  {
    match FindOpen(s, 0, scanner)
    case None =>
    case Some(st) =>
      ExtractFromSpec(s, st);
  }

  /** From an opening brace, the object found is a balanced slice starting there, and failure means there is none. */
  lemma ExtractFromSpec(s: string, st: nat)
    requires st < |s| && s[st] == '{'
    ensures ExtractFrom(s, st).Success? ==>
      var r := ExtractFrom(s, st).value;
      Balanced(r) && st + |r| <= |s| && r == s[st..st + |r|]
    ensures ExtractFrom(s, st).Failure? ==>
      ExtractFrom(s, st).error == NotFound && forall e :: st < e < |s| ==> !BalancedSpan(s, st, e)
  {
    match FindClose(s, st, st + 1)
    case None =>
      NoBalancedSpan(s, st);
    case Some(e) =>
      SpanBalanced(s, st, e);
  }

  lemma NoBalancedSpan(s: string, st: nat)
    requires st < |s| && s[st] == '{' && FindClose(s, st, st + 1).None?
    ensures forall e :: st < e < |s| ==> !BalancedSpan(s, st, e)
  {
    forall e | st < e < |s| ensures !BalancedSpan(s, st, e) {
      DepthSlice(s, st, e + 1);
      assert DepthAfter(s, e) != DepthAt(s, st);
    }
  }

  /** `extractJSON` as the source writes it. */
  method ExtractJsonAsWritten(s: string) returns (r: Outcome<string>)
    ensures r == Extract(s, AsWritten)
  {
    var depth := 0;
    var start := -1;
    for i := 0 to |s|
      invariant depth == DepthAt(s, i)
      invariant start == -1 ==> depth <= 0 && forall j :: 0 <= j < i ==> !IsOpen(s, j, AsWritten)
      invariant start != -1 ==> 0 <= start < i && FindOpen(s, 0, AsWritten) == Some(start as nat) && depth > 0
      invariant start != -1 ==> forall j :: start < j < i ==> DepthAfter(s, j) > 0
    {
      DepthStep(s, i);
      if s[i] == '{' {
        if depth == 0 {
          assert IsOpen(s, i, AsWritten);
          start := i;
        }
        depth := depth + 1;
      } else if s[i] == '}' {
        depth := depth - 1;
        if depth == 0 && start != -1 {
          return Success(s[start..i + 1]);
        }
      }
    }
    return Failure(NotFound);
  }

  /** `extractJSON` with the depth kept at zero or above. */
  method ExtractJson(s: string) returns (r: Outcome<string>)
    ensures r == Extract(s, Clamped)
  {
    var depth := 0;
    var start := -1;
    for i := 0 to |s|
      invariant start == -1 ==> depth == 0 && forall j :: 0 <= j < i ==> s[j] != '{'
      invariant start != -1 ==> 0 <= start < i && FindOpen(s, 0, Clamped) == Some(start as nat) && depth > 0
      invariant start != -1 ==> depth == DepthAt(s, i) - DepthAt(s, start)
      invariant start != -1 ==> forall j :: start < j < i ==> DepthAfter(s, j) > DepthAt(s, start)
    {
      DepthStep(s, i);
      if s[i] == '{' {
        if depth == 0 {
          assert IsOpen(s, i, Clamped);
          start := i;
        }
        depth := depth + 1;
      } else if s[i] == '}' {
        if depth > 0 {
          depth := depth - 1;
        }
        if depth == 0 && start != -1 {
          return Success(s[start..i + 1]);
        }
      }
    }
    return Failure(NotFound);
  }

  lemma {:induction false} CountAbsent(t: string, c: char)
    requires forall i :: 0 <= i < |t| ==> t[i] != c
    ensures Count(t, c) == 0
    decreases |t|
  {
    if t != [] {
      CountAbsent(t[..|t| - 1], c);
    }
  }

  lemma DepthShift(p: string, s: string, j: nat)
    requires j <= |s|
    ensures DepthAt(p + s, |p| + j) == Depth(p) + DepthAt(s, j)
  {
    assert (p + s)[..|p| + j] == p + s[..j];
    CountAppend(p, s[..j], '{');
    CountAppend(p, s[..j], '}');
  }

  /**
   * A stray `}` before the object defeats the scan as written: the reply
   * `}{}` holds the object `{}`, but the depth is -1 when its `{` is read,
   * so the loop never records a start and the call throws.
   */
  lemma StrayCloserDefeatsAsWritten()
    ensures BalancedSpan("}{}", 1, 2)
    ensures Extract("}{}", AsWritten) == Failure(NotFound)
    ensures Extract("}{}", Clamped) == Success("{}")
  {
    var s := "}{}";
    assert s[..0] == [] && s[..1] == "}" && s[..2] == "}{" && s[..3] == s;
    assert "}"[..0] == [] && "}{"[..1] == "}" && s[..2] == "}{";
    assert s[1..3] == "{}" && "{}"[..1] == "{" && "{}"[..1][..0] == [];
    assert Count("{}", '{') == 1 && Count("{}", '}') == 1;
    assert DepthAt(s, 1) == -1;
    assert !IsOpen(s, 0, AsWritten) && !IsOpen(s, 1, AsWritten) && !IsOpen(s, 2, AsWritten);
    assert FindOpen(s, 0, AsWritten) == None;
    assert FindOpen(s, 0, Clamped) == Some(1);
    assert DepthAfter(s, 2) == DepthAt(s, 1);
    assert FindClose(s, 1, 2) == Some(2);
  }

  /** Shifts an optional index by `n`. */
  function Shift(r: Option<nat>, n: nat): Option<nat> {
    if r.Some? then Some(r.value + n) else None
  }

  /** Text without `{` in front: the first `{` moves by the length of that text. */
  lemma FindOpenShift(p: string, s: string)
    requires forall i :: 0 <= i < |p| ==> p[i] != '{'
    ensures FindOpen(p + s, 0, Clamped) == Shift(FindOpen(s, 0, Clamped), |p|)
  {
    var ps := p + s;
    var bound := if FindOpen(s, 0, Clamped).Some? then |p| + FindOpen(s, 0, Clamped).value else |ps|;
    forall v | 0 <= v < bound ensures !IsOpen(ps, v, Clamped) {
      if v < |p| {
        assert ps[v] == p[v];
      } else {
        assert ps[v] == s[v - |p|];
        assert !IsOpen(s, v - |p|, Clamped);
      }
    }
    if FindOpen(s, 0, Clamped).Some? {
      assert ps[bound] == s[bound - |p|];
      assert IsOpen(ps, bound, Clamped);
    }
  }

  /** Text in front: the first return of the depth moves by the length of that text. */
  lemma FindCloseShift(p: string, s: string, st: nat)
    requires st < |s|
    ensures FindClose(p + s, |p| + st, |p| + st + 1) == Shift(FindClose(s, st, st + 1), |p|)
  {
    match FindClose(s, st, st + 1)
    case Some(e) =>
      NoReturnShift(p, s, st, e);
      DepthAfterShift(p, s, e);
      DepthShift(p, s, st);
      FindCloseAt(p + s, |p| + st, |p| + e);
    case None =>
      NoReturnShift(p, s, st, |s|);
      FindCloseNone(p + s, |p| + st);
  }

  /** Text in front shifts every depth by the same amount, so the depth does not return early either. */
  lemma NoReturnShift(p: string, s: string, st: nat, bound: nat)
    requires st < bound <= |s|
    requires forall j :: st < j < bound ==> DepthAfter(s, j) != DepthAt(s, st)
    ensures forall v :: |p| + st < v < |p| + bound ==> DepthAfter(p + s, v) != DepthAt(p + s, |p| + st)
  {
    DepthShift(p, s, st);
    forall v | |p| + st < v < |p| + bound ensures DepthAfter(p + s, v) != DepthAt(p + s, |p| + st) {
      DepthAfterShift(p, s, v - |p|);
    }
  }

  lemma DepthAfterShift(p: string, s: string, j: nat)
    requires j < |s|
    ensures DepthAfter(p + s, |p| + j) == Depth(p) + DepthAfter(s, j)
  {
    DepthShift(p, s, j + 1);
  }

  /** No return of the depth at all: no object closes. */
  lemma FindCloseNone(s: string, st: nat)
    requires st < |s|
    requires forall j :: st < j < |s| ==> DepthAfter(s, j) != DepthAt(s, st)
    ensures FindClose(s, st, st + 1).None?
  {
  }

  /** A return of the depth with none before it is the first one. */
  lemma FindCloseAt(s: string, st: nat, e: nat)
    requires st < e < |s| && DepthAfter(s, e) == DepthAt(s, st)
    requires forall j :: st < j < e ==> DepthAfter(s, j) != DepthAt(s, st)
    ensures FindClose(s, st, st + 1) == Some(e)
  {
  }

  /** With the depth kept at zero or above, text without `{` in front of the reply changes nothing. */
  lemma ClampedIgnoresLeadingText(p: string, s: string)
    requires forall i :: 0 <= i < |p| ==> p[i] != '{'
    ensures Extract(p + s, Clamped) == Extract(s, Clamped)
  {
    FindOpenShift(p, s);
    if FindOpen(s, 0, Clamped).Some? {
      ExtractFromShift(p, s, FindOpen(s, 0, Clamped).value);
    }
  }

  /** Text in front of an object's start does not change the object. */
  lemma ExtractFromShift(p: string, s: string, st: nat)
    requires st < |s|
    ensures ExtractFrom(p + s, |p| + st) == ExtractFrom(s, st)
  {
    FindCloseShift(p, s, st);
    if FindClose(s, st, st + 1).Some? {
      var e := FindClose(s, st, st + 1).value;
      assert (p + s)[|p| + st..|p| + e + 1] == s[st..e + 1];
    }
  }

  /** When no `}` comes before the first `{`, the scan as written and the clamped scan agree. */
  lemma ScannersAgree(s: string)
    requires forall i :: 0 <= i < |s| && (FindOpen(s, 0, Clamped).None? || i < FindOpen(s, 0, Clamped).value) ==> s[i] != '}'
    ensures Extract(s, AsWritten) == Extract(s, Clamped)
  {
    match FindOpen(s, 0, Clamped)
    case None =>
      forall v | 0 <= v < |s| ensures !IsOpen(s, v, AsWritten) {
        assert !IsOpen(s, v, Clamped);
      }
      FindOpenNone(s, AsWritten);
    case Some(st) =>
      forall i | 0 <= i < st ensures s[i] != '{' && s[i] != '}' {
        assert !IsOpen(s, i, Clamped);
      }
      PlainPrefix(s, st);
      forall v | 0 <= v < st ensures !IsOpen(s, v, AsWritten) {
        assert s[v] != '{';
      }
      FindOpenAt(s, AsWritten, st);
  }

  /** Before the first `{`, with no `}` either, the depth stays zero. */
  lemma PlainPrefix(s: string, st: nat)
    requires st <= |s|
    requires forall i :: 0 <= i < st ==> s[i] != '{' && s[i] != '}'
    ensures DepthAt(s, st) == 0
  {
    var t := s[..st];
    forall i | 0 <= i < |t| ensures t[i] != '{' && t[i] != '}' {
      assert t[i] == s[i];
    }
    CountAbsent(t, '{');
    CountAbsent(t, '}');
  }

  /** No start anywhere: the scanner finds none. */
  lemma FindOpenNone(s: string, scanner: Scanner)
    requires forall v :: 0 <= v < |s| ==> !IsOpen(s, v, scanner)
    ensures FindOpen(s, 0, scanner).None?
  {
  }

  /** A start with none before it is the first one. */
  lemma FindOpenAt(s: string, scanner: Scanner, st: nat)
    requires st < |s| && IsOpen(s, st, scanner)
    requires forall v :: 0 <= v < st ==> !IsOpen(s, v, scanner)
    ensures FindOpen(s, 0, scanner) == Some(st)
  {
  }

}
