/** Whitespace classification and the tokenizer of `src/Graph.ts`: a token is
    a run of non-whitespace characters together with the whitespace after it
    (and, for the first token, the whitespace before it). Regular expressions
    of the source are replaced by scans over a whitespace predicate. */
module Tokenizer {

  /** The characters JavaScript's `\s` class matches. */
  predicate IsSpace(c: char) {
    var n := c as int;
    || 9 <= n <= 13
    || n == 0x20 || n == 0xA0 || n == 0x1680
    || 0x2000 <= n <= 0x200A
    || n == 0x2028 || n == 0x2029 || n == 0x202F || n == 0x205F
    || n == 0x3000 || n == 0xFEFF
  }

  /** Every character is whitespace (so also the empty string). */
  predicate Blank(s: string) {
    forall i | 0 <= i < |s| :: IsSpace(s[i])
  }

  /** `s` matches `/^\s+$/`. */
  predicate OnlySpace(s: string) {
    |s| > 0 && Blank(s)
  }

  /** `s` matches `/\S$/`. */
  predicate EndsInWord(s: string) {
    |s| > 0 && !IsSpace(s[|s| - 1])
  }

  /** `s` matches `/\s$/`. */
  predicate EndsInSpace(s: string) {
    |s| > 0 && IsSpace(s[|s| - 1])
  }

  /** The first position at or after `i` that holds no whitespace (`|s|` if
      there is none). */
  function SkipSpace(s: string, i: nat): (j: nat)
    requires i <= |s|
    ensures i <= j <= |s|
    ensures forall k | i <= k < j :: IsSpace(s[k])
    ensures j < |s| ==> !IsSpace(s[j])
    decreases |s| - i
  {
    if i == |s| || !IsSpace(s[i]) then i else SkipSpace(s, i + 1)
  }

  /** The first position at or after `i` that holds whitespace (`|s|` if
      there is none). */
  function SkipWord(s: string, i: nat): (j: nat)
    requires i <= |s|
    ensures i <= j <= |s|
    ensures forall k | i <= k < j :: !IsSpace(s[k])
    ensures j < |s| ==> IsSpace(s[j])
    decreases |s| - i
  {
    if i == |s| || IsSpace(s[i]) then i else SkipWord(s, i + 1)
  }

  /** The token shape the graph invariant demands: `/^\s*\S+\s+$/` for a
      token that is followed by another, `/^\s*\S+\s*$/` for the final one. */
  predicate IsToken(t: string, final: bool) {
    var a := SkipSpace(t, 0);
    var b := SkipWord(t, a);
    a < b && SkipSpace(t, b) == |t| && (final || b < |t|)
  }

  /** Every token of a sequence has the shape its position demands. */
  predicate Shaped(ts: seq<string>) {
    forall i | 0 <= i < |ts| :: IsToken(ts[i], i == |ts| - 1)
  }

  /** `ss.join('')`. */
  function Concat(ss: seq<string>): string {
    if ss == [] then [] else ss[0] + Concat(ss[1..])
  }

  lemma {:induction false} ConcatAppend(a: seq<string>, b: seq<string>)
    ensures Concat(a + b) == Concat(a) + Concat(b)
    decreases |a|
  {
    if a == [] {
      assert a + b == b;
    } else {
      assert (a + b)[1..] == a[1..] + b;
      ConcatAppend(a[1..], b);
    }
  }

  /** A token is a non-final one exactly when it is a token ending in
      whitespace. */
  lemma TokenNonFinal(t: string)
    ensures IsToken(t, false) <==> IsToken(t, true) && EndsInSpace(t)
  {
  }

  /** Every token contains a non-whitespace character. */
  lemma TokenNotBlank(t: string, final: bool)
    requires IsToken(t, final)
    ensures !Blank(t)
  {
    assert !IsSpace(t[SkipSpace(t, 0)]);
  }

  /** The end of the first token: leading whitespace, a word, trailing
      whitespace, exactly as far as the greedy pattern of `tokenize` consumes. */
  function FirstTokenEnd(s: string): (c: nat)
    requires !Blank(s)
    ensures 0 < c <= |s|
  {
    var a := SkipSpace(s, 0);
    assert a < |s|;
    SkipSpace(s, SkipWord(s, a))
  }

  /** Scanning within a prefix gives the same result when the scan stops
      inside it. */
  lemma SkipPrefix(s: string, c: nat, i: nat)
    requires i <= c <= |s|
    ensures SkipSpace(s, i) <= c ==> SkipSpace(s[..c], i) == SkipSpace(s, i)
    ensures SkipWord(s, i) <= c ==> SkipWord(s[..c], i) == SkipWord(s, i)
    ensures SkipSpace(s, i) >= c ==> SkipSpace(s[..c], i) == c
    decreases c - i
  {
    if i < c {
      SkipPrefix(s, c, i + 1);
    }
  }

  lemma FirstTokenShape(s: string)
    requires !Blank(s)
    ensures IsToken(s[..FirstTokenEnd(s)], true)
    ensures !Blank(s[FirstTokenEnd(s)..]) ==> IsToken(s[..FirstTokenEnd(s)], false)
    ensures Blank(s[FirstTokenEnd(s)..]) ==> FirstTokenEnd(s) == |s|
  {
    var a := SkipSpace(s, 0);
    var b := SkipWord(s, a);
    var c := SkipSpace(s, b);
    var t := s[..c];
    SkipPrefix(s, c, 0);
    SkipPrefix(s, c, a);
    SkipPrefix(s, c, b);
    assert SkipSpace(t, 0) == a && SkipWord(t, a) == b && SkipSpace(t, b) == c;
    if c < |s| {
      assert s[c..][0] == s[c];
    }
    assert b < |s| ==> b < c;
  }

  /** Whitespace between two words stays with the word before it: every
      token after the first starts with a non-whitespace character. */
  predicate Trailing(ts: seq<string>) {
    forall i | 0 < i < |ts| :: |ts[i]| > 0 && !IsSpace(ts[i][0])
  }

  lemma ConsTrailing(t: string, rest: seq<string>)
    requires Trailing(rest)
    requires rest != [] ==> |rest[0]| > 0 && !IsSpace(rest[0][0])
    ensures Trailing([t] + rest)
  {
    var r := [t] + rest;
    forall i | 0 < i < |r| ensures |r[i]| > 0 && !IsSpace(r[i][0]) {
      assert r[i] == rest[i - 1];
    }
  }

  lemma ConsShaped(t: string, rest: seq<string>)
    requires IsToken(t, rest == []) && Shaped(rest)
    ensures Shaped([t] + rest)
  {
    var r := [t] + rest;
    forall i | 0 <= i < |r| ensures IsToken(r[i], i == |r| - 1) {
      if i > 0 {
        assert r[i] == rest[i - 1];
      }
    }
  }

  lemma SplitEnds(s: string, c: nat)
    requires c <= |s|
    ensures s == s[..c] + s[c..]
    ensures c < |s| ==> (EndsInSpace(s) <==> EndsInSpace(s[c..]))
  {
  }

  /** `tokenize`: splits on whitespace, attaching leading whitespace to the
      first token and trailing whitespace to every token. */
  function Tokenize(s: string): seq<string>
    decreases |s|
  {
    if Blank(s) then []
    else
      var c := FirstTokenEnd(s);
      [s[..c]] + Tokenize(s[c..])
  }

  /** What `tokenize` promises: nothing for blank text; otherwise tokens
      that concatenate back to the text, each ending in whitespace except
      possibly the last, which ends in whitespace exactly when the text
      does. */
  lemma {:induction false} TokenizeSpec(s: string)
    ensures var r := Tokenize(s);
            && (r == [] <==> Blank(s))
            && (!Blank(s) ==> Concat(r) == s)
            && Shaped(r)
            && (r != [] ==> (EndsInSpace(r[|r| - 1]) <==> EndsInSpace(s)))
            && Trailing(r)
    decreases |s|
  {
    if !Blank(s) {
      var c := FirstTokenEnd(s);
      var rest := Tokenize(s[c..]);
      TokenizeSpec(s[c..]);
      FirstTokenShape(s);
      ConsShaped(s[..c], rest);
      SplitEnds(s, c);
      if rest != [] {
        var u := s[c..];
        assert rest[0] == u[..FirstTokenEnd(u)];
        assert rest[0][0] == s[c];
      }
      ConsTrailing(s[..c], rest);
    }
  }

  /** Every token may be followed by another: all end in whitespace. */
  predicate Closed(ts: seq<string>) {
    forall i | 0 <= i < |ts| :: IsToken(ts[i], false)
  }

  lemma ClosedAppend(a: seq<string>, b: seq<string>)
    requires Closed(a) && Closed(b)
    ensures Closed(a + b)
  {
    assert forall i | |a| <= i < |a + b| :: (a + b)[i] == b[i - |a|];
  }

  lemma ShapedAppend(a: seq<string>, b: seq<string>)
    requires Closed(a) && Shaped(b)
    ensures Shaped(a + b)
  {
    forall i | 0 <= i < |a + b| ensures IsToken((a + b)[i], i == |a + b| - 1) {
      if i < |a| {
        TokenNonFinal(a[i]);
      } else {
        assert (a + b)[i] == b[i - |a|];
      }
    }
  }

  lemma ShapedSuffix(a: seq<string>, k: nat)
    requires Shaped(a) && k <= |a|
    ensures Shaped(a[k..])
  {
    assert forall i | 0 <= i < |a| - k :: a[k..][i] == a[k + i];
  }

  /** A prefix of a well-shaped sequence is closed when it stops before the
      end, or when the final token ends in whitespace too. */
  lemma ClosedPrefix(a: seq<string>, k: nat)
    requires Shaped(a) && k <= |a|
    requires k < |a| || a == [] || EndsInSpace(a[|a| - 1])
    ensures Closed(a[..k])
  {
    forall i | 0 <= i < k ensures IsToken(a[i], false) {
      TokenNonFinal(a[i]);
    }
  }

  /** Text ending in whitespace tokenizes into closed tokens. */
  lemma {:induction false} TokenizeClosed(s: string)
    requires s == [] || EndsInSpace(s)
    ensures Closed(Tokenize(s))
  {
    var r := Tokenize(s);
    TokenizeSpec(s);
    if r != [] {
      ClosedPrefix(r, |r|);
      assert r[..|r|] == r;
    }
  }

  lemma BlankAppend(a: string, b: string)
    ensures Blank(a + b) <==> Blank(a) && Blank(b)
  {
    assert forall i | 0 <= i < |a| :: (a + b)[i] == a[i];
    assert forall i | 0 <= i < |b| :: (a + b)[|a| + i] == b[i];
    if Blank(a) && Blank(b) {
      forall i | 0 <= i < |a + b| ensures IsSpace((a + b)[i]) {
        if i >= |a| { assert (a + b)[i] == b[i - |a|]; }
      }
    }
  }
}
