/** `remove_ansi_escape_sequences`: deletes, left to right and without overlap, every
    ECMA-48 two-character escape sequence for a C1 control (ESC followed by a byte in
    0x40-0x5A or 0x5C-0x5F; ECMA-48 section 5.3) and every ECMA-48 control sequence
    (ESC '[', parameter bytes 0x30-0x3F, intermediate bytes 0x20-0x2F, one final byte
    0x40-0x7E; ECMA-48 section 5.4). The three byte classes of a control sequence are
    disjoint, so the backtracking regular expression of the scripts commits to exactly
    the match the deterministic scanner `MatchLen` finds. */
module Ansi {
  import opened Text

  const ESC: char := 27 as char

  /** The byte after ESC in a two-character C1 escape; '[' (0x5B) is excluded. */
  predicate IsFe(c: char) {
    '@' <= c <= 'Z' || '\\' <= c <= '_'
  }

  predicate IsParam(c: char) {
    '0' <= c <= '?'
  }

  predicate IsIntermediate(c: char) {
    ' ' <= c <= '/'
  }

  predicate IsFinal(c: char) {
    '@' <= c <= '~'
  }

  /** The grammar of what the stripper removes, stated with no reference to scanning:
      ESC Fe, or ESC '[' followed by parameter and intermediate bytes, every parameter
      byte before every intermediate byte, and one final byte. */
  predicate IsEscapeSequence(t: string) {
    (|t| == 2 && t[0] == ESC && IsFe(t[1])) ||
    (|t| >= 3 && t[0] == ESC && t[1] == '[' && IsFinal(t[|t| - 1]) &&
     (forall k :: 2 <= k < |t| - 1 ==> IsParam(t[k]) || IsIntermediate(t[k])) &&
     (forall i, j :: 2 <= i < j < |t| - 1 ==> !(IsIntermediate(t[i]) && IsParam(t[j]))))
  }

  /** First index at or after `i` that does not hold a parameter byte. */
  function SkipParams(s: string, i: nat): (j: nat)
    requires i <= |s|
    ensures i <= j <= |s|
    ensures forall k :: i <= k < j ==> IsParam(s[k])
    ensures j < |s| ==> !IsParam(s[j])
    decreases |s| - i
  {
    if i < |s| && IsParam(s[i]) then SkipParams(s, i + 1) else i
  }

  /** First index at or after `i` that does not hold an intermediate byte. */
  function SkipIntermediates(s: string, i: nat): (j: nat)
    requires i <= |s|
    ensures i <= j <= |s|
    ensures forall k :: i <= k < j ==> IsIntermediate(s[k])
    ensures j < |s| ==> !IsIntermediate(s[j])
    decreases |s| - i
  {
    if i < |s| && IsIntermediate(s[i]) then SkipIntermediates(s, i + 1) else i
  }

  /** Length of the match the pattern makes at the start of `s`; 0 when there is none. */
  function MatchLen(s: string): (n: nat)
    ensures n <= |s|
    ensures n > 0 ==> n >= 2 && s[0] == ESC
  {
    if |s| < 2 || s[0] != ESC then 0
    else if IsFe(s[1]) then 2
    else if s[1] != '[' then 0
    else
      var q := SkipIntermediates(s, SkipParams(s, 2));
      if q < |s| && IsFinal(s[q]) then q + 1 else 0
  }

  /** The scanner only ever matches an escape sequence. */
  lemma MatchSound(s: string)
    requires MatchLen(s) > 0
    ensures IsEscapeSequence(s[..MatchLen(s)])
  {
    var n := MatchLen(s);
    var t := s[..n];
    if !IsFe(s[1]) {
      var p := SkipParams(s, 2);
      var q := SkipIntermediates(s, p);
      assert n == q + 1;
      forall i, j | 2 <= i < j < |t| - 1
        ensures !(IsIntermediate(t[i]) && IsParam(t[j]))
      {
        if j < p { assert IsParam(t[i]); } else { assert IsIntermediate(t[j]); }
      }
    }
  }

  /** Every escape sequence at the start of `s` is the one the scanner matches, so the
      match is unique and nothing shorter or longer is ever removed. */
  lemma MatchComplete(s: string, k: nat)
    requires 0 < k <= |s| && IsEscapeSequence(s[..k])
    ensures MatchLen(s) == k
  {
    var t := s[..k];
    if !(|t| == 2 && IsFe(t[1])) {
      assert !IsFe('[');
      var p := SkipParams(s, 2);
      assert !IsParam(s[k - 1]);
      assert p <= k - 1;
      forall m | p <= m < k - 1 ensures IsIntermediate(s[m]) {
        assert IsParam(t[m]) || IsIntermediate(t[m]);
        if m > p {
          assert IsIntermediate(t[p]);
          assert !IsParam(t[m]);
        }
      }
      var q := SkipIntermediates(s, p);
      assert !IsIntermediate(s[k - 1]);
      assert q == k - 1;
    }
  }

  /** `remove_ansi_escape_sequences`: `re.sub` with an empty replacement. */
  function Strip(s: string): (r: string)
    ensures |r| <= |s|
    decreases |s|
  {
    if s == [] then []
    else
      var n := MatchLen(s);
      if n > 0 then Strip(s[n..]) else [s[0]] + Strip(s[1..])
  }

  /** The stripper, stated against the grammar alone: an escape sequence at the front
      is removed whole, and a character that begins no escape sequence is kept. */
  lemma StripSpec(s: string)
    ensures forall k :: 0 < k <= |s| && IsEscapeSequence(s[..k]) ==> Strip(s) == Strip(s[k..])
    ensures s != [] && (forall k :: 0 < k <= |s| ==> !IsEscapeSequence(s[..k])) ==>
      Strip(s) == [s[0]] + Strip(s[1..])
  {
    forall k | 0 < k <= |s| && IsEscapeSequence(s[..k]) ensures Strip(s) == Strip(s[k..]) {
      MatchComplete(s, k);
    }
    if s != [] && MatchLen(s) > 0 {
      MatchSound(s);
    }
  }

  /** Text without ESC passes through unchanged. */
  lemma {:induction false} StripEscFree(s: string)
    requires ESC !in s
    ensures Strip(s) == s
    decreases |s|
  {
    if s != [] {
      assert s[1..] + [] == s[1..];
      assert ESC !in s[1..] by {
        forall c | c in s[1..] ensures c != ESC { assert c in s; }
      }
      StripEscFree(s[1..]);
    }
  }

  /** The output is the input with characters deleted, never reordered or added. */
  lemma {:induction false} StripSubsequence(s: string)
    ensures IsSubsequence(Strip(s), s)
    decreases |s|
  {
    if s != [] {
      var n := MatchLen(s);
      if n > 0 {
        StripSubsequence(s[n..]);
        SubsequenceOfDrop(Strip(s[n..]), s, n);
      } else {
        StripSubsequence(s[1..]);
        assert ([s[0]] + Strip(s[1..]))[1..] == Strip(s[1..]);
      }
    }
  }

  /** A match depends only on the characters it covers. */
  lemma MatchExtends(s: string, t: string)
    requires MatchLen(s) > 0
    ensures MatchLen(s + t) == MatchLen(s)
  {
    MatchSound(s);
    var n := MatchLen(s);
    assert (s + t)[..n] == s[..n];
    MatchComplete(s + t, n);
  }

  /** ESC is in none of the byte classes, so an ESC appended to `s` cannot complete or
      extend a sequence. */
  lemma MatchTrailingEsc(s: string)
    ensures MatchLen(s + [ESC]) == MatchLen(s)
  {
    if MatchLen(s) > 0 {
      MatchExtends(s, [ESC]);
    } else {
      var m := MatchLen(s + [ESC]);
      if m > 0 {
        MatchSound(s + [ESC]);
        if m <= |s| {
          assert (s + [ESC])[..m] == s[..m];
          MatchComplete(s, m);
        }
      }
    }
  }

  /** An ESC at the end of the text begins no complete sequence and is kept. */
  lemma {:induction false} StripKeepsTrailingEsc(s: string)
    ensures Strip(s + [ESC]) == Strip(s) + [ESC]
    decreases |s|
  {
    if s == [] {
      assert [ESC][1..] == [];
    } else {
      var n := MatchLen(s);
      MatchTrailingEsc(s);
      if n > 0 {
        assert (s + [ESC])[n..] == s[n..] + [ESC];
        StripKeepsTrailingEsc(s[n..]);
      } else {
        assert (s + [ESC])[1..] == s[1..] + [ESC];
        StripKeepsTrailingEsc(s[1..]);
      }
    }
  }

  /** A control sequence cut off before its final byte is kept whole. */
  lemma StripKeepsUnterminated()
    ensures Strip([ESC, '[', '1', ';']) == [ESC, '[', '1', ';']
  {
    var s := [ESC, '[', '1', ';'];
    assert SkipParams(s, 4) == 4;
    assert SkipIntermediates(s, 4) == 4;
    assert MatchLen(s) == 0;
    StripEscFree(s[1..]);
  }

  /** The stripper is not idempotent: stripping ESC ESC '@' 'A' removes the inner
      ESC '@' and leaves ESC 'A', which is itself a sequence. */
  lemma StripNotIdempotent()
    ensures var x := [ESC, ESC, '@', 'A'];
      Strip(x) == [ESC, 'A'] && Strip(Strip(x)) == [] && Strip(Strip(x)) != Strip(x)
  {
    var x := [ESC, ESC, '@', 'A'];
    assert MatchLen(x) == 0;
    assert MatchLen(x[1..]) == 2;
    assert x[1..][2..] == ['A'];
    StripEscFree(['A']);
    assert MatchLen([ESC, 'A']) == 2;
  }

  /** What the per-chunk loop writes: each chunk stripped on its own, in order. */
  function StripEach(chunks: seq<string>): (out: string)
    decreases |chunks|
  {
    if chunks == [] then [] else StripEach(chunks[..|chunks| - 1]) + Strip(chunks[|chunks| - 1])
  }

  /** Stripping chunk by chunk differs from stripping the whole output: a control
      sequence split across two reads survives. */
  lemma ChunkSplitSurvives()
    ensures StripEach([[ESC], ['[', 'm']]) == [ESC, '[', 'm']
    ensures Strip([ESC, '[', 'm']) == []
  {
    var first: string := [ESC];
    var second: string := ['[', 'm'];
    var chunks := [first, second];
    assert chunks[..1] == [first] && [first][..0] == [];
    StripEscFree(second);
    assert Strip(first) == first;
    assert StripEach([first]) == first;
    assert StripEach(chunks) == first + second;
    var s := [ESC, '[', 'm'];
    assert SkipParams(s, 2) == 2;
    assert SkipIntermediates(s, 2) == 2;
    assert MatchLen(s) == 3;
  }
}
