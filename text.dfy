/** Python string primitives used throughout the scripts: `str.isspace`, `str.strip`,
    `str.strip(chars)`, `str.lower` and `str.split()[0]`, restricted to ASCII. */
module Text {

  datatype Option<T> = None | Some(value: T)

  /** The ASCII characters Python's `str.isspace` accepts: tab, line feed, vertical tab,
      form feed, carriage return, the four information separators 0x1C-0x1F, and space.
      The same set is what regex `\s` and `str.split()` treat as whitespace below 0x80. */
  const Whitespace: set<char> :=
    set c: char | '\t' <= c <= '\r' || '\U{1C}' <= c <= ' '

  predicate IsSpace(c: char) {
    c in Whitespace
  }

  /** True when every character of `s` belongs to `cs`. */
  predicate AllIn(s: string, cs: set<char>) {
    forall i :: 0 <= i < |s| ==> s[i] in cs
  }

  /** `s.lstrip(cs)`: drop the longest prefix made of characters of `cs`. */
  function TrimStartOf(s: string, cs: set<char>): (r: string)
    ensures |r| <= |s| && r == s[|s| - |r|..]
    ensures AllIn(s[..|s| - |r|], cs)
    ensures r == [] || r[0] !in cs
    decreases |s|
  {
    if s != [] && s[0] in cs then
      var r := TrimStartOf(s[1..], cs);
      PrefixGrows(s, r, cs);
      r
    else
      s
  }

  /** `s.rstrip(cs)`: drop the longest suffix made of characters of `cs`. */
  function TrimEndOf(s: string, cs: set<char>): (r: string)
    ensures |r| <= |s| && r == s[..|r|]
    ensures AllIn(s[|r|..], cs)
    ensures r == [] || r[|r| - 1] !in cs
    decreases |s|
  {
    if s != [] && s[|s| - 1] in cs then
      var r := TrimEndOf(s[..|s| - 1], cs);
      SuffixGrows(s, r, cs);
      r
    else
      s
  }

  /** The step of `TrimStartOf`: one more character of `cs` in front. */
  lemma PrefixGrows(s: string, r: string, cs: set<char>)
    requires s != [] && s[0] in cs && |r| <= |s| - 1
    requires r == s[1..][|s| - 1 - |r|..] && AllIn(s[1..][..|s| - 1 - |r|], cs)
    ensures r == s[|s| - |r|..] && AllIn(s[..|s| - |r|], cs)
  {
    assert forall i :: 1 <= i < |s| - |r| ==> s[i] == s[1..][..|s| - 1 - |r|][i - 1];
  }

  /** The step of `TrimEndOf`: one more character of `cs` behind. */
  lemma SuffixGrows(s: string, r: string, cs: set<char>)
    requires s != [] && s[|s| - 1] in cs && |r| <= |s| - 1
    requires r == s[..|s| - 1][..|r|] && AllIn(s[..|s| - 1][|r|..], cs)
    ensures r == s[..|r|] && AllIn(s[|r|..], cs)
  {
    assert forall i :: |r| <= i < |s| - 1 ==> s[i] == s[..|s| - 1][|r|..][i - |r|];
  }

  /** `s.strip(cs)`: both ends. */
  function StripOf(s: string, cs: set<char>): string {
    TrimEndOf(TrimStartOf(s, cs), cs)
  }

  /** `s.strip()` with no argument strips whitespace. */
  function Trim(s: string): string {
    StripOf(s, Whitespace)
  }

  /** What `StripOf` promises, in two halves. First: the result is the slice of `s`
      between a prefix and a suffix made only of characters of `cs`; the returned `i`
      is where the result starts. */
  lemma StripOfSlice(s: string, cs: set<char>) returns (i: nat)
    ensures var r := StripOf(s, cs);
      i + |r| <= |s| && s[i..i + |r|] == r &&
      AllIn(s[..i], cs) && AllIn(s[i + |r|..], cs)
  {
    var t := TrimStartOf(s, cs);
    i := |s| - |t|;
    SliceOfSlice(s, i, t, TrimEndOf(t, cs), cs);
  }

  lemma SliceOfSlice(s: string, i: nat, t: string, r: string, cs: set<char>)
    requires i <= |s| && t == s[i..] && |r| <= |t| && r == t[..|r|] && AllIn(t[|r|..], cs)
    ensures s[i..i + |r|] == r && AllIn(s[i + |r|..], cs)
  {
    SuffixPrefix(s, i, |r|);
  }

  /** Second: the result neither starts nor ends with a character of `cs`. */
  lemma StripOfEnds(s: string, cs: set<char>)
    ensures var r := StripOf(s, cs); r == [] || (r[0] !in cs && r[|r| - 1] !in cs)
  {
    var t := TrimStartOf(s, cs);
    var r := TrimEndOf(t, cs);
    if r != [] {
      assert r[0] == t[0];
    }
  }

  /** Stripping undoes padding: `w` surrounded by characters of `cs` strips back to `w`
      as long as `w` neither starts nor ends with one of them. */
  lemma StripOfPadded(a: string, w: string, b: string, cs: set<char>)
    requires AllIn(a, cs) && AllIn(b, cs)
    requires w != [] && w[0] !in cs && w[|w| - 1] !in cs
    ensures StripOf(a + w + b, cs) == w
  {
    assert a + w + b == a + (w + b);
    assert (w + b)[0] == w[0];
    TrimStartOfPadded(a, w + b, cs);
    TrimEndOfPadded(w, b, cs);
  }

  lemma {:induction false} TrimStartOfPadded(a: string, u: string, cs: set<char>)
    requires AllIn(a, cs) && u != [] && u[0] !in cs
    ensures TrimStartOf(a + u, cs) == u
    decreases |a|
  {
    if a == [] {
      assert a + u == u;
    } else {
      assert (a + u)[1..] == a[1..] + u;
      assert (a + u)[0] == a[0];
      TrimStartOfPadded(a[1..], u, cs);
    }
  }

  lemma {:induction false} TrimEndOfPadded(u: string, b: string, cs: set<char>)
    requires AllIn(b, cs) && u != [] && u[|u| - 1] !in cs
    ensures TrimEndOf(u + b, cs) == u
    decreases |b|
  {
    if b == [] {
      assert u + b == u;
    } else {
      assert (u + b)[..|u + b| - 1] == u + b[..|b| - 1];
      assert (u + b)[|u + b| - 1] == b[|b| - 1];
      TrimEndOfPadded(u, b[..|b| - 1], cs);
    }
  }

  /** ASCII lower-casing, as `str.lower` does below 0x80. */
  function LowerChar(c: char): char {
    if 'A' <= c <= 'Z' then (c as int + 32) as char else c
  }

  function Lower(s: string): (r: string)
    ensures |r| == |s|
  {
    seq(|s|, i requires 0 <= i < |s| => LowerChar(s[i]))
  }

  /** The leading run of non-whitespace characters of `s`. */
  function TakeToken(s: string): (r: string)
    ensures |r| <= |s| && r == s[..|r|]
    ensures forall i :: 0 <= i < |r| ==> !IsSpace(r[i])
    ensures |r| == |s| || IsSpace(s[|r|])
    decreases |s|
  {
    if s == [] || IsSpace(s[0]) then [] else [s[0]] + TakeToken(s[1..])
  }

  /** `s.split()[0]`, or None where Python raises IndexError (no token at all). */
  function FirstToken(s: string): (r: Option<string>)
  {
    var t := TrimStartOf(s, Whitespace);
    if t == [] then None else Some(TakeToken(t))
  }

  /** `split()[0]` exists exactly when `s` has a non-whitespace character. */
  lemma FirstTokenExists(s: string)
    ensures FirstToken(s).None? <==> AllIn(s, Whitespace)
  {
    var t := TrimStartOf(s, Whitespace);
    var lead := |s| - |t|;
    if t == [] {
      assert s[..lead] == s;
    } else {
      assert s[lead] == t[0];
    }
  }

  /** The token is then the first maximal run of non-whitespace characters: `s` is
      whitespace up to `lead`, the token, and then either nothing or a whitespace
      character. */
  lemma FirstTokenShape(s: string) returns (lead: nat)
    requires FirstToken(s).Some?
    ensures var tok := FirstToken(s).value;
      tok != [] &&
      (forall i :: 0 <= i < |tok| ==> !IsSpace(tok[i])) &&
      lead + |tok| <= |s| && AllIn(s[..lead], Whitespace) && s[lead..lead + |tok|] == tok &&
      (lead + |tok| == |s| || IsSpace(s[lead + |tok|]))
  {
    var t := TrimStartOf(s, Whitespace);
    lead := |s| - |t|;
    assert t != [] && !IsSpace(t[0]);
    var tok := TakeToken(t);
    assert FirstToken(s).value == tok;
    var n := |tok|;
    assert n != 0;
    assert t == s[lead..] && tok == t[..n];
    SuffixPrefix(s, lead, n);
    assert s[lead..lead + n] == tok;
    assert n == |t| || IsSpace(t[n]);
  }

  lemma SuffixPrefix<T>(s: seq<T>, k: nat, n: nat)
    requires k + n <= |s|
    ensures s[k..][..n] == s[k..k + n] && s[k..][n..] == s[k + n..]
    ensures k + n < |s| ==> s[k..][n] == s[k + n]
  {
  }

  /** `a` can be obtained from `b` by deleting characters. */
  predicate IsSubsequence<T(==)>(a: seq<T>, b: seq<T>)
    decreases |b|
  {
    if a == [] then true
    else if b == [] then false
    else (a[0] == b[0] && IsSubsequence(a[1..], b[1..])) || IsSubsequence(a, b[1..])
  }

  lemma {:induction false} SubsequenceOfDrop<T>(a: seq<T>, b: seq<T>, n: nat)
    requires n <= |b| && IsSubsequence(a, b[n..])
    ensures IsSubsequence(a, b)
    decreases n
  {
    if n > 0 {
      assert b[1..][n - 1..] == b[n..];
      SubsequenceOfDrop(a, b[1..], n - 1);
    }
  }

  lemma {:induction false} SubsequenceShorter<T>(a: seq<T>, b: seq<T>)
    requires IsSubsequence(a, b)
    ensures |a| <= |b|
    decreases |b|
  {
    if a != [] {
      if a[0] == b[0] && IsSubsequence(a[1..], b[1..]) {
        SubsequenceShorter(a[1..], b[1..]);
      } else {
        SubsequenceShorter(a, b[1..]);
      }
    }
  }

  /** Regrouping a concatenation, proved apart from the caller's context: inside a large
      loop body the same equality as an inline assertion costs more than the limit. */
  lemma ConcatAssoc<T>(a: seq<T>, b: seq<T>, c: seq<T>)
    ensures a + (b + c) == (a + b) + c
  {
  }

  /** Splitting off the head of the left operand of a concatenation. */
  lemma ConsConcat<T>(p: seq<T>, v: seq<T>)
    requires p != []
    ensures [p[0]] + (p[1..] + v) == p + v
  {
    assert [p[0]] + p[1..] == p;
  }
}
