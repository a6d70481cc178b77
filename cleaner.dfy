/** `clean_assistant_response` of IntrusionNet.py: turn an assistant reply into one shell
    command line. Five steps: take the first ``` fenced block, or else drop one leading
    and one trailing backtick and trim; drop a leading `bash` and its whitespace and
    trim; turn each literal backslash-n into a space; collapse each run of two or more
    whitespace characters into one space; report an empty command as None. */
module Cleaner {
  import opened Text

  const Fence: string := "```"

  predicate FenceAt(s: string, i: nat) {
    i + 3 <= |s| && s[i..i + 3] == Fence
  }

  /** The first fence starting at or after `from`. */
  function FindFence(s: string, from: nat): (r: Option<nat>)
    ensures r.Some? ==> from <= r.value && FenceAt(s, r.value)
    ensures r.Some? ==> forall k :: from <= k < r.value ==> !FenceAt(s, k)
    ensures r.None? ==> forall k :: from <= k ==> !FenceAt(s, k)
    decreases |s| - from
  {
    if from + 3 > |s| then None
    else if FenceAt(s, from) then Some(from)
    else FindFence(s, from + 1)
  }

  /** `re.findall(r"```(.*?)```", s, re.DOTALL)[0]`, or None when the list is empty. */
  function FirstFencedBlock(s: string): Option<string> {
    match FindFence(s, 0)
    case None => None
    case Some(i) =>
      match FindFence(s, i + 3)
      case None => None
      case Some(j) => Some(s[i + 3..j])
  }

  /** A fenced block exists exactly when two non-overlapping fences exist, and the one
      used lies between the first fence of the reply and the nearest fence after it. */
  lemma FencedBlockSpec(s: string)
    ensures FirstFencedBlock(s).Some? <==>
      exists i: nat, j: nat :: i + 3 <= j && FenceAt(s, i) && FenceAt(s, j)
    ensures FirstFencedBlock(s).Some? ==>
      exists i: nat, j: nat :: i + 3 <= j && FenceAt(s, i) && FenceAt(s, j) &&
        FirstFencedBlock(s).value == s[i + 3..j] &&
        (forall k :: 0 <= k < i ==> !FenceAt(s, k)) &&
        (forall k :: i + 3 <= k < j ==> !FenceAt(s, k))
  {
    var a := FindFence(s, 0);
    if a.Some? {
      var b := FindFence(s, a.value + 3);
      if b.Some? {
        var i: nat, j: nat := a.value, b.value;
        assert FirstFencedBlock(s) == Some(s[i + 3..j]);
        assert i + 3 <= j && FenceAt(s, i) && FenceAt(s, j) &&
          FirstFencedBlock(s).value == s[i + 3..j] &&
          (forall k :: 0 <= k < i ==> !FenceAt(s, k)) &&
          (forall k :: i + 3 <= k < j ==> !FenceAt(s, k));
      } else {
        assert FirstFencedBlock(s).None?;
        forall i: nat, j: nat | i + 3 <= j && FenceAt(s, i) ensures !FenceAt(s, j) {
          assert a.value <= i;
        }
      }
    } else {
      assert FirstFencedBlock(s).None?;
    }
  }

  /** 1 when `^`` matches, else 0. */
  function LeadTick(s: string): (n: nat)
    ensures n <= 1 && n <= |s| && (n == 1 <==> (s != [] && s[0] == '`'))
  {
    if |s| > 0 && s[0] == '`' then 1 else 0
  }

  /** Where ``$` matches: a backtick that ends the text or stands just before a final
      newline (no MULTILINE). At most one such position exists. */
  function TailTick(s: string): (p: Option<nat>)
    ensures p.Some? ==> p.value < |s| && s[p.value] == '`' && p.value + 2 >= |s|
  {
    if |s| > 0 && s[|s| - 1] == '`' then Some(|s| - 1)
    else if |s| >= 2 && s[|s| - 1] == '\n' && s[|s| - 2] == '`' then Some(|s| - 2)
    else None
  }

  /** `re.sub(r"^`|`$", "", s)`. The scan takes the leading backtick first, so a
      one-character reply "`" loses it once, not twice. */
  function DropBackticks(s: string): string {
    var lead := LeadTick(s);
    var tail := TailTick(s);
    if tail.Some? && tail.value >= lead then s[lead..tail.value] + s[tail.value + 1..]
    else s[lead..]
  }

  function Backticks(n: nat): (r: string)
    ensures |r| == n && forall i :: 0 <= i < n ==> r[i] == '`'
  {
    seq(n, _ => '`')
  }

  /** At most one leading and one trailing character go, and the rest keeps its order. */
  lemma DropBackticksOrder(s: string)
    ensures var r := DropBackticks(s); |s| - 2 <= |r| <= |s| && IsSubsequence(r, s)
  {
    var lead := LeadTick(s);
    var tail := TailTick(s);
    SubsequenceOfDropLemma(s, lead);
    if tail.Some? && tail.value >= lead {
      var t := tail.value;
      RemoveOne(s[lead..], t - lead);
      assert s[lead..][..t - lead] + s[lead..][t - lead + 1..] == s[lead..t] + s[t + 1..];
      SubsequenceOfDrop(s[lead..t] + s[t + 1..], s, lead);
    }
  }

  /** Every character that goes is a backtick. */
  lemma DropBackticksOnlyTicks(s: string)
    ensures var r := DropBackticks(s);
      |r| <= |s| && multiset(s) == multiset(r) + multiset(Backticks(|s| - |r|))
  {
    var lead := LeadTick(s);
    var tail := TailTick(s);
    if tail.Some? && tail.value >= lead {
      TickCount(s, lead, tail.value);
    } else {
      TickCount1(s, lead);
    }
  }

  /** Which backticks go: the one at index 0 when there is one, and the one ``$` finds,
      which is the last character or the one before a final newline. Every other
      character stays, in order. */
  lemma DropBackticksSpec(s: string)
    ensures var lead := if s != [] && s[0] == '`' then 1 else 0;
      |s| >= 2 && s[|s| - 1] == '`' ==> DropBackticks(s) == s[lead..|s| - 1]
    ensures var lead := if s != [] && s[0] == '`' then 1 else 0;
      |s| >= 3 && s[|s| - 2] == '`' && s[|s| - 1] == '\n' ==>
        DropBackticks(s) == s[lead..|s| - 2] + ['\n']
    ensures |s| <= 2 && s != [] && s[0] == '`' && (|s| == 1 || s[1] == '\n') ==>
      DropBackticks(s) == s[1..]
    ensures var lead := if s != [] && s[0] == '`' then 1 else 0;
      !(s != [] && s[|s| - 1] == '`') && !(|s| >= 2 && s[|s| - 2] == '`' && s[|s| - 1] == '\n') ==>
        DropBackticks(s) == s[lead..]
  {
    if |s| >= 3 && s[|s| - 2] == '`' && s[|s| - 1] == '\n' {
      assert s[|s| - 1..] == ['\n'];
    }
  }

  /** A reply that neither starts nor ends with a backtick (before an optional final
      newline) is left as it is. */
  lemma DropBackticksNoTicks(s: string)
    requires LeadTick(s) == 0 && TailTick(s).None?
    ensures DropBackticks(s) == s
  {
  }

  lemma SubsequenceOfDropLemma(s: string, n: nat)
    requires n <= |s|
    ensures IsSubsequence(s[n..], s)
  {
    SubsequenceRefl(s[n..]);
    SubsequenceOfDrop(s[n..], s, n);
  }

  lemma {:induction false} SubsequenceRefl(s: string)
    ensures IsSubsequence(s, s)
    decreases |s|
  {
    if s != [] { SubsequenceRefl(s[1..]); }
  }

  /** Deleting position `p` of `u` leaves a subsequence of `u`. */
  lemma {:induction false} RemoveOne(u: string, p: nat)
    requires p < |u|
    ensures IsSubsequence(u[..p] + u[p + 1..], u)
    decreases p
  {
    if p == 0 {
      assert u[..0] + u[1..] == u[1..];
      SubsequenceOfDropLemma(u, 1);
    } else {
      RemoveOne(u[1..], p - 1);
      assert u[1..][..p - 1] + u[1..][p..] == (u[..p] + u[p + 1..])[1..];
      assert (u[..p] + u[p + 1..])[0] == u[0];
    }
  }

  lemma SubsequenceTrans(a: string, b: string, c: string, n: nat)
    requires n <= |c| && b == c[n..] && IsSubsequence(a, b)
    ensures IsSubsequence(a, c)
  {
    SubsequenceOfDrop(a, c, n);
  }

  lemma TickCount(s: string, lead: nat, t: nat)
    requires lead <= 1 && lead <= t < |s| && s[t] == '`' && (lead == 1 ==> s[0] == '`')
    ensures multiset(s) == multiset(s[lead..t] + s[t + 1..]) + multiset(Backticks(lead + 1))
  {
    assert s == s[..lead] + s[lead..t] + [s[t]] + s[t + 1..];
    assert s[..lead] + [s[t]] == Backticks(lead + 1);
    calc {
      multiset(s);
      multiset(s[..lead]) + multiset(s[lead..t]) + multiset([s[t]]) + multiset(s[t + 1..]);
      multiset(s[lead..t] + s[t + 1..]) + multiset(s[..lead] + [s[t]]);
    }
  }

  lemma TickCount1(s: string, lead: nat)
    requires lead <= 1 && lead <= |s| && (lead == 1 ==> s[0] == '`')
    ensures multiset(s) == multiset(s[lead..]) + multiset(Backticks(lead))
  {
    assert s == s[..lead] + s[lead..];
    assert s[..lead] == Backticks(lead);
  }

  /** ``$` also matches in front of a final newline: the backtick there goes and the
      newline stays; a lone backtick is removed once. */
  lemma DropBackticksBeforeNewline()
    ensures DropBackticks("`ls`\n") == "ls\n"
    ensures DropBackticks("`") == ""
  {
    var s: string := ['`', 'l', 's', '`', '\n'];
    assert s == "`ls`\n";
    assert LeadTick(s) == 1;
    assert TailTick(s) == Some(3);
    assert s[1..3] == ['l', 's'] && s[4..] == ['\n'];
    assert DropBackticks(s) == ['l', 's', '\n'];
    var t: string := ['`'];
    assert t == "`";
    assert LeadTick(t) == 1 && TailTick(t) == Some(0);
  }

  /** `re.sub(r"^(bash\s+)?", "", s)`: only a `bash` at the very start followed by at
      least one whitespace character is dropped, with all the whitespace after it. */
  function DropBash(s: string): (r: string)
  {
    if |s| > 4 && s[..4] == "bash" && IsSpace(s[4]) then TrimStartOf(s[4..], Whitespace) else s
  }

  lemma DropBashSpec(s: string)
    ensures DropBash(s) != s <==> |s| > 4 && s[..4] == "bash" && IsSpace(s[4])
    ensures DropBash(s) != s ==>
      exists n :: 5 <= n <= |s| && DropBash(s) == s[n..] && AllIn(s[4..n], Whitespace)
    ensures DropBash("bashrc") == "bashrc" && DropBash("  bash ls") == "  bash ls"
  {
    if |s| > 4 && s[..4] == "bash" && IsSpace(s[4]) {
      var r := DropBash(s);
      var n := |s| - |r|;
      assert n >= 5 by {
        assert r == [] || !IsSpace(r[0]);
        assert IsSpace(s[4..][0]);
      }
      assert s[4..][..n - 4] == s[4..n];
      assert 5 <= n <= |s| && r == s[n..] && AllIn(s[4..n], Whitespace);
    }
    assert "bashrc"[4] == 'r';
    assert "  bash ls"[..4] != "bash" by { assert "  bash ls"[0] == ' '; }
  }

  /** No backslash directly followed by `n`. */
  predicate NoEscapedNewline(s: string) {
    forall i :: 0 <= i < |s| - 1 ==> !(s[i] == '\\' && s[i + 1] == 'n')
  }

  /** No two whitespace characters next to each other. */
  predicate NoDoubleSpace(s: string) {
    forall i :: 0 <= i < |s| - 1 ==> !(IsSpace(s[i]) && IsSpace(s[i + 1]))
  }

  /** `re.sub(r"\\n", " ", s)`: each literal backslash-n, left to right, becomes a space. */
  function UnescapeNewlines(s: string): (r: string)
    ensures |r| <= |s|
    ensures s != [] ==> r != [] && (r[0] == s[0] || r[0] == ' ')
    ensures NoEscapedNewline(r)
    ensures NoEscapedNewline(s) ==> r == s
    decreases |s|
  {
    if |s| >= 2 && s[0] == '\\' && s[1] == 'n' then [' '] + UnescapeNewlines(s[2..])
    else if s == [] then []
    else [s[0]] + UnescapeNewlines(s[1..])
  }

  const EscapedNewline: string := "\\n"

  /** `sep.join(parts)`. */
  function Join(parts: seq<string>, sep: string): string
    decreases |parts|
  {
    if parts == [] then []
    else if |parts| == 1 then parts[0]
    else parts[0] + sep + Join(parts[1..], sep)
  }

  /** A join starts with its first part. */
  lemma JoinFirst(parts: seq<string>, sep: string)
    requires parts != []
    ensures |parts[0]| <= |Join(parts, sep)| && Join(parts, sep)[..|parts[0]|] == parts[0]
  {
  }

  /** `s.split("\\n")`: the pieces between the literal backslash-n pairs, left to right.
      Joining them back gives `s`, and no piece holds a backslash-n. */
  function SplitEscapes(s: string): (parts: seq<string>)
    ensures parts != [] && Join(parts, EscapedNewline) == s
    ensures forall k :: 0 <= k < |parts| ==> NoEscapedNewline(parts[k])
    decreases |s|
  {
    if s == [] then [[]]
    else if |s| >= 2 && s[0] == '\\' && s[1] == 'n' then
      var ps := SplitEscapes(s[2..]);
      SplitAtEscape(s, ps);
      [[]] + ps
    else
      var ps := SplitEscapes(s[1..]);
      SplitExtend(s, ps);
      [[s[0]] + ps[0]] + ps[1..]
  }

  /** A backslash-n in front starts a new, empty piece. */
  lemma SplitAtEscape(s: string, ps: seq<string>)
    requires |s| >= 2 && s[0] == '\\' && s[1] == 'n'
    requires ps != [] && Join(ps, EscapedNewline) == s[2..]
    requires forall k :: 0 <= k < |ps| ==> NoEscapedNewline(ps[k])
    ensures var r := [[]] + ps;
      Join(r, EscapedNewline) == s && forall k :: 0 <= k < |r| ==> NoEscapedNewline(r[k])
  {
    var r := [[]] + ps;
    assert r[1..] == ps;
    assert s == [] + EscapedNewline + s[2..];
    assert forall k :: 1 <= k < |r| ==> r[k] == ps[k - 1];
  }

  /** Any other character joins the first piece. */
  lemma SplitExtend(s: string, ps: seq<string>)
    requires s != [] && !(|s| >= 2 && s[0] == '\\' && s[1] == 'n')
    requires ps != [] && Join(ps, EscapedNewline) == s[1..]
    requires forall k :: 0 <= k < |ps| ==> NoEscapedNewline(ps[k])
    ensures var r := [[s[0]] + ps[0]] + ps[1..];
      Join(r, EscapedNewline) == s && forall k :: 0 <= k < |r| ==> NoEscapedNewline(r[k])
  {
    JoinFirst(ps, EscapedNewline);
    if ps[0] != [] {
      assert ps[0][0] == s[1];
    }
    PrependKeepsNoEscapedNewline(s[0], ps[0]);
    JoinExtend(s[0], ps, EscapedNewline);
    var r := [[s[0]] + ps[0]] + ps[1..];
    assert forall k :: 1 <= k < |r| ==> r[k] == ps[k];
    assert s == [s[0]] + s[1..];
  }

  /** A character in front of a piece adds no backslash-n unless it is a backslash and
      the piece starts with `n`. */
  lemma PrependKeepsNoEscapedNewline(c: char, p: string)
    requires NoEscapedNewline(p) && !(c == '\\' && p != [] && p[0] == 'n')
    ensures NoEscapedNewline([c] + p)
  {
    var q := [c] + p;
    forall i | 0 <= i < |q| - 1 ensures !(q[i] == '\\' && q[i + 1] == 'n') {
      if i > 0 {
        assert q[i] == p[i - 1] && q[i + 1] == p[i];
      }
    }
  }

  /** Extending the first piece extends the join by the same character. */
  lemma JoinExtend(c: char, ps: seq<string>, sep: string)
    requires ps != []
    ensures Join([[c] + ps[0]] + ps[1..], sep) == [c] + Join(ps, sep)
  {
    var r := [[c] + ps[0]] + ps[1..];
    assert r[0] == [c] + ps[0] && r[1..] == ps[1..];
    if |ps| > 1 {
      assert Join(r, sep) == ([c] + ps[0]) + sep + Join(ps[1..], sep);
    }
  }

  /** One step of the unescape scan past a character that starts no backslash-n. */
  lemma UnescapeCons(c: char, v: string)
    requires !(c == '\\' && v != [] && v[0] == 'n')
    ensures UnescapeNewlines([c] + v) == [c] + UnescapeNewlines(v)
  {
    assert ([c] + v)[1..] == v;
  }

  /** Unescaping skips over text that holds no backslash-n, provided the text does not
      end in a backslash that the rest would complete. */
  lemma {:induction false} UnescapeSkips(p: string, u: string)
    requires NoEscapedNewline(p)
    requires p == [] || u == [] || p[|p| - 1] != '\\' || u[0] != 'n'
    ensures UnescapeNewlines(p + u) == p + UnescapeNewlines(u)
    decreases |p|
  {
    if p == [] {
      assert p + u == u;
    } else {
      var q := p[1..];
      assert !(|p| >= 2 && p[0] == '\\' && p[1] == 'n');
      SkipStep(p, u);
      NoEscapedNewlineTail(p);
      assert q != [] ==> q[|q| - 1] == p[|p| - 1];
      UnescapeSkips(q, u);
      ConsConcat(p, UnescapeNewlines(u));
    }
  }

  /** One character of `UnescapeSkips`: a first character that starts no backslash-n
      with what follows it is kept. */
  lemma SkipStep(p: string, u: string)
    requires p != []
    requires !(|p| >= 2 && p[0] == '\\' && p[1] == 'n')
    requires !(|p| == 1 && u != [] && p[0] == '\\' && u[0] == 'n')
    ensures UnescapeNewlines(p + u) == [p[0]] + UnescapeNewlines(p[1..] + u)
  {
    var v := p[1..] + u;
    ConsConcat(p, u);
    if |p| >= 2 {
      assert v[0] == p[1];
    } else {
      assert v == u;
    }
    UnescapeCons(p[0], v);
  }

  lemma NoEscapedNewlineTail(p: string)
    requires p != [] && NoEscapedNewline(p)
    ensures NoEscapedNewline(p[1..])
  {
    var q := p[1..];
    forall i | 0 <= i < |q| - 1 ensures !(q[i] == '\\' && q[i + 1] == 'n') {
      assert q[i] == p[i + 1] && q[i + 1] == p[i + 2];
    }
  }

  /** The unescape step is `" ".join(s.split("\\n"))`: for any cut of a text at
      backslash-n pairs into pieces that hold none, the result joins the same pieces
      with single spaces. */
  lemma {:induction false} UnescapeJoin(parts: seq<string>)
    requires forall k :: 0 <= k < |parts| ==> NoEscapedNewline(parts[k])
    ensures UnescapeNewlines(Join(parts, EscapedNewline)) == Join(parts, " ")
    decreases |parts|
  {
    if |parts| > 1 {
      var tail := Join(parts[1..], EscapedNewline);
      var u := EscapedNewline + tail;
      assert Join(parts, EscapedNewline) == parts[0] + u;
      assert u[0] == '\\' && u[1] == 'n' && u[2..] == tail;
      UnescapeSkips(parts[0], u);
      UnescapeJoin(parts[1..]);
      assert UnescapeNewlines(u) == [' '] + Join(parts[1..], " ");
    }
  }

  /** Every text has such a cut, so the step is pinned down on every input. */
  lemma UnescapeSpec(s: string)
    ensures UnescapeNewlines(s) == Join(SplitEscapes(s), " ")
  {
    UnescapeJoin(SplitEscapes(s));
  }

  /** `re.sub(r"\s{2,}", " ", s)`: each maximal run of two or more whitespace
      characters becomes one space; a lone whitespace character is kept as it is. */
  function Collapse(s: string): (r: string)
    ensures |r| <= |s|
    ensures s != [] ==> r != [] && (r[0] == s[0] || (IsSpace(s[0]) && r[0] == ' '))
    ensures NoDoubleSpace(r)
    ensures NoEscapedNewline(s) ==> NoEscapedNewline(r)
    ensures NoDoubleSpace(s) ==> r == s
    decreases |s|
  {
    if |s| >= 2 && IsSpace(s[0]) && IsSpace(s[1]) then
      var rest := TrimStartOf(s, Whitespace);
      SuffixKeepsNoEscapedNewline(s, rest);
      [' '] + Collapse(rest)
    else if s == [] then []
    else
      TailKeepsNoDoubleSpace(s);
      [s[0]] + Collapse(s[1..])
  }

  /** A suffix of text without backslash-n has none either. */
  lemma SuffixKeepsNoEscapedNewline(s: string, rest: string)
    requires |rest| <= |s| && rest == s[|s| - |rest|..]
    ensures NoEscapedNewline(s) ==> NoEscapedNewline(rest)
  {
    if NoEscapedNewline(s) {
      forall i | 0 <= i < |rest| - 1 ensures !(rest[i] == '\\' && rest[i + 1] == 'n') {
        assert rest[i] == s[|s| - |rest| + i] && rest[i + 1] == s[|s| - |rest| + i + 1];
      }
    }
  }

  /** The tail of text without doubled whitespace has none either. */
  lemma TailKeepsNoDoubleSpace(s: string)
    requires s != []
    ensures NoDoubleSpace(s) ==> NoDoubleSpace(s[1..]) && s == [s[0]] + s[1..]
  {
    if NoDoubleSpace(s) {
      var t := s[1..];
      forall i | 0 <= i < |t| - 1 ensures !(IsSpace(t[i]) && IsSpace(t[i + 1])) {
        assert t[i] == s[i + 1] && t[i + 1] == s[i + 2];
      }
    }
  }

  /** A run: non-empty, and all whitespace or all other characters. */
  predicate Uniform(p: string) {
    p != [] && forall i :: 0 <= i < |p| ==> IsSpace(p[i]) == IsSpace(p[0])
  }

  /** `ps` is a cut into maximal runs: every piece is a run and neighbours differ in
      kind. */
  predicate MaximalRuns(ps: seq<string>) {
    (forall k :: 0 <= k < |ps| ==> Uniform(ps[k])) &&
    (forall k :: 0 <= k < |ps| - 1 ==> IsSpace(ps[k][0]) != IsSpace(ps[k + 1][0]))
  }

  function Concat(ps: seq<string>): string
    decreases |ps|
  {
    if ps == [] then [] else ps[0] + Concat(ps[1..])
  }

  /** What `\s{2,}` -> " " does to one maximal run: a whitespace run of two or more
      becomes one space; a single whitespace character and a word stay. */
  function Shrink(p: string): string {
    if |p| >= 2 && IsSpace(p[0]) then " " else p
  }

  function ShrinkAll(ps: seq<string>): string
    decreases |ps|
  {
    if ps == [] then [] else Shrink(ps[0]) + ShrinkAll(ps[1..])
  }

  /** The maximal runs of a text, left to right: the first character joins the first
      run of the rest when it is of the same kind, and starts a run of its own otherwise. */
  function Runs(s: string): (ps: seq<string>)
    ensures MaximalRuns(ps) && Concat(ps) == s
    decreases |s|
  {
    if s == [] then []
    else
      var ps := Runs(s[1..]);
      assert s == [s[0]] + s[1..];
      if ps != [] && IsSpace(ps[0][0]) == IsSpace(s[0]) then
        RunsMerge(s[0], ps);
        [[s[0]] + ps[0]] + ps[1..]
      else
        RunsNew(s[0], ps);
        [[s[0]]] + ps
  }

  lemma RunsMerge(c: char, ps: seq<string>)
    requires MaximalRuns(ps) && ps != [] && IsSpace(ps[0][0]) == IsSpace(c)
    ensures var r := [[c] + ps[0]] + ps[1..];
      MaximalRuns(r) && Concat(r) == [c] + Concat(ps)
  {
    var r := [[c] + ps[0]] + ps[1..];
    assert r[1..] == ps[1..] && r[0][0] == c;
    assert Uniform(r[0]) by {
      assert forall i :: 1 <= i < |r[0]| ==> r[0][i] == ps[0][i - 1];
    }
    assert forall k :: 1 <= k < |r| ==> r[k] == ps[k];
    ConcatAssoc([c], ps[0], Concat(ps[1..]));
  }

  lemma RunsNew(c: char, ps: seq<string>)
    requires MaximalRuns(ps) && (ps == [] || IsSpace(ps[0][0]) != IsSpace(c))
    ensures var r := [[c]] + ps;
      MaximalRuns(r) && Concat(r) == [c] + Concat(ps)
  {
    var r := [[c]] + ps;
    assert r[1..] == ps;
    assert forall k :: 1 <= k < |r| ==> r[k] == ps[k - 1];
  }

  /** One step of the collapse scan past a character that starts no whitespace run. */
  lemma CollapseKeeps(s: string)
    requires s != [] && !(|s| >= 2 && IsSpace(s[0]) && IsSpace(s[1]))
    ensures Collapse(s) == [s[0]] + Collapse(s[1..])
  {
  }

  /** Non-whitespace characters pass the collapse step unchanged. */
  lemma {:induction false} CollapseWord(w: string, t: string)
    requires forall i :: 0 <= i < |w| ==> !IsSpace(w[i])
    ensures Collapse(w + t) == w + Collapse(t)
    decreases |w|
  {
    if w == [] {
      assert w + t == t;
    } else {
      WordStep(w, t);
      CollapseWord(w[1..], t);
      ConsConcat(w, Collapse(t));
    }
  }

  /** One character of `CollapseWord`. */
  lemma WordStep(w: string, t: string)
    requires w != [] && forall i :: 0 <= i < |w| ==> !IsSpace(w[i])
    ensures Collapse(w + t) == [w[0]] + Collapse(w[1..] + t)
    ensures forall i :: 0 <= i < |w| - 1 ==> !IsSpace(w[1..][i])
  {
    var s := w + t;
    assert s[0] == w[0] && s[1..] == w[1..] + t;
    assert !IsSpace(w[0]);
    CollapseKeeps(s);
  }

  lemma {:induction false} TrimStartPadded(g: string, t: string)
    requires AllIn(g, Whitespace) && (t == [] || !IsSpace(t[0]))
    ensures TrimStartOf(g + t, Whitespace) == t
    decreases |g|
  {
    if g != [] {
      assert (g + t)[0] == g[0] && (g + t)[1..] == g[1..] + t;
      TrimStartPadded(g[1..], t);
    } else {
      assert g + t == t;
    }
  }

  /** A whitespace run followed by a non-whitespace character shrinks as `Shrink` says. */
  lemma CollapseGap(g: string, t: string)
    requires g != [] && AllIn(g, Whitespace) && (t == [] || !IsSpace(t[0]))
    ensures Collapse(g + t) == Shrink(g) + Collapse(t)
  {
    var s := g + t;
    if |g| >= 2 {
      assert IsSpace(s[0]) && IsSpace(s[1]);
      TrimStartPadded(g, t);
    } else {
      assert s[0] == g[0] && s[1..] == t;
      assert |s| >= 2 ==> s[1] == t[0];
    }
  }

  /** The collapse step on any cut into maximal runs: every word and every single
      whitespace character stays, and each longer whitespace run becomes one space. */
  lemma {:induction false} CollapseRuns(ps: seq<string>)
    requires MaximalRuns(ps)
    ensures Collapse(Concat(ps)) == ShrinkAll(ps)
    decreases |ps|
  {
    if ps != [] {
      var p, rest := ps[0], ps[1..];
      assert MaximalRuns(rest) by {
        assert forall k :: 0 <= k < |rest| ==> rest[k] == ps[k + 1];
      }
      var t := Concat(rest);
      if rest != [] {
        assert t[0] == rest[0][0];
        assert IsSpace(t[0]) != IsSpace(p[0]) by { assert rest[0] == ps[1]; }
      }
      if IsSpace(p[0]) {
        CollapseGap(p, t);
      } else {
        CollapseWord(p, t);
      }
      CollapseRuns(rest);
    }
  }

  /** Every text has such a cut, so the step is pinned down on every input. */
  lemma CollapseSpec(s: string)
    ensures Collapse(s) == ShrinkAll(Runs(s))
  {
    CollapseRuns(Runs(s));
  }

  /** `clean_assistant_response`. */
  function Clean(response: string): (r: Option<string>)
    ensures r.Some? ==> r.value != [] && NoEscapedNewline(r.value) && NoDoubleSpace(r.value)
    ensures r.None? <==> Trim(DropBash(Extract(response))) == []
  {
    var command := Trim(DropBash(Extract(response)));
    var c := Collapse(UnescapeNewlines(command));
    if c == [] then None else Some(c)
  }

  /** What the cleaned command contains: the text left after the fence or backtick
      step, the bash step and the trim, with each backslash-n turned into a space (the
      pieces of `split("\\n")` joined by spaces) and then each whitespace run of two or
      more shrunk to one space. */
  lemma CleanSpec(response: string)
    ensures var command := Trim(DropBash(Extract(response)));
      Clean(response) ==
        if command == [] then None
        else Some(ShrinkAll(Runs(Join(SplitEscapes(command), " "))))
  {
    var command := Trim(DropBash(Extract(response)));
    UnescapeSpec(command);
    CollapseSpec(UnescapeNewlines(command));
  }

  /** Step one of the pipeline: the fenced block, or the backtick-trimmed reply. */
  function Extract(response: string): string {
    match FirstFencedBlock(response)
    case Some(block) => block
    case None => Trim(DropBackticks(response))
  }

  /** A reply that is already one clean command comes back unchanged. */
  lemma CleanPlainCommand(c: string)
    requires c != [] && !IsSpace(c[0]) && !IsSpace(c[|c| - 1]) && '`' !in c
    requires NoEscapedNewline(c) && NoDoubleSpace(c)
    requires !(|c| > 4 && c[..4] == "bash" && IsSpace(c[4]))
    ensures Clean(c) == Some(c)
  {
    assert FindFence(c, 0).None? by {
      forall k | 0 <= k ensures !FenceAt(c, k) {
        if k + 3 <= |c| {
          assert c[k] in c;
          assert c[k..k + 3][0] != Fence[0];
        }
      }
    }
    assert DropBackticks(c) == c;
    TrimFixed(c);
  }

  lemma TrimFixed(c: string)
    requires c != [] && !IsSpace(c[0]) && !IsSpace(c[|c| - 1])
    ensures Trim(c) == c
  {
  }
}
