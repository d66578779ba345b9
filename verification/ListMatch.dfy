/** The LIST wildcard matcher (internal/listmatch.go): a dynamic programme over
    the mailbox name, held against the splits of the name it stands for. */
module ListMatch {
  import opened Prelude

  /** A step of a pattern: a literal byte, or a run of wildcards, which is one
      "*" if it holds any and else one "%". */
  datatype Token = Lit(c: byte) | Wild(star: bool)

  predicate IsWild(c: byte) {
    c == STAR || c == PERCENT
  }

  function RunLength(pattern: bytes): (n: nat)
    ensures n <= |pattern|
    ensures forall i :: 0 <= i < n ==> IsWild(pattern[i])
    ensures n < |pattern| ==> !IsWild(pattern[n])
  {
    if pattern == [] || !IsWild(pattern[0]) then 0 else 1 + RunLength(pattern[1..])
  }

  /** The pattern with every run of wildcards collapsed. */
  ghost function Tokens(pattern: bytes): seq<Token>
    decreases |pattern|
  {
    if pattern == [] then
      []
    else if !IsWild(pattern[0]) then
      [Lit(pattern[0])] + Tokens(pattern[1..])
    else
      var n := RunLength(pattern);
      [Wild(STAR in pattern[..n])] + Tokens(pattern[n..])
  }

  /** The pattern byte by byte. */
  ghost function RawTokens(pattern: bytes): seq<Token> {
    seq(|pattern|, i requires 0 <= i < |pattern| =>
      if IsWild(pattern[i]) then Wild(pattern[i] == STAR) else Lit(pattern[i]))
  }

  // ---------------------------------------------------------------------
  // What a pattern matches
  // ---------------------------------------------------------------------

  ghost predicate OccursAt(delim: bytes, s: bytes, i: nat) {
    i + |delim| <= |s| && s[i..i + |delim|] == delim
  }

  /** The hierarchy delimiter does not occur; an empty one never does. */
  ghost predicate DelimFree(delim: bytes, s: bytes) {
    delim == [] || forall i: nat :: !OccursAt(delim, s, i)
  }

  ghost predicate Accepts(t: Token, delim: bytes, part: bytes) {
    match t
    case Lit(c) => part == [c]
    case Wild(star) => star || DelimFree(delim, part)
  }

  ghost function Flatten(parts: seq<bytes>): bytes {
    if parts == [] then [] else Flatten(parts[..|parts| - 1]) + parts[|parts| - 1]
  }

  /** `parts` cuts `name` so that each token accepts its part. */
  ghost predicate Cuts(tokens: seq<Token>, delim: bytes, name: bytes, parts: seq<bytes>) {
    && |parts| == |tokens|
    && Flatten(parts) == name
    && forall i :: 0 <= i < |tokens| ==> Accepts(tokens[i], delim, parts[i])
  }

  ghost predicate Matches(tokens: seq<Token>, delim: bytes, name: bytes) {
    exists parts :: Cuts(tokens, delim, name, parts)
  }

  // ---------------------------------------------------------------------
  // The same, token by token from the end
  // ---------------------------------------------------------------------

  ghost predicate Reach(tokens: seq<Token>, delim: bytes, s: bytes) {
    if tokens == [] then
      s == []
    else
      var n := |tokens| - 1;
      exists k :: 0 <= k <= |s| && Reach(tokens[..n], delim, s[..k]) && Accepts(tokens[n], delim, s[k..])
  }

  lemma {:induction false} CutsReach(tokens: seq<Token>, delim: bytes, name: bytes, parts: seq<bytes>)
    requires Cuts(tokens, delim, name, parts)
    ensures Reach(tokens, delim, name)
    decreases |tokens|
  {
    if tokens != [] {
      var n := |tokens| - 1;
      var front := Flatten(parts[..n]);
      CutsReach(tokens[..n], delim, front, parts[..n]);
      assert name[..|front|] == front && name[|front|..] == parts[n];
    }
  }

  lemma {:induction false} ReachCuts(tokens: seq<Token>, delim: bytes, name: bytes) returns (parts: seq<bytes>)
    requires Reach(tokens, delim, name)
    ensures Cuts(tokens, delim, name, parts)
    decreases |tokens|
  {
    parts := [];
    if tokens != [] {
      var n := |tokens| - 1;
      var k :| 0 <= k <= |name| && Reach(tokens[..n], delim, name[..k]) && Accepts(tokens[n], delim, name[k..]);
      var front := ReachCuts(tokens[..n], delim, name[..k]);
      parts := front + [name[k..]];
      assert parts[..n] == front && name == name[..k] + name[k..];
      forall i | 0 <= i < |tokens| ensures Accepts(tokens[i], delim, parts[i]) {
        assert i < n ==> Accepts(tokens[..n][i], delim, front[i]);
      }
    }
  }

  lemma ReachIsMatches(tokens: seq<Token>, delim: bytes, name: bytes)
    ensures Reach(tokens, delim, name) <==> Matches(tokens, delim, name)
  {
    if Reach(tokens, delim, name) {
      var parts := ReachCuts(tokens, delim, name);
    }
    if Matches(tokens, delim, name) {
      var parts :| Cuts(tokens, delim, name, parts);
      CutsReach(tokens, delim, name, parts);
    }
  }

  /** The part of the name up to some k is matched by `a`, the rest by `b`. */
  ghost predicate ReachAcross(a: seq<Token>, b: seq<Token>, delim: bytes, s: bytes, k: int) {
    0 <= k <= |s| && Reach(a, delim, s[..k]) && Reach(b, delim, s[k..])
  }

  lemma ReachSnoc(tokens: seq<Token>, t: Token, delim: bytes, s: bytes, m: nat)
    requires m <= |s| && Reach(tokens, delim, s[..m]) && Accepts(t, delim, s[m..])
    ensures Reach(tokens + [t], delim, s)
  {
    assert (tokens + [t])[..|tokens|] == tokens;
  }

  lemma ReachLast(tokens: seq<Token>, t: Token, delim: bytes, s: bytes) returns (m: nat)
    requires Reach(tokens + [t], delim, s)
    ensures m <= |s| && Reach(tokens, delim, s[..m]) && Accepts(t, delim, s[m..])
  {
    var all, n := tokens + [t], |tokens|;
    assert all[..n] == tokens && all[n] == t;
    m :| 0 <= m <= |s| && Reach(all[..n], delim, s[..m]) && Accepts(all[n], delim, s[m..]);
  }

  lemma CutTwice(s: bytes, k: nat, m: nat)
    requires k <= m <= |s|
    ensures s[..m][..k] == s[..k] && s[..m][k..] == s[k..][..m - k] && s[k..][m - k..] == s[m..]
  {
  }

  lemma {:induction false} ReachSplit(a: seq<Token>, b: seq<Token>, delim: bytes, s: bytes) returns (k: nat)
    requires Reach(a + b, delim, s)
    ensures ReachAcross(a, b, delim, s, k)
    decreases |b|
  {
    if b == [] {
      k := |s|;
      assert a + b == a && s[..|s|] == s;
    } else {
      var c, t := b[..|b| - 1], b[|b| - 1];
      assert a + b == a + c + [t] && b == c + [t];
      var m := ReachLast(a + c, t, delim, s);
      k := ReachSplit(a, c, delim, s[..m]);
      CutTwice(s, k, m);
      ReachSnoc(c, t, delim, s[k..], m - k);
    }
  }

  lemma {:induction false} ReachGlue(a: seq<Token>, b: seq<Token>, delim: bytes, s: bytes, k: nat)
    requires ReachAcross(a, b, delim, s, k)
    ensures Reach(a + b, delim, s)
    decreases |b|
  {
    if b == [] {
      assert a + b == a && s[..k] == s;
    } else {
      var c, t := b[..|b| - 1], b[|b| - 1];
      assert a + b == a + c + [t] && b == c + [t];
      var m := ReachLast(c, t, delim, s[k..]);
      m := k + m;
      CutTwice(s, k, m);
      ReachGlue(a, c, delim, s[..m], k);
      ReachSnoc(a + c, t, delim, s, m);
    }
  }

  lemma ReachConcat(a: seq<Token>, b: seq<Token>, delim: bytes, s: bytes)
    ensures Reach(a + b, delim, s) <==> exists k :: ReachAcross(a, b, delim, s, k)
  {
    if Reach(a + b, delim, s) {
      var k := ReachSplit(a, b, delim, s);
    }
    forall k | ReachAcross(a, b, delim, s, k) ensures Reach(a + b, delim, s) {
      ReachGlue(a, b, delim, s, k);
    }
  }

  lemma ReachOne(t: Token, delim: bytes, s: bytes)
    ensures Reach([t], delim, s) <==> Accepts(t, delim, s)
  {
    assert [t][..0] == [];
    if Accepts(t, delim, s) {
      assert s[..0] == [] && s[0..] == s;
    }
    if Reach([t], delim, s) {
      var k :| 0 <= k <= |s| && Reach([t][..0], delim, s[..k]) && Accepts([t][0], delim, s[k..]);
      assert k == 0 && s[0..] == s;
    }
  }

  // ---------------------------------------------------------------------
  // Runs of wildcards
  // ---------------------------------------------------------------------

  lemma OneByteFreeConcat(d: byte, a: bytes, b: bytes)
    ensures DelimFree([d], a + b) <==> DelimFree([d], a) && DelimFree([d], b)
  {
    forall s: bytes ensures DelimFree([d], s) <==> d !in s {
      forall i: nat | i < |s| ensures OccursAt([d], s, i) <==> s[i] == d {
        assert s[i..i + 1] == [s[i]];
      }
    }
  }

  /** With a delimiter of at most one byte, a run of wildcards matches what its
      collapsed form matches. */
  lemma {:induction false} RunCollapses(run: bytes, delim: bytes, s: bytes)
    requires |delim| <= 1 && run != [] && forall i :: 0 <= i < |run| ==> IsWild(run[i])
    ensures Reach(RawTokens(run), delim, s) <==> Accepts(Wild(STAR in run), delim, s)
    decreases |run|
  {
    var n := |run| - 1;
    var t := Wild(run[n] == STAR);
    if n == 0 {
      assert RawTokens(run) == [t];
      ReachOne(t, delim, s);
    } else {
      var front := run[..n];
      assert RawTokens(run) == RawTokens(front) + [t];
      assert RawTokens(run)[..n] == RawTokens(front);
      assert STAR in run <==> STAR in front || run[n] == STAR by {
        assert run == front + [run[n]];
      }
      forall k | 0 <= k <= |s|
        ensures Reach(RawTokens(front), delim, s[..k]) <==> Accepts(Wild(STAR in front), delim, s[..k])
      {
        RunCollapses(front, delim, s[..k]);
      }
      forall k | 0 <= k <= |s| ensures DelimFree(delim, s[..k]) && DelimFree(delim, s[k..]) <==> DelimFree(delim, s) {
        assert s == s[..k] + s[k..];
        if delim != [] {
          assert delim == [delim[0]];
          OneByteFreeConcat(delim[0], s[..k], s[k..]);
        }
      }
      EmptyFree(delim);
      assert s[..|s|] == s && s[|s|..] == [] && s[..0] == [] && s[0..] == s;
      assert Reach(RawTokens(run), delim, s) <==>
        exists k :: 0 <= k <= |s| && Reach(RawTokens(front), delim, s[..k]) && Accepts(t, delim, s[k..]);
    }
  }

  lemma EmptyFree(delim: bytes)
    ensures DelimFree(delim, [])
  {
  }

  lemma RawConcat(a: bytes, b: bytes)
    ensures RawTokens(a + b) == RawTokens(a) + RawTokens(b)
  {
  }

  /** The first step of a pattern: a literal, or a whole run of wildcards. */
  ghost function FirstToken(head: bytes): Token
    requires head != []
  {
    if IsWild(head[0]) then Wild(STAR in head) else Lit(head[0])
  }

  lemma FirstCollapses(head: bytes, delim: bytes, s: bytes)
    requires |delim| <= 1 && head != []
    requires if IsWild(head[0]) then forall i :: 0 <= i < |head| ==> IsWild(head[i]) else |head| == 1
    ensures Reach([FirstToken(head)], delim, s) <==> Reach(RawTokens(head), delim, s)
  {
    ReachOne(FirstToken(head), delim, s);
    if IsWild(head[0]) {
      RunCollapses(head, delim, s);
    } else {
      assert RawTokens(head) == [FirstToken(head)];
    }
  }

  lemma TokensFirst(pattern: bytes, n: nat)
    requires pattern != [] && n == if IsWild(pattern[0]) then RunLength(pattern) else 1
    ensures 0 < n <= |pattern| && Tokens(pattern) == [FirstToken(pattern[..n])] + Tokens(pattern[n..])
  {
  }

  /** With a delimiter of at most one byte, collapsing runs changes nothing. */
  lemma {:induction false} CollapseSound(pattern: bytes, delim: bytes, s: bytes)
    requires |delim| <= 1
    ensures Reach(Tokens(pattern), delim, s) <==> Reach(RawTokens(pattern), delim, s)
    decreases |pattern|
  {
    if pattern == [] {
      assert RawTokens(pattern) == [];
    } else {
      var n := if IsWild(pattern[0]) then RunLength(pattern) else 1;
      TokensFirst(pattern, n);
      var head, rest := pattern[..n], pattern[n..];
      var a, b := [FirstToken(head)], RawTokens(head);
      assert pattern == head + rest;
      RawConcat(head, rest);
      ReachConcat(a, Tokens(rest), delim, s);
      ReachConcat(b, RawTokens(rest), delim, s);
      forall k | 0 <= k <= |s|
        ensures ReachAcross(a, Tokens(rest), delim, s, k) <==> ReachAcross(b, RawTokens(rest), delim, s, k)
      {
        CollapseSound(rest, delim, s[k..]);
        FirstCollapses(head, delim, s[..k]);
      }
    }
  }

  /** Collapsing is faithful for every pattern and name exactly when the
      delimiter has at most one byte. */
  lemma CollapseExact(delim: bytes)
    ensures |delim| <= 1 <==>
            forall pattern: bytes, name: bytes ::
              Matches(Tokens(pattern), delim, name) <==> Matches(RawTokens(pattern), delim, name)
  {
    if |delim| <= 1 {
      forall pattern: bytes, name: bytes
        ensures Matches(Tokens(pattern), delim, name) <==> Matches(RawTokens(pattern), delim, name)
      {
        CollapseSound(pattern, delim, name);
        ReachIsMatches(Tokens(pattern), delim, name);
        ReachIsMatches(RawTokens(pattern), delim, name);
      }
    } else {
      WideDelimiter(delim);
    }
  }

  /** "%%" takes a wide delimiter apart: its two wildcards hold half each. */
  lemma WideDelimiter(delim: bytes)
    requires |delim| >= 2
    ensures !Matches(Tokens([PERCENT, PERCENT]), delim, delim)
    ensures Matches(RawTokens([PERCENT, PERCENT]), delim, delim)
  {
    var p: bytes := [PERCENT, PERCENT];
    assert RunLength(p) == 2 && p[..2] == p && p[2..] == [];
    assert Tokens(p) == [Wild(false)];
    ReachIsMatches(Tokens(p), delim, delim);
    ReachOne(Wild(false), delim, delim);
    assert OccursAt(delim, delim, 0);
    var parts: seq<bytes> := [delim[..1], delim[1..]];
    assert parts[..1] == [delim[..1]] && parts[..1][..0] == [];
    assert Flatten(parts[..1]) == delim[..1];
    assert delim == delim[..1] + delim[1..];
    assert Cuts(RawTokens(p), delim, delim, parts);
  }

  // ---------------------------------------------------------------------
  // The number of steps
  // ---------------------------------------------------------------------

  ghost function Literals(pattern: bytes): nat {
    if pattern == [] then 0 else Literals(pattern[..|pattern| - 1]) + (if IsWild(pattern[|pattern| - 1]) then 0 else 1)
  }

  ghost function LitCount(tokens: seq<Token>): nat {
    if tokens == [] then 0 else (if tokens[0].Lit? then 1 else 0) + LitCount(tokens[1..])
  }

  lemma {:induction false} LiteralsConcat(a: bytes, b: bytes)
    ensures Literals(a + b) == Literals(a) + Literals(b)
    decreases |b|
  {
    if b == [] {
      assert a + b == a;
    } else {
      LiteralsConcat(a, b[..|b| - 1]);
      assert (a + b)[..|a + b| - 1] == a + b[..|b| - 1];
    }
  }

  lemma {:induction false} WildLiterals(run: bytes)
    requires forall i :: 0 <= i < |run| ==> IsWild(run[i])
    ensures Literals(run) == 0
  {
    if run != [] {
      WildLiterals(run[..|run| - 1]);
    }
  }

  /** Between two runs of wildcards there is a literal, so there are few runs. */
  lemma {:induction false} TokenBound(pattern: bytes)
    ensures LitCount(Tokens(pattern)) == Literals(pattern)
    ensures |Tokens(pattern)| <= 2 * Literals(pattern) + (if pattern != [] && IsWild(pattern[0]) then 1 else 0)
    decreases |pattern|
  {
    if pattern != [] {
      var n := if IsWild(pattern[0]) then RunLength(pattern) else 1;
      assert pattern == pattern[..n] + pattern[n..];
      LiteralsConcat(pattern[..n], pattern[n..]);
      TokenBound(pattern[n..]);
      if IsWild(pattern[0]) {
        WildLiterals(pattern[..n]);
      } else {
        assert pattern[..1] == [pattern[0]];
        assert Literals(pattern[..1]) == Literals(pattern[..1][..0]) + 1;
      }
    }
  }

  // ---------------------------------------------------------------------
  // The dynamic programme
  // ---------------------------------------------------------------------

  /** row[j] says whether the tokens consumed so far match name[..j]. */
  ghost predicate Row(row: seq<bool>, tokens: seq<Token>, delim: bytes, name: bytes) {
    && |row| == |name| + 1
    && forall j :: 0 <= j <= |name| ==> (row[j] <==> Reach(tokens, delim, name[..j]))
  }

  lemma LiteralStep(tokens: seq<Token>, c: byte, delim: bytes, name: bytes, j: nat)
    requires j <= |name|
    ensures Reach(tokens + [Lit(c)], delim, name[..j]) <==>
            j > 0 && Reach(tokens, delim, name[..j - 1]) && name[j - 1] == c
  {
    var more := tokens + [Lit(c)];
    var n := |tokens|;
    assert more[..n] == tokens && more[n] == Lit(c);
    forall k | 0 <= k <= j ensures name[..j][k..] == [c] <==> k == j - 1 && name[k] == c {
      assert k == j - 1 ==> name[..j][k..] == [name[k]];
    }
    forall k | 0 <= k <= j ensures name[..j][..k] == name[..k] {
    }
    if j > 0 && Reach(tokens, delim, name[..j - 1]) && name[j - 1] == c {
      assert Reach(more[..n], delim, name[..j][..j - 1]) && Accepts(more[n], delim, name[..j][j - 1..]);
    }
  }

  /** The wildcard may stretch from some position the row marks up to j. */
  ghost predicate Absorbs(row: seq<bool>, star: bool, delim: bytes, name: bytes, j: nat)
    requires |row| == |name| + 1 && j <= |name|
  {
    exists k :: 0 <= k <= j && row[k] && (star || DelimFree(delim, name[k..j]))
  }

  lemma WildStep(row: seq<bool>, tokens: seq<Token>, star: bool, delim: bytes, name: bytes, j: nat)
    requires Row(row, tokens, delim, name) && j <= |name|
    ensures Reach(tokens + [Wild(star)], delim, name[..j]) <==> Absorbs(row, star, delim, name, j)
  {
    var more := tokens + [Wild(star)];
    var n := |tokens|;
    assert more[..n] == tokens && more[n] == Wild(star);
    forall k | 0 <= k <= j ensures name[..j][..k] == name[..k] && name[..j][k..] == name[k..j] {
    }
    assert Reach(more, delim, name[..j]) <==>
      exists k :: 0 <= k <= j && Reach(more[..n], delim, name[..j][..k]) && Accepts(more[n], delim, name[..j][k..]);
  }

  /** A delimiter ends at j. */
  predicate EndsAt(delim: bytes, name: bytes, j: nat)
    requires j <= |name|
  {
    j >= |delim| > 0 && name[j - |delim|..j] == delim
  }

  lemma SubSlice(name: bytes, k: nat, j: nat, i: nat, d: nat)
    requires k <= j <= |name| && i + d <= j - k
    ensures name[k..j][i..i + d] == name[k + i..k + i + d]
  {
    var a, b := name[k..j][i..i + d], name[k + i..k + i + d];
    assert forall x :: 0 <= x < d ==> a[x] == b[x];
  }

  lemma FreeUpTo(delim: bytes, name: bytes, k: nat, j: nat)
    requires k <= j <= |name| && delim != []
    ensures EndsAt(delim, name, j) ==> (DelimFree(delim, name[k..j]) <==> j - |delim| < k)
    ensures k < j && !EndsAt(delim, name, j) ==> (DelimFree(delim, name[k..j]) <==> DelimFree(delim, name[k..j - 1]))
  {
    var s := name[k..j];
    if EndsAt(delim, name, j) && k <= j - |delim| {
      assert s[j - |delim| - k..j - |delim| - k + |delim|] == name[j - |delim|..j];
      assert OccursAt(delim, s, j - |delim| - k);
    }
    if k < j && !EndsAt(delim, name, j) {
      var t := name[k..j - 1];
      forall i: nat | i + |delim| <= |s| ensures OccursAt(delim, s, i) <==> OccursAt(delim, t, i) {
        SubSlice(name, k, j, i, |delim|);
        if i + |delim| <= |t| {
          SubSlice(name, k, j - 1, i, |delim|);
        }
      }
    }
  }

  lemma AbsorbsStep(row: seq<bool>, star: bool, delim: bytes, name: bytes, j: nat)
    requires |row| == |name| + 1 && j <= |name|
    ensures if !star && EndsAt(delim, name, j)
            then Absorbs(row, star, delim, name, j) <==> exists k :: j - |delim| < k <= j && row[k]
            else Absorbs(row, star, delim, name, j) <==> (j > 0 && Absorbs(row, star, delim, name, j - 1)) || row[j]
  {
    if !star && delim != [] {
      forall k | 0 <= k <= j
        ensures EndsAt(delim, name, j) ==> (DelimFree(delim, name[k..j]) <==> j - |delim| < k)
        ensures k < j && !EndsAt(delim, name, j) ==>
                  (DelimFree(delim, name[k..j]) <==> DelimFree(delim, name[k..j - 1]))
      {
        FreeUpTo(delim, name, k, j);
      }
    }
    assert name[j..j] == [];
    EmptyFree(delim);
    assert row[j] ==> Absorbs(row, star, delim, name, j);
  }

  method LiteralRow(reach: array<bool>, next: array<bool>, name: bytes, c: byte,
                    ghost tokens: seq<Token>, ghost delim: bytes)
    requires reach != next && reach.Length == next.Length == |name| + 1
    requires Row(reach[..], tokens, delim, name)
    modifies next
    ensures Row(next[..], tokens + [Lit(c)], delim, name)
  {
    var n := |name|;
    next[0] := false;
    for j := 1 to n + 1
      invariant !next[0]
      invariant forall i :: 1 <= i < j ==> (next[i] <==> reach[i - 1] && name[i - 1] == c)
    {
      next[j] := reach[j - 1] && name[j - 1] == c;
    }
    forall j | 0 <= j <= n ensures next[..][j] <==> Reach(tokens + [Lit(c)], delim, name[..j]) {
      LiteralStep(tokens, c, delim, name, j);
      assert j > 0 ==> reach[..][j - 1] == reach[j - 1];
    }
  }

  /** The running OR of a wildcard, started over where a delimiter ends. */
  method WildRow(reach: array<bool>, next: array<bool>, name: bytes, delim: bytes, star: bool, ghost tokens: seq<Token>)
    requires reach != next && reach.Length == next.Length == |name| + 1
    requires Row(reach[..], tokens, delim, name)
    modifies next
    ensures Row(next[..], tokens + [Wild(star)], delim, name)
  {
    var n := |name|;
    ghost var row := reach[..];
    var acc := false;
    for j := 0 to n + 1
      invariant reach[..] == row
      invariant acc <==> j > 0 && Absorbs(row, star, delim, name, j - 1)
      invariant forall i :: 0 <= i < j ==> (next[i] <==> Absorbs(row, star, delim, name, i))
    {
      AbsorbsStep(row, star, delim, name, j);
      if !star && j >= |delim| && |delim| > 0 && name[j - |delim|..j] == delim {
        acc := false;
        for k := j - |delim| + 1 to j
          invariant acc <==> exists i :: j - |delim| < i < k && row[i]
        {
          assert reach[k] == row[k];
          acc := acc || reach[k];
        }
      }
      assert reach[j] == row[j];
      acc := acc || reach[j];
      next[j] := acc;
    }
    forall j | 0 <= j <= n ensures next[..][j] <==> Reach(tokens + [Wild(star)], delim, name[..j]) {
      WildStep(row, tokens, star, delim, name, j);
    }
  }

  method AnyTrue(s: array<bool>) returns (r: bool)
    ensures r <==> exists i :: 0 <= i < s.Length && s[i]
  {
    for i := 0 to s.Length
      invariant forall k :: 0 <= k < i ==> !s[k]
    {
      if s[i] {
        return true;
      }
    }
    r := false;
  }

  method CountLiterals(pattern: bytes) returns (n: nat)
    ensures n == Literals(pattern) <= |pattern|
  {
    n := 0;
    for i := 0 to |pattern|
      invariant n == Literals(pattern[..i]) <= i
    {
      assert pattern[..i + 1][..i] == pattern[..i];
      if pattern[i] != STAR && pattern[i] != PERCENT {
        n := n + 1;
      }
    }
    assert pattern[..|pattern|] == pattern;
  }

  /** A match spends at least one byte on every literal. */
  lemma {:induction false} ReachLength(tokens: seq<Token>, delim: bytes, s: bytes)
    requires Reach(tokens, delim, s)
    ensures LitCount(tokens) <= |s|
    decreases |tokens|
  {
    if tokens != [] {
      var n := |tokens| - 1;
      var k :| 0 <= k <= |s| && Reach(tokens[..n], delim, s[..k]) && Accepts(tokens[n], delim, s[k..]);
      ReachLength(tokens[..n], delim, s[..k]);
      LitCountSnoc(tokens[..n], tokens[n]);
      assert tokens == tokens[..n] + [tokens[n]];
    }
  }

  lemma {:induction false} LitCountSnoc(tokens: seq<Token>, t: Token)
    ensures LitCount(tokens + [t]) == LitCount(tokens) + (if t.Lit? then 1 else 0)
    decreases |tokens|
  {
    if tokens == [] {
      assert [t][1..] == [];
    } else {
      LitCountSnoc(tokens[1..], t);
      assert (tokens + [t])[1..] == tokens[1..] + [t];
    }
  }

  /** Every prefix of the tokens matches some prefix of the name. */
  lemma ReachPrefix(a: seq<Token>, b: seq<Token>, delim: bytes, s: bytes)
    requires Reach(a + b, delim, s)
    ensures exists k :: 0 <= k <= |s| && Reach(a, delim, s[..k])
  {
    ReachConcat(a, b, delim, s);
    var k :| ReachAcross(a, b, delim, s, k);
  }

  lemma {:induction false} AllLiterals(pattern: bytes, delim: bytes, name: bytes)
    requires Literals(pattern) == |pattern|
    ensures Reach(Tokens(pattern), delim, name) <==> name == pattern
    decreases |pattern|
  {
    if pattern != [] {
      var rest := pattern[1..];
      FirstLiteral(pattern);
      var t := Lit(pattern[0]);
      ReachConcat([t], Tokens(rest), delim, name);
      forall k | 0 <= k <= |name|
        ensures ReachAcross([t], Tokens(rest), delim, name, k) <==> name[..k] == [pattern[0]] && name[k..] == rest
      {
        ReachOne(t, delim, name[..k]);
        AllLiterals(rest, delim, name[k..]);
      }
      if name == pattern {
        assert name[..1] == [pattern[0]] && name[1..] == rest;
        assert ReachAcross([t], Tokens(rest), delim, name, 1);
      }
      forall k | ReachAcross([t], Tokens(rest), delim, name, k) ensures name == pattern {
        Rejoined(name, k, pattern);
      }
    }
  }

  lemma Rejoined(name: bytes, k: nat, pattern: bytes)
    requires k <= |name| && pattern != [] && name[..k] == [pattern[0]] && name[k..] == pattern[1..]
    ensures name == pattern
  {
    assert name == name[..k] + name[k..] && pattern == [pattern[0]] + pattern[1..];
  }

  lemma FirstLiteral(pattern: bytes)
    requires pattern != [] && Literals(pattern) == |pattern|
    ensures !IsWild(pattern[0]) && Literals(pattern[1..]) == |pattern| - 1
  {
    var first, rest := pattern[..1], pattern[1..];
    assert pattern == first + rest && first[..0] == [];
    LiteralsConcat(first, rest);
    LiteralsAtMost(rest);
    LiteralsAtMost(first);
  }

  lemma {:induction false} LiteralsAtMost(pattern: bytes)
    ensures Literals(pattern) <= |pattern|
  {
    if pattern != [] {
      LiteralsAtMost(pattern[..|pattern| - 1]);
    }
  }

  /** The matcher: true exactly when the name can be cut as the pattern asks,
      in a number of outer steps that depends on the name only. */
  method MatchName(name: bytes, delim: bytes, pattern: bytes) returns (r: bool, ghost steps: nat)
    ensures r <==> Matches(Tokens(pattern), delim, name)
    ensures steps <= 2 * |name| + 1
  {
    steps := 0;
    ghost var tokens := Tokens(pattern);
    ReachIsMatches(tokens, delim, name);
    TokenBound(pattern);
    var literals := CountLiterals(pattern);
    if literals > |name| {
      if Reach(tokens, delim, name) {
        ReachLength(tokens, delim, name);
      }
      return false, steps;
    }
    if literals == |pattern| {
      AllLiterals(pattern, delim, name);
      return name == pattern, steps;
    }
    r, steps := RunRows(name, delim, pattern);
  }

  method ScanRun(pattern: bytes, i0: nat) returns (i: nat, star: bool)
    requires i0 < |pattern| && IsWild(pattern[i0])
    ensures i0 <= i < |pattern| && i + 1 - i0 == RunLength(pattern[i0..])
    ensures star <==> STAR in pattern[i0..i + 1]
  {
    i, star := i0, pattern[i0] == STAR;
    while i + 1 < |pattern| && (pattern[i + 1] == STAR || pattern[i + 1] == PERCENT)
      invariant i0 <= i < |pattern|
      invariant forall k :: i0 <= k <= i ==> IsWild(pattern[k])
      invariant star <==> STAR in pattern[i0..i + 1]
    {
      i := i + 1;
      assert pattern[i0..i + 1] == pattern[i0..i] + [pattern[i]];
      star := star || pattern[i] == STAR;
    }
    RunEnds(pattern, i0, i);
  }

  /** The token that starts at i, and how many bytes it spans. */
  ghost function TokenAt(pattern: bytes, i: nat): Token
    requires i < |pattern|
  {
    if IsWild(pattern[i]) then Wild(STAR in pattern[i..i + SizeAt(pattern, i)]) else Lit(pattern[i])
  }

  ghost function SizeAt(pattern: bytes, i: nat): (n: nat)
    requires i < |pattern|
    ensures i + n <= |pattern|
  {
    if IsWild(pattern[i]) then RunLength(pattern[i..]) else 1
  }

  /** One round: the row for one more token. `i` ends on its last byte. */
  method NextRow(reach: array<bool>, next: array<bool>, name: bytes, delim: bytes, pattern: bytes, i0: nat,
                 ghost tokens: seq<Token>) returns (i: nat)
    requires reach != next && reach.Length == next.Length == |name| + 1
    requires i0 < |pattern| && Row(reach[..], tokens, delim, name)
    modifies next
    ensures i0 <= i < |pattern| && i + 1 == i0 + SizeAt(pattern, i0)
    ensures Row(next[..], tokens + [TokenAt(pattern, i0)], delim, name)
  {
    i := i0;
    var c := pattern[i];
    if c != STAR && c != PERCENT {
      LiteralRow(reach, next, name, c, tokens, delim);
    } else {
      var star;
      i, star := ScanRun(pattern, i);
      WildRow(reach, next, name, delim, star, tokens);
    }
  }

  /** The row is that of the first tokens, and the pattern from i on gives the rest. */
  ghost predicate Running(row: seq<bool>, pattern: bytes, i: nat, steps: nat, delim: bytes, name: bytes) {
    var tokens := Tokens(pattern);
    && i <= |pattern| && steps <= |tokens| && Tokens(pattern[i..]) == tokens[steps..]
    && Row(row, tokens[..steps], delim, name)
  }

  /** The rows, one token of the pattern after the other. */
  method RunRows(name: bytes, delim: bytes, pattern: bytes) returns (r: bool, ghost steps: nat)
    ensures r <==> Reach(Tokens(pattern), delim, name)
    ensures steps <= |Tokens(pattern)|
  {
    steps := 0;
    var n := |name|;
    var reach, next := new bool[n + 1](_ => false), new bool[n + 1](_ => false);
    reach[0] := true;
    var i := 0;
    RunningStart(reach[..], pattern, delim, name);
    while i < |pattern|
      invariant 0 <= i <= |pattern|
      invariant reach != next && fresh(reach) && fresh(next) && reach.Length == next.Length == n + 1
      invariant Running(reach[..], pattern, i, steps, delim, name)
    {
      ghost var i0, row := i, reach[..];
      i := NextRow(reach, next, name, delim, pattern, i, Tokens(pattern)[..steps]);
      RunningNext(row, next[..], pattern, i0, steps, delim, name);
      i := i + 1;
      steps := steps + 1;
      reach, next := next, reach;
      var any := AnyTrue(reach);
      if !any {
        NoneReached(reach[..], Tokens(pattern), steps, delim, name);
        return false, steps;
      }
    }
    RunningEnd(reach[..], pattern, steps, delim, name);
    r := reach[n];
  }

  lemma RunningStart(row: seq<bool>, pattern: bytes, delim: bytes, name: bytes)
    requires |row| == |name| + 1 && row[0] && forall j :: 1 <= j < |row| ==> !row[j]
    ensures Running(row, pattern, 0, 0, delim, name)
  {
    assert pattern[0..] == pattern && Tokens(pattern)[0..] == Tokens(pattern) && Tokens(pattern)[..0] == [];
    assert name[..0] == [];
  }

  lemma RunningNext(row: seq<bool>, next: seq<bool>, pattern: bytes, i: nat, steps: nat, delim: bytes, name: bytes)
    requires i < |pattern| && Running(row, pattern, i, steps, delim, name)
    requires Row(next, Tokens(pattern)[..steps] + [TokenAt(pattern, i)], delim, name)
    ensures Running(next, pattern, i + SizeAt(pattern, i), steps + 1, delim, name)
  {
    StepTokens(pattern, i, Tokens(pattern), steps);
  }

  lemma RunningEnd(row: seq<bool>, pattern: bytes, steps: nat, delim: bytes, name: bytes)
    requires Running(row, pattern, |pattern|, steps, delim, name)
    ensures row[|name|] <==> Reach(Tokens(pattern), delim, name)
    ensures steps == |Tokens(pattern)|
  {
    var tokens := Tokens(pattern);
    assert pattern[|pattern|..] == [] && |tokens[steps..]| == |tokens| - steps;
    assert tokens[..steps] == tokens && name[..|name|] == name;
  }

  /** What the next round of the loop consumes. */
  lemma StepTokens(pattern: bytes, i: nat, tokens: seq<Token>, steps: nat)
    requires i < |pattern| && steps <= |tokens| && Tokens(pattern[i..]) == tokens[steps..]
    ensures steps < |tokens|
    ensures tokens[..steps + 1] == tokens[..steps] + [TokenAt(pattern, i)]
    ensures Tokens(pattern[i + SizeAt(pattern, i)..]) == tokens[steps + 1..]
  {
    var rest, n, t := pattern[i..], SizeAt(pattern, i), TokenAt(pattern, i);
    assert rest[0] == pattern[i] && rest[..n] == pattern[i..i + n] && rest[n..] == pattern[i + n..];
    assert tokens[steps..] == [t] + Tokens(rest[n..]);
    assert tokens[steps..][0] == t && tokens[steps..][1..] == tokens[steps + 1..];
  }

  lemma RunEnds(pattern: bytes, i0: nat, i: nat)
    requires i0 <= i < |pattern| && (forall k :: i0 <= k <= i ==> IsWild(pattern[k]))
    requires i + 1 < |pattern| ==> !IsWild(pattern[i + 1])
    ensures RunLength(pattern[i0..]) == i + 1 - i0
  {
    var s := pattern[i0..];
    var n := RunLength(s);
    assert n < |s| ==> !IsWild(pattern[i0 + n]);
    assert i + 1 - i0 < |s| ==> s[i + 1 - i0] == pattern[i + 1];
  }

  lemma NoneReached(row: seq<bool>, tokens: seq<Token>, t: nat, delim: bytes, name: bytes)
    requires t <= |tokens| && Row(row, tokens[..t], delim, name)
    requires forall j :: 0 <= j < |row| ==> !row[j]
    ensures !Reach(tokens, delim, name)
  {
    assert tokens == tokens[..t] + tokens[t..];
    if Reach(tokens, delim, name) {
      ReachPrefix(tokens[..t], tokens[t..], delim, name);
    }
  }

  // ---------------------------------------------------------------------
  // References
  // ---------------------------------------------------------------------

  ghost predicate EndsIn(s: bytes, suffix: bytes) {
    |suffix| <= |s| && s[|s| - |suffix|..] == suffix
  }

  /** The name is `base` followed by a match of the pattern. */
  ghost predicate Under(base: bytes, name: bytes, delim: bytes, pattern: bytes) {
    exists rest: bytes :: name == base + rest && Matches(Tokens(pattern), delim, rest)
  }

  lemma UnderSplit(base: bytes, name: bytes, delim: bytes, pattern: bytes)
    ensures Under(base, name, delim, pattern) <==>
            base <= name && Matches(Tokens(pattern), delim, name[|base|..])
  {
    if base <= name {
      assert name == base + name[|base|..];
    }
    forall rest: bytes | name == base + rest ensures base <= name && rest == name[|base|..] {
    }
  }

  /** A pattern that starts with the delimiter lists the matches of what follows
      it, whatever the reference. Otherwise the names listed are those below the
      reference, which is closed by a delimiter unless it ends in one or there is
      none. */
  method MatchReference(name: bytes, delim: bytes, reference: bytes, pattern: bytes) returns (r: bool)
    ensures delim != [] && delim <= pattern ==> (r <==> Matches(Tokens(pattern[|delim|..]), delim, name))
    ensures (delim == [] || !(delim <= pattern)) && reference == [] ==> (r <==> Matches(Tokens(pattern), delim, name))
    ensures (delim == [] || !(delim <= pattern)) && (delim == [] || EndsIn(reference, delim)) ==>
              (r <==> Under(reference, name, delim, pattern))
    ensures delim != [] && !(delim <= pattern) && reference != [] && !EndsIn(reference, delim) ==>
              (r <==> Under(reference + delim, name, delim, pattern))
  {
    var ref, pat, tail := reference, pattern, name;
    if delim != [] && delim <= pat {
      ref := [];
      pat := pat[|delim|..];
    }
    if ref != [] {
      if delim != [] && !(|delim| <= |ref| && ref[|ref| - |delim|..] == delim) {
        ref := ref + delim;
      }
      UnderSplit(ref, name, delim, pat);
      if !(ref <= name) {
        return false;
      }
      tail := name[|ref|..];
    } else {
      UnderSplit(ref, name, delim, pat);
      assert name[0..] == name;
    }
    ghost var steps;
    r, steps := MatchName(tail, delim, pat);
  }

  // ---------------------------------------------------------------------
  // The two wildcards
  // ---------------------------------------------------------------------

  /** "*" matches every name, "%" those without the delimiter, and a pattern
      without either only itself. */
  lemma WildcardsMean(name: bytes, delim: bytes, pattern: bytes)
    ensures Matches(Tokens([0x2A]), delim, name)
    ensures Matches(Tokens([0x25]), delim, name) <==>
              delim == [] || !exists a: bytes, b: bytes :: name == Around(a, delim, b)
    ensures (forall i :: 0 <= i < |pattern| ==> pattern[i] != 0x2A && pattern[i] != 0x25) ==>
              (Matches(Tokens(pattern), delim, name) <==> name == pattern)
  {
    OneWildcard(0x2A, name, delim);
    OneWildcard(0x25, name, delim);
    DelimFreeMeans(delim, name);
    if forall i :: 0 <= i < |pattern| ==> pattern[i] != 0x2A && pattern[i] != 0x25 {
      NoWildcards(pattern);
      AllLiterals(pattern, delim, name);
      ReachIsMatches(Tokens(pattern), delim, name);
    }
  }

  ghost function Around(a: bytes, delim: bytes, b: bytes): bytes {
    a + delim + b
  }

  /** The delimiter does not occur: there is nothing before and after it. */
  lemma DelimFreeMeans(delim: bytes, s: bytes)
    ensures DelimFree(delim, s) <==> delim == [] || !exists a: bytes, b: bytes :: s == Around(a, delim, b)
  {
    forall a: bytes, b: bytes | s == Around(a, delim, b) ensures OccursAt(delim, s, |a|) {
      assert s[|a|..|a| + |delim|] == delim;
    }
    forall i: nat | OccursAt(delim, s, i) ensures s == Around(s[..i], delim, s[i + |delim|..]) {
      assert s == s[..i] + s[i..i + |delim|] + s[i + |delim|..];
    }
  }

  lemma OneWildcard(c: byte, name: bytes, delim: bytes)
    requires c == 0x2A || c == 0x25
    ensures Matches(Tokens([c]), delim, name) <==> c == 0x2A || DelimFree(delim, name)
  {
    assert RunLength([c]) == 1;
    assert Tokens([c]) == [Wild(c == STAR)];
    ReachOne(Wild(c == STAR), delim, name);
    ReachIsMatches(Tokens([c]), delim, name);
  }

  lemma {:induction false} NoWildcards(pattern: bytes)
    requires forall i :: 0 <= i < |pattern| ==> pattern[i] != 0x2A && pattern[i] != 0x25
    ensures Literals(pattern) == |pattern|
  {
    if pattern != [] {
      NoWildcards(pattern[..|pattern| - 1]);
    }
  }
}
