/** The LIKE matcher (internal/expr/glob/like.go).

    Patterns and texts are sequences of code points. `fold` stands for the
    case-insensitive comparison of two code points; nothing is assumed about it.
  */
module Like {

  type Rune = nat
  type Text = seq<Rune>
  type Fold = (Rune, Rune) -> bool

  const MATCH_ONE: Rune := 95   // '_'
  const MATCH_ALL: Rune := 37   // '%'
  const MATCH_ESC: Rune := 92   // '\'

  // ---------------------------------------------------------------- meaning

  /** What a pattern means: `%` is any run, `_` one character, `\x` the literal x,
      a lone trailing `\` the empty string, anything else itself. */
  ghost predicate Matches(fold: Fold, p: Text, s: Text)
    decreases |p|, 0
  {
    if p == [] then s == []
    else if p[0] == MATCH_ALL then MatchesAfterRun(fold, p[1..], s)
    else if p[0] == MATCH_ONE then s != [] && Matches(fold, p[1..], s[1..])
    else if p[0] == MATCH_ESC then MatchesEscaped(fold, p[1..], s)
    else s != [] && fold(p[0], s[0]) && Matches(fold, p[1..], s[1..])
  }

  /** Some suffix of s matches p. */
  ghost predicate MatchesAfterRun(fold: Fold, p: Text, s: Text)
    decreases |p|, 1
  {
    exists k :: 0 <= k <= |s| && Matches(fold, p, s[k..])
  }

  /** The pattern p, read just after an escape character. */
  ghost predicate MatchesEscaped(fold: Fold, p: Text, s: Text)
    decreases |p|, 1
  {
    if p == [] then s == [] else s != [] && fold(p[0], s[0]) && Matches(fold, p[1..], s[1..])
  }

  /** The pattern p, read in the scanner state `prevEscape`. */
  ghost predicate MatchesFrom(fold: Fold, prevEscape: bool, p: Text, s: Text) {
    if prevEscape then MatchesEscaped(fold, p, s) else Matches(fold, p, s)
  }

  // ----------------------------------------------------------------- lemmas

  /** A run can always swallow more: what a suffix matches, the whole matches. */
  lemma RunAbsorbsPrefix(fold: Fold, p: Text, s: Text, d: nat)
    requires d <= |s|
    requires MatchesAfterRun(fold, p, s[d..])
    ensures MatchesAfterRun(fold, p, s)
  {
    var k :| 0 <= k <= |s[d..]| && Matches(fold, p, s[d..][k..]);
    assert s[d..][k..] == s[d + k..];
  }

  lemma RunThenRun(fold: Fold, p: Text, s: Text)
    requires p != [] && p[0] == MATCH_ALL
    ensures MatchesAfterRun(fold, p, s) <==> MatchesAfterRun(fold, p[1..], s)
  {
    if MatchesAfterRun(fold, p, s) {
      var k :| 0 <= k <= |s| && Matches(fold, p, s[k..]);
      RunAbsorbsPrefix(fold, p[1..], s, k);
    }
    if MatchesAfterRun(fold, p[1..], s) {
      assert s[0..] == s;
    }
  }

  lemma RunThenOne(fold: Fold, p: Text, s: Text)
    requires p != [] && p[0] == MATCH_ONE
    ensures MatchesAfterRun(fold, p, s) <==> s != [] && MatchesAfterRun(fold, p[1..], s[1..])
  {
    if MatchesAfterRun(fold, p, s) {
      var k :| 0 <= k <= |s| && Matches(fold, p, s[k..]);
      assert s[k..][1..] == s[1..][k..];
    }
    if s != [] && MatchesAfterRun(fold, p[1..], s[1..]) {
      var k :| 0 <= k <= |s[1..]| && Matches(fold, p[1..], s[1..][k..]);
      assert s[k..][1..] == s[1..][k..];
      assert Matches(fold, p, s[k..]);
    }
  }

  lemma RunMatchesAnything(fold: Fold, s: Text)
    ensures MatchesAfterRun(fold, [], s)
  {
    assert s[|s|..] == [];
  }

  /** Either the run is empty, or it takes at least one character. */
  lemma RunUnfolds(fold: Fold, p: Text, s: Text)
    ensures MatchesAfterRun(fold, p, s) <==>
            Matches(fold, p, s) || (s != [] && MatchesAfterRun(fold, p, s[1..]))
  {
    assert s[0..] == s;
    if MatchesAfterRun(fold, p, s) && !Matches(fold, p, s) {
      var k :| 0 <= k <= |s| && Matches(fold, p, s[k..]);
      assert s[k..] == s[1..][k - 1..];
    }
    if s != [] && MatchesAfterRun(fold, p, s[1..]) {
      RunAbsorbsPrefix(fold, p, s, 1);
    }
  }

  /** Every match of w puts the pattern `p` (in state `esc`) exactly d characters
      further: the part of w before p has no run in it. */
  ghost predicate FixedLead(fold: Fold, w: Text, d: nat, esc: bool, p: Text) {
    forall u :: Matches(fold, w, u) ==> |u| >= d && MatchesFrom(fold, esc, p, u[d..])
  }

  /** Why only the last `%` has to be retried: once the scan that started at w
      has reached another `%` after d characters, any match that begins later in t
      is also a match of the new run from where the scan is now. */
  lemma LastRunSuffices(fold: Fold, w: Text, t: Text, d: nat, p: Text)
    requires d <= |t|
    requires p != [] && p[0] == MATCH_ALL
    requires FixedLead(fold, w, d, false, p)
    requires MatchesAfterRun(fold, w, t)
    ensures MatchesAfterRun(fold, p[1..], t[d..])
  {
    var k :| 0 <= k <= |t| && Matches(fold, w, t[k..]);
    assert t[k..][d..] == t[d..][k..];
    RunAbsorbsPrefix(fold, p[1..], t[d..], k);
  }

  lemma FixedLeadStep(fold: Fold, w: Text, d: nat, p: Text)
    requires p != [] && FixedLead(fold, w, d, false, p)
    ensures p[0] == MATCH_ONE ==> FixedLead(fold, w, d + 1, false, p[1..])
    ensures p[0] == MATCH_ESC ==> FixedLead(fold, w, d, true, p[1..])
    ensures p[0] !in {MATCH_ONE, MATCH_ALL, MATCH_ESC} ==> FixedLead(fold, w, d + 1, false, p[1..])
  {
    forall u | Matches(fold, w, u) && p[0] != MATCH_ESC && p[0] != MATCH_ALL
      ensures |u| >= d + 1 && Matches(fold, p[1..], u[d + 1..])
    {
      assert u[d..][1..] == u[d + 1..];
    }
  }

  lemma FixedLeadEscaped(fold: Fold, w: Text, d: nat, p: Text)
    requires p != [] && FixedLead(fold, w, d, true, p)
    ensures FixedLead(fold, w, d + 1, false, p[1..])
  {
    forall u | Matches(fold, w, u)
      ensures |u| >= d + 1 && Matches(fold, p[1..], u[d + 1..])
    {
      assert u[d..][1..] == u[d + 1..];
    }
  }

  // ---------------------------------------------------------------- matcher

  /** The inner loop of case 1: drops every `%` and `_` after a `%`, paying one
      character of the text for each `_`. `short` reports that the text ran out. */
  method SkipWildcards(fold: Fold, pattern0: Text, s0: Text) returns (short: bool, pattern: Text, s: Text)
    ensures |pattern| <= |pattern0| && |s| <= |s0| && s == s0[|s0| - |s|..]
    ensures short ==> !MatchesAfterRun(fold, pattern0, s0)
    ensures !short ==> (MatchesAfterRun(fold, pattern0, s0) <==> MatchesAfterRun(fold, pattern, s))
    ensures !short ==> pattern == [] || (pattern[0] != MATCH_ALL && pattern[0] != MATCH_ONE)
  {
    pattern, s, short := pattern0, s0, false;
    while pattern != []
      invariant |pattern| <= |pattern0| && |s| <= |s0| && s == s0[|s0| - |s|..]
      invariant MatchesAfterRun(fold, pattern0, s0) <==> MatchesAfterRun(fold, pattern, s)
      decreases |pattern|
    {
      var c := pattern[0];
      if c != MATCH_ALL && c != MATCH_ONE {
        break;
      }
      if c != MATCH_ONE {
        RunThenRun(fold, pattern, s);
        pattern := pattern[1..];
        continue;
      }
      RunThenOne(fold, pattern, s);
      pattern := pattern[1..];
      if |s| == 0 {
        return true, pattern, s;
      }
      s := s[1..];
    }
  }

  /** The check after the main loop: what is left must be only `%`, up to a lone
      trailing escape. */
  method MatchesEmpty(fold: Fold, pattern: Text) returns (r: bool)
    ensures r == Matches(fold, pattern, [])
  {
    var i := 0;
    while i < |pattern|
      invariant 0 <= i <= |pattern|
      invariant Matches(fold, pattern, []) == Matches(fold, pattern[i..], [])
    {
      if pattern[i] == MATCH_ALL {
        RunUnfolds(fold, pattern[i + 1..], []);
        assert pattern[i..][1..] == pattern[i + 1..];
        i := i + 1;
        continue;
      }
      if i + 1 == |pattern| && pattern[i] == MATCH_ESC {
        assert pattern[i..][1..] == [];
        return true;
      }
      return false;
    }
    return true;
  }

  /** What the matcher's variables mean between two iterations. Without a saved
      point (w empty) the answer is the rest of the scan; with one it is the meaning
      of `%w` on t, and the current scan is its attempt with an empty run. */
  ghost predicate ScanState(fold: Fold, answer: bool, pattern: Text, s: Text, prevEscape: bool, w: Text, t: Text) {
    && (prevEscape ==> s != [])
    && (w == [] ==> answer == MatchesFrom(fold, prevEscape, pattern, s))
    && (w != [] ==>
          && w[0] != MATCH_ALL && w[0] != MATCH_ONE
          && |s| <= |t| && s == t[|t| - |s|..]
          && answer == MatchesAfterRun(fold, w, t)
          && Matches(fold, w, t) == MatchesFrom(fold, prevEscape, pattern, s)
          && FixedLead(fold, w, |t| - |s|, prevEscape, pattern))
  }

  /** A scan that failed cannot be the answer: only later starts remain. */
  lemma Backtracks(fold: Fold, answer: bool, pattern: Text, s: Text, prevEscape: bool, w: Text, t: Text)
    requires ScanState(fold, answer, pattern, s, prevEscape, w, t)
    requires !MatchesFrom(fold, prevEscape, pattern, s)
    ensures w == [] ==> !answer
    ensures w != [] && t != [] ==> answer == MatchesAfterRun(fold, w, t[1..])
  {
    if w != [] {
      RunUnfolds(fold, w, t);
    }
  }

  /** A fresh saved point starts its own scan. */
  lemma Saves(fold: Fold, answer: bool, w: Text, t: Text)
    requires w != [] && w[0] != MATCH_ALL && w[0] != MATCH_ONE
    requires answer == MatchesAfterRun(fold, w, t)
    ensures ScanState(fold, answer, w, t, false, w, t)
  {
    assert t[0..] == t;
    forall u | Matches(fold, w, u) ensures Matches(fold, w, u[0..]) {
      assert u[0..] == u;
    }
  }

  /** A run met during the scan takes over from the saved one. */
  lemma MeetsRun(fold: Fold, answer: bool, pattern: Text, s: Text, w: Text, t: Text)
    requires ScanState(fold, answer, pattern, s, false, w, t)
    requires pattern != [] && pattern[0] == MATCH_ALL
    ensures answer == MatchesAfterRun(fold, pattern[1..], s)
  {
    if w != [] && answer {
      LastRunSuffices(fold, w, t, |t| - |s|, pattern);
    }
    if w != [] && MatchesAfterRun(fold, pattern[1..], s) {
      assert t[0..] == t;
    }
  }

  /** One character of pattern and text that agree, or an escape being read. */
  lemma Advances(fold: Fold, answer: bool, pattern: Text, s: Text, prevEscape: bool, w: Text, t: Text)
    requires ScanState(fold, answer, pattern, s, prevEscape, w, t)
    requires pattern != [] && s != []
    ensures prevEscape && fold(pattern[0], s[0]) ==>
              ScanState(fold, answer, pattern[1..], s[1..], false, w, t)
    ensures !prevEscape && pattern[0] == MATCH_ONE ==>
              ScanState(fold, answer, pattern[1..], s[1..], false, w, t)
    ensures !prevEscape && pattern[0] == MATCH_ESC ==>
              ScanState(fold, answer, pattern[1..], s, true, w, t)
    ensures !prevEscape && pattern[0] !in {MATCH_ONE, MATCH_ALL, MATCH_ESC} && fold(pattern[0], s[0]) ==>
              ScanState(fold, answer, pattern[1..], s[1..], false, w, t)
  {
    if w != [] {
      var d := |t| - |s|;
      if prevEscape {
        FixedLeadEscaped(fold, w, d, pattern);
      } else {
        FixedLeadStep(fold, w, d, pattern);
      }
      assert s[1..] == t[d + 1..];
    }
  }

  /** With the text used up, no later start of the saved run has enough left. */
  lemma TextUsedUp(fold: Fold, answer: bool, pattern: Text, w: Text, t: Text)
    requires ScanState(fold, answer, pattern, [], false, w, t)
    ensures answer == Matches(fold, pattern, [])
  {
    if w != [] {
      assert t[0..] == t;
      if answer {
        var k :| 0 <= k <= |t| && Matches(fold, w, t[k..]);
        assert k == 0;
      }
    }
  }

  /** MatchLike: the backtracking matcher that remembers only the last `%`. The
      two ways into its case 1, a `%` read from the pattern and the jump back to the
      saved one, share SkipWildcards. */
  method MatchLike(fold: Fold, pattern0: Text, s0: Text) returns (r: bool)
    ensures r == Matches(fold, pattern0, s0)
  {
    var pattern, s, prevEscape := pattern0, s0, false;
    var w: Text, t: Text := [], [];
    ghost var answer := Matches(fold, pattern0, s0);
    while |s| != 0
      invariant ScanState(fold, answer, pattern, s, prevEscape, w, t)
      invariant |s| <= |s0| && |t| <= |s0|
      decreases if w == [] then |s0| + 1 else |t|, |pattern|
    {
      var run, backtrack := false, false;
      if pattern == [] {
        backtrack := true;
      } else {
        var p := pattern[0];
        if p == MATCH_ALL && !prevEscape {
          MeetsRun(fold, answer, pattern, s, w, t);
          run := true;
          pattern := pattern[1..];
        } else {
          Advances(fold, answer, pattern, s, prevEscape, w, t);
          if p == MATCH_ONE && !prevEscape {
            pattern, s := pattern[1..], s[1..];
          } else if p == MATCH_ESC && !prevEscape {
            pattern, prevEscape := pattern[1..], true;
          } else if fold(p, s[0]) {
            pattern, s, prevEscape := pattern[1..], s[1..], false;
          } else {
            backtrack := true;
          }
        }
      }
      if backtrack {
        Backtracks(fold, answer, pattern, s, prevEscape, w, t);
        if |w| == 0 {
          return prevEscape && |s| == 0;
        }
        pattern, s, prevEscape, run := w, t[1..], false, true;
      }
      if run {
        var short;
        short, pattern, s := SkipWildcards(fold, pattern, s);
        if short {
          return false;
        }
        if |pattern| == 0 {
          RunMatchesAnything(fold, s);
          return true;
        }
        Saves(fold, answer, pattern, s);
        w, t := pattern, s;
      }
    }
    TextUsedUp(fold, answer, pattern, w, t);
    r := MatchesEmpty(fold, pattern);
  }

  // --------------------------------------------------------- what it comes to

  /** Character by character. */
  predicate AsIs(fold: Fold, p: Text, s: Text) {
    |p| == |s| && forall i :: 0 <= i < |p| ==> fold(p[i], s[i])
  }

  predicate IsPlain(p: Text) {
    forall i :: 0 <= i < |p| ==> p[i] != MATCH_ONE && p[i] != MATCH_ALL && p[i] != MATCH_ESC
  }

  lemma AsIsStep(fold: Fold, p: Text, s: Text)
    requires p != [] && s != []
    ensures AsIs(fold, p, s) <==> fold(p[0], s[0]) && AsIs(fold, p[1..], s[1..])
  {
    if fold(p[0], s[0]) && AsIs(fold, p[1..], s[1..]) {
      forall i | 0 <= i < |p| ensures fold(p[i], s[i]) {
        assert i > 0 ==> p[1..][i - 1] == p[i] && s[1..][i - 1] == s[i];
      }
    }
  }

  /** A plain text in front of a pattern stands for itself. */
  lemma {:induction false} PlainLead(fold: Fold, p: Text, q: Text, s: Text)
    requires IsPlain(p)
    ensures Matches(fold, p + q, s) <==> |p| <= |s| && AsIs(fold, p, s[..|p|]) && Matches(fold, q, s[|p|..])
    decreases |p|
  {
    if p == [] {
      assert p + q == q && s[0..] == s;
    } else {
      assert (p + q)[0] == p[0] && (p + q)[1..] == p[1..] + q;
      if s != [] {
        PlainLead(fold, p[1..], q, s[1..]);
        if |p| <= |s| {
          assert s[1..][..|p| - 1] == s[..|p|][1..] && s[1..][|p| - 1..] == s[|p|..];
          AsIsStep(fold, p, s[..|p|]);
        }
      }
    }
  }

  /** So a pattern without wildcards matches what it says, `p%` what begins with it and
      `%p%` what contains it. */
  lemma PlainPatterns(fold: Fold, p: Text, s: Text)
    requires IsPlain(p)
    ensures Matches(fold, p, s) <==> AsIs(fold, p, s)
    ensures Matches(fold, p + [MATCH_ALL], s) <==> |p| <= |s| && AsIs(fold, p, s[..|p|])
    ensures Matches(fold, [MATCH_ALL] + (p + [MATCH_ALL]), s) <==> Contains(fold, p, s)
  {
    PlainWhole(fold, p, s);
    PlainStart(fold, p, s);
    PlainWithin(fold, p, s);
  }

  lemma PlainWhole(fold: Fold, p: Text, s: Text)
    requires IsPlain(p)
    ensures Matches(fold, p, s) <==> AsIs(fold, p, s)
  {
    PlainLead(fold, p, [], s);
    assert p + [] == p;
    if |p| == |s| { assert s[..|p|] == s; }
  }

  lemma PlainStart(fold: Fold, p: Text, s: Text)
    requires IsPlain(p)
    ensures Matches(fold, p + [MATCH_ALL], s) <==> |p| <= |s| && AsIs(fold, p, s[..|p|])
  {
    var all := [MATCH_ALL];
    PlainLead(fold, p, all, s);
    forall u ensures Matches(fold, all, u) { AllMatches(fold, u); }
  }

  lemma AllMatches(fold: Fold, s: Text)
    ensures Matches(fold, [MATCH_ALL], s)
  {
    RunMatchesAnything(fold, s);
    assert [MATCH_ALL][1..] == [];
  }

  lemma PlainWithin(fold: Fold, p: Text, s: Text)
    requires IsPlain(p)
    ensures Matches(fold, [MATCH_ALL] + (p + [MATCH_ALL]), s) <==> Contains(fold, p, s)
  {
    assert ([MATCH_ALL] + (p + [MATCH_ALL]))[1..] == p + [MATCH_ALL];
    forall k: nat | k <= |s| ensures Matches(fold, p + [MATCH_ALL], s[k..]) <==> ContainsAt(fold, p, s, k) {
      PlainStart(fold, p, s[k..]);
      if k + |p| <= |s| { assert s[k..][..|p|] == s[k..k + |p|]; }
    }
  }

  predicate ContainsAt(fold: Fold, p: Text, s: Text, k: nat) { k + |p| <= |s| && AsIs(fold, p, s[k..k + |p|]) }

  ghost predicate Contains(fold: Fold, p: Text, s: Text) { exists k: nat :: ContainsAt(fold, p, s, k) }

  /** A text with every character escaped. */
  function Escaped(p: Text): Text { if p == [] then [] else [MATCH_ESC, p[0]] + Escaped(p[1..]) }

  /** Escaping takes the meaning of wildcards away, and of the escape itself. */
  lemma {:induction false} EscapedPattern(fold: Fold, p: Text, s: Text)
    ensures Matches(fold, Escaped(p), s) <==> AsIs(fold, p, s)
    decreases |p|
  {
    if p != [] {
      var e := Escaped(p);
      assert e[0] == MATCH_ESC && e[1..][0] == p[0] && e[1..][1..] == Escaped(p[1..]);
      if s != [] {
        EscapedPattern(fold, p[1..], s[1..]);
        AsIsStep(fold, p, s);
      }
    }
  }

  function Ones(n: nat): Text { if n == 0 then [] else [MATCH_ONE] + Ones(n - 1) }

  /** n times `_` matches the texts of that length. */
  lemma {:induction false} OnesPattern(fold: Fold, n: nat, s: Text)
    ensures Matches(fold, Ones(n), s) <==> |s| == n
    decreases n
  {
    if n > 0 {
      assert Ones(n)[1..] == Ones(n - 1);
      if s != [] { OnesPattern(fold, n - 1, s[1..]); }
    }
  }
}
