/** The wildcard matcher of f_findfirst and f_findnext.  Strings are sequences of
    non-zero characters; the terminator is read behind the last one. */
module PatternMatch {
  type Char = x: nat | x > 0 witness 1

  const QUESTION: Char := 0x3F
  const STAR: Char := 0x2A
  const FIND_RECURS: nat := 4

  /** Upper-casing; only the terminator becomes the terminator. */
  ghost predicate Folds(up: nat -> nat) {
    forall c: nat :: up(c) == 0 <==> c == 0
  }

  predicate Wild(c: Char) {
    c == QUESTION || c == STAR
  }

  /** What a pattern means, with ? (0x3F) for one character and * (0x2A) for any: the rest of it from i matches the rest of the name from j. */
  ghost predicate Glob(up: nat -> nat, pat: seq<Char>, i: nat, nam: seq<Char>, j: nat)
    requires i <= |pat| && j <= |nam|
    decreases |pat| - i, |nam| - j
  {
    if i == |pat| then j == |nam|
    else if pat[i] == 0x3F then j < |nam| && Glob(up, pat, i + 1, nam, j + 1)
    else if pat[i] == 0x2A then Glob(up, pat, i + 1, nam, j) || (j < |nam| && Glob(up, pat, i, nam, j + 1))
    else j < |nam| && up(pat[i]) == up(nam[j]) && Glob(up, pat, i + 1, nam, j + 1)
  }

  /* ---- Runs of wildcards ---- */

  function RunEnd(pat: seq<Char>, i: nat): (e: nat)
    requires i <= |pat|
    ensures i <= e <= |pat| && (e < |pat| ==> !Wild(pat[e])) && (i < |pat| && Wild(pat[i]) ==> i < e)
    ensures forall t :: i <= t < e ==> Wild(pat[t])
    decreases |pat| - i
  {
    if i < |pat| && Wild(pat[i]) then RunEnd(pat, i + 1) else i
  }

  lemma {:induction false} RunEndIs(pat: seq<Char>, i: nat, e: nat)
    requires i <= e <= |pat| && (e < |pat| ==> !Wild(pat[e])) && forall t :: i <= t < e ==> Wild(pat[t])
    ensures RunEnd(pat, i) == e
    decreases e - i
  {
    if i < e {
      RunEndIs(pat, i + 1, e);
    }
  }

  /** The number of runs from i on. */
  function Runs(pat: seq<Char>, i: nat): nat
    requires i <= |pat|
    decreases |pat| - i
  {
    if i == |pat| then 0 else if Wild(pat[i]) then 1 + Runs(pat, RunEnd(pat, i)) else Runs(pat, i + 1)
  }

  /** The skip word that the code computes for pattern characters i to e. */
  function SkipWord(pat: seq<Char>, i: nat, e: nat): nat
    requires i <= e <= |pat|
  {
    if i == e then 0 else
      var sk := SkipWord(pat, i, e - 1);
      if pat[e - 1] == QUESTION then sk + 1 else if sk / 0x100 % 2 == 1 then sk else sk + 0x100
  }

  /** Positions of the name at which matching goes on after a skip from j. */
  predicate Skips(skip: nat, len: nat, j: nat, k: nat) {
    j + skip % 0x100 <= k <= len && (skip < 0x100 ==> k == j + skip)
  }

  /** A pattern as the code reads it, without the limit on runs. */
  ghost predicate CodeGlob(up: nat -> nat, pat: seq<Char>, i: nat, nam: seq<Char>, j: nat)
    requires i <= |pat| && j <= |nam|
    decreases |pat| - i
  {
    if i == |pat| then j == |nam|
    else if Wild(pat[i]) then
      var e := RunEnd(pat, i);
      exists k: nat :: Skips(SkipWord(pat, i, e), |nam|, j, k) && CodeGlob(up, pat, e, nam, k)
    else j < |nam| && up(pat[i]) == up(nam[j]) && CodeGlob(up, pat, i + 1, nam, j + 1)
  }

  ghost predicate AfterSkip(up: nat -> nat, pat: seq<Char>, i: nat, nam: seq<Char>, j: nat, skip: nat)
    requires i <= |pat|
  {
    exists k: nat :: Skips(skip, |nam|, j, k) && CodeGlob(up, pat, i, nam, k)
  }

  /* ---- The code ---- */

  /** get_achar on a sequence with a terminator. */
  method GetAchar(up: nat -> nat, s: seq<Char>, p: nat) returns (chr: nat)
    requires Folds(up) && p <= |s|
    ensures chr == 0 <==> p == |s|
    ensures p < |s| ==> chr == up(s[p])
  {
    chr := up(if p < |s| then s[p] else 0);
  }

  /** Analysis of a wildcard term. */
  method WildcardTerm(pat: seq<Char>, i: nat) returns (p: nat, sk: nat)
    requires i < |pat| && Wild(pat[i])
    ensures p == RunEnd(pat, i) && sk == SkipWord(pat, i, p)
  {
    sk := 0;
    p := i;
    while p == i || (p < |pat| && Wild(pat[p]))
      invariant i <= p <= |pat| && sk == SkipWord(pat, i, p) && forall t :: i <= t < p ==> Wild(pat[t])
      decreases |pat| - p
    {
      if pat[p] == QUESTION {
        sk := sk + 1;
      } else {
        sk := if sk / 0x100 % 2 == 1 then sk else sk + 0x100; // sk |= 0x100
      }
      p := p + 1;
    }
    RunEndIs(pat, i, p);
  }

  /** Literal characters match one by one. */
  lemma {:induction false} LiteralStep(up: nat -> nat, pat: seq<Char>, i: nat, p: nat, nam: seq<Char>, top: nat, k: nat)
    requires i <= p <= |pat| && top <= k <= |nam| && forall t :: i <= t < p ==> !Wild(pat[t])
    ensures CodeGlob(up, pat, i, nam, k) ==> k + (p - i) <= |nam| && CodeGlob(up, pat, p, nam, k + (p - i))
    decreases p - i
  {
    if i < p && k < |nam| {
      LiteralStep(up, pat, i + 1, p, nam, top, k + 1);
    }
  }

  /** The branch at name position top: the inner loop of pattern_match.  If it does
      not match, last says that no later position can match. */
  method Branch(up: nat -> nat, pat: seq<Char>, i: nat, nam: seq<Char>, top: nat, recur: nat, ghost pure: bool)
    returns (matched: bool, last: bool)
    requires Folds(up) && i <= |pat| && top <= |nam| && (pure ==> i == |pat| || !Wild(pat[i]))
    ensures matched <==> Runs(pat, i) <= recur && CodeGlob(up, pat, i, nam, top)
    ensures !matched && top == |nam| ==> last
    ensures !matched && last && pure && Runs(pat, i) <= recur ==> forall k: nat :: top <= k <= |nam| ==> !CodeGlob(up, pat, i, nam, k)
    decreases recur, 1
  {
    var p: nat, q: nat := i, top;
    while true
      invariant i <= p <= |pat| && q == top + (p - i) <= |nam| && Runs(pat, p) == Runs(pat, i)
      invariant forall t :: i <= t < p ==> !Wild(pat[t])
      invariant CodeGlob(up, pat, i, nam, top) <==> CodeGlob(up, pat, p, nam, q)
      decreases |pat| - p
    {
      if p < |pat| && Wild(pat[p]) {
        if recur == 0 {
          return false, true;
        }
        var rest, sk := WildcardTerm(pat, p);
        var found := PatternMatch(up, pat, rest, nam, q, sk, recur - 1);
        if found {
          return true, true;
        }
        Hopeless(up, pat, i, p, nam, top, q, recur);
        return false, q == |nam|;
      }
      var pchr := GetAchar(up, pat, p);
      var nchr := GetAchar(up, nam, q);
      if pchr != nchr {
        Hopeless(up, pat, i, p, nam, top, q, recur);
        return false, nchr == 0;
      }
      if pchr == 0 {
        return true, true;
      }
      p, q := p + 1, q + 1;
    }
  }

  /** A branch that fails at the end of the name leaves no hope for later ones. */
  lemma Hopeless(up: nat -> nat, pat: seq<Char>, i: nat, p: nat, nam: seq<Char>, top: nat, q: nat, recur: nat)
    requires i <= p <= |pat| && q == top + (p - i) <= |nam| && forall t :: i <= t < p ==> !Wild(pat[t])
    ensures q == |nam| && !CodeGlob(up, pat, i, nam, top) ==> forall k: nat :: top <= k <= |nam| ==> !CodeGlob(up, pat, i, nam, k)
  {
    forall k: nat | top < k <= |nam| && q == |nam|
      ensures !CodeGlob(up, pat, i, nam, k)
    {
      LiteralStep(up, pat, i, p, nam, top, k);
    }
  }

  /** pattern_match from pattern position i and name position j: it succeeds exactly
      if there are few enough runs left and the rests match after the skip. */
  method PatternMatch(up: nat -> nat, pat: seq<Char>, i: nat, nam: seq<Char>, j: nat, skip: nat, recur: nat) returns (matched: bool)
    requires Folds(up) && i <= |pat| && j <= |nam| && (skip == 0 || i == |pat| || !Wild(pat[i]))
    ensures matched <==> Runs(pat, i) <= recur && AfterSkip(up, pat, i, nam, j, skip)
    decreases recur, 2
  {
    var left: nat, top: nat := skip, j;
    while left % 0x100 != 0
      invariant j <= top <= |nam| && left + (top - j) == skip && top - j <= skip % 0x100
      decreases left
    {
      var c := GetAchar(up, nam, top);
      if c == 0 {
        return false;
      }
      left, top := left - 1, top + 1;
    }
    assert top == j + skip % 0x100 && (left == 0 <==> skip < 0x100);
    if i == |pat| && left != 0 {
      assert Skips(skip, |nam|, j, |nam|) && CodeGlob(up, pat, i, nam, |nam|);
      return true;
    }
    ghost var base := top;
    while true
      invariant base <= top <= |nam| && (left == 0 ==> top == base)
      invariant Runs(pat, i) <= recur ==> forall k: nat :: base <= k < top ==> !CodeGlob(up, pat, i, nam, k)
      decreases |nam| - top
    {
      var last: bool;
      matched, last := Branch(up, pat, i, nam, top, recur, left != 0);
      if matched {
        assert Skips(skip, |nam|, j, top);
        return;
      }
      if left == 0 || last {
        return;
      }
      top := top + 1;
    }
  }

  /* ---- When the code means what the pattern means ---- */

  /** The number of question marks among pattern characters i to e. */
  function Questions(pat: seq<Char>, i: nat, e: nat): nat
    requires i <= e <= |pat|
  {
    if i == e then 0 else Questions(pat, i, e - 1) + if pat[e - 1] == QUESTION then 1 else 0
  }

  predicate HasStar(pat: seq<Char>, i: nat, e: nat)
    requires i <= e <= |pat|
  {
    exists t :: i <= t < e && pat[t] == STAR
  }

  /** The skip word is the number of question marks, and 0x100 for some stars. */
  lemma {:induction false} SkipWordSum(pat: seq<Char>, i: nat, e: nat) returns (c: nat)
    requires i <= e <= |pat| && forall t :: i <= t < e ==> Wild(pat[t])
    ensures SkipWord(pat, i, e) == Questions(pat, i, e) + 0x100 * c
    ensures HasStar(pat, i, e) ==> SkipWord(pat, i, e) >= 0x100
    ensures !HasStar(pat, i, e) ==> c == 0
  {
    if i == e {
      return 0;
    }
    c := SkipWordSum(pat, i, e - 1);
    assert HasStar(pat, i, e) <==> HasStar(pat, i, e - 1) || pat[e - 1] == STAR;
    var before := SkipWord(pat, i, e - 1);
    if pat[e - 1] == STAR && before / 0x100 % 2 != 1 {
      c := c + 1;
    }
  }

  /** Eight bits of the skip word count question marks; a carry reads like a star. */
  lemma SkipWordMeans(pat: seq<Char>, i: nat, e: nat)
    requires i <= e <= |pat| && forall t :: i <= t < e ==> Wild(pat[t])
    ensures SkipWord(pat, i, e) % 0x100 == Questions(pat, i, e) % 0x100
    ensures SkipWord(pat, i, e) >= 0x100 <==> HasStar(pat, i, e) || Questions(pat, i, e) >= 0x100
    ensures !HasStar(pat, i, e) ==> SkipWord(pat, i, e) == Questions(pat, i, e)
  {
    var c := SkipWordSum(pat, i, e);
    Carried(Questions(pat, i, e), c);
    hide Questions, SkipWord, HasStar;
  }

  lemma Carried(q: nat, c: nat)
    ensures (q + 0x100 * c) % 0x100 == q % 0x100
  {
    if c > 0 {
      Carried(q, c - 1);
      assert q + 0x100 * c == (q + 0x100 * (c - 1)) + 0x100;
    }
  }

  /** Name positions that the wildcards i to e can lead to from j. */
  predicate Leads(pat: seq<Char>, i: nat, e: nat, len: nat, j: nat, k: nat)
    requires i <= e <= |pat|
  {
    j + Questions(pat, i, e) <= k <= len && (!HasStar(pat, i, e) ==> k == j + Questions(pat, i, e))
  }

  lemma {:induction false} FirstQuestion(pat: seq<Char>, i: nat, e: nat)
    requires i < e <= |pat|
    ensures Questions(pat, i, e) == Questions(pat, i + 1, e) + if pat[i] == QUESTION then 1 else 0
    ensures HasStar(pat, i, e) <==> pat[i] == STAR || HasStar(pat, i + 1, e)
  {
    if i + 1 < e {
      FirstQuestion(pat, i, e - 1);
    }
  }

  /** A run of wildcards matches some stretch of the name. */
  lemma {:induction false} GlobRun(up: nat -> nat, pat: seq<Char>, i: nat, e: nat, nam: seq<Char>, j: nat)
    requires i <= e <= |pat| && j <= |nam| && forall t :: i <= t < e ==> Wild(pat[t])
    ensures Glob(up, pat, i, nam, j) <==> exists k: nat :: Leads(pat, i, e, |nam|, j, k) && Glob(up, pat, e, nam, k)
    decreases e - i, |nam| - j
  {
    if i == e {
      assert Leads(pat, i, e, |nam|, j, j);
    } else {
      FirstQuestion(pat, i, e);
      hide HasStar, Questions;
      if pat[i] == QUESTION {
        if j < |nam| {
          GlobRun(up, pat, i + 1, e, nam, j + 1);
          assert forall k: nat :: Leads(pat, i, e, |nam|, j, k) <==> Leads(pat, i + 1, e, |nam|, j + 1, k);
        }
      } else {
        GlobRun(up, pat, i + 1, e, nam, j);
        if j < |nam| {
          GlobRun(up, pat, i, e, nam, j + 1);
        }
        StarLeads(pat, i, e, |nam|, j);
      }
    }
  }

  lemma StarLeads(pat: seq<Char>, i: nat, e: nat, len: nat, j: nat)
    requires i < e <= |pat| && pat[i] == STAR && j <= len
    ensures forall k: nat :: Leads(pat, i, e, len, j, k) <==> Leads(pat, i + 1, e, len, j, k) || Leads(pat, i, e, len, j + 1, k)
  {
    FirstQuestion(pat, i, e);
    hide Questions;
  }

  /** No run from i on has 256 question marks. */
  ghost predicate ShortRuns(pat: seq<Char>, i: nat)
    requires i <= |pat|
    decreases |pat| - i
  {
    if i == |pat| then true
    else if Wild(pat[i]) then Questions(pat, i, RunEnd(pat, i)) < 0x100 && ShortRuns(pat, RunEnd(pat, i))
    else ShortRuns(pat, i + 1)
  }

  lemma {:induction false} CodeIsGlob(up: nat -> nat, pat: seq<Char>, i: nat, nam: seq<Char>, j: nat)
    requires i <= |pat| && j <= |nam| && ShortRuns(pat, i)
    ensures CodeGlob(up, pat, i, nam, j) <==> Glob(up, pat, i, nam, j)
    decreases |pat| - i
  {
    if i < |pat| && Wild(pat[i]) {
      var e := RunEnd(pat, i);
      SkipWordMeans(pat, i, e);
      GlobRun(up, pat, i, e, nam, j);
      hide Glob;
      forall k: nat | k <= |nam|
        ensures (Skips(SkipWord(pat, i, e), |nam|, j, k) <==> Leads(pat, i, e, |nam|, j, k)) && (CodeGlob(up, pat, e, nam, k) <==> Glob(up, pat, e, nam, k))
      {
        CodeIsGlob(up, pat, e, nam, k);
      }
    } else if i < |pat| && j < |nam| {
      CodeIsGlob(up, pat, i + 1, nam, j + 1);
    }
  }

  /** Does f_findfirst take the name? */
  ghost predicate Found(up: nat -> nat, pat: seq<Char>, nam: seq<Char>) {
    Runs(pat, 0) <= FIND_RECURS && CodeGlob(up, pat, 0, nam, 0)
  }

  /** A name that the code takes: for each run, as many characters as it skips at least. */
  function ShortestName(pat: seq<Char>, i: nat): seq<Char>
    requires i <= |pat|
    decreases |pat| - i
  {
    if i == |pat| then []
    else if Wild(pat[i]) then
      var e := RunEnd(pat, i);
      seq(SkipWord(pat, i, e) % 0x100, _ => QUESTION) + ShortestName(pat, e)
    else [pat[i]] + ShortestName(pat, i + 1)
  }

  lemma {:induction false} ShortestTaken(up: nat -> nat, pat: seq<Char>, i: nat, nam: seq<Char>, j: nat)
    requires i <= |pat| && j <= |nam| && nam[j..] == ShortestName(pat, i)
    ensures CodeGlob(up, pat, i, nam, j)
    decreases |pat| - i
  {
    if i < |pat| {
      if Wild(pat[i]) {
        var e := RunEnd(pat, i);
        var n := SkipWord(pat, i, e) % 0x100;
        hide SkipWord;
        assert nam[j + n..] == nam[j..][n..] == ShortestName(pat, e);
        ShortestTaken(up, pat, e, nam, j + n);
        assert Skips(SkipWord(pat, i, e), |nam|, j, j + n);
      } else {
        assert nam[j] == nam[j..][0] == pat[i];
        assert nam[j + 1..] == nam[j..][1..] == ShortestName(pat, i + 1);
        ShortestTaken(up, pat, i + 1, nam, j + 1);
      }
    }
  }

  /** Every character but a star needs a character of the name. */
  lemma {:induction false} GlobNeeds(up: nat -> nat, pat: seq<Char>, i: nat, nam: seq<Char>, j: nat)
    requires i <= |pat| && j <= |nam| && Glob(up, pat, i, nam, j)
    ensures |ShortestName(pat, i)| <= |nam| - j
    ensures !ShortRuns(pat, i) ==> |ShortestName(pat, i)| < |nam| - j
    decreases |pat| - i
  {
    if i < |pat| {
      if Wild(pat[i]) {
        var e := RunEnd(pat, i);
        SkipWordMeans(pat, i, e);
        GlobRun(up, pat, i, e, nam, j);
        var k: nat :| Leads(pat, i, e, |nam|, j, k) && Glob(up, pat, e, nam, k);
        GlobNeeds(up, pat, e, nam, k);
      } else {
        GlobNeeds(up, pat, i + 1, nam, j + 1);
      }
    }
  }

  /** A name that a pattern matches. */
  function SomeName(pat: seq<Char>, i: nat): seq<Char>
    requires i <= |pat|
    decreases |pat| - i
  {
    if i == |pat| then [] else (if pat[i] == STAR then [] else [pat[i]]) + SomeName(pat, i + 1)
  }

  lemma {:induction false} SomeMatches(up: nat -> nat, pat: seq<Char>, i: nat, nam: seq<Char>, j: nat)
    requires i <= |pat| && j <= |nam| && nam[j..] == SomeName(pat, i)
    ensures Glob(up, pat, i, nam, j)
    decreases |pat| - i
  {
    if i < |pat| {
      if pat[i] == STAR {
        SomeMatches(up, pat, i + 1, nam, j);
      } else {
        assert nam[j] == nam[j..][0] == pat[i];
        assert nam[j + 1..] == nam[j..][1..] == SomeName(pat, i + 1);
        SomeMatches(up, pat, i + 1, nam, j + 1);
      }
    }
  }

  /** The code takes exactly the names that a pattern matches, if and only if the
      pattern has at most four runs of wildcards and no run of them has 256
      question marks or more. */
  lemma MatchesGlob(up: nat -> nat, pat: seq<Char>)
    ensures (forall nam: seq<Char> :: Found(up, pat, nam) <==> Glob(up, pat, 0, nam, 0)) <==> Runs(pat, 0) <= 4 && ShortRuns(pat, 0)
  {
    if Runs(pat, 0) <= FIND_RECURS && ShortRuns(pat, 0) {
      forall nam: seq<Char>
        ensures Found(up, pat, nam) <==> Glob(up, pat, 0, nam, 0)
      {
        CodeIsGlob(up, pat, 0, nam, 0);
      }
    } else if Runs(pat, 0) > FIND_RECURS {
      var nam := SomeName(pat, 0);
      assert nam[0..] == nam;
      SomeMatches(up, pat, 0, nam, 0);
      assert !Found(up, pat, nam);
    } else {
      var nam := ShortestName(pat, 0);
      assert nam[0..] == nam;
      ShortestTaken(up, pat, 0, nam, 0);
      if Glob(up, pat, 0, nam, 0) {
        GlobNeeds(up, pat, 0, nam, 0);
      }
      assert Found(up, pat, nam);
    }
  }

  /** The call that f_findnext makes. */
  method FindMatch(up: nat -> nat, pat: seq<Char>, nam: seq<Char>) returns (matched: bool)
    requires Folds(up)
    ensures matched <==> Found(up, pat, nam)
    ensures Runs(pat, 0) <= 4 && ShortRuns(pat, 0) ==> (matched <==> Glob(up, pat, 0, nam, 0))
  {
    matched := PatternMatch(up, pat, 0, nam, 0, 0, FIND_RECURS);
    assert forall k: nat :: Skips(0, |nam|, 0, k) <==> k == 0;
    MatchesGlob(up, pat);
  }
}
