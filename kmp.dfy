/**
 * The string facts behind the pattern automaton: borders, the
 * Knuth-Morris-Pratt failure function, the matching automaton's transition
 * function as an independent reference definition, and the theorem that
 * stepping it tracks the longest suffix of the text that is a prefix of
 * the pattern.
 */
module Kmp {

  /** The last `k` characters of `t` are the first `k` characters of `p`. */
  predicate SuffixPrefix(t: string, p: string, k: int)
  {
    0 <= k <= |t| && k <= |p| && t[|t| - k..] == p[..k]
  }

  /** `t` ends with `p`. */
  predicate EndsWith(t: string, p: string)
  {
    SuffixPrefix(t, p, |p|)
  }

  /** The largest `k <= bound` such that the last `k` characters of `t` start `p`. */
  function LongestSuffixPrefix(t: string, p: string, bound: nat): (r: nat)
    requires bound <= |t| && bound <= |p|
    ensures r <= bound && SuffixPrefix(t, p, r)
    ensures forall k :: r < k <= bound ==> !SuffixPrefix(t, p, k)
    decreases bound
  {
    if bound == 0 || SuffixPrefix(t, p, bound) then bound
    else LongestSuffixPrefix(t, p, bound - 1)
  }

  function Min(a: nat, b: nat): nat
  {
    if a <= b then a else b
  }

  /** Length of the longest suffix of `t` that is a prefix of `p`. */
  function MatchLen(p: string, t: string): (r: nat)
    ensures r <= |p| && r <= |t| && SuffixPrefix(t, p, r)
    ensures forall k :: r < k ==> !SuffixPrefix(t, p, k)
  {
    LongestSuffixPrefix(t, p, Min(|t|, |p|))
  }

  /** The failure function: the length of the longest proper border of `p[..i]`. */
  function Fail(p: string, i: nat): (r: nat)
    requires 1 <= i <= |p|
    ensures r < i && SuffixPrefix(p[..i], p, r)
    ensures forall k :: r < k < i ==> !SuffixPrefix(p[..i], p, k)
  {
    LongestSuffixPrefix(p[..i], p, i - 1)
  }

  /**
   * The matching automaton's transition function: from state `i` on `c`,
   * the pattern's own next character advances, any other character falls
   * back along the failure link, and state 0 has nowhere to fall back to.
   */
  function Delta(p: string, i: nat, c: char): (r: nat)
    requires i <= |p|
    ensures r <= |p|
    decreases i
  {
    if i < |p| && p[i] == c then i + 1
    else if i == 0 then 0
    else Delta(p, Fail(p, i), c)
  }

  /** The state reached from state 0 by stepping with `Delta` over all of `t`. */
  function Run(p: string, t: string): (r: nat)
    ensures r <= |p|
    decreases |t|
  {
    if t == [] then 0 else Delta(p, Run(p, t[..|t| - 1]), t[|t| - 1])
  }

  /** The failure values are maximal: any other candidate equal to them is them. */
  lemma LongestIsUnique(t: string, p: string, bound: nat, r: nat)
    requires bound <= |t| && bound <= |p|
    requires r <= bound && SuffixPrefix(t, p, r)
    requires forall k :: r < k <= bound ==> !SuffixPrefix(t, p, k)
    ensures r == LongestSuffixPrefix(t, p, bound)
  {
    var q := LongestSuffixPrefix(t, p, bound);
    assert !(r < q);
    assert !(q < r);
  }

  /** Two suffixes of `t` that start `p`: the shorter is a suffix of the longer's prefix. */
  lemma SuffixOfSuffix(t: string, p: string, a: nat, b: nat)
    requires SuffixPrefix(t, p, a) && SuffixPrefix(t, p, b) && b <= a
    ensures SuffixPrefix(p[..a], p, b)
  {
    var u := p[..a];
    forall x | 0 <= x < b
      ensures u[a - b + x] == p[x]
    {
      assert u[a - b + x] == t[|t| - a + (a - b + x)];
      assert t[|t| - b + x] == p[x];
    }
  }

  /** Borders compose: a border of a suffix of `t` is a suffix of `t`. */
  lemma SuffixTrans(t: string, p: string, a: nat, b: nat)
    requires SuffixPrefix(t, p, a) && SuffixPrefix(p[..a], p, b)
    ensures SuffixPrefix(t, p, b)
  {
    forall x | 0 <= x < b
      ensures t[|t| - b + x] == p[x]
    {
      assert p[..a][a - b + x] == p[x];
      assert t[|t| - a + (a - b + x)] == p[a - b + x];
    }
  }

  /** One more character: `t + [c]` ends with `p[..k+1]` iff `t` ends with `p[..k]` and `p[k] == c`. */
  lemma ExtendChar(t: string, p: string, c: char, k: nat)
    ensures SuffixPrefix(t + [c], p, k + 1) <==> SuffixPrefix(t, p, k) && k < |p| && p[k] == c
  {
    var u := t + [c];
    if SuffixPrefix(u, p, k + 1) {
      assert u[|u| - 1] == p[k];
      forall x | 0 <= x < k
        ensures t[|t| - k + x] == p[x]
      {
        assert u[|u| - (k + 1) + x] == p[x];
      }
    }
    if SuffixPrefix(t, p, k) && k < |p| && p[k] == c {
      forall x | 0 <= x < k + 1
        ensures u[|u| - (k + 1) + x] == p[x]
      {
        if x < k {
          assert t[|t| - k + x] == p[x];
        }
      }
    }
  }

  /** A match after the failure link's prefix is also a match after the full prefix. */
  lemma FallbackMatchLifts(p: string, i: nat, c: char, k: nat)
    requires 1 <= i <= |p|
    requires SuffixPrefix(p[..Fail(p, i)] + [c], p, k + 1)
    ensures SuffixPrefix(p[..i] + [c], p, k + 1)
  {
    var f := Fail(p, i);
    ExtendChar(p[..f], p, c, k);
    assert p[..i][..f] == p[..f];
    SuffixTrans(p[..i], p, f, k);
    ExtendChar(p[..i], p, c, k);
  }

  /** A match after the full prefix that is not the pattern's own next character survives the failure link. */
  lemma MatchDropsToFallback(p: string, i: nat, c: char, k: nat)
    requires 1 <= i <= |p|
    requires !(i < |p| && p[i] == c)
    requires SuffixPrefix(p[..i] + [c], p, k + 1)
    ensures SuffixPrefix(p[..Fail(p, i)] + [c], p, k + 1)
  {
    var f := Fail(p, i);
    ExtendChar(p[..i], p, c, k);
    assert k < i;
    assert k <= f;
    SuffixOfSuffix(p[..i], p, f, k);
    assert p[..i][..f] == p[..f];
    ExtendChar(p[..f], p, c, k);
  }

  /** Off the pattern's own next character, the longest match after `p[..i]` is the one after its failure prefix. */
  lemma FallbackMatchLen(p: string, i: nat, c: char)
    requires 1 <= i <= |p|
    requires !(i < |p| && p[i] == c)
    ensures MatchLen(p, p[..i] + [c]) == MatchLen(p, p[..Fail(p, i)] + [c])
  {
    var m := MatchLen(p, p[..i] + [c]);
    var m' := MatchLen(p, p[..Fail(p, i)] + [c]);
    if m' > 0 {
      FallbackMatchLifts(p, i, c, m' - 1);
    }
    assert m' <= m;
    if m > 0 {
      MatchDropsToFallback(p, i, c, m - 1);
    }
    assert m <= m';
  }

  /** On the pattern's own next character the whole extended prefix matches. */
  lemma OwnCharMatchLen(p: string, i: nat, c: char)
    requires i < |p| && p[i] == c
    ensures MatchLen(p, p[..i] + [c]) == i + 1
  {
    var u := p[..i] + [c];
    assert u == p[..i + 1];
    assert SuffixPrefix(u, p, i + 1);
  }

  /** From the empty prefix, any character other than the pattern's first matches nothing. */
  lemma NoCharMatchLen(p: string, c: char)
    requires !(0 < |p| && p[0] == c)
    ensures MatchLen(p, p[..0] + [c]) == 0
  {
    var u := p[..0] + [c];
    assert u == [c];
    assert u[0..] == u;
    assert |p| > 0 ==> p[..1] == [p[0]];
    assert !SuffixPrefix(u, p, 1);
  }

  /** `Delta` is the longest-suffix-prefix transition on the pattern's own prefixes. */
  lemma {:induction false} DeltaIsMatchLen(p: string, i: nat, c: char)
    requires i <= |p|
    ensures Delta(p, i, c) == MatchLen(p, p[..i] + [c])
    decreases i
  {
    if i < |p| && p[i] == c {
      OwnCharMatchLen(p, i, c);
    } else if i == 0 {
      NoCharMatchLen(p, c);
    } else {
      DeltaIsMatchLen(p, Fail(p, i), c);
      FallbackMatchLen(p, i, c);
    }
  }

  /** A match after `t + [c]` no longer than one past a match `m` of `t` is a match after `p[..m] + [c]`. */
  lemma ShiftDown(p: string, t: string, c: char, m: nat, k: nat)
    requires SuffixPrefix(t, p, m) && k <= m
    requires SuffixPrefix(t + [c], p, k + 1)
    ensures SuffixPrefix(p[..m] + [c], p, k + 1)
  {
    ExtendChar(t, p, c, k);
    SuffixOfSuffix(t, p, m, k);
    ExtendChar(p[..m], p, c, k);
  }

  /** A match after `p[..m] + [c]`, for a match `m` of `t`, is a match after `t + [c]`. */
  lemma ShiftUp(p: string, t: string, c: char, m: nat, k: nat)
    requires SuffixPrefix(t, p, m)
    requires SuffixPrefix(p[..m] + [c], p, k + 1)
    ensures SuffixPrefix(t + [c], p, k + 1)
  {
    ExtendChar(p[..m], p, c, k);
    SuffixTrans(t, p, m, k);
    ExtendChar(t, p, c, k);
  }

  /** The longest match after one more character depends only on the previous longest match. */
  lemma MatchLenShift(p: string, t: string, c: char)
    ensures MatchLen(p, t + [c]) == MatchLen(p, p[..MatchLen(p, t)] + [c])
  {
    var m := MatchLen(p, t);
    var a := MatchLen(p, t + [c]);
    var b := MatchLen(p, p[..m] + [c]);
    if a > 0 {
      ExtendChar(t, p, c, a - 1);
      assert a - 1 <= m;
      ShiftDown(p, t, c, m, a - 1);
    }
    assert a <= b;
    if b > 0 {
      ShiftUp(p, t, c, m, b - 1);
    }
    assert b <= a;
  }

  /** One automaton step from the longest match yields the longest match of the longer text. */
  lemma DeltaAdvances(p: string, t: string, c: char)
    ensures Delta(p, MatchLen(p, t), c) == MatchLen(p, t + [c])
  {
    DeltaIsMatchLen(p, MatchLen(p, t), c);
    MatchLenShift(p, t, c);
  }

  /** KMP correctness: the state after any text is its longest suffix that starts the pattern. */
  lemma {:induction false} RunIsMatchLen(p: string, t: string)
    ensures Run(p, t) == MatchLen(p, t)
    decreases |t|
  {
    if t != [] {
      var s := t[..|t| - 1];
      RunIsMatchLen(p, s);
      assert s + [t[|t| - 1]] == t;
      DeltaAdvances(p, s, t[|t| - 1]);
    }
  }

  /** The state is the last one exactly when the text read so far ends with the pattern. */
  lemma FullMatchIffEndsWith(p: string, t: string)
    ensures MatchLen(p, t) == |p| <==> EndsWith(t, p)
  {
  }

  /** Terminal states of a run mark exactly the occurrences of the pattern, overlapping ones included. */
  lemma RunTerminalIffOccurrence(p: string, t: string)
    ensures Run(p, t) == |p| <==> EndsWith(t, p)
  {
    RunIsMatchLen(p, t);
    FullMatchIffEndsWith(p, t);
  }

  /** "aab" over "aaab": the run is terminal after the final character only. */
  lemma OverlapExample()
    ensures Run("aab", "aaab") == 3
    ensures forall j :: 0 <= j < 4 ==> Run("aab", "aaab"[..j]) != 3
  {
    var t := "aaab";
    RunTerminalIffOccurrence("aab", t);
    assert t[1..] == "aab";
    forall j | 0 <= j < 4
      ensures Run("aab", t[..j]) != 3
    {
      RunTerminalIffOccurrence("aab", t[..j]);
      if j == 3 {
        assert t[..3][2] == 'a';
      }
    }
  }
}
