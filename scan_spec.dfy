/**
 * What a file scan appends, defined on the text alone: one entry for every
 * position at which the text read so far ends with the pattern (and the
 * character just read is not a window-clearing one), each carrying the
 * context the sliding window holds at that moment.
 */
module ScanSpec {
  import opened Kmp
  import opened FinderTypes

  /** No character of `s` clears the window. */
  predicate NoBreak(s: string, chars: CharClasses)
  {
    forall k :: 0 <= k < |s| ==> !chars.IsBreak(s[k])
  }

  function Max(a: int, b: int): int
  {
    if a >= b then a else b
  }

  /** Index just past the last window-clearing character of `t` (0 when there is none). */
  function SegStart(t: string, chars: CharClasses): (r: nat)
    ensures r <= |t|
    ensures forall k :: r <= k < |t| ==> !chars.IsBreak(t[k])
    ensures r > 0 ==> chars.IsBreak(t[r - 1])
    decreases |t|
  {
    if t == [] then 0
    else if chars.IsBreak(t[|t| - 1]) then |t|
    else SegStart(t[..|t| - 1], chars)
  }

  /** Size at which the window drops its oldest character: the before-context plus the pattern. */
  function Capacity(p: string): nat
  {
    Entry.MaxBeforeSize + |p|
  }

  /** The window just after the last character of `t` was pushed. */
  function Window(t: string, p: string, chars: CharClasses): string
  {
    t[Max(SegStart(t, chars), |t| - Capacity(p))..]
  }

  /** The window between characters, once the oldest one has been dropped at capacity. */
  function TrimmedWindow(t: string, p: string, chars: CharClasses): string
  {
    t[Max(SegStart(t, chars), |t| - (Capacity(p) - 1))..]
  }

  /** The scan reports an entry after reading all of `t`. */
  predicate IsMatchEnd(t: string, p: string, chars: CharClasses)
  {
    |t| > 0 && !chars.IsBreak(t[|t| - 1]) && EndsWith(t, p)
  }

  /** The window minus the matched pattern at its end. */
  function BeforeContext(t: string, p: string, chars: CharClasses): string
  {
    var w := Window(t, p, chars);
    if |p| <= |w| then w[..|w| - |p|] else []
  }

  /** The positions (counted in characters read) after which the scan reports an entry. */
  function MatchEnds(t: string, p: string, chars: CharClasses): (r: seq<nat>)
    decreases |t|
  {
    if t == [] then []
    else MatchEnds(t[..|t| - 1], p, chars) + (if IsMatchEnd(t, p, chars) then [|t|] else [])
  }

  /** The entries a scan of `t` reports, in order. */
  function Entries(filePath: string, t: string, p: string, chars: CharClasses): (r: seq<Entry>)
    decreases |t|
  {
    if t == [] then []
    else
      Entries(filePath, t[..|t| - 1], p, chars) +
      (if IsMatchEnd(t, p, chars) then [Entry(filePath, BeforeContext(t, p, chars), p, "after")] else [])
  }

  function Take<T>(s: seq<T>, n: nat): seq<T>
  {
    s[..Min(n, |s|)]
  }

  /** How many characters a scan processes when its cancel flag is seen after `k` of them. */
  function CancelBound(cancelAt: Option<nat>, n: nat): nat
  {
    match cancelAt
    case None => n
    case Some(k) => Min(k, n)
  }

  /** The cancel check made after `n` characters have been processed sees the raised flag. */
  predicate CancelSeen(cancelAt: Option<nat>, n: nat)
  {
    cancelAt.Some? && cancelAt.value <= n
  }

  /** A scan that has seen its raised flag, or read the whole text, has reached the bound. */
  lemma BoundReached(cancelAt: Option<nat>, len: nat, n: nat)
    requires n <= CancelBound(cancelAt, len)
    requires CancelSeen(cancelAt, n) || n == len
    ensures n == CancelBound(cancelAt, len)
  {
  }

  /** The entries a scan of `filePath` appends, given the entries still allowed under the cap. */
  function ScanOutput(env: Env, filePath: string, p: string, cancelAt: Option<nat>, budget: nat): seq<Entry>
  {
    match env.content(filePath)
    case None => []
    case Some(text) => Take(Entries(filePath, text[..CancelBound(cancelAt, |text|)], p, env.chars), budget)
  }

  /** The scan read the whole file without its flag being raised: it counts as scanned. */
  predicate ScanCompleted(env: Env, filePath: string, cancelAt: Option<nat>)
  {
    env.content(filePath).Some? && cancelAt.None?
  }

  /** Every entry a scan appends names the scanned file and the pattern, and the cap is respected. */
  lemma ScanOutputFields(env: Env, filePath: string, p: string, cancelAt: Option<nat>, budget: nat)
    ensures var out := ScanOutput(env, filePath, p, cancelAt, budget);
      |out| <= budget && forall k :: 0 <= k < |out| ==> out[k].filePath == filePath && out[k].entry == p
  {
    match env.content(filePath)
    case None =>
    case Some(text) =>
      EntriesAtMatchEnds(filePath, text[..CancelBound(cancelAt, |text|)], p, env.chars);
  }

  lemma SegStartPush(t: string, c: char, chars: CharClasses)
    ensures SegStart(t + [c], chars) == if chars.IsBreak(c) then |t| + 1 else SegStart(t, chars)
  {
    assert (t + [c])[..|t|] == t;
  }

  /** The first positions of a longer text are the positions of the shorter one, and a new last one. */
  lemma MatchEndsPush(t: string, c: char, p: string, chars: CharClasses)
    ensures MatchEnds(t + [c], p, chars) ==
      MatchEnds(t, p, chars) + (if IsMatchEnd(t + [c], p, chars) then [|t| + 1] else [])
  {
    assert (t + [c])[..|t|] == t;
  }

  lemma EntriesPush(filePath: string, t: string, c: char, p: string, chars: CharClasses)
    ensures Entries(filePath, t + [c], p, chars) ==
      Entries(filePath, t, p, chars) +
      (if IsMatchEnd(t + [c], p, chars) then [Entry(filePath, BeforeContext(t + [c], p, chars), p, "after")] else [])
  {
    assert (t + [c])[..|t|] == t;
  }

  /**
   * The match positions are exactly the match ends of `t`, each once, in
   * increasing order, and each lies within `t`.
   */
  lemma {:induction false} MatchEndsExact(t: string, p: string, chars: CharClasses)
    ensures forall k :: 0 <= k < |MatchEnds(t, p, chars)| ==>
      1 <= MatchEnds(t, p, chars)[k] <= |t| && IsMatchEnd(t[..MatchEnds(t, p, chars)[k]], p, chars)
    ensures forall k, l :: 0 <= k < l < |MatchEnds(t, p, chars)| ==> MatchEnds(t, p, chars)[k] < MatchEnds(t, p, chars)[l]
    ensures forall j :: 1 <= j <= |t| ==> (j in MatchEnds(t, p, chars) <==> IsMatchEnd(t[..j], p, chars))
    decreases |t|
  {
    if t != [] {
      var s := t[..|t| - 1];
      var ms := MatchEnds(s, p, chars);
      var extra: seq<nat> := if IsMatchEnd(t, p, chars) then [|t|] else [];
      var m := MatchEnds(t, p, chars);
      assert m == ms + extra;
      MatchEndsExact(s, p, chars);
      assert t[..|t|] == t;
      forall k | 0 <= k < |m|
        ensures 1 <= m[k] <= |t| && IsMatchEnd(t[..m[k]], p, chars)
      {
        if k < |ms| {
          assert m[k] == ms[k];
          assert t[..m[k]] == s[..ms[k]];
        }
      }
      forall k, l | 0 <= k < l < |m|
        ensures m[k] < m[l]
      {
        if l < |ms| {
          assert m[k] == ms[k] && m[l] == ms[l];
        } else {
          assert m[k] == ms[k];
        }
      }
      forall j | 1 <= j <= |t|
        ensures j in m <==> IsMatchEnd(t[..j], p, chars)
      {
        if j < |t| {
          assert t[..j] == s[..j];
          assert j in m <==> j in ms;
        } else {
          assert |t| !in ms;
        }
      }
    }
  }

  /** The `k`-th entry reports the `k`-th match position, with the context the window holds there. */
  lemma {:induction false} EntriesAtMatchEnds(filePath: string, t: string, p: string, chars: CharClasses)
    ensures |Entries(filePath, t, p, chars)| == |MatchEnds(t, p, chars)|
    ensures forall k :: 0 <= k < |MatchEnds(t, p, chars)| ==> MatchEnds(t, p, chars)[k] <= |t|
    ensures forall k :: 0 <= k < |Entries(filePath, t, p, chars)| ==>
      Entries(filePath, t, p, chars)[k] ==
      Entry(filePath, BeforeContext(t[..MatchEnds(t, p, chars)[k]], p, chars), p, "after")
    decreases |t|
  {
    if t != [] {
      var s := t[..|t| - 1];
      EntriesAtMatchEnds(filePath, s, p, chars);
      assert forall j :: 0 <= j <= |s| ==> t[..j] == s[..j];
      assert t[..|t|] == t;
    }
  }

  /** The entries of a prefix of the text are a prefix of the entries of the text. */
  lemma {:induction false} EntriesPrefix(filePath: string, t: string, i: nat, p: string, chars: CharClasses)
    requires i <= |t|
    ensures Entries(filePath, t[..i], p, chars) <= Entries(filePath, t, p, chars)
    decreases |t| - i
  {
    if i < |t| {
      var s := t[..|t| - 1];
      EntriesPrefix(filePath, s, i, p, chars);
      assert s[..i] == t[..i];
    } else {
      assert t[..i] == t;
    }
  }

  /**
   * A scan that stops after `n` characters, either at the bound or because
   * the budget of entries is used up, has appended the first `budget`
   * entries of the text up to the bound.
   */
  lemma StopIsTake(filePath: string, t: string, n: nat, bound: nat, p: string, chars: CharClasses, budget: nat)
    requires n <= bound <= |t|
    requires |Entries(filePath, t[..n], p, chars)| <= budget
    requires n == bound || |Entries(filePath, t[..n], p, chars)| == budget
    ensures Entries(filePath, t[..n], p, chars) == Take(Entries(filePath, t[..bound], p, chars), budget)
  {
    var u := t[..bound];
    assert u[..n] == t[..n];
    EntriesPrefix(filePath, u, n, p, chars);
  }

  /** For a pattern of ordinary characters, the scan reports at exactly the occurrences of the pattern. */
  lemma MatchEndIffEndsWith(t: string, p: string, chars: CharClasses)
    requires |p| > 0 && NoBreak(p, chars)
    ensures IsMatchEnd(t, p, chars) <==> EndsWith(t, p)
  {
    if EndsWith(t, p) {
      assert t[|t| - 1] == p[|p| - 1];
    }
  }

  /** The window's start for a match ending `n` characters in, after the last clearing character at `s`. */
  lemma WindowStartBounds(s: nat, n: nat)
    requires s <= n
    ensures s <= Max(s, n - Entry.MaxBeforeSize) <= n
    ensures n - Max(s, n - Entry.MaxBeforeSize) == Min(Entry.MaxBeforeSize, n - s)
  {
  }

  /**
   * At a match of a pattern without window-clearing characters, the window
   * holds the whole pattern, and the before-context is the (at most 16)
   * characters before the match that lie after the last clearing character.
   */
  lemma BeforeContextShape(t: string, p: string, chars: CharClasses)
    requires IsMatchEnd(t, p, chars) && NoBreak(p, chars)
    ensures |p| <= |Window(t, p, chars)|
    ensures SegStart(t, chars) <= |t| - |p|
    ensures var len := Min(Entry.MaxBeforeSize, |t| - |p| - SegStart(t, chars));
      BeforeContext(t, p, chars) == t[|t| - |p| - len..|t| - |p|]
    ensures |BeforeContext(t, p, chars)| <= Entry.MaxBeforeSize
    ensures NoBreak(BeforeContext(t, p, chars), chars)
    ensures BeforeContext(t, p, chars) + p == Window(t, p, chars)
  {
    var n := |t| - |p|;
    var lo := Max(SegStart(t, chars), n - Entry.MaxBeforeSize);
    SegStartBeforeMatch(t, p, chars);
    BeforeContextSlice(t, p, chars);
    WindowStartBounds(SegStart(t, chars), n);
    MatchTail(t, p);
    assert t[lo..n] + t[n..] == t[lo..];
    SliceNoBreak(t, lo, n, chars);
  }

  /** When the last clearing character precedes the last `|p|` characters, the window runs from its start to the end and the before-context stops where those characters begin. */
  lemma BeforeContextSlice(t: string, p: string, chars: CharClasses)
    requires SegStart(t, chars) <= |t| - |p|
    ensures var lo := Max(SegStart(t, chars), |t| - |p| - Entry.MaxBeforeSize);
      SegStart(t, chars) <= lo <= |t| - |p| &&
      Window(t, p, chars) == t[lo..] && BeforeContext(t, p, chars) == t[lo..|t| - |p|]
  {
    var n := |t| - |p|;
    var lo := Max(SegStart(t, chars), n - Entry.MaxBeforeSize);
    var w := t[lo..];
    assert Window(t, p, chars) == w;
    DropTake(t, lo, n);
  }

  /** Cutting the tail off a suffix is slicing. */
  lemma DropTake(t: string, lo: nat, n: nat)
    requires lo <= n <= |t|
    ensures t[lo..][..n - lo] == t[lo..n]
  {
  }

  /** A text that ends with `p` has `p` as its last `|p|` characters. */
  lemma MatchTail(t: string, p: string)
    requires EndsWith(t, p)
    ensures t[|t| - |p|..] == p
  {
    assert p[..|p|] == p;
  }

  /** A stretch of the text after its last clearing character holds no clearing character. */
  lemma SliceNoBreak(t: string, lo: nat, hi: nat, chars: CharClasses)
    requires SegStart(t, chars) <= lo <= hi <= |t|
    ensures NoBreak(t[lo..hi], chars)
  {
    var b := t[lo..hi];
    forall k | 0 <= k < |b|
      ensures !chars.IsBreak(b[k])
    {
      assert b[k] == t[lo + k];
    }
  }

  /** A match of a pattern of ordinary characters lies after the last clearing character. */
  lemma SegStartBeforeMatch(t: string, p: string, chars: CharClasses)
    requires IsMatchEnd(t, p, chars) && NoBreak(p, chars)
    ensures SegStart(t, chars) <= |t| - |p|
  {
    var n := |t| - |p|;
    assert t[n..] == p[..|p|];
    forall k | n <= k < |t|
      ensures !chars.IsBreak(t[k])
    {
      assert t[k] == p[k - n];
    }
  }

  /** Pushing an ordinary character onto the trimmed window gives the full window. */
  lemma WindowPush(t: string, c: char, p: string, chars: CharClasses)
    requires !chars.IsBreak(c)
    ensures Window(t + [c], p, chars) == TrimmedWindow(t, p, chars) + [c]
    ensures |Window(t + [c], p, chars)| <= Capacity(p)
  {
    SegStartPush(t, c, chars);
    var lo := Max(SegStart(t, chars), |t| - (Capacity(p) - 1));
    assert (t + [c])[lo..] == t[lo..] + [c];
  }

  /** Dropping the oldest character at capacity gives the next trimmed window. */
  lemma TrimPush(t: string, c: char, p: string, chars: CharClasses)
    requires !chars.IsBreak(c)
    ensures var w := Window(t + [c], p, chars);
      TrimmedWindow(t + [c], p, chars) == if |w| == Capacity(p) then w[1..] else w
  {
    SegStartPush(t, c, chars);
    var u := t + [c];
    var lo := Max(SegStart(u, chars), |u| - Capacity(p));
    assert Window(u, p, chars) == u[lo..];
    if |u| - lo == Capacity(p) {
      assert u[lo..][1..] == u[lo + 1..];
    }
  }

  /** A window-clearing character leaves the trimmed window empty. */
  lemma BreakClears(t: string, c: char, p: string, chars: CharClasses)
    requires chars.IsBreak(c)
    ensures TrimmedWindow(t + [c], p, chars) == []
  {
    SegStartPush(t, c, chars);
  }

  /**
   * One character of the scan loop on the window: push it; a clearing
   * character empties the window; at a match the before-context is the
   * window minus the pattern; at capacity the oldest character goes.
   */
  lemma WindowStep(t: string, c: char, p: string, chars: CharClasses, que: string)
    requires que == TrimmedWindow(t, p, chars) && NoBreak(p, chars)
    ensures chars.IsBreak(c) ==> TrimmedWindow(t + [c], p, chars) == []
    ensures !chars.IsBreak(c) ==>
      var w := que + [c];
      w == Window(t + [c], p, chars) && |w| <= Capacity(p) &&
      TrimmedWindow(t + [c], p, chars) == (if |w| == Capacity(p) then w[1..] else w)
    ensures IsMatchEnd(t + [c], p, chars) ==>
      var w := que + [c];
      |p| <= |w| && BeforeContext(t + [c], p, chars) == w[..|w| - |p|]
  {
    if chars.IsBreak(c) {
      BreakClears(t, c, p, chars);
    } else {
      WindowPush(t, c, p, chars);
      TrimPush(t, c, p, chars);
      if IsMatchEnd(t + [c], p, chars) {
        SegStartBeforeMatch(t + [c], p, chars);
      }
    }
  }

  /**
   * Without cancellation and with room under the cap, a scan of a pattern of
   * ordinary characters appends exactly one entry per occurrence of the
   * pattern, overlapping ones included, in order of position.
   */
  lemma OneEntryPerOccurrence(env: Env, filePath: string, p: string, budget: nat)
    requires |p| > 0 && NoBreak(p, env.chars)
    requires env.content(filePath).Some?
    requires budget >= |MatchEnds(env.content(filePath).value, p, env.chars)|
    ensures var text := env.content(filePath).value;
      var ends := MatchEnds(text, p, env.chars);
      var out := ScanOutput(env, filePath, p, None, budget);
      |out| == |ends| &&
      (forall j :: 1 <= j <= |text| ==> (j in ends <==> EndsWith(text[..j], p))) &&
      (forall k :: 0 <= k < |out| ==>
        ends[k] <= |text| &&
        out[k] == Entry(filePath, BeforeContext(text[..ends[k]], p, env.chars), p, "after"))
  {
    var text := env.content(filePath).value;
    assert text[..|text|] == text;
    EntriesAtMatchEnds(filePath, text, p, env.chars);
    MatchEndsExact(text, p, env.chars);
    forall j | 1 <= j <= |text|
      ensures IsMatchEnd(text[..j], p, env.chars) <==> EndsWith(text[..j], p)
    {
      MatchEndIffEndsWith(text[..j], p, env.chars);
    }
  }
}
