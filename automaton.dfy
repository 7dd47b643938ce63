/**
 * The pattern automaton: one state per pattern prefix, each holding a
 * terminal flag and a partial map from characters to successor states,
 * plus a mutable cursor. A missing transition means "back to state 0".
 */
module Automata {
  import opened Kmp

  datatype State = State(terminal: bool, transitions: map<char, int>)

  /** The transition map a state gets for the pattern's own next character. */
  function OwnTransition(p: string, i: nat): map<char, int>
    requires i <= |p|
  {
    if i < |p| then map[p[i] := i + 1] else map[]
  }

  /**
   * The table as the construction lays it out: state 0 holds only its own
   * transition, state i >= 1 holds its own transition on top of those of
   * state `suffix[i]`, and only the last state is terminal.
   */
  ghost predicate Built(p: string, suffix: seq<int>, states: seq<State>)
    requires |suffix| == |p| + 1
    requires forall i :: 1 <= i <= |p| ==> 0 <= suffix[i] < i
  {
    |states| == |p| + 1 &&
    (forall i :: 0 <= i < |states| ==> (states[i].terminal <==> i == |p|)) &&
    states[0].transitions == OwnTransition(p, 0) &&
    (forall i :: 1 <= i < |states| ==>
      states[i].transitions == states[suffix[i]].transitions + OwnTransition(p, i))
  }

  /**
   * The table realises `Delta`: a transition is present exactly when `Delta`
   * leaves state 0, and then it leads where `Delta` does.
   */
  ghost predicate Implements(p: string, states: seq<State>)
  {
    |states| == |p| + 1 &&
    (forall i :: 0 <= i < |states| ==> (states[i].terminal <==> i == |p|)) &&
    (forall i, c :: 0 <= i < |states| ==> (c in states[i].transitions <==> Delta(p, i, c) > 0)) &&
    (forall i, c :: 0 <= i < |states| && c in states[i].transitions ==>
      states[i].transitions[c] == Delta(p, i, c))
  }

  /** The transitions of state `i` of the matching automaton: every character on which `Delta` leaves state 0. */
  ghost function TransitionsOf(p: string, i: nat): map<char, int>
    requires i <= |p|
  {
    map c | c in p && Delta(p, i, c) > 0 :: Delta(p, i, c)
  }

  /** The matching automaton's table, one state per prefix of `p`. */
  ghost function Table(p: string): (r: seq<State>)
    ensures |r| == |p| + 1
  {
    seq(|p| + 1, i requires 0 <= i <= |p| => State(i == |p|, TransitionsOf(p, i)))
  }

  /** `Delta` only leaves state 0 on a character of the pattern: the one it has just matched. */
  lemma {:induction false} DeltaMatchesChar(p: string, i: nat, c: char)
    requires i <= |p|
    ensures Delta(p, i, c) > 0 ==> p[Delta(p, i, c) - 1] == c
    decreases i
  {
    if i < |p| && p[i] == c {
      assert Delta(p, i, c) == i + 1;
    } else if i > 0 {
      var f := Fail(p, i);
      DeltaMatchesChar(p, f, c);
      assert Delta(p, i, c) == Delta(p, f, c);
    }
  }

  /** A table that realises `Delta` is the matching automaton's table. */
  lemma ImplementsIsTable(p: string, states: seq<State>)
    requires Implements(p, states)
    ensures states == Table(p)
  {
    var t := Table(p);
    forall i | 0 <= i < |states|
      ensures states[i] == t[i]
    {
      var m := states[i].transitions;
      var n := TransitionsOf(p, i);
      forall c
        ensures c in m <==> c in n
      {
        DeltaMatchesChar(p, i, c);
        if Delta(p, i, c) > 0 {
          assert p[Delta(p, i, c) - 1] in p;
        }
      }
      assert m.Keys == n.Keys;
      assert m == n;
    }
  }

  /** Built over the failure function, the table is the KMP matching automaton. */
  lemma {:induction false} BuiltImplements(p: string, suffix: seq<int>, states: seq<State>)
    requires |suffix| == |p| + 1
    requires forall i :: 1 <= i <= |p| ==> suffix[i] == Fail(p, i)
    requires forall i :: 1 <= i <= |p| ==> 0 <= suffix[i] < i
    requires Built(p, suffix, states)
    ensures Implements(p, states)
  {
    forall i, c | 0 <= i < |states|
      ensures (c in states[i].transitions <==> Delta(p, i, c) > 0)
      ensures c in states[i].transitions ==> states[i].transitions[c] == Delta(p, i, c)
    {
      StateImplements(p, suffix, states, i, c);
    }
  }

  lemma {:induction false} StateImplements(p: string, suffix: seq<int>, states: seq<State>, i: nat, c: char)
    requires |suffix| == |p| + 1
    requires forall j :: 1 <= j <= |p| ==> suffix[j] == Fail(p, j)
    requires forall j :: 1 <= j <= |p| ==> 0 <= suffix[j] < j
    requires Built(p, suffix, states)
    requires i < |states|
    ensures c in states[i].transitions <==> Delta(p, i, c) > 0
    ensures c in states[i].transitions ==> states[i].transitions[c] == Delta(p, i, c)
    decreases i
  {
    var own := OwnTransition(p, i);
    if i == 0 {
      assert states[0].transitions == own;
    } else if i < |p| && p[i] == c {
      assert states[i].transitions == states[suffix[i]].transitions + own;
      assert c in own && own[c] == i + 1;
    } else {
      assert c !in own;
      assert states[i].transitions == states[suffix[i]].transitions + own;
      StateImplements(p, suffix, states, suffix[i], c);
    }
  }

  /**
   * The matching automaton's table realises `Delta`: `|p| + 1` states, only
   * the last terminal, and a transition exactly where `Delta` leaves state 0.
   */
  lemma TableImplements(p: string)
    ensures Implements(p, Table(p))
  {
    var t := Table(p);
    forall i, c | 0 <= i < |t|
      ensures c in t[i].transitions <==> Delta(p, i, c) > 0
      ensures c in t[i].transitions ==> t[i].transitions[c] == Delta(p, i, c)
    {
      DeltaMatchesChar(p, i, c);
      if Delta(p, i, c) > 0 {
        assert p[Delta(p, i, c) - 1] in p;
      }
    }
  }

  /** Every present transition leads to one of the states 1..|p|, never to 0. */
  lemma TargetsInRange(p: string, i: nat, c: char)
    requires i <= |p| && c in Table(p)[i].transitions
    ensures 1 <= Table(p)[i].transitions[c] <= |p|
  {
    TableImplements(p);
  }

  /** State i (i < |p|) moves on the pattern's own character to i + 1. */
  lemma OwnTransitionWins(p: string, i: nat)
    requires i < |p|
    ensures p[i] in Table(p)[i].transitions && Table(p)[i].transitions[p[i]] == i + 1
  {
    TableImplements(p);
  }

  /**
   * The failure function by the classic loop: `suffix[0] == -1`, and
   * `suffix[i]` is the length of the longest proper border of `str[..i]`.
   */
  method ComputeSuffix(str: string) returns (suffix: seq<int>)
    ensures |suffix| == |str| + 1 && suffix[0] == -1
    ensures forall i :: 1 <= i <= |str| ==> suffix[i] == Fail(str, i)
    ensures forall i :: 1 <= i <= |str| ==> 0 <= suffix[i] < i
  {
    var s := new int[|str| + 1](_ => 0);
    s[0] := -1;
    for i := 0 to |str|
      invariant s[0] == -1
      invariant forall j :: 1 <= j <= i ==> s[j] == Fail(str, j)
    {
      var p := BorderChain(str, s, i);
      s[i + 1] := p + 1;
      FailExtends(str, i, p);
    }
    suffix := s[..];
  }

  /**
   * The inner loop of the failure computation: from the border `s[i]` of
   * `str[..i]`, follow failure links until a border can be extended by
   * `str[i]`, or the chain runs out (-1).
   */
  method BorderChain(str: string, s: array<int>, i: nat) returns (p: int)
    requires i < |str| && s.Length == |str| + 1 && s[0] == -1
    requires forall j :: 1 <= j <= i ==> s[j] == Fail(str, j)
    ensures -1 <= p < i
    ensures p >= 0 ==> SuffixPrefix(str[..i], str, p) && str[p] == str[i]
    ensures forall b :: p < b < i && SuffixPrefix(str[..i], str, b) ==> str[b] != str[i]
  {
    var ch := str[i];
    p := s[i];
    while p != -1 && str[p] != ch
      invariant -1 <= p < i
      invariant p >= 0 ==> SuffixPrefix(str[..i], str, p)
      invariant forall b :: p < b < i && SuffixPrefix(str[..i], str, b) ==> str[b] != ch
      decreases p + 1
    {
      if p >= 1 {
        BorderChainStep(str, i, p);
      }
      p := s[p];
    }
  }

  /** Following the failure link skips no border that could still be extended. */
  lemma BorderChainStep(str: string, i: nat, p: nat)
    requires 1 <= p < i <= |str|
    requires SuffixPrefix(str[..i], str, p)
    ensures SuffixPrefix(str[..i], str, Fail(str, p))
    ensures forall b :: Fail(str, p) < b < p ==> !SuffixPrefix(str[..i], str, b)
  {
    var f := Fail(str, p);
    assert str[..p] == str[..i][..p];
    SuffixTrans(str[..i], str, p, f);
    forall b | f < b < p
      ensures !SuffixPrefix(str[..i], str, b)
    {
      if SuffixPrefix(str[..i], str, b) {
        SuffixOfSuffix(str[..i], str, p, b);
      }
    }
  }

  /** When the border chain stops at `p`, the next failure value is `p + 1`. */
  lemma FailExtends(str: string, i: nat, p: int)
    requires i < |str| && -1 <= p < i
    requires p >= 0 ==> SuffixPrefix(str[..i], str, p) && str[p] == str[i]
    requires forall b :: p < b < i && SuffixPrefix(str[..i], str, b) ==> str[b] != str[i]
    ensures p + 1 == Fail(str, i + 1)
  {
    var t := str[..i + 1];
    assert str[..i] + [str[i]] == t;
    if p >= 0 {
      ExtendChar(str[..i], str, str[i], p);
    }
    forall k | p + 1 < k <= i
      ensures !SuffixPrefix(t, str, k)
    {
      ExtendChar(str[..i], str, str[i], k - 1);
    }
    LongestIsUnique(t, str, i, p + 1);
  }

  /**
   * Copies into `own` every transition of `inherited` whose character `own`
   * does not map yet: the result has `own`'s transitions on top of
   * `inherited`'s.
   */
  method InheritMissing(own: map<char, int>, inherited: map<char, int>) returns (m: map<char, int>)
    ensures m.Keys == own.Keys + inherited.Keys
    ensures forall ch :: ch in own ==> m[ch] == own[ch]
    ensures forall ch :: ch in inherited && ch !in own ==> m[ch] == inherited[ch]
  {
    m := own;
    var todo := inherited.Keys;
    while todo != {}
      invariant todo <= inherited.Keys
      invariant m.Keys == own.Keys + (inherited.Keys - todo)
      invariant forall ch :: ch in own ==> m[ch] == own[ch]
      invariant forall ch :: ch in inherited && ch !in own && ch !in todo ==> m[ch] == inherited[ch]
      decreases todo
    {
      var ch :| ch in todo;
      if ch !in m {
        m := m[ch := inherited[ch]];
      }
      todo := todo - {ch};
    }
  }

  /** The state table: own transitions first, then inherited ones, then the terminal flag. */
  method BuildStates(str: string, suffix: seq<int>) returns (states: seq<State>)
    requires |suffix| == |str| + 1
    requires forall i :: 1 <= i <= |str| ==> 0 <= suffix[i] < i
    ensures Built(str, suffix, states)
  {
    var st := new State[|str| + 1](_ => State(false, map[]));
    SetOwnTransitions(str, st);
    InheritTransitions(str, suffix, st);
    st[|str|] := st[|str|].(terminal := true);
    states := st[..];
  }

  /** Each state `i < |str|` gets its transition on `str[i]` to `i + 1`. */
  method SetOwnTransitions(str: string, st: array<State>)
    requires st.Length == |str| + 1
    requires forall j :: 0 <= j < st.Length ==> st[j] == State(false, map[])
    modifies st
    ensures forall j :: 0 <= j < st.Length ==> st[j] == State(false, OwnTransition(str, j))
  {
    for i := 0 to |str|
      invariant forall j :: 0 <= j < i ==> st[j] == State(false, OwnTransition(str, j))
      invariant forall j :: i <= j < st.Length ==> st[j] == State(false, map[])
    {
      st[i] := st[i].(transitions := st[i].transitions[str[i] := i + 1]);
    }
  }

  /** Each state `i >= 1`, in order, takes over the transitions of state `suffix[i]` it does not have. */
  method InheritTransitions(str: string, suffix: seq<int>, st: array<State>)
    requires |suffix| == |str| + 1 && st.Length == |str| + 1
    requires forall i :: 1 <= i <= |str| ==> 0 <= suffix[i] < i
    requires forall j :: 0 <= j < st.Length ==> st[j] == State(false, OwnTransition(str, j))
    modifies st
    ensures forall j :: 0 <= j < st.Length ==> !st[j].terminal
    ensures st[0].transitions == OwnTransition(str, 0)
    ensures forall j :: 1 <= j < st.Length ==> st[j].transitions == st[suffix[j]].transitions + OwnTransition(str, j)
  {
    for i := 1 to |str| + 1
      invariant forall j :: 0 <= j < st.Length ==> !st[j].terminal
      invariant st[0].transitions == OwnTransition(str, 0)
      invariant forall j :: 1 <= j < i ==> st[j].transitions == st[suffix[j]].transitions + OwnTransition(str, j)
      invariant forall j :: i <= j < st.Length ==> st[j].transitions == OwnTransition(str, j)
    {
      InheritInto(st, i, suffix[i]);
    }
  }

  /** State `i` takes over the transitions of state `k` it does not have; nothing else changes. */
  method InheritInto(st: array<State>, i: nat, k: nat)
    requires i < st.Length && k < st.Length && k != i
    modifies st
    ensures st[i] == old(st[i]).(transitions := old(st[k].transitions) + old(st[i].transitions))
    ensures forall j :: 0 <= j < st.Length && j != i ==> st[j] == old(st[j])
  {
    var suf := st[k];
    var merged := InheritMissing(st[i].transitions, suf.transitions);
    assert merged == suf.transitions + st[i].transitions;
    st[i] := st[i].(transitions := merged);
  }

  class Automaton {
    var activeStateIdx: int
    /** The state table, built once when the automaton is made. */
    const states: seq<State>
    /** The pattern the table was built for. */
    ghost const pattern: string

    ghost predicate Valid()
      reads this
    {
      states == Table(pattern) && 0 <= activeStateIdx < |states|
    }

    /** The (private) size constructor: `size` blank states and the cursor at 0. */
    constructor (size: nat)
      ensures activeStateIdx == 0 && pattern == []
      ensures states == seq(size, _ => State(false, map[]))
    {
      activeStateIdx := 0;
      states := seq(size, _ => State(false, map[]));
      pattern := [];
    }

    /** The automaton for `str`, with its cursor at state 0. */
    constructor FromString(str: string)
      ensures Valid()
      ensures pattern == str && activeStateIdx == 0
      ensures |states| == |str| + 1
    {
      var suffix := ComputeSuffix(str);
      var built := BuildStates(str, suffix);
      BuiltImplements(str, suffix, built);
      ImplementsIsTable(str, built);
      activeStateIdx := 0;
      states := built;
      pattern := str;
    }

    /**
     * Follows the transition on `current` if the active state has one;
     * otherwise moves to state 0 when `autoReset` holds and stays put when
     * it does not. Reports whether a transition was taken.
     */
    method Step(current: char, autoReset: bool := false) returns (moved: bool)
      requires Valid()
      modifies this
      ensures Valid()
      ensures moved <==> current in old(states[activeStateIdx].transitions)
      ensures moved ==> activeStateIdx == old(states[activeStateIdx].transitions[current])
      ensures !moved ==> activeStateIdx == if autoReset then 0 else old(activeStateIdx)
      ensures moved || autoReset ==> activeStateIdx == Delta(pattern, old(activeStateIdx), current)
    {
      var activeState := states[activeStateIdx];
      DeltaMatchesChar(pattern, activeStateIdx, current);
      if current !in activeState.transitions {
        if autoReset {
          Reset();
        }
        return false;
      }
      activeStateIdx := activeState.transitions[current];
      return true;
    }

    method Reset()
      requires Valid()
      modifies this
      ensures Valid()
      ensures activeStateIdx == 0
      ensures IsTerminal() <==> pattern == []
    {
      activeStateIdx := 0;
    }

    /** The cursor is on the last state, i.e. the whole pattern has just been read. */
    function IsTerminal(): (r: bool)
      reads this
      requires Valid()
      ensures r <==> activeStateIdx == |pattern|
    {
      states[activeStateIdx].terminal
    }
  }
}
