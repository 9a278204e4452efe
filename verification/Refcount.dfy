/** The reference count under any interleaving of threads. A release is two steps: the atomic
    decrement, and later the test of the value it returned. */
module Refcount {
  import opened Entries

  const WORD: int := 0x1_0000_0000

  /** What the atomic operation returns: the new value, as the library's macro does, or the old one,
      as the macro's name suggests. */
  datatype Atomic = AddFetch | FetchAdd

  /** `held` is how many references each thread owns; `pending` is the value a thread's decrement
      returned and that it has not compared yet; `destroys` counts entries into xpc_object_destroy. */
  datatype State = State(count: nat, held: seq<nat>, pending: seq<Option<nat>>, destroys: nat)

  datatype Step =
    | Retain(t: nat)
    | Give(from: nat, to: nat)
    | Decrement(t: nat)
    | Test(t: nat)

  function Sum(s: seq<nat>): nat {
    if s == [] then 0 else s[0] + Sum(s[1..])
  }

  /** The threads about to find that they dropped the last reference. */
  function Zeros(s: seq<Option<nat>>): nat {
    if s == [] then 0 else (if s[0] == Some(0) then 1 else 0) + Zeros(s[1..])
  }

  ghost predicate Init(s: State) {
    && s.count == 1 && s.destroys == 0 && |s.held| == |s.pending| && Sum(s.held) == 1
    && forall t :: 0 <= t < |s.pending| ==> s.pending[t] == None
  }

  /** A thread retains or gives away only what it holds, and fewer than 2^32 references exist. */
  predicate Enabled(s: State, step: Step) {
    |s.held| == |s.pending| &&
    match step
    case Retain(t) => t < |s.held| && s.held[t] > 0 && s.pending[t] == None && Sum(s.held) + 1 < WORD
    case Give(t, u) => t < |s.held| && u < |s.held| && t != u && s.held[t] > 0 && s.pending[t] == None
    case Decrement(t) => t < |s.held| && s.held[t] > 0 && s.pending[t] == None
    case Test(t) => t < |s.held| && s.pending[t].Some?
  }

  function Next(s: State, step: Step, a: Atomic): State
    requires Enabled(s, step)
  {
    match step
    case Retain(t) => s.(count := (s.count + 1) % WORD, held := s.held[t := s.held[t] + 1])
    case Give(t, u) => s.(held := s.held[t := s.held[t] - 1][u := s.held[u] + 1])
    case Decrement(t) =>
      var n := (s.count + (WORD - 1)) % WORD;
      s.(count := n, held := s.held[t := s.held[t] - 1],
         pending := s.pending[t := Some(if a == AddFetch then n else s.count)])
    case Test(t) =>
      s.(pending := s.pending[t := None], destroys := s.destroys + if s.pending[t].value > 0 then 0 else 1)
  }

  /** States reached one after the other, each by the enabled step with its number. */
  ghost predicate Trace(states: seq<State>, steps: seq<Step>, a: Atomic) {
    && |states| == |steps| + 1 && Init(states[0])
    && forall i :: 0 <= i < |steps| ==> Enabled(states[i], steps[i]) && states[i + 1] == Next(states[i], steps[i], a)
  }

  // ----- What the steps taken say

  /** What to count: the steps of one kind, of all threads or of one. */
  datatype What =
    | AnyRetain | AnyDecrement
    | RetainBy(t: nat) | DecrementBy(t: nat) | TestBy(t: nat) | GiftTo(t: nat) | GiftBy(t: nat)
  {
    predicate Is(step: Step) {
      match this
      case AnyRetain => step.Retain?
      case AnyDecrement => step.Decrement?
      case RetainBy(t) => step == Retain(t)
      case DecrementBy(t) => step == Decrement(t)
      case TestBy(t) => step == Test(t)
      case GiftTo(t) => step.Give? && step.to == t
      case GiftBy(t) => step.Give? && step.from == t
    }
  }

  /** How many of the steps are such. */
  function Count(steps: seq<Step>, what: What): nat {
    if steps == [] then 0
    else Count(steps[..|steps| - 1], what) + if what.Is(steps[|steps| - 1]) then 1 else 0
  }

  lemma {:induction false} SumUpdate(s: seq<nat>, i: nat, v: nat)
    requires i < |s|
    ensures Sum(s[i := v]) == Sum(s) - s[i] + v
    ensures s[i] <= Sum(s)
  {
    if i > 0 {
      SumUpdate(s[1..], i - 1, v);
      assert s[i := v][1..] == s[1..][i - 1 := v];
    }
  }

  lemma {:induction false} ZerosUpdate(s: seq<Option<nat>>, i: nat, v: Option<nat>)
    requires i < |s|
    ensures Zeros(s[i := v]) == Zeros(s) - (if s[i] == Some(0) then 1 else 0) + (if v == Some(0) then 1 else 0)
  {
    if i > 0 {
      ZerosUpdate(s[1..], i - 1, v);
      assert s[i := v][1..] == s[1..][i - 1 := v];
    }
  }

  lemma {:induction false} NoZeros(s: seq<Option<nat>>)
    requires forall t :: 0 <= t < |s| ==> s[t] == None
    ensures Zeros(s) == 0
  {
    if s != [] {
      NoZeros(s[1..]);
    }
  }

  ghost predicate CountIsSum(s: State) {
    |s.held| == |s.pending| && s.count == Sum(s.held) < WORD
  }

  lemma CountIsSumKept(s: State, step: Step, a: Atomic)
    requires CountIsSum(s) && Enabled(s, step)
    ensures CountIsSum(Next(s, step, a))
    ensures step.Decrement? ==> s.count > 0
  {
    match step {
      case Retain(t) =>
        SumUpdate(s.held, t, s.held[t] + 1);
        NoWrap(s.count + 1);
      case Give(t, u) => GiveKeepsSum(s.held, t, u);
      case Decrement(t) =>
        SumUpdate(s.held, t, s.held[t] - 1);
        NoWrap(s.count - 1);
      case Test(t) =>
    }
  }

  lemma NoWrap(n: int)
    requires 0 <= n < WORD
    ensures n % WORD == n == (n + WORD) % WORD
  {
  }

  lemma GiveKeepsSum(s: seq<nat>, t: nat, u: nat)
    requires t < |s| && u < |s| && t != u && s[t] > 0
    ensures Sum(s[t := s[t] - 1][u := s[u] + 1]) == Sum(s)
  {
    SumUpdate(s, t, s[t] - 1);
    SumUpdate(s[t := s[t] - 1], u, s[u] + 1);
  }

  /** The count is the number of references there are, and once there are none exactly one thread
      has destroyed the object or is about to. */
  ghost predicate Counted(s: State) {
    CountIsSum(s) && s.destroys + Zeros(s.pending) == if s.count == 0 then 1 else 0
  }

  lemma CountedKept(s: State, step: Step)
    requires Counted(s) && Enabled(s, step)
    ensures Counted(Next(s, step, AddFetch))
  {
    CountIsSumKept(s, step, AddFetch);
    match step {
      case Retain(t) => SumUpdate(s.held, t, 0);
      case Give(t, u) =>
      case Decrement(t) => ZerosUpdate(s.pending, t, Some((s.count + (WORD - 1)) % WORD));
      case Test(t) => ZerosUpdate(s.pending, t, None);
    }
  }

  lemma CountStep(steps: seq<Step>, i: nat, what: What)
    requires i < |steps|
    ensures Count(steps[..i + 1], what) == Count(steps[..i], what) + if what.Is(steps[i]) then 1 else 0
  {
    assert steps[..i + 1][..i] == steps[..i];
  }

  /** What the steps taken so far say of a state: how many references there are. */
  ghost predicate FollowsTotal(taken: seq<Step>, s: State) {
    Sum(s.held) == 1 + Count(taken, AnyRetain) - Count(taken, AnyDecrement)
  }

  /** And of a thread: how many references it holds, and whether it has a decrement to test. */
  ghost predicate FollowsThread(start: State, taken: seq<Step>, s: State, t: nat) {
    && t < |start.held| == |s.held| == |s.pending|
    && s.held[t] == start.held[t] + Count(taken, RetainBy(t)) + Count(taken, GiftTo(t))
                    - Count(taken, DecrementBy(t)) - Count(taken, GiftBy(t))
    && (if s.pending[t].Some? then 1 else 0) == Count(taken, DecrementBy(t)) - Count(taken, TestBy(t))
  }

  lemma TotalOneMore(steps: seq<Step>, i: nat, s: State, a: Atomic)
    requires i < |steps| && FollowsTotal(steps[..i], s) && Enabled(s, steps[i])
    ensures FollowsTotal(steps[..i + 1], Next(s, steps[i], a))
  {
    CountStep(steps, i, AnyRetain);
    CountStep(steps, i, AnyDecrement);
    match steps[i] {
      case Retain(t) => SumUpdate(s.held, t, s.held[t] + 1);
      case Give(t, u) => GiveKeepsSum(s.held, t, u);
      case Decrement(t) => SumUpdate(s.held, t, s.held[t] - 1);
      case Test(t) =>
    }
  }

  lemma ThreadOneMore(start: State, steps: seq<Step>, i: nat, s: State, a: Atomic, t: nat)
    requires i < |steps| && FollowsThread(start, steps[..i], s, t) && Enabled(s, steps[i])
    ensures FollowsThread(start, steps[..i + 1], Next(s, steps[i], a), t)
  {
    hide Count;
    CountStep(steps, i, RetainBy(t));
    CountStep(steps, i, DecrementBy(t));
    CountStep(steps, i, TestBy(t));
    CountStep(steps, i, GiftTo(t));
    CountStep(steps, i, GiftBy(t));
  }

  /** In every reachable state the count is 1 plus the retains less the decrements so far, and what a
      thread holds is what it started with, plus its retains and what it was given, less its
      decrements and what it gave away. */
  lemma {:induction false} CountFollowsSteps(states: seq<State>, steps: seq<Step>, a: Atomic, i: nat)
    requires Trace(states, steps, a) && i < |states|
    ensures states[i].count == 1 + Count(steps[..i], AnyRetain) - Count(steps[..i], AnyDecrement) < WORD
    ensures forall t :: 0 <= t < |states[0].held| ==> FollowsThread(states[0], steps[..i], states[i], t)
    ensures CountIsSum(states[i]) && |states[i].held| == |states[0].held|
  {
    if i > 0 {
      var s, step := states[i - 1], steps[i - 1];
      CountFollowsSteps(states, steps, a, i - 1);
      assert Enabled(s, step) && states[i - 1 + 1] == Next(s, step, a);
      CountIsSumKept(s, step, a);
      TotalOneMore(steps, i - 1, s, a);
      forall t | 0 <= t < |states[0].held|
        ensures FollowsThread(states[0], steps[..i], states[i], t)
      {
        ThreadOneMore(states[0], steps, i - 1, s, a, t);
      }
    }
  }

  lemma {:induction false} CountedThroughout(states: seq<State>, steps: seq<Step>, i: nat)
    requires Trace(states, steps, AddFetch) && i < |states|
    ensures Counted(states[i])
  {
    if i == 0 {
      NoZeros(states[0].pending);
    } else {
      CountedThroughout(states, steps, i - 1);
      assert states[i - 1 + 1] == Next(states[i - 1], steps[i - 1], AddFetch);
      CountedKept(states[i - 1], steps[i - 1]);
    }
  }

  /** Every decrement so far has been followed by the test of its value. */
  ghost predicate AllTested(states: seq<State>, steps: seq<Step>, i: nat)
    requires |states| == |steps| + 1 && i < |states|
  {
    forall t :: 0 <= t < |states[0].held| ==> Count(steps[..i], DecrementBy(t)) == Count(steps[..i], TestBy(t))
  }

  /** Whatever the interleaving, destruction is entered at most once, and only when the decrements so
      far exceed the retains so far by one, so that no thread holds a reference; they never exceed
      them by more. When every decrement has been tested, it has been entered exactly in that case. */
  lemma DestroyedExactlyOnce(states: seq<State>, steps: seq<Step>, i: nat)
    requires Trace(states, steps, AddFetch) && i < |states|
    ensures var retains, decrements := Count(steps[..i], AnyRetain), Count(steps[..i], AnyDecrement);
      && decrements <= retains + 1 && states[i].destroys <= 1
      && (states[i].destroys == 1 ==> decrements == retains + 1 && Sum(states[i].held) == 0)
      && (AllTested(states, steps, i) ==> (states[i].destroys == 1 <==> decrements == retains + 1))
  {
    CountFollowsSteps(states, steps, AddFetch, i);
    CountedThroughout(states, steps, i);
    if AllTested(states, steps, i) {
      forall t | 0 <= t < |states[i].pending|
        ensures states[i].pending[t] == None
      {
        assert FollowsThread(states[0], steps[..i], states[i], t);
      }
      NoZeros(states[i].pending);
    }
  }

  lemma {:induction false} PendingSince(states: seq<State>, steps: seq<Step>, i: nat, t: nat) returns (j: nat)
    requires Trace(states, steps, AddFetch) && i < |states| && t < |states[i].pending| && states[i].pending[t].Some?
    ensures j < i && steps[j] == Decrement(t) && states[i].pending[t] == Some(states[j + 1].count)
    ensures forall k :: j < k < i ==> steps[k] != Test(t)
  {
    assert i > 0;
    assert states[i - 1 + 1] == Next(states[i - 1], steps[i - 1], AddFetch);
    if steps[i - 1] == Decrement(t) {
      j := i - 1;
    } else {
      j := PendingSince(states, steps, i - 1, t);
    }
  }

  /** The step that enters destruction is the test of the very decrement that took the count to 0. */
  lemma DestroyedByTheLast(states: seq<State>, steps: seq<Step>, i: nat) returns (t: nat, j: nat)
    requires Trace(states, steps, AddFetch) && i < |steps| && states[i].destroys < states[i + 1].destroys
    ensures j < i && steps[j] == Decrement(t) && steps[i] == Test(t)
    ensures forall k :: j < k < i ==> steps[k] != Test(t)
    ensures Count(steps[..j + 1], AnyDecrement) == Count(steps[..j + 1], AnyRetain) + 1
  {
    assert states[i + 1] == Next(states[i], steps[i], AddFetch);
    t := steps[i].t;
    j := PendingSince(states, steps, i, t);
    CountFollowsSteps(states, steps, AddFetch, j + 1);
  }

  /** With an operation that returned the old value, no release would ever destroy the object. */
  lemma {:induction false} NeverDestroyedByFetchAdd(states: seq<State>, steps: seq<Step>, i: nat)
    requires Trace(states, steps, FetchAdd) && i < |states|
    ensures states[i].destroys == 0 && Zeros(states[i].pending) == 0
    ensures CountIsSum(states[i])
  {
    if i == 0 {
      NoZeros(states[0].pending);
    } else {
      NeverDestroyedByFetchAdd(states, steps, i - 1);
      var s, step := states[i - 1], steps[i - 1];
      assert Enabled(s, step) && states[i - 1 + 1] == Next(s, step, FetchAdd);
      CountIsSumKept(s, step, FetchAdd);
      if step.Decrement? {
        ZerosUpdate(s.pending, step.t, Some(s.count));
      } else if step.Test? {
        ZerosUpdate(s.pending, step.t, None);
        TestsNonzero(s.pending, step.t);
      }
    }
  }

  lemma {:induction false} TestsNonzero(s: seq<Option<nat>>, t: nat)
    requires Zeros(s) == 0 && t < |s|
    ensures s[t] != Some(0)
  {
    if t > 0 {
      TestsNonzero(s[1..], t - 1);
    }
  }
}
