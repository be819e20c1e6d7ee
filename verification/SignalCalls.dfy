/** Which slots an emission calls, and how often (libs/job_core/job_signal.h, lines 100-120 and 253-277):
    ordinary slots exactly once, single-shot slots at most once unless emissions of several threads race. */
module SignalCalls {
  import opened Signal

  // ----- when single-shot entries are called at most once

  ghost predicate NoShots(list: seq<Entry>) {
    forall i: nat :: i < |list| ==> !list[i].SingleShot()
  }

  /** The counter is about to be found zero by an emission whose snapshot holds a single-shot entry. */
  ghost predicate StaleLoad(s: State, a: Action) {
    var stack := s.Stack(a.t);
    a.LoadShots? && !s.Holds(a.t) && stack != [] && stack[|stack| - 1].Snapped? &&
    s.shared.singleShotCount == 0 && !NoShots(stack[|stack| - 1].rest)
  }

  ghost predicate NoStaleLoad(start: State, actions: seq<Action>) {
    forall k: nat :: k < |actions| ==> !StaleLoad(Run(start, actions[..k]), actions[k])
  }

  /** An emission in the unlocked loop has no single-shot entry ahead. */
  ghost predicate CleanFrame(f: Frame) {
    f.Fast? || f.FastCall? ==> NoShots(f.rest)
  }

  ghost predicate CleanStacks(s: State) {
    forall t: nat, d: nat :: d < |s.Stack(t)| ==> CleanFrame(s.Stack(t)[d])
  }

  ghost predicate CleanCalls(calls: seq<Call>) {
    forall k: nat :: k < |calls| && calls[k].entry.SingleShot() ==> calls[k].claimed
  }

  ghost predicate Clean(s: State) {
    CleanStacks(s) && CleanCalls(s.calls)
  }

  lemma CleanReplaced(s: State, s': State, t: ThreadId, n: nat, tops: seq<Frame>)
    requires CleanStacks(s) && |s.Stack(t)| >= n && (forall i: nat :: i < |tops| ==> CleanFrame(tops[i]))
    requires s'.stacks == s.stacks[t := s.Stack(t)[..n] + tops]
    ensures CleanStacks(s')
  {
    forall u: nat, d: nat | d < |s'.Stack(u)| ensures CleanFrame(s'.Stack(u)[d]) {
      if u != t || d < n { assert CleanFrame(s.Stack(u)[d]); }
    }
  }

  lemma CleanSame(s: State, s': State)
    requires CleanStacks(s) && s'.stacks == s.stacks
    ensures CleanStacks(s')
  {
    assert forall t: nat :: s'.Stack(t) == s.Stack(t);
  }

  lemma CleanSet(s: State, t: ThreadId, n: nat, tops: seq<Frame>)
    requires Clean(s) && |s.Stack(t)| >= n && (forall i: nat :: i < |tops| ==> CleanFrame(tops[i]))
    ensures Clean(s.SetStack(t, s.Stack(t)[..n] + tops)) && (tops == [] ==> Clean(s.SetStack(t, s.Stack(t)[..n])))
  {
    assert tops == [] ==> s.Stack(t)[..n] + tops == s.Stack(t)[..n];
    CleanReplaced(s, s.SetStack(t, s.Stack(t)[..n] + tops), t, n, tops);
  }

  lemma CleanInvoke(s: State, t: ThreadId, n: nat, entry: Entry, claimed: bool, inCall: Frame, after: Frame)
    requires Clean(s) && n <= |s.Stack(t)| && CleanFrame(inCall) && CleanFrame(after) &&
             (entry.SingleShot() ==> claimed)
    ensures Clean(Invoke(s, t, s.Stack(t)[..n], entry, claimed, inCall, after))
  {
    var s' := Invoke(s, t, s.Stack(t)[..n], entry, claimed, inCall, after);
    CleanReplaced(s, s', t, n, [if entry.request.callable then inCall else after]);
  }

  lemma CleanFast(s: State, t: ThreadId, n: nat, rest: seq<Entry>)
    requires Clean(s) && n <= |s.Stack(t)| && NoShots(rest)
    ensures Clean(FastStep(s, t, s.Stack(t)[..n], rest))
  {
    if rest == [] {
      CleanSet(s, t, n, []);
    } else {
      CleanInvoke(s, t, n, rest[0], false, FastCall(rest[1..]), Fast(rest[1..]));
    }
  }

  lemma CleanSlow(s: State, t: ThreadId, n: nat, rest: seq<Entry>)
    requires Clean(s) && n <= |s.Stack(t)|
    ensures Clean(SlowStep(s, t, s.Stack(t)[..n], rest))
  {
    if rest == [] {
      CleanSet(s, t, n, []);
    } else if !rest[0].SingleShot() {
      CleanInvoke(s, t, n, rest[0], false, SlowCall(rest[1..]), Slow(rest[1..]));
    } else {
      var top := if rest[0].id in s.claims then Slow(rest[1..]) else Claimed(rest[0], rest[1..]);
      CleanReplaced(s, SlowStep(s, t, s.Stack(t)[..n], rest), t, n, [top]);
    }
  }

  lemma CleanEmitter(s: State, t: ThreadId)
    requires Clean(s)
    ensures Clean(EmitterStep(s, t))
  {
    var stack := s.Stack(t);
    if stack != [] {
      var n := |stack| - 1;
      assert CleanFrame(stack[n]);
      match stack[n]
      case Fast(rest) => CleanFast(s, t, n, rest);
      case Slow(rest) => CleanSlow(s, t, n, rest);
      case Removed(entry, rest) => CleanInvoke(s, t, n, entry, true, SlowCall(rest), Slow(rest));
      case FastCall(rest) => CleanSet(s, t, n, [Fast(rest)]);
      case SlowCall(rest) => CleanSet(s, t, n, [Slow(rest)]);
      case _ =>
    }
  }

  lemma CleanLoad(s: State, a: Action)
    requires Clean(s) && !s.Holds(a.t) && !StaleLoad(s, a)
    ensures Clean(LoadStep(s, a))
  {
    var stack := s.Stack(a.t);
    if stack != [] {
      var n := |stack| - 1;
      CleanSet(s, a.t, n, []);
      CleanSet(s, a.t, n, [Counted]);
      CleanSet(s, a.t, n, [Snapped(s.shared.list)]);
      if stack[n].Snapped? {
        var fast := s.shared.singleShotCount == 0 && a.LoadShots?;
        CleanSet(s, a.t, n, [if fast then Fast(stack[n].rest) else Slow(stack[n].rest)]);
      }
    }
  }

  lemma CleanHold(s: State)
    requires Clean(s) && s.mutex.Locked?
    ensures Clean(HolderStep(s))
  {
    var t, s' := s.mutex.holder, HolderStep(s);
    var stack := s.Stack(t);
    if s'.stacks != s.stacks {
      var n := |stack| - 1;
      CleanReplaced(s, s', t, n, [Removed(stack[n].entry, stack[n].rest)]);
    } else {
      CleanSame(s, s');
    }
  }

  lemma CleanStep(s: State, a: Action)
    requires Clean(s) && !StaleLoad(s, a)
    ensures Clean(Step(s, a))
  {
    if a.Hold? {
      if s.Holds(a.t) { CleanHold(s); }
    } else if s.Holds(a.t) || a.Lock? {
      CleanSame(s, Step(s, a));
    } else if a.Emit? {
      assert s.Stack(a.t)[..|s.Stack(a.t)|] == s.Stack(a.t);
      CleanSet(s, a.t, |s.Stack(a.t)|, [Entered]);
    } else if a.Next? {
      CleanEmitter(s, a.t);
    } else {
      CleanLoad(s, a);
    }
  }

  lemma {:induction false} CleanRun(s: State, actions: seq<Action>)
    requires Clean(s) && NoStaleLoad(s, actions)
    ensures Clean(Run(s, actions))
    decreases |actions|
  {
    if actions != [] {
      var n := |actions| - 1;
      var front := actions[..n];
      forall k: nat | k < n ensures !StaleLoad(Run(s, front[..k]), front[k]) {
        assert front[..k] == actions[..k];
      }
      CleanRun(s, front);
      CleanStep(Run(s, front), actions[n]);
    }
  }

  lemma InitialClean(s: State)
    requires Init(s)
    ensures Clean(s)
  {
  }

  /** In a run without a stale load every single-shot call goes through the claim path, so none is
      made twice, by whatever threads. */
  lemma SingleShotsCalledOnce(start: State, actions: seq<Action>, i: nat, j: nat)
    requires Init(start) && NoStaleLoad(start, actions)
    requires i < j < |Run(start, actions).calls| && Run(start, actions).calls[j].entry.SingleShot()
    ensures Run(start, actions).calls[j].claimed &&
            Run(start, actions).calls[i].entry != Run(start, actions).calls[j].entry
  {
    InitialClean(start);
    CleanRun(start, actions);
    var calls := Run(start, actions).calls;
    if calls[i].entry == calls[j].entry { ClaimedCallsDiffer(start, actions, i, j); }
  }

  /** A load is stale only after every single-shot entry has left the published list. */
  lemma StaleLoadFollowsRemoval(start: State, actions: seq<Action>, a: Action, k: nat)
    requires Init(start) && StaleLoad(Run(start, actions), a) && k < |Run(start, actions).shared.list|
    ensures !Run(start, actions).shared.list[k].SingleShot()
  {
    CountersCoverList(start, actions);
    MemberId(Run(start, actions).shared.list, k);
  }

  lemma {:induction false} RunCons(s: State, a: Action, more: seq<Action>)
    ensures Run(s, [a] + more) == Run(Step(s, a), more)
    decreases |more|
  {
    var all := [a] + more;
    if more == [] {
      assert all == [a] && all[..0] == [] && Run(s, []) == s;
    } else {
      var n := |more| - 1;
      assert all[..|all| - 1] == [a] + more[..n];
      RunCons(s, a, more[..n]);
    }
  }

  /** The emission of thread t at depth n has not returned before the last of the actions. */
  ghost predicate Alive(s: State, t: ThreadId, n: nat, actions: seq<Action>)
    decreases |actions|
  {
    |s.Stack(t)| > n && (actions == [] || Alive(Step(s, actions[0]), t, n, actions[1..]))
  }

  lemma {:induction false} AliveCons(s: State, t: ThreadId, n: nat, a: Action, more: seq<Action>)
    requires |s.Stack(t)| > n && Alive(Step(s, a), t, n, more)
    ensures Alive(s, t, n, [a] + more)
  {
    assert ([a] + more)[1..] == more;
  }

  predicate IsCallOf(c: Call, e: Entry, emission: (ThreadId, nat)) {
    c.entry == e && c.emission == emission
  }

  /** In these actions the emission of thread t at depth n calls e. */
  ghost predicate EmissionCalls(s: State, actions: seq<Action>, e: Entry, t: ThreadId, n: nat) {
    var calls := Run(s, actions).calls;
    exists j: nat :: |s.calls| <= j < |calls| && IsCallOf(calls[j], e, (t, n))
  }

  /** In these actions this very call is made. */
  ghost predicate Makes(s: State, actions: seq<Action>, call: Call) {
    var calls := Run(s, actions).calls;
    exists j: nat :: |s.calls| <= j < |calls| && calls[j] == call
  }

  /** One action moved in front of the rest of a continuation. */
  lemma {:induction false} MakesLater(s: State, a: Action, more: seq<Action>, call: Call, t: ThreadId, n: nat)
    requires |s.Stack(t)| > n && Alive(Step(s, a), t, n, more) && |s.calls| <= |Step(s, a).calls|
    requires Makes(Step(s, a), more, call)
    ensures Alive(s, t, n, [a] + more) && Makes(s, [a] + more, call)
  {
    AliveCons(s, t, n, a, more);
    RunCons(s, a, more);
  }

  /** Thread t is about to load the counter, with a callable single-shot entry k in its snapshot. */
  ghost predicate BeforeLoad(s: State, t: ThreadId, k: nat) {
    var stack := s.Stack(t);
    stack != [] && stack[|stack| - 1].Snapped? && k < |stack[|stack| - 1].rest| &&
    stack[|stack| - 1].rest[k].SingleShot() && stack[|stack| - 1].rest[k].request.callable
  }

  /** What remains of the snapshot of t's innermost emission. */
  function Ahead(s: State, t: ThreadId): seq<Entry> {
    var stack := s.Stack(t);
    if stack == [] then [] else Rest(stack[|stack| - 1])
  }

  lemma LoadFacts(s: State, t: ThreadId)
    requires HolderOk(s) && s.Stack(t) != [] && s.Stack(t)[|s.Stack(t)| - 1].Snapped?
    ensures var stack, s' := s.Stack(t), Step(s, LoadShots(t));
            var n := |stack| - 1;
            !s'.Holds(t) && s'.claims == s.claims && s'.calls == s.calls &&
            s'.Stack(t) == stack[..n] +
                           [if s.shared.singleShotCount == 0 then Fast(stack[n].rest) else Slow(stack[n].rest)]
  {
  }

  /** The thread's emission just goes on, and slots return at once. */
  predicate OnlyNext(actions: seq<Action>, t: ThreadId) {
    forall i: nat :: i < |actions| ==> actions[i] == Next(t)
  }

  /** Some continuation, by whatever threads, has the emission of thread t at depth n call e. */
  ghost predicate CanCall(s: State, e: Entry, t: ThreadId, n: nat) {
    exists more :: Alive(s, t, n, more) && EmissionCalls(s, more, e, t, n)
  }

  /** The emission does so by itself. */
  ghost predicate CallsAlone(s: State, e: Entry, t: ThreadId, n: nat) {
    exists more :: OnlyNext(more, t) && Alive(s, t, n, more) && EmissionCalls(s, more, e, t, n)
  }

  lemma {:induction false} FastNext(s: State, t: ThreadId, below: seq<Frame>, rest: seq<Entry>)
    requires !s.Holds(t) && s.Stack(t) == below + [Fast(rest)] && rest != []
    ensures var s' := Step(s, Next(t));
            !s'.Holds(t) &&
            if rest[0].request.callable then
              s'.Stack(t) == below + [FastCall(rest[1..])] && s'.calls == s.calls + [Call(rest[0], false, (t, |below|))]
            else s'.Stack(t) == below + [Fast(rest[1..])] && s'.calls == s.calls
  {
    assert Step(s, Next(t)) == FastStep(s, t, below, rest);
  }

  lemma {:induction false} FastReturn(s: State, t: ThreadId, below: seq<Frame>, rest: seq<Entry>)
    requires !s.Holds(t) && s.Stack(t) == below + [FastCall(rest)]
    ensures var s' := Step(s, Next(t)); !s'.Holds(t) && s'.Stack(t) == below + [Fast(rest)] && s'.calls == s.calls
  {
  }

  /** An emission in the unlocked loop, left to itself, calls every entry ahead without claiming it. */
  lemma {:induction false} FastLoopCalls(s: State, t: ThreadId, below: seq<Frame>, rest: seq<Entry>, k: nat)
    returns (actions: seq<Action>)
    requires !s.Holds(t) && s.Stack(t) == below + [Fast(rest)] && k < |rest| && rest[k].request.callable
    ensures Alive(s, t, |below|, actions) && Makes(s, actions, Call(rest[k], false, (t, |below|)))
    ensures OnlyNext(actions, t)
    decreases k
  {
    var n, s1 := |below|, Step(s, Next(t));
    var call := Call(rest[k], false, (t, n));
    FastNext(s, t, below, rest);
    if k == 0 {
      actions := [Next(t)];
      assert Run(s, []) == s && actions[..0] == [];
      assert Run(s, actions) == s1 && s1.calls[|s.calls|] == call;
    } else if rest[0].request.callable {
      var s2 := Step(s1, Next(t));
      FastReturn(s1, t, below, rest[1..]);
      var more := FastLoopCalls(s2, t, below, rest[1..], k - 1);
      MakesLater(s1, Next(t), more, call, t, n);
      MakesLater(s, Next(t), [Next(t)] + more, call, t, n);
      actions := [Next(t)] + ([Next(t)] + more);
    } else {
      var more := FastLoopCalls(s1, t, below, rest[1..], k - 1);
      MakesLater(s, Next(t), more, call, t, n);
      actions := [Next(t)] + more;
    }
  }

  /** So a stale load leads, if its thread just goes on, to an unclaimed single-shot call. */
  lemma {:induction false} StaleLoadCalls(s: State, a: Action, k: nat) returns (actions: seq<Action>)
    requires StaleLoad(s, a) && k < |Ahead(s, a.t)| && Ahead(s, a.t)[k].request.callable
    ensures Makes(Step(s, a), actions, Call(Ahead(s, a.t)[k], false, (a.t, |s.Stack(a.t)| - 1)))
  {
    var stack := s.Stack(a.t);
    var n := |stack| - 1;
    actions := FastLoopCalls(Step(s, a), a.t, stack[..n], stack[n].rest, k);
  }

  /** The frame walks its snapshot with claims, and not on a claim of e. */
  predicate Guarded(f: Frame, e: Entry) {
    f.Slow? || f.SlowCall? || (HoldsClaim(f) && f.entry.id != e.id)
  }

  /** A claimed single-shot entry cannot be called by the guarded emission at depth n of thread t. */
  ghost predicate Skips(s: State, e: Entry, t: ThreadId, n: nat) {
    e.SingleShot() && e.id in s.claims && |s.Stack(t)| > n && Guarded(s.Stack(t)[n], e)
  }

  /** What one step does for the emission at depth n of thread t, as long as it does not return. */
  ghost predicate StillSkips(s: State, s': State, e: Entry, t: ThreadId, n: nat) {
    s.calls <= s'.calls && |s'.calls| <= |s.calls| + 1 &&
    (|s'.calls| > |s.calls| ==> !IsCallOf(s'.calls[|s.calls|], e, (t, n))) &&
    (|s'.Stack(t)| > n ==> Skips(s', e, t, n))
  }

  lemma SkipsInvoke(s: State, u: ThreadId, m: nat, entry: Entry, claimed: bool, inCall: Frame, after: Frame,
                    e: Entry, t: ThreadId, n: nat)
    requires Skips(s, e, t, n) && |s.Stack(u)| == m + 1
    requires (u, m) == (t, n) ==> entry != e && Guarded(inCall, e) && Guarded(after, e)
    ensures StillSkips(s, Invoke(s, u, s.Stack(u)[..m], entry, claimed, inCall, after), e, t, n)
  {
  }

  lemma SkipsTop(s: State, u: ThreadId, m: nat, tops: seq<Frame>, e: Entry, t: ThreadId, n: nat)
    requires Skips(s, e, t, n) && |s.Stack(u)| == m + 1 && |tops| <= 1
    requires (u, m) == (t, n) && tops != [] ==> Guarded(tops[0], e)
    ensures StillSkips(s, s.SetStack(u, s.Stack(u)[..m] + tops), e, t, n)
    ensures tops == [] ==> StillSkips(s, s.SetStack(u, s.Stack(u)[..m]), e, t, n)
  {
  }

  lemma SkipsSlow(s: State, u: ThreadId, m: nat, rest: seq<Entry>, e: Entry, t: ThreadId, n: nat)
    requires Skips(s, e, t, n) && |s.Stack(u)| == m + 1
    ensures StillSkips(s, SlowStep(s, u, s.Stack(u)[..m], rest), e, t, n)
  {
    if rest == [] {
      SkipsTop(s, u, m, [], e, t, n);
    } else if !rest[0].SingleShot() {
      SkipsInvoke(s, u, m, rest[0], false, SlowCall(rest[1..]), Slow(rest[1..]), e, t, n);
    } else if rest[0].id in s.claims {
      SkipsTop(s, u, m, [Slow(rest[1..])], e, t, n);
    } else {
      SkipsTop(s, u, m, [Claimed(rest[0], rest[1..])], e, t, n);
    }
  }

  lemma SkipsEmitter(s: State, u: ThreadId, e: Entry, t: ThreadId, n: nat)
    requires Skips(s, e, t, n)
    ensures StillSkips(s, EmitterStep(s, u), e, t, n)
  {
    var stack := s.Stack(u);
    if stack != [] {
      var m := |stack| - 1;
      match stack[m]
      case Fast(rest) =>
        if rest == [] { SkipsTop(s, u, m, [], e, t, n); }
        else { SkipsInvoke(s, u, m, rest[0], false, FastCall(rest[1..]), Fast(rest[1..]), e, t, n); }
      case Slow(rest) => SkipsSlow(s, u, m, rest, e, t, n);
      case Removed(entry, rest) => SkipsInvoke(s, u, m, entry, true, SlowCall(rest), Slow(rest), e, t, n);
      case FastCall(rest) => SkipsTop(s, u, m, [Fast(rest)], e, t, n);
      case SlowCall(rest) => SkipsTop(s, u, m, [Slow(rest)], e, t, n);
      case _ =>
    }
  }

  lemma SkipsLoad(s: State, a: Action, e: Entry, t: ThreadId, n: nat)
    requires Skips(s, e, t, n)
    ensures StillSkips(s, LoadStep(s, a), e, t, n)
  {
    var stack := s.Stack(a.t);
    if stack != [] && (a.t, |stack| - 1) != (t, n) {
      var m := |stack| - 1;
      SkipsTop(s, a.t, m, [], e, t, n);
      SkipsTop(s, a.t, m, [Counted], e, t, n);
      SkipsTop(s, a.t, m, [Snapped(s.shared.list)], e, t, n);
      if stack[m].Snapped? {
        SkipsTop(s, a.t, m, [Fast(stack[m].rest)], e, t, n);
        SkipsTop(s, a.t, m, [Slow(stack[m].rest)], e, t, n);
      }
    }
  }

  lemma SkipsStep(s: State, a: Action, e: Entry, t: ThreadId, n: nat)
    requires Skips(s, e, t, n)
    ensures StillSkips(s, Step(s, a), e, t, n)
  {
    if a.Next? && !s.Holds(a.t) {
      SkipsEmitter(s, a.t, e, t, n);
    } else if !a.Hold? && !a.Lock? && !a.Emit? && !s.Holds(a.t) {
      SkipsLoad(s, a, e, t, n);
    }
  }

  /** Whatever all threads do, a guarded emission never calls a claimed entry. */
  lemma {:induction false} GuardedNeverCalls(s: State, actions: seq<Action>, e: Entry, t: ThreadId, n: nat)
    requires Skips(s, e, t, n) && Alive(s, t, n, actions)
    ensures s.calls <= Run(s, actions).calls && !EmissionCalls(s, actions, e, t, n)
    decreases |actions|
  {
    if actions == [] {
      assert Run(s, actions) == s;
    } else {
      var a, more := actions[0], actions[1..];
      assert actions == [a] + more;
      SkipsStep(s, a, e, t, n);
      GuardedNeverCalls(Step(s, a), more, e, t, n);
      RunCons(s, a, more);
    }
  }

  // ----- an emission on the claim path reaches every unclaimed entry ahead

  function MutexCount(s: State): nat {
    if s.mutex == Unlocked then 0 else 1 + StageCount(s.shared, s.mutex.stage)
  }

  /** e is in the list, and no entry before it has its id. */
  predicate ComesFirst(list: seq<Entry>, e: Entry) {
    list != [] && (list[0] == e || (list[0].id != e.id && ComesFirst(list[1..], e)))
  }

  lemma {:induction false} OrderlyComesFirst(list: seq<Entry>, k: nat)
    requires k < |list| && forall i: nat :: i < k ==> list[i].id != list[k].id
    ensures ComesFirst(list, list[k])
    decreases k
  {
    if k > 0 { OrderlyComesFirst(list[1..], k - 1); }
  }

  /** The frame is on the claim path, and e is next or ahead, unclaimed by others. */
  predicate Due(claims: map<ConnectionId, (ThreadId, nat)>, f: Frame, e: Entry) {
    match f
    case Slow(rest) => e.id !in claims && ComesFirst(rest, e)
    case SlowCall(rest) => e.id !in claims && ComesFirst(rest, e)
    case Claimed(entry, rest) => entry == e || (e.id !in claims && ComesFirst(rest, e))
    case Removed(entry, rest) => entry == e || (e.id !in claims && ComesFirst(rest, e))
    case _ => false
  }

  /** The stages of one entry, from the claim on. */
  function Phase(s: State, t: ThreadId, f: Frame): nat {
    match f
    case Claimed(_, _) => if s.Holds(t) then 3 else 4
    case Removed(_, _) => 2
    case SlowCall(_) => 1
    case _ => 0
  }

  /** The emission of thread t above `below`, with e due. */
  ghost predicate Waits(s: State, t: ThreadId, below: seq<Frame>, f: Frame, e: Entry) {
    s.Stack(t) == below + [f] && Due(s.claims, f, e) && (s.Holds(t) ==> f.Claimed?) &&
    e.SingleShot() && e.request.callable
  }

  /** The next step of the claim loop, towards e. */
  lemma SlowNext(s: State, t: ThreadId, below: seq<Frame>, rest: seq<Entry>, e: Entry) returns (f: Frame)
    requires Waits(s, t, below, Slow(rest), e)
    ensures Waits(Step(s, Next(t)), t, below, f, e) && |Rest(f)| < |rest| && s.calls <= Step(s, Next(t)).calls
  {
    var s' := Step(s, Next(t));
    assert s' == SlowStep(s, t, below, rest);
    if !rest[0].SingleShot() {
      f := if rest[0].request.callable then SlowCall(rest[1..]) else Slow(rest[1..]);
    } else if rest[0].id in s.claims {
      f := Slow(rest[1..]);
    } else {
      f := Claimed(rest[0], rest[1..]);
    }
    assert s'.Stack(t) == below + [f];
  }

  /** A claimed entry that is not e is called, if it has a slot. */
  lemma RemovedNext(s: State, t: ThreadId, below: seq<Frame>, entry: Entry, rest: seq<Entry>, e: Entry)
    returns (f: Frame)
    requires Waits(s, t, below, Removed(entry, rest), e) && entry != e
    ensures Waits(Step(s, Next(t)), t, below, f, e) && Rest(f) == rest && (f.Slow? || f.SlowCall?)
    ensures s.calls <= Step(s, Next(t)).calls
  {
    var s' := Step(s, Next(t));
    f := if entry.request.callable then SlowCall(rest) else Slow(rest);
    assert s'.Stack(t) == below + [f];
  }

  lemma ReturnNext(s: State, t: ThreadId, below: seq<Frame>, rest: seq<Entry>, e: Entry)
    requires Waits(s, t, below, SlowCall(rest), e)
    ensures Waits(Step(s, Next(t)), t, below, Slow(rest), e) && s.calls <= Step(s, Next(t)).calls
  {
    assert Step(s, Next(t)).Stack(t) == below + [Slow(rest)];
  }

  /** While the mutex is held, by t or by another thread, its holder goes on. */
  lemma HolderNext(s: State, t: ThreadId, below: seq<Frame>, entry: Entry, rest: seq<Entry>, e: Entry)
    returns (f: Frame)
    requires Waits(s, t, below, Claimed(entry, rest), e) && s.mutex.Locked?
    ensures var s' := Step(s, Hold(s.mutex.holder));
            Waits(s', t, below, f, e) && Rest(f) == rest && s'.calls == s.calls &&
            (f.Removed? || (f.Claimed? && Phase(s', t, f) == Phase(s, t, Claimed(entry, rest)) &&
                            MutexCount(s') < MutexCount(s)))
  {
    var s' := Step(s, Hold(s.mutex.holder));
    if !s.mutex.stage.Finished? { StageCountFalls(s.shared, s.mutex.stage); }
    f := if s'.mutex == Unlocked && s.mutex.holder == t then Removed(entry, rest) else Claimed(entry, rest);
    assert s'.Stack(t) == below + [f];
  }

  lemma LockNext(s: State, t: ThreadId, below: seq<Frame>, entry: Entry, rest: seq<Entry>, e: Entry)
    requires Waits(s, t, below, Claimed(entry, rest), e) && s.mutex == Unlocked
    ensures var s' := Step(s, Lock(t, Disconnect(entry.id)));
            Waits(s', t, below, Claimed(entry, rest), e) && s'.Holds(t) && s'.calls == s.calls
  {
  }

  lemma {:induction false} CanCallLater(s: State, a: Action, e: Entry, t: ThreadId, n: nat)
    requires |s.Stack(t)| > n && s.calls <= Step(s, a).calls && CanCall(Step(s, a), e, t, n)
    ensures CanCall(s, e, t, n)
  {
    var s' := Step(s, a);
    var more :| Alive(s', t, n, more) && EmissionCalls(s', more, e, t, n);
    AliveCons(s, t, n, a, more);
    RunCons(s, a, more);
    assert EmissionCalls(s, [a] + more, e, t, n);
  }

  lemma {:induction false} CallsNext(s: State, t: ThreadId, below: seq<Frame>, e: Entry, rest: seq<Entry>)
    requires Waits(s, t, below, Removed(e, rest), e)
    ensures CanCall(s, e, t, |below|)
  {
    var s', n := Step(s, Next(t)), |below|;
    assert s'.Stack(t) == below + [SlowCall(rest)];
    assert IsCallOf(s'.calls[|s.calls|], e, (t, n));
    var more := [Next(t)];
    assert Run(s, []) == s && more[..0] == [] && more[1..] == [];
    assert Run(s, more) == s';
    assert Alive(s, t, n, more) && EmissionCalls(s, more, e, t, n);
  }

  /** So the emission can get to e and call it, once whoever holds the mutex lets go of it. */
  lemma {:induction false} WaitingCanCall(s: State, t: ThreadId, below: seq<Frame>, f: Frame, e: Entry)
    requires Waits(s, t, below, f, e)
    ensures CanCall(s, e, t, |below|)
    decreases |Rest(f)|, Phase(s, t, f), MutexCount(s)
  {
    var n := |below|;
    match f
    case Slow(rest) =>
      var g := SlowNext(s, t, below, rest, e);
      WaitingCanCall(Step(s, Next(t)), t, below, g, e);
      CanCallLater(s, Next(t), e, t, n);
    case SlowCall(rest) =>
      ReturnNext(s, t, below, rest, e);
      WaitingCanCall(Step(s, Next(t)), t, below, Slow(rest), e);
      CanCallLater(s, Next(t), e, t, n);
    case Removed(entry, rest) =>
      if entry == e {
        CallsNext(s, t, below, e, rest);
      } else {
        var g := RemovedNext(s, t, below, entry, rest, e);
        WaitingCanCall(Step(s, Next(t)), t, below, g, e);
        CanCallLater(s, Next(t), e, t, n);
      }
    case Claimed(entry, rest) =>
      if s.mutex.Locked? {
        var g := HolderNext(s, t, below, entry, rest, e);
        WaitingCanCall(Step(s, Hold(s.mutex.holder)), t, below, g, e);
        CanCallLater(s, Hold(s.mutex.holder), e, t, n);
      } else {
        LockNext(s, t, below, entry, rest, e);
        WaitingCanCall(Step(s, Lock(t, Disconnect(entry.id))), t, below, f, e);
        CanCallLater(s, Lock(t, Disconnect(entry.id)), e, t, n);
      }
  }

  // ----- the exact condition

  /** Let an emission in any run stand before its load of the counter, with a callable single-shot entry
      in its snapshot that may have been called any number of times before. It can go on to call the
      entry if and only if the load finds zero or the entry is unclaimed. */
  lemma {:induction false} CallableExactly(start: State, actions: seq<Action>, t: ThreadId, k: nat)
    requires Init(start) && BeforeLoad(Run(start, actions), t, k)
    ensures var s := Run(start, actions);
            var e := Ahead(s, t)[k];
            CanCall(Step(s, LoadShots(t)), e, t, |s.Stack(t)| - 1) <==>
            s.shared.singleShotCount == 0 || e.id !in s.claims
  {
    var s := Run(start, actions);
    var n, s', e := |s.Stack(t)| - 1, Step(s, LoadShots(t)), Ahead(s, t)[k];
    RunKeepsInv(start, actions);
    LoadFacts(s, t);
    if s.shared.singleShotCount == 0 {
      ZeroCallsAlone(s, t, k);
    } else if e.id !in s.claims {
      UnclaimedCanCall(s, t, k);
    } else {
      forall more | Alive(s', t, n, more) ensures !EmissionCalls(s', more, e, t, n) {
        GuardedNeverCalls(s', more, e, t, n);
      }
    }
  }

  lemma {:induction false} ZeroCallsAlone(s: State, t: ThreadId, k: nat)
    requires HolderOk(s) && BeforeLoad(s, t, k) && s.shared.singleShotCount == 0
    ensures CallsAlone(Step(s, LoadShots(t)), Ahead(s, t)[k], t, |s.Stack(t)| - 1)
  {
    var stack, n := s.Stack(t), |s.Stack(t)| - 1;
    LoadFacts(s, t);
    var more := FastLoopCalls(Step(s, LoadShots(t)), t, stack[..n], stack[n].rest, k);
    assert EmissionCalls(Step(s, LoadShots(t)), more, stack[n].rest[k], t, n);
  }

  lemma {:induction false} UnclaimedCanCall(s: State, t: ThreadId, k: nat)
    requires HolderOk(s) && StacksOk(s) && BeforeLoad(s, t, k)
    requires s.shared.singleShotCount != 0 && Ahead(s, t)[k].id !in s.claims
    ensures CanCall(Step(s, LoadShots(t)), Ahead(s, t)[k], t, |s.Stack(t)| - 1)
  {
    var stack, n := s.Stack(t), |s.Stack(t)| - 1;
    var rest := stack[n].rest;
    LoadFacts(s, t);
    assert FrameAtOk(s, t, n);
    forall i: nat | i < k ensures rest[i].id != rest[k].id {
      OrderlyPairs(rest, i, k);
    }
    OrderlyComesFirst(rest, k);
    WaitingCanCall(Step(s, LoadShots(t)), t, stack[..n], Slow(rest), rest[k]);
  }

  /** So if the entry was already called through the claim path, the emission can call it again if and
      only if the load finds zero: then it does so by itself, otherwise not whatever all threads do. */
  lemma {:induction false} RepeatedExactly(start: State, actions: seq<Action>, t: ThreadId, k: nat, i: nat)
    requires Init(start) && BeforeLoad(Run(start, actions), t, k)
    requires var s := Run(start, actions); i < |s.calls| && s.calls[i].claimed && s.calls[i].entry == Ahead(s, t)[k]
    ensures var s := Run(start, actions);
            CanCall(Step(s, LoadShots(t)), Ahead(s, t)[k], t, |s.Stack(t)| - 1) <==> s.shared.singleShotCount == 0
    ensures var s := Run(start, actions);
            s.shared.singleShotCount == 0 ==> CallsAlone(Step(s, LoadShots(t)), Ahead(s, t)[k], t, |s.Stack(t)| - 1)
  {
    var s := Run(start, actions);
    RunKeepsInv(start, actions);
    CalledAt(s.calls, i);
    CallableExactly(start, actions, t, k);
    if s.shared.singleShotCount == 0 { ZeroCallsAlone(s, t, k); }
  }

  // ----- every emission calls every ordinary slot of its snapshot

  /** The connections that are not single-shot and have a slot, in order. */
  function Ordinary(list: seq<Entry>): seq<Entry> {
    if list == [] then []
    else (if !list[0].SingleShot() && list[0].request.callable then [list[0]] else []) + Ordinary(list[1..])
  }

  /** The ordinary entries that the emission called, in the order of the calls. */
  function OrdinaryCalls(calls: seq<Call>, emission: (ThreadId, nat)): seq<Entry> {
    if calls == [] then []
    else
      (if calls[0].emission == emission && !calls[0].entry.SingleShot() then [calls[0].entry] else []) +
      OrdinaryCalls(calls[1..], emission)
  }

  /** The frame has its snapshot, and claims single-shot entries only. */
  predicate Walks(f: Frame) {
    !f.Entered? && !f.Counted? && (HoldsClaim(f) ==> f.entry.SingleShot())
  }

  /** What a step may do to the emission at depth n of thread t: what it calls now and what is ahead
      afterwards is what was ahead before, and it returns only with nothing ahead. */
  ghost predicate Progress(s: State, s': State, t: ThreadId, n: nat) {
    |s.Stack(t)| > n && s.calls <= s'.calls && |s'.calls| <= |s.calls| + 1 &&
    var f, made := s.Stack(t)[n], OrdinaryCalls(s'.calls[|s.calls|..], (t, n));
    if |s'.Stack(t)| > n then
      Walks(s'.Stack(t)[n]) && made + Ordinary(Rest(s'.Stack(t)[n])) == Ordinary(Rest(f))
    else made == [] && Ordinary(Rest(f)) == []
  }

  lemma {:induction false} OneCall(calls: seq<Call>, c: Call, emission: (ThreadId, nat))
    ensures OrdinaryCalls((calls + [c])[|calls|..], emission) ==
            if c.emission == emission && !c.entry.SingleShot() then [c.entry] else []
    ensures OrdinaryCalls(calls[|calls|..], emission) == []
  {
    assert (calls + [c])[|calls|..] == [c] && [c][1..] == [] && calls[|calls|..] == [];
  }

  /** A step that logs no call and leaves the frame, or replaces it by one with the same entries ahead. */
  lemma {:induction false} QuietProgress(s: State, s': State, t: ThreadId, n: nat)
    requires |s.Stack(t)| > n && Walks(s.Stack(t)[n]) && s'.calls == s.calls
    requires if |s'.Stack(t)| > n then
               Walks(s'.Stack(t)[n]) && Ordinary(Rest(s'.Stack(t)[n])) == Ordinary(Rest(s.Stack(t)[n]))
             else Ordinary(Rest(s.Stack(t)[n])) == []
    ensures Progress(s, s', t, n)
  {
    assert s.calls[|s.calls|..] == [];
  }

  lemma {:induction false} InvokeProgress(s: State, u: ThreadId, m: nat, entry: Entry, claimed: bool, inCall: Frame,
                                          after: Frame, t: ThreadId, n: nat)
    requires |s.Stack(t)| > n && Walks(s.Stack(t)[n]) && |s.Stack(u)| == m + 1 && Walks(inCall) && Walks(after)
    requires Rest(inCall) == Rest(after)
    requires (u, m) == (t, n) ==>
               Ordinary(Rest(s.Stack(t)[n])) ==
               (if !entry.SingleShot() && entry.request.callable then [entry] else []) + Ordinary(Rest(after))
    ensures Progress(s, Invoke(s, u, s.Stack(u)[..m], entry, claimed, inCall, after), t, n)
  {
    OneCall(s.calls, Call(entry, claimed, (u, m)), (t, n));
  }

  lemma {:induction false} TopProgress(s: State, u: ThreadId, m: nat, tops: seq<Frame>, t: ThreadId, n: nat)
    requires |s.Stack(t)| > n && Walks(s.Stack(t)[n]) && |s.Stack(u)| == m + 1 && |tops| <= 1
    requires (u, m) == (t, n) ==>
               if tops == [] then Ordinary(Rest(s.Stack(t)[n])) == []
               else Walks(tops[0]) && Ordinary(Rest(tops[0])) == Ordinary(Rest(s.Stack(t)[n]))
    ensures Progress(s, s.SetStack(u, s.Stack(u)[..m] + tops), t, n)
    ensures tops == [] ==> Progress(s, s.SetStack(u, s.Stack(u)[..m]), t, n)
  {
    assert tops == [] ==> s.Stack(u)[..m] + tops == s.Stack(u)[..m];
    QuietProgress(s, s.SetStack(u, s.Stack(u)[..m] + tops), t, n);
  }

  lemma {:induction false} SlowProgress(s: State, u: ThreadId, m: nat, rest: seq<Entry>, t: ThreadId, n: nat)
    requires |s.Stack(t)| > n && Walks(s.Stack(t)[n]) && |s.Stack(u)| == m + 1 && s.Stack(u)[m] == Slow(rest)
    ensures Progress(s, SlowStep(s, u, s.Stack(u)[..m], rest), t, n)
  {
    if rest == [] {
      TopProgress(s, u, m, [], t, n);
    } else if !rest[0].SingleShot() {
      InvokeProgress(s, u, m, rest[0], false, SlowCall(rest[1..]), Slow(rest[1..]), t, n);
    } else if rest[0].id in s.claims {
      TopProgress(s, u, m, [Slow(rest[1..])], t, n);
    } else {
      ClaimProgress(s, u, m, rest, t, n);
    }
  }

  lemma {:induction false} ClaimProgress(s: State, u: ThreadId, m: nat, rest: seq<Entry>, t: ThreadId, n: nat)
    requires |s.Stack(t)| > n && Walks(s.Stack(t)[n]) && |s.Stack(u)| == m + 1 && s.Stack(u)[m] == Slow(rest)
    requires rest != [] && rest[0].SingleShot()
    ensures Progress(s, s.SetStack(u, s.Stack(u)[..m] + [Claimed(rest[0], rest[1..])])
                         .(claims := s.claims[rest[0].id := (u, m)]), t, n)
  {
    var s' := s.SetStack(u, s.Stack(u)[..m] + [Claimed(rest[0], rest[1..])]).(claims := s.claims[rest[0].id := (u, m)]);
    QuietProgress(s, s', t, n);
  }

  lemma {:induction false} FastProgress(s: State, u: ThreadId, m: nat, rest: seq<Entry>, t: ThreadId, n: nat)
    requires |s.Stack(t)| > n && Walks(s.Stack(t)[n]) && |s.Stack(u)| == m + 1 && s.Stack(u)[m] == Fast(rest)
    ensures Progress(s, FastStep(s, u, s.Stack(u)[..m], rest), t, n)
  {
    if rest == [] {
      TopProgress(s, u, m, [], t, n);
    } else {
      InvokeProgress(s, u, m, rest[0], false, FastCall(rest[1..]), Fast(rest[1..]), t, n);
    }
  }

  lemma {:induction false} EmitterProgress(s: State, u: ThreadId, t: ThreadId, n: nat)
    requires |s.Stack(t)| > n && Walks(s.Stack(t)[n])
    ensures Progress(s, EmitterStep(s, u), t, n)
  {
    var stack := s.Stack(u);
    if stack == [] {
      QuietProgress(s, s, t, n);
    } else {
      var m := |stack| - 1;
      match stack[m]
      case Fast(rest) => FastProgress(s, u, m, rest, t, n);
      case Slow(rest) => SlowProgress(s, u, m, rest, t, n);
      case Removed(entry, rest) => InvokeProgress(s, u, m, entry, true, SlowCall(rest), Slow(rest), t, n);
      case FastCall(rest) => TopProgress(s, u, m, [Fast(rest)], t, n);
      case SlowCall(rest) => TopProgress(s, u, m, [Slow(rest)], t, n);
      case _ => QuietProgress(s, s, t, n);
    }
  }

  lemma {:induction false} LoadProgress(s: State, a: Action, t: ThreadId, n: nat)
    requires |s.Stack(t)| > n && Walks(s.Stack(t)[n])
    ensures Progress(s, LoadStep(s, a), t, n)
  {
    QuietProgress(s, s, t, n);
    var stack := s.Stack(a.t);
    if stack != [] {
      var m := |stack| - 1;
      if a.LoadShots? && stack[m].Snapped? {
        ShotsProgress(s, a.t, m, t, n);
      } else if (a.LoadCount? && stack[m].Entered?) || (a.LoadSnapshot? && stack[m].Counted?) {
        TopProgress(s, a.t, m, [], t, n);
        TopProgress(s, a.t, m, [if a.LoadCount? then Counted else Snapped(s.shared.list)], t, n);
      }
    }
  }

  lemma {:induction false} ShotsProgress(s: State, u: ThreadId, m: nat, t: ThreadId, n: nat)
    requires |s.Stack(t)| > n && Walks(s.Stack(t)[n]) && |s.Stack(u)| == m + 1 && s.Stack(u)[m].Snapped?
    ensures Progress(s, LoadStep(s, LoadShots(u)), t, n)
  {
    var rest := s.Stack(u)[m].rest;
    TopProgress(s, u, m, [if s.shared.singleShotCount == 0 then Fast(rest) else Slow(rest)], t, n);
  }

  lemma {:induction false} HoldProgress(s: State, t: ThreadId, n: nat)
    requires |s.Stack(t)| > n && Walks(s.Stack(t)[n]) && s.mutex.Locked?
    ensures Progress(s, HolderStep(s), t, n)
  {
    QuietProgress(s, HolderStep(s), t, n);
  }

  lemma {:induction false} StepProgress(s: State, a: Action, t: ThreadId, n: nat)
    requires |s.Stack(t)| > n && Walks(s.Stack(t)[n])
    ensures Progress(s, Step(s, a), t, n)
  {
    if a.Hold? && s.Holds(a.t) {
      HoldProgress(s, t, n);
    } else if a.Next? && !s.Holds(a.t) {
      EmitterProgress(s, a.t, t, n);
    } else if a.Hold? || s.Holds(a.t) || a.Lock? || a.Emit? {
      QuietProgress(s, Step(s, a), t, n);
    } else {
      LoadProgress(s, a, t, n);
    }
  }

  lemma {:induction false} OrdinaryCallsAppend(a: seq<Call>, b: seq<Call>, emission: (ThreadId, nat))
    ensures OrdinaryCalls(a + b, emission) == OrdinaryCalls(a, emission) + OrdinaryCalls(b, emission)
    decreases |a|
  {
    if a == [] {
      assert a + b == b;
    } else {
      assert (a + b)[1..] == a[1..] + b;
      OrdinaryCallsAppend(a[1..], b, emission);
    }
  }

  lemma {:induction false} CallsJoin(a: seq<Call>, b: seq<Call>, c: seq<Call>, emission: (ThreadId, nat))
    requires a <= b <= c
    ensures OrdinaryCalls(c[|a|..], emission) ==
            OrdinaryCalls(b[|a|..], emission) + OrdinaryCalls(c[|b|..], emission)
  {
    assert c[|a|..] == b[|a|..] + c[|b|..];
    OrdinaryCallsAppend(b[|a|..], c[|b|..], emission);
  }

  /** Between s and s' the emission went on: the ordinary slots it has called since s, followed by those
      still ahead of it, are those that were ahead in s, each once and in order. */
  ghost predicate SoFar(s: State, s': State, t: ThreadId, n: nat) {
    |s.Stack(t)| > n && |s'.Stack(t)| > n && s.calls <= s'.calls && Walks(s'.Stack(t)[n]) &&
    OrdinaryCalls(s'.calls[|s.calls|..], (t, n)) + Ordinary(Rest(s'.Stack(t)[n])) == Ordinary(Rest(s.Stack(t)[n]))
  }

  lemma {:induction false} SoFarJoin(s: State, s': State, s'': State, t: ThreadId, n: nat)
    requires SoFar(s, s', t, n) && SoFar(s', s'', t, n)
    ensures SoFar(s, s'', t, n)
  {
    CallsJoin(s.calls, s'.calls, s''.calls, (t, n));
  }

  /** This holds whatever all threads do. */
  lemma {:induction false} OrdinarySoFar(s: State, actions: seq<Action>, t: ThreadId, n: nat)
    requires Alive(s, t, n, actions) && Walks(s.Stack(t)[n])
    ensures SoFar(s, Run(s, actions), t, n)
    decreases |actions|
  {
    if actions == [] {
      assert s.calls[|s.calls|..] == [];
    } else {
      var a, more := actions[0], actions[1..];
      assert actions == [a] + more;
      StepProgress(s, a, t, n);
      OrdinarySoFar(Step(s, a), more, t, n);
      RunCons(s, a, more);
      SoFarJoin(s, Step(s, a), Run(s, actions), t, n);
    }
  }

  /** So when an emission returns, on either path and in every interleaving, it has called exactly the
      ordinary slots of its snapshot, each once and in list order. */
  lemma {:induction false} OrdinaryDelivered(s: State, actions: seq<Action>, last: Action, t: ThreadId, n: nat)
    requires Alive(s, t, n, actions) && s.Stack(t)[n].Snapped?
    requires |Run(s, actions + [last]).Stack(t)| <= n
    ensures s.calls <= Run(s, actions + [last]).calls
    ensures OrdinaryCalls(Run(s, actions + [last]).calls[|s.calls|..], (t, n)) == Ordinary(s.Stack(t)[n].rest)
  {
    var all := actions + [last];
    var s', s'' := Run(s, actions), Run(s, all);
    assert all[..|actions|] == actions;
    OrdinarySoFar(s, actions, t, n);
    StepProgress(s', last, t, n);
    CallsJoin(s.calls, s'.calls, s''.calls, (t, n));
  }

  /** An emission that is not blocked, begun by any thread while the mutex is free and something is
      connected, takes its snapshot from the published list. */
  lemma {:induction false} EmissionStarts(start: State, actions: seq<Action>, t: ThreadId)
    requires Init(start)
    requires var s := Run(start, actions); s.mutex == Unlocked && s.InUserCode(t) && s.shared.list != []
    ensures var s := Run(start, actions);
            var s' := Step(Step(Step(s, Emit(t)), LoadCount(t, false)), LoadSnapshot(t));
            s'.Stack(t) == s.Stack(t) + [Snapped(s.shared.list)] && s'.shared == s.shared
  {
    CountersCoverList(start, actions);
    var s := Run(start, actions);
    var below := s.Stack(t);
    EmitPushes(s, t, below);
    CountGoesOn(Step(s, Emit(t)), t, below);
    SnapshotTaken(Step(Step(s, Emit(t)), LoadCount(t, false)), t, below);
  }

  /** A blocked emission, or one that finds nothing connected, returns without calling anything. */
  lemma {:induction false} EmissionSkipped(s: State, t: ThreadId, below: seq<Frame>, blocked: bool)
    requires !s.Holds(t) && s.Stack(t) == below + [Entered] && (blocked || s.shared.connectionCount == 0)
    ensures var s' := Step(s, LoadCount(t, blocked));
            s'.Stack(t) == below && s'.calls == s.calls && s'.shared == s.shared
  {
  }

  lemma {:induction false} EmitPushes(s: State, t: ThreadId, below: seq<Frame>)
    requires s.mutex == Unlocked && s.InUserCode(t) && s.Stack(t) == below
    ensures var s' := Step(s, Emit(t));
            s'.Stack(t) == below + [Entered] && s'.shared == s.shared && s'.mutex == Unlocked
  {
  }

  lemma {:induction false} CountGoesOn(s: State, t: ThreadId, below: seq<Frame>)
    requires s.mutex == Unlocked && s.Stack(t) == below + [Entered] && s.shared.connectionCount != 0
    ensures var s' := Step(s, LoadCount(t, false));
            s'.Stack(t) == below + [Counted] && s'.shared == s.shared && s'.mutex == Unlocked
  {
  }

  lemma {:induction false} SnapshotTaken(s: State, t: ThreadId, below: seq<Frame>)
    requires s.mutex == Unlocked && s.Stack(t) == below + [Counted]
    ensures var s' := Step(s, LoadSnapshot(t));
            s'.Stack(t) == below + [Snapped(s.shared.list)] && s'.shared == s.shared
  {
  }

  // ----- one thread

  /** Thread t alone has stepped: its snapshot is current until the counter is loaded. */
  ghost predicate Solo(s: State, t: ThreadId) {
    var stack := s.Stack(t);
    (s.mutex.Locked? ==> s.mutex.holder == t) &&
    (stack != [] && stack[|stack| - 1].Snapped? ==> s.mutex == Unlocked && stack[|stack| - 1].rest == s.shared.list)
  }

  lemma SoloEmitter(s: State, t: ThreadId)
    requires StacksOk(s) && Solo(s, t)
    ensures Solo(EmitterStep(s, t), t)
  {
    var stack := s.Stack(t);
    if |stack| >= 2 { assert FrameAtOk(s, t, |stack| - 2); }
  }

  lemma SoloLoad(s: State, a: Action)
    requires StacksOk(s) && Solo(s, a.t) && !s.Holds(a.t)
    ensures Solo(LoadStep(s, a), a.t)
  {
    var stack := s.Stack(a.t);
    if |stack| >= 2 { assert FrameAtOk(s, a.t, |stack| - 2); }
  }

  lemma SoloStep(s: State, a: Action)
    requires StacksOk(s) && HolderOk(s) && Solo(s, a.t)
    ensures Solo(Step(s, a), a.t)
  {
    if !a.Hold? && !s.Holds(a.t) && !a.Lock? && !a.Emit? {
      if a.Next? { SoloEmitter(s, a.t); } else { SoloLoad(s, a); }
    }
  }

  lemma {:induction false} SoloRun(s: State, actions: seq<Action>, t: ThreadId)
    requires Inv(s) && Solo(s, t) && forall k: nat :: k < |actions| ==> actions[k].t == t
    ensures Inv(Run(s, actions)) && Solo(Run(s, actions), t)
    decreases |actions|
  {
    if actions != [] {
      var n := |actions| - 1;
      SoloRun(s, actions[..n], t);
      SoloStep(Run(s, actions[..n]), actions[n]);
      StepKeepsInv(Run(s, actions[..n]), actions[n]);
    }
  }

  lemma SoloNotStale(s: State, a: Action)
    requires CountsOk(s.shared, s.mutex.Pending()) && Solo(s, a.t)
    ensures !StaleLoad(s, a)
  {
    var list := s.shared.list;
    forall k: nat | k < |list| ensures list[k].SingleShot() ==> SingleShots(list) > 0 {
      MemberId(list, k);
    }
  }

  /** On one thread, however emissions nest, no load is stale, so every single-shot call is claimed. */
  lemma SoloNoStaleLoad(start: State, actions: seq<Action>, t: ThreadId)
    requires Init(start) && forall k: nat :: k < |actions| ==> actions[k].t == t
    ensures NoStaleLoad(start, actions)
  {
    InitialInv(start);
    forall k: nat | k < |actions| ensures !StaleLoad(Run(start, actions[..k]), actions[k]) {
      SoloRun(start, actions[..k], t);
      SoloNotStale(Run(start, actions[..k]), actions[k]);
    }
  }

  // ----- runs that repeat a single-shot call

  ghost predicate Reaches(start: State, s: State) {
    exists actions :: Run(start, actions) == s
  }

  lemma ReachesSelf(s: State)
    ensures Reaches(s, s)
  {
    assert Run(s, []) == s;
  }

  lemma Then(start: State, s: State, a: Action)
    requires Reaches(start, s)
    ensures Reaches(start, Step(s, a))
  {
    var actions :| Run(start, actions) == s;
    var longer := actions + [a];
    assert longer[..|actions|] == actions;
    assert Run(start, longer) == Step(s, a);
  }

  lemma HoldThen(start: State, s: State, shared: Shared, stage: Stage)
    requires Reaches(start, s) && s.mutex.Locked? && !stage.Finished? &&
             Advance(s.shared, s.mutex.stage) == (shared, stage)
    ensures Reaches(start, s.(shared := shared, mutex := Locked(s.mutex.holder, stage)))
  {
    Then(start, s, Hold(s.mutex.holder));
  }

  predicate Idle(s: Shared, list: seq<Entry>, next: ConnectionId) {
    s.list == list && s.connectionCount == |list| && s.singleShotCount == |list| && s.nextId == next && s.alive
  }

  /** Connecting one single-shot entry to an empty list. */
  lemma {:induction false} ConnectFirst(start: State, s: State, t: ThreadId, e: Entry) returns (s': State)
    requires Reaches(start, s) && s.mutex == Unlocked && s.Stack(t) == []
    requires Idle(s.shared, [], e.id) && e.SingleShot() && !e.request.unique
    ensures Reaches(start, s') && s' == s.(shared := s'.shared) && Idle(s'.shared, [e], e.id + 1)
  {
    Then(start, s, Lock(t, Connect(e.request)));
    var s1 := s.(mutex := Locked(t, Connect(e.request)));
    var x2 := s1.shared.(nextId := e.id + 1, connected := s1.shared.connected + {e.id});
    assert s.shared.list + [e] == [e] && e == Entry(e.id, e.request);
    assert Advance(s1.shared, Connect(e.request)) == (x2, CountShot(e, [e]));
    HoldThen(start, s1, x2, CountShot(e, [e]));
    var s2 := s1.(shared := x2, mutex := Locked(t, CountShot(e, [e])));
    var x3 := x2.(singleShotCount := 1);
    HoldThen(start, s2, x3, Publish(e, [e]));
    var s3 := s2.(shared := x3, mutex := Locked(t, Publish(e, [e])));
    var x4 := x3.(list := [e]);
    HoldThen(start, s3, x4, CountEntry);
    var s4 := s3.(shared := x4, mutex := Locked(t, CountEntry));
    s' := Step(s4, Hold(t));
    Then(start, s4, Hold(t));
  }

  /** From s to s' thread t's stack became [f], and no other stack changed. */
  ghost predicate Moved(s: State, s': State, t: ThreadId, f: Frame) {
    s'.mutex == s.mutex && s'.stacks == s.stacks[t := [f]]
  }

  lemma Overwritten(m: map<ThreadId, seq<Frame>>, t: ThreadId, a: seq<Frame>, b: seq<Frame>)
    ensures m[t := a][t := b] == m[t := b]
  {
  }

  lemma {:induction false} EmitStep(s: State, t: ThreadId)
    requires !s.Holds(t) && s.Stack(t) == []
    ensures Step(s, Emit(t)) == s.SetStack(t, [Entered])
  {
    assert s.Stack(t) + [Entered] == [Entered];
  }

  lemma {:induction false} CountStep(s: State, t: ThreadId)
    requires !s.Holds(t) && s.Stack(t) == [Entered] && s.shared.connectionCount != 0
    ensures Step(s, LoadCount(t, false)) == s.SetStack(t, [Counted])
  {
    assert s.Stack(t)[..0] + [Counted] == [Counted];
  }

  lemma {:induction false} StartEmission(start: State, s: State, t: ThreadId) returns (s': State)
    requires Reaches(start, s) && s.mutex == Unlocked && s.Stack(t) == [] && s.shared.connectionCount != 0
    ensures Reaches(start, s') && Moved(s, s', t, Counted) && s'.shared == s.shared && s'.claims == s.claims &&
            s'.calls == s.calls
  {
    var s1 := s.SetStack(t, [Entered]);
    EmitStep(s, t);
    Then(start, s, Emit(t));
    s' := s1.SetStack(t, [Counted]);
    CountStep(s1, t);
    Then(start, s1, LoadCount(t, false));
    Overwritten(s.stacks, t, [Entered], [Counted]);
  }

  /** Thread t snapshots the list, up to the load of the single-shot counter. */
  lemma {:induction false} Snapshot(start: State, s: State, t: ThreadId) returns (s': State)
    requires Reaches(start, s) && s.mutex == Unlocked && s.Stack(t) == [] && s.shared.connectionCount != 0
    ensures Reaches(start, s') && Moved(s, s', t, Snapped(s.shared.list))
    ensures s'.shared == s.shared && s'.claims == s.claims && s'.calls == s.calls
  {
    var s1 := StartEmission(start, s, t);
    s' := Step(s1, LoadSnapshot(t));
    Then(start, s1, LoadSnapshot(t));
    assert s'.Stack(t) == [Snapped(s.shared.list)];
  }

  /** Thread t claims the entry of its snapshot. */
  lemma {:induction false} ClaimOnly(start: State, s: State, t: ThreadId, e: Entry) returns (s': State)
    requires Reaches(start, s) && s.mutex == Unlocked && s.Stack(t) == [Snapped([e])]
    requires s.shared.singleShotCount != 0 && e.SingleShot() && e.id !in s.claims
    ensures Reaches(start, s') && Moved(s, s', t, Claimed(e, [])) && s'.shared == s.shared && s'.calls == s.calls
  {
    var s1 := s.SetStack(t, [Slow([e])]);
    Then(start, s, LoadShots(t));
    SlowStart(s, t, e);
    s' := s1.SetStack(t, [Claimed(e, [])]).(claims := s1.claims[e.id := (t, 0)]);
    Then(start, s1, Next(t));
    ClaimStep(s1, t, e);
    Overwritten(s.stacks, t, [Slow([e])], [Claimed(e, [])]);
  }

  lemma {:induction false} SlowStart(s: State, t: ThreadId, e: Entry)
    requires !s.Holds(t) && s.Stack(t) == [Snapped([e])] && s.shared.singleShotCount != 0
    ensures Step(s, LoadShots(t)) == s.SetStack(t, [Slow([e])])
  {
    assert s.Stack(t)[..0] + [Slow([e])] == [Slow([e])];
  }

  lemma {:induction false} ClaimStep(s: State, t: ThreadId, e: Entry)
    requires !s.Holds(t) && s.Stack(t) == [Slow([e])] && e.SingleShot() && e.id !in s.claims
    ensures Step(s, Next(t)) == s.SetStack(t, [Claimed(e, [])]).(claims := s.claims[e.id := (t, 0)])
  {
    assert [e][1..] == [] && s.Stack(t)[..0] + [Claimed(e, [])] == [Claimed(e, [])];
    assert Step(s, Next(t)) == SlowStep(s, t, s.Stack(t)[..0], [e]);
  }

  lemma {:induction false} OnlyEntry(e: Entry)
    ensures FindId([e], e.id) == 0 && Without([e], e.id) == []
  {
    assert [e][..0] == [];
  }

  lemma {:induction false} OnlyId(e: Entry)
    ensures Ids([e]) == {e.id}
  {
    assert [e][..0] == [];
  }

  /** The stages of disconnecting the only entry. */
  lemma {:induction false} DisconnectOnly(start: State, s: State, t: ThreadId, e: Entry) returns (s': State)
    requires Reaches(start, s) && s.mutex == Locked(t, Disconnect(e.id)) && Idle(s.shared, [e], s.shared.nextId) &&
             e.SingleShot()
    ensures Reaches(start, s') && s' == s.(shared := s'.shared, mutex := Locked(t, MarkEntry(e)))
    ensures Idle(s'.shared, [], s.shared.nextId)
  {
    OnlyEntry(e);
    HoldThen(start, s, s.shared, PublishWithout(e, []));
    var s2 := s.(mutex := Locked(t, PublishWithout(e, [])));
    var x3 := s.shared.(list := []);
    HoldThen(start, s2, x3, UncountEntry(e));
    var s3 := s.(shared := x3, mutex := Locked(t, UncountEntry(e)));
    var x4 := x3.(connectionCount := 0);
    HoldThen(start, s3, x4, UncountShot(e));
    var s4 := s.(shared := x4, mutex := Locked(t, UncountShot(e)));
    var x5 := x4.(singleShotCount := 0);
    HoldThen(start, s4, x5, MarkEntry(e));
    s' := s.(shared := x5, mutex := Locked(t, MarkEntry(e)));
  }

  lemma {:induction false} FinishDisconnect(start: State, s: State, t: ThreadId, e: Entry) returns (s': State)
    requires Reaches(start, s) && s.mutex == Locked(t, MarkEntry(e)) && s.Stack(t) == [Claimed(e, [])]
    ensures Reaches(start, s') && s'.mutex == Unlocked && s'.stacks == s.stacks[t := [Removed(e, [])]]
    ensures s'.shared == s.shared.(connected := s'.shared.connected) && s'.calls == s.calls
  {
    s' := Step(s, Hold(t));
    Then(start, s, Hold(t));
    assert s'.Stack(t) == [Removed(e, [])];
  }

  /** Thread t disconnects the only entry, which it claimed. */
  lemma {:induction false} RemoveOnly(start: State, s: State, t: ThreadId, e: Entry) returns (s': State)
    requires Reaches(start, s) && s.mutex == Unlocked && s.Stack(t) == [Claimed(e, [])]
    requires Idle(s.shared, [e], s.shared.nextId) && e.SingleShot()
    ensures Reaches(start, s') && Moved(s, s', t, Removed(e, []))
    ensures Idle(s'.shared, [], s.shared.nextId) && s'.calls == s.calls
  {
    Then(start, s, Lock(t, Disconnect(e.id)));
    var s1 := DisconnectOnly(start, s.(mutex := Locked(t, Disconnect(e.id))), t, e);
    s' := FinishDisconnect(start, s1, t, e);
  }

  /** Thread t calls the entry it claimed and removed. */
  lemma {:induction false} CallRemoved(start: State, s: State, t: ThreadId, e: Entry) returns (s': State)
    requires Reaches(start, s) && s.mutex == Unlocked && s.Stack(t) == [Removed(e, [])] && e.request.callable
    ensures Reaches(start, s') && Moved(s, s', t, SlowCall([])) && s'.shared == s.shared &&
            s'.calls == s.calls + [Call(e, true, (t, 0))]
  {
    s' := Step(s, Next(t));
    Then(start, s, Next(t));
    assert s'.Stack(t) == [SlowCall([])];
  }

  /** Thread t finds the counter at zero and calls the entry of its old snapshot. */
  lemma {:induction false} CallUnclaimed(start: State, s: State, t: ThreadId, e: Entry) returns (s': State)
    requires Reaches(start, s) && s.mutex == Unlocked && s.Stack(t) == [Snapped([e])] && e.request.callable
    requires s.shared.singleShotCount == 0
    ensures Reaches(start, s') && Moved(s, s', t, FastCall([])) && s'.shared == s.shared && s'.claims == s.claims &&
            s'.calls == s.calls + [Call(e, false, (t, 0))]
  {
    var s1 := Step(s, LoadShots(t));
    Then(start, s, LoadShots(t));
    assert s1.Stack(t) == [Fast([e])];
    s' := Step(s1, Next(t));
    Then(start, s1, Next(t));
    assert [e][1..] == [] && [Fast([e])][..0] == [];
    assert s'.Stack(t) == [FastCall([])];
  }

  /** Thread t disconnects the only entry from its own code. */
  lemma {:induction false} UserDisconnect(start: State, s: State, t: ThreadId, e: Entry) returns (s': State)
    requires Reaches(start, s) && s.mutex == Unlocked && s.Stack(t) == []
    requires Idle(s.shared, [e], s.shared.nextId) && e.SingleShot()
    ensures Reaches(start, s') && s' == s.(shared := s'.shared) && Idle(s'.shared, [], s.shared.nextId)
  {
    Then(start, s, Lock(t, Disconnect(e.id)));
    var s1 := DisconnectOnly(start, s.(mutex := Locked(t, Disconnect(e.id))), t, e);
    s' := Step(s1, Hold(t));
    Then(start, s1, Hold(t));
  }

  /** The disconnect of a claimed entry that is not published any more. */
  lemma {:induction false} RemoveAbsent(start: State, s: State, t: ThreadId, e: Entry) returns (s': State)
    requires Reaches(start, s) && s.mutex == Unlocked && s.Stack(t) == [Claimed(e, [])] && e.id !in Ids(s.shared.list)
    ensures Reaches(start, s') && Moved(s, s', t, Removed(e, [])) && s'.shared == s.shared && s'.calls == s.calls
  {
    var s1 := s.(mutex := Locked(t, Disconnect(e.id)));
    Then(start, s, Lock(t, Disconnect(e.id)));
    s' := Step(s1, Hold(t));
    Then(start, s1, Hold(t));
    assert Advance(s.shared, Disconnect(e.id)) == (s.shared, Finished);
    assert s'.Stack(t) == [Removed(e, [])];
  }

  /** Across threads single-shot is not at-most-once: an emitter that loaded its snapshot before another
      thread claimed, removed and called the entry finds the counter at zero and calls it again. */
  lemma {:induction false} SingleShotCalledTwice(start: State, request: Request) returns (actions: seq<Action>)
    requires Init(start) && request.singleShot && !request.unique && request.callable
    ensures var e := Entry(1, request); Run(start, actions).calls == [Call(e, true, (2, 0)), Call(e, false, (1, 0))]
  {
    var e := Entry(1, request);
    ReachesSelf(start);
    var s := ConnectFirst(start, start, 1, e);
    s := Snapshot(start, s, 1);
    s := Snapshot(start, s, 2);
    s := ClaimOnly(start, s, 2, e);
    s := RemoveOnly(start, s, 2, e);
    s := CallRemoved(start, s, 2, e);
    s := CallUnclaimed(start, s, 1, e);
    actions :| Run(start, actions) == s;
  }

  /** The claim does not help an entry that was called without one: two emitters hold a snapshot of an
      entry that a third thread disconnects. The first finds the counter at zero and calls the entry; the
      second loads the counter after another single-shot entry was connected, claims the entry, and calls
      it again. */
  lemma {:induction false} ClaimedAfterUnclaimed(start: State, request: Request) returns (actions: seq<Action>)
    requires Init(start) && request.singleShot && !request.unique && request.callable
    ensures var e := Entry(1, request); Run(start, actions).calls == [Call(e, false, (1, 0)), Call(e, true, (2, 0))]
  {
    var e, other := Entry(1, request), Entry(2, request);
    ReachesSelf(start);
    var s := ConnectFirst(start, start, 3, e);
    s := Snapshot(start, s, 1);
    s := Snapshot(start, s, 2);
    s := UserDisconnect(start, s, 3, e);
    s := CallUnclaimed(start, s, 1, e);
    s := ConnectFirst(start, s, 3, other);
    s := ClaimOnly(start, s, 2, e);
    OnlyId(other);
    s := RemoveAbsent(start, s, 2, e);
    s := CallRemoved(start, s, 2, e);
    actions :| Run(start, actions) == s;
  }
}
