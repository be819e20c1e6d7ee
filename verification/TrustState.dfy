/** The client trust state (libs/job_aipkg/job_aipkg_trust_state.cpp) as a state machine. */
module TrustState {
  import opened PowersOfTwo
  import opened MerkleTree
  import opened Consistency

  /** `AiPkgSTH`, a signed tree head. */
  datatype Sth = Sth(size: nat, root: Hash, tsMs: int, first: nat, last: nat)

  /** `AiPkgSTH{}` */
  const EMPTY_STH := Sth(0, ZERO_HASH, 0, 0, 0)

  datatype Trust = Trust(trusted: Sth, hasState: bool)

  datatype Call =
    | Bootstrap(initial: Sth)
    | TryAdvance(candidate: Sth, proof: seq<Hash>)

  /** Whether a call succeeds, and the state after it. */
  predicate Succeeds(H: HashFn, t: Trust, call: Call) {
    match call
    case Bootstrap(_) => !t.hasState
    case TryAdvance(c, proof) => t.hasState && Accepts(H, t.trusted.size, t.trusted.root, c.size, c.root, proof)
  }

  function After(H: HashFn, t: Trust, call: Call): Trust {
    if !Succeeds(H, t, call) then t
    else match call
      case Bootstrap(s) => Trust(s, true)
      case TryAdvance(c, _) => Trust(c, true)
  }

  /** `JobAiPkgTrustState` */
  class JobAiPkgTrustState {
    var trusted: Sth
    var hasState: bool

    ghost function State(): Trust
      reads this
    {
      Trust(trusted, hasState)
    }

    constructor ()
      ensures State() == Trust(EMPTY_STH, false)
    {
      trusted, hasState := EMPTY_STH, false;
    }

    method BootstrapWith(H: HashFn, initial: Sth) returns (ok: bool)
      modifies this
      ensures ok <==> !old(hasState)
      ensures if ok then hasState && trusted == initial else unchanged(this)
      ensures State() == After(H, old(State()), Bootstrap(initial))
    {
      if hasState { return false; }
      trusted := initial;
      hasState := true;
      return true;
    }

    method Advance(H: HashFn, candidate: Sth, proof: seq<Hash>) returns (ok: bool)
      requires hasState && 0 < trusted.size < candidate.size ==> candidate.size <= HALF_WORD
      modifies this
      ensures ok <==> old(hasState) &&
                      Accepts(H, old(trusted.size), old(trusted.root), candidate.size, candidate.root, proof)
      ensures if ok then hasState && trusted == candidate else unchanged(this)
      ensures State() == After(H, old(State()), TryAdvance(candidate, proof))
    {
      if !hasState { return false; }
      var consistent := Verify(H, trusted.size, trusted.root, candidate.size, candidate.root, proof);
      if !consistent { return false; }
      trusted := candidate;
      return true;
    }
  }

  // ----- runs

  function StateAfter(H: HashFn, t: Trust, calls: seq<Call>): Trust {
    if calls == [] then t else After(H, StateAfter(H, t, calls[..|calls| - 1]), calls[|calls| - 1])
  }

  /** The state in which call number i of the run is made. */
  function StateBefore(H: HashFn, t: Trust, calls: seq<Call>, i: nat): Trust
    requires i <= |calls|
  {
    StateAfter(H, t, calls[..i])
  }

  /** Between any two moments of a run: once set, the state stays set, the trusted size never
      decreases, and while the size stands still so does the root. */
  lemma {:induction false} RunMonotone(H: HashFn, t: Trust, calls: seq<Call>, i: nat, j: nat)
    requires i <= j <= |calls| && StateBefore(H, t, calls, i).hasState
    ensures var s, u := StateBefore(H, t, calls, i), StateBefore(H, t, calls, j);
            u.hasState && s.trusted.size <= u.trusted.size &&
            (s.trusted.size == u.trusted.size ==> s.trusted.root == u.trusted.root)
    decreases j
  {
    if i < j {
      RunMonotone(H, t, calls, i, j - 1);
      assert calls[..j][..j - 1] == calls[..j - 1];
    }
  }

  /** Bootstrap succeeds at most once in a run. */
  lemma BootstrapOnce(H: HashFn, t: Trust, calls: seq<Call>, i: nat, j: nat)
    requires i < j < |calls| && calls[i].Bootstrap? && calls[j].Bootstrap?
    requires Succeeds(H, StateBefore(H, t, calls, i), calls[i])
    ensures !Succeeds(H, StateBefore(H, t, calls, j), calls[j])
  {
    assert calls[..i + 1][..i] == calls[..i];
    RunMonotone(H, t, calls, i + 1, j);
  }

  /** Call i of a run from the empty state is an advance its proof carries. */
  ghost predicate AdvancesAt(H: HashFn, calls: seq<Call>, i: nat)
    requires i < |calls|
  {
    var t := StateBefore(H, Trust(EMPTY_STH, false), calls, i);
    calls[i].TryAdvance? && t.hasState &&
    Accepts(H, t.trusted.size, t.trusted.root, calls[i].candidate.size, calls[i].candidate.root, calls[i].proof)
  }

  ghost predicate FirstBootstrap(calls: seq<Call>, i: nat)
    requires i < |calls|
  {
    calls[i].Bootstrap? && forall j :: 0 <= j < i ==> !calls[j].Bootstrap?
  }

  /** Without a bootstrap call nothing is ever trusted. */
  lemma {:induction false} NothingWithoutBootstrap(H: HashFn, calls: seq<Call>, j: nat)
    requires j <= |calls| && forall i :: 0 <= i < j ==> !calls[i].Bootstrap?
    ensures StateBefore(H, Trust(EMPTY_STH, false), calls, j) == Trust(EMPTY_STH, false)
    decreases j
  {
    if j > 0 {
      NothingWithoutBootstrap(H, calls, j - 1);
      assert calls[..j][..j - 1] == calls[..j - 1];
    }
  }

  /** Call i of the run leaves a set state alone. */
  lemma KeptBy(H: HashFn, calls: seq<Call>, i: nat, t: Trust)
    requires i < |calls| && t == StateBefore(H, Trust(EMPTY_STH, false), calls, i) && t.hasState
    requires !AdvancesAt(H, calls, i)
    ensures StateBefore(H, Trust(EMPTY_STH, false), calls, i + 1) == t
  {
    StateAfterCall(H, calls, i);
  }

  lemma StateAfterCall(H: HashFn, calls: seq<Call>, i: nat)
    requires i < |calls|
    ensures StateBefore(H, Trust(EMPTY_STH, false), calls, i + 1) ==
            After(H, StateBefore(H, Trust(EMPTY_STH, false), calls, i), calls[i])
  {
    assert calls[..i + 1][..i] == calls[..i];
  }

  /** In every run from the empty state the first bootstrap call succeeds, and its whole head is the
      trusted one until the next accepted advance. */
  lemma {:induction false} BootstrapTrusted(H: HashFn, calls: seq<Call>, i: nat, j: nat)
    requires i < j <= |calls| && FirstBootstrap(calls, i)
    requires forall l :: i < l < j ==> !AdvancesAt(H, calls, l)
    ensures StateBefore(H, Trust(EMPTY_STH, false), calls, j) == Trust(calls[i].initial, true)
    decreases j
  {
    if j == i + 1 {
      NothingWithoutBootstrap(H, calls, i);
      StateAfterCall(H, calls, i);
    } else {
      BootstrapTrusted(H, calls, i, j - 1);
      KeptBy(H, calls, j - 1, Trust(calls[i].initial, true));
    }
  }

  /** And after an accepted advance its whole candidate is, until the next one. */
  lemma {:induction false} CandidateTrusted(H: HashFn, calls: seq<Call>, i: nat, j: nat)
    requires i < j <= |calls| && AdvancesAt(H, calls, i)
    requires forall l :: i < l < j ==> !AdvancesAt(H, calls, l)
    ensures StateBefore(H, Trust(EMPTY_STH, false), calls, j) == Trust(calls[i].candidate, true)
    decreases j
  {
    if j == i + 1 {
      StateAfterCall(H, calls, i);
    } else {
      CandidateTrusted(H, calls, i, j - 1);
      KeptBy(H, calls, j - 1, Trust(calls[i].candidate, true));
    }
  }

  // ----- heads and proofs of one append-only log

  ghost predicate HonestHead(H: HashFn, L: seq<Hash>, s: Sth) {
    1 <= s.size <= |L| && s.root == ComputeRoot(H, L[..s.size])
  }

  /** The call hands over a head of L and, where there is one, the RFC proof from the trusted head. */
  ghost predicate HonestCall(H: HashFn, L: seq<Hash>, t: Trust, call: Call) {
    match call
    case Bootstrap(s) => HonestHead(H, L, s)
    case TryAdvance(c, proof) =>
      HonestHead(H, L, c) &&
      (t.hasState && 1 <= t.trusted.size <= c.size ==> proof == Proof(H, t.trusted.size, L[..c.size]))
  }

  /** Every call of the run, made in the state the run has reached by then, is honest. */
  ghost predicate HonestCalls(H: HashFn, L: seq<Hash>, calls: seq<Call>) {
    forall i :: 0 <= i < |calls| ==> HonestCall(H, L, StateBefore(H, Trust(EMPTY_STH, false), calls, i), calls[i])
  }

  lemma HonestPrefix(H: HashFn, L: seq<Hash>, calls: seq<Call>, n: nat)
    requires HonestCalls(H, L, calls) && n <= |calls|
    ensures HonestCalls(H, L, calls[..n])
  {
    forall i | 0 <= i < n
      ensures HonestCall(H, L, StateBefore(H, Trust(EMPTY_STH, false), calls[..n], i), calls[..n][i])
    {
      assert calls[..n][..i] == calls[..i];
      assert HonestCall(H, L, StateBefore(H, Trust(EMPTY_STH, false), calls, i), calls[i]);
    }
  }

  /** In a run fed from one log the trusted root is always the root of the trusted prefix. */
  lemma {:induction false} HonestTrustedHead(H: HashFn, L: seq<Hash>, calls: seq<Call>)
    requires HonestCalls(H, L, calls)
    ensures var t := StateAfter(H, Trust(EMPTY_STH, false), calls); t.hasState ==> HonestHead(H, L, t.trusted)
  {
    if calls != [] {
      var n := |calls| - 1;
      HonestPrefix(H, L, calls, n);
      HonestTrustedHead(H, L, calls[..n]);
      assert HonestCall(H, L, StateBefore(H, Trust(EMPTY_STH, false), calls, n), calls[n]);
    }
  }

  /** And exactly the advances to an equal or larger size are accepted. */
  lemma HonestRun(H: HashFn, L: seq<Hash>, calls: seq<Call>, i: nat)
    requires HonestCalls(H, L, calls) && i < |calls| && calls[i].TryAdvance?
    ensures var t := StateBefore(H, Trust(EMPTY_STH, false), calls, i);
            Succeeds(H, t, calls[i]) <==> t.hasState && t.trusted.size <= calls[i].candidate.size
  {
    HonestPrefix(H, L, calls, i);
    HonestTrustedHead(H, L, calls[..i]);
    var t := StateBefore(H, Trust(EMPTY_STH, false), calls, i);
    assert HonestCall(H, L, t, calls[i]);
    if t.hasState { HonestAdvance(H, L, t, calls[i].candidate, calls[i].proof); }
  }

  lemma HonestAdvance(H: HashFn, L: seq<Hash>, t: Trust, c: Sth, proof: seq<Hash>)
    requires t.hasState && HonestHead(H, L, t.trusted) && HonestCall(H, L, t, TryAdvance(c, proof))
    ensures Succeeds(H, t, TryAdvance(c, proof)) <==> t.trusted.size <= c.size
  {
    var m := t.trusted.size;
    if m <= c.size {
      assert L[..c.size][..m] == L[..m];
      Completeness(H, m, L[..c.size]);
    }
  }

  // ----- what an accepted history says about the past

  /** Successive trusted heads with the proofs that were accepted between them. */
  ghost predicate AcceptedHistory(H: HashFn, heads: seq<Sth>, proofs: seq<seq<Hash>>) {
    |heads| == |proofs| + 1 &&
    forall i :: 0 <= i < |proofs| ==>
      Accepts(H, heads[i].size, heads[i].root, heads[i + 1].size, heads[i + 1].root, proofs[i])
  }

  /** The successful advances of a run starting in t, as a history beginning with t's head. */
  function HeadsOf(H: HashFn, t: Trust, calls: seq<Call>): (heads: seq<Sth>)
    ensures |heads| >= 1 && heads[0] == t.trusted
    decreases calls
  {
    if calls == [] then [t.trusted]
    else if Succeeds(H, t, calls[0]) then [t.trusted] + HeadsOf(H, After(H, t, calls[0]), calls[1..])
    else HeadsOf(H, t, calls[1..])
  }

  function ProofsOf(H: HashFn, t: Trust, calls: seq<Call>): seq<seq<Hash>>
    decreases calls
  {
    if calls == [] then []
    else if Succeeds(H, t, calls[0]) then
      [if calls[0].TryAdvance? then calls[0].proof else []] + ProofsOf(H, After(H, t, calls[0]), calls[1..])
    else ProofsOf(H, t, calls[1..])
  }

  lemma {:induction false} RunIsHistory(H: HashFn, t: Trust, calls: seq<Call>)
    requires t.hasState
    ensures AcceptedHistory(H, HeadsOf(H, t, calls), ProofsOf(H, t, calls))
    ensures var heads := HeadsOf(H, t, calls); heads[|heads| - 1] == StateAfter(H, t, calls).trusted
    decreases calls
  {
    if calls != [] {
      RunIsHistory(H, After(H, t, calls[0]), calls[1..]);
      FirstCall(H, t, calls);
    }
  }

  lemma {:induction false} FirstCall(H: HashFn, t: Trust, calls: seq<Call>)
    requires calls != []
    ensures StateAfter(H, t, calls) == StateAfter(H, After(H, t, calls[0]), calls[1..])
  {
    if |calls| > 1 {
      FirstCall(H, t, calls[..|calls| - 1]);
      assert calls[..|calls| - 1][1..] == calls[1..][..|calls| - 2];
    } else {
      assert calls[..0] == [];
    }
  }

  /** The proof between these heads departs from the tree over L, at a hash collision. */
  predicate StepCollides(H: HashFn, L: seq<Hash>, prior: Sth, next: Sth, proof: seq<Hash>) {
    1 <= prior.size < next.size <= |L| && |proof| == NodeCount(prior.size, next.size, true) &&
    Collides(H, ProofCollision(H, prior.root, proof, prior.size, L[..next.size]))
  }

  /** The first collision met when the accepted proofs are replayed from the newest head back. */
  function HistoryCollision(H: HashFn, L: seq<Hash>, heads: seq<Sth>, proofs: seq<seq<Hash>>): Inputs
    requires |heads| == |proofs| + 1
    decreases |proofs|
  {
    if proofs == [] then Inputs([], [])
    else
      var i := |proofs| - 1;
      if StepCollides(H, L, heads[i], heads[i + 1], proofs[i])
      then ProofCollision(H, heads[i].root, proofs[i], heads[i].size, L[..heads[i + 1].size])
      else HistoryCollision(H, L, heads[..i + 1], proofs[..i])
  }

  /** The old root of this step was really compared, and the new root is not the zero hash. */
  ghost predicate CheckedStep(before: Sth, after: Sth) {
    OldRootChecked(before.size, after.size) && after.root != ZERO_HASH
  }

  ghost predicate AllHonest(H: HashFn, L: seq<Hash>, heads: seq<Sth>) {
    forall i :: 0 <= i < |heads| ==> HonestHead(H, L, heads[i])
  }

  /** One accepted step back from an honest head. */
  lemma StepBack(H: HashFn, L: seq<Hash>, prior: Sth, next: Sth, proof: seq<Hash>)
    requires Accepts(H, prior.size, prior.root, next.size, next.root, proof)
    requires CheckedStep(prior, next) && HonestHead(H, L, next)
    ensures HonestHead(H, L, prior) || StepCollides(H, L, prior, next, proof)
  {
    if prior.size < next.size {
      assert L[..next.size][..prior.size] == L[..prior.size];
      Soundness(H, prior.size, prior.root, L[..next.size], proof);
    }
  }

  lemma OneMoreHonest(H: HashFn, L: seq<Hash>, heads: seq<Sth>, n: nat)
    requires |heads| == n + 1 && AllHonest(H, L, heads[..n]) && HonestHead(H, L, heads[n])
    ensures AllHonest(H, L, heads)
  {
    var front := heads[..n];
    forall j | 0 <= j < |heads| ensures HonestHead(H, L, heads[j]) {
      if j < n { assert front[j] == heads[j]; }
    }
  }

  /** If the newest head of an accepted history is a head of L, then every earlier head was the
      head of that prefix of L too, or a collision is extracted. The size pairs must be ones the
      verifier checks the old root for, and no later root may be the zero hash. */
  lemma {:induction false} HistoryIsOneLog(H: HashFn, L: seq<Hash>, heads: seq<Sth>, proofs: seq<seq<Hash>>)
    requires AcceptedHistory(H, heads, proofs)
    requires forall i :: 0 <= i < |proofs| ==> CheckedStep(heads[i], heads[i + 1])
    requires HonestHead(H, L, heads[|heads| - 1])
    ensures AllHonest(H, L, heads) || Collides(H, HistoryCollision(H, L, heads, proofs))
    decreases |proofs|
  {
    if proofs != [] {
      var i := |proofs| - 1;
      StepBack(H, L, heads[i], heads[i + 1], proofs[i]);
      if HonestHead(H, L, heads[i]) {
        HistoryIsOneLog(H, L, heads[..i + 1], proofs[..i]);
        if AllHonest(H, L, heads[..i + 1]) { OneMoreHonest(H, L, heads, i + 1); }
      }
    }
  }
}
