/** The copy-on-write connection list of a signal (libs/job_core/job_signal.h), as steps of any
    number of threads. Writers change the list under one mutex, one atomic operation a step;
    emitters walk snapshots without it, and the slots they call may emit, connect and disconnect
    in turn. Loads and stores are sequentially consistent. */
module Signal {
  type ThreadId = nat
  type ConnectionId = nat

  /** Identity 0 stands for the null pointer. */
  datatype Request = Request(unique: bool, singleShot: bool, receiver: nat, slot: nat, callable: bool)

  datatype Entry = Entry(id: ConnectionId, request: Request) {
    predicate SingleShot() { request.singleShot }
  }

  /** What the mutex holder does next. */
  datatype Stage =
    | Connect(request: Request)                            // lines 150-177
    | CountShot(entry: Entry, next: seq<Entry>)            // lines 179-180
    | Publish(entry: Entry, next: seq<Entry>)              // line 182
    | CountEntry                                           // line 183
    | Disconnect(id: ConnectionId)                         // lines 198-219
    | PublishWithout(entry: Entry, next: seq<Entry>)       // line 221
    | UncountEntry(entry: Entry)                           // line 222
    | UncountShot(entry: Entry)                            // lines 224-225
    | MarkEntry(entry: Entry)                              // lines 227-228
    | DisconnectAll                                        // lines 235-243
    | ZeroCount(gone: seq<Entry>)                          // line 244
    | ZeroShots(gone: seq<Entry>)                          // line 245
    | MarkAll(gone: seq<Entry>)                            // lines 247-250, one entry a step
    | Invalidate                                           // lines 283-285
    | MarkPublished(left: seq<Entry>)                      // lines 287-290, one entry a step
    | StoreEmpty                                           // line 292
    | FinalCount(gone: seq<Entry>)                         // line 293
    | FinalShots(gone: seq<Entry>)                         // line 294

    | Finished                                             // the lock guard is released

  /** What the mutex protects: the published list, the counters and the connected flags. */
  datatype Shared = Shared(list: seq<Entry>, connectionCount: int, singleShotCount: int, nextId: ConnectionId,
                           alive: bool, connected: set<ConnectionId>)

  datatype Mutex = Unlocked | Locked(holder: ThreadId, stage: Stage) {
    function Pending(): Stage { if Unlocked? then Finished else stage }
  }

  /** An emission in progress; `rest` is what remains of its snapshot. */
  datatype Frame =
    | Entered                                  // line 102 is next
    | Counted                                  // line 108 is next
    | Snapped(rest: seq<Entry>)                // line 110 is next
    | Fast(rest: seq<Entry>)                   // the loop of line 111
    | FastCall(rest: seq<Entry>)               // inside the callback of line 113
    | Slow(rest: seq<Entry>)                   // the loop of line 255
    | Claimed(entry: Entry, rest: seq<Entry>)  // the exchange succeeded; line 272 is next
    | Removed(entry: Entry, rest: seq<Entry>)  // line 274 is next
    | SlowCall(rest: seq<Entry>)               // inside the callback of line 258 or 275

  /** A slot call; `claimed` when it went through the claim of line 265. The emission that made it is
      named by its thread and its place in that thread's stack. */
  datatype Call = Call(entry: Entry, claimed: bool, emission: (ThreadId, nat))

  /** `claims` records which frame set each singleShotClaimed flag, `calls` all slot calls so far. */
  datatype State = State(shared: Shared, mutex: Mutex, stacks: map<ThreadId, seq<Frame>>,
                         claims: map<ConnectionId, (ThreadId, nat)>, calls: seq<Call>) {
    function Stack(t: ThreadId): seq<Frame> {
      if t in stacks then stacks[t] else []
    }

    function SetStack(t: ThreadId, frames: seq<Frame>): State {
      this.(stacks := stacks[t := frames])
    }

    predicate Holds(t: ThreadId) {
      mutex.Locked? && mutex.holder == t
    }

    /** The thread runs code of its own: outside every emission, or inside a slot. */
    predicate InUserCode(t: ThreadId) {
      var stack := Stack(t);
      stack == [] || InCall(stack[|stack| - 1])
    }
  }

  predicate InCall(f: Frame) {
    f.FastCall? || f.SlowCall?
  }

  /** A new signal, with no emission under way. */
  ghost predicate Init(s: State) {
    s.shared.list == [] && s.shared.connectionCount == 0 && s.shared.singleShotCount == 0 && s.shared.nextId == 1 &&
    s.shared.alive && s.shared.connected == {} && s.mutex == Unlocked && s.stacks == map[] && s.claims == map[] &&
    s.calls == []
  }

  // ----- list operations

  function SingleShots(list: seq<Entry>): nat {
    if list == [] then 0
    else
      var n := |list| - 1;
      SingleShots(list[..n]) + if list[n].SingleShot() then 1 else 0
  }

  function Ids(list: seq<Entry>): set<ConnectionId> {
    if list == [] then {}
    else
      var n := |list| - 1;
      Ids(list[..n]) + {list[n].id}
  }

  function Without(list: seq<Entry>, id: ConnectionId): seq<Entry> {
    if list == [] then []
    else
      var n := |list| - 1;
      Without(list[..n], id) + if list[n].id != id then [list[n]] else []
  }

  predicate HasDuplicate(list: seq<Entry>, request: Request) {
    if list == [] then false
    else
      var n := |list| - 1;
      HasDuplicate(list[..n], request) || SameSlot(list[n].request, request)
  }

  predicate SameSlot(a: Request, b: Request) {
    a.receiver == b.receiver && a.slot == b.slot
  }

  /** The first entry with the id, or the length. */
  function FindId(list: seq<Entry>, id: ConnectionId): (at: nat)
    ensures at <= |list| && (at < |list| <==> id in Ids(list)) && (at < |list| ==> list[at].id == id)
  {
    if list == [] then 0
    else
      var n := |list| - 1;
      var at := FindId(list[..n], id);
      if at < n then at else if list[n].id == id then n else n + 1
  }

  // ----- steps of the mutex holder

  function Shot(e: Entry): nat {
    if e.SingleShot() then 1 else 0
  }

  predicate Refused(list: seq<Entry>, request: Request) {
    request.unique && (request.receiver == 0 || request.slot == 0 || HasDuplicate(list, request))
  }

  /** One operation of the holder, and the stage after it. */
  function Advance(s: Shared, stage: Stage): (Shared, Stage) {
    match stage
    case Connect(request) =>
      if !s.alive || Refused(s.list, request) then (s, Finished)
      else
        var entry := Entry(s.nextId, request);
        (s.(nextId := s.nextId + 1, connected := s.connected + {entry.id}), CountShot(entry, s.list + [entry]))
    case CountShot(entry, next) => (s.(singleShotCount := s.singleShotCount + Shot(entry)), Publish(entry, next))
    case Publish(_, next) => (s.(list := next), CountEntry)
    case CountEntry => (s.(connectionCount := s.connectionCount + 1), Finished)
    case Disconnect(id) =>
      var at := FindId(s.list, id);
      if !s.alive || at == |s.list| then (s, Finished)
      else (s, PublishWithout(s.list[at], Without(s.list, id)))
    case PublishWithout(entry, next) => (s.(list := next), UncountEntry(entry))
    case UncountEntry(entry) => (s.(connectionCount := s.connectionCount - 1), UncountShot(entry))
    case UncountShot(entry) => (s.(singleShotCount := s.singleShotCount - Shot(entry)), MarkEntry(entry))
    case MarkEntry(entry) => (s.(connected := s.connected - {entry.id}), Finished)
    case DisconnectAll => if !s.alive || s.list == [] then (s, Finished) else (s.(list := []), ZeroCount(s.list))
    case ZeroCount(gone) => (s.(connectionCount := 0), ZeroShots(gone))
    case ZeroShots(gone) => (s.(singleShotCount := 0), MarkAll(gone))
    case MarkAll(gone) =>
      if gone == [] then (s, Finished) else (s.(connected := s.connected - {gone[0].id}), MarkAll(gone[1..]))
    case Invalidate => (s.(alive := false), MarkPublished(s.list))
    case MarkPublished(left) =>
      if left == [] then (s, StoreEmpty) else (s.(connected := s.connected - {left[0].id}), MarkPublished(left[1..]))
    case StoreEmpty => (s.(list := []), FinalCount(s.list))
    case FinalCount(gone) => (s.(connectionCount := 0), FinalShots(gone))
    case FinalShots(_) => (s.(singleShotCount := 0), Finished)
    case Finished => (s, Finished)
  }

  /** The lock guard's destructor. A claiming emission resumes after its disconnect. */
  function Release(s: State, t: ThreadId): State {
    var stack := s.Stack(t);
    var n := |stack| - 1;
    var resumed := if stack != [] && stack[n].Claimed?
                   then s.SetStack(t, stack[..n] + [Removed(stack[n].entry, stack[n].rest)]) else s;
    resumed.(mutex := Unlocked)
  }

  function HolderStep(s: State): State
    requires s.mutex.Locked?
  {
    var (shared, stage) := Advance(s.shared, s.mutex.stage);
    var after := s.(shared := shared, mutex := Locked(s.mutex.holder, stage));
    if stage.Finished? then Release(after, s.mutex.holder) else after
  }

  // ----- steps of any thread

  datatype Action =
    | Emit(t: ThreadId)
    | LoadCount(t: ThreadId, blocked: bool)  // lines 102-106
    | LoadSnapshot(t: ThreadId)
    | LoadShots(t: ThreadId)
    | Next(t: ThreadId)                      // one iteration step of either loop, or a slot's return
    | Lock(t: ThreadId, operation: Stage)
    | Hold(t: ThreadId)                      // the holder's next step

  predicate Opens(stage: Stage) {
    stage.Connect? || stage.Disconnect? || stage.DisconnectAll? || stage.Invalidate?
  }

  /** The slot of a non-null callback is called, a null one is passed over. */
  function Invoke(s: State, t: ThreadId, below: seq<Frame>, entry: Entry, claimed: bool, inCall: Frame,
                  after: Frame): State
  {
    if entry.request.callable then
      s.SetStack(t, below + [inCall]).(calls := s.calls + [Call(entry, claimed, (t, |below|))])
    else s.SetStack(t, below + [after])
  }

  function FastStep(s: State, t: ThreadId, below: seq<Frame>, rest: seq<Entry>): State {
    if rest == [] then s.SetStack(t, below)
    else Invoke(s, t, below, rest[0], false, FastCall(rest[1..]), Fast(rest[1..]))
  }

  function SlowStep(s: State, t: ThreadId, below: seq<Frame>, rest: seq<Entry>): State {
    if rest == [] then s.SetStack(t, below)
    else if !rest[0].SingleShot() then Invoke(s, t, below, rest[0], false, SlowCall(rest[1..]), Slow(rest[1..]))
    else if rest[0].id in s.claims then s.SetStack(t, below + [Slow(rest[1..])])
    else s.SetStack(t, below + [Claimed(rest[0], rest[1..])]).(claims := s.claims[rest[0].id := (t, |below|)])
  }

  function EmitterStep(s: State, t: ThreadId): State {
    var stack := s.Stack(t);
    if stack == [] then s
    else
      var n := |stack| - 1;
      var below := stack[..n];
      match stack[n]
      case Fast(rest) => FastStep(s, t, below, rest)
      case Slow(rest) => SlowStep(s, t, below, rest)
      case Removed(entry, rest) => Invoke(s, t, below, entry, true, SlowCall(rest), Slow(rest))
      case FastCall(rest) => s.SetStack(t, below + [Fast(rest)])
      case SlowCall(rest) => s.SetStack(t, below + [Slow(rest)])
      case _ => s
  }

  function LoadStep(s: State, a: Action): State {
    var stack := s.Stack(a.t);
    if stack == [] then s
    else
      var n := |stack| - 1;
      var below := stack[..n];
      match a
      case LoadCount(t, blocked) =>
        if !stack[n].Entered? then s
        else if s.shared.connectionCount == 0 || blocked then s.SetStack(t, below)
        else s.SetStack(t, below + [Counted])
      case LoadSnapshot(t) => if !stack[n].Counted? then s else s.SetStack(t, below + [Snapped(s.shared.list)])
      case LoadShots(t) =>
        if !stack[n].Snapped? then s
        else if s.shared.singleShotCount == 0 then s.SetStack(t, below + [Fast(stack[n].rest)])
        else s.SetStack(t, below + [Slow(stack[n].rest)])
      case _ => s
  }

  /** User code may start any operation; a claiming emission only its own disconnect. */
  predicate MayLock(s: State, t: ThreadId, operation: Stage) {
    var stack := s.Stack(t);
    s.mutex == Unlocked && Opens(operation) &&
    (s.InUserCode(t) || (stack[|stack| - 1].Claimed? && operation == Disconnect(stack[|stack| - 1].entry.id)))
  }

  function Step(s: State, a: Action): State {
    if a.Hold? then if s.Holds(a.t) then HolderStep(s) else s
    else if s.Holds(a.t) then s
    else if a.Lock? then if MayLock(s, a.t, a.operation) then s.(mutex := Locked(a.t, a.operation)) else s
    else if a.Emit? then if s.InUserCode(a.t) then s.SetStack(a.t, s.Stack(a.t) + [Entered]) else s
    else if a.Next? then EmitterStep(s, a.t)
    else LoadStep(s, a)
  }

  function Run(s: State, actions: seq<Action>): State
    decreases |actions|
  {
    if actions == [] then s
    else Step(Run(s, actions[..|actions| - 1]), actions[|actions| - 1])
  }

  // ----- invariant: the list and its two counters

  /** What `connectImpl` lets join the list: a new id, and a unique entry only with both identities
      set and no earlier entry of the same receiver and slot. */
  predicate Admits(list: seq<Entry>, e: Entry) {
    e.id !in Ids(list) && !Refused(list, e.request)
  }

  ghost predicate Orderly(list: seq<Entry>) {
    if list == [] then true
    else
      var n := |list| - 1;
      Orderly(list[..n]) && Admits(list[..n], list[n])
  }

  predicate Adding(stage: Stage) {
    stage.CountShot? || stage.Publish?
  }

  predicate Removing(stage: Stage) {
    stage.UncountEntry? || stage.UncountShot? || stage.MarkEntry?
  }

  predicate Clearing(stage: Stage) {
    stage.ZeroCount? || stage.ZeroShots? || stage.MarkAll? || stage.FinalCount? || stage.FinalShots?
  }

  /** Above every id published so far. */
  function Bound(s: Shared, stage: Stage): nat {
    if Adding(stage) then stage.entry.id else s.nextId
  }

  ghost predicate ListOk(s: Shared, stage: Stage) {
    Orderly(s.list) && (forall id :: id in Ids(s.list) ==> id < Bound(s, stage)) &&
    (!s.alive ==> s.list == [] || stage.MarkPublished? || stage.StoreEmpty?)
  }

  ghost predicate Finds(list: seq<Entry>, e: Entry) {
    var at := FindId(list, e.id);
    at < |list| && list[at] == e
  }

  ghost predicate StageOk(s: Shared, stage: Stage) {
    (Adding(stage) ==>
       s.alive && stage.next == s.list + [stage.entry] && stage.entry.id + 1 == s.nextId && Orderly(stage.next)) &&
    (stage.PublishWithout? ==> Finds(s.list, stage.entry) && stage.next == Without(s.list, stage.entry.id)) &&
    (Removing(stage) ==> stage.entry.id !in Ids(s.list)) &&
    (Clearing(stage) ==> s.list == [] && Orderly(stage.gone)) &&
    (stage.MarkPublished? ==> Orderly(stage.left))
  }

  /** How far the single-shot counter runs ahead of the list. */
  function ShotsAhead(stage: Stage): nat {
    if stage.Publish? || stage.UncountEntry? || stage.UncountShot? then Shot(stage.entry)
    else if Clearing(stage) && !stage.MarkAll? then SingleShots(stage.gone)
    else 0
  }

  function CountAhead(stage: Stage): int {
    if stage.CountEntry? then -1
    else if stage.UncountEntry? then 1
    else if stage.ZeroCount? || stage.FinalCount? then |stage.gone|
    else 0
  }

  ghost predicate CountsOk(s: Shared, stage: Stage) {
    s.singleShotCount == SingleShots(s.list) + ShotsAhead(stage) && s.connectionCount == |s.list| + CountAhead(stage)
  }

  /** The connections whose connected flag is set. */
  function ConnectedIds(list: seq<Entry>, stage: Stage): set<ConnectionId> {
    if Adding(stage) || Removing(stage) then Ids(list) + {stage.entry.id}
    else if stage.StoreEmpty? || stage.FinalCount? || stage.FinalShots? then {}
    else if Clearing(stage) then Ids(stage.gone)
    else if stage.MarkPublished? then Ids(stage.left)
    else Ids(list)
  }

  ghost predicate SharedOk(s: Shared, stage: Stage) {
    ListOk(s, stage) && StageOk(s, stage) && CountsOk(s, stage) && s.connected == ConnectedIds(s.list, stage)
  }

  lemma {:induction false} Append(list: seq<Entry>, e: Entry)
    ensures SingleShots(list + [e]) == SingleShots(list) + Shot(e) && Ids(list + [e]) == Ids(list) + {e.id}
    ensures Orderly(list + [e]) <==> Orderly(list) && Admits(list, e)
  {
    assert (list + [e])[..|list|] == list;
  }

  lemma {:induction false} AppendDuplicates(list: seq<Entry>, e: Entry, q: Request)
    ensures HasDuplicate(list + [e], q) <==> HasDuplicate(list, q) || SameSlot(e.request, q)
  {
    assert (list + [e])[..|list|] == list;
  }

  lemma {:induction false} NothingToRemove(list: seq<Entry>, id: ConnectionId)
    requires id !in Ids(list)
    ensures Without(list, id) == list
  {
    if list != [] {
      var n := |list| - 1;
      assert list == list[..n] + [list[n]];
      NothingToRemove(list[..n], id);
    }
  }

  /** Removing an id from an orderly list removes one entry and keeps the rest in order. */
  lemma {:induction false} WithoutOne(list: seq<Entry>, id: ConnectionId)
    requires Orderly(list) && id in Ids(list)
    ensures var r := Without(list, id);
            |r| == |list| - 1 && SingleShots(list) == SingleShots(r) + Shot(list[FindId(list, id)]) &&
            Ids(r) == Ids(list) - {id} && Orderly(r) && forall q :: HasDuplicate(r, q) ==> HasDuplicate(list, q)
  {
    var n := |list| - 1;
    var front, last := list[..n], list[n];
    if last.id == id {
      NothingToRemove(front, id);
      assert Without(list, id) == front;
    } else {
      WithoutOne(front, id);
      Append(Without(front, id), last);
      forall q ensures HasDuplicate(Without(list, id), q) ==> HasDuplicate(list, q) {
        AppendDuplicates(Without(front, id), last, q);
      }
    }
  }

  lemma {:induction false} MemberId(list: seq<Entry>, i: nat)
    requires i < |list|
    ensures list[i].id in Ids(list) && (list[i].SingleShot() ==> SingleShots(list) > 0)
  {
    var n := |list| - 1;
    if i < n { MemberId(list[..n], i); }
  }

  /** In an orderly list the first entry is the only one with its id. */
  lemma {:induction false} DropFirst(list: seq<Entry>)
    requires list != [] && Orderly(list)
    ensures list[0].id in Ids(list) && Without(list, list[0].id) == list[1..]
  {
    var n := |list| - 1;
    if n > 0 {
      DropFirst(list[..n]);
      assert list[1..] == list[..n][1..] + [list[n]];
    }
  }

  lemma {:induction false} MarkFirst(list: seq<Entry>)
    requires list != [] && Orderly(list)
    ensures Orderly(list[1..]) && Ids(list[1..]) == Ids(list) - {list[0].id}
  {
    DropFirst(list);
    WithoutOne(list, list[0].id);
  }

  ghost predicate Kept(r: (Shared, Stage)) {
    SharedOk(r.0, r.1)
  }

  lemma {:induction false} KeepConnect(s: Shared, request: Request)
    requires SharedOk(s, Connect(request))
    ensures Kept(Advance(s, Connect(request)))
  {
    Append(s.list, Entry(s.nextId, request));
  }

  lemma {:induction false} KeepPublish(s: Shared, entry: Entry, next: seq<Entry>)
    requires SharedOk(s, Publish(entry, next))
    ensures Kept(Advance(s, Publish(entry, next)))
  {
    PublishKeepsList(s, entry, next);
    PublishKeepsCounts(s, entry, next);
  }

  lemma {:induction false} PublishKeepsList(s: Shared, entry: Entry, next: seq<Entry>)
    requires ListOk(s, Publish(entry, next)) && StageOk(s, Publish(entry, next))
    ensures ListOk(s.(list := next), CountEntry)
  {
    PublishedFacts(s.list, entry, next);
  }

  lemma {:induction false} PublishKeepsCounts(s: Shared, entry: Entry, next: seq<Entry>)
    requires next == s.list + [entry] && CountsOk(s, Publish(entry, next)) &&
             s.connected == ConnectedIds(s.list, Publish(entry, next))
    ensures CountsOk(s.(list := next), CountEntry) && s.connected == ConnectedIds(next, CountEntry)
  {
    PublishedFacts(s.list, entry, next);
  }

  lemma {:induction false} PublishedFacts(list: seq<Entry>, entry: Entry, next: seq<Entry>)
    requires next == list + [entry]
    ensures |next| == |list| + 1 && SingleShots(next) == SingleShots(list) + Shot(entry) &&
            Ids(next) == Ids(list) + {entry.id}
  {
    Append(list, entry);
  }

  lemma {:induction false} KeepPublishWithout(s: Shared, entry: Entry, next: seq<Entry>)
    requires SharedOk(s, PublishWithout(entry, next))
    ensures Kept(Advance(s, PublishWithout(entry, next)))
  {
    WithoutOne(s.list, entry.id);
  }

  lemma {:induction false} KeepMarkAll(s: Shared, gone: seq<Entry>)
    requires SharedOk(s, MarkAll(gone))
    ensures Kept(Advance(s, MarkAll(gone)))
  {
    if gone != [] { MarkFirst(gone); }
  }

  lemma {:induction false} KeepMarkPublished(s: Shared, left: seq<Entry>)
    requires SharedOk(s, MarkPublished(left))
    ensures Kept(Advance(s, MarkPublished(left)))
  {
    if left != [] { MarkFirst(left); }
  }

  /** Counting a new single-shot entry. */
  lemma {:induction false} KeepCountShot(s: Shared, stage: Stage)
    requires SharedOk(s, stage) && stage.CountShot?
    ensures Kept(Advance(s, stage))
  {
  }

  /** Looking up the entry to disconnect. */
  lemma {:induction false} KeepLookup(s: Shared, stage: Stage)
    requires SharedOk(s, stage) && stage.Disconnect?
    ensures Kept(Advance(s, stage))
  {
  }

  /** Counting a published entry, uncounting and marking a removed one. */
  lemma {:induction false} KeepEntryCounts(s: Shared, stage: Stage)
    requires SharedOk(s, stage) && (stage.CountEntry? || stage.UncountEntry? || stage.UncountShot? || stage.MarkEntry?)
    ensures Kept(Advance(s, stage))
  {
  }

  /** Storing the empty list. */
  lemma {:induction false} KeepStores(s: Shared, stage: Stage)
    requires SharedOk(s, stage) && (stage.DisconnectAll? || stage.Invalidate? || stage.StoreEmpty?)
    ensures Kept(Advance(s, stage))
  {
  }

  /** Setting the counters to zero. */
  lemma {:induction false} KeepZeros(s: Shared, stage: Stage)
    requires SharedOk(s, stage) && (stage.ZeroCount? || stage.ZeroShots? || stage.FinalCount? || stage.FinalShots?)
    ensures Kept(Advance(s, stage))
  {
  }

  /** Every operation of the mutex holder keeps the list in order and the counters in step with it. */
  lemma {:induction false} AdvanceKeepsShared(s: Shared, stage: Stage)
    requires SharedOk(s, stage)
    ensures Kept(Advance(s, stage))
  {
    match stage
    case Connect(request) => KeepConnect(s, request);
    case CountShot(_, _) => KeepCountShot(s, stage);
    case Publish(entry, next) => KeepPublish(s, entry, next);
    case CountEntry => KeepEntryCounts(s, stage);
    case Disconnect(_) => KeepLookup(s, stage);
    case PublishWithout(entry, next) => KeepPublishWithout(s, entry, next);
    case UncountEntry(_) => KeepEntryCounts(s, stage);
    case UncountShot(_) => KeepEntryCounts(s, stage);
    case MarkEntry(_) => KeepEntryCounts(s, stage);
    case DisconnectAll => KeepStores(s, stage);
    case ZeroCount(_) => KeepZeros(s, stage);
    case ZeroShots(_) => KeepZeros(s, stage);
    case MarkAll(gone) => KeepMarkAll(s, gone);
    case Invalidate => KeepStores(s, stage);
    case MarkPublished(left) => KeepMarkPublished(s, left);
    case StoreEmpty => KeepStores(s, stage);
    case FinalCount(_) => KeepZeros(s, stage);
    case FinalShots(_) => KeepZeros(s, stage);
    case Finished =>
  }

  // ----- what the four operations do, from taking the mutex to letting it go

  /** How many operations the holder still has before it; each of them counts down. */
  function StageCount(s: Shared, stage: Stage): nat {
    match stage
    case Connect(_) => 4
    case CountShot(_, _) => 3
    case Publish(_, _) => 2
    case CountEntry => 1
    case Disconnect(_) => 5
    case PublishWithout(_, _) => 4
    case UncountEntry(_) => 3
    case UncountShot(_) => 2
    case MarkEntry(_) => 1
    case DisconnectAll => |s.list| + 4
    case ZeroCount(gone) => |gone| + 3
    case ZeroShots(gone) => |gone| + 2
    case MarkAll(gone) => |gone| + 1
    case Invalidate => |s.list| + 5
    case MarkPublished(left) => |left| + 4
    case StoreEmpty => 3
    case FinalCount(_) => 2
    case FinalShots(_) => 1
    case Finished => 0
  }

  lemma StageCountFalls(s: Shared, stage: Stage)
    requires !stage.Finished?
    ensures var (s', next) := Advance(s, stage); StageCount(s', next) < StageCount(s, stage)
  {
  }

  /** The shared state when the holder lets go. */
  function Complete(s: Shared, stage: Stage): Shared
    decreases StageCount(s, stage)
  {
    if stage.Finished? then s
    else
      StageCountFalls(s, stage);
      var (s', next) := Advance(s, stage);
      Complete(s', next)
  }

  /** With the mutex free any thread may start any operation from its own code. */
  lemma {:induction false} OperationStarts(s: State, t: ThreadId, operation: Stage)
    requires s.mutex == Unlocked && s.InUserCode(t)
    requires operation.Connect? || operation.Disconnect? || operation.DisconnectAll? || operation.Invalidate?
    ensures Step(s, Lock(t, operation)) == s.(mutex := Locked(t, operation))
  {
  }

  lemma {:induction false} EmitterLeavesShared(s: State, t: ThreadId)
    ensures EmitterStep(s, t).shared == s.shared && EmitterStep(s, t).mutex == s.mutex
  {
  }

  lemma {:induction false} LoadLeavesShared(s: State, a: Action)
    ensures LoadStep(s, a).shared == s.shared && LoadStep(s, a).mutex == s.mutex
  {
  }

  lemma {:induction false} HolderCompletes(s: State)
    requires s.mutex.Locked? && !s.mutex.stage.Finished?
    ensures var s' := HolderStep(s); Complete(s'.shared, s'.mutex.Pending()) == Complete(s.shared, s.mutex.stage)
  {
    var (shared, next) := Advance(s.shared, s.mutex.stage);
    assert Complete(s.shared, s.mutex.stage) == Complete(shared, next);
  }

  /** Whatever the threads do meanwhile, only the holder changes the shared state, and it ends as completed. */
  lemma {:induction false} StepCompletes(s: State, a: Action)
    requires s.mutex.Locked? && !s.mutex.stage.Finished?
    ensures var s' := Step(s, a); Complete(s'.shared, s'.mutex.Pending()) == Complete(s.shared, s.mutex.stage)
    ensures a != Hold(s.mutex.holder) ==> Step(s, a).shared == s.shared && Step(s, a).mutex == s.mutex
  {
    if a == Hold(s.mutex.holder) {
      HolderCompletes(s);
    } else {
      EmitterLeavesShared(s, a.t);
      LoadLeavesShared(s, a);
    }
  }

  lemma {:induction false} CompleteKeeps(s: Shared, stage: Stage)
    requires SharedOk(s, stage)
    ensures SharedOk(Complete(s, stage), Finished)
    decreases StageCount(s, stage)
  {
    if !stage.Finished? {
      var (s', next) := Advance(s, stage);
      StageCountFalls(s, stage);
      AdvanceKeepsShared(s, stage);
      CompleteKeeps(s', next);
    }
  }

  /** The request may join the list: a unique one needs both identities and no entry with the same two. */
  ghost predicate Admissible(list: seq<Entry>, request: Request) {
    request.unique ==>
      request.receiver != 0 && request.slot != 0 &&
      forall i: nat :: i < |list| ==>
        !(list[i].request.receiver == request.receiver && list[i].request.slot == request.slot)
  }

  lemma {:induction false} DuplicateExactly(list: seq<Entry>, request: Request)
    ensures HasDuplicate(list, request) <==> exists i: nat :: i < |list| && SameSlot(list[i].request, request)
  {
    if list != [] {
      var n := |list| - 1;
      var front := list[..n];
      DuplicateExactly(front, request);
      if i: nat :| i < |list| && SameSlot(list[i].request, request) {
        if i < n { assert SameSlot(front[i].request, request); }
      }
      if HasDuplicate(front, request) {
        var i: nat :| i < |front| && SameSlot(front[i].request, request);
        assert SameSlot(list[i].request, request);
      }
    }
  }

  lemma {:induction false} RefusedExactly(list: seq<Entry>, request: Request)
    ensures Refused(list, request) <==> !Admissible(list, request)
  {
    DuplicateExactly(list, request);
    forall i: nat | i < |list|
      ensures SameSlot(list[i].request, request) <==>
              list[i].request.receiver == request.receiver && list[i].request.slot == request.slot
    {
    }
  }

  /** `connect` appends one entry with the next id, exactly when the signal lives and the request may join;
      otherwise it changes nothing. */
  lemma {:induction false} ConnectEffect(s: Shared, request: Request)
    ensures var s' := Complete(s, Connect(request));
            if s.alive && Admissible(s.list, request) then
              s'.list == s.list + [Entry(s.nextId, request)] && s'.nextId == s.nextId + 1 && s'.alive
            else s' == s
  {
    RefusedExactly(s.list, request);
    var entry := Entry(s.nextId, request);
    if s.alive && Admissible(s.list, request) {
      PublishedEffect(Advance(s, Connect(request)).0, entry, s.list + [entry]);
    }
  }

  lemma {:induction false} PublishedEffect(s: Shared, entry: Entry, next: seq<Entry>)
    ensures var s' := Complete(s, CountShot(entry, next));
            s'.list == next && s'.nextId == s.nextId && s'.alive == s.alive
  {
    var (s1, g1) := Advance(s, CountShot(entry, next));
    var (s2, g2) := Advance(s1, g1);
    var (s3, g3) := Advance(s2, g2);
    assert Complete(s, CountShot(entry, next)) == Complete(s1, g1) == Complete(s2, g2) == Complete(s3, g3);
  }

  lemma {:induction false} WithoutAt(list: seq<Entry>, i: nat)
    requires Orderly(list) && i < |list|
    ensures Without(list, list[i].id) == list[..i] + list[i + 1..]
  {
    var n := |list| - 1;
    var front, id := list[..n], list[i].id;
    if i == n {
      NothingToRemove(front, id);
      assert list[n + 1..] == [];
    } else {
      WithoutAt(front, i);
      MemberId(front, i);
      assert list[i + 1..] == front[i + 1..] + [list[n]] && front[..i] == list[..i];
    }
  }

  lemma {:induction false} AbsentId(list: seq<Entry>, id: ConnectionId)
    requires forall i: nat :: i < |list| ==> list[i].id != id
    ensures id !in Ids(list)
  {
    if list != [] { AbsentId(list[..|list| - 1], id); }
  }

  /** `disconnect` removes exactly the entry with the id and keeps the others in order, */
  lemma {:induction false} DisconnectEffect(s: Shared, i: nat)
    requires SharedOk(s, Finished) && s.alive && i < |s.list|
    ensures var s' := Complete(s, Disconnect(s.list[i].id));
            s'.list == s.list[..i] + s.list[i + 1..] && s'.nextId == s.nextId && s'.alive
  {
    var id := s.list[i].id;
    MemberId(s.list, i);
    WithoutAt(s.list, i);
    RemovedEffect(s, s.list[FindId(s.list, id)], Without(s.list, id));
  }

  lemma {:induction false} RemovedEffect(s: Shared, entry: Entry, next: seq<Entry>)
    ensures var s' := Complete(s, PublishWithout(entry, next));
            s'.list == next && s'.nextId == s.nextId && s'.alive == s.alive
  {
    var (s1, g1) := Advance(s, PublishWithout(entry, next));
    var (s2, g2) := Advance(s1, g1);
    var (s3, g3) := Advance(s2, g2);
    var (s4, g4) := Advance(s3, g3);
    assert Complete(s, PublishWithout(entry, next)) == Complete(s1, g1) == Complete(s2, g2);
    assert Complete(s2, g2) == Complete(s3, g3) == Complete(s4, g4);
  }

  /** and changes nothing when there is none or the signal is gone. */
  lemma {:induction false} DisconnectAbsent(s: Shared, id: ConnectionId)
    requires !s.alive || forall i: nat :: i < |s.list| ==> s.list[i].id != id
    ensures Complete(s, Disconnect(id)) == s
  {
    if s.alive { AbsentId(s.list, id); }
  }

  lemma {:induction false} MarkAllEffect(s: Shared, gone: seq<Entry>)
    ensures var s' := Complete(s, MarkAll(gone)); s'.list == s.list && s'.nextId == s.nextId && s'.alive == s.alive
    decreases |gone|
  {
    if gone != [] { MarkAllEffect(s.(connected := s.connected - {gone[0].id}), gone[1..]); }
  }

  /** `disconnectAll` empties the list of a living signal, */
  lemma {:induction false} DisconnectAllEffect(s: Shared)
    ensures var s' := Complete(s, DisconnectAll);
            s'.nextId == s.nextId && s'.alive == s.alive && s'.list == if s.alive then [] else s.list
  {
    if s.alive && s.list != [] {
      var (s1, g1) := Advance(s, DisconnectAll);
      var (s2, g2) := Advance(s1, g1);
      var (s3, g3) := Advance(s2, g2);
      assert Complete(s, DisconnectAll) == Complete(s1, g1) == Complete(s2, g2) == Complete(s3, g3);
      MarkAllEffect(s3, s.list);
    }
  }

  lemma {:induction false} MarkPublishedEffect(s: Shared, left: seq<Entry>)
    ensures var s' := Complete(s, MarkPublished(left)); s'.list == [] && s'.nextId == s.nextId && s'.alive == s.alive
    decreases |left|
  {
    if left != [] {
      MarkPublishedEffect(s.(connected := s.connected - {left[0].id}), left[1..]);
    } else {
      var (s1, g1) := Advance(s, StoreEmpty);
      var (s2, g2) := Advance(s1, g1);
      var (s3, g3) := Advance(s2, g2);
      assert Complete(s, MarkPublished(left)) == Complete(s, StoreEmpty) == Complete(s1, g1);
      assert Complete(s1, g1) == Complete(s2, g2) == Complete(s3, g3);
    }
  }

  /** and destroying the signal empties it for good. */
  lemma {:induction false} InvalidateEffect(s: Shared)
    ensures var s' := Complete(s, Invalidate); s'.list == [] && s'.nextId == s.nextId && !s'.alive
  {
    MarkPublishedEffect(s.(alive := false), s.list);
  }

  // ----- invariant: emissions, claims and calls

  /** The holder is disconnecting this connection. */
  predicate Disconnects(stage: Stage, id: ConnectionId) {
    stage == Disconnect(id) || ((stage.PublishWithout? || Removing(stage)) && stage.entry.id == id)
  }

  /** The connections called through a claim. */
  function CalledIds(calls: seq<Call>): set<ConnectionId> {
    if calls == [] then {}
    else
      var n := |calls| - 1;
      CalledIds(calls[..n]) + if calls[n].claimed then {calls[n].entry.id} else {}
  }

  ghost predicate CalledOnce(calls: seq<Call>) {
    if calls == [] then true
    else
      var n := |calls| - 1;
      CalledOnce(calls[..n]) && (calls[n].claimed ==> calls[n].entry.id !in CalledIds(calls[..n]))
  }

  ghost predicate Below(list: seq<Entry>, bound: nat) {
    forall i: nat :: i < |list| ==> list[i].id < bound
  }

  function Rest(f: Frame): seq<Entry> {
    if f.Entered? || f.Counted? then [] else f.rest
  }

  predicate HoldsClaim(f: Frame) {
    f.Claimed? || f.Removed?
  }

  function IdBound(s: State): nat {
    Bound(s.shared, s.mutex.Pending())
  }

  /** A frame's ids are old and a snapshot is in order; the frame that owns a claim is the one recorded,
      and has not called yet. */
  ghost predicate FrameOk(f: Frame, me: (ThreadId, nat), s: State) {
    Below(Rest(f), IdBound(s)) &&
    (HoldsClaim(f) ==>
       f.entry.id < IdBound(s) && f.entry.id in s.claims && s.claims[f.entry.id] == me &&
       f.entry.id !in CalledIds(s.calls)) &&
    (f.Removed? ==> f.entry.id !in Ids(s.shared.list)) &&
    (f.Snapped? ==> Orderly(f.rest))
  }

  ghost predicate FrameAtOk(s: State, t: ThreadId, d: nat) {
    var stack := s.Stack(t);
    d < |stack| ==> FrameOk(stack[d], (t, d), s) && (d + 1 < |stack| ==> InCall(stack[d]))
  }

  ghost predicate StacksOk(s: State) {
    forall t: nat, d: nat :: FrameAtOk(s, t, d)
  }

  ghost predicate CallsOk(s: State) {
    CalledOnce(s.calls) &&
    forall id :: id in CalledIds(s.calls) ==> id in s.claims && id < IdBound(s) && id !in Ids(s.shared.list)
  }

  ghost predicate HolderOk(s: State) {
    s.mutex.Locked? ==>
      var t := s.mutex.holder;
      var stack := s.Stack(t);
      s.InUserCode(t) || (stack[|stack| - 1].Claimed? && Disconnects(s.mutex.stage, stack[|stack| - 1].entry.id))
  }

  ghost predicate Inv(s: State) {
    SharedOk(s.shared, s.mutex.Pending()) && StacksOk(s) && CallsOk(s) && HolderOk(s)
  }

  /** The published list gains no id below the bound, and the bound only grows. */
  ghost predicate Grows(s: Shared, stage: Stage, r: (Shared, Stage)) {
    Bound(s, stage) <= Bound(r.0, r.1) &&
    forall id :: id in Ids(r.0.list) && id !in Ids(s.list) ==> id >= Bound(s, stage)
  }

  lemma {:induction false} AdvanceGrows(s: Shared, stage: Stage)
    requires SharedOk(s, stage)
    ensures Grows(s, stage, Advance(s, stage))
  {
    if stage.Publish? { Append(s.list, stage.entry); }
    if stage.PublishWithout? { WithoutOne(s.list, stage.entry.id); }
  }

  /** When a disconnect releases the mutex its entry is gone from the published list. */
  lemma {:induction false} DisconnectRemoves(s: Shared, stage: Stage, id: ConnectionId)
    requires SharedOk(s, stage) && Disconnects(stage, id)
    ensures var (s', next) := Advance(s, stage);
            if next.Finished? then id !in Ids(s'.list) else Disconnects(next, id)
  {
  }

  lemma {:induction false} AppendCall(calls: seq<Call>, c: Call)
    ensures CalledIds(calls + [c]) == CalledIds(calls) + if c.claimed then {c.entry.id} else {}
    ensures CalledOnce(calls + [c]) <==> CalledOnce(calls) && (c.claimed ==> c.entry.id !in CalledIds(calls))
  {
    assert (calls + [c])[..|calls|] == calls;
  }

  /** What a step may do to the facts frames rest on; only `owner` may have made a claimed call. */
  ghost predicate Onward(s: State, s': State, owner: (ThreadId, nat)) {
    IdBound(s) <= IdBound(s') &&
    (forall id :: id in Ids(s'.shared.list) && id !in Ids(s.shared.list) ==> id >= IdBound(s)) &&
    (forall id :: id in s.claims ==> id in s'.claims && s'.claims[id] == s.claims[id]) &&
    (forall id :: id in CalledIds(s'.calls) ==> id in CalledIds(s.calls) || (id in s.claims && s.claims[id] == owner))
  }

  lemma FrameMoves(f: Frame, me: (ThreadId, nat), s: State, s': State, owner: (ThreadId, nat))
    requires FrameOk(f, me, s) && Onward(s, s', owner) && me != owner
    ensures FrameOk(f, me, s')
  {
  }

  /** A step of thread t that replaces or pops its top frame keeps all frames in order. */
  lemma TopReplaced(s: State, s': State, t: ThreadId, n: nat, tops: seq<Frame>)
    requires StacksOk(s) && |s.Stack(t)| == n + 1 && |tops| <= 1
    requires s'.stacks == s.stacks[t := s.Stack(t)[..n] + tops]
    requires Onward(s, s', (t, n)) && (tops != [] ==> FrameOk(tops[0], (t, n), s'))
    ensures StacksOk(s')
  {
    forall u: nat, d: nat ensures FrameAtOk(s', u, d) {
      assert FrameAtOk(s, u, d);
      if d < |s'.Stack(u)| && (u, d) != (t, n) {
        FrameMoves(s.Stack(u)[d], (u, d), s, s', (t, n));
      }
    }
  }

  /** Any step that leaves the stacks alone. */
  lemma FramesKept(s: State, s': State)
    requires StacksOk(s) && s'.stacks == s.stacks && s'.claims == s.claims && s'.calls == s.calls
    requires Onward(s, s', (0, 0))
    ensures StacksOk(s')
  {
    forall u: nat, d: nat ensures FrameAtOk(s', u, d) {
      assert FrameAtOk(s, u, d);
    }
  }

  lemma HolderKeepsInv(s: State)
    requires Inv(s) && s.mutex.Locked?
    ensures Inv(HolderStep(s))
  {
    var t, stage := s.mutex.holder, s.mutex.stage;
    var (shared, next) := Advance(s.shared, stage);
    AdvanceKeepsShared(s.shared, stage);
    AdvanceGrows(s.shared, stage);
    var mid := s.(shared := shared, mutex := Locked(t, next));
    assert Onward(s, mid, (0, 0));
    FramesKept(s, mid);
    var stack := s.Stack(t);
    var n := |stack| - 1;
    if stack != [] && stack[n].Claimed? {
      DisconnectRemoves(s.shared, stage, stack[n].entry.id);
      if next.Finished? {
        var s' := Release(mid, t);
        assert FrameAtOk(mid, t, n);
        TopReplaced(mid, s', t, n, [Removed(stack[n].entry, stack[n].rest)]);
      }
    } else if next.Finished? {
      FramesKept(mid, Release(mid, t));
    }
  }

  lemma SetTopKeepsInv(s: State, t: ThreadId, n: nat, tops: seq<Frame>)
    requires Inv(s) && !s.Holds(t) && |s.Stack(t)| == n + 1 && |tops| <= 1
    requires tops != [] ==> FrameOk(tops[0], (t, n), s)
    ensures Inv(s.SetStack(t, s.Stack(t)[..n] + tops)) && (tops == [] ==> Inv(s.SetStack(t, s.Stack(t)[..n])))
  {
    assert tops == [] ==> s.Stack(t)[..n] + tops == s.Stack(t)[..n];
    TopReplaced(s, s.SetStack(t, s.Stack(t)[..n] + tops), t, n, tops);
  }

  /** Calling a slot: a claimed call is made by the frame that owns the claim. */
  lemma CallKeepsInv(s: State, t: ThreadId, n: nat, call: Call, inCall: Frame)
    requires Inv(s) && !s.Holds(t) && |s.Stack(t)| == n + 1 && FrameOk(inCall, (t, n), s) && !HoldsClaim(inCall)
    requires call.claimed ==> s.Stack(t)[n].Removed? && s.Stack(t)[n].entry == call.entry
    ensures Inv(s.SetStack(t, s.Stack(t)[..n] + [inCall]).(calls := s.calls + [call]))
  {
    var s' := s.SetStack(t, s.Stack(t)[..n] + [inCall]).(calls := s.calls + [call]);
    assert FrameAtOk(s, t, n);
    AppendCall(s.calls, call);
    assert CallsOk(s');
    TopReplaced(s, s', t, n, [inCall]);
  }

  lemma InvokeKeepsInv(s: State, t: ThreadId, n: nat, entry: Entry, claimed: bool, inCall: Frame, after: Frame)
    requires Inv(s) && !s.Holds(t) && |s.Stack(t)| == n + 1
    requires FrameOk(inCall, (t, n), s) && FrameOk(after, (t, n), s) && !HoldsClaim(inCall) && !HoldsClaim(after)
    requires claimed ==> s.Stack(t)[n].Removed? && s.Stack(t)[n].entry == entry
    ensures Inv(Invoke(s, t, s.Stack(t)[..n], entry, claimed, inCall, after))
  {
    if entry.request.callable {
      CallKeepsInv(s, t, n, Call(entry, claimed, (t, n)), inCall);
    } else {
      SetTopKeepsInv(s, t, n, [after]);
    }
  }

  /** The exchange of line 265 succeeding. */
  lemma ClaimKeepsInv(s: State, t: ThreadId, n: nat, rest: seq<Entry>)
    requires Inv(s) && !s.Holds(t) && |s.Stack(t)| == n + 1 && s.Stack(t)[n] == Slow(rest)
    requires rest != [] && rest[0].id !in s.claims
    ensures Inv(s.SetStack(t, s.Stack(t)[..n] + [Claimed(rest[0], rest[1..])])
                 .(claims := s.claims[rest[0].id := (t, n)]))
  {
    var s' := s.SetStack(t, s.Stack(t)[..n] + [Claimed(rest[0], rest[1..])]).(claims := s.claims[rest[0].id := (t, n)]);
    assert FrameAtOk(s, t, n);
    TopReplaced(s, s', t, n, [Claimed(rest[0], rest[1..])]);
  }

  lemma FastKeepsInv(s: State, t: ThreadId, n: nat, rest: seq<Entry>)
    requires Inv(s) && !s.Holds(t) && |s.Stack(t)| == n + 1 && s.Stack(t)[n] == Fast(rest)
    ensures Inv(FastStep(s, t, s.Stack(t)[..n], rest))
  {
    assert FrameAtOk(s, t, n);
    if rest == [] {
      SetTopKeepsInv(s, t, n, []);
    } else {
      InvokeKeepsInv(s, t, n, rest[0], false, FastCall(rest[1..]), Fast(rest[1..]));
    }
  }

  lemma SlowKeepsInv(s: State, t: ThreadId, n: nat, rest: seq<Entry>)
    requires Inv(s) && !s.Holds(t) && |s.Stack(t)| == n + 1 && s.Stack(t)[n] == Slow(rest)
    ensures Inv(SlowStep(s, t, s.Stack(t)[..n], rest))
  {
    assert FrameAtOk(s, t, n);
    if rest == [] {
      SetTopKeepsInv(s, t, n, []);
    } else if !rest[0].SingleShot() {
      InvokeKeepsInv(s, t, n, rest[0], false, SlowCall(rest[1..]), Slow(rest[1..]));
    } else if rest[0].id in s.claims {
      SetTopKeepsInv(s, t, n, [Slow(rest[1..])]);
    } else {
      ClaimKeepsInv(s, t, n, rest);
    }
  }

  lemma EmitterKeepsInv(s: State, t: ThreadId)
    requires Inv(s) && !s.Holds(t)
    ensures Inv(EmitterStep(s, t))
  {
    var stack := s.Stack(t);
    if stack != [] {
      var n := |stack| - 1;
      assert FrameAtOk(s, t, n);
      match stack[n]
      case Fast(rest) => FastKeepsInv(s, t, n, rest);
      case Slow(rest) => SlowKeepsInv(s, t, n, rest);
      case Removed(entry, rest) => InvokeKeepsInv(s, t, n, entry, true, SlowCall(rest), Slow(rest));
      case FastCall(rest) => SetTopKeepsInv(s, t, n, [Fast(rest)]);
      case SlowCall(rest) => SetTopKeepsInv(s, t, n, [Slow(rest)]);
      case _ =>
    }
  }

  lemma SnapshotKeepsInv(s: State, t: ThreadId, n: nat)
    requires Inv(s) && !s.Holds(t) && |s.Stack(t)| == n + 1
    ensures Inv(s.SetStack(t, s.Stack(t)[..n] + [Snapped(s.shared.list)]))
  {
    forall i: nat | i < |s.shared.list| ensures s.shared.list[i].id in Ids(s.shared.list) {
      MemberId(s.shared.list, i);
    }
    SetTopKeepsInv(s, t, n, [Snapped(s.shared.list)]);
  }

  lemma LoadKeepsInv(s: State, a: Action)
    requires Inv(s) && !s.Holds(a.t)
    ensures Inv(LoadStep(s, a))
  {
    var stack := s.Stack(a.t);
    if stack != [] {
      var n := |stack| - 1;
      assert FrameAtOk(s, a.t, n);
      SetTopKeepsInv(s, a.t, n, []);
      SetTopKeepsInv(s, a.t, n, [Counted]);
      SnapshotKeepsInv(s, a.t, n);
      if stack[n].Snapped? {
        SetTopKeepsInv(s, a.t, n, [Fast(stack[n].rest)]);
        SetTopKeepsInv(s, a.t, n, [Slow(stack[n].rest)]);
      }
    }
  }

  lemma EmitKeepsInv(s: State, t: ThreadId)
    requires Inv(s) && !s.Holds(t) && s.InUserCode(t)
    ensures Inv(s.SetStack(t, s.Stack(t) + [Entered]))
  {
    var s' := s.SetStack(t, s.Stack(t) + [Entered]);
    forall u: nat, d: nat ensures FrameAtOk(s', u, d) {
      assert FrameAtOk(s, u, d);
    }
  }

  lemma LockKeepsInv(s: State, t: ThreadId, operation: Stage)
    requires Inv(s) && MayLock(s, t, operation)
    ensures Inv(s.(mutex := Locked(t, operation)))
  {
    FramesKept(s, s.(mutex := Locked(t, operation)));
  }

  lemma StepKeepsInv(s: State, a: Action)
    requires Inv(s)
    ensures Inv(Step(s, a))
  {
    if a.Hold? {
      if s.Holds(a.t) { HolderKeepsInv(s); }
    } else if s.Holds(a.t) {
    } else if a.Lock? {
      if MayLock(s, a.t, a.operation) { LockKeepsInv(s, a.t, a.operation); }
    } else if a.Emit? {
      if s.InUserCode(a.t) { EmitKeepsInv(s, a.t); }
    } else if a.Next? {
      EmitterKeepsInv(s, a.t);
    } else {
      LoadKeepsInv(s, a);
    }
  }

  lemma InitialInv(s: State)
    requires Init(s)
    ensures Inv(s)
  {
  }

  lemma {:induction false} RunKeeps(s: State, actions: seq<Action>)
    requires Inv(s)
    ensures Inv(Run(s, actions))
    decreases |actions|
  {
    if actions != [] {
      RunKeeps(s, actions[..|actions| - 1]);
      StepKeepsInv(Run(s, actions[..|actions| - 1]), actions[|actions| - 1]);
    }
  }

  lemma RunKeepsInv(start: State, actions: seq<Action>)
    requires Init(start)
    ensures Inv(Run(start, actions))
  {
    InitialInv(start);
    RunKeeps(start, actions);
  }

  // ----- what holds in every run

  /** In every interleaving the single-shot counter covers the published list; whenever the mutex is
      free both counters are exact and the connected flags name exactly the published entries. */
  lemma CountersCoverList(start: State, actions: seq<Action>)
    requires Init(start)
    ensures var s := Run(start, actions);
            s.shared.singleShotCount >= SingleShots(s.shared.list) &&
            (s.mutex == Unlocked ==>
               s.shared.singleShotCount == SingleShots(s.shared.list) && s.shared.connectionCount == |s.shared.list| &&
               s.shared.connected == Ids(s.shared.list))
  {
    RunKeepsInv(start, actions);
  }

  lemma {:induction false} OrderlyPairs(list: seq<Entry>, i: nat, j: nat)
    requires Orderly(list) && i < j < |list|
    ensures list[i].id != list[j].id && (list[j].request.unique ==> !SameSlot(list[i].request, list[j].request))
    ensures list[j].request.unique ==> list[j].request.receiver != 0 && list[j].request.slot != 0
  {
    var n := |list| - 1;
    if j < n {
      OrderlyPairs(list[..n], i, j);
    } else {
      MemberId(list[..n], i);
      DuplicateAt(list[..n], i, list[n].request);
    }
  }

  lemma {:induction false} DuplicateAt(list: seq<Entry>, i: nat, request: Request)
    requires i < |list|
    ensures SameSlot(list[i].request, request) ==> HasDuplicate(list, request)
  {
    var n := |list| - 1;
    if i < n { DuplicateAt(list[..n], i, request); }
  }

  /** Published ids are distinct, and a unique entry follows no entry of its receiver and slot. */
  lemma PublishedEntriesDiffer(start: State, actions: seq<Action>, i: nat, j: nat)
    requires Init(start)
    requires i < j < |Run(start, actions).shared.list|
    ensures var list := Run(start, actions).shared.list;
            list[i].id != list[j].id && (list[j].request.unique ==> !SameSlot(list[i].request, list[j].request))
  {
    RunKeepsInv(start, actions);
    OrderlyPairs(Run(start, actions).shared.list, i, j);
  }

  lemma {:induction false} CalledAt(calls: seq<Call>, i: nat)
    requires i < |calls| && calls[i].claimed
    ensures calls[i].entry.id in CalledIds(calls)
  {
    var n := |calls| - 1;
    if i < n { CalledAt(calls[..n], i); }
  }

  lemma {:induction false} OncePairs(calls: seq<Call>, i: nat, j: nat)
    requires CalledOnce(calls) && i < j < |calls| && calls[i].claimed && calls[j].claimed
    ensures calls[i].entry.id != calls[j].entry.id
  {
    var n := |calls| - 1;
    if j < n { OncePairs(calls[..n], i, j); } else { CalledAt(calls[..n], i); }
  }

  /** In every interleaving no connection is called twice through the claim path, */
  lemma ClaimedCallsDiffer(start: State, actions: seq<Action>, i: nat, j: nat)
    requires Init(start)
    requires i < j < |Run(start, actions).calls| && Run(start, actions).calls[i].claimed &&
             Run(start, actions).calls[j].claimed
    ensures Run(start, actions).calls[i].entry.id != Run(start, actions).calls[j].entry.id
  {
    RunKeepsInv(start, actions);
    OncePairs(Run(start, actions).calls, i, j);
  }

  /** and one that was is off the published list for good. */
  lemma ClaimedCallUnpublished(start: State, actions: seq<Action>, i: nat, k: nat)
    requires Init(start)
    requires i < |Run(start, actions).calls| && Run(start, actions).calls[i].claimed &&
             k < |Run(start, actions).shared.list|
    ensures Run(start, actions).shared.list[k].id != Run(start, actions).calls[i].entry.id
  {
    RunKeepsInv(start, actions);
    CalledAt(Run(start, actions).calls, i);
    MemberId(Run(start, actions).shared.list, k);
  }
}
