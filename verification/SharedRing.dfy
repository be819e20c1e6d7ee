/** The single-producer, single-consumer byte ring in shared memory
    (libs/job_io/job_shared_memory.cpp). Positions only grow; they are taken to stay below 2^64,
    so they are naturals here, and loads and stores are sequentially consistent. */
module SharedRing {
  import opened Bits
  import opened Bytes

  /** The ring cell of a position. */
  function Cell(pos: nat, cap: nat): (c: nat)
    requires cap > 0
    ensures c < cap
  {
    pos % cap
  }

  /** The cell that byte i of a copy of `len` bytes touches, as the two memcpy branches compute it. */
  function CopyCell(pos: nat, len: nat, i: nat, cap: nat): nat
    requires cap > 0
  {
    var offset := Cell(pos, cap);
    if offset + len <= cap then offset + i
    else if i < cap - offset then offset + i
    else i - (cap - offset)
  }

  /** Contiguous or split, a copy touches the cells of consecutive positions. */
  lemma CopyCellIsCell(pos: nat, len: nat, i: nat, cap: nat)
    requires cap > 0 && i < len <= cap
    ensures CopyCell(pos, len, i, cap) == Cell(pos + i, cap)
  {
    var q, offset := pos / cap, pos % cap;
    assert pos == cap * q + offset;
    if offset + i < cap {
      DivModUnique(pos + i, cap, q, offset + i);
    } else {
      assert cap * (q + 1) == cap * q + cap;
      DivModUnique(pos + i, cap, q + 1, offset + i - cap);
    }
  }

  /** Positions less than a lap apart have different cells. */
  lemma CellsDiffer(p: nat, q: nat, cap: nat)
    requires cap > 0 && p < q < p + cap
    ensures Cell(p, cap) != Cell(q, cap)
  {
    var a, b := p / cap, q / cap;
    assert p == cap * a + p % cap && q == cap * b + q % cap;
    var e := b - a;
    assert cap * e == cap * b - cap * a;
    assert (e >= 1 ==> cap * e >= cap) && (e <= 0 ==> cap * e <= 0);
  }

  // ----- interleaved steps of one writer and one reader

  datatype Writer =
    | WriterIdle
    | Writing(data: seq<Byte>, done: nat)  // space was checked; `done` bytes are copied

  datatype Reader =
    | ReaderIdle
    | Reading(count: nat, taken: seq<Byte>)  // `count` bytes were promised; `taken` are copied

  /** `accepted` and `delivered` record the bytes whose write was published and whose read was. */
  datatype State = State(ring: seq<Byte>, writePos: nat, readPos: nat, writer: Writer, reader: Reader,
                         accepted: seq<Byte>, delivered: seq<Byte>) {
    function Cap(): nat { |ring| }
  }

  datatype Action =
    | CheckSpace(data: seq<Byte>)  // write: lines 373-385
    | CopyIn                       // write: one byte of the memcpy
    | PublishWrite                 // write: line 397
    | LoadAvailable(maxlen: nat)   // read: lines 314-337
    | CopyOut                      // read: one byte of the memcpy
    | PublishRead                  // read: line 351

  predicate Enabled(s: State, a: Action) {
    match a
    case CheckSpace(_) => s.writer.WriterIdle?
    case CopyIn => s.writer.Writing? && s.writer.done < |s.writer.data|
    case PublishWrite => s.writer.Writing? && s.writer.done == |s.writer.data|
    case LoadAvailable(_) => s.reader.ReaderIdle?
    case CopyOut => s.reader.Reading? && |s.reader.taken| < s.reader.count
    case PublishRead => s.reader.Reading? && |s.reader.taken| == s.reader.count
  }

  function Step(s: State, a: Action): State
    requires s.Cap() > 0
  {
    if !Enabled(s, a) then s
    else match a
      case CheckSpace(data) =>
        if |data| > s.Cap() - (s.writePos - s.readPos) then s else s.(writer := Writing(data, 0))
      case CopyIn =>
        var cell := CopyCell(s.writePos, |s.writer.data|, s.writer.done, s.Cap());
        if cell >= s.Cap() then s
        else s.(ring := s.ring[cell := s.writer.data[s.writer.done]],
                   writer := Writing(s.writer.data, s.writer.done + 1))
      case PublishWrite =>
        s.(writePos := s.writePos + |s.writer.data|, writer := WriterIdle, accepted := s.accepted + s.writer.data)
      case LoadAvailable(maxlen) =>
        if s.writePos <= s.readPos then s
        else
          var avail := s.writePos - s.readPos;
          s.(reader := Reading(if maxlen < avail then maxlen else avail, []))
      case CopyOut =>
        var cell := CopyCell(s.readPos, s.reader.count, |s.reader.taken|, s.Cap());
        if cell >= s.Cap() then s
        else s.(reader := Reading(s.reader.count, s.reader.taken + [s.ring[cell]]))
      case PublishRead =>
        s.(readPos := s.readPos + s.reader.count, reader := ReaderIdle, delivered := s.delivered + s.reader.taken)
  }

  ghost predicate Init(s: State) {
    s.Cap() > 0 && s.writePos == 0 && s.readPos == 0 && s.writer.WriterIdle? && s.reader.ReaderIdle? &&
    s.accepted == [] && s.delivered == []
  }

  function Run(s: State, actions: seq<Action>): State
    requires s.Cap() > 0
    decreases |actions|
  {
    if actions == [] then s
    else
      var before := Run(s, actions[..|actions| - 1]);
      if before.Cap() > 0 then Step(before, actions[|actions| - 1]) else before
  }

  // ----- invariant

  ghost predicate Positions(s: State) {
    s.Cap() > 0 && s.readPos <= s.writePos <= s.readPos + s.Cap() &&
    |s.accepted| == s.writePos && |s.delivered| == s.readPos && s.delivered <= s.accepted
  }

  /** Every unread position still holds the byte accepted for it. */
  ghost predicate Stored(s: State)
    requires Positions(s)
  {
    forall p: nat :: s.readPos <= p < s.writePos ==> s.ring[Cell(p, s.Cap())] == s.accepted[p]
  }

  ghost predicate WriterOk(s: State)
    requires Positions(s)
  {
    s.writer.Writing? ==>
      s.writer.done <= |s.writer.data| && s.writePos + |s.writer.data| <= s.readPos + s.Cap() &&
      forall i: nat :: i < s.writer.done ==> s.ring[Cell(s.writePos + i, s.Cap())] == s.writer.data[i]
  }

  ghost predicate ReaderOk(s: State)
    requires Positions(s)
  {
    s.reader.Reading? ==>
      |s.reader.taken| <= s.reader.count && s.readPos + s.reader.count <= s.writePos &&
      s.reader.taken == s.accepted[s.readPos..s.readPos + |s.reader.taken|]
  }

  ghost predicate Inv(s: State) {
    Positions(s) && Stored(s) && WriterOk(s) && ReaderOk(s)
  }

  lemma StepCopyIn(s: State)
    requires Inv(s) && Enabled(s, CopyIn)
    ensures Inv(Step(s, CopyIn))
  {
    var cap, data, done := s.Cap(), s.writer.data, s.writer.done;
    CopyCellIsCell(s.writePos, |data|, done, cap);
    var t := Step(s, CopyIn);
    var at := s.writePos + done;
    forall p: nat | s.readPos <= p < s.writePos ensures t.ring[Cell(p, cap)] == s.accepted[p] {
      CellsDiffer(p, at, cap);
    }
    forall i: nat | i < done + 1 ensures t.ring[Cell(s.writePos + i, cap)] == data[i] {
      if i < done { CellsDiffer(s.writePos + i, at, cap); }
    }
  }

  lemma StepPublishWrite(s: State)
    requires Inv(s) && Enabled(s, PublishWrite)
    ensures Inv(Step(s, PublishWrite))
  {
    var t := Step(s, PublishWrite);
    forall p: nat | t.readPos <= p < t.writePos ensures t.ring[Cell(p, t.Cap())] == t.accepted[p] {
      if p >= s.writePos {
        var i: nat := p - s.writePos;
        assert s.ring[Cell(s.writePos + i, s.Cap())] == s.writer.data[i];
      }
    }
  }

  lemma StepCopyOut(s: State)
    requires Inv(s) && Enabled(s, CopyOut)
    ensures Inv(Step(s, CopyOut))
  {
    var n := |s.reader.taken|;
    CopyCellIsCell(s.readPos, s.reader.count, n, s.Cap());
    assert s.ring[Cell(s.readPos + n, s.Cap())] == s.accepted[s.readPos + n];
    assert s.accepted[s.readPos..s.readPos + n + 1] == s.accepted[s.readPos..s.readPos + n] +
           [s.accepted[s.readPos + n]];
  }

  lemma StepPublishRead(s: State)
    requires Inv(s) && Enabled(s, PublishRead)
    ensures Inv(Step(s, PublishRead))
  {
    var t := Step(s, PublishRead);
    assert s.delivered + s.accepted[s.readPos..t.readPos] == s.accepted[..t.readPos];
  }

  /** Every step of either side keeps the invariant. */
  lemma StepKeepsInv(s: State, a: Action)
    requires Inv(s)
    ensures Inv(Step(s, a))
  {
    if Enabled(s, a) {
      match a
      case CheckSpace(data) =>
      case CopyIn => StepCopyIn(s);
      case PublishWrite => StepPublishWrite(s);
      case LoadAvailable(_) =>
      case CopyOut => StepCopyOut(s);
      case PublishRead => StepPublishRead(s);
    }
  }

  lemma {:induction false} RunKeepsInv(s: State, actions: seq<Action>)
    requires Init(s)
    ensures Inv(Run(s, actions))
    decreases |actions|
  {
    if actions != [] {
      var n := |actions| - 1;
      RunKeepsInv(s, actions[..n]);
      StepKeepsInv(Run(s, actions[..n]), actions[n]);
    }
  }

  /** Under every interleaving: what was delivered is a prefix of what was accepted, and the ring
      never holds more than its capacity. */
  lemma RingIsFifo(s: State, actions: seq<Action>)
    requires Init(s)
    ensures var t := Run(s, actions);
            t.delivered <= t.accepted && |t.delivered| == t.readPos && |t.accepted| == t.writePos &&
            t.readPos <= t.writePos <= t.readPos + t.Cap()
    ensures var t := Run(s, actions); t.readPos == t.writePos ==> t.delivered == t.accepted
  {
    RunKeepsInv(s, actions);
  }

  /** And a copy in progress on one side never touches a cell the other side is copying. */
  lemma CopiesNeverMeet(s: State, actions: seq<Action>, i: nat, j: nat)
    requires Init(s)
    requires var t := Run(s, actions);
             t.writer.Writing? && t.reader.Reading? && i < |t.writer.data| && j < t.reader.count
    ensures var t := Run(s, actions);
            t.Cap() > 0 && CopyCell(t.writePos, |t.writer.data|, i, t.Cap()) !=
                           CopyCell(t.readPos, t.reader.count, j, t.Cap())
  {
    RunKeepsInv(s, actions);
    var t := Run(s, actions);
    CopyCellIsCell(t.writePos, |t.writer.data|, i, t.Cap());
    CopyCellIsCell(t.readPos, t.reader.count, j, t.Cap());
    CellsDiffer(t.readPos + j, t.writePos + i, t.Cap());
  }

  /** The guards against cells outside the ring never fire: every enabled copy step copies. */
  lemma CopyStepsProceed(s: State, actions: seq<Action>)
    requires Init(s)
    ensures var t := Run(s, actions);
            t.Cap() > 0 &&
            (Enabled(t, CopyIn) ==> Step(t, CopyIn).writer == Writing(t.writer.data, t.writer.done + 1)) &&
            (Enabled(t, CopyOut) ==> |Step(t, CopyOut).reader.taken| == |t.reader.taken| + 1)
  {
    RunKeepsInv(s, actions);
    var t := Run(s, actions);
    if Enabled(t, CopyIn) { CopyCellIsCell(t.writePos, |t.writer.data|, t.writer.done, t.Cap()); }
    if Enabled(t, CopyOut) { CopyCellIsCell(t.readPos, t.reader.count, |t.reader.taken|, t.Cap()); }
  }

  // ----- every call goes through

  function Copies(a: Action, n: nat): seq<Action> {
    if n == 0 then [] else Copies(a, n - 1) + [a]
  }

  lemma {:induction false} RunKeeps(s: State, actions: seq<Action>)
    requires Inv(s)
    ensures Inv(Run(s, actions))
    decreases |actions|
  {
    if actions != [] {
      var n := |actions| - 1;
      RunKeeps(s, actions[..n]);
      StepKeepsInv(Run(s, actions[..n]), actions[n]);
    }
  }

  lemma {:induction false} RunThen(s: State, actions: seq<Action>, a: Action)
    requires Inv(s)
    ensures Inv(Run(s, actions)) && Run(s, actions + [a]) == Step(Run(s, actions), a)
  {
    RunKeeps(s, actions);
    assert (actions + [a])[..|actions|] == actions;
  }

  /** The steps of one `write` call, and of one `read` call that copies k bytes. */
  function WriteCall(data: seq<Byte>): seq<Action> {
    [CheckSpace(data)] + Copies(CopyIn, |data|) + [PublishWrite]
  }

  function ReadCall(maxlen: nat, k: nat): seq<Action> {
    [LoadAvailable(maxlen)] + Copies(CopyOut, k) + [PublishRead]
  }

  lemma {:induction false} RunNothing(s: State)
    requires s.Cap() > 0
    ensures Run(s, []) == s
  {
  }

  lemma {:induction false} CopyInStep(s: State, data: seq<Byte>, n: nat)
    requires Inv(s) && s.writer == Writing(data, n) && n < |data|
    ensures var t := Step(s, CopyIn);
            Inv(t) && t == s.(ring := t.ring, writer := Writing(data, n + 1)) && t.Cap() == s.Cap()
  {
    CopyCellIsCell(s.writePos, |data|, n, s.Cap());
    StepKeepsInv(s, CopyIn);
  }

  lemma {:induction false} CopyOutStep(s: State)
    requires Inv(s) && s.reader.Reading? && |s.reader.taken| < s.reader.count
    ensures var t := Step(s, CopyOut);
            Inv(t) && t == s.(reader := t.reader) && t.reader.Reading? && t.reader.count == s.reader.count &&
            |t.reader.taken| == |s.reader.taken| + 1
  {
    CopyCellIsCell(s.readPos, s.reader.count, |s.reader.taken|, s.Cap());
    StepKeepsInv(s, CopyOut);
  }

  /** From s the writer has copied n bytes of its data, and done nothing else. */
  ghost predicate Wrote(s: State, t: State, data: seq<Byte>, n: nat) {
    Inv(t) && t == s.(ring := t.ring, writer := Writing(data, n)) && t.Cap() == s.Cap()
  }

  lemma {:induction false} WroteStart(s: State, data: seq<Byte>)
    requires Inv(s) && s.writer.WriterIdle? && |data| <= s.Cap() - (s.writePos - s.readPos)
    ensures Wrote(s, Step(s, CheckSpace(data)), data, 0)
  {
    StepKeepsInv(s, CheckSpace(data));
  }

  lemma {:induction false} WroteNext(s: State, t: State, data: seq<Byte>, n: nat)
    requires Wrote(s, t, data, n) && n < |data|
    ensures Wrote(s, Step(t, CopyIn), data, n + 1)
  {
    CopyInStep(t, data, n);
  }

  lemma {:induction false} WritingSoFar(s: State, data: seq<Byte>, n: nat)
    requires Inv(s) && s.writer.WriterIdle? && |data| <= s.Cap() - (s.writePos - s.readPos) && n <= |data|
    ensures Wrote(s, Run(s, [CheckSpace(data)] + Copies(CopyIn, n)), data, n)
    decreases n
  {
    var first := CheckSpace(data);
    if n == 0 {
      RunFirst(s, first, CopyIn);
      WroteStart(s, data);
    } else {
      WritingSoFar(s, data, n - 1);
      RunNext(s, first, CopyIn, n - 1);
      WroteNext(s, Run(s, [first] + Copies(CopyIn, n - 1)), data, n - 1);
    }
  }

  lemma {:induction false} RunFirst(s: State, first: Action, a: Action)
    requires Inv(s)
    ensures Run(s, [first] + Copies(a, 0)) == Step(s, first)
  {
    assert [first] + Copies(a, 0) == [] + [first];
    RunThen(s, [], first);
    RunNothing(s);
  }

  lemma {:induction false} RunNext(s: State, first: Action, a: Action, n: nat)
    requires Inv(s)
    ensures Inv(Run(s, [first] + Copies(a, n)))
    ensures Run(s, [first] + Copies(a, n + 1)) == Step(Run(s, [first] + Copies(a, n)), a)
  {
    assert [first] + Copies(a, n + 1) == [first] + Copies(a, n) + [a];
    RunThen(s, [first] + Copies(a, n), a);
  }

  /** In every state between two calls of the writer, whatever the reader is doing, a write that fits is
      accepted whole, and the step that finds too little room changes nothing. */
  lemma {:induction false} WriteGoesThrough(s: State, data: seq<Byte>)
    requires Inv(s) && s.writer.WriterIdle?
    ensures |data| <= s.Cap() - (s.writePos - s.readPos) ==>
              var t := Run(s, WriteCall(data));
              t.accepted == s.accepted + data && t.writePos == s.writePos + |data| && t.writer == WriterIdle &&
              t.reader == s.reader && t.readPos == s.readPos && t.delivered == s.delivered
    ensures |data| > s.Cap() - (s.writePos - s.readPos) ==> Step(s, CheckSpace(data)) == s
  {
    if |data| <= s.Cap() - (s.writePos - s.readPos) {
      WritingSoFar(s, data, |data|);
      RunThen(s, [CheckSpace(data)] + Copies(CopyIn, |data|), PublishWrite);
    }
  }

  /** From s the reader has copied n of k bytes, and done nothing else. */
  ghost predicate Took(s: State, t: State, k: nat, n: nat) {
    Inv(t) && t == s.(reader := t.reader) && t.reader.Reading? && t.reader.count == k && |t.reader.taken| == n
  }

  lemma {:induction false} TookStart(s: State, maxlen: nat, k: nat)
    requires Inv(s) && s.reader.ReaderIdle? && s.readPos < s.writePos
    requires k == if maxlen < s.writePos - s.readPos then maxlen else s.writePos - s.readPos
    ensures Took(s, Step(s, LoadAvailable(maxlen)), k, 0)
  {
    StepKeepsInv(s, LoadAvailable(maxlen));
  }

  lemma {:induction false} TookNext(s: State, t: State, k: nat, n: nat)
    requires Took(s, t, k, n) && n < k
    ensures Took(s, Step(t, CopyOut), k, n + 1)
  {
    CopyOutStep(t);
  }

  lemma {:induction false} ReadingSoFar(s: State, maxlen: nat, k: nat, n: nat)
    requires Inv(s) && s.reader.ReaderIdle? && s.readPos < s.writePos && n <= k
    requires k == if maxlen < s.writePos - s.readPos then maxlen else s.writePos - s.readPos
    ensures Took(s, Run(s, [LoadAvailable(maxlen)] + Copies(CopyOut, n)), k, n)
    decreases n
  {
    var first := LoadAvailable(maxlen);
    if n == 0 {
      RunFirst(s, first, CopyOut);
      TookStart(s, maxlen, k);
    } else {
      ReadingSoFar(s, maxlen, k, n - 1);
      RunNext(s, first, CopyOut, n - 1);
      TookNext(s, Run(s, [first] + Copies(CopyOut, n - 1)), k, n - 1);
    }
  }

  /** In every state between two calls of the reader, whatever the writer is doing, a read with something
      pending delivers the next min(maxlen, available) accepted bytes. */
  lemma {:induction false} ReadGoesThrough(s: State, maxlen: nat, k: nat)
    requires Inv(s) && s.reader.ReaderIdle? && s.readPos < s.writePos
    requires k == if maxlen < s.writePos - s.readPos then maxlen else s.writePos - s.readPos
    ensures var t := Run(s, ReadCall(maxlen, k));
            t.delivered == s.accepted[..s.readPos + k] && t.readPos == s.readPos + k && t.reader == ReaderIdle &&
            t.writer == s.writer && t.writePos == s.writePos && t.accepted == s.accepted && t.ring == s.ring
  {
    ReadingSoFar(s, maxlen, k, k);
    var before := [LoadAvailable(maxlen)] + Copies(CopyOut, k);
    RunThen(s, before, PublishRead);
    var t := Run(s, before);
    assert s.accepted[..s.readPos] + s.accepted[s.readPos..s.readPos + k] == s.accepted[..s.readPos + k];
  }

  /** With nothing pending the reader gets nowhere. */
  lemma NothingToRead(s: State, maxlen: nat)
    requires Inv(s) && s.readPos == s.writePos
    ensures Step(s, LoadAvailable(maxlen)) == s
  {
  }

  // ----- the two calls on the shared bytes

  class JobSharedMemory {
    const data: array<Byte>
    var writePos: nat
    var readPos: nat

    ghost predicate Valid()
      reads this, data
    {
      data.Length > 0 && readPos <= writePos <= readPos + data.Length
    }

    /** The bytes written and not yet read, oldest first. */
    ghost function Pending(): (s: seq<Byte>)
      requires Valid()
      reads this, data
      ensures |s| == writePos - readPos
    {
      PendingIn(data[..], readPos, writePos)
    }

    /** `JobSharedMemoryHeader::create` over a ring of `capacity` bytes */
    constructor (capacity: nat)
      requires capacity > 0
      ensures Valid() && Pending() == [] && fresh(data) && data.Length == capacity
    {
      data := new Byte[capacity](i => 0);
      writePos, readPos := 0, 0;
    }

    /** `write`: all of the bytes or, when they do not fit, none. */
    method Write(bytes: seq<Byte>) returns (written: nat)
      requires Valid()
      modifies this`writePos, data
      ensures Valid()
      ensures written == if |bytes| <= data.Length - (old(writePos) - readPos) then |bytes| else 0
      ensures Pending() == if written == |bytes| then old(Pending()) + bytes else old(Pending())
    {
      var cap := data.Length;
      var freeSpace := cap - (writePos - readPos);
      if |bytes| > freeSpace { return 0; }
      var offset := Cell(writePos, cap);
      ghost var before := data[..];
      if offset + |bytes| <= cap {
        MemCpy(offset, bytes);
      } else {
        var firstChunk := cap - offset;
        MemCpy(offset, bytes[..firstChunk]);
        MemCpy(0, bytes[firstChunk..]);
      }
      WrittenBytes(before, data[..], readPos, writePos, bytes);
      writePos := writePos + |bytes|;
      return |bytes|;
    }

    /** A memcpy into the ring */
    method MemCpy(offset: nat, bytes: seq<Byte>)
      requires offset + |bytes| <= data.Length
      modifies data
      ensures forall c: nat :: c < data.Length ==>
                data[c] == if offset <= c < offset + |bytes| then bytes[c - offset] else old(data[c])
    {
      for i := 0 to |bytes|
        invariant forall c: nat :: c < data.Length ==>
                    data[c] == if offset <= c < offset + i then bytes[c - offset] else old(data[c])
      {
        data[offset + i] := bytes[i];
      }
    }

    /** `read`. With nothing pending the non-blocking call reports EAGAIN, and a blocking call returns
        only when its wait fails; while it waits the writer may step, which is `LoadAvailable` retried. */
    method Read(maxlen: nat, nonBlocking: bool) returns (result: ReadResult)
      requires Valid()
      modifies this`readPos
      ensures Valid()
      ensures old(Pending()) == [] ==> result == (if nonBlocking then Again else WaitFailed) && readPos == old(readPos)
      ensures old(Pending()) != [] ==>
                result.Bytes? && result.bytes == Oldest(old(Pending()), maxlen) &&
                Pending() == old(Pending())[|result.bytes|..]
    {
      var cap := data.Length;
      var avail := writePos - readPos;
      if avail == 0 { return if nonBlocking then Again else WaitFailed; }
      var toRead := if maxlen < avail then maxlen else avail;
      var offset := Cell(readPos, cap);
      var bytes;
      if offset + toRead <= cap {
        bytes := data[offset..offset + toRead];
      } else {
        var firstChunk := cap - offset;
        bytes := data[offset..offset + firstChunk] + data[..toRead - firstChunk];
      }
      ReadBytes(data[..], readPos, writePos, toRead, bytes);
      readPos := readPos + toRead;
      result := Bytes(bytes);
    }
  }

  /** What `read` returns: the error -1 with EAGAIN or with a failed wait, or the bytes delivered. */
  datatype ReadResult = Again | WaitFailed | Bytes(bytes: seq<Byte>)

  /** The first maxlen bytes, or all of them. */
  function Oldest(pending: seq<Byte>, maxlen: nat): (r: seq<Byte>)
    ensures r <= pending && |r| == if maxlen < |pending| then maxlen else |pending|
  {
    pending[..if maxlen < |pending| then maxlen else |pending|]
  }

  ghost function PendingIn(ring: seq<Byte>, r: nat, w: nat): (s: seq<Byte>)
    requires |ring| > 0 && r <= w <= r + |ring|
    ensures |s| == w - r && forall i: nat :: i < |s| ==> s[i] == ring[Cell(r + i, |ring|)]
  {
    seq(w - r, i requires 0 <= i < w - r => ring[Cell(r + i, |ring|)])
  }

  /** In every interleaving the pending bytes of the ring are the accepted bytes not yet delivered. */
  lemma PendingIsUnread(s: State, actions: seq<Action>)
    requires Init(s)
    ensures var t := Run(s, actions);
            t.Cap() > 0 && t.readPos <= t.writePos <= t.readPos + t.Cap() && t.writePos <= |t.accepted| &&
            PendingIn(t.ring, t.readPos, t.writePos) == t.accepted[t.readPos..t.writePos]
  {
    RunKeepsInv(s, actions);
  }

  /** What the two chunks of a copy of `bytes` at position `w` leave in cell c. */
  ghost function CopiedInto(before: seq<Byte>, w: nat, bytes: seq<Byte>, c: nat): Byte
    requires c < |before|
  {
    var cap, offset := |before|, Cell(w, |before|);
    if offset <= c < offset + |bytes| then bytes[c - offset]
    else if c < offset + |bytes| - cap then var k := c + cap - offset; if k < |bytes| then bytes[k] else before[c]
    else before[c]
  }

  lemma WrittenBytes(before: seq<Byte>, after: seq<Byte>, r: nat, w: nat, bytes: seq<Byte>)
    requires |before| == |after| > 0 && r <= w && w + |bytes| <= r + |after|
    requires forall c: nat :: c < |after| ==> after[c] == CopiedInto(before, w, bytes, c)
    ensures PendingIn(after, r, w + |bytes|) == PendingIn(before, r, w) + bytes
  {
    var cap := |after|;
    var now := PendingIn(after, r, w + |bytes|);
    forall i: nat | i < |now|
      ensures now[i] == if r + i < w then before[Cell(r + i, cap)] else bytes[r + i - w]
    {
      if r + i < w {
        KeptByte(before, w, bytes, r + i);
      } else {
        NewByte(before, w, bytes, r + i - w);
      }
    }
  }

  lemma NewByte(before: seq<Byte>, w: nat, bytes: seq<Byte>, k: nat)
    requires |bytes| <= |before| && k < |bytes|
    ensures CopiedInto(before, w, bytes, Cell(w + k, |before|)) == bytes[k]
  {
    CopyCellIsCell(w, |bytes|, k, |before|);
  }

  /** A position less than a lap behind the end of the copy keeps its byte. */
  lemma KeptByte(before: seq<Byte>, w: nat, bytes: seq<Byte>, p: nat)
    requires |before| > 0 && p < w && w + |bytes| <= p + |before|
    ensures CopiedInto(before, w, bytes, Cell(p, |before|)) == before[Cell(p, |before|)]
  {
    var cap := |before|;
    var c := Cell(p, cap);
    if InChunks(c, w, |bytes|, cap) {
      var k := ChunkHit(c, w, |bytes|, cap);
      CopyCellIsCell(w, |bytes|, k, cap);
      CellsDiffer(p, w + k, cap);
      assert false;
    }
  }

  ghost predicate InChunks(c: nat, pos: nat, len: nat, cap: nat)
    requires cap > 0
  {
    var offset := Cell(pos, cap);
    offset <= c < offset + len || c < offset + len - cap
  }

  /** A cell inside one of the chunks is the cell of some byte of the copy. */
  lemma ChunkHit(c: nat, pos: nat, len: nat, cap: nat) returns (k: nat)
    requires c < cap && len <= cap && InChunks(c, pos, len, cap)
    ensures k < len && CopyCell(pos, len, k, cap) == c
  {
    var offset := Cell(pos, cap);
    k := if offset <= c < offset + len then c - offset else c + cap - offset;
  }

  lemma ReadBytes(ring: seq<Byte>, r: nat, w: nat, n: nat, bytes: seq<Byte>)
    requires |ring| > 0 && r <= w <= r + |ring| && n <= w - r
    requires var offset := Cell(r, |ring|);
             bytes == if offset + n <= |ring| then ring[offset..offset + n]
                      else ring[offset..] + ring[..n - (|ring| - offset)]
    ensures bytes == PendingIn(ring, r, w)[..n] && PendingIn(ring, r + n, w) == PendingIn(ring, r, w)[n..]
  {
    forall i: nat | i < n ensures bytes[i] == ring[Cell(r + i, |ring|)] {
      CopyCellIsCell(r, n, i, |ring|);
    }
    var all, rest := PendingIn(ring, r, w), PendingIn(ring, r + n, w);
    forall i: nat | i < |rest| ensures rest[i] == all[n..][i] {
      assert r + n + i == r + (n + i);
    }
  }
}
