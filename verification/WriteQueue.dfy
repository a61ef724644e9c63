/** The write queue as a state machine: frames go in under the lock, the port emits bytes, writes
    complete or fail.  The history says what became of every frame ever enqueued. */
module WriteQueue {
  import opened Bytes

  /** A write handed to the executor: its bytes, and how many of them are on the wire. */
  datatype WriteOp = WriteOp(bytes: seq<byte>, sent: nat)

  /** Cut: the write failed after sent bytes.  Dropped: cleared from the queue without being sent. */
  datatype Fortune = Pending | Completed | Cut(sent: nat) | Dropped

  datatype Writer = Writer(
    bufs: seq<seq<byte>>, ops: seq<WriteOp>, wire: seq<byte>,
    frames: seq<seq<byte>>, fortunes: seq<Fortune>)     // history: enqueued frames, in order

  const IDLE := Writer([], [], [], [], [])

  /** do_write: hand the front of the queue to the executor. */
  function Start(w: Writer): Writer
    requires w.bufs != []
  {
    w.(ops := w.ops + [WriteOp(w.bufs[0], 0)])
  }

  /** The locked part of write_to_serial. */
  function Enqueue(w: Writer, frame: seq<byte>): Writer {
    var pushed := w.(bufs := w.bufs + [frame], frames := w.frames + [frame], fortunes := w.fortunes + [Pending]);
    if w.bufs == [] then Start(pushed) else pushed
  }

  /** The first frame whose fate is open: the queue holds it and all after it. */
  function Oldest(w: Writer): int {
    |w.frames| - |w.bufs|
  }

  function Transmit(w: Writer, k: nat, n: nat): Writer
    requires k < |w.ops| && w.ops[k].sent + n <= |w.ops[k].bytes|
  {
    var op := w.ops[k];
    w.(ops := w.ops[k := op.(sent := op.sent + n)], wire := w.wire + op.bytes[op.sent..op.sent + n])
  }

  function WithoutOp(w: Writer, k: nat): Writer
    requires k < |w.ops|
  {
    w.(ops := w.ops[..k] + w.ops[k + 1..])
  }

  /** write_ec_callback without an error. */
  function Finish(w: Writer): Writer
    requires w.bufs != [] && 0 <= Oldest(w) < |w.fortunes|
  {
    var popped := w.(bufs := w.bufs[1..], fortunes := w.fortunes[Oldest(w) := Completed]);
    if popped.bufs != [] then Start(popped) else popped
  }

  /** The front frame was cut short, the ones queued behind it are gone. */
  function Abandoned(fortunes: seq<Fortune>, front: int, sent: nat): (after: seq<Fortune>)
    ensures |after| == |fortunes|
    ensures forall i :: 0 <= i < |after| ==>
              after[i] == if i < front then fortunes[i] else if i == front then Cut(sent) else Dropped
  {
    seq(|fortunes|, i requires 0 <= i < |fortunes| =>
      if i < front then fortunes[i] else if i == front then Cut(sent) else Dropped)
  }

  /** write_ec_callback with an error, sent bytes of the failed write being on the wire. */
  function Abandon(w: Writer, sent: nat): Writer {
    w.(bufs := [], fortunes := Abandoned(w.fortunes, Oldest(w), sent))
  }

  datatype Event =
    | Put(frame: seq<byte>)
    | Emit(op: nat, n: nat)
    | Finished(op: nat)
    | Fail(op: nat)

  /** What the lock and the port allow: a write is reported done when all of it is out, and failed
      only before that.  Popping needs a front element. */
  predicate Enabled(w: Writer, e: Event) {
    match e
    case Put(_) => true
    case Emit(k, n) => k < |w.ops| && w.ops[k].sent + n <= |w.ops[k].bytes|
    case Finished(k) =>
      k < |w.ops| && w.ops[k].sent == |w.ops[k].bytes| && w.bufs != [] && 0 <= Oldest(w) < |w.fortunes|
    case Fail(k) => k < |w.ops| && w.ops[k].sent < |w.ops[k].bytes|
  }

  function Step(w: Writer, e: Event): Writer
    requires Enabled(w, e)
  {
    match e
    case Put(frame) => Enqueue(w, frame)
    case Emit(k, n) => Transmit(w, k, n)
    case Finished(k) => Finish(WithoutOp(w, k))
    case Fail(k) => Abandon(WithoutOp(w, k), w.ops[k].sent)
  }

  // ----- what every run keeps

  /** The bytes of a frame that are on the wire for good. */
  function Share(frame: seq<byte>, f: Fortune): seq<byte> {
    match f
    case Completed => frame
    case Cut(sent) => if sent <= |frame| then frame[..sent] else frame
    case _ => []
  }

  function Emitted(frames: seq<seq<byte>>, fortunes: seq<Fortune>): seq<byte>
    requires |frames| == |fortunes|
  {
    if frames == [] then []
    else Emitted(frames[..|frames| - 1], fortunes[..|frames| - 1]) + Share(frames[|frames| - 1], fortunes[|frames| - 1])
  }

  /** The queue holds the last |bufs| frames, and exactly those are pending; a frame was cut short
      only before its end. */
  ghost predicate Settled(bufs: seq<seq<byte>>, frames: seq<seq<byte>>, fortunes: seq<Fortune>) {
    && |fortunes| == |frames| && |bufs| <= |frames|
    && frames[|frames| - |bufs|..] == bufs
    && (forall i :: 0 <= i < |frames| ==> (fortunes[i].Pending? <==> |frames| - |bufs| <= i))
    && (forall i :: 0 <= i < |frames| && fortunes[i].Cut? ==> fortunes[i].sent < |frames[i]|)
  }

  /** One write in flight exactly while the queue is not empty, of the unchanged front frame. */
  predicate OneWrite(w: Writer) {
    if w.bufs == [] then w.ops == []
    else |w.ops| == 1 && w.ops[0].bytes == w.bufs[0] && w.ops[0].sent <= |w.bufs[0]|
  }

  /** The part of the front frame that is on the wire already. */
  function InFlight(w: Writer): seq<byte>
    requires OneWrite(w)
  {
    if w.bufs == [] then [] else w.bufs[0][..w.ops[0].sent]
  }

  /** The wire is the shares of the settled frames, in the order of enqueueing, then a prefix of the front. */
  ghost predicate Safe(w: Writer) {
    && Settled(w.bufs, w.frames, w.fortunes) && OneWrite(w)
    && w.wire == Emitted(w.frames[..Oldest(w)], w.fortunes[..Oldest(w)]) + InFlight(w)
  }

  lemma EmittedSnoc(frames: seq<seq<byte>>, fortunes: seq<Fortune>, frame: seq<byte>, f: Fortune)
    requires |frames| == |fortunes|
    ensures Emitted(frames + [frame], fortunes + [f]) == Emitted(frames, fortunes) + Share(frame, f)
  {
    assert (frames + [frame])[..|frames|] == frames && (fortunes + [f])[..|frames|] == fortunes;
  }

  lemma PutSettled(w: Writer, frame: seq<byte>)
    requires Settled(w.bufs, w.frames, w.fortunes)
    ensures Settled(w.bufs + [frame], w.frames + [frame], w.fortunes + [Pending])
  {
  }

  lemma PutSafe(w: Writer, frame: seq<byte>)
    requires Safe(w)
    ensures Safe(Enqueue(w, frame))
  {
    hide Emitted;
    var w', n := Enqueue(w, frame), Oldest(w);
    PutSettled(w, frame);
    assert w'.frames[..n] == w.frames[..n] && w'.fortunes[..n] == w.fortunes[..n];
  }

  lemma FrontGrows(settled: seq<byte>, frame: seq<byte>, sent: nat, n: nat)
    requires sent + n <= |frame|
    ensures settled + frame[..sent] + frame[sent..sent + n] == settled + frame[..sent + n]
  {
    assert frame[..sent] + frame[sent..sent + n] == frame[..sent + n];
  }

  lemma EmitSafe(w: Writer, k: nat, n: nat)
    requires Safe(w) && Enabled(w, Emit(k, n))
    ensures Safe(Transmit(w, k, n))
  {
    hide Emitted, Settled;
    assert k == 0;
    forall settled {
      FrontGrows(settled, w.ops[0].bytes, w.ops[0].sent, n);
    }
  }

  /** Closing the books on the front frame. */
  lemma FrontSettles(w: Writer, f: Fortune)
    requires Safe(w) && w.bufs != []
    ensures var n := Oldest(w);
            && 0 <= n < |w.frames| == |w.fortunes| && w.frames[n] == w.bufs[0]
            && w.frames[..n + 1] == w.frames[..n] + [w.bufs[0]]
            && Emitted(w.frames[..n + 1], w.fortunes[..n] + [f])
            == Emitted(w.frames[..n], w.fortunes[..n]) + Share(w.bufs[0], f)
  {
    var n := Oldest(w);
    assert w.frames[n] == w.frames[n..][0];
    assert w.frames[..n + 1] == w.frames[..n] + [w.bufs[0]];
    EmittedSnoc(w.frames[..n], w.fortunes[..n], w.bufs[0], f);
  }

  lemma DoneSettled(w: Writer, n: nat)
    requires Settled(w.bufs, w.frames, w.fortunes) && w.bufs != [] && n == Oldest(w)
    ensures Settled(w.bufs[1..], w.frames, w.fortunes[n := Completed])
  {
    assert w.frames[n + 1..] == w.frames[n..][1..];
  }

  lemma DoneSafe(w: Writer, k: nat)
    requires Safe(w) && Enabled(w, Finished(k))
    ensures Safe(Step(w, Finished(k)))
  {
    hide Emitted, Settled;
    var n := Oldest(w);
    FrontSettles(w, Completed);
    DoneSettled(w, n);
    assert InFlight(w) == w.bufs[0];
    assert w.fortunes[n := Completed][..n + 1] == w.fortunes[..n] + [Completed];
  }

  lemma {:induction false} DroppedEmitNothing(frames: seq<seq<byte>>, fortunes: seq<Fortune>, n: nat)
    requires |frames| == |fortunes| && n <= |frames|
    requires forall i :: n <= i < |frames| ==> fortunes[i] == Dropped
    ensures Emitted(frames, fortunes) == Emitted(frames[..n], fortunes[..n])
    decreases |frames|
  {
    var m := |frames|;
    if n == m {
      assert frames[..n] == frames && fortunes[..n] == fortunes;
    } else {
      DroppedEmitNothing(frames[..m - 1], fortunes[..m - 1], n);
      assert frames[..m - 1][..n] == frames[..n] && fortunes[..m - 1][..n] == fortunes[..n];
    }
  }

  lemma FailSettled(w: Writer, n: int, sent: nat)
    requires Settled(w.bufs, w.frames, w.fortunes) && w.bufs != [] && n == Oldest(w) && sent < |w.bufs[0]|
    ensures Settled([], w.frames, Abandoned(w.fortunes, n, sent)) && 0 <= n && |w.frames| == |w.fortunes|
  {
    assert w.frames[n] == w.frames[n..][0];
  }

  /** The prefix that was in flight is now the share of a frame cut short. */
  lemma FailWire(w: Writer, n: nat, sent: nat)
    requires Safe(w) && w.bufs != [] && n == Oldest(w) && sent == w.ops[0].sent
    ensures Emitted(w.frames, Abandoned(w.fortunes, n, sent)) == w.wire
  {
    var fortunes := Abandoned(w.fortunes, n, sent);
    assert fortunes[..n + 1] == w.fortunes[..n] + [Cut(sent)];
    FrontSettles(w, Cut(sent));
    DroppedEmitNothing(w.frames, fortunes, n + 1);
  }

  lemma FailSafe(w: Writer, k: nat)
    requires Safe(w) && Enabled(w, Fail(k))
    ensures Safe(Step(w, Fail(k)))
  {
    hide Emitted, Settled, Abandoned;
    var n, sent := Oldest(w), w.ops[0].sent;
    FailSettled(w, n, sent);
    FailWire(w, n, sent);
    var w' := Step(w, Fail(k));
    assert w'.frames[..|w.frames|] == w.frames && w'.fortunes[..|w.frames|] == w'.fortunes;
  }

  /** Every event keeps the queue safe. */
  lemma StepSafe(w: Writer, e: Event)
    requires Safe(w) && Enabled(w, e)
    ensures Safe(Step(w, e))
  {
    hide Safe;
    match e
    case Put(frame) => PutSafe(w, frame);
    case Emit(k, n) => EmitSafe(w, k, n);
    case Finished(k) => DoneSafe(w, k);
    case Fail(k) => FailSafe(w, k);
  }

  /** The callback of a finished write always finds the frame it wrote at the front of the queue. */
  lemma DoneFindsItsFrame(w: Writer, k: nat)
    requires Safe(w) && k < |w.ops| && w.ops[k].sent == |w.ops[k].bytes|
    ensures Enabled(w, Finished(k)) && k == 0 && w.bufs[0] == w.ops[0].bytes
  {
  }

  /** states[i] is the queue after the first i events. */
  ghost predicate Run(states: seq<Writer>, events: seq<Event>) {
    && |states| == |events| + 1
    && states[0] == IDLE
    && forall i :: 0 <= i < |events| ==> Enabled(states[i], events[i]) && states[i + 1] == Step(states[i], events[i])
  }

  lemma IdleSafe()
    ensures Safe(IDLE)
  {
  }

  /** Safety and conservation in every run, with or without write errors. */
  lemma {:induction false} RunSafe(states: seq<Writer>, events: seq<Event>)
    requires Run(states, events)
    ensures Safe(states[|events|])
    decreases |events|
  {
    hide Safe, Step, Enabled;
    var n := |events|;
    if n == 0 {
      IdleSafe();
    } else {
      RunSafe(states[..n], events[..n - 1]);
      StepSafe(states[n - 1], events[n - 1]);
    }
  }

  /** No write failed so far. */
  ghost predicate NoFailure(w: Writer) {
    forall i :: 0 <= i < |w.fortunes| ==> w.fortunes[i].Pending? || w.fortunes[i].Completed?
  }

  lemma {:induction false} EmittedCompleted(frames: seq<seq<byte>>, fortunes: seq<Fortune>)
    requires |frames| == |fortunes|
    requires forall i :: 0 <= i < |frames| ==> fortunes[i] == Completed
    ensures Emitted(frames, fortunes) == Flat(frames)
    decreases |frames|
  {
    var m := |frames|;
    if m == 0 {
    } else {
      EmittedCompleted(frames[..m - 1], fortunes[..m - 1]);
      FlatSnoc(frames[..m - 1], frames[m - 1]);
      assert frames == frames[..m - 1] + [frames[m - 1]];
    }
  }

  /** Without a failure the wire is the finished frames, whole and in order, then a prefix of the
      front one: no two frames are ever mixed. */
  lemma WireInOrder(w: Writer)
    requires Safe(w) && NoFailure(w)
    ensures w.wire == Flat(w.frames[..Oldest(w)]) + InFlight(w)
    ensures w.wire <= Flat(w.frames)
  {
    var n := Oldest(w);
    EmittedCompleted(w.frames[..n], w.fortunes[..n]);
    assert w.frames == w.frames[..n] + w.bufs;
    FlatAppend(w.frames[..n], w.bufs);
    if w.bufs != [] {
      assert InFlight(w) <= w.bufs[0] <= Flat(w.bufs);
    }
  }

  // ----- what each event does, field by field

  /** A frame goes to the end of the queue, and is written at once only if the queue was empty. */
  lemma PutGoesLast(w: Writer, frame: seq<byte>)
    ensures var w' := Step(w, Put(frame));
            && w'.bufs == w.bufs + [frame] && w'.frames == w.frames + [frame]
            && w'.fortunes == w.fortunes + [Pending] && w'.wire == w.wire
            && w'.ops == if w.bufs == [] then w.ops + [WriteOp(frame, 0)] else w.ops
  {
  }

  /** A finished write leaves the queue, and the next frame is written from its first byte. */
  lemma FinishedPops(w: Writer)
    requires Safe(w) && Enabled(w, Finished(0))
    ensures var w' := Step(w, Finished(0));
            && w'.bufs == w.bufs[1..] && w'.wire == w.wire && w'.frames == w.frames
            && w'.ops == (if |w.bufs| > 1 then [WriteOp(w.bufs[1], 0)] else [])
            && w'.fortunes == w.fortunes[|w.frames| - |w.bufs| := Completed]
  {
  }

  /** A failed write clears everything: nothing is queued or in flight any more, the front frame stays
      cut where it was, those behind it are never sent. */
  lemma FailClears(w: Writer, k: nat)
    requires Safe(w) && Enabled(w, Fail(k))
    ensures var w', n := Step(w, Fail(k)), |w.frames| - |w.bufs|;
            && w'.bufs == [] && w'.ops == [] && w'.wire == w.wire && w'.frames == w.frames
            && 0 <= n < |w.frames| == |w'.fortunes|
            && w'.fortunes[..n] == w.fortunes[..n]
            && w'.fortunes[n] == Cut(w.ops[0].sent)
            && forall i :: n < i < |w.frames| ==> w'.fortunes[i] == Dropped
  {
    hide Emitted;
  }

  // ----- what is settled stays settled

  /** Everything enqueued in a is in b at the same place, and what became of it by then. */
  ghost predicate Continues(a: Writer, b: Writer) {
    && a.frames <= b.frames && |a.frames| == |a.fortunes| && |b.frames| == |b.fortunes|
    && forall i :: 0 <= i < |a.frames| && !a.fortunes[i].Pending? ==> b.fortunes[i] == a.fortunes[i]
  }

  lemma StepContinues(w: Writer, e: Event)
    requires Safe(w) && Enabled(w, e)
    ensures Continues(w, Step(w, e))
  {
    hide Emitted;
  }

  lemma SafeContinues(w: Writer)
    requires Safe(w)
    ensures Continues(w, w)
  {
    hide Emitted;
  }

  lemma {:induction false} RunContinues(states: seq<Writer>, events: seq<Event>, i: nat, j: nat)
    requires Run(states, events) && i <= j <= |events|
    ensures Continues(states[i], states[j])
    decreases j
  {
    hide Safe, Step, Enabled;
    RunSafe(states[..j + 1], events[..j]);
    if i == j {
      SafeContinues(states[i]);
    } else {
      RunContinues(states, events, i, j - 1);
      RunSafe(states[..j], events[..j - 1]);
      StepContinues(states[j - 1], events[j - 1]);
    }
  }

  lemma NothingEmitted()
    ensures Emitted([], []) == []
  {
  }

  lemma {:induction false} EmittedAppend(a: seq<seq<byte>>, x: seq<Fortune>, b: seq<seq<byte>>, y: seq<Fortune>)
    requires |a| == |x| && |b| == |y|
    ensures Emitted(a + b, x + y) == Emitted(a, x) + Emitted(b, y)
    decreases |b|
  {
    hide Emitted, Share;
    var m := |b|;
    if m == 0 {
      NothingEmitted();
      assert a + b == a && x + y == x;
    } else {
      var b', y' := b[..m - 1], y[..m - 1];
      EmittedAppend(a, x, b', y');
      EmittedSnoc(a + b', x + y', b[m - 1], y[m - 1]);
      EmittedSnoc(b', y', b[m - 1], y[m - 1]);
      assert b == b' + [b[m - 1]] && y == y' + [y[m - 1]];
      assert a + b == a + b' + [b[m - 1]] && x + y == x + y' + [y[m - 1]];
    }
  }

  /** The wire after a state with an empty queue goes on with frames enqueued later, and nothing else. */
  lemma WireContinues(a: Writer, b: Writer)
    requires Safe(a) && Safe(b) && Continues(a, b) && a.bufs == []
    ensures var n, m := |a.frames|, Oldest(b);
            n <= m && b.wire == a.wire + (Emitted(b.frames[n..m], b.fortunes[n..m]) + InFlight(b))
  {
    hide Emitted;
    var n, m := |a.frames|, Oldest(b);
    assert a.frames[..n] == a.frames && a.fortunes[..n] == a.fortunes;
    assert forall i :: 0 <= i < n ==> !a.fortunes[i].Pending? && !b.fortunes[i].Pending?;
    if m < |b.frames| {
      assert b.fortunes[m].Pending?;
    }
    EmittedAppend(a.frames, a.fortunes, b.frames[n..m], b.fortunes[n..m]);
    assert b.frames[..m] == a.frames + b.frames[n..m] && b.fortunes[..m] == a.fortunes + b.fortunes[n..m];
  }

  lemma AllSettled(a: Writer, b: Writer)
    requires Safe(a) && Safe(b) && Continues(a, b) && a.bufs == []
    ensures b.frames[..|a.frames|] == a.frames && b.fortunes[..|a.frames|] == a.fortunes
  {
    hide Emitted;
  }

  /** In every run, after a failed write no byte of a frame enqueued before the failure ever goes out:
      the wire is what it was, then shares of frames enqueued later, in order. */
  lemma NothingAfterFailure(states: seq<Writer>, events: seq<Event>, i: nat, j: nat)
    requires Run(states, events) && i < j <= |events| && events[i].Fail?
    ensures var n, w := |states[i].frames|, states[j];
            && n <= Oldest(w) <= |w.frames| && |w.frames| == |w.fortunes| && OneWrite(w)
            && states[i].frames == w.frames[..n] && states[i + 1].fortunes == w.fortunes[..n]
            && w.wire == states[i].wire + (Emitted(w.frames[n..Oldest(w)], w.fortunes[n..Oldest(w)]) + InFlight(w))
            && (w.bufs != [] ==> w.bufs[0] == w.frames[Oldest(w)])
  {
    RunSafe(states[..i + 1], events[..i]);
    RunSafe(states[..i + 2], events[..i + 1]);
    RunSafe(states[..j + 1], events[..j]);
    FailClears(states[i], events[i].op);
    RunContinues(states, events, i + 1, j);
    AllSettled(states[i + 1], states[j]);
    WireContinues(states[i + 1], states[j]);
  }
}
