/**
  The log of one install task: an append-only buffer of lines plus a bounded
  FIFO of live lines, and what a subscriber's event stream shows.

  A Go channel of capacity 256 is a queue of at most 256 lines. `finish` sends
  its final line with a blocking send and closes the channel after it; a send
  waiting for room is kept in `pending` until a receive frees a slot.
 */
module Tasks {
  import opened Wrappers

  datatype Level = Unset | Info | OK | Warn | Error

  function LevelText(l: Level): string {
    match l
    case Unset => ""
    case Info => "info"
    case OK => "ok"
    case Warn => "warn"
    case Error => "error"
  }

  datatype LogLine = LogLine(text: string, level: Level, done: bool, error: bool)

  /** The zero value of LogLine: what a receive from a closed, empty channel yields. */
  const ZeroLine: LogLine := LogLine("", Unset, false, false)

  /** The marker `Stream` sends on its own when it attaches to a finished task. */
  const DoneMarker: LogLine := LogLine("", Unset, true, false)

  /** The capacity of the live channel. */
  const ChanCap: nat := 256

  datatype Task = Task(
    buf: seq<LogLine>,
    ch: seq<LogLine>,
    done: bool,
    pending: Option<LogLine>,
    closed: bool)

  function NewTask(): Task {
    Task([], [], false, None, false)
  }

  /**
    The states the operations below keep: the channel holds at most 256 lines,
    a waiting send exists only while the channel is full and the task is
    finishing, every ordinary line on the channel was also buffered, and the
    final line is the last thing ever sent.
   */
  predicate Valid(t: Task) {
    && |t.ch| <= ChanCap
    && (forall i :: 0 <= i < |t.buf| ==> !t.buf[i].done)
    && (forall i :: 0 <= i < |t.ch| && !t.ch[i].done ==> t.ch[i] in t.buf)
    && (forall i :: 0 <= i < |t.ch| && t.ch[i].done ==> i == |t.ch| - 1 && t.closed)
    && (t.pending.Some? ==> |t.ch| == ChanCap && t.pending.value.done && !t.closed)
    && (t.closed ==> t.pending.None?)
    && (t.done <==> t.closed || t.pending.Some?)
  }

  /** Everything still to be received: the channel, then a waiting send. */
  function Queue(t: Task): seq<LogLine> {
    if t.pending.Some? then t.ch + [t.pending.value] else t.ch
  }

  lemma NewTaskValid()
    ensures Valid(NewTask()) && Queue(NewTask()) == []
  {
  }

  // ---------------------------------------------------------------------------
  // log and finish

  /**
    `log`: one line is appended to the buffer, and offered to the channel
    without blocking; when the channel is full the live copy is dropped.
    Sending on a closed channel panics in Go, so the task must be open.
   */
  function Log(t: Task, level: Level, text: string): (r: Task)
    requires !t.closed
    ensures r.buf == t.buf + [LogLine(text, level, false, false)]
    ensures |t.ch| < ChanCap ==> r.ch == t.ch + [LogLine(text, level, false, false)]
    ensures |t.ch| >= ChanCap ==> r.ch == t.ch
    ensures r.done == t.done && r.pending == t.pending && r.closed == t.closed
  {
    var line := LogLine(text, level, false, false);
    t.(buf := t.buf + [line], ch := if |t.ch| < ChanCap then t.ch + [line] else t.ch)
  }

  /** The line `finish` sends last. */
  function FinalLine(err: Option<string>): (l: LogLine)
    ensures l.done && (l.error <==> err.Some?)
  {
    match err
    case None => DoneMarker
    case Some(msg) => LogLine("ERROR: " + msg, Error, true, true)
  }

  /**
    `finish`: on an error one error line is buffered; the final line is sent
    with a blocking send, so it is queued behind every line already on the
    channel and never dropped; the channel is closed once it is in.
   */
  function Finish(t: Task, err: Option<string>): (r: Task)
    requires !t.done && !t.closed && t.pending.None?
    ensures err.None? ==> r.buf == t.buf
    ensures err.Some? ==> r.buf == t.buf + [LogLine("ERROR: " + err.value, Error, false, false)]
    ensures r.done
    ensures Queue(r) == Queue(t) + [FinalLine(err)]
  {
    var final := FinalLine(err);
    var buf := if err.Some? then t.buf + [LogLine(final.text, Error, false, false)] else t.buf;
    if |t.ch| < ChanCap then Task(buf, t.ch + [final], true, None, true)
    else Task(buf, t.ch, true, Some(final), false)
  }

  lemma LogValid(t: Task, level: Level, text: string)
    requires Valid(t) && !t.closed
    ensures Valid(Log(t, level, text))
  {
    var r := Log(t, level, text);
    assert forall l :: l in t.buf ==> l in r.buf;
  }

  lemma FinishValid(t: Task, err: Option<string>)
    requires Valid(t) && !t.done
    ensures Valid(Finish(t, err))
  {
    var r := Finish(t, err);
    assert forall l :: l in t.buf ==> l in r.buf;
  }

  // ---------------------------------------------------------------------------
  // Receiving from the channel

  datatype Recv = Received(line: LogLine, open: bool) | Blocked

  /**
    One `<-t.ch`: the head of the queue; a waiting send moves in behind the
    freed slot and the channel is then closed. A closed, empty channel yields
    the zero line with `open` false; an open, empty one blocks.
   */
  function Receive(t: Task): (Task, Recv)
    requires Valid(t)
  {
    if |t.ch| > 0 then
      var rest := t.ch[1..];
      if t.pending.Some? then (t.(ch := rest + [t.pending.value], pending := None, closed := true), Received(t.ch[0], true))
      else (t.(ch := rest), Received(t.ch[0], true))
    else if t.closed then (t, Received(ZeroLine, false))
    else (t, Blocked)
  }

  lemma ReceiveValid(t: Task)
    requires Valid(t)
    ensures Valid(Receive(t).0)
    ensures Receive(t).0.buf == t.buf && Receive(t).0.done == t.done
    ensures Receive(t).1.Received? && Receive(t).1.open ==>
      Queue(t) != [] && Receive(t).1.line == Queue(t)[0] && Queue(Receive(t).0) == Queue(t)[1..]
    ensures Receive(t).1.Received? && !Receive(t).1.open ==> Queue(t) == [] && t.closed
    ensures Receive(t).1.Blocked? ==> Queue(t) == [] && !t.done
  {
    var (r, v) := Receive(t);
    if |t.ch| > 0 {
      assert forall i :: 0 <= i < |r.ch| ==> r.ch[i] == Queue(t)[i + 1];
    }
  }

  datatype Event = Delivery(line: LogLine, open: bool) | Cancelled | Quiet

  function Deliveries(ls: seq<LogLine>): (es: seq<Event>)
    ensures |es| == |ls|
    ensures forall i :: 0 <= i < |ls| ==> es[i] == Delivery(ls[i], true)
  {
    if ls == [] then [] else [Delivery(ls[0], true)] + Deliveries(ls[1..])
  }

  /** The receives a subscriber makes until it would block or sees the channel closed. */
  function Drain(t: Task): seq<Event>
    requires Valid(t)
    decreases |Queue(t)|
  {
    ReceiveValid(t);
    var (r, v) := Receive(t);
    match v
    case Blocked => []
    case Received(line, open) => if open then [Delivery(line, true)] + Drain(r) else [Delivery(line, false)]
  }

  /** Draining a finished task yields its whole queue, then the closed channel. */
  lemma {:induction false} DrainFinished(t: Task)
    requires Valid(t) && t.done
    ensures Drain(t) == Deliveries(Queue(t)) + [Delivery(ZeroLine, false)]
    decreases |Queue(t)|
  {
    ReceiveValid(t);
    var (r, v) := Receive(t);
    if v.Received? && v.open {
      DrainFinished(r);
      assert Queue(t) == [Queue(t)[0]] + Queue(t)[1..];
    }
  }

  /** Draining a running task yields what is on the channel, then blocks. */
  lemma {:induction false} DrainRunning(t: Task)
    requires Valid(t) && !t.done
    ensures Drain(t) == Deliveries(t.ch)
    decreases |t.ch|
  {
    ReceiveValid(t);
    var (r, v) := Receive(t);
    if v.Received? {
      DrainRunning(r);
      assert t.ch == [t.ch[0]] + t.ch[1..];
    }
  }

  /** Even with the channel full, the final line reaches the subscriber. */
  lemma FinalNeverDropped(t: Task, err: Option<string>)
    requires Valid(t) && !t.done
    ensures Drain(Finish(t, err)) == Deliveries(t.ch + [FinalLine(err)]) + [Delivery(ZeroLine, false)]
  {
    FinishValid(t, err);
    DrainFinished(Finish(t, err));
  }

  // ---------------------------------------------------------------------------
  // Stream

  datatype Frame = Data(line: LogLine) | Ping

  function Replay(ls: seq<LogLine>): (fs: seq<Frame>)
    ensures |fs| == |ls|
    ensures forall i :: 0 <= i < |ls| ==> fs[i] == Data(ls[i])
  {
    if ls == [] then [] else [Data(ls[0])] + Replay(ls[1..])
  }

  /** An event after which the live loop returns. */
  predicate Stops(e: Event) {
    e.Cancelled? || (e.Delivery? && (!e.open || e.line.done))
  }

  /**
    The live loop: every received line is forwarded, including the zero line
    of a closed channel, and the loop returns right after a final line, a
    closed channel or the client going away; each quiet spell is a ping.
   */
  function Live(es: seq<Event>): (fs: seq<Frame>)
    ensures |fs| <= |es|
    ensures forall i :: 0 <= i < |fs| - 1 ==> !(fs[i].Data? && fs[i].line.done)
  {
    if es == [] then []
    else
      match es[0]
      case Cancelled => []
      case Quiet => [Ping] + Live(es[1..])
      case Delivery(line, open) => if !open || line.done then [Data(line)] else [Data(line)] + Live(es[1..])
  }

  /**
    What one subscriber receives: the buffer as it was when it attached, then
    a done marker if the task had finished by then, else the live loop.
   */
  function Stream(snapshot: seq<LogLine>, doneAtAttach: bool, es: seq<Event>): (fs: seq<Frame>)
    ensures |fs| >= |snapshot| && fs[..|snapshot|] == Replay(snapshot)
  {
    if doneAtAttach then Replay(snapshot) + [Data(DoneMarker)]
    else Replay(snapshot) + Live(es)
  }

  /** Nothing after the first stopping event matters. */
  lemma {:induction false} LiveStopsAt(es: seq<Event>, k: nat)
    requires k < |es| && Stops(es[k])
    requires forall j :: 0 <= j < k ==> !Stops(es[j])
    ensures Live(es) == Live(es[..k + 1])
    decreases k
  {
    if k > 0 {
      assert es[1..][k - 1] == es[k];
      LiveStopsAt(es[1..], k - 1);
      assert es[..k + 1][1..] == es[1..][..k];
    }
  }

  lemma {:induction false} LiveOfDeliveries(ls: seq<LogLine>, rest: seq<Event>)
    requires forall i :: 0 <= i < |ls| ==> !ls[i].done
    ensures Live(Deliveries(ls) + rest) == Replay(ls) + Live(rest)
    decreases |ls|
  {
    if ls != [] {
      assert (Deliveries(ls) + rest)[0] == Delivery(ls[0], true);
      assert (Deliveries(ls) + rest)[1..] == Deliveries(ls[1..]) + rest;
      LiveOfDeliveries(ls[1..], rest);
    } else {
      assert Deliveries(ls) + rest == rest;
    }
  }

  /**
    A subscriber attaching to a finished task sees the buffer and one done
    marker without the error flag, even when the task failed.
   */
  lemma AttachAfterFinish(t: Task, err: Option<string>, es: seq<Event>)
    requires Valid(t) && !t.done
    ensures
      var r := Finish(t, err);
      var fs := Stream(r.buf, r.done, es);
      && fs == Replay(r.buf) + [Data(DoneMarker)]
      && !fs[|fs| - 1].line.error
  {
  }

  /**
    A subscriber attaching to a running task, which then finishes, sees the
    buffer, then every line still queued at that moment a second time, then
    the final line, and nothing after it.
   */
  lemma AttachThenFinish(t: Task, err: Option<string>)
    requires Valid(t) && !t.done
    ensures forall i :: 0 <= i < |t.ch| ==> t.ch[i] in t.buf
    ensures Stream(t.buf, t.done, Drain(Finish(t, err))) == Replay(t.buf) + Replay(t.ch) + [Data(FinalLine(err))]
  {
    FinalNeverDropped(t, err);
    var rest := [Delivery(FinalLine(err), true), Delivery(ZeroLine, false)];
    assert Deliveries(t.ch + [FinalLine(err)]) + [Delivery(ZeroLine, false)] == Deliveries(t.ch) + rest;
    LiveOfDeliveries(t.ch, rest);
    assert Live(rest) == [Data(FinalLine(err))];
  }

  /** The smallest case: one logged line is shown twice before the final line. */
  lemma DuplicateDelivery()
    ensures
      var t := Log(NewTask(), Info, "x");
      var line := LogLine("x", Info, false, false);
      Stream(t.buf, t.done, Drain(Finish(t, None))) == [Data(line), Data(line), Data(DoneMarker)]
  {
    var t := Log(NewTask(), Info, "x");
    LogValid(NewTask(), Info, "x");
    AttachThenFinish(t, None);
  }
}
