/**
  The demand-driven line reader behind `FileUtils.lines`: a BufferedReader
  opened eagerly, and a sink whose request callback reads at most `n` lines,
  whose cancel and dispose callbacks close the reader.

  The BufferedReader is replaced by a `Source`: the lines `readLine` returns
  in order, then how the next read ends (a `null`, or an IOException).
  A read failure part-way through a file is the same thing to the reader as
  a source whose lines stop there and which ends in the failure.
 */
module LineReader {
  import opened Wrappers

  /** What the read after the last line does. */
  datatype End = AtEof | AtReadError

  datatype Source = Source(lines: seq<string>, end: End)

  /**
    The producer's state: the reader's position in the source, whether the
    reader has been closed, and whether the sink has been completed.
   */
  datatype Cursor = Cursor(src: Source, pos: nat, closed: bool, completed: bool)

  /** Why `lines` failed before any sequence existed. */
  datatype OpenError = CannotOpen

  /** One `readLine` call: a line, end of input (`null`), or an IOException. */
  datatype Read = Line(text: string) | Eof | ReadFailure

  /** The terminal signal a request ran into, if any. */
  datatype Signal = Quiet | Completed | Errored

  /** The consumer's events: more demand, cancellation, disposal. */
  datatype Event = Request(n: nat) | Cancel | Dispose

  /** What one event does: the new state, the lines pushed to the sink, the terminal signal. */
  datatype Reaction = Reaction(cursor: Cursor, emitted: seq<string>, signal: Signal)

  /** A whole session: the final state and every line the sink received. */
  datatype Session = Session(cursor: Cursor, emitted: seq<string>)

  predicate Valid(c: Cursor) {
    && c.pos <= |c.src.lines|
    && (c.completed ==> c.closed && c.pos == |c.src.lines|)
  }

  function Remaining(c: Cursor): nat
    requires Valid(c)
  {
    |c.src.lines| - c.pos
  }

  function Min(a: nat, b: nat): nat {
    if a <= b then a else b
  }

  /**
    `lines(path, charset)`: the reader is opened at call time. `handle` is
    what opening produced: no source when `Files.newBufferedReader` threw.
   */
  function Lines(handle: Option<Source>): (r: Result<Cursor, OpenError>)
    ensures r.Failure? <==> handle.None?
    ensures r.Success? ==> Valid(r.value) && r.value.src == handle.value
    ensures r.Success? ==> Remaining(r.value) == |handle.value.lines|
    ensures r.Success? ==> !r.value.closed && !r.value.completed
  {
    match handle
    case None => Failure(CannotOpen)
    case Some(src) => Success(Cursor(src, 0, false, false))
  }

  /** `readLine(br)` on an open reader. */
  function ReadLine(c: Cursor): (r: Read)
    requires Valid(c)
    ensures r.Line? <==> Remaining(c) > 0
    ensures r.Line? ==> r.text == c.src.lines[c.pos]
    ensures r.Eof? <==> Remaining(c) == 0 && c.src.end.AtEof?
    ensures r.ReadFailure? <==> Remaining(c) == 0 && c.src.end.AtReadError?
  {
    if c.pos < |c.src.lines| then Line(c.src.lines[c.pos])
    else if c.src.end == AtEof then Eof
    else ReadFailure
  }

  /**
    What one request for `n` lines does, in closed form: the next
    min(n, remaining) lines are emitted; if the demand outlasts the lines,
    the read after the last line decides the ending.
   */
  function Respond(c: Cursor, n: nat): Reaction
    requires Valid(c)
  {
    var k := Min(n, Remaining(c));
    var emitted := c.src.lines[c.pos .. c.pos + k];
    if n <= Remaining(c) then Reaction(c.(pos := c.pos + k), emitted, Quiet)
    else if c.src.end == AtEof then Reaction(c.(pos := c.pos + k, closed := true, completed := true), emitted, Completed)
    else Reaction(c.(pos := c.pos + k), emitted, Errored)
  }

  /**
    The body of the request callback: at most `n` read attempts; a line is
    emitted, a `null` closes the reader, completes the sink and breaks, an
    IOException propagates out of the loop without closing anything.
   */
  function Pull(c: Cursor, n: nat): (r: Reaction)
    requires Valid(c) && !c.closed
    ensures r == Respond(c, n)
    decreases n
  {
    if n == 0 then Reaction(c, [], Quiet)
    else
      match ReadLine(c)
      case Eof => Reaction(c.(closed := true, completed := true), [], Completed)
      case ReadFailure => Reaction(c, [], Errored)
      case Line(text) =>
        var rest := Pull(c.(pos := c.pos + 1), n - 1);
        assert c.src.lines[c.pos .. c.pos + Min(n, Remaining(c))]
            == [text] + c.src.lines[c.pos + 1 .. c.pos + 1 + Min(n - 1, Remaining(c) - 1)];
        Reaction(rest.cursor, [text] + rest.emitted, rest.signal)
  }

  /**
    The request callback as `onRequest` writes it: a counted loop that breaks
    on end of input. It computes the closed form, and so agrees with `Pull`.
   */
  method OnRequestLoop(c: Cursor, n: nat) returns (r: Reaction)
    requires Valid(c) && !c.closed
    ensures r == Respond(c, n)
  {
    var cur := c;
    var out: seq<string> := [];
    var i := 0;
    var signal := Quiet;
    while i < n
      invariant i <= n && i <= Remaining(c)
      invariant cur == c.(pos := c.pos + i)
      invariant out == c.src.lines[c.pos .. c.pos + i]
      invariant signal == Quiet
      decreases n - i
    {
      var read := ReadLine(cur);
      if read.Eof? {
        cur := cur.(closed := true, completed := true);
        signal := Completed;
        break;
      } else if read.ReadFailure? {
        signal := Errored;
        break;
      }
      out := out + [read.text];
      cur := cur.(pos := cur.pos + 1);
      i := i + 1;
    }
    r := Reaction(cur, out, signal);
  }

  /**
    One request, as the consumer sees it: at most `n` lines, exactly the next
    min(n, remaining) of the source in order; completion, with the reader
    closed, exactly when the demand outlasts the lines and the source ends in
    a `null`; a read error exactly when it ends in an IOException, with the
    reader left open.
   */
  lemma RequestContract(c: Cursor, n: nat)
    requires Valid(c) && !c.closed
    ensures Valid(Pull(c, n).cursor) && Pull(c, n).cursor.src == c.src
    ensures Pull(c, n).emitted == c.src.lines[c.pos .. c.pos + Min(n, Remaining(c))]
    ensures |Pull(c, n).emitted| <= n
    ensures Pull(c, n).cursor.pos == c.pos + |Pull(c, n).emitted|
    ensures Pull(c, n).signal == Completed <==> n > Remaining(c) && c.src.end == AtEof
    ensures Pull(c, n).signal == Errored <==> n > Remaining(c) && c.src.end == AtReadError
    ensures Pull(c, n).cursor.closed <==> Pull(c, n).signal == Completed
    ensures Pull(c, n).cursor.completed <==> Pull(c, n).signal == Completed
  {
  }

  /**
    A demand signal. Reactor stops delivering demand to the callback once the
    sink was cancelled, disposed or completed, all of which leave the reader
    closed; so a closed cursor ignores requests.
   */
  function OnRequest(c: Cursor, n: nat): (r: Reaction)
    requires Valid(c)
    ensures Valid(r.cursor) && r.cursor.src == c.src
    ensures c.closed ==> r == Reaction(c, [], Quiet)
    ensures !c.closed ==> r == Pull(c, n)
  {
    if c.closed then Reaction(c, [], Quiet) else Pull(c, n)
  }

  /** Cancel and dispose both close the reader; closing twice is harmless. */
  function Close(c: Cursor): (r: Reaction)
    requires Valid(c)
    ensures Valid(r.cursor) && r.cursor.closed
    ensures r.emitted == [] && r.signal == Quiet
    ensures r.cursor.pos == c.pos && r.cursor.completed == c.completed
  {
    Reaction(c.(closed := true), [], Quiet)
  }

  /** Closing an already closed reader changes nothing: cancel after end of input, or dispose after cancel, is harmless. */
  lemma CloseIdempotent(c: Cursor)
    requires Valid(c)
    ensures Close(Close(c).cursor) == Close(c)
  {
  }

  function Step(c: Cursor, e: Event): (r: Reaction)
    requires Valid(c)
    ensures Valid(r.cursor) && r.cursor.src == c.src
  {
    match e
    case Request(n) => OnRequest(c, n)
    case Cancel => Close(c)
    case Dispose => Close(c)
  }

  /** Feeds a sequence of events to the producer, collecting every emitted line. */
  function Run(c: Cursor, events: seq<Event>): (s: Session)
    requires Valid(c)
    ensures Valid(s.cursor) && s.cursor.src == c.src
    decreases |events|
  {
    if |events| == 0 then Session(c, [])
    else
      var r := Step(c, events[0]);
      var rest := Run(r.cursor, events[1..]);
      Session(rest.cursor, r.emitted + rest.emitted)
  }

  /** The sum of all demand in a sequence of events. */
  function TotalDemand(events: seq<Event>): nat {
    if |events| == 0 then 0
    else (if events[0].Request? then events[0].n else 0) + TotalDemand(events[1..])
  }

  predicate OnlyRequests(events: seq<Event>) {
    forall i :: 0 <= i < |events| ==> events[i].Request?
  }

  /**
    Whatever the events, the lines the sink receives are exactly the source's
    lines from the starting position to the final one, in order: no line is
    skipped and none is emitted twice.
   */
  lemma {:induction false} EmittedIsSourceSlice(c: Cursor, events: seq<Event>)
    requires Valid(c)
    ensures c.pos <= Run(c, events).cursor.pos
    ensures Run(c, events).emitted == c.src.lines[c.pos .. Run(c, events).cursor.pos]
    decreases |events|
  {
    if |events| > 0 {
      var r := Step(c, events[0]);
      assert r.cursor.pos == c.pos + |r.emitted|;
      assert r.emitted == c.src.lines[c.pos .. r.cursor.pos];
      EmittedIsSourceSlice(r.cursor, events[1..]);
      RunCons(c, events);
      SliceJoin(c.src.lines, c.pos, r.cursor.pos, Run(c, events).cursor.pos);
    }
  }

  /**
    Demand is cumulative: requests for n1, n2, ... emit the first
    min(n1 + n2 + ..., remaining) lines not yet read, whatever the split.
   */
  lemma {:induction false} DemandIsCumulative(c: Cursor, events: seq<Event>)
    requires Valid(c) && !c.closed
    requires OnlyRequests(events)
    ensures Run(c, events).emitted == c.src.lines[c.pos .. c.pos + Min(TotalDemand(events), Remaining(c))]
    decreases |events|
  {
    if |events| > 0 {
      var n, rest := events[0].n, events[1..];
      RunCons(c, events);
      OnlyRequestsTail(events);
      assert Step(c, events[0]) == Pull(c, n);
      var next := Pull(c, n).cursor;
      if next.closed {
        ClosedIgnoresRequests(next, rest);
      } else {
        DemandIsCumulative(next, rest);
      }
      var tail := Run(next, rest).emitted;
      CumulativeStep(c, n, TotalDemand(rest), tail);
      assert Run(c, events).emitted == Pull(c, n).emitted + tail;
      assert TotalDemand(events) == n + TotalDemand(rest);
    }
  }

  /** Demand `n` followed by demand `more` emits what demand `n + more` would. */
  lemma CumulativeStep(c: Cursor, n: nat, more: nat, tail: seq<string>)
    requires Valid(c) && !c.closed
    requires Pull(c, n).cursor.closed ==> tail == []
    requires !Pull(c, n).cursor.closed ==>
      tail == c.src.lines[Pull(c, n).cursor.pos .. Pull(c, n).cursor.pos + Min(more, Remaining(Pull(c, n).cursor))]
    ensures Pull(c, n).emitted + tail == c.src.lines[c.pos .. c.pos + Min(n + more, Remaining(c))]
  {
    var r := Pull(c, n);
    var a := c.pos + Min(n, Remaining(c));
    var b := c.pos + Min(n + more, Remaining(c));
    if r.cursor.closed {
      assert a == b;
    } else {
      assert b == a + Min(more, Remaining(r.cursor));
      SliceJoin(c.src.lines, c.pos, a, b);
    }
  }

  /** One step of a run: the first event's reaction, then the run of the rest. */
  lemma RunCons(c: Cursor, events: seq<Event>)
    requires Valid(c) && |events| > 0
    ensures Run(c, events).emitted == Step(c, events[0]).emitted + Run(Step(c, events[0]).cursor, events[1..]).emitted
    ensures Run(c, events).cursor == Run(Step(c, events[0]).cursor, events[1..]).cursor
  {
  }

  lemma OnlyRequestsTail(events: seq<Event>)
    requires OnlyRequests(events) && |events| > 0
    ensures events[0].Request? && OnlyRequests(events[1..])
  {
    assert forall i :: 0 <= i < |events| - 1 ==> events[1..][i] == events[i + 1];
  }

  lemma SliceJoin<T>(s: seq<T>, i: nat, j: nat, k: nat)
    requires i <= j <= k <= |s|
    ensures s[i .. k] == s[i .. j] + s[j .. k]
  {
  }

  /** Once closed, the producer stays closed and emits nothing, whatever follows. */
  lemma {:induction false} ClosedIgnoresRequests(c: Cursor, events: seq<Event>)
    requires Valid(c) && c.closed
    ensures Run(c, events).emitted == []
    ensures Run(c, events).cursor.closed
    ensures Run(c, events).cursor.completed == c.completed
    decreases |events|
  {
    if |events| > 0 {
      ClosedIgnoresRequests(Step(c, events[0]).cursor, events[1..]);
    }
  }

  /**
    Requesting exactly the remaining count emits every line but does not
    complete: only a further request reads the `null`, closes and completes.
   */
  lemma ExactDemandLeavesOpen(c: Cursor, k: nat)
    requires Valid(c) && !c.closed && c.src.end == AtEof
    requires k > 0
    ensures OnRequest(c, Remaining(c)).emitted == c.src.lines[c.pos..]
    ensures OnRequest(c, Remaining(c)).signal == Quiet
    ensures !OnRequest(c, Remaining(c)).cursor.closed
    ensures !OnRequest(c, Remaining(c)).cursor.completed
    ensures OnRequest(OnRequest(c, Remaining(c)).cursor, k).emitted == []
    ensures OnRequest(OnRequest(c, Remaining(c)).cursor, k).signal == Completed
    ensures OnRequest(OnRequest(c, Remaining(c)).cursor, k).cursor.closed
  {
  }

  /**
    Every non-error way a session ends leaves the reader closed: end of input
    inside a request, cancellation, disposal.
   */
  lemma NonErrorTerminationCloses(c: Cursor, e: Event)
    requires Valid(c)
    requires e.Cancel? || e.Dispose? || Step(c, e).signal == Completed
    ensures Step(c, e).cursor.closed
  {
  }

  /** A read failure is propagated without closing the reader. */
  lemma ReadErrorLeavesReaderOpen(c: Cursor, n: nat)
    requires Valid(c) && !c.closed
    requires OnRequest(c, n).signal == Errored
    ensures !OnRequest(c, n).cursor.closed
    ensures !OnRequest(c, n).cursor.completed
    ensures OnRequest(c, n).cursor.pos == |c.src.lines|
  {
  }
}
