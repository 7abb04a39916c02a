/**
 * The duration tracer of src/trace.c. While a capture is running, each
 * traceDurationPush records a begin ('B') event in two queues: the queue of
 * open durations and the print queue. traceDurationPop takes the front of
 * the open queue and records an end ('E') copy of it in the print queue.
 * traceCaptureStop drains the print queue into a Chrome Trace Event Format
 * document, returned here as a string instead of being written to a file.
 *
 * Both queues are deques used only through pushBack and popFront, which
 * behave as a FIFO queue (Deque.FifoOrder); they are modelled by their
 * contents. Process and thread ids and timestamps are parameters.
 */
module Trace {
  import opened Wrappers

  /** trace_event_t: name, process id, thread id, timestamp in ms, and kind ('B' or 'E'). */
  datatype Event = Event(name: string, pid: int, tid: nat, ts: int, kind: char)

  /** The fields of a trace_t that the operations change. */
  datatype TraceState = TraceState(started: bool, path: string, open: seq<Event>, printed: seq<Event>)

  /** traceEventCopy: the same name and process, a new kind, and the copying thread's id and time. */
  function EventCopy(e: Event, kind: char, tid: nat, ts: int): (r: Event)
    ensures r.name == e.name && r.pid == e.pid && r.kind == kind
    ensures r.tid == tid && r.ts == ts
  {
    Event(e.name, e.pid, tid, ts, kind)
  }

  /** traceDurationPush on a started trace: a begin event appended to both queues. */
  function PushStep(s: TraceState, e: Event): (r: TraceState)
    ensures !s.started ==> r == s
    ensures s.started ==> r.open == s.open + [e] && r.printed == s.printed + [e]
    ensures r.started == s.started && r.path == s.path
  {
    if s.started then s.(open := s.open + [e], printed := s.printed + [e]) else s
  }

  datatype Popped = Popped(state: TraceState, item: Option<Event>)

  /**
   * traceDurationPop: on a started trace, the front of the open queue is
   * removed and returned, and its end copy is appended to the print queue.
   * (On an empty open queue the pop would block forever.)
   */
  function PopStep(s: TraceState, tid: nat, ts: int): (r: Popped)
    requires s.started ==> s.open != []
    ensures !s.started ==> r == Popped(s, None)
    ensures s.started ==> r.item == Some(s.open[0]) && [s.open[0]] + r.state.open == s.open
    ensures s.started ==> r.state.printed == s.printed + [EventCopy(s.open[0], 'E', tid, ts)]
    ensures r.state.started == s.started && r.state.path == s.path
  {
    if !s.started then Popped(s, None)
    else
      var item := s.open[0];
      Popped(s.(open := s.open[1..], printed := s.printed + [EventCopy(item, 'E', tid, ts)]), Some(item))
  }

  /**
   * A pop right after a push returns the event just pushed only when no
   * other duration was open: an enclosing duration is closed first.
   */
  lemma PopAfterPushClosesOldest(s: TraceState, e: Event, tid: nat, ts: int)
    requires s.started
    ensures PopStep(PushStep(s, e), tid, ts).item == Some(e) <==> s.open == [] || s.open[0] == e
  {
  }

  /** The input that shows it: durations "outer" then "inner" are opened, and the pop closes "outer". */
  lemma NestedPopClosesOuter(tid: nat, ts: int)
    ensures PopStep(PushStep(PushStep(TraceState(true, "t.json", [], []),
                                      Event("outer", 1, 1, 0, 'B')), Event("inner", 1, 1, 1, 'B')), tid, ts).item
            == Some(Event("outer", 1, 1, 0, 'B'))
  {
  }

  /** The evidently intended pop for nested durations: the most recently opened one is closed. */
  function PopStepNested(s: TraceState, tid: nat, ts: int): (r: Popped)
    requires s.started ==> s.open != []
    ensures !s.started ==> r == Popped(s, None)
    ensures s.started ==> r.item == Some(s.open[|s.open| - 1]) && r.state.open + [s.open[|s.open| - 1]] == s.open
    ensures s.started ==> r.state.printed == s.printed + [EventCopy(s.open[|s.open| - 1], 'E', tid, ts)]
  {
    if !s.started then Popped(s, None)
    else
      var item := s.open[|s.open| - 1];
      Popped(s.(open := s.open[..|s.open| - 1], printed := s.printed + [EventCopy(item, 'E', tid, ts)]), Some(item))
  }

  /** With the nested pop, every pop closes the duration pushed last and reopens the state before it. */
  lemma PopNestedUndoesPush(s: TraceState, e: Event, tid: nat, ts: int)
    requires s.started
    ensures PopStepNested(PushStep(s, e), tid, ts).item == Some(e)
    ensures PopStepNested(PushStep(s, e), tid, ts).state.open == s.open
    ensures PopStepNested(PushStep(s, e), tid, ts).state.printed == s.printed + [e, EventCopy(e, 'E', tid, ts)]
  {
  }

  // ----- The document -----

  /** The two opening lines of the document. */
  const Header: string := "{\n\t\"displayTimeUnit\": \"ns\", \"traceEvents\": [\n"
  /** The two closing lines of the document. */
  const Footer: string := "\t]\n}"
  /** snprintf's buffer of 2048 bytes holds at most 2047 characters. */
  const LineLimit: nat := 2047

  function DigitChar(d: nat): (c: char)
    requires d < 10
    ensures '0' <= c <= '9'
  {
    ('0' as int + d) as char
  }

  /** A string made of decimal digits only. */
  predicate AllDigits(s: string) {
    forall i :: 0 <= i < |s| ==> '0' <= s[i] <= '9'
  }

  /** The decimal digits of n, most significant first, with no leading zero. */
  function Digits(n: nat): (s: string)
    ensures |s| >= 1 && (s[0] == '0' ==> n == 0)
    ensures AllDigits(s)
    decreases n
  {
    if n < 10 then [DigitChar(n)] else Digits(n / 10) + [DigitChar(n % 10)]
  }

  function ParseDigits(s: string): nat
    requires AllDigits(s)
    decreases |s|
  {
    if s == [] then 0 else ParseDigits(s[..|s| - 1]) * 10 + (s[|s| - 1] as int - '0' as int)
  }

  /** Reading the digits back gives the number. */
  lemma {:induction false} ParseDigitsInverse(n: nat)
    ensures ParseDigits(Digits(n)) == n
    decreases n
  {
    if n >= 10 {
      var s := Digits(n);
      assert s[..|s| - 1] == Digits(n / 10);
      ParseDigitsInverse(n / 10);
    }
  }

  /** printf's %d (and %lu for a non-negative value). */
  function Decimal(n: int): (s: string)
    ensures |s| >= 1 && (n < 0 <==> s[0] == '-')
  {
    if n < 0 then "-" + Digits(-n) else Digits(n)
  }

  function ParseDecimal(s: string): int
    requires s != [] && AllDigits(if s[0] == '-' then s[1..] else s)
  {
    if s[0] == '-' then 0 - ParseDigits(s[1..]) as int else ParseDigits(s) as int
  }

  /** Every number printed can be read back. */
  lemma DecimalRoundTrip(n: int)
    ensures ParseDecimal(Decimal(n)) == n
  {
    if n < 0 {
      var d := Digits(-n);
      assert Decimal(n) == "-" + d && ("-" + d)[1..] == d;
      ParseDigitsInverse(-n);
    } else {
      var d := Digits(n);
      assert d[0] != '-';
      ParseDigitsInverse(n);
    }
  }

  /** One event as a JSON object, indented by two tabs. */
  function Object(e: Event): string {
    "\t\t{\"name\":\"" + e.name + "\",\"ph\":\"" + [e.kind] + "\",\"pid\":" + Decimal(e.pid)
    + ",\"tid\":\"" + Decimal(e.tid) + "\",\"ts\":\"" + Decimal(e.ts) + "\"}"
  }

  /** What snprintf keeps of a formatted line. */
  function Clip(s: string): (r: string)
    ensures |r| <= LineLimit
    ensures |s| <= LineLimit ==> r == s
    ensures r == s[..|r|]
  {
    if |s| <= LineLimit then s else s[..LineLimit]
  }

  /** The line written for one event: with a trailing comma unless it is the last. */
  function EventLine(e: Event, more: bool): string {
    Clip(Object(e) + (if more then ",\n" else "\n"))
  }

  /** The lines written for the drained print queue, in queue order. */
  function Lines(es: seq<Event>): string
    requires es != []
    decreases |es|
  {
    if |es| == 1 then EventLine(es[0], false) else EventLine(es[0], true) + Lines(es[1..])
  }

  /** Lines of a queue, one event at a time from the front. */
  lemma LinesCons(e: Event, rest: seq<Event>)
    ensures rest == [] ==> Lines([e] + rest) == EventLine(e, false)
    ensures rest != [] ==> Lines([e] + rest) == EventLine(e, true) + Lines(rest)
  {
    assert ([e] + rest)[0] == e && ([e] + rest)[1..] == rest;
  }

  /** Writing the line of a queue's first event leaves the lines of the rest to write. */
  lemma DrainStep(text: string, e: Event, rest: seq<Event>)
    requires rest != []
    ensures (text + EventLine(e, true)) + Lines(rest) == text + Lines([e] + rest)
  {
    LinesCons(e, rest);
  }

  /** Writing the line of the last event completes the lines. */
  lemma DrainLast(text: string, e: Event)
    ensures text + EventLine(e, false) == text + Lines([e])
  {
    LinesCons(e, []);
  }

  /** The document traceCaptureStop writes. */
  function Document(es: seq<Event>): (d: string)
    requires es != []
    ensures |d| >= |Header| + |Footer|
    ensures d[..|Header|] == Header && d[|d| - |Footer|..] == Footer
  {
    Header + Lines(es) + Footer
  }

  /** An event whose line is not cut short by the buffer. */
  predicate Fits(e: Event) {
    |Object(e)| + 2 <= LineLimit
  }

  /** Items joined by a separator: the reference for a JSON array body. */
  function Join(items: seq<string>, sep: string): string
    requires items != []
    decreases |items|
  {
    if |items| == 1 then items[0] else items[0] + sep + Join(items[1..], sep)
  }

  function Objects(es: seq<Event>): (r: seq<string>)
    ensures |r| == |es| && forall i :: 0 <= i < |es| ==> r[i] == Object(es[i])
  {
    seq(|es|, i requires 0 <= i < |es| => Object(es[i]))
  }

  /** A line that fits is the object and its ending, uncut. */
  lemma EventLineUnclipped(e: Event, more: bool)
    requires Fits(e)
    ensures EventLine(e, more) == Object(e) + (if more then ",\n" else "\n")
  {
  }

  /**
   * When no line is cut short, the event lines are the event objects
   * separated by ",\n" and ended by a newline: a well-formed array body.
   */
  lemma {:induction false} LinesAreJoinedObjects(es: seq<Event>)
    requires es != [] && forall i :: 0 <= i < |es| ==> Fits(es[i])
    ensures Lines(es) == Join(Objects(es), ",\n") + "\n"
    decreases |es|
  {
    var os := Objects(es);
    if |es| == 1 {
      EventLineUnclipped(es[0], false);
    } else {
      LinesAreJoinedObjects(es[1..]);
      EventLineUnclipped(es[0], true);
      assert os[1..] == Objects(es[1..]);
      calc {
        Lines(es);
        EventLine(es[0], true) + Lines(es[1..]);
        (os[0] + ",\n") + (Join(os[1..], ",\n") + "\n");
        (os[0] + ",\n" + Join(os[1..], ",\n")) + "\n";
        Join(os, ",\n") + "\n";
      }
    }
  }

  /** Every line but the last ends in "},\n", and the last ends in "}\n". */
  lemma LineEndings(e: Event)
    requires Fits(e)
    ensures EventLine(e, true)[|EventLine(e, true)| - 3..] == "},\n"
    ensures EventLine(e, false)[|EventLine(e, false)| - 2..] == "}\n"
  {
  }

  /** traceCaptureStop, given a non-empty print queue: stopped, the queue drained into the document. */
  function StopStep(s: TraceState): (r: (TraceState, string))
    requires s.printed != []
    ensures !r.0.started && r.0.printed == [] && r.0.open == s.open && r.0.path == s.path
    ensures r.1 == Document(s.printed)
  {
    (s.(started := false, printed := []), Document(s.printed))
  }

  class Trace {
    var started: bool
    var path: string
    var open: seq<Event>      // trace_event_queue
    var printed: seq<Event>   // trace_event_print
    const capacity: nat       // event_capacity; the print queue holds twice as many

    ghost function State(): TraceState
      reads this
    {
      TraceState(started, path, open, printed)
    }

    ghost predicate Valid()
      reads this
    {
      |open| <= capacity && |printed| <= 2 * capacity
    }

    /** traceCreate: not started, both queues empty. */
    constructor Create(capacity: nat)
      requires capacity > 0
      ensures Valid() && this.capacity == capacity
      ensures !started && open == [] && printed == []
    {
      this.capacity := capacity;
      started := false;
      path := "";
      open := [];
      printed := [];
    }

    /** traceCaptureStart: started, writing to `path`; the queues are kept. */
    method CaptureStart(path: string)
      modifies this
      ensures State() == old(State()).(started := true, path := path)
    {
      started := true;
      this.path := path;
    }

    /**
     * traceCaptureStop. `created` says whether the output file could be
     * opened; if not, nothing changes and no document is produced. Once the
     * file is open, popping the first event of an empty print queue would
     * block forever, so then the queue must hold an event.
     */
    method CaptureStop(created: bool) returns (document: Option<string>)
      requires created ==> printed != []
      modifies this
      ensures !created ==> document == None && State() == old(State())
      ensures created ==> document == Some(StopStep(old(State())).1) && State() == StopStep(old(State())).0
    {
      if !created {
        return None;
      }
      ghost var all := printed;
      var text := Header;
      started := false;
      var e := printed[0];
      printed := printed[1..];
      assert [e] + printed == all;
      while true
        invariant text + Lines([e] + printed) == Header + Lines(all)
        invariant !started && open == old(open) && path == old(path)
        decreases |printed|
      {
        if |printed| == 0 {
          DrainLast(text, e);
          text := text + EventLine(e, false);
          break;
        }
        DrainStep(text, e, printed);
        text := text + EventLine(e, true);
        ghost var rest := printed;
        e := printed[0];
        printed := printed[1..];
        assert [e] + printed == rest;
      }
      assert text == Header + Lines(all) && printed == [];
      document := Some(text + Footer);
    }
  }

  /** traceDurationPush: nothing happens on a null or stopped trace. */
  method DurationPush(trace: Trace?, name: string, pid: int, tid: nat, ts: int)
    requires trace != null && trace.started ==>
               trace.Valid() && |trace.open| < trace.capacity && |trace.printed| < 2 * trace.capacity
    modifies trace
    ensures trace != null ==> trace.State() == PushStep(old(trace.State()), Event(name, pid, tid, ts, 'B'))
    ensures trace != null && old(trace.Valid()) ==> trace.Valid()
  {
    if trace == null || !trace.started {
      return;
    }
    var e := Event(name, pid, tid, ts, 'B');
    trace.open := trace.open + [e];
    trace.printed := trace.printed + [e];
  }

  /** traceDurationPop: null on a null or stopped trace. */
  method DurationPop(trace: Trace?, tid: nat, ts: int) returns (item: Option<Event>)
    requires trace != null && trace.started ==>
               trace.Valid() && trace.open != [] && |trace.printed| < 2 * trace.capacity
    modifies trace
    ensures trace == null ==> item == None
    ensures trace != null ==> Popped(trace.State(), item) == PopStep(old(trace.State()), tid, ts)
    ensures trace != null && old(trace.Valid()) ==> trace.Valid()
  {
    if trace == null || !trace.started {
      return None;
    }
    var e := trace.open[0];
    trace.open := trace.open[1..];
    trace.printed := trace.printed + [EventCopy(e, 'E', tid, ts)];
    item := Some(e);
  }
}
