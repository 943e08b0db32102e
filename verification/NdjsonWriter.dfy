/** The row-stream writer: one columns line, rows, keep-alive blanks from a timer, one trailer. */
module NdjsonWriter {
  import opened Common
  import Json

  datatype Line =
    | ColumnsLine(columns: seq<string>)
    | RowLine(values: seq<Json.Json>)
    | EndLine(rows: nat)
    | ErrorLine(message: string)
    | Blank

  /** A line handed to the sink, with the time noted as last activity. */
  datatype Sent = Sent(line: Line, at: int)

  datatype State = State(rowCount: nat, closed: bool, lastActivity: int, timer: bool, output: seq<Sent>)

  /** Everything that can happen to a writer; each event reads the clock once. */
  datatype Event =
    | WriteColumns(columns: seq<string>, at: int)
    | WriteRow(values: seq<Json.Json>, at: int)
    | WriteEnd(at: int)
    | WriteError(message: string, at: int)
    | StartKeepAlive(at: int)
    | StopKeepAlive(at: int)
    | Tick(at: int)

  // ---- The protocol as a state machine ----

  function Emit(s: State, line: Line, at: int): State {
    s.(output := s.output + [Sent(line, at)], lastActivity := at)
  }

  function Close(s: State): State {
    s.(timer := false, closed := true)
  }

  /** Writing to a closed writer throws. */
  predicate Throws(s: State, e: Event) {
    s.closed && (e.WriteColumns? || e.WriteRow? || e.WriteEnd? || e.WriteError?)
  }

  function Step(s: State, e: Event, keepAlive: int): State {
    if Throws(s, e) then s
    else
      match e
      case WriteColumns(columns, at) => Emit(s, ColumnsLine(columns), at)
      case WriteRow(values, at) => Emit(s, RowLine(values), at).(rowCount := s.rowCount + 1)
      case WriteEnd(at) => Close(Emit(s, EndLine(s.rowCount), at))
      case WriteError(message, at) => Close(Emit(s, ErrorLine(message), at))
      case StartKeepAlive(_) => s.(timer := true)
      case StopKeepAlive(_) => s.(timer := false)
      case Tick(at) => if s.timer && !s.closed && at - s.lastActivity >= keepAlive then Emit(s, Blank, at) else s
  }

  function Start(now: int): State {
    State(0, false, now, false, [])
  }

  function Run(s: State, events: seq<Event>, keepAlive: int): State
    decreases |events|
  {
    if events == [] then s else Run(Step(s, events[0], keepAlive), events[1..], keepAlive)
  }

  // ---- The class ----

  class Writer {
    const keepAliveIntervalMs: int
    var rowCount: nat
    var closed: bool
    var lastActivity: int
    var keepAliveTimer: bool
    ghost var output: seq<Sent>

    ghost function View(): State
      reads this
    {
      State(rowCount, closed, lastActivity, keepAliveTimer, output)
    }

    constructor (keepAliveIntervalMs: int, now: int)
      ensures View() == Start(now) && this.keepAliveIntervalMs == keepAliveIntervalMs
    {
      this.keepAliveIntervalMs := keepAliveIntervalMs;
      rowCount, closed, lastActivity, keepAliveTimer, output := 0, false, now, false, [];
    }

    /** `accepted` is what the sink answers: false asks the caller to pause. */
    method WriteColumns(columns: seq<string>, accepted: bool, now: int) returns (r: Result<bool, ()>)
      modifies this
      ensures View() == Step(old(View()), Event.WriteColumns(columns, now), keepAliveIntervalMs)
      ensures r == if old(closed) then Err(()) else Ok(accepted)
    {
      if closed { return Err(()); }
      EmitLine(ColumnsLine(columns), now);
      return Ok(accepted);
    }

    method WriteRow(values: seq<Json.Json>, accepted: bool, now: int) returns (r: Result<bool, ()>)
      modifies this
      ensures View() == Step(old(View()), Event.WriteRow(values, now), keepAliveIntervalMs)
      ensures r == if old(closed) then Err(()) else Ok(accepted)
    {
      if closed { return Err(()); }
      EmitLine(RowLine(values), now);
      rowCount := rowCount + 1;
      return Ok(accepted);
    }

    method WriteEnd(now: int) returns (r: Result<(), ()>)
      modifies this
      ensures View() == Step(old(View()), Event.WriteEnd(now), keepAliveIntervalMs)
      ensures r.Err? <==> old(closed)
    {
      if closed { return Err(()); }
      EmitLine(EndLine(rowCount), now);
      CloseWriter();
      return Ok(());
    }

    method WriteError(message: string, now: int) returns (r: Result<(), ()>)
      modifies this
      ensures View() == Step(old(View()), Event.WriteError(message, now), keepAliveIntervalMs)
      ensures r.Err? <==> old(closed)
    {
      if closed { return Err(()); }
      EmitLine(ErrorLine(message), now);
      CloseWriter();
      return Ok(());
    }

    method StartKeepAlive(now: int)
      modifies this
      ensures View() == Step(old(View()), Event.StartKeepAlive(now), keepAliveIntervalMs)
    {
      StopKeepAlive(now);
      keepAliveTimer := true;
    }

    method StopKeepAlive(now: int)
      modifies this
      ensures View() == Step(old(View()), Event.StopKeepAlive(now), keepAliveIntervalMs)
    {
      keepAliveTimer := false;
    }

    /** The timer's callback. */
    method Tick(now: int)
      requires keepAliveTimer
      modifies this
      ensures View() == Step(old(View()), Event.Tick(now), keepAliveIntervalMs)
    {
      if closed { return; }
      if now - lastActivity >= keepAliveIntervalMs {
        output := output + [Sent(Blank, now)];
        lastActivity := now;
      }
    }

    method EmitLine(line: Line, now: int)
      modifies this
      ensures View() == Emit(old(View()), line, now)
    {
      output := output + [Sent(line, now)];
      lastActivity := now;
    }

    method CloseWriter()
      modifies this
      ensures View() == Close(old(View()))
    {
      keepAliveTimer := false;
      closed := true;
    }
  }

  // ---- Every run keeps the protocol ----

  predicate IsTrailer(line: Line) {
    line.EndLine? || line.ErrorLine?
  }

  function RowLines(output: seq<Sent>): nat {
    if output == [] then 0
    else RowLines(output[..|output| - 1]) + if output[|output| - 1].line.RowLine? then 1 else 0
  }

  /** A trailer is the last thing sent, and an end trailer counts the rows before it. */
  ghost predicate WellFormedStream(output: seq<Sent>) {
    forall i :: 0 <= i < |output| ==>
      && (IsTrailer(output[i].line) ==> i == |output| - 1)
      && (output[i].line.EndLine? ==> output[i].line.rows == RowLines(output[..i]))
  }

  /** The silence before line i, since the line before it or the writer's creation. */
  function Gap(output: seq<Sent>, i: nat, created: int): int
    requires i < |output|
  {
    output[i].at - if i == 0 then created else output[i - 1].at
  }

  /** A blank follows the line before it, or the writer's creation, by at least the keep-alive interval. */
  ghost predicate BlanksOnlyWhenWaiting(output: seq<Sent>, created: int, keepAlive: int) {
    forall i :: 0 <= i < |output| && output[i].line.Blank? ==> Gap(output, i, created) >= keepAlive
  }

  ghost predicate Invariant(s: State, created: int, keepAlive: int) {
    && WellFormedStream(s.output)
    && BlanksOnlyWhenWaiting(s.output, created, keepAlive)
    && s.rowCount == RowLines(s.output)
    && s.lastActivity == (if s.output == [] then created else s.output[|s.output| - 1].at)
    && (s.closed <==> s.output != [] && IsTrailer(s.output[|s.output| - 1].line))
  }

  lemma EmitKeepsStream(s: State, line: Line, at: int, created: int, keepAlive: int)
    requires Invariant(s, created, keepAlive) && !s.closed
    requires line.EndLine? ==> line.rows == s.rowCount
    requires line.Blank? ==> at - s.lastActivity >= keepAlive
    ensures var out := Emit(s, line, at).output;
            && WellFormedStream(out) && BlanksOnlyWhenWaiting(out, created, keepAlive)
            && RowLines(out) == s.rowCount + if line.RowLine? then 1 else 0
  {
    var out := Emit(s, line, at).output;
    var n := |s.output|;
    assert out[..n] == s.output;
    forall i | 0 <= i < |out|
      ensures IsTrailer(out[i].line) ==> i == |out| - 1
      ensures out[i].line.EndLine? ==> out[i].line.rows == RowLines(out[..i])
    {
      if i < n { assert out[i] == s.output[i] && out[..i] == s.output[..i]; }
    }
    forall i | 0 <= i < |out| && out[i].line.Blank? ensures Gap(out, i, created) >= keepAlive {
      if i < n { assert out[i] == s.output[i] && Gap(out, i, created) == Gap(s.output, i, created); }
    }
  }

  lemma EmitKeepsInvariant(s: State, line: Line, at: int, s': State, created: int, keepAlive: int)
    requires Invariant(s, created, keepAlive) && !s.closed
    requires line.EndLine? ==> line.rows == s.rowCount
    requires line.Blank? ==> at - s.lastActivity >= keepAlive
    requires s'.output == s.output + [Sent(line, at)] && s'.lastActivity == at
    requires s'.rowCount == (s.rowCount + if line.RowLine? then 1 else 0) && s'.closed == IsTrailer(line)
    ensures Invariant(s', created, keepAlive)
  {
    EmitKeepsStream(s, line, at, created, keepAlive);
  }

  lemma StepKeepsInvariant(s: State, e: Event, created: int, keepAlive: int)
    requires Invariant(s, created, keepAlive)
    ensures Invariant(Step(s, e, keepAlive), created, keepAlive)
  {
    var s' := Step(s, e, keepAlive);
    if s'.output != s.output {
      var line :=
        match e
        case WriteColumns(columns, _) => ColumnsLine(columns)
        case WriteRow(values, _) => RowLine(values)
        case WriteEnd(_) => EndLine(s.rowCount)
        case WriteError(message, _) => ErrorLine(message)
        case _ => Blank;
      EmitKeepsInvariant(s, line, e.at, s', created, keepAlive);
    }
  }

  lemma {:induction false} RunKeepsInvariant(s: State, events: seq<Event>, created: int, keepAlive: int)
    requires Invariant(s, created, keepAlive)
    ensures Invariant(Run(s, events, keepAlive), created, keepAlive)
    decreases |events|
  {
    if events != [] {
      StepKeepsInvariant(s, events[0], created, keepAlive);
      RunKeepsInvariant(Step(s, events[0], keepAlive), events[1..], created, keepAlive);
    }
  }

  /** In every run of calls and ticks: at most one trailer, nothing at all after it, an end trailer that counts the row
      lines, and a blank only after a full interval of silence. */
  lemma EveryRunIsWellFormed(events: seq<Event>, created: int, keepAlive: int)
    ensures var s := Run(Start(created), events, keepAlive);
            && WellFormedStream(s.output)
            && BlanksOnlyWhenWaiting(s.output, created, keepAlive)
            && s.rowCount == RowLines(s.output)
            && (s.closed <==> exists i :: 0 <= i < |s.output| && IsTrailer(s.output[i].line))
  {
    RunKeepsInvariant(Start(created), events, created, keepAlive);
    var s := Run(Start(created), events, keepAlive);
    if s.closed { assert IsTrailer(s.output[|s.output| - 1].line); }
  }

  /** Once closed, no event sends anything any more. */
  lemma {:induction false} ClosedStaysSilent(s: State, events: seq<Event>, keepAlive: int)
    requires s.closed
    ensures Run(s, events, keepAlive).closed && Run(s, events, keepAlive).output == s.output
    decreases |events|
  {
    if events != [] { ClosedStaysSilent(Step(s, events[0], keepAlive), events[1..], keepAlive); }
  }

  // ---- What is sent ----

  /** The lines a list of calls asks for when so many rows have been written: one for each call, up to and including the
      first trailer. */
  function Asked(events: seq<Event>, rows: nat): seq<Line> {
    if events == [] then []
    else
      match events[0]
      case WriteColumns(columns, _) => [ColumnsLine(columns)] + Asked(events[1..], rows)
      case WriteRow(values, _) => [RowLine(values)] + Asked(events[1..], rows + 1)
      case WriteEnd(_) => [EndLine(rows)]
      case WriteError(message, _) => [ErrorLine(message)]
      case _ => Asked(events[1..], rows)
  }

  /** The lines sent, keep-alive blanks left out. */
  function LinesOf(output: seq<Sent>): seq<Line> {
    FlatMap(output, (sent: Sent) => if sent.line.Blank? then [] else [sent.line])
  }

  lemma LinesOfOneMore(output: seq<Sent>, line: Line, at: int)
    ensures LinesOf(output + [Sent(line, at)]) == LinesOf(output) + if line.Blank? then [] else [line]
  {
    var f := (sent: Sent) => if sent.line.Blank? then [] else [sent.line];
    FlatMapConcat(output, [Sent(line, at)], f);
    FlatMapOne(Sent(line, at), f);
  }

  lemma {:induction false} RunSendsWhatIsAsked(s: State, events: seq<Event>, keepAlive: int)
    requires !s.closed
    ensures LinesOf(Run(s, events, keepAlive).output) == LinesOf(s.output) + Asked(events, s.rowCount)
    decreases |events|
  {
    if events != [] {
      var e, next := events[0], Step(s, events[0], keepAlive);
      if next.output != s.output {
        LinesOfOneMore(s.output, next.output[|s.output|].line, e.at);
      }
      if next.closed {
        ClosedStaysSilent(next, events[1..], keepAlive);
      } else {
        RunSendsWhatIsAsked(next, events[1..], keepAlive);
      }
    }
  }

  /** Whatever is called and however long it takes, the lines of a run are those asked for: columns, row values and
      error message as given, in the order of the calls. */
  lemma EveryRunSendsWhatIsAsked(events: seq<Event>, created: int, keepAlive: int)
    ensures LinesOf(Run(Start(created), events, keepAlive).output) == Asked(events, 0)
  {
    RunSendsWhatIsAsked(Start(created), events, keepAlive);
    assert LinesOf([]) + Asked(events, 0) == Asked(events, 0);
  }

  // ---- Silence is bounded ----

  predicate Closes(e: Event) {
    e.WriteEnd? || e.WriteError?
  }

  /** Events while the timer runs: rows, columns and ticks, in clock order, each at most C after the latest tick (or the
      timer's start), and at last, if the stream ends, the trailer. */
  predicate Timely(events: seq<Event>, latestTick: int, now: int, C: int) {
    events != [] ==>
      var e := events[0];
      && (e.WriteColumns? || e.WriteRow? || e.Tick? || (Closes(e) && |events| == 1))
      && now <= e.at <= latestTick + C
      && Timely(events[1..], if e.Tick? then e.at else latestTick, e.at, C)
  }

  /** At every event the last activity is less than `bound` ago. */
  predicate QuietLessThan(s: State, events: seq<Event>, keepAlive: int, bound: int)
    decreases |events|
  {
    events != [] ==>
      && events[0].at - s.lastActivity < bound
      && QuietLessThan(Step(s, events[0], keepAlive), events[1..], keepAlive, bound)
  }

  /** With the timer running on an open writer that was active less than K before, silence never reaches K + C, up to
      and including the wait for the trailer; and it stays open until then. */
  lemma {:induction false} SilenceIsBounded(s: State, events: seq<Event>, latestTick: int, now: int, C: int, K: int)
    requires s.timer && !s.closed && K > 0
    requires latestTick <= now && latestTick - s.lastActivity < K
    requires Timely(events, latestTick, now, C)
    ensures QuietLessThan(s, events, K, K + C)
    ensures Run(s, events, K).closed <==> events != [] && Closes(events[|events| - 1])
    ensures !Run(s, events, K).closed ==> Run(s, events, K).timer
    decreases |events|
  {
    if events != [] {
      var e := events[0];
      if Closes(e) {
        assert events[1..] == [];
      } else {
        SilenceIsBounded(Step(s, e, K), events[1..], if e.Tick? then e.at else latestTick, e.at, C, K);
      }
    }
  }

  /** From index `from` on, each line follows the one before it, or the writer's creation, by less than `bound`. */
  ghost predicate GapsBelow(output: seq<Sent>, created: int, from: nat, bound: int) {
    forall i :: from <= i < |output| ==> Gap(output, i, created) < bound
  }

  /** So every line sent while the timer runs, the trailer included, follows the one before it by less than K + C. */
  lemma {:induction false} GapsAreBounded(s: State, events: seq<Event>, created: int, keepAlive: int, bound: int)
    requires Invariant(s, created, keepAlive) && QuietLessThan(s, events, keepAlive, bound)
    ensures s.output <= Run(s, events, keepAlive).output
    ensures GapsBelow(Run(s, events, keepAlive).output, created, |s.output|, bound)
    decreases |events|
  {
    if events != [] {
      var next := Step(s, events[0], keepAlive);
      StepKeepsInvariant(s, events[0], created, keepAlive);
      GapsAreBounded(next, events[1..], created, keepAlive, bound);
      StepGap(s, events[0], created, keepAlive, bound);
      GapsContinue(next.output, Run(s, events, keepAlive).output, created, |s.output|, bound);
    }
  }

  lemma StepGap(s: State, e: Event, created: int, keepAlive: int, bound: int)
    requires Invariant(s, created, keepAlive) && e.at - s.lastActivity < bound
    ensures s.output <= Step(s, e, keepAlive).output
    ensures GapsBelow(Step(s, e, keepAlive).output, created, |s.output|, bound)
  {
  }

  lemma GapsContinue(few: seq<Sent>, many: seq<Sent>, created: int, from: nat, bound: int)
    requires few <= many && from <= |few|
    requires GapsBelow(few, created, from, bound) && GapsBelow(many, created, |few|, bound)
    ensures GapsBelow(many, created, from, bound)
  {
    forall i | from <= i < |many| ensures Gap(many, i, created) < bound {
      if i < |few| { assert Gap(many, i, created) == Gap(few, i, created); }
    }
  }

  /** The keep-alive promise as a whole. */
  lemma KeepAlivePromise(before: seq<Event>, events: seq<Event>, created: int, started: int, C: int, K: int)
    requires K > 0
    requires var s := Run(Start(created), before + [Event.StartKeepAlive(started)], K);
             !s.closed && started - s.lastActivity < K
    requires Timely(events, started, started, C)
    ensures var s := Run(Start(created), before + [Event.StartKeepAlive(started)], K);
            && QuietLessThan(s, events, K, K + C)
            && GapsBelow(Run(s, events, K).output, created, |s.output|, K + C)
  {
    var s := Run(Start(created), before + [Event.StartKeepAlive(started)], K);
    RunKeepsInvariant(Start(created), before + [Event.StartKeepAlive(started)], created, K);
    RunLast(Start(created), before, Event.StartKeepAlive(started), K);
    SilenceIsBounded(s, events, started, started, C, K);
    GapsAreBounded(s, events, created, K, K + C);
  }

  lemma {:induction false} RunLast(s: State, events: seq<Event>, e: Event, keepAlive: int)
    ensures Run(s, events + [e], keepAlive) == Step(Run(s, events, keepAlive), e, keepAlive)
    decreases |events|
  {
    if events == [] {
      assert [] + [e] == [e] && [e][1..] == [];
    } else {
      assert (events + [e])[1..] == events[1..] + [e];
      RunLast(Step(s, events[0], keepAlive), events[1..], e, keepAlive);
    }
  }
}
