/** `_task_event_stream`: polling a growing event table with a (created_at, id) cursor. */
module EventStream {
  import opened Options

  datatype Status =
    | Created | Planning | Reviewing | AwaitingApproval | Executing | Queued | Running
    | WaitingApproval | Completed | Failed | RolledBack | StaleFailed

  predicate IsTerminal(s: Status) { s.Completed? || s.Failed? || s.RolledBack? }

  predicate IsPaused(s: Status) { s.AwaitingApproval? || s.WaitingApproval? }

  const HARD_TIMEOUT := 1800.0
  const HEARTBEAT_INTERVAL := 25.0

  datatype Event = Event(at: int, id: string, body: string)

  // ----- the order of events ----------------------------------------------------------------

  /** String order by code point. */
  predicate LexLess(s: string, t: string) {
    if t == "" then false
    else if s == "" then true
    else s[0] < t[0] || (s[0] == t[0] && LexLess(s[1..], t[1..]))
  }

  lemma {:induction false} LexIrreflexive(s: string)
    ensures !LexLess(s, s)
  {
    if s != "" {
      LexIrreflexive(s[1..]);
    }
  }

  lemma {:induction false} LexTransitive(s: string, t: string, u: string)
    requires LexLess(s, t) && LexLess(t, u)
    ensures LexLess(s, u)
  {
    if s != "" && s[0] == t[0] == u[0] {
      LexTransitive(s[1..], t[1..], u[1..]);
    }
  }

  predicate Before(a: Event, b: Event) {
    a.at < b.at || (a.at == b.at && LexLess(a.id, b.id))
  }

  lemma BeforeIrreflexive(a: Event)
    ensures !Before(a, a)
  {
    LexIrreflexive(a.id);
  }

  lemma BeforeTransitive(a: Event, b: Event, c: Event)
    requires Before(a, b) && Before(b, c)
    ensures Before(a, c)
  {
    if a.at == b.at == c.at {
      LexTransitive(a.id, b.id, c.id);
    }
  }

  /** The order in which the table is read: by time, then id, no key twice. */
  predicate Ascending(es: seq<Event>) {
    forall i, j | 0 <= i < j < |es| :: Before(es[i], es[j])
  }

  // ----- frames and observations ---------------------------------------------------------------

  datatype Frame =
    | NotFoundFrame
    | Snapshot(status: Status, events: seq<Event>, lastId: Option<string>)
    | StatusFrame(previous: Status, status: Status)
    | Log(event: Event)
    | PausedFrame(status: Status)
    | Heartbeat
    | DoneFinal(status: Status, stage: string)
    | DoneClosed(reason: string)

  /** A task as one poll sees it; `timeline` is its visible events in table order. */
  datatype Row = Row(status: Status, stage: string, timeline: seq<Event>)

  /** One turn of the loop: the clock at its head, what the poll found, and the clock after
      sending and at the heartbeat check. */
  datatype Obs = Obs(uptime: real, row: Option<Row>, sentAt: real, checkedAt: real)

  /** The loop's variables. The cursor is the last event sent. */
  datatype Stream = Stream(
    frames: seq<Frame>,
    cursor: Option<Event>,
    lastStatus: Status,
    lastHeartbeat: real,
    closed: bool)

  /** The query's lower bound on time together with the filter on its rows. */
  predicate PassesFilter(e: Event, cursor: Option<Event>) {
    match cursor
    case None => true
    case Some(c) =>
      && e.at >= c.at
      && e.id != c.id
      && (e.at > c.at || (e.at == c.at && LexLess(c.id, e.id)))
  }

  function NewEvents(timeline: seq<Event>, cursor: Option<Event>): seq<Event> {
    if timeline == [] then []
    else
      var n := |timeline| - 1;
      NewEvents(timeline[..n], cursor) + if PassesFilter(timeline[n], cursor) then [timeline[n]] else []
  }

  function Logs(es: seq<Event>): seq<Frame> {
    seq(|es|, i requires 0 <= i < |es| => Log(es[i]))
  }

  function Cursor(es: seq<Event>, otherwise: Option<Event>): Option<Event> {
    if es == [] then otherwise else Some(es[|es| - 1])
  }

  function Opened(row: Row, now: real): Stream {
    var last := Cursor(row.timeline, None);
    var lastId := if last.Some? then Some(last.value.id) else None;
    Stream([Snapshot(row.status, row.timeline, lastId)], last, row.status, now, false)
  }

  function Poll(s: Stream, o: Obs, row: Row): Stream {
    var told := if row.status != s.lastStatus then s.frames + [StatusFrame(s.lastStatus, row.status)] else s.frames;
    var unsent := NewEvents(row.timeline, s.cursor);
    var frames := if unsent != [] then told + Logs(unsent) else told;
    var cursor := if unsent != [] then Cursor(unsent, s.cursor) else s.cursor;
    var beat := if unsent != [] then o.sentAt else s.lastHeartbeat;
    if IsTerminal(row.status) then Stream(frames + [DoneFinal(row.status, row.stage)], cursor, row.status, beat, true)
    else if IsPaused(row.status) then Stream(frames + [PausedFrame(row.status)], cursor, row.status, beat, false)
    else if o.checkedAt - beat >= HEARTBEAT_INTERVAL then Stream(frames + [Heartbeat], cursor, row.status, o.checkedAt, false)
    else Stream(frames, cursor, row.status, beat, false)
  }

  function Tick(s: Stream, o: Obs): Stream {
    if s.closed then s
    else if o.uptime > HARD_TIMEOUT then s.(frames := s.frames + [DoneClosed("stream_timeout")], closed := true)
    else
      match o.row
      case None => s.(frames := s.frames + [DoneClosed("task_deleted")], closed := true)
      case Some(row) => Poll(s, o, row)
  }

  function Run(row: Row, now: real, obs: seq<Obs>): Stream {
    if obs == [] then Opened(row, now) else Tick(Run(row, now, obs[..|obs| - 1]), obs[|obs| - 1])
  }

  // ----- the generator -----------------------------------------------------------------------------

  lemma {:induction false} RunClosed(row: Row, now: real, obs: seq<Obs>, k: nat)
    requires k <= |obs| && Run(row, now, obs[..k]).closed
    ensures Run(row, now, obs) == Run(row, now, obs[..k])
    decreases |obs|
  {
    hide Tick;
    if k == |obs| {
      assert obs[..k] == obs;
    } else {
      assert obs[..|obs| - 1][..k] == obs[..k];
      RunClosed(row, now, obs[..|obs| - 1], k);
      TickClosed(Run(row, now, obs[..|obs| - 1]), obs[|obs| - 1]);
    }
  }

  lemma TickClosed(s: Stream, o: Obs)
    requires s.closed
    ensures Tick(s, o) == s
  {
  }

  lemma RunStep(row: Row, now: real, obs: seq<Obs>, k: nat)
    requires k < |obs|
    ensures Run(row, now, obs[..k + 1]) == Tick(Run(row, now, obs[..k]), obs[k])
  {
    hide Tick;
    assert obs[..k + 1][..k] == obs[..k];
  }

  /** The inner loop: one log frame per new event, the cursor moving with them. */
  method SendLogs(sent: seq<Frame>, unsent: seq<Event>, cursor: Option<Event>)
    returns (frames: seq<Frame>, lastSeen: Option<Event>)
    ensures frames == sent + Logs(unsent) && lastSeen == Cursor(unsent, cursor)
  {
    frames, lastSeen := sent, cursor;
    for i := 0 to |unsent|
      invariant frames == sent + Logs(unsent[..i])
      invariant lastSeen == Cursor(unsent[..i], cursor)
    {
      frames := frames + [Log(unsent[i])];
      lastSeen := Some(unsent[i]);
      assert Logs(unsent[..i + 1]) == Logs(unsent[..i]) + [Log(unsent[i])];
    }
    assert unsent[..|unsent|] == unsent;
  }

  /** The stream over the observations `obs`; it is left open when they end first, which is the
      client going away. */
  method TaskEventStream(task: Option<Row>, now: real, obs: seq<Obs>) returns (frames: seq<Frame>, closed: bool)
    ensures task.None? ==> frames == [NotFoundFrame] && closed
    ensures task.Some? ==> frames == Run(task.value, now, obs).frames && closed == Run(task.value, now, obs).closed
  {
    hide Run, NewEvents, Logs, Cursor;
    if task.None? {
      return [NotFoundFrame], true;
    }
    var lastSeen := Cursor(task.value.timeline, None);
    var lastStatus := task.value.status;
    var lastId := if lastSeen.Some? then Some(lastSeen.value.id) else None;
    frames, closed := [Snapshot(lastStatus, task.value.timeline, lastId)], false;
    var lastHeartbeat := now;
    assert obs[..0] == [];
    assert Run(task.value, now, []) == Opened(task.value, now) by { RunNothing(task.value, now); }
    var k := 0;
    while k < |obs|
      invariant 0 <= k <= |obs| && !closed
      invariant Run(task.value, now, obs[..k]) == Stream(frames, lastSeen, lastStatus, lastHeartbeat, false)
    {
      var o := obs[k];
      RunStep(task.value, now, obs, k);
      k := k + 1;
      if o.uptime > HARD_TIMEOUT {
        frames, closed := frames + [DoneClosed("stream_timeout")], true;
        break;
      }
      if o.row.None? {
        frames, closed := frames + [DoneClosed("task_deleted")], true;
        break;
      }
      var row := o.row.value;
      if row.status != lastStatus {
        frames := frames + [StatusFrame(lastStatus, row.status)];
        lastStatus := row.status;
      }
      var unsent := NewEvents(row.timeline, lastSeen);
      if unsent != [] {
        frames, lastSeen := SendLogs(frames, unsent, lastSeen);
        lastHeartbeat := o.sentAt;
      }
      if IsTerminal(row.status) {
        frames, closed := frames + [DoneFinal(row.status, row.stage)], true;
        break;
      }
      if IsPaused(row.status) {
        frames := frames + [PausedFrame(row.status)];
        continue;
      }
      if o.checkedAt - lastHeartbeat >= HEARTBEAT_INTERVAL {
        frames := frames + [Heartbeat];
        lastHeartbeat := o.checkedAt;
      }
    }
    if closed {
      RunClosed(task.value, now, obs, k);
    } else {
      assert obs[..k] == obs;
    }
  }

  lemma RunNothing(row: Row, now: real)
    ensures Run(row, now, []) == Opened(row, now)
  {
  }
}
