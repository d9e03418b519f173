/** What a client of the event stream can rely on. */
module EventStreamLaws {
  import opened Options
  import opened EventStream

  /** The events carried by a frame. */
  function Carried(f: Frame): seq<Event> {
    match f
    case Snapshot(_, events, _) => events
    case Log(e) => [e]
    case _ => []
  }

  /** Every event sent so far, in sending order. */
  function Sent(frames: seq<Frame>): seq<Event> {
    if frames == [] then [] else Sent(frames[..|frames| - 1]) + Carried(frames[|frames| - 1])
  }

  lemma SentLast(frames: seq<Frame>, f: Frame)
    ensures Sent(frames + [f]) == Sent(frames) + Carried(f)
  {
    assert (frames + [f])[..|frames|] == frames;
  }

  lemma LogsLast(es: seq<Event>)
    requires es != []
    ensures Logs(es) == Logs(es[..|es| - 1]) + [Log(es[|es| - 1])]
  {
  }

  lemma {:induction false} SentLogs(frames: seq<Frame>, es: seq<Event>)
    ensures Sent(frames + Logs(es)) == Sent(frames) + es
    decreases es
  {
    hide Sent, Logs;
    if es == [] {
      assert Logs(es) == [] by { NoLogs(); }
      assert frames + [] == frames;
    } else {
      var n := |es| - 1;
      SentLogs(frames, es[..n]);
      LogsLast(es);
      assert frames + Logs(es) == (frames + Logs(es[..n])) + [Log(es[n])];
      SentLast(frames + Logs(es[..n]), Log(es[n]));
      assert es == es[..n] + [es[n]];
    }
  }

  lemma NoLogs()
    ensures Logs([]) == []
  {
  }

  /** What a poll reads: ascending keys, and an id belongs to one event. */
  predicate IsTable(es: seq<Event>) {
    Ascending(es) && forall i, j | 0 <= i < j < |es| :: es[i].id != es[j].id
  }

  predicate Polled(o: Obs) {
    o.uptime <= HARD_TIMEOUT && o.row.Some?
  }

  predicate ReadsTables(row: Row, obs: seq<Obs>) {
    IsTable(row.timeline) && forall k | 0 <= k < |obs| :: obs[k].row.Some? ==> IsTable(obs[k].row.value.timeline)
  }

  // ----- no event twice, none out of order -------------------------------------------------------

  ghost predicate CursorOk(s: Stream) {
    Ascending(Sent(s.frames)) && s.cursor == Cursor(Sent(s.frames), None)
  }

  lemma PassesIsAfter(e: Event, c: Event)
    ensures PassesFilter(e, Some(c)) ==> Before(c, e)
    ensures Before(c, e) && c.id != e.id ==> PassesFilter(e, Some(c))
  {
    hide LexLess;
  }

  lemma {:induction false} NewEventsAre(timeline: seq<Event>, cursor: Option<Event>)
    ensures forall e :: e in NewEvents(timeline, cursor) <==> e in timeline && PassesFilter(e, cursor)
    ensures Ascending(timeline) ==> Ascending(NewEvents(timeline, cursor))
    decreases timeline
  {
    hide PassesFilter, Before;
    if timeline != [] {
      var n := |timeline| - 1;
      var init := NewEvents(timeline[..n], cursor);
      NewEventsAre(timeline[..n], cursor);
      assert timeline == timeline[..n] + [timeline[n]];
      if Ascending(timeline) {
        forall i | 0 <= i < |init| ensures Before(init[i], timeline[n]) {
          assert init[i] in timeline[..n];
        }
      }
    }
  }

  lemma PollSends(s: Stream, o: Obs, row: Row)
    ensures Sent(Poll(s, o, row).frames) == Sent(s.frames) + NewEvents(row.timeline, s.cursor)
    ensures Poll(s, o, row).cursor == Cursor(NewEvents(row.timeline, s.cursor), s.cursor)
  {
    hide Sent, NewEvents, Logs, Cursor;
    var unsent := NewEvents(row.timeline, s.cursor);
    var told := if row.status != s.lastStatus then s.frames + [StatusFrame(s.lastStatus, row.status)] else s.frames;
    var frames := if unsent != [] then told + Logs(unsent) else told;
    SentLast(s.frames, StatusFrame(s.lastStatus, row.status));
    SentLogs(told, unsent);
    SentLast(frames, DoneFinal(row.status, row.stage));
    SentLast(frames, PausedFrame(row.status));
    SentLast(frames, Heartbeat);
    CursorOfNothing(s.cursor);
  }

  lemma CursorOfNothing(cursor: Option<Event>)
    ensures Cursor([], cursor) == cursor
  {
  }

  lemma AscendingConcat(xs: seq<Event>, ys: seq<Event>)
    requires Ascending(xs) && Ascending(ys)
    requires xs != [] ==> forall j | 0 <= j < |ys| :: Before(xs[|xs| - 1], ys[j])
    ensures Ascending(xs + ys)
  {
    hide Before;
    var all := xs + ys;
    forall i, j | 0 <= i < j < |all| ensures Before(all[i], all[j]) {
      if i < |xs| - 1 && |xs| <= j {
        BeforeTransitive(xs[i], xs[|xs| - 1], ys[j - |xs|]);
      }
    }
  }

  lemma TickKeepsCursor(s: Stream, o: Obs)
    requires CursorOk(s) && (o.row.Some? ==> Ascending(o.row.value.timeline))
    ensures CursorOk(Tick(s, o))
  {
    hide Sent, NewEvents, Before, Poll, PassesFilter;
    SentLast(s.frames, DoneClosed("stream_timeout"));
    SentLast(s.frames, DoneClosed("task_deleted"));
    if o.row.Some? {
      var row := o.row.value;
      PollSends(s, o, row);
      NewEventsAre(row.timeline, s.cursor);
      var old_, new_ := Sent(s.frames), NewEvents(row.timeline, s.cursor);
      if old_ != [] {
        forall j | 0 <= j < |new_| ensures Before(old_[|old_| - 1], new_[j]) {
          assert new_[j] in new_;
          PassesIsAfter(new_[j], old_[|old_| - 1]);
        }
      }
      AscendingConcat(old_, new_);
    }
  }

  /** The events of the snapshot and log frames have strictly increasing keys, so none is sent
      twice, whatever the table does between polls. */
  lemma {:induction false} SentAscending(row: Row, now: real, obs: seq<Obs>)
    requires ReadsTables(row, obs)
    ensures CursorOk(Run(row, now, obs))
    decreases obs
  {
    hide Tick, Before, Ascending;
    if obs == [] {
      assert Sent(Opened(row, now).frames) == row.timeline by { SentLast([], Opened(row, now).frames[0]); }
    } else {
      SentAscending(row, now, obs[..|obs| - 1]);
      TickKeepsCursor(Run(row, now, obs[..|obs| - 1]), obs[|obs| - 1]);
    }
  }

  // ----- completeness ---------------------------------------------------------------------------------

  /** After a poll everything visible has been sent if and only if every event not sent before
      lies after the cursor. An event that becomes visible late is lost. */
  lemma PollCompletes(s: Stream, o: Obs, row: Row)
    requires CursorOk(s) && IsTable(row.timeline)
    requires forall e | e in Sent(s.frames) :: e in row.timeline
    ensures (forall e :: e in Sent(Poll(s, o, row).frames) <==> e in row.timeline)
       <==> (forall e | e in row.timeline :: e in Sent(s.frames) || s.cursor.None? || Before(s.cursor.value, e))
  {
    hide Sent, NewEvents, Before, Poll, PassesFilter, Ascending;
    PollSends(s, o, row);
    NewEventsAre(row.timeline, s.cursor);
    var old_, new_ := Sent(s.frames), NewEvents(row.timeline, s.cursor);
    forall e | e in row.timeline && e !in old_
      ensures e in new_ <==> s.cursor.None? || Before(s.cursor.value, e)
    {
      if s.cursor.Some? {
        PassesIsAfter(e, s.cursor.value);
        assert s.cursor.value in old_;
        TableIdsDiffer(row.timeline, e, s.cursor.value);
      } else {
        PassesAll(e);
      }
    }
  }

  lemma TickExtends(s: Stream, o: Obs)
    ensures Sent(s.frames) <= Sent(Tick(s, o).frames)
  {
    hide Sent, NewEvents, Poll;
    if s.closed {
      TickClosed(s, o);
    } else {
      TickSends(s, o);
    }
  }

  lemma {:induction false} SentGrows(row: Row, now: real, obs: seq<Obs>, k: nat)
    requires k <= |obs|
    ensures Sent(Run(row, now, obs[..k]).frames) <= Sent(Run(row, now, obs).frames)
    decreases |obs|
  {
    hide Sent, Tick;
    if k == |obs| {
      assert obs[..k] == obs;
    } else {
      var n := |obs| - 1;
      assert obs[..n][..k] == obs[..k];
      SentGrows(row, now, obs[..n], k);
      TickExtends(Run(row, now, obs[..n]), obs[n]);
    }
  }

  /** An event that the client has not been sent and that is not after the cursor is never sent,
      whatever the table does from then on. */
  lemma LateEventIsLost(row: Row, now: real, obs: seq<Obs>, k: nat, e: Event)
    requires ReadsTables(row, obs) && k <= |obs|
    requires var s := Run(row, now, obs[..k]);
               s.cursor.Some? && !Before(s.cursor.value, e) && e !in Sent(s.frames)
    ensures e !in Sent(Run(row, now, obs).frames)
  {
    hide Sent, Run, Before, IsTable;
    var early, all := Sent(Run(row, now, obs[..k]).frames), Sent(Run(row, now, obs).frames);
    SentAscending(row, now, obs[..k]);
    SentAscending(row, now, obs);
    SentGrows(row, now, obs, k);
    var last := |early| - 1;
    assert all[last] == early[last];
    forall i | 0 <= i < |all| ensures all[i] != e {
      assert if i <= last then all[i] == early[i] else Before(all[last], all[i]);
    }
  }

  /** Such an event exists: a poll that finds an older event beside the one already sent. */
  lemma LateEventExists() returns (row: Row, obs: seq<Obs>, e: Event)
    ensures ReadsTables(row, obs) && |obs| == 1 && Polled(obs[0])
    ensures row.timeline == [Event(2, "b", "")] && obs[0].row.value.timeline == [e, Event(2, "b", "")]
    ensures forall now :: e !in Sent(Run(row, now, obs).frames)
  {
    hide Sent, Run;
    e := Event(1, "a", "");
    var e2 := Event(2, "b", "");
    row := Row(Running, "", [e2]);
    obs := [Obs(0.0, Some(Row(Running, "", [e, e2])), 0.0, 0.0)];
    assert !Before(e2, e);
    forall now: real ensures e !in Sent(Run(row, now, obs).frames) {
      assert obs[..0] == [];
      RunNothing(row, now);
      SentSnapshot(Opened(row, now).frames[0]);
      LateEventIsLost(row, now, obs, 0, e);
    }
  }

  lemma PassesAll(e: Event)
    ensures PassesFilter(e, None)
  {
  }

  lemma TableIdsDiffer(es: seq<Event>, d: Event, e: Event)
    requires IsTable(es) && d in es && e in es && d != e
    ensures d.id != e.id
  {
    hide Ascending;
  }

  function LastTimeline(row: Row, obs: seq<Obs>): seq<Event> {
    if obs == [] then row.timeline
    else if Polled(obs[|obs| - 1]) then obs[|obs| - 1].row.value.timeline
    else LastTimeline(row, obs[..|obs| - 1])
  }

  /** Each poll sees the events of the one before and, after them, the new ones. */
  predicate Growing(row: Row, obs: seq<Obs>) {
    forall k | 0 <= k < |obs| :: Polled(obs[k]) ==> LastTimeline(row, obs[..k]) <= obs[k].row.value.timeline
  }

  lemma {:induction false} NewEventsOfExtension(old_: seq<Event>, timeline: seq<Event>)
    requires IsTable(timeline) && old_ <= timeline
    ensures NewEvents(timeline, Cursor(old_, None)) == timeline[|old_|..]
    decreases timeline
  {
    hide Before, PassesFilter;
    if timeline != [] {
      var n := |timeline| - 1;
      var e := timeline[n];
      if old_ == timeline {
        NothingNew(timeline);
      } else {
        NewEventsOfExtension(old_, timeline[..n]);
        assert PassesFilter(e, Cursor(old_, None)) by {
          if old_ == [] {
            PassesAll(e);
          } else {
            PassesIsAfter(e, old_[|old_| - 1]);
          }
        }
        assert timeline[|old_|..] == timeline[..n][|old_|..] + [e];
      }
    }
  }

  lemma NothingNew(es: seq<Event>)
    requires Ascending(es) && es != []
    ensures NewEvents(es, Cursor(es, None)) == []
  {
    hide Before, PassesFilter, NewEvents;
    var c := es[|es| - 1];
    NewEventsAre(es, Some(c));
    var new_ := NewEvents(es, Some(c));
    assert forall i | 0 <= i < |new_| :: new_[i] in new_;
    assert forall e | e in es :: !PassesFilter(e, Some(c)) by {
      forall e | e in es ensures !PassesFilter(e, Some(c)) {
        PassesIsAfter(e, c);
        var i :| 0 <= i < |es| && es[i] == e;
        NotBeforeEarlier(es, i);
      }
    }
  }

  lemma NotBeforeEarlier(es: seq<Event>, i: nat)
    requires Ascending(es) && i < |es|
    ensures !Before(es[|es| - 1], es[i])
  {
    hide Before;
    BeforeIrreflexive(es[i]);
    if Before(es[|es| - 1], es[i]) && i < |es| - 1 {
      BeforeTransitive(es[i], es[|es| - 1], es[i]);
    }
  }

  /** If new events only ever appear after the old ones, each poll leaves the client with exactly
      the visible timeline. */
  lemma {:induction false} SentIsTimeline(row: Row, now: real, obs: seq<Obs>)
    requires ReadsTables(row, obs) && Growing(row, obs)
    requires obs != [] ==> !Run(row, now, obs[..|obs| - 1]).closed
    ensures Sent(Run(row, now, obs).frames) == LastTimeline(row, obs)
    decreases obs
  {
    hide Tick, IsTable, Sent;
    if obs == [] {
      assert Sent(Opened(row, now).frames) == row.timeline by { SentSnapshot(Opened(row, now).frames[0]); }
    } else {
      var n := |obs| - 1;
      var init := obs[..n];
      forall k | 0 <= k < n ensures init[..k] == obs[..k] {}
      if init != [] {
        OpenBefore(row, now, init);
      }
      SentIsTimeline(row, now, init);
      SentAscending(row, now, init);
      TickSends(Run(row, now, init), obs[n]);
      if Polled(obs[n]) {
        NewEventsOfExtension(LastTimeline(row, init), obs[n].row.value.timeline);
      }
    }
  }

  lemma SentSnapshot(f: Frame)
    ensures Sent([f]) == Carried(f)
  {
    SentLast([], f);
    assert [] + [f] == [f];
  }

  lemma OpenBefore(row: Row, now: real, obs: seq<Obs>)
    requires obs != [] && !Run(row, now, obs).closed
    ensures !Run(row, now, obs[..|obs| - 1]).closed
  {
    hide Poll;
  }

  lemma TickSends(s: Stream, o: Obs)
    requires !s.closed
    ensures Sent(Tick(s, o).frames) == if Polled(o) then Sent(s.frames) + NewEvents(o.row.value.timeline, s.cursor) else Sent(s.frames)
  {
    hide Sent, NewEvents, Poll;
    SentLast(s.frames, DoneClosed("stream_timeout"));
    SentLast(s.frames, DoneClosed("task_deleted"));
    if Polled(o) {
      PollSends(s, o, o.row.value);
    }
  }

  // ----- status frames and closing ------------------------------------------------------------------------

  /** The status the client was last told. */
  function Told(frames: seq<Frame>): Option<Status> {
    if frames == [] then None
    else
      match frames[|frames| - 1]
      case Snapshot(status, _, _) => Some(status)
      case StatusFrame(_, status) => Some(status)
      case _ => Told(frames[..|frames| - 1])
  }

  predicate IsDone(f: Frame) { f.DoneFinal? || f.DoneClosed? }

  /** A status frame continues from the status told before; a closing frame is right about it. */
  predicate FrameOk(before: seq<Frame>, f: Frame) {
    match f
    case StatusFrame(previous, status) => Told(before) == Some(previous) && previous != status
    case DoneFinal(status, _) => Told(before) == Some(status) && IsTerminal(status)
    case _ => true
  }

  ghost predicate FramesOk(frames: seq<Frame>, closed: bool) {
    && frames != []
    && (forall i | 0 <= i < |frames| :: FrameOk(frames[..i], frames[i]))
    && (forall i | 0 <= i < |frames| :: IsDone(frames[i]) <==> closed && i == |frames| - 1)
  }

  lemma FramesOkLast(frames: seq<Frame>, f: Frame)
    requires FramesOk(frames, false) && FrameOk(frames, f)
    ensures FramesOk(frames + [f], IsDone(f))
    ensures Told(frames + [f]) == match f { case Snapshot(status, _, _) => Some(status)
                                            case StatusFrame(_, status) => Some(status)
                                            case _ => Told(frames) }
  {
    hide FrameOk, IsDone;
    var all := frames + [f];
    assert all[..|frames|] == frames;
    forall i | 0 <= i < |all| ensures FrameOk(all[..i], all[i]) {
      if i < |frames| {
        assert all[..i] == frames[..i];
      }
    }
  }

  lemma {:induction false} FramesOkLogs(frames: seq<Frame>, es: seq<Event>)
    requires FramesOk(frames, false)
    ensures FramesOk(frames + Logs(es), false) && Told(frames + Logs(es)) == Told(frames)
    decreases es
  {
    hide FramesOk, Told, Logs;
    if es == [] {
      assert Logs(es) == [] by { NoLogs(); }
      assert frames + [] == frames;
    } else {
      var n := |es| - 1;
      FramesOkLogs(frames, es[..n]);
      LogsLast(es);
      assert frames + Logs(es) == (frames + Logs(es[..n])) + [Log(es[n])];
      FramesOkLast(frames + Logs(es[..n]), Log(es[n]));
    }
  }

  lemma TickKeepsFrames(s: Stream, o: Obs)
    requires FramesOk(s.frames, s.closed) && Told(s.frames) == Some(s.lastStatus)
    ensures FramesOk(Tick(s, o).frames, Tick(s, o).closed) && Told(Tick(s, o).frames) == Some(Tick(s, o).lastStatus)
  {
    hide FramesOk, Told, NewEvents, Logs, Cursor;
    if !s.closed {
      if o.uptime > HARD_TIMEOUT {
        FramesOkLast(s.frames, DoneClosed("stream_timeout"));
      } else if o.row.None? {
        FramesOkLast(s.frames, DoneClosed("task_deleted"));
      } else {
        var row := o.row.value;
        var unsent := NewEvents(row.timeline, s.cursor);
        var told := if row.status != s.lastStatus then s.frames + [StatusFrame(s.lastStatus, row.status)] else s.frames;
        if row.status != s.lastStatus {
          FramesOkLast(s.frames, StatusFrame(s.lastStatus, row.status));
        }
        FramesOkLogs(told, unsent);
        var frames := if unsent != [] then told + Logs(unsent) else told;
        if IsTerminal(row.status) {
          FramesOkLast(frames, DoneFinal(row.status, row.stage));
        } else if IsPaused(row.status) {
          FramesOkLast(frames, PausedFrame(row.status));
        } else {
          FramesOkLast(frames, Heartbeat);
        }
      }
    }
  }

  /** Every status frame starts from the status last told; a closing frame is sent once, last,
      exactly when the stream closes, and a terminal one carries the status last told. */
  lemma {:induction false} StatusChainAndClose(row: Row, now: real, obs: seq<Obs>)
    ensures var s := Run(row, now, obs);
              FramesOk(s.frames, s.closed) && Told(s.frames) == Some(s.lastStatus)
    decreases obs
  {
    hide Tick;
    if obs != [] {
      hide FramesOk;
      StatusChainAndClose(row, now, obs[..|obs| - 1]);
      TickKeepsFrames(Run(row, now, obs[..|obs| - 1]), obs[|obs| - 1]);
    }
  }

  /** The observations that end a stream: too long open, the task deleted, or a status of the
      closing list. */
  predicate Closes(o: Obs) {
    o.uptime > 1800.0 || o.row.None? || o.row.value.status in {Completed, Failed, RolledBack}
  }

  lemma PollClosesExactly(s: Stream, o: Obs)
    requires !s.closed
    ensures Tick(s, o).closed <==> Closes(o)
  {
    hide NewEvents, Logs, Cursor;
  }

  /** A stream is closed exactly if it has seen a closing observation, and nothing after the first
      one matters. The watchdog's terminal failure is none: a client that only ever sees that
      status within the time limit is kept waiting. */
  lemma {:induction false} RunClosesExactly(row: Row, now: real, obs: seq<Obs>)
    ensures Run(row, now, obs).closed <==> exists k | 0 <= k < |obs| :: Closes(obs[k])
    ensures forall k | 0 <= k < |obs| && Closes(obs[k]) :: Run(row, now, obs) == Run(row, now, obs[..k + 1])
    ensures (forall k | 0 <= k < |obs| :: Polled(obs[k]) && obs[k].row.value.status == StaleFailed)
              ==> !Run(row, now, obs).closed
    decreases obs
  {
    hide Tick;
    if obs != [] {
      var n := |obs| - 1;
      var init := obs[..n];
      RunClosesExactly(row, now, init);
      ClosesAtTick(Run(row, now, init), obs[n]);
      assert obs == init + [obs[n]];
      forall k | 0 <= k < |obs| && Closes(obs[k]) ensures Run(row, now, obs) == Run(row, now, obs[..k + 1]) {
        if k < n {
          assert Closes(init[k]);
          assert init[..k + 1] == obs[..k + 1];
        } else {
          assert obs[..k + 1] == obs;
        }
      }
    }
  }

  lemma ClosesAtTick(s: Stream, o: Obs)
    ensures Tick(s, o).closed <==> s.closed || Closes(o)
    ensures s.closed ==> Tick(s, o) == s
  {
    hide Poll, Closes;
    if s.closed {
      TickClosed(s, o);
    } else {
      PollClosesExactly(s, o);
    }
  }

  /** The frames a loop turn adds. */
  function NewFrames(s: Stream, o: Obs): seq<Frame> {
    if |s.frames| <= |Tick(s, o).frames| then Tick(s, o).frames[|s.frames|..] else []
  }

  /** A poll that keeps the stream open asks for patience exactly while an approval is pending,
      and otherwise beats exactly after a quiet interval. */
  lemma OpenPollSignals(s: Stream, o: Obs)
    requires !s.closed && Polled(o) && !IsTerminal(o.row.value.status)
    ensures s.frames <= Tick(s, o).frames
    ensures var row := o.row.value;
              var quietSince := if NewEvents(row.timeline, s.cursor) != [] then o.sentAt else s.lastHeartbeat;
              && (PausedFrame(row.status) in NewFrames(s, o) <==> row.status in {AwaitingApproval, WaitingApproval})
              && (Heartbeat in NewFrames(s, o) <==> !IsPaused(row.status) && o.checkedAt - quietSince >= 25.0)
  {
    hide NewEvents, Logs, Cursor, Tick;
    var row := o.row.value;
    var unsent := NewEvents(row.timeline, s.cursor);
    var change, logs, signal := PollAdds(s, o);
    LogsAreLogs(unsent);
    assert NewFrames(s, o) == change + logs + signal;
    assert forall f :: f in change + logs + signal <==> f in change || f in logs || f in signal;
  }

  /** What a poll adds, in order: the change of status, the new events, and a signal. */
  lemma PollAdds(s: Stream, o: Obs) returns (change: seq<Frame>, logs: seq<Frame>, signal: seq<Frame>)
    requires !s.closed && Polled(o)
    ensures Tick(s, o).frames == s.frames + (change + logs + signal)
    ensures var row := o.row.value;
              change == if row.status != s.lastStatus then [StatusFrame(s.lastStatus, row.status)] else []
    ensures var unsent := NewEvents(o.row.value.timeline, s.cursor);
              logs == if unsent != [] then Logs(unsent) else []
    ensures var row := o.row.value;
              var quietSince := if NewEvents(row.timeline, s.cursor) != [] then o.sentAt else s.lastHeartbeat;
              signal == if row.status in {Completed, Failed, RolledBack} then [DoneFinal(row.status, row.stage)]
                        else if row.status in {AwaitingApproval, WaitingApproval} then [PausedFrame(row.status)]
                        else if o.checkedAt - quietSince >= 25.0 then [Heartbeat] else []
  {
    hide NewEvents, Logs, Cursor;
    var row := o.row.value;
    var unsent := NewEvents(row.timeline, s.cursor);
    var quietSince := if unsent != [] then o.sentAt else s.lastHeartbeat;
    change := if row.status != s.lastStatus then [StatusFrame(s.lastStatus, row.status)] else [];
    logs := if unsent != [] then Logs(unsent) else [];
    signal := if IsTerminal(row.status) then [DoneFinal(row.status, row.stage)]
              else if IsPaused(row.status) then [PausedFrame(row.status)]
              else if o.checkedAt - quietSince >= HEARTBEAT_INTERVAL then [Heartbeat]
              else [];
  }

  lemma LogsAreLogs(es: seq<Event>)
    ensures forall f | f in Logs(es) :: f.Log?
  {
  }

  /** The frames of one poll: at most one change of status, then the events, then at most one frame
      of another kind. */
  lemma PollInOrder(s: Stream, o: Obs) returns (a: nat, b: nat)
    requires !s.closed && Polled(o)
    ensures s.frames <= Tick(s, o).frames && a <= b <= |NewFrames(s, o)| && a <= 1 && |NewFrames(s, o)| - b <= 1
    ensures var fs := NewFrames(s, o);
              && (forall i | 0 <= i < a :: fs[i].StatusFrame?) && (forall i | a <= i < b :: fs[i].Log?)
              && (forall i | b <= i < |fs| :: fs[i].DoneFinal? || fs[i].PausedFrame? || fs[i].Heartbeat?)
  {
    hide NewEvents, Logs, Tick;
    var change, logs, signal := PollAdds(s, o);
    LogsAreLogs(NewEvents(o.row.value.timeline, s.cursor));
    assert NewFrames(s, o) == change + logs + signal;
    a, b := |change|, |change| + |logs|;
    assert forall i | a <= i < b :: (change + logs + signal)[i] == logs[i - a] && logs[i - a] in logs;
  }

  /** The quiet interval is counted from the last heartbeat, the last events sent, or the opening. */
  lemma QuietSince(s: Stream, o: Obs)
    requires !s.closed && Polled(o)
    ensures var sent, fs := Tick(s, o), NewFrames(s, o);
              sent.lastHeartbeat ==
                if Heartbeat in fs then o.checkedAt else if exists e :: Log(e) in fs then o.sentAt else s.lastHeartbeat
    ensures forall row, now :: Run(row, now, []).lastHeartbeat == now
  {
    hide NewEvents, Logs, Tick, NewFrames, Run;
    var signal := SignsOfLife(s, o);
    BeatMoves(s, o, signal);
    forall row: Row, now: real ensures Run(row, now, []).lastHeartbeat == now {
      RunNothing(row, now);
    }
  }

  lemma SignsOfLife(s: Stream, o: Obs) returns (signal: seq<Frame>)
    requires !s.closed && Polled(o)
    ensures var row := o.row.value;
              var quietSince := if NewEvents(row.timeline, s.cursor) != [] then o.sentAt else s.lastHeartbeat;
              Heartbeat in signal <==> !IsTerminal(row.status) && !IsPaused(row.status) && o.checkedAt - quietSince >= 25.0
    ensures Heartbeat in NewFrames(s, o) <==> Heartbeat in signal
    ensures (exists e :: Log(e) in NewFrames(s, o)) <==> NewEvents(o.row.value.timeline, s.cursor) != []
  {
    hide NewEvents, Logs, Tick;
    var unsent := NewEvents(o.row.value.timeline, s.cursor);
    var change, logs;
    change, logs, signal := PollAdds(s, o);
    var fs := NewFrames(s, o);
    assert fs == change + logs + signal;
    hide NewFrames;
    LogsOfSome(unsent);
    assert forall f :: f in fs <==> f in change || f in logs || f in signal;
    assert unsent != [] ==> Log(unsent[0]) in fs;
  }

  lemma BeatMoves(s: Stream, o: Obs, signal: seq<Frame>)
    requires !s.closed && Polled(o)
    requires var row := o.row.value;
               var quietSince := if NewEvents(row.timeline, s.cursor) != [] then o.sentAt else s.lastHeartbeat;
               Heartbeat in signal <==> !IsTerminal(row.status) && !IsPaused(row.status) && o.checkedAt - quietSince >= 25.0
    ensures Tick(s, o).lastHeartbeat ==
              if Heartbeat in signal then o.checkedAt
              else if NewEvents(o.row.value.timeline, s.cursor) != [] then o.sentAt else s.lastHeartbeat
  {
    hide NewEvents, Logs, Cursor;
  }

  lemma LogsOfSome(es: seq<Event>)
    ensures forall f | f in Logs(es) :: f.Log?
    ensures es != [] ==> Log(es[0]) in Logs(es)
  {
    if es != [] {
      assert Logs(es)[0] == Log(es[0]);
    }
  }

  // ----- the first frame, the last, and the status told --------------------------------------------------

  lemma {:induction false} SnapshotFirst(row: Row, now: real, obs: seq<Obs>)
    ensures var es := row.timeline;
              var frames := Run(row, now, obs).frames;
              frames != [] && frames[0] == Snapshot(row.status, es, if es == [] then None else Some(es[|es| - 1].id))
    decreases obs
  {
    if obs != [] {
      hide Poll;
      var s, o := Run(row, now, obs[..|obs| - 1]), obs[|obs| - 1];
      SnapshotFirst(row, now, obs[..|obs| - 1]);
      if !s.closed && Polled(o) {
        var change, logs, signal := PollAdds(s, o);
      }
    }
  }

  /** The closing frame names the cause, in this order: the time limit, the task's deletion, or the
      final status and stage of the task. */
  lemma LastFrameSaysWhy(row: Row, now: real, obs: seq<Obs>, k: nat)
    requires k < |obs| && Closes(obs[k]) && forall j | 0 <= j < k :: !Closes(obs[j])
    ensures var frames, o := Run(row, now, obs).frames, obs[k];
              frames != [] && frames[|frames| - 1] ==
                if o.uptime > 1800.0 then DoneClosed("stream_timeout")
                else if o.row.None? then DoneClosed("task_deleted")
                else DoneFinal(o.row.value.status, o.row.value.stage)
  {
    hide Tick;
    RunClosesExactly(row, now, obs);
    RunClosesExactly(row, now, obs[..k]);
    RunStep(row, now, obs, k);
    ClosingTick(Run(row, now, obs[..k]), obs[k]);
  }

  lemma ClosingTick(s: Stream, o: Obs)
    requires !s.closed && Closes(o)
    ensures var frames := Tick(s, o).frames;
              frames != [] && frames[|frames| - 1] ==
                if o.uptime > 1800.0 then DoneClosed("stream_timeout")
                else if o.row.None? then DoneClosed("task_deleted")
                else DoneFinal(o.row.value.status, o.row.value.stage)
  {
    if Polled(o) {
      hide Tick;
      var change, logs, signal := PollAdds(s, o);
    }
  }

  function LastStatus(row: Row, obs: seq<Obs>): Status {
    if obs == [] then row.status
    else if Polled(obs[|obs| - 1]) then obs[|obs| - 1].row.value.status
    else LastStatus(row, obs[..|obs| - 1])
  }

  lemma {:induction false} StatusIsLast(row: Row, now: real, obs: seq<Obs>)
    requires obs != [] ==> !Run(row, now, obs[..|obs| - 1]).closed
    ensures Run(row, now, obs).lastStatus == LastStatus(row, obs)
    decreases obs
  {
    if obs != [] {
      hide NewEvents, Logs, Cursor;
      var init := obs[..|obs| - 1];
      if init != [] {
        OpenBefore(row, now, init);
      }
      StatusIsLast(row, now, init);
    }
  }

  /** The status the client was last told is the one of the last poll. */
  lemma ToldIsLast(row: Row, now: real, obs: seq<Obs>)
    requires obs != [] ==> !Run(row, now, obs[..|obs| - 1]).closed
    ensures Told(Run(row, now, obs).frames) == Some(LastStatus(row, obs))
  {
    hide Run, Told;
    StatusIsLast(row, now, obs);
    StatusChainAndClose(row, now, obs);
  }
}
