/**
 * The stack-update tracker as a state machine over values: the session state of one
 * tracking call, the effect of one tick (one fetched page of events), the whole polling
 * loop over a sequence of fetch outcomes, and the properties the tracker promises —
 * at-most-once delivery, a seen-set that only grows, the skip to the resume point, the
 * stop condition, the error reports and the one-row-per-resource live view.
 */
module StackSession {
  import opened Wrappers
  import opened StackEvents
  import opened StackRender

  /** The arguments of one tracking call. */
  datatype TrackConfig = TrackConfig(
    stackName: string,
    mostRecentStackEventId: Option<string>,
    view: ViewConfig)

  /**
   * The state of one tracking call. `screen` is the block last drawn on an ANSI console,
   * `transcript` the lines written in plain mode, `errors` the messages sent to the error
   * sink, and `delivered` every event passed to `UpdateEvent`, in order.
   */
  datatype Session = Session(
    seenEventIds: set<string>,
    foundMostRecentStackEvent: bool,
    eventList: seq<StackEvent>,
    active: bool,
    success: bool,
    ansiLinesPrinted: nat,
    screen: seq<string>,
    transcript: seq<string>,
    errors: seq<string>,
    delivered: seq<StackEvent>)

  /** What one attempt to fetch the first page of a stack's events gives back. */
  datatype Fetch =
    | Page(events: seq<StackEvent>)   // newest first
    | NoSuchHost                      // the socket failure "No such host is known"
    | Failed(message: string)         // any other failure

  datatype TickOutcome = Retried | Processed | Fatal(message: string)

  /** How the polling loop ended; `Pending` means the modelled fetches ran out while still active. */
  datatype TrackResult = Completed(success: bool) | Aborted(message: string) | Pending

  function Initial(cfg: TrackConfig): (s: Session)
    ensures s.active && !s.success && s.seenEventIds == {} && s.delivered == []
  {
    Session({}, cfg.mostRecentStackEventId.None?, [], true, false, 0, [], [], [], [])
  }

  /** The event that ends tracking: a final event of the tracked stack itself. */
  predicate EndsTracking(cfg: TrackConfig, evt: StackEvent) {
    IsFinalStackEvent(evt) && evt.logicalResourceId == cfg.stackName
  }

  // ---------------------------------------------------------------------------
  // The live view's rows: one per logical resource id

  /** The index of the first row for `id`, or -1 (`List.FindIndex`). */
  function FindIndex(rows: seq<StackEvent>, id: string): (i: int)
    ensures -1 <= i < |rows|
    ensures 0 <= i ==> rows[i].logicalResourceId == id && forall j :: 0 <= j < i ==> rows[j].logicalResourceId != id
    ensures i < 0 ==> forall j :: 0 <= j < |rows| ==> rows[j].logicalResourceId != id
  {
    if rows == [] then -1
    else if rows[0].logicalResourceId == id then 0
    else
      var i := FindIndex(rows[1..], id);
      assert forall j :: 1 <= j < |rows| ==> rows[j] == rows[1..][j - 1];
      if i < 0 then -1 else i + 1
  }

  /** The row update of `UpdateEvent`: replace the row of the same resource in place, or append. */
  function Upsert(rows: seq<StackEvent>, evt: StackEvent): seq<StackEvent> {
    var index := FindIndex(rows, evt.logicalResourceId);
    if index < 0 then rows + [evt] else rows[index := evt]
  }

  /** The rows after `UpdateEvent` has seen every event of `events` in order. */
  function Collapse(events: seq<StackEvent>): seq<StackEvent> {
    if events == [] then [] else Upsert(Collapse(events[..|events| - 1]), events[|events| - 1])
  }

  function LogicalIds(rows: seq<StackEvent>): set<string> {
    set i | 0 <= i < |rows| :: rows[i].logicalResourceId
  }

  predicate DistinctLogicalIds(rows: seq<StackEvent>) {
    forall i, j :: 0 <= i < j < |rows| ==> rows[i].logicalResourceId != rows[j].logicalResourceId
  }

  /** The last event of `events` for resource `id`, if any. */
  function LatestFor(events: seq<StackEvent>, id: string): Option<StackEvent> {
    if events == [] then None
    else if events[|events| - 1].logicalResourceId == id then Some(events[|events| - 1])
    else LatestFor(events[..|events| - 1], id)
  }

  /** Upsert keeps one row per resource: the new event's row is the event, every other row stays. */
  lemma UpsertKeepsOneRowPerResource(rows: seq<StackEvent>, evt: StackEvent)
    requires DistinctLogicalIds(rows)
    ensures var r := Upsert(rows, evt);
      DistinctLogicalIds(r)
      && LogicalIds(r) == LogicalIds(rows) + {evt.logicalResourceId}
      && (forall j :: 0 <= j < |r| && r[j].logicalResourceId != evt.logicalResourceId ==>
            j < |rows| && r[j] == rows[j])
      && (forall j :: 0 <= j < |r| && r[j].logicalResourceId == evt.logicalResourceId ==> r[j] == evt)
      && (forall j :: 0 <= j < |rows| ==> r[j].logicalResourceId == rows[j].logicalResourceId)
      && |rows| <= |r| <= |rows| + 1
  {
    var r := Upsert(rows, evt);
    var index := FindIndex(rows, evt.logicalResourceId);
    if index < 0 {
      assert LogicalIds(r) == LogicalIds(rows) + {evt.logicalResourceId} by {
        assert forall i :: 0 <= i < |rows| ==> r[i] == rows[i];
        assert r[|rows|] == evt;
      }
    } else {
      assert LogicalIds(r) == LogicalIds(rows) + {evt.logicalResourceId} by {
        assert forall i :: 0 <= i < |rows| ==> r[i].logicalResourceId == rows[i].logicalResourceId;
      }
    }
  }

  /**
   * In ANSI mode the live view holds exactly one row per resource that has had an event,
   * that row is the resource's most recent event, and rows appear in the order in which
   * their resources were first seen (a later event never moves a row).
   */
  lemma {:induction false} CollapseIsLatestPerResource(events: seq<StackEvent>)
    ensures var rows := Collapse(events);
      DistinctLogicalIds(rows)
      && LogicalIds(rows) == LogicalIds(events)
      && forall j :: 0 <= j < |rows| ==> LatestFor(events, rows[j].logicalResourceId) == Some(rows[j])
  {
    if events != [] {
      var init := events[..|events| - 1];
      var evt := events[|events| - 1];
      CollapseIsLatestPerResource(init);
      var rows := Collapse(init);
      UpsertKeepsOneRowPerResource(rows, evt);
      assert events == init + [evt];
      assert LogicalIds(events) == LogicalIds(init) + {evt.logicalResourceId} by {
        forall id | id in LogicalIds(events) ensures id in LogicalIds(init) + {evt.logicalResourceId} {
          var i :| 0 <= i < |events| && events[i].logicalResourceId == id;
          if i < |init| { assert init[i] == events[i]; }
        }
        forall id | id in LogicalIds(init) ensures id in LogicalIds(events) {
          var i :| 0 <= i < |init| && init[i].logicalResourceId == id;
          assert events[i] == init[i];
        }
      }
    }
  }

  /** A row, once added, keeps its position: the rows for earlier events are a prefix of the rows for more events. */
  lemma {:induction false} CollapseKeepsFirstSeenOrder(events: seq<StackEvent>, more: seq<StackEvent>)
    ensures |Collapse(events)| <= |Collapse(events + more)|
    ensures forall j :: 0 <= j < |Collapse(events)| ==>
      Collapse(events + more)[j].logicalResourceId == Collapse(events)[j].logicalResourceId
    decreases |more|
  {
    if more == [] {
      assert events + more == events;
    } else {
      var init := more[..|more| - 1];
      CollapseKeepsFirstSeenOrder(events, init);
      assert (events + more)[..|events + more| - 1] == events + init;
      CollapseIsLatestPerResource(events + init);
      UpsertKeepsOneRowPerResource(Collapse(events + init), more[|more| - 1]);
    }
  }

  // ---------------------------------------------------------------------------
  // One tick

  /** The messages `UpdateEvent` sends to the error sink for `events`, in order. */
  function ReportedErrors(cfg: TrackConfig, events: seq<StackEvent>): seq<string> {
    if events == [] then []
    else
      var evt := events[|events| - 1];
      ReportedErrors(cfg, events[..|events| - 1])
      + (if cfg.view.hasErrorSink && IsReportableFailure(evt) then [ErrorMessage(cfg.view, evt)] else [])
  }

  /** The lines plain mode writes for `events`, in order. */
  function PlainLines(cfg: TrackConfig, events: seq<StackEvent>): (lines: seq<string>)
    ensures |lines| == |events|
  {
    seq(|events|, i requires 0 <= i < |events| => PlainLine(cfg.view, events[i]))
  }

  /** The local `UpdateEvent`: update the row or write a line, then report a failure. */
  function UpdateEvent(cfg: TrackConfig, s: Session, evt: StackEvent): Session {
    s.(
      eventList := if cfg.view.useAnsiConsole then Upsert(s.eventList, evt) else s.eventList,
      transcript := if cfg.view.useAnsiConsole then s.transcript else s.transcript + [PlainLine(cfg.view, evt)],
      errors := s.errors
        + (if cfg.view.hasErrorSink && IsReportableFailure(evt) then [ErrorMessage(cfg.view, evt)] else []),
      delivered := s.delivered + [evt])
  }

  /** The local `RenderEvents`: on an ANSI console, redraw the block in place. */
  function RenderEvents(cfg: TrackConfig, s: Session): Session {
    if cfg.view.useAnsiConsole then
      s.(screen := RenderRows(cfg.view, s.eventList), ansiLinesPrinted := |s.eventList|)
    else s
  }

  /**
   * The skip loop over the oldest-first page: while the resume event is not found, drop the
   * oldest event and mark it seen, flipping the flag on the event whose id is the resume id.
   */
  function SkipToResume(events: seq<StackEvent>, resumeId: Option<string>, seen: set<string>, found: bool)
    : (r: (seq<StackEvent>, set<string>, bool))
    ensures seen <= r.1
    ensures found ==> r == (events, seen, found)
    decreases |events|
  {
    if found || events == [] then (events, seen, found)
    else SkipToResume(events[1..], resumeId, seen + {events[0].eventId}, Some(events[0].eventId) == resumeId)
  }

  /**
   * The `foreach` over the page's unseen events: each is passed to `UpdateEvent` and marked
   * seen; the first that ends tracking clears `active`, sets `success` and stops the batch.
   */
  function Deliver(cfg: TrackConfig, s: Session, events: seq<StackEvent>): (r: Session)
    ensures s.seenEventIds <= r.seenEventIds
    ensures r.foundMostRecentStackEvent == s.foundMostRecentStackEvent
    ensures |s.delivered| <= |r.delivered| && r.delivered[..|s.delivered|] == s.delivered
    ensures r.screen == s.screen && r.ansiLinesPrinted == s.ansiLinesPrinted
    decreases |events|
  {
    if events == [] then s
    else
      var evt := events[0];
      if evt.eventId in s.seenEventIds then Deliver(cfg, s, events[1..])
      else
        var next := UpdateEvent(cfg, s, evt).(seenEventIds := s.seenEventIds + {evt.eventId});
        if EndsTracking(cfg, evt) then next.(active := false, success := IsSuccessfulFinalStackEvent(evt))
        else Deliver(cfg, next, events[1..])
  }

  function Reverse<T>(xs: seq<T>): (r: seq<T>)
    ensures |r| == |xs| && forall i :: 0 <= i < |xs| ==> r[i] == xs[|xs| - 1 - i]
  {
    seq(|xs|, i requires 0 <= i < |xs| => xs[|xs| - 1 - i])
  }

  /**
   * One pass of the `while(active)` body. A "No such host is known" failure changes nothing
   * and is retried; any other failure propagates; a page is reversed to oldest-first, the
   * skip runs, a resume id still not found is fatal, and otherwise the unseen events are
   * delivered and the view redrawn.
   */
  function Tick(cfg: TrackConfig, s: Session, fetch: Fetch): (r: (TickOutcome, Session))
    ensures fetch.NoSuchHost? ==> r == (Retried, s)
    ensures fetch.Failed? ==> r == (Fatal(fetch.message), s)
    ensures r.0.Processed? <==> fetch.Page? && r.1.foundMostRecentStackEvent
    ensures s.seenEventIds <= r.1.seenEventIds
    ensures |s.delivered| <= |r.1.delivered| && r.1.delivered[..|s.delivered|] == s.delivered
  {
    match fetch
    case NoSuchHost => (Retried, s)
    case Failed(message) => (Fatal(message), s)
    case Page(page) =>
      var skipped := SkipToResume(Reverse(page), cfg.mostRecentStackEventId,
                                  s.seenEventIds, s.foundMostRecentStackEvent);
      var afterSkip := s.(seenEventIds := skipped.1, foundMostRecentStackEvent := skipped.2);
      if !skipped.2 then
        (Fatal("unable to find starting event for stack: " + cfg.stackName), afterSkip)
      else
        (Processed, RenderEvents(cfg, Deliver(cfg, afterSkip, skipped.0)))
  }

  /** The `while(active)` loop over the given fetch outcomes, one per tick. */
  function Run(cfg: TrackConfig, s: Session, fetches: seq<Fetch>): (r: (TrackResult, Session))
    ensures r.0.Completed? ==> !r.1.active && r.0.success == r.1.success
    ensures r.0.Pending? ==> r.1.active
    ensures s.seenEventIds <= r.1.seenEventIds
    ensures |s.delivered| <= |r.1.delivered| && r.1.delivered[..|s.delivered|] == s.delivered
    decreases |fetches|
  {
    if !s.active then (Completed(s.success), s)
    else if fetches == [] then (Pending, s)
    else
      var (outcome, next) := Tick(cfg, s, fetches[0]);
      if outcome.Fatal? then (Aborted(outcome.message), next)
      else Run(cfg, next, fetches[1..])
  }

  // ---------------------------------------------------------------------------
  // Which events a tick delivers

  function EventIds(events: seq<StackEvent>): set<string> {
    set i | 0 <= i < |events| :: events[i].eventId
  }

  predicate EventIdsDistinct(events: seq<StackEvent>) {
    forall i, j :: 0 <= i < j < |events| ==> events[i].eventId != events[j].eventId
  }

  lemma EventIdsCons(evt: StackEvent, rest: seq<StackEvent>)
    ensures EventIds([evt] + rest) == {evt.eventId} + EventIds(rest)
  {
    var all := [evt] + rest;
    assert all[0] == evt;
    forall id | id in EventIds(all) ensures id in {evt.eventId} + EventIds(rest) {
      var i :| 0 <= i < |all| && all[i].eventId == id;
      if i > 0 { assert rest[i - 1].eventId == id; }
    }
    forall id | id in EventIds(rest) ensures id in EventIds(all) {
      var i :| 0 <= i < |rest| && rest[i].eventId == id;
      assert all[i + 1].eventId == id;
    }
  }

  /** The events of `events` whose ids are not in `seen`, each id once (its first occurrence), in order. */
  function Fresh(seen: set<string>, events: seq<StackEvent>): seq<StackEvent>
    decreases |events|
  {
    if events == [] then []
    else if events[0].eventId in seen then Fresh(seen, events[1..])
    else [events[0]] + Fresh(seen + {events[0].eventId}, events[1..])
  }

  /** The prefix of `events` up to and including the first event that ends tracking. */
  function TakeThroughStop(cfg: TrackConfig, events: seq<StackEvent>): seq<StackEvent>
    decreases |events|
  {
    if events == [] then []
    else if EndsTracking(cfg, events[0]) then [events[0]]
    else [events[0]] + TakeThroughStop(cfg, events[1..])
  }

  predicate HasStop(cfg: TrackConfig, events: seq<StackEvent>) {
    exists i :: 0 <= i < |events| && EndsTracking(cfg, events[i])
  }

  /** `Fresh` keeps exactly the unseen ids, each once, and only events of its input. */
  lemma {:induction false} FreshIsUnseenOnce(seen: set<string>, events: seq<StackEvent>)
    ensures var f := Fresh(seen, events);
      EventIdsDistinct(f)
      && EventIds(f) == EventIds(events) - seen
      && forall i :: 0 <= i < |f| ==> f[i] in events
    decreases |events|
  {
    if events != [] {
      var evt := events[0];
      var rest := events[1..];
      assert events == [evt] + rest;
      EventIdsCons(evt, rest);
      if evt.eventId in seen {
        FreshIsUnseenOnce(seen, rest);
      } else {
        var seen' := seen + {evt.eventId};
        FreshIsUnseenOnce(seen', rest);
        var f' := Fresh(seen', rest);
        EventIdsCons(evt, f');
        FreshConsStep(evt, f', rest);
      }
    }
  }

  /** Putting an event with a new id in front keeps the ids distinct and the events drawn from the input. */
  lemma FreshConsStep(evt: StackEvent, f: seq<StackEvent>, rest: seq<StackEvent>)
    requires EventIdsDistinct(f) && evt.eventId !in EventIds(f)
    requires forall i :: 0 <= i < |f| ==> f[i] in rest
    ensures EventIdsDistinct([evt] + f)
    ensures forall i :: 0 <= i < |f| + 1 ==> ([evt] + f)[i] in [evt] + rest
  {
    var all := [evt] + f;
    forall i, j | 0 <= i < j < |all| ensures all[i].eventId != all[j].eventId {
      assert all[j] == f[j - 1];
      if i == 0 {
        assert all[j].eventId in EventIds(f);
      } else {
        assert all[i] == f[i - 1];
      }
    }
    forall i | 0 <= i < |all| ensures all[i] in [evt] + rest {
      if i > 0 {
        assert all[i] == f[i - 1];
      }
    }
  }

  lemma SeqAppendAssoc<T>(a: seq<T>, b: seq<T>, c: seq<T>)
    ensures (a + b) + c == a + (b + c)
  {
  }

  /** One step of `Deliver` on an unseen event that ends tracking. */
  lemma DeliverStopsAt(cfg: TrackConfig, s: Session, events: seq<StackEvent>)
    requires events != [] && events[0].eventId !in s.seenEventIds && EndsTracking(cfg, events[0])
    ensures Deliver(cfg, s, events)
      == UpdateEvent(cfg, s, events[0]).(seenEventIds := s.seenEventIds + {events[0].eventId},
                                         active := false, success := IsSuccessfulFinalStackEvent(events[0]))
  {
  }

  /** One step of `Deliver` on an unseen event that does not end tracking. */
  lemma DeliverContinuesPast(cfg: TrackConfig, s: Session, events: seq<StackEvent>)
    requires events != [] && events[0].eventId !in s.seenEventIds && !EndsTracking(cfg, events[0])
    ensures Deliver(cfg, s, events)
      == Deliver(cfg, UpdateEvent(cfg, s, events[0]).(seenEventIds := s.seenEventIds + {events[0].eventId}), events[1..])
  {
  }

  lemma HasStopCons(cfg: TrackConfig, evt: StackEvent, rest: seq<StackEvent>)
    ensures HasStop(cfg, [evt] + rest) <==> EndsTracking(cfg, evt) || HasStop(cfg, rest)
  {
    var all := [evt] + rest;
    assert all[0] == evt;
    if HasStop(cfg, all) && !EndsTracking(cfg, evt) {
      var i :| 0 <= i < |all| && EndsTracking(cfg, all[i]);
      assert i > 0 && all[i] == rest[i - 1];
    }
    if HasStop(cfg, rest) {
      var i :| 0 <= i < |rest| && EndsTracking(cfg, rest[i]);
      assert all[i + 1] == rest[i];
    }
  }

  /**
   * What a batch does from session `s`: it delivers exactly the unseen events of its
   * (oldest-first) input, each id once, up to and including the first that ends tracking,
   * and nothing after it; it marks seen exactly those; it stops tracking exactly when such
   * an event is among them, with `success` taken from that event.
   */
  predicate SelectsFreshEvents(cfg: TrackConfig, s: Session, events: seq<StackEvent>) {
    var r := Deliver(cfg, s, events);
    var taken := TakeThroughStop(cfg, Fresh(s.seenEventIds, events));
    r.delivered == s.delivered + taken
    && r.seenEventIds == s.seenEventIds + EventIds(taken)
    && (HasStop(cfg, Fresh(s.seenEventIds, events)) ==>
          !r.active && taken != [] && r.success == IsSuccessfulFinalStackEvent(taken[|taken| - 1]))
    && (!HasStop(cfg, Fresh(s.seenEventIds, events)) ==> r.active == s.active && r.success == s.success)
  }

  /** Every batch selects its fresh events. */
  lemma {:induction false} DeliverSelectsFreshEvents(cfg: TrackConfig, s: Session, events: seq<StackEvent>)
    ensures SelectsFreshEvents(cfg, s, events)
    decreases |events|
  {
    if events == [] {
      assert EventIds([]) == {};
    } else {
      var evt := events[0];
      if evt.eventId in s.seenEventIds {
        DeliverSelectsFreshEvents(cfg, s, events[1..]);
      } else if EndsTracking(cfg, evt) {
        SelectsWhenFirstStops(cfg, s, events);
      } else {
        var next := UpdateEvent(cfg, s, evt).(seenEventIds := s.seenEventIds + {evt.eventId});
        DeliverSelectsFreshEvents(cfg, next, events[1..]);
        SelectsPastFirst(cfg, s, events);
      }
    }
  }

  lemma SelectsWhenFirstStops(cfg: TrackConfig, s: Session, events: seq<StackEvent>)
    requires events != [] && events[0].eventId !in s.seenEventIds && EndsTracking(cfg, events[0])
    ensures SelectsFreshEvents(cfg, s, events)
  {
    var evt := events[0];
    var unseen' := Fresh(s.seenEventIds + {evt.eventId}, events[1..]);
    assert Fresh(s.seenEventIds, events) == [evt] + unseen';
    HasStopCons(cfg, evt, unseen');
    DeliverStopsAt(cfg, s, events);
    assert TakeThroughStop(cfg, [evt] + unseen') == [evt];
    EventIdsCons(evt, []);
  }

  lemma SelectsPastFirst(cfg: TrackConfig, s: Session, events: seq<StackEvent>)
    requires events != [] && events[0].eventId !in s.seenEventIds && !EndsTracking(cfg, events[0])
    requires SelectsFreshEvents(cfg, UpdateEvent(cfg, s, events[0]).(seenEventIds := s.seenEventIds + {events[0].eventId}), events[1..])
    ensures SelectsFreshEvents(cfg, s, events)
  {
    PastFirstDelivered(cfg, s, events);
    PastFirstFlags(cfg, s, events);
  }

  /** The delivered events and the seen-set part of `SelectsPastFirst`. */
  lemma PastFirstDelivered(cfg: TrackConfig, s: Session, events: seq<StackEvent>)
    requires events != [] && events[0].eventId !in s.seenEventIds && !EndsTracking(cfg, events[0])
    requires SelectsFreshEvents(cfg, UpdateEvent(cfg, s, events[0]).(seenEventIds := s.seenEventIds + {events[0].eventId}), events[1..])
    ensures var r := Deliver(cfg, s, events);
      var taken := TakeThroughStop(cfg, Fresh(s.seenEventIds, events));
      r.delivered == s.delivered + taken && r.seenEventIds == s.seenEventIds + EventIds(taken)
  {
    var evt := events[0];
    var rest := events[1..];
    var seen' := s.seenEventIds + {evt.eventId};
    var next := UpdateEvent(cfg, s, evt).(seenEventIds := seen');
    var unseen' := Fresh(seen', rest);
    assert Fresh(s.seenEventIds, events) == [evt] + unseen';
    assert next.delivered == s.delivered + [evt];
    DeliverContinuesPast(cfg, s, events);
    var taken' := TakeThroughStop(cfg, unseen');
    assert TakeThroughStop(cfg, [evt] + unseen') == [evt] + taken';
    EventIdsCons(evt, taken');
    SeqAppendAssoc(s.delivered, [evt], taken');
  }

  /** The `active` and `success` part of `SelectsPastFirst`. */
  lemma PastFirstFlags(cfg: TrackConfig, s: Session, events: seq<StackEvent>)
    requires events != [] && events[0].eventId !in s.seenEventIds && !EndsTracking(cfg, events[0])
    requires SelectsFreshEvents(cfg, UpdateEvent(cfg, s, events[0]).(seenEventIds := s.seenEventIds + {events[0].eventId}), events[1..])
    ensures var r := Deliver(cfg, s, events);
      var unseen := Fresh(s.seenEventIds, events);
      var taken := TakeThroughStop(cfg, unseen);
      (HasStop(cfg, unseen) ==> !r.active && taken != [] && r.success == IsSuccessfulFinalStackEvent(taken[|taken| - 1]))
      && (!HasStop(cfg, unseen) ==> r.active == s.active && r.success == s.success)
  {
    var evt := events[0];
    var next := UpdateEvent(cfg, s, evt).(seenEventIds := s.seenEventIds + {evt.eventId});
    var rest := events[1..];
    var unseen' := Fresh(next.seenEventIds, rest);
    var r := Deliver(cfg, next, rest);
    assert Fresh(s.seenEventIds, events) == [evt] + unseen';
    DeliverContinuesPast(cfg, s, events);
    assert Deliver(cfg, s, events) == r;
    HasStopCons(cfg, evt, unseen');
    FlagsPastFirst(cfg, evt, unseen', s.active, s.success, next, r);
  }

  /** How the flags after a batch follow from the flags after its tail, when the first event does not stop. */
  lemma FlagsPastFirst(cfg: TrackConfig, evt: StackEvent, unseen': seq<StackEvent>, active: bool, success: bool,
                       next: Session, r: Session)
    requires !EndsTracking(cfg, evt) && next.active == active && next.success == success
    requires var taken' := TakeThroughStop(cfg, unseen');
      (HasStop(cfg, unseen') ==> !r.active && taken' != [] && r.success == IsSuccessfulFinalStackEvent(taken'[|taken'| - 1]))
      && (!HasStop(cfg, unseen') ==> r.active == next.active && r.success == next.success)
    ensures var taken := TakeThroughStop(cfg, [evt] + unseen');
      (HasStop(cfg, unseen') ==> !r.active && taken != [] && r.success == IsSuccessfulFinalStackEvent(taken[|taken| - 1]))
      && (!HasStop(cfg, unseen') ==> r.active == active && r.success == success)
  {
    var taken' := TakeThroughStop(cfg, unseen');
    var taken := [evt] + taken';
    assert ([evt] + unseen')[0] == evt && ([evt] + unseen')[1..] == unseen';
    assert TakeThroughStop(cfg, [evt] + unseen') == taken;
    if HasStop(cfg, unseen') {
      assert taken' != [] && taken[|taken| - 1] == taken'[|taken'| - 1];
    }
  }

  /** The index of the first event with id `id`, or -1. */
  function IndexOfEvent(events: seq<StackEvent>, id: string): (i: int)
    ensures -1 <= i < |events|
    ensures 0 <= i ==> events[i].eventId == id && forall j :: 0 <= j < i ==> events[j].eventId != id
    ensures i < 0 ==> forall j :: 0 <= j < |events| ==> events[j].eventId != id
  {
    if events == [] then -1
    else if events[0].eventId == id then 0
    else
      var i := IndexOfEvent(events[1..], id);
      assert forall j :: 1 <= j < |events| ==> events[j] == events[1..][j - 1];
      if i < 0 then -1 else i + 1
  }

  /**
   * The skip over an oldest-first page with a resume id not yet found: every event up to
   * and including the first one with the resume id is marked seen and dropped, and the
   * flag turns true; when the page lacks that id, every event is marked seen and dropped
   * and the flag stays false.
   */
  lemma {:induction false} SkipDropsThroughResumeEvent(events: seq<StackEvent>, id: string, seen: set<string>)
    ensures var r := SkipToResume(events, Some(id), seen, false);
      var k := IndexOfEvent(events, id);
      (0 <= k ==> r == (events[k + 1..], seen + EventIds(events[..k + 1]), true))
      && (k < 0 ==> r == ([], seen + EventIds(events), false))
    decreases |events|
  {
    if events == [] {
      assert EventIds(events) == {};
      assert seen + EventIds(events) == seen;
      assert SkipToResume(events, Some(id), seen, false) == ([], seen, false);
      assert IndexOfEvent(events, id) == -1;
    } else {
      var evt := events[0];
      var rest := events[1..];
      var seen' := seen + {evt.eventId};
      assert events == [evt] + rest;
      if evt.eventId == id {
        assert SkipToResume(events, Some(id), seen, false) == (rest, seen', true);
        assert IndexOfEvent(events, id) == 0;
        assert events[..1] == [evt] + [];
        EventIdsCons(evt, []);
        assert seen + EventIds(events[..1]) == seen';
      } else {
        assert SkipToResume(events, Some(id), seen, false) == SkipToResume(rest, Some(id), seen', false);
        SkipDropsThroughResumeEvent(rest, id, seen');
        var k := IndexOfEvent(events, id);
        var k' := IndexOfEvent(rest, id);
        if 0 <= k {
          assert k' == k - 1;
          assert rest[k' + 1..] == events[k + 1..];
          assert events[..k + 1] == [evt] + rest[..k' + 1];
          EventIdsCons(evt, rest[..k' + 1]);
          assert seen' + EventIds(rest[..k' + 1]) == seen + EventIds(events[..k + 1]);
        } else {
          assert k' < 0;
          EventIdsCons(evt, rest);
          assert seen' + EventIds(rest) == seen + EventIds(events);
        }
      }
    }
  }
}
