/**
 * The invariant of a tracking session and the guarantees it gives over any sequence of
 * ticks: every event id reaches `UpdateEvent` at most once, the seen-set only grows, the
 * error sink hears exactly the reportable failures, the live view holds one row per
 * resource, and tracking stops exactly after the first final event of the stack itself.
 */
module StackInvariant {
  import opened Wrappers
  import opened StackEvents
  import opened StackRender
  import opened StackSession

  function Last(events: seq<StackEvent>): StackEvent
    requires events != []
  {
    events[|events| - 1]
  }

  /** What the delivered events determine about a session, whatever the view shows. */
  ghost predicate DeliveryInv(cfg: TrackConfig, s: Session) {
    && EventIdsDistinct(s.delivered)
    && EventIds(s.delivered) <= s.seenEventIds
    && s.errors == ReportedErrors(cfg, s.delivered)
    && s.eventList == (if cfg.view.useAnsiConsole then Collapse(s.delivered) else [])
    && s.transcript == (if cfg.view.useAnsiConsole then [] else PlainLines(cfg, s.delivered))
    && (cfg.mostRecentStackEventId.None? ==> s.foundMostRecentStackEvent)
    && (!s.foundMostRecentStackEvent ==> s.delivered == [])
    && (forall i :: 0 <= i < |s.delivered| - 1 ==> !EndsTracking(cfg, s.delivered[i]))
    && (s.active ==> !s.success && (s.delivered != [] ==> !EndsTracking(cfg, Last(s.delivered))))
    && (!s.active ==>
          s.delivered != [] && EndsTracking(cfg, Last(s.delivered))
          && s.success == IsSuccessfulFinalStackEvent(Last(s.delivered)))
  }

  /** The drawn block is the rendering of the rows, and the line count is the row count. */
  ghost predicate ViewInv(cfg: TrackConfig, s: Session) {
    && s.ansiLinesPrinted == |s.eventList|
    && s.screen == (if cfg.view.useAnsiConsole then RenderRows(cfg.view, s.eventList) else [])
  }

  ghost predicate Inv(cfg: TrackConfig, s: Session) {
    DeliveryInv(cfg, s) && ViewInv(cfg, s)
  }

  lemma InitialInv(cfg: TrackConfig)
    ensures Inv(cfg, Initial(cfg))
  {
    assert EventIds([]) == {};
    assert PlainLines(cfg, []) == [];
  }

  /** The per-event summaries of a delivered sequence grow by the new event's contribution. */
  lemma AppendDelivered(cfg: TrackConfig, events: seq<StackEvent>, evt: StackEvent)
    ensures ReportedErrors(cfg, events + [evt]) == ReportedErrors(cfg, events)
      + (if cfg.view.hasErrorSink && IsReportableFailure(evt) then [ErrorMessage(cfg.view, evt)] else [])
    ensures Collapse(events + [evt]) == Upsert(Collapse(events), evt)
    ensures PlainLines(cfg, events + [evt]) == PlainLines(cfg, events) + [PlainLine(cfg.view, evt)]
    ensures EventIds(events + [evt]) == EventIds(events) + {evt.eventId}
  {
    assert (events + [evt])[..|events|] == events;
    var all := events + [evt];
    forall id | id in EventIds(all) ensures id in EventIds(events) + {evt.eventId} {
      var i :| 0 <= i < |all| && all[i].eventId == id;
      if i < |events| { assert events[i] == all[i]; }
    }
    forall id | id in EventIds(events) ensures id in EventIds(all) {
      var i :| 0 <= i < |events| && events[i].eventId == id;
      assert all[i] == events[i];
    }
    assert all[|events|] == evt;
  }

  /** The part of the delivery invariant that does not depend on `active` and `success`. */
  ghost predicate SummaryInv(cfg: TrackConfig, s: Session) {
    && EventIdsDistinct(s.delivered)
    && EventIds(s.delivered) <= s.seenEventIds
    && s.errors == ReportedErrors(cfg, s.delivered)
    && s.eventList == (if cfg.view.useAnsiConsole then Collapse(s.delivered) else [])
    && s.transcript == (if cfg.view.useAnsiConsole then [] else PlainLines(cfg, s.delivered))
    && (cfg.mostRecentStackEventId.None? ==> s.foundMostRecentStackEvent)
    && (!s.foundMostRecentStackEvent ==> s.delivered == [])
  }

  /** Passing one unseen event to `UpdateEvent` and marking it seen keeps the summaries in step. */
  lemma UpdateEventKeepsSummaries(cfg: TrackConfig, s: Session, evt: StackEvent)
    requires SummaryInv(cfg, s) && s.foundMostRecentStackEvent
    requires evt.eventId !in s.seenEventIds
    ensures SummaryInv(cfg, UpdateEvent(cfg, s, evt).(seenEventIds := s.seenEventIds + {evt.eventId}))
  {
    var d := s.delivered;
    var d' := d + [evt];
    AppendDelivered(cfg, d, evt);
    forall i, j | 0 <= i < j < |d'| ensures d'[i].eventId != d'[j].eventId {
      if j == |d| { assert d[i].eventId in EventIds(d); } else { assert d'[i] == d[i] && d'[j] == d[j]; }
    }
  }

  /** Passing one unseen event to `UpdateEvent` keeps the delivery invariant, whether or not it ends tracking. */
  lemma UpdateEventKeepsInv(cfg: TrackConfig, s: Session, evt: StackEvent)
    requires DeliveryInv(cfg, s) && s.active && s.foundMostRecentStackEvent
    requires evt.eventId !in s.seenEventIds
    ensures var next := UpdateEvent(cfg, s, evt).(seenEventIds := s.seenEventIds + {evt.eventId});
      EndsTracking(cfg, evt) ==>
        DeliveryInv(cfg, next.(active := false, success := IsSuccessfulFinalStackEvent(evt)))
    ensures var next := UpdateEvent(cfg, s, evt).(seenEventIds := s.seenEventIds + {evt.eventId});
      !EndsTracking(cfg, evt) ==> DeliveryInv(cfg, next)
  {
    assert SummaryInv(cfg, s);
    UpdateEventKeepsSummaries(cfg, s, evt);
    var d := s.delivered;
    var d' := d + [evt];
    assert UpdateEvent(cfg, s, evt).delivered == d';
    forall i | 0 <= i < |d'| - 1 ensures !EndsTracking(cfg, d'[i]) {
      assert d'[i] == d[i];
      if i == |d| - 1 { assert d[i] == Last(d); }
    }
    assert Last(d') == evt;
  }

  /** A whole batch keeps the delivery invariant. */
  lemma {:induction false} DeliverKeepsInv(cfg: TrackConfig, s: Session, events: seq<StackEvent>)
    requires DeliveryInv(cfg, s) && s.active && s.foundMostRecentStackEvent
    ensures DeliveryInv(cfg, Deliver(cfg, s, events))
    decreases |events|
  {
    if events != [] {
      var evt := events[0];
      if evt.eventId in s.seenEventIds {
        DeliverKeepsInv(cfg, s, events[1..]);
      } else {
        UpdateEventKeepsInv(cfg, s, evt);
        var next := UpdateEvent(cfg, s, evt).(seenEventIds := s.seenEventIds + {evt.eventId});
        if EndsTracking(cfg, evt) {
          DeliverStopsAt(cfg, s, events);
        } else {
          DeliverContinuesPast(cfg, s, events);
          DeliverKeepsInv(cfg, next, events[1..]);
        }
      }
    }
  }

  /** Every tick of an active session keeps the invariant, whatever the fetch gave back. */
  lemma TickKeepsInv(cfg: TrackConfig, s: Session, fetch: Fetch)
    requires Inv(cfg, s) && s.active
    ensures Inv(cfg, Tick(cfg, s, fetch).1)
  {
    if fetch.Page? {
      var skipped := SkipToResume(Reverse(fetch.events), cfg.mostRecentStackEventId,
                                  s.seenEventIds, s.foundMostRecentStackEvent);
      var afterSkip := s.(seenEventIds := skipped.1, foundMostRecentStackEvent := skipped.2);
      assert Inv(cfg, afterSkip);
      if skipped.2 {
        DeliverKeepsInv(cfg, afterSkip, skipped.0);
        var delivered := Deliver(cfg, afterSkip, skipped.0);
        assert Tick(cfg, s, fetch).1 == RenderEvents(cfg, delivered);
      }
    }
  }

  /** The whole loop keeps the invariant. */
  lemma {:induction false} RunKeepsInv(cfg: TrackConfig, s: Session, fetches: seq<Fetch>)
    requires Inv(cfg, s)
    ensures Inv(cfg, Run(cfg, s, fetches).1)
    decreases |fetches|
  {
    if s.active && fetches != [] {
      TickKeepsInv(cfg, s, fetches[0]);
      var (outcome, next) := Tick(cfg, s, fetches[0]);
      if !outcome.Fatal? {
        RunKeepsInv(cfg, next, fetches[1..]);
      }
    }
  }

  /**
   * Over any sequence of fetch outcomes, from the start of a tracking call: no event id is
   * passed to `UpdateEvent` twice and every one passed is in the seen-set; the error sink
   * has heard exactly the reportable failures among them; on an ANSI console the view holds
   * one row per resource, drawn with as many lines as rows; in plain mode one line per event
   * was written; and a completed run ended on the first final event of the stack itself,
   * with success exactly when that event is a successful one.
   */
  lemma TrackingGuarantees(cfg: TrackConfig, fetches: seq<Fetch>)
    ensures var (result, s) := Run(cfg, Initial(cfg), fetches);
      EventIdsDistinct(s.delivered)
      && EventIds(s.delivered) <= s.seenEventIds
      && s.errors == ReportedErrors(cfg, s.delivered)
      && (cfg.view.useAnsiConsole ==>
            s.eventList == Collapse(s.delivered) && s.ansiLinesPrinted == |s.eventList|
            && s.screen == RenderRows(cfg.view, s.eventList))
      && (!cfg.view.useAnsiConsole ==> s.transcript == PlainLines(cfg, s.delivered))
      && (forall i :: 0 <= i < |s.delivered| - 1 ==> !EndsTracking(cfg, s.delivered[i]))
      && (result.Completed? ==>
            s.delivered != [] && EndsTracking(cfg, Last(s.delivered))
            && result.success == IsSuccessfulFinalStackEvent(Last(s.delivered)))
      && (result.Pending? ==> forall i :: 0 <= i < |s.delivered| ==> !EndsTracking(cfg, s.delivered[i]))
  {
    InitialInv(cfg);
    RunKeepsInv(cfg, Initial(cfg), fetches);
    var (result, s) := Run(cfg, Initial(cfg), fetches);
    if result.Pending? && s.delivered != [] {
      assert s.delivered[|s.delivered| - 1] == Last(s.delivered);
    }
  }

  /** The reportable failures among `events`, in delivery order, read from the front. */
  function ReportableFailures(events: seq<StackEvent>): (r: seq<StackEvent>)
    ensures |r| <= |events|
    ensures forall x :: x in r ==> x in events && IsReportableFailure(x)
    ensures forall i :: 0 <= i < |events| && IsReportableFailure(events[i]) ==> events[i] in r
  {
    if events == [] then []
    else (if IsReportableFailure(events[0]) then [events[0]] else []) + ReportableFailures(events[1..])
  }

  /** Filtering an extended sequence extends the filtered one by the new event's contribution. */
  lemma {:induction false} ReportableFailuresAppend(events: seq<StackEvent>, evt: StackEvent)
    ensures ReportableFailures(events + [evt]) ==
      ReportableFailures(events) + (if IsReportableFailure(evt) then [evt] else [])
    decreases |events|
  {
    var all := events + [evt];
    if events == [] {
      assert all == [evt] && all[1..] == [];
    } else {
      var head := if IsReportableFailure(events[0]) then [events[0]] else [];
      var tail := events[1..];
      assert all[0] == events[0] && all[1..] == tail + [evt];
      assert ReportableFailures(all) == head + ReportableFailures(tail + [evt]);
      assert ReportableFailures(events) == head + ReportableFailures(tail);
      ReportableFailuresAppend(tail, evt);
      SeqAppendAssoc(head, ReportableFailures(tail), if IsReportableFailure(evt) then [evt] else []);
    }
  }

  /**
   * With an error sink, the `j`th message is the message for the `j`th reportable failure
   * delivered: one message per reportable failure, in order.
   */
  lemma {:induction false} ReportedErrorsMatchFailures(cfg: TrackConfig, events: seq<StackEvent>)
    requires cfg.view.hasErrorSink
    ensures |ReportedErrors(cfg, events)| == |ReportableFailures(events)|
    ensures forall j :: 0 <= j < |ReportedErrors(cfg, events)| ==>
      ReportedErrors(cfg, events)[j] == ErrorMessage(cfg.view, ReportableFailures(events)[j])
    decreases |events|
  {
    if events != [] {
      var init := events[..|events| - 1];
      var evt := events[|events| - 1];
      assert events == init + [evt];
      ReportedErrorsMatchFailures(cfg, init);
      ReportableFailuresAppend(init, evt);
    }
  }

  /** The error sink hears one message per reportable failure delivered, and nothing else. */
  lemma {:induction false} ReportedErrorsAreReportableFailures(cfg: TrackConfig, events: seq<StackEvent>)
    ensures !cfg.view.hasErrorSink ==> ReportedErrors(cfg, events) == []
    ensures forall m :: m in ReportedErrors(cfg, events) ==>
      exists i :: 0 <= i < |events| && IsReportableFailure(events[i]) && m == ErrorMessage(cfg.view, events[i])
    ensures cfg.view.hasErrorSink ==> forall i :: 0 <= i < |events| && IsReportableFailure(events[i]) ==>
      ErrorMessage(cfg.view, events[i]) in ReportedErrors(cfg, events)
    ensures |ReportedErrors(cfg, events)| <= |events|
    ensures cfg.view.hasErrorSink ==> |ReportedErrors(cfg, events)| == |ReportableFailures(events)|
  {
    if cfg.view.hasErrorSink {
      ReportedErrorsMatchFailures(cfg, events);
    }
    if events != [] {
      var init := events[..|events| - 1];
      var evt := events[|events| - 1];
      ReportedErrorsAreReportableFailures(cfg, init);
      assert forall i :: 0 <= i < |init| ==> init[i] == events[i];
      forall m | m in ReportedErrors(cfg, events) ensures
        exists i :: 0 <= i < |events| && IsReportableFailure(events[i]) && m == ErrorMessage(cfg.view, events[i])
      {
        if m !in ReportedErrors(cfg, init) {
          assert IsReportableFailure(events[|events| - 1]) && m == ErrorMessage(cfg.view, events[|events| - 1]);
        }
      }
    }
  }
}
