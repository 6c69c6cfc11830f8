/**
 * The tracking call as the source writes it: the locals of `TrackStackUpdateAsync` that its
 * local functions and its `while(active)` loop update become the fields of one object, the
 * local functions `UpdateEvent` and `RenderEvents` and one pass of the loop body become its
 * methods, and each method is proved to move the object's state exactly as the value-level
 * model in `StackSession` says, while keeping the session invariant of `StackInvariant`.
 */
module StackTracker {
  import opened Wrappers
  import opened StackEvents
  import opened StackRender
  import opened StackSession
  import opened StackInvariant

  class StackUpdateTracker {
    const cfg: TrackConfig
    var seenEventIds: set<string>
    var foundMostRecentStackEvent: bool
    var eventList: seq<StackEvent>
    var active: bool
    var success: bool
    var ansiLinesPrinted: nat
    /** The block of lines last drawn on an ANSI console. */
    var screen: seq<string>
    /** The lines written in plain mode. */
    var transcript: seq<string>
    /** The messages passed to the error sink. */
    var errors: seq<string>
    /** Every event passed to `UpdateEvent`, in order. */
    ghost var delivered: seq<StackEvent>

    ghost function State(): Session
      reads this
    {
      Session(seenEventIds, foundMostRecentStackEvent, eventList, active, success,
              ansiLinesPrinted, screen, transcript, errors, delivered)
    }

    ghost predicate Valid()
      reads this
    {
      Inv(cfg, State())
    }

    /** The locals as the tracking call initialises them. */
    constructor(cfg: TrackConfig)
      ensures this.cfg == cfg && State() == Initial(cfg) && Valid()
    {
      this.cfg := cfg;
      seenEventIds := {};
      foundMostRecentStackEvent := cfg.mostRecentStackEventId.None?;
      eventList := [];
      active := true;
      success := false;
      ansiLinesPrinted := 0;
      screen := [];
      transcript := [];
      errors := [];
      delivered := [];
      new;
      InitialInv(cfg);
    }

    /** The local function `UpdateEvent`. */
    method UpdateEvent(evt: StackEvent)
      modifies this
      ensures State() == StackSession.UpdateEvent(cfg, old(State()), evt)
    {
      if cfg.view.useAnsiConsole {
        var index := FindIndex(eventList, evt.logicalResourceId);
        if index < 0 {
          eventList := eventList + [evt];
        } else {
          eventList := eventList[index := evt];
        }
      } else {
        transcript := transcript + [PlainLine(cfg.view, evt)];
      }
      if evt.resourceStatus in FailedStates && evt.resourceStatusReason != Some(CancelledReason) {
        if cfg.view.hasErrorSink {
          errors := errors + [ErrorMessage(cfg.view, evt)];
        }
      }
      delivered := delivered + [evt];
    }

    /** The local function `RenderEvents`: on an ANSI console, draw one line per row and remember how many. */
    method RenderEvents()
      modifies this
      ensures State() == StackSession.RenderEvents(cfg, old(State()))
    {
      if cfg.view.useAnsiConsole {
        screen := DrawRows(cfg.view, eventList);
        ansiLinesPrinted := |eventList|;
      }
    }

    /**
     * The skip loop: drop the oldest remaining event and mark it seen until the resume event
     * has been dropped or the page is exhausted; the rest of the page is returned.
     */
    method SkipPrecedingEvents(events: seq<StackEvent>) returns (rest: seq<StackEvent>)
      modifies this
      ensures (rest, seenEventIds, foundMostRecentStackEvent)
        == SkipToResume(events, cfg.mostRecentStackEventId, old(seenEventIds), old(foundMostRecentStackEvent))
      ensures State() == old(State()).(seenEventIds := seenEventIds, foundMostRecentStackEvent := foundMostRecentStackEvent)
    {
      rest := events;
      while !foundMostRecentStackEvent && |rest| > 0
        invariant SkipToResume(rest, cfg.mostRecentStackEventId, seenEventIds, foundMostRecentStackEvent)
          == SkipToResume(events, cfg.mostRecentStackEventId, old(seenEventIds), old(foundMostRecentStackEvent))
        invariant State() == old(State()).(seenEventIds := seenEventIds, foundMostRecentStackEvent := foundMostRecentStackEvent)
        decreases |rest|
      {
        var evt := rest[0];
        if Some(evt.eventId) == cfg.mostRecentStackEventId {
          foundMostRecentStackEvent := true;
        }
        seenEventIds := seenEventIds + {evt.eventId};
        rest := rest[1..];
      }
    }

    /**
     * The `foreach` over the unseen events of the page: each is passed to `UpdateEvent` and
     * marked seen, and the first that ends tracking clears `active`, sets `success` and stops.
     */
    method ReportNewEvents(events: seq<StackEvent>)
      modifies this
      ensures State() == Deliver(cfg, old(State()), events)
    {
      var i := 0;
      while i < |events|
        invariant 0 <= i <= |events|
        invariant Deliver(cfg, State(), events[i..]) == Deliver(cfg, old(State()), events)
      {
        var evt := events[i];
        if evt.eventId !in seenEventIds {
          ghost var before := State();
          UpdateEvent(evt);
          // `UpdateEvent` leaves the seen-set alone, so the `HashSet.Add` that follows
          // always adds and the early `break` guarded by its result is never taken
          assert evt.eventId !in seenEventIds;
          seenEventIds := seenEventIds + {evt.eventId};
          if IsFinalStackEvent(evt) && evt.logicalResourceId == cfg.stackName {
            active := false;
            success := IsSuccessfulFinalStackEvent(evt);
            DeliverStopsAt(cfg, before, events[i..]);
            return;
          }
          DeliverContinuesPast(cfg, before, events[i..]);
        }
        i := i + 1;
      }
    }

    /**
     * One pass of the `while(active)` body, given what the fetch of the first page of events
     * gave back: its state change is the model's `Tick`, and it keeps the session invariant.
     */
    method Tick(fetch: Fetch) returns (outcome: TickOutcome)
      requires Valid() && active
      modifies this
      ensures (outcome, State()) == StackSession.Tick(cfg, old(State()), fetch)
      ensures Valid()
    {
      TickKeepsInv(cfg, State(), fetch);
      match fetch {
        case NoSuchHost =>
          return Retried;
        case Failed(message) =>
          return Fatal(message);
        case Page(page) =>
          var events := Reverse(page);
          events := SkipPrecedingEvents(events);
          if !foundMostRecentStackEvent {
            return Fatal("unable to find starting event for stack: " + cfg.stackName);
          }
          ReportNewEvents(events);
          RenderEvents();
          return Processed;
      }
    }

    /** The `while(active)` loop, one fetch outcome per pass; `Pending` when the outcomes run out first. */
    method Track(fetches: seq<Fetch>) returns (result: TrackResult)
      requires Valid()
      modifies this
      ensures (result, State()) == Run(cfg, old(State()), fetches)
      ensures Valid()
    {
      var k := 0;
      while active
        invariant 0 <= k <= |fetches|
        invariant Valid()
        invariant Run(cfg, State(), fetches[k..]) == Run(cfg, old(State()), fetches)
        decreases |fetches| - k
      {
        if k == |fetches| {
          return Pending;
        }
        var outcome := Tick(fetches[k]);
        if outcome.Fatal? {
          return Aborted(outcome.message);
        }
        k := k + 1;
      }
      return Completed(success);
    }
  }

  /**
   * A whole tracking call over the given fetch outcomes: it ends as the model's `Run` from
   * the initial session, and a completed call reports success exactly when the final event
   * of the stack that ended it is a successful one.
   */
  method TrackStackUpdate(cfg: TrackConfig, fetches: seq<Fetch>) returns (result: TrackResult)
    ensures result == Run(cfg, Initial(cfg), fetches).0
    ensures result.Completed? ==>
      var s := Run(cfg, Initial(cfg), fetches).1;
      s.delivered != [] && EndsTracking(cfg, Last(s.delivered))
      && result.success == IsSuccessfulFinalStackEvent(Last(s.delivered))
  {
    var tracker := new StackUpdateTracker(cfg);
    result := tracker.Track(fetches);
    TrackingGuarantees(cfg, fetches);
    ghost var r := Run(cfg, Initial(cfg), fetches);
    assert result == r.0;
  }
}
