/**
 * Where a tracking call starts and when it ends: the first tick skips everything up to
 * and including the resume event, a resume event missing from the first page is fatal,
 * a resolved resume point composes with the first tick, a transient fetch failure is
 * invisible, and exactly the nine final statuses of the stack itself stop the loop.
 */
module StackBoundary {
  import opened Wrappers
  import opened StackEvents
  import opened StackRender
  import opened StackSession
  import opened StackInvariant

  /** Events with distinct ids, none of them seen, are all fresh. */
  lemma {:induction false} FreshOfUnseen(seen: set<string>, events: seq<StackEvent>)
    requires EventIdsDistinct(events) && EventIds(events) !! seen
    ensures Fresh(seen, events) == events
    decreases |events|
  {
    if events != [] {
      var evt := events[0];
      var rest := events[1..];
      assert events == [evt] + rest;
      EventIdsCons(evt, rest);
      assert evt.eventId !in EventIds(rest) by {
        forall j | 0 <= j < |rest| ensures rest[j].eventId != evt.eventId {
          assert rest[j] == events[j + 1];
        }
      }
      assert EventIdsDistinct(rest) by {
        forall i, j | 0 <= i < j < |rest| ensures rest[i].eventId != rest[j].eventId {
          assert rest[i] == events[i + 1] && rest[j] == events[j + 1];
        }
      }
      FreshOfUnseen(seen + {evt.eventId}, rest);
    }
  }

  /** The events older than position `k` of a newest-first page, oldest first, are the tail of its reversal. */
  lemma ReverseTail(page: seq<StackEvent>, k: nat)
    requires k < |page|
    ensures Reverse(page)[|page| - k..] == Reverse(page[..k])
    ensures Reverse(page)[..|page| - k] == Reverse(page[k..])
  {
    var n := |page|;
    var r := Reverse(page);
    var older := Reverse(page[..k]);
    var newer := Reverse(page[k..]);
    forall i | 0 <= i < k ensures r[n - k..][i] == older[i] {
      assert r[n - k..][i] == r[n - k + i] == page[k - 1 - i];
      assert older[i] == page[..k][k - 1 - i];
    }
    forall i | 0 <= i < n - k ensures r[..n - k][i] == newer[i] {
      assert r[..n - k][i] == r[i] == page[n - 1 - i];
      assert newer[i] == page[k..][n - k - 1 - i];
    }
  }

  lemma EventIdsOfReverse(events: seq<StackEvent>)
    ensures EventIds(Reverse(events)) == EventIds(events)
  {
    var r := Reverse(events);
    forall id | id in EventIds(r) ensures id in EventIds(events) {
      var i :| 0 <= i < |r| && r[i].eventId == id;
      assert events[|events| - 1 - i].eventId == id;
    }
    forall id | id in EventIds(events) ensures id in EventIds(r) {
      var i :| 0 <= i < |events| && events[i].eventId == id;
      assert r[|events| - 1 - i].eventId == id;
    }
  }

  /**
   * Boundary correctness: when the resume event sits at position `k` of the first page
   * (newest first, ids distinct), the first tick marks it and everything older seen without
   * reporting them, and delivers exactly the `k` newer events, oldest first, up to the first
   * that ends tracking.
   */
  lemma FirstTickDeliversEventsAfterResumePoint(cfg: TrackConfig, page: seq<StackEvent>, k: nat)
    requires k < |page| && EventIdsDistinct(page)
    requires cfg.mostRecentStackEventId == Some(page[k].eventId)
    ensures var (outcome, s) := Tick(cfg, Initial(cfg), Page(page));
      outcome == Processed
      && s.delivered == TakeThroughStop(cfg, Reverse(page[..k]))
      && s.seenEventIds == EventIds(page[k..]) + EventIds(s.delivered)
  {
    var rest := Reverse(page[..k]);
    var seen1 := EventIds(page[k..]);
    SkipOnFirstPage(page, k);
    NewerEventsAreUnseen(page, k);
    var s0 := Initial(cfg);
    var afterSkip := s0.(seenEventIds := seen1, foundMostRecentStackEvent := true);
    FreshOfUnseen(seen1, rest);
    DeliverSelectsFreshEvents(cfg, afterSkip, rest);
    assert Tick(cfg, s0, Page(page)) == (Processed, RenderEvents(cfg, Deliver(cfg, afterSkip, rest)));
  }

  /** On the newest-first page, the skip drops the resume event and everything older, marking them seen. */
  lemma SkipOnFirstPage(page: seq<StackEvent>, k: nat)
    requires k < |page| && EventIdsDistinct(page)
    ensures SkipToResume(Reverse(page), Some(page[k].eventId), {}, false)
      == (Reverse(page[..k]), EventIds(page[k..]), true)
  {
    var id := page[k].eventId;
    var n := |page|;
    var rev := Reverse(page);
    var m := n - 1 - k;
    assert rev[m] == page[k];
    assert IndexOfEvent(rev, id) == m by {
      var i := IndexOfEvent(rev, id);
      assert 0 <= i <= m;
      assert rev[i] == page[n - 1 - i];
    }
    SkipDropsThroughResumeEvent(rev, id, {});
    ReverseTail(page, k);
    assert rev[m + 1..] == Reverse(page[..k]);
    assert rev[..m + 1] == Reverse(page[k..]);
    EventIdsOfReverse(page[k..]);
    assert {} + EventIds(rev[..m + 1]) == EventIds(page[k..]);
  }

  /** The events newer than the resume event have distinct ids, none of them among the ids skipped. */
  lemma NewerEventsAreUnseen(page: seq<StackEvent>, k: nat)
    requires k < |page| && EventIdsDistinct(page)
    ensures EventIdsDistinct(Reverse(page[..k])) && EventIds(Reverse(page[..k])) !! EventIds(page[k..])
  {
    var rest := Reverse(page[..k]);
    var seen1 := EventIds(page[k..]);
    forall i, j | 0 <= i < j < |rest| ensures rest[i].eventId != rest[j].eventId {
      assert rest[i] == page[k - 1 - i] && rest[j] == page[k - 1 - j];
    }
    forall x | x in EventIds(rest) ensures x !in seen1 {
      var i :| 0 <= i < |rest| && rest[i].eventId == x;
      assert rest[i] == page[k - 1 - i];
      forall j | 0 <= j < |page[k..]| ensures page[k..][j].eventId != x {
        assert page[k..][j] == page[k + j];
      }
    }
  }

  /** The first page of a tick that lacks the resume event aborts tracking. */
  lemma FirstTickWithoutResumeEventIsFatal(cfg: TrackConfig, page: seq<StackEvent>)
    requires cfg.mostRecentStackEventId.Some?
    requires forall j :: 0 <= j < |page| ==> page[j].eventId != cfg.mostRecentStackEventId.value
    ensures Tick(cfg, Initial(cfg), Page(page)).0 == Fatal("unable to find starting event for stack: " + cfg.stackName)
    ensures Run(cfg, Initial(cfg), [Page(page)]).0.Aborted?
  {
    var id := cfg.mostRecentStackEventId.value;
    var rev := Reverse(page);
    assert IndexOfEvent(rev, id) < 0;
    SkipDropsThroughResumeEvent(rev, id, {});
  }

  /** Without a resume id nothing is skipped: the first tick delivers the unseen events of the whole page, oldest first. */
  lemma FirstTickWithoutResumeIdSkipsNothing(cfg: TrackConfig, page: seq<StackEvent>)
    requires cfg.mostRecentStackEventId.None?
    ensures var (outcome, s) := Tick(cfg, Initial(cfg), Page(page));
      outcome == Processed && s.delivered == TakeThroughStop(cfg, Fresh({}, Reverse(page)))
  {
    DeliverSelectsFreshEvents(cfg, Initial(cfg), Reverse(page));
  }

  /**
   * The resume point found before the operation composes with the first tick after it: if
   * the resolver returned the id of the newest event of `older`, and the operation then
   * added `newer` in front of it, the first tick reports exactly `newer`, oldest first,
   * up to the first event that ends tracking, and nothing of `older`.
   */
  lemma ResolvedResumePointStartsAtNewEvents(cfg: TrackConfig, older: seq<StackEvent>, newer: seq<StackEvent>)
    requires GetMostRecentStackEventId(Events(older)).Ok?
    requires cfg.mostRecentStackEventId == GetMostRecentStackEventId(Events(older)).value
    requires EventIdsDistinct(newer + older)
    ensures var (outcome, s) := Tick(cfg, Initial(cfg), Page(newer + older));
      outcome == Processed && s.delivered == TakeThroughStop(cfg, Reverse(newer))
  {
    var page := newer + older;
    assert page[|newer|] == older[0];
    assert page[..|newer|] == newer;
    FirstTickDeliversEventsAfterResumePoint(cfg, page, |newer|);
  }

  /** A "No such host is known" failure changes nothing: the loop runs as if that fetch never happened. */
  lemma NoSuchHostIsRetried(cfg: TrackConfig, s: Session, fetches: seq<Fetch>)
    requires s.active
    ensures Run(cfg, s, [NoSuchHost] + fetches) == Run(cfg, s, fetches)
  {
    assert ([NoSuchHost] + fetches)[1..] == fetches;
  }

  /** Any other fetch failure ends tracking at once with that failure, the session left as it was. */
  lemma OtherFetchFailurePropagates(cfg: TrackConfig, s: Session, message: string, fetches: seq<Fetch>)
    requires s.active
    ensures Run(cfg, s, [Failed(message)] + fetches) == (Aborted(message), s)
  {
  }

  /** A tick on one unseen event delivers it, and stops tracking exactly when it ends tracking. */
  lemma SingleEventTick(cfg: TrackConfig, s: Session, evt: StackEvent)
    requires s.active && s.foundMostRecentStackEvent && evt.eventId !in s.seenEventIds
    ensures var r := Tick(cfg, s, Page([evt])).1;
      r.delivered == s.delivered + [evt]
      && (!r.active <==> EndsTracking(cfg, evt))
      && (!r.active ==> r.success == IsSuccessfulFinalStackEvent(evt))
  {
    assert Reverse([evt]) == [evt];
    if EndsTracking(cfg, evt) {
      DeliverStopsAt(cfg, s, [evt]);
    } else {
      DeliverContinuesPast(cfg, s, [evt]);
    }
  }

  /**
   * Terminal detection: for an unseen event of the tracked stack's own logical id, tracking
   * stops exactly when its type is the stack type and its status is one of the nine final
   * statuses, and then succeeds exactly for CREATE_COMPLETE and UPDATE_COMPLETE; the event
   * is delivered either way.
   */
  lemma TerminalDetection(cfg: TrackConfig, s: Session, evt: StackEvent)
    requires s.active && s.foundMostRecentStackEvent && evt.eventId !in s.seenEventIds
    requires evt.logicalResourceId == cfg.stackName
    ensures var r := Tick(cfg, s, Page([evt])).1;
      r.delivered == s.delivered + [evt]
      && (!r.active <==>
            evt.resourceType == "AWS::CloudFormation::Stack"
            && evt.resourceStatus in {"CREATE_COMPLETE", "CREATE_FAILED", "DELETE_COMPLETE", "DELETE_FAILED",
                                      "ROLLBACK_COMPLETE", "ROLLBACK_FAILED", "UPDATE_COMPLETE",
                                      "UPDATE_ROLLBACK_COMPLETE", "UPDATE_ROLLBACK_FAILED"})
      && (!r.active ==> (r.success <==> evt.resourceStatus == "CREATE_COMPLETE" || evt.resourceStatus == "UPDATE_COMPLETE"))
  {
    SingleEventTick(cfg, s, evt);
  }

  /** An event of any other logical id never stops tracking, whatever its type and status. */
  lemma OtherResourcesNeverStop(cfg: TrackConfig, s: Session, evt: StackEvent)
    requires s.active && s.foundMostRecentStackEvent
    requires evt.logicalResourceId != cfg.stackName
    ensures Tick(cfg, s, Page([evt])).1.active
  {
    assert Reverse([evt]) == [evt];
    if evt.eventId !in s.seenEventIds {
      DeliverContinuesPast(cfg, s, [evt]);
      assert ([evt])[1..] == [];
    } else {
      assert Deliver(cfg, s, [evt]) == Deliver(cfg, s, []);
    }
  }
}
