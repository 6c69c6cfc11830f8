/**
 * Stack events as the stack-update tracker sees them, the classifiers that decide
 * whether an event ends an operation, the name translation used when displaying
 * an event, and the resolver that finds where a new operation's events begin.
 */
module StackEvents {
  import opened Wrappers

  /** One record of a stack's event feed; identity is `eventId`. */
  datatype StackEvent = StackEvent(
    eventId: string,
    logicalResourceId: string,
    resourceType: string,
    resourceStatus: string,
    resourceStatusReason: Option<string>)

  /** The resource type of the aggregate stack itself, as opposed to its member resources. */
  const StackResourceType: string := "AWS::CloudFormation::Stack"

  /** The nine statuses after which a stack stops changing. */
  const FinalStates: set<string> := {
    "CREATE_COMPLETE",
    "CREATE_FAILED",
    "DELETE_COMPLETE",
    "DELETE_FAILED",
    "ROLLBACK_COMPLETE",
    "ROLLBACK_FAILED",
    "UPDATE_COMPLETE",
    "UPDATE_ROLLBACK_COMPLETE",
    "UPDATE_ROLLBACK_FAILED"
  }

  /** The five statuses whose events are reported to the error sink. */
  const FailedStates: set<string> := {
    "CREATE_FAILED",
    "ROLLBACK_FAILED",
    "UPDATE_FAILED",
    "DELETE_FAILED",
    "UPDATE_ROLLBACK_FAILED"
  }

  /** The reason given to resources cancelled because a sibling failed; such failures are noise. */
  const CancelledReason: string := "Resource creation cancelled"

  /** The statuses that have an entry in the colour table of the live view (the colours are not modelled). */
  const StyledStates: set<string> := {
    "CREATE_IN_PROGRESS", "CREATE_FAILED", "CREATE_COMPLETE",
    "ROLLBACK_IN_PROGRESS", "ROLLBACK_FAILED", "ROLLBACK_COMPLETE",
    "DELETE_IN_PROGRESS", "DELETE_FAILED", "DELETE_COMPLETE",
    "UPDATE_IN_PROGRESS", "UPDATE_FAILED", "UPDATE_COMPLETE_CLEANUP_IN_PROGRESS", "UPDATE_COMPLETE",
    "UPDATE_ROLLBACK_IN_PROGRESS", "UPDATE_ROLLBACK_FAILED",
    "UPDATE_ROLLBACK_COMPLETE_CLEANUP_IN_PROGRESS", "UPDATE_ROLLBACK_COMPLETE",
    "REVIEW_IN_PROGRESS"
  }

  predicate IsFinalStackEvent(evt: StackEvent) {
    evt.resourceType == StackResourceType && evt.resourceStatus in FinalStates
  }

  predicate IsSuccessfulFinalStackEvent(evt: StackEvent) {
    evt.resourceType == StackResourceType
    && (evt.resourceStatus == "CREATE_COMPLETE" || evt.resourceStatus == "UPDATE_COMPLETE")
  }

  /** An event that `UpdateEvent` passes to the error sink (when one is attached). */
  predicate IsReportableFailure(evt: StackEvent) {
    evt.resourceStatus in FailedStates && evt.resourceStatusReason != Some(CancelledReason)
  }

  /**
   * The classifiers agree with each other: a successful event is final, a final event
   * that is not successful ended in one of the seven other final statuses, and an event of
   * a member resource is never final, whatever its status.
   */
  lemma ClassifiersAgree(evt: StackEvent)
    ensures IsSuccessfulFinalStackEvent(evt) ==> IsFinalStackEvent(evt)
    ensures IsFinalStackEvent(evt) && !IsSuccessfulFinalStackEvent(evt) ==>
      evt.resourceStatus in FinalStates - {"CREATE_COMPLETE", "UPDATE_COMPLETE"}
    ensures evt.resourceType != StackResourceType ==>
      !IsFinalStackEvent(evt) && !IsSuccessfulFinalStackEvent(evt)
  {
  }

  /**
   * The name shown for a logical id or a resource type: the mapped name when the optional
   * mapping has a non-null entry for it, the name itself otherwise (a missing mapping, a
   * missing key and a null entry all fall back).
   */
  function TranslateToFullName(mappings: Option<map<string, Option<string>>>, name: string): (fullName: string)
    ensures fullName == name || (mappings.Some? && name in mappings.value && mappings.value[name] == Some(fullName))
    ensures mappings.Some? && name in mappings.value && mappings.value[name].Some? ==>
      fullName == mappings.value[name].value
  {
    match mappings
    case None => name
    case Some(m) =>
      if name in m then
        match m[name]
        case Some(mapped) => mapped
        case None => name
      else name
  }

  /** What the event service answers when asked for the most recent events of a stack. */
  datatype DescribeEventsResponse =
    | Events(events: seq<StackEvent>)   // newest first
    | ServiceException                  // raised, among others, when the stack does not exist

  /**
   * The resume point: the id of the newest event when that event is final; no resume point
   * when the service raises its exception (the stack does not exist yet); an error when the
   * stack is in the middle of an operation, or when the page is empty (`First()` of an empty list).
   */
  function GetMostRecentStackEventId(response: DescribeEventsResponse): (r: Result<Option<string>>)
    ensures response.ServiceException? ==> r == Ok(None)
    ensures response.Events? && response.events == [] ==> r.Err?
    ensures response.Events? && response.events != [] ==>
      (r.Ok? <==> IsFinalStackEvent(response.events[0]))
    ensures response.Events? && response.events != [] && IsFinalStackEvent(response.events[0]) ==>
      r == Ok(Some(response.events[0].eventId))
    ensures r.Ok? && r.value.Some? ==>
      response.Events? && response.events != [] && r.value.value == response.events[0].eventId
      && IsFinalStackEvent(response.events[0])
  {
    match response
    case ServiceException => Ok(None)
    case Events(events) =>
      if events == [] then Err("Sequence contains no elements")
      else if !IsFinalStackEvent(events[0]) then Err("stack appears to be undergoing an update operation")
      else Ok(Some(events[0].eventId))
  }
}
