# LambdaSharp tool: stack-update tracking and input-parameter files

This project is a Dafny model of two parts of the LambdaSharp command-line tool, with proofs about them.

**The stack-update tracker** is `TrackStackUpdateAsync` with its local functions, in `AwsEx.cs`.
- It polls the CloudFormation event feed of a stack while an operation runs.
- It skips the events that came before a resume point.
- It hands each new event to `UpdateEvent` at most once. In ANSI mode `UpdateEvent` keeps a live view with one row per resource; in plain mode it writes one line per event. It also reports failed resources to an optional error sink.
- It stops at the first final event of the stack itself, with success for `CREATE_COMPLETE` and `UPDATE_COMPLETE`.

The same file also has:
- the resolver `GetMostRecentStackEventIdAsync`, which finds the resume point;
- `GetAllParametersByPathAsync`, which pages through the parameter store.

**The input-parameter reader** is `ParameterFileReader`. It reads a YAML inputs file and turns it into a string dictionary:
- `!GetParam` references are recorded by a custom node deserializer.
- The recorded keys are fetched from the parameter store in batches of ten. SecureString values are re-encrypted.
- A key the store lacks is reported, and the document is parsed again.
- Key aliases in `Secrets` are resolved to key ARNs.
- Each input becomes a string: a list is joined with ','. Every "::" is removed from the keys. An input that cannot be turned into a string is reported.

## How the model is built

The tracker:
- `StackSession` is the tracking call as a state machine over values. `Tick` is one pass of the `while(active)` body and `Run` is the loop.
- `StackTracker.StackUpdateTracker` is the same call written as the source writes it: the locals become fields, and the local functions and the loop body become methods. Each method is proved to change the fields exactly as `StackSession` says.
- `StackInvariant` proves the session invariant over any sequence of ticks.
- `StackBoundary` proves the boundary cases: the resume point, fetch failures, and terminal detection.
- `StackRender` holds the text of the live view, of the plain log and of the error messages.

The reader:
- `ParameterStore` holds the deserializer class and the batch resolution.
- `ParameterFile` holds the rest of `ReadYamlFile` and `ReadInputParametersFiles`.
- `Dictionaries`, `Strings` and `Paths` model the .NET library functions the reader depends on.

The environment becomes inputs:
- The services are modelled by their answers. A tracking call is given the sequence of fetch outcomes, one per tick. The parameter store is a map from name to (type, value). The key service is a map from alias to ARN.
- KMS encryption is a function parameter.
- The YAML document is given already parsed, as a tree whose `!GetParam` scalars are marked.

Points where the code's behaviour is easy to misread:
- The skip runs over the page after it is reversed to oldest first.
- A page without the resume event is fatal, and only the first page of events is ever read.
- The error sink hears exactly five fixed statuses, not every "_FAILED" status.
- The column widths are recomputed from the current rows at every redraw, so they can shrink.
- There is no cancellation signal.

## Model

| member | source | states |
|---|---|---|
| Dictionaries.Empty | src/LambdaSharp.Tool/Cli/ParameterFileReader.cs:204 | a new dictionary is well formed and has no keys |
| Dictionaries.Add | src/LambdaSharp.Tool/Cli/ParameterFileReader.cs:209 | `Add` fails exactly when the key is already present; otherwise the key goes last with its value and every other key keeps its value |
| Dictionaries.Put | src/LambdaSharp.Tool/Cli/ParameterFileReader.cs:146-150 | the `Dictionary` indexer; its effect on values, presence and order is stated by PutKeepsOrder |
| Dictionaries.PutKeepsOrder | src/LambdaSharp.Tool/Cli/ParameterFileReader.cs:146-150 | the indexer keeps the dictionary well formed and gives the key its new value; no other key's presence or value changes; an existing key keeps its position and a new key goes last |
| StackEvents.ClassifiersAgree | src/LambdaSharp.Tool/Internal/AwsEx.cs:262-267 | a successful final event is final; a final event that is not successful has one of the seven other final statuses; an event of any type but the stack type is never final |
| StackEvents.IsFinalStackEvent | src/LambdaSharp.Tool/Internal/AwsEx.cs:262-263 | `IsFinalStackEvent`: an event of the stack itself in one of the nine final statuses; the statuses are listed by StackBoundary.TerminalDetection |
| StackEvents.IsSuccessfulFinalStackEvent | src/LambdaSharp.Tool/Internal/AwsEx.cs:265-267 | `IsSuccessfulFinalStackEvent`: an event of the stack itself in `CREATE_COMPLETE` or `UPDATE_COMPLETE`; ClassifiersAgree relates it to IsFinalStackEvent |
| StackEvents.TranslateToFullName | src/LambdaSharp.Tool/Internal/AwsEx.cs:184-194 | the result is the mapped name when the optional mapping has a non-null entry for the name, and otherwise the name itself (no mapping, missing key or null entry) |
| StackEvents.GetMostRecentStackEventId | src/LambdaSharp.Tool/Internal/AwsEx.cs:92-109 | the service exception gives no resume point; an empty page is an error; on a non-empty page the result is Ok exactly when the newest event is final, and then it is that event's id |
| StackRender.PadRight | src/LambdaSharp.Tool/Internal/AwsEx.cs:244 | padding keeps the text, fills up to the width with spaces, and never truncates |
| StackRender.MaxLength | src/LambdaSharp.Tool/Internal/AwsEx.cs:201-202 | the width is at least every length and equal to one of them, and 0 for no rows |
| StackRender.WidestFits | src/LambdaSharp.Tool/Internal/AwsEx.cs:201-216 | every row's status and type fit the computed widths, so the pad counts at lines 212 and 216 are never negative |
| StackRender.RenderRows | src/LambdaSharp.Tool/Internal/AwsEx.cs:196-233 | a redraw draws one line per row |
| StackRender.DrawRows | src/LambdaSharp.Tool/Internal/AwsEx.cs:203-230 | the drawing loop produces exactly the rendered block |
| StackRender.AnsiRowColumns | src/LambdaSharp.Tool/Internal/AwsEx.cs:206-219 | a coloured row starts with its status; its type starts at the status width plus 4 and its resource name at both widths plus 8 |
| StackRender.AnsiRow | src/LambdaSharp.Tool/Internal/AwsEx.cs:206-219 | one coloured line of the live view; its column offsets are stated by AnsiRowColumns |
| StackRender.RowColumns | src/LambdaSharp.Tool/Internal/AwsEx.cs:203-219 | with widths that every row fits, each coloured row has its type and name at the columns those widths give |
| StackRender.StyledColumnsAlign | src/LambdaSharp.Tool/Internal/AwsEx.cs:201-219 | the columns of the coloured rows in one redraw line up: type at the widest status plus 4, name at the widest status plus the widest type plus 8 |
| StackRender.PlainLineColumns | src/LambdaSharp.Tool/Internal/AwsEx.cs:244 | a plain line starts with the status; the type starts one column after the status padded to 35 |
| StackRender.PlainLine | src/LambdaSharp.Tool/Internal/AwsEx.cs:244 | the plain-mode line of an event; its layout is stated by PlainLineColumns |
| StackRender.ErrorMessage | src/LambdaSharp.Tool/Internal/AwsEx.cs:255 | the error-sink message of an event: status, full resource name, type in brackets, reason; ReportedErrorsAreReportableFailures ties the messages to the failures |
| StackSession.Initial | src/LambdaSharp.Tool/Internal/AwsEx.cs:119-129 | tracking starts active and not successful, with nothing seen or delivered |
| StackSession.UpdateEvent | src/LambdaSharp.Tool/Internal/AwsEx.cs:235-259 | `UpdateEvent` on the session; StackInvariant.UpdateEventKeepsInv and AppendDelivered state its effect on the view, the log and the sink |
| StackSession.RenderEvents | src/LambdaSharp.Tool/Internal/AwsEx.cs:196-233 | `RenderEvents` on the session: a redraw of the rows in ANSI mode, nothing in plain mode; the drawn block is stated by StackRender.RenderRows and StyledColumnsAlign |
| StackSession.FindIndex | src/LambdaSharp.Tool/Internal/AwsEx.cs:237 | the index of the first row with the logical id, or -1 exactly when no row has it |
| StackSession.UpsertKeepsOneRowPerResource | src/LambdaSharp.Tool/Internal/AwsEx.cs:236-242 | the update keeps one row per resource: the event's resource row is the event, every other row stays where it was, and at most one row is added |
| StackSession.CollapseIsLatestPerResource | src/LambdaSharp.Tool/Internal/AwsEx.cs:236-242 | after any events, the live view has exactly one row per resource that had an event, and that row is the resource's latest event |
| StackSession.CollapseKeepsFirstSeenOrder | src/LambdaSharp.Tool/Internal/AwsEx.cs:237-242 | later events never move or remove a row: the earlier rows' resources are a prefix of the later rows' |
| StackSession.SkipToResume | src/LambdaSharp.Tool/Internal/AwsEx.cs:146-153 | the skip only adds to the seen-set and does nothing once the resume event has been found |
| StackSession.Deliver | src/LambdaSharp.Tool/Internal/AwsEx.cs:159-173 | delivering a batch only adds to the seen-set and to the delivered events, and leaves the found flag and the drawn view alone |
| StackSession.Reverse | src/LambdaSharp.Tool/Internal/AwsEx.cs:143 | element i of the reversed page is element n-1-i of the page |
| StackSession.Tick | src/LambdaSharp.Tool/Internal/AwsEx.cs:130-174 | "No such host is known" is retried with nothing changed; another failure propagates with nothing changed; a page is processed exactly when the resume event has been found; the seen-set and the delivered events only grow |
| StackSession.Run | src/LambdaSharp.Tool/Internal/AwsEx.cs:130-175 | a completed loop is inactive with its success flag; a loop whose fetches ran out is still active; the seen-set and the delivered events only grow |
| StackSession.FreshIsUnseenOnce | src/LambdaSharp.Tool/Internal/AwsEx.cs:159 | the filtered events are exactly the unseen ids, each once, and all come from the page |
| StackSession.DeliverStopsAt | src/LambdaSharp.Tool/Internal/AwsEx.cs:166-172 | an unseen event that ends tracking is delivered, clears `active` and sets `success` from itself |
| StackSession.DeliverContinuesPast | src/LambdaSharp.Tool/Internal/AwsEx.cs:159-165 | an unseen event that does not end tracking is delivered, marked seen, and the batch goes on |
| StackSession.DeliverSelectsFreshEvents | src/LambdaSharp.Tool/Internal/AwsEx.cs:159-173 | a batch delivers exactly the unseen events of the page, each id once, through the first event that ends tracking; it marks exactly those seen and stops exactly when such an event is among them |
| StackSession.IndexOfEvent | src/LambdaSharp.Tool/Internal/AwsEx.cs:146-148 | the index of the first event with the id, or -1 exactly when there is none |
| StackSession.SkipDropsThroughResumeEvent | src/LambdaSharp.Tool/Internal/AwsEx.cs:146-156 | the skip drops and marks seen every event up to and including the resume event and sets the flag; without the resume event it drops the whole page and the flag stays false |
| StackInvariant.InitialInv | src/LambdaSharp.Tool/Internal/AwsEx.cs:119-129 | the initial session satisfies the session invariant |
| StackInvariant.AppendDelivered | src/LambdaSharp.Tool/Internal/AwsEx.cs:235-259 | one more delivered event adds exactly its error report, its row update, its plain line and its id |
| StackInvariant.UpdateEventKeepsInv | src/LambdaSharp.Tool/Internal/AwsEx.cs:235-259 | `UpdateEvent` on an unseen event keeps the delivery invariant, whether or not the event ends tracking |
| StackInvariant.DeliverKeepsInv | src/LambdaSharp.Tool/Internal/AwsEx.cs:159-173 | a whole batch keeps the delivery invariant |
| StackInvariant.TickKeepsInv | src/LambdaSharp.Tool/Internal/AwsEx.cs:130-174 | every tick of an active session keeps the invariant, whatever the fetch returned |
| StackInvariant.RunKeepsInv | src/LambdaSharp.Tool/Internal/AwsEx.cs:130-175 | the whole loop keeps the invariant |
| StackInvariant.TrackingGuarantees | src/LambdaSharp.Tool/Internal/AwsEx.cs:111-175 | from the start of a call and for any fetches: no id is delivered twice, and every delivered id is seen; the sink hears exactly the reportable failures; the ANSI view has one row per resource with its line count; plain mode writes one line per event; nothing before the last delivered event ends tracking; a completed call ended on an event that ends tracking, with success taken from it; a call still pending has delivered no such event |
| StackInvariant.ReportedErrorsAreReportableFailures | src/LambdaSharp.Tool/Internal/AwsEx.cs:247-258 | every message is the message of a reportable failure delivered; with a sink every reportable failure has its message and the message count equals the number of reportable failures; without a sink nothing is reported |
| StackInvariant.ReportableFailures | src/LambdaSharp.Tool/Internal/AwsEx.cs:247-258 | the reportable failures among the delivered events, in order: at most as many as the events, each one reportable and delivered, and every reportable delivered event among them |
| StackInvariant.ReportedErrorsMatchFailures | src/LambdaSharp.Tool/Internal/AwsEx.cs:247-258 | with an error sink, the `j`th message is the message of the `j`th reportable failure delivered, and there are as many messages as reportable failures |
| StackBoundary.SkipOnFirstPage | src/LambdaSharp.Tool/Internal/AwsEx.cs:143-153 | on a newest-first page whose event k is the resume event, the skip marks seen the resume event and everything older, and leaves the newer events oldest first |
| StackBoundary.NewerEventsAreUnseen | src/LambdaSharp.Tool/Internal/AwsEx.cs:143-153 | the events newer than the resume event have distinct ids, none of which were skipped |
| StackBoundary.FirstTickDeliversEventsAfterResumePoint | src/LambdaSharp.Tool/Internal/AwsEx.cs:143-173 | the first tick delivers exactly the events newer than the resume event, oldest first, through the first event that ends tracking, and marks seen the skipped events and those |
| StackBoundary.FirstTickWithoutResumeEventIsFatal | src/LambdaSharp.Tool/Internal/AwsEx.cs:154-156 | a first page without the resume event aborts tracking with "unable to find starting event" |
| StackBoundary.FirstTickWithoutResumeIdSkipsNothing | src/LambdaSharp.Tool/Internal/AwsEx.cs:120-173 | without a resume id, the first tick delivers the unseen events of the whole page, oldest first, through the first event that ends tracking |
| StackBoundary.ResolvedResumePointStartsAtNewEvents | src/LambdaSharp.Tool/Internal/AwsEx.cs:92-109 | the resolver's resume id and a later page with new events in front compose: the first tick delivers exactly the new events, oldest first, and nothing older |
| StackBoundary.NoSuchHostIsRetried | src/LambdaSharp.Tool/Internal/AwsEx.cs:135-142 | a "No such host is known" failure leaves the loop as if that fetch never happened |
| StackBoundary.OtherFetchFailurePropagates | src/LambdaSharp.Tool/Internal/AwsEx.cs:135-137 | any other fetch failure aborts tracking at once with that failure |
| StackBoundary.SingleEventTick | src/LambdaSharp.Tool/Internal/AwsEx.cs:159-173 | an unseen event is delivered, and tracking stops exactly when the event ends it, with success taken from the event |
| StackBoundary.TerminalDetection | src/LambdaSharp.Tool/Internal/AwsEx.cs:166-172 | for an event of the stack's own logical id, tracking stops exactly for the stack type with one of the nine final statuses, and succeeds exactly for CREATE_COMPLETE and UPDATE_COMPLETE |
| StackBoundary.OtherResourcesNeverStop | src/LambdaSharp.Tool/Internal/AwsEx.cs:166 | an event of another logical id never stops tracking |
| StackTracker.StackUpdateTracker.constructor | src/LambdaSharp.Tool/Internal/AwsEx.cs:119-129 | the fields start as the initial session, which satisfies the invariant |
| StackTracker.StackUpdateTracker.UpdateEvent | src/LambdaSharp.Tool/Internal/AwsEx.cs:235-259 | the method changes the fields exactly as the model's `UpdateEvent` |
| StackTracker.StackUpdateTracker.RenderEvents | src/LambdaSharp.Tool/Internal/AwsEx.cs:196-233 | on an ANSI console the view is redrawn and the line count set; in plain mode nothing changes |
| StackTracker.StackUpdateTracker.SkipPrecedingEvents | src/LambdaSharp.Tool/Internal/AwsEx.cs:146-153 | the skip loop returns the rest of the page and sets the seen-set and the flag as the model's skip; no other field changes |
| StackTracker.StackUpdateTracker.ReportNewEvents | src/LambdaSharp.Tool/Internal/AwsEx.cs:159-173 | the report loop changes the fields exactly as the model's batch delivery |
| StackTracker.StackUpdateTracker.Tick | src/LambdaSharp.Tool/Internal/AwsEx.cs:130-174 | one pass of the loop body returns the model's outcome, sets the model's next state, and keeps the invariant |
| StackTracker.StackUpdateTracker.Track | src/LambdaSharp.Tool/Internal/AwsEx.cs:130-175 | the loop returns the model's result, ends in the model's state, and keeps the invariant |
| StackTracker.TrackStackUpdate | src/LambdaSharp.Tool/Internal/AwsEx.cs:111-181 | a tracking call returns the model's result; a completed call succeeds exactly when the final event of the stack that ended it is a successful one |
| ParametersByPath.FinalPage | src/LambdaSharp.Tool/Internal/AwsEx.cs:82-88 | the index of the first response without a continuation token, or -1 when every response has one |
| ParametersByPath.AddParametersKeepsLastOccurrence | src/LambdaSharp.Tool/Internal/AwsEx.cs:84-86 | after adding parameters, a name is present exactly when it was before or occurs among them, and has its last occurrence's type and value |
| ParametersByPath.CollectReadsThroughFinalPage | src/LambdaSharp.Tool/Internal/AwsEx.cs:82-88 | the do/while reads the responses through the first one without a token, and adds all their parameters in order |
| ParametersByPath.Collect | src/LambdaSharp.Tool/Internal/AwsEx.cs:82-88 | the do/while over the modelled responses; its result is stated by CollectReadsThroughFinalPage and ResultIsLastOccurrence |
| ParametersByPath.ResultIsLastOccurrence | src/LambdaSharp.Tool/Internal/AwsEx.cs:75-90 | the result holds exactly the names on the pages read, each with its last occurrence's type and value |
| ParametersByPath.GetAllParametersByPath | src/LambdaSharp.Tool/Internal/AwsEx.cs:75-90 | the loop returns the collected parameters; it sends one request per response read, with path, 10 results, recursive, and each later request the previous token |
| Paths.ToLowerAscii | src/LambdaSharp.Tool/Cli/ParameterFileReader.cs:93 | lower-casing keeps the length, maps A-Z to a-z and keeps every other character |
| Paths.ExtensionDot | src/LambdaSharp.Tool/Cli/ParameterFileReader.cs:93 | the backward scan finds the last '.' after the last separator, or -1 when there is none |
| Paths.GetExtension | src/LambdaSharp.Tool/Cli/ParameterFileReader.cs:93 | the extension is "" or a suffix of the path that starts with its only '.' and holds no separator |
| Paths.SuffixExtension | src/LambdaSharp.Tool/Cli/ParameterFileReader.cs:93 | a path ending in a '.'-led suffix with no other '.' or separator has that suffix as its extension |
| Paths.YamlSuffixes | src/LambdaSharp.Tool/Cli/ParameterFileReader.cs:93-95 | a file ending in ".yml" or ".YAML" is read as YAML |
| Paths.JsonSuffix | src/LambdaSharp.Tool/Cli/ParameterFileReader.cs:104-106 | a file ending in ".json" is not read as YAML |
| Paths.InnerYamlSuffix | src/LambdaSharp.Tool/Cli/ParameterFileReader.cs:93-95 | only the last extension counts: "x.yml.txt" is not read as YAML |
| Strings.Split | src/LambdaSharp.Tool/Cli/ParameterFileReader.cs:173 | the split has at least one piece and no piece holds the separator |
| Strings.JoinSplit | src/LambdaSharp.Tool/Cli/ParameterFileReader.cs:173 | joining the pieces of a split with the separator gives the string back |
| Strings.Join | src/LambdaSharp.Tool/Cli/ParameterFileReader.cs:212 | `string.Join`: the parts with the separator between them; the round trips with Split are JoinSplit and SplitJoin |
| Strings.SplitJoin | src/LambdaSharp.Tool/Cli/ParameterFileReader.cs:212 | splitting a join of separator-free parts gives the parts back |
| Strings.Trim | src/LambdaSharp.Tool/Cli/ParameterFileReader.cs:173 | the result is a slice of the input with only white space outside it, and neither its first nor its last character is white space |
| Strings.TrimIdempotent | src/LambdaSharp.Tool/Cli/ParameterFileReader.cs:173 | trimming twice is trimming once |
| Strings.StripDoubleColons | src/LambdaSharp.Tool/Cli/ParameterFileReader.cs:206 | the replacement never lengthens a key and keeps a first character that is not ':' (the kept characters are stated by StripKeepsPlainKey and StripRemovesFirstDoubleColon) |
| Strings.StripLeavesNoDoubleColon | src/LambdaSharp.Tool/Cli/ParameterFileReader.cs:206 | no "::" survives the replacement, even where removing one brings two colons together |
| Strings.StripKeepsPlainKey | src/LambdaSharp.Tool/Cli/ParameterFileReader.cs:206 | a key without "::" is unchanged |
| Strings.StripRemovesFirstDoubleColon | src/LambdaSharp.Tool/Cli/ParameterFileReader.cs:206 | the first "::" is removed and the text before it kept; with StripKeepsPlainKey this fixes the replacement on every key |
| ParameterStore.Lookup | src/LambdaSharp.Tool/Cli/ParameterFileReader.cs:55-81 | the deserializer handles exactly the `!GetParam` scalars that read as strings; it gives a known key's value and leaves the dictionary alone; it records an unknown key as null and returns the key text; anything else it declines with null and no change |
| ParameterStore.LookupIsIdempotent | src/LambdaSharp.Tool/Cli/ParameterFileReader.cs:63-73 | asking again about a reference finds the key and changes nothing |
| ParameterStore.ParameterStoreFunctionNodeDeserializer.constructor | src/LambdaSharp.Tool/Cli/ParameterFileReader.cs:50-52 | the deserializer holds the given dictionary or a new empty one |
| ParameterStore.ParameterStoreFunctionNodeDeserializer.Deserialize | src/LambdaSharp.Tool/Cli/ParameterFileReader.cs:55-81 | a call returns and leaves behind exactly the lookup's handled flag, value and dictionary |
| ParameterStore.RecordedReferencesAreNull | src/LambdaSharp.Tool/Cli/ParameterFileReader.cs:114-120 | from empty, the first parse records every referenced key once, in order of first reference, each null |
| ParameterStore.RecordsSomething | src/LambdaSharp.Tool/Cli/ParameterFileReader.cs:123 | something is recorded exactly when the document has a reference |
| ParameterStore.Take | src/LambdaSharp.Tool/Cli/ParameterFileReader.cs:126 | a batch is the first min(10, n) keys |
| ParameterStore.BatchesPartitionKeys | src/LambdaSharp.Tool/Cli/ParameterFileReader.cs:124-127 | the batches concatenate back to the keys; each holds 1 to 10 keys and all but the last hold 10 |
| ParameterStore.GetParameters | src/LambdaSharp.Tool/Cli/ParameterFileReader.cs:130-133 | a response returns exactly the requested names that the store holds (plain names; selector names are under Left out) |
| ParameterStore.ApplyResponseOverwrites | src/LambdaSharp.Tool/Cli/ParameterFileReader.cs:136-152 | each returned key gets its store value, re-encrypted when the store holds it as SecureString; no other value changes and no key moves |
| ParameterStore.ApplyResponse | src/LambdaSharp.Tool/Cli/ParameterFileReader.cs:136-152 | the loop over one response's parameters; its effect is stated by ApplyResponseOverwrites |
| ParameterStore.ResolveBatchesOverwrites | src/LambdaSharp.Tool/Cli/ParameterFileReader.cs:126-153 | after the batch loop, each requested key the store holds has its store value; every other key is unchanged; no key is added, removed or moved (for plain names, as the response is modelled) |
| ParameterStore.ResolveBatches | src/LambdaSharp.Tool/Cli/ParameterFileReader.cs:126-153 | the batch loop over the requests; its effect is stated by ResolveBatchesOverwrites and ResolvingAllKeys |
| ParameterStore.ResolvingAllKeys | src/LambdaSharp.Tool/Cli/ParameterFileReader.cs:124-153 | resolving all recorded keys in batches gives each key the store holds its store value and leaves the rest as they were |
| ParameterStore.ResolutionOfReferences | src/LambdaSharp.Tool/Cli/ParameterFileReader.cs:114-153 | recording then resolving gives each referenced key, in order of first reference, its store value or null |
| ParameterStore.MissingKeys | src/LambdaSharp.Tool/Cli/ParameterFileReader.cs:156 | the keys selected are exactly those whose value is null |
| ParameterStore.MissingKeyErrors | src/LambdaSharp.Tool/Cli/ParameterFileReader.cs:156-158 | one message per null entry |
| ParameterStore.MissingKeysReportedOnce | src/LambdaSharp.Tool/Cli/ParameterFileReader.cs:156-158 | every key left null gets exactly one "unable to find" message; there is no other message, and no message is repeated |
| ParameterFile.ParseDocument | src/LambdaSharp.Tool/Cli/ParameterFileReader.cs:161-166 | parsing keeps the top-level keys in order and replaces each node's references with the dictionary's values |
| ParameterFile.Substitute | src/LambdaSharp.Tool/Cli/ParameterFileReader.cs:55-81 | the second parse of one node: a `!GetParam` scalar takes the dictionary's value; ResolvedDocument states that every reference is resolved |
| ParameterFile.ResolveInputs | src/LambdaSharp.Tool/Cli/ParameterFileReader.cs:114-167 | the parsed inputs are well formed and keep the document's key order |
| ParameterFile.ResolvedInputs | src/LambdaSharp.Tool/Cli/ParameterFileReader.cs:114-167 | the inputs are the document with each reference replaced by its store value or null; the requests name each referenced key once, in order, at most ten at a time |
| ParameterFile.ResolvedDocument | src/LambdaSharp.Tool/Cli/ParameterFileReader.cs:161-166 | the second parse sees every reference resolved to its store value or null |
| ParameterFile.RequestedBatches | src/LambdaSharp.Tool/Cli/ParameterFileReader.cs:124-133 | the batches requested are the referenced keys in order of first reference, 1 to 10 at a time, and none when there are no references |
| ParameterFile.UnresolvedReferencesReportedOnce | src/LambdaSharp.Tool/Cli/ParameterFileReader.cs:155-158 | every referenced key the store lacks gets exactly one "unable to find" message; there is no other message |
| ParameterFile.RecordDocumentReferences | src/LambdaSharp.Tool/Cli/ParameterFileReader.cs:115-120 | the first parse leaves the deserializer holding the recorded references |
| ParameterFile.ApplyParameters | src/LambdaSharp.Tool/Cli/ParameterFileReader.cs:136-152 | the per-response loop overwrites each returned key as the response model says |
| ParameterFile.FetchBatches | src/LambdaSharp.Tool/Cli/ParameterFileReader.cs:124-153 | the batch loop requests exactly the batches of the recorded keys and leaves the dictionary resolved by them |
| ParameterFile.ReportMissingKeys | src/LambdaSharp.Tool/Cli/ParameterFileReader.cs:156-158 | the loop logs exactly the missing-key messages, in key order |
| ParameterFile.ResolveDocument | src/LambdaSharp.Tool/Cli/ParameterFileReader.cs:114-167 | first parse, batch loop, report and second parse together give the resolved inputs, the messages and the requests |
| ParameterFile.ConvertAliasToKeyArn | src/LambdaSharp.Tool/Cli/ParameterFileReader.cs:179-200 | null stays null and an ARN is kept, with nothing logged; any other name is looked up as "alias/"+name, or as itself when it already starts with "alias/", and gives that alias's ARN exactly when the key service knows the alias; a failure logs the name given and returns null |
| ParameterFile.AliasFormsAgree | src/LambdaSharp.Tool/Cli/ParameterFileReader.cs:186-199 | a bare name and its "alias/" form resolve to the same key, and do so exactly when the key service knows the alias |
| ParameterFile.ConvertingTwiceIsConvertingOnce | src/LambdaSharp.Tool/Cli/ParameterFileReader.cs:179-185 | when every ARN the key service gives starts with "arn:", converting a converted key changes nothing and logs nothing |
| ParameterFile.ConvertAll | src/LambdaSharp.Tool/Cli/ParameterFileReader.cs:173-175 | the list keeps its length and each item is converted; the log is exactly one "failed to resolve key alias" message per item the key service cannot resolve, in item order, so nothing is logged exactly when every item resolves |
| ParameterFile.FailedAliases | src/LambdaSharp.Tool/Cli/ParameterFileReader.cs:173-175 | the names of the items whose conversion fails, in item order; at most one per item |
| ParameterFile.FailedAliasesAreUnresolved | src/LambdaSharp.Tool/Cli/ParameterFileReader.cs:179-200 | every failed name is an item that is not an ARN and whose alias the key service does not know, and every such item's name is among them |
| ParameterFile.TrimmedPieces | src/LambdaSharp.Tool/Cli/ParameterFileReader.cs:173 | one trimmed piece per ','-separated piece |
| ParameterFile.ConvertedNamesAreStrings | src/LambdaSharp.Tool/Cli/ParameterFileReader.cs:173-175 | converted names are all strings exactly when nothing was logged |
| ParameterFile.NormaliseSecrets | src/LambdaSharp.Tool/Cli/ParameterFileReader.cs:171-176 | a `Secrets` value that is neither a string nor a list stays as it is |
| ParameterFile.ApplySecrets | src/LambdaSharp.Tool/Cli/ParameterFileReader.cs:171-176 | only the `Secrets` value changes, in place, to its normalised form with that form's log; without `Secrets` nothing changes |
| ParameterFile.FinalValue | src/LambdaSharp.Tool/Cli/ParameterFileReader.cs:207-216 | an input has a final value exactly when it is a string, a list of strings, or an empty mapping; a string is kept as it is, a list of strings becomes its texts joined with ',', and an empty mapping becomes "" |
| ParameterFile.JoinedListSplitsBack | src/LambdaSharp.Tool/Cli/ParameterFileReader.cs:211-212 | a list of ','-free strings flattens to a value that splits back into that list; an empty list or mapping flattens to "" |
| ParameterFile.SecretsFromString | src/LambdaSharp.Tool/Cli/ParameterFileReader.cs:172-173 | a `Secrets` string gives one converted name per piece; it flattens exactly when nothing was logged; the log is one message per unresolved piece, in order |
| ParameterFile.SecretsFromList | src/LambdaSharp.Tool/Cli/ParameterFileReader.cs:174-175 | a `Secrets` list keeps its length; each string item is converted and each other item becomes null; the log is one message per unresolved string item, in order |
| ParameterFile.SecretsOfArnsAreKept | src/LambdaSharp.Tool/Cli/ParameterFileReader.cs:172-185 | a `Secrets` string listing ARNs, trimmed and ','-free, comes back unchanged with nothing logged |
| ParameterFile.BuildSucceedsWithoutCollision | src/LambdaSharp.Tool/Cli/ParameterFileReader.cs:204-218 | the final loop finishes without an exception exactly when no two valid inputs share a key once "::" is removed |
| ParameterFile.BuildFrom | src/LambdaSharp.Tool/Cli/ParameterFileReader.cs:204-218 | the final loop over the inputs; its outcome is stated by BuildSucceedsWithoutCollision, BuildContents and BuildLogsInvalidInputs |
| ParameterFile.BuildContents | src/LambdaSharp.Tool/Cli/ParameterFileReader.cs:204-218 | a finished loop keeps what it started with, holds every valid input under its "::"-free key with its flattened value, and nothing else |
| ParameterFile.BuildLogsInvalidInputs | src/LambdaSharp.Tool/Cli/ParameterFileReader.cs:214-216 | a finished loop has logged every invalid input and nothing else |
| ParameterFile.FinalDictionary | src/LambdaSharp.Tool/Cli/ParameterFileReader.cs:203-219 | building the final dictionary fails exactly on a key collision; otherwise it holds exactly the valid inputs under "::"-free keys with their flattened values, no key holds "::", and exactly the invalid inputs are logged |
| ParameterFile.FinalContents | src/LambdaSharp.Tool/Cli/ParameterFileReader.cs:205-213 | a successful build holds every valid input under its "::"-free key with its flattened value, and each of its keys is such a key, without "::" |
| ParameterFile.FinalLog | src/LambdaSharp.Tool/Cli/ParameterFileReader.cs:214-216 | a successful build logs every invalid input and nothing else |
| ParameterFile.BuildFinalDictionary | src/LambdaSharp.Tool/Cli/ParameterFileReader.cs:204-219 | the final loop gives the model's result and log |
| ParameterFile.ReadYamlFile | src/LambdaSharp.Tool/Cli/ParameterFileReader.cs:110-220 | the method gives the final dictionary or the exception, everything logged in order, and the batches requested |
| ParameterFile.ReadYaml | src/LambdaSharp.Tool/Cli/ParameterFileReader.cs:110-220 | `ReadYamlFile` as a function of the document, the store and the key service; ReadYamlFile equals it, and FinalDictionary, FinalContents and FinalLog state its outcome |
| ParameterFile.InputReferenceIsRecorded | src/LambdaSharp.Tool/Cli/ParameterFileReader.cs:115-120 | an input whose whole value is a reference has its key recorded |
| ParameterFile.ResolvedInputIsStoreValue | src/LambdaSharp.Tool/Cli/ParameterFileReader.cs:136-166 | an input whose value references a key the store holds has that key's store value after the second parse |
| ParameterFile.ReferencedInputGetsStoreValue | src/LambdaSharp.Tool/Cli/ParameterFileReader.cs:136-213 | such an input other than `Secrets` ends up in a successful final dictionary under its "::"-free key with the store value, re-encrypted when the store holds it as SecureString |
| ParameterFile.UnresolvedInputIsNull | src/LambdaSharp.Tool/Cli/ParameterFileReader.cs:156-166 | an input whose value references a key the store lacks is null after the second parse |
| ParameterFile.UnresolvedInputIsReported | src/LambdaSharp.Tool/Cli/ParameterFileReader.cs:155-216 | such an input gets an "unable to find" message and, when the build succeeds, an "invalid value" message |
| ParameterFile.ReadInputParametersFiles | src/LambdaSharp.Tool/Cli/ParameterFileReader.cs:88-108 | a missing file, a non-YAML extension and a YAML exception each log their own message and return null with no request; a document the parser reads as null (an empty file, only comments, `---` or `~`) logs the `NullReferenceException` that `inputs.TryGetValue` throws and returns null with no request; otherwise the result is the reader's, and an exception from building the dictionary is logged and gives null |

## Left out

- The 3-second delay, `async`/`await`, console output and file I/O are left out. The model keeps the text the console would show: the drawn block, the plain lines and the error-sink messages.
- ANSI colours, the cursor-up and clear-to-end-of-line escapes are left out. A row is the text between them; the colour table only decides which rows are padded (`StyledStates`).
- TrackStackUpdate: the final `DescribeStacksAsync` call and the stack it returns are not modelled. The method returns the loop's result only.
- The loop reads only the first page of events, as the source does. Each tick is given that page, a "No such host is known" failure or any other failure. `Pending` means the modelled fetches ran out while the loop was still active.
- The `break` at AwsEx.cs:161-164 cannot be taken: the `Where` filter is evaluated lazily and `UpdateEvent` never touches the seen-set. `ReportNewEvents` asserts this instead of modelling the branch.
- StackRender.PadRight: lengths and widths (`PadRight`, `MaxLength`, the `{x,-35}` and `{x,-55}` formats) count characters, that is Unicode scalar values. .NET counts UTF-16 code units, so a name or type outside the Basic Multilingual Plane would be padded differently.
- StackRender.RenderRows: `AnsiRow` demands widths the row fits, mirroring the `PadRight` that would throw on a negative count. That case cannot arise, because the widths are the maxima.
- StackEvents.GetMostRecentStackEventId: exception messages are modelled as strings. An empty page gives the error of `First()` on an empty list.
- ParametersByPath.GetAllParametersByPath: `None` means the modelled responses ran out before one without a token. Service errors are not modelled.
- The YAML parser is a black box:
  - the document is given as a tree of top-level keys in order;
  - a `!GetParam` tag counts only on a scalar that reads as a string (a tag on a sequence or mapping is declined, as at ParameterFileReader.cs:59);
  - duplicate keys inside the YAML, and the naming convention, are not modelled.
- A `!GetParam` sequence node (the `CloudFormationListFunction` mapping) is not modelled.
- The first parse is modelled as with an empty dictionary. Its values are discarded whenever a reference exists.
- A parse error is an input to `ReadInputParametersFiles` (the message of the `YamlException`), and so is a document the parser reads as null. Other exceptions are modelled by their message. `LogError(e)` is modelled as logging `e.Message`; the exception's type and stack trace are not modelled.
- Failures of the parameter store and of KMS encryption are not modelled. Encryption is a function parameter.
- A failure of the key service's `DescribeKey` is modelled as an alias missing from the map. The exception attached to the log message is not modelled.
- ParameterStore.GetParameters: the model assumes each returned parameter's `Name` is a name that was requested, so the store map is keyed by the request names. That holds for plain names only. For a reference with a version or label selector (`!GetParam /a/b:3`), the service answers with the bare name `/a/b`. The indexer at ParameterFileReader.cs:146 and :150 then adds `/a/b` as a new key, the reference `/a/b:3` stays null, and it is reported as missing. Selector names are not modelled, and ResolveBatchesOverwrites' "no key is added" holds only for plain names.
- ParameterStore.GetParameters: the response is modelled as listing the found names in request order. For plain names the order cannot change the outcome, because every returned key is then already in the dictionary. The `InvalidParameters` list of the response is not used by the source and is not modelled.
- The reference to `Settings.TierDefaultSecretKey` is folded into the encryption parameter.
- Paths.ToLowerAscii: only A-Z are lower-cased. No other character's invariant lower-case form is one of the letters of ".yml" or ".yaml", so the extension test is exact.
- Paths.GetExtension: the directory separator is '/', and also '\' on Windows; the volume separator ':' is not treated as a separator.
- Dictionaries: a .NET `Dictionary` is enumerated in insertion order when nothing is removed. The model relies on that order, which the library does not document as a guarantee.
- Strings.StartsWith: `StartsWith("arn:")` at ParameterFileReader.cs:183 uses the current culture. It is modelled as an ordinal comparison, which agrees for this ASCII prefix except under culture-specific collation rules.
- ParameterStore.LookupIsIdempotent is stated for the record; it follows from the definition without a proof of its own.
