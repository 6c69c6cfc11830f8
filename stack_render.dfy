/**
 * The text the stack-update tracker produces for an event: the rows of the live view
 * (redrawn in place on an ANSI console), the lines of the plain log, and the messages
 * sent to the error sink. Colours and cursor movement are not modelled; a row is the
 * text between them.
 */
module StackRender {
  import opened Wrappers
  import opened StackEvents

  /** The display settings of one tracking call. */
  datatype ViewConfig = ViewConfig(
    useAnsiConsole: bool,
    hasErrorSink: bool,                                   // `logError != null`
    resourceNameMappings: Option<map<string, Option<string>>>,
    typeNameMappings: Option<map<string, Option<string>>>)

  function Spaces(n: nat): (r: string)
    ensures |r| == n
    ensures forall i :: 0 <= i < n ==> r[i] == ' '
  {
    if n == 0 then "" else " " + Spaces(n - 1)
  }

  /** `string.PadRight` and the `{x,-width}` format: left-aligned, never truncated. */
  function PadRight(s: string, width: int): (r: string)
    ensures |r| == if |s| < width then width else |s|
    ensures r[..|s|] == s
    ensures forall i :: |s| <= i < |r| ==> r[i] == ' '
  {
    if |s| < width then s + Spaces(width - |s|) else s
  }

  /** The longest length among `strs`, and 0 for none (the `Any() ? Max(...) : 0` of the view). */
  function MaxLength(strs: seq<string>): (m: nat)
    ensures forall i :: 0 <= i < |strs| ==> |strs[i]| <= m
    ensures strs == [] ==> m == 0
    ensures strs != [] ==> exists i :: 0 <= i < |strs| && |strs[i]| == m
  {
    if strs == [] then 0
    else
      var rest := MaxLength(strs[1..]);
      assert forall i :: 1 <= i < |strs| ==> strs[i] == strs[1..][i - 1];
      if |strs[0]| > rest then |strs[0]| else rest
  }

  function TypeName(view: ViewConfig, evt: StackEvent): string {
    TranslateToFullName(view.typeNameMappings, evt.resourceType)
  }

  function ResourceName(view: ViewConfig, evt: StackEvent): string {
    TranslateToFullName(view.resourceNameMappings, evt.logicalResourceId)
  }

  /** The ` (reason)` suffix, empty when the event has no reason. */
  function ReasonSuffix(reason: Option<string>): string {
    match reason
    case Some(text) => " (" + text + ")"
    case None => ""
  }

  function Statuses(rows: seq<StackEvent>): (r: seq<string>)
    ensures |r| == |rows| && forall i :: 0 <= i < |rows| ==> r[i] == rows[i].resourceStatus
  {
    seq(|rows|, i requires 0 <= i < |rows| => rows[i].resourceStatus)
  }

  function TypeNames(view: ViewConfig, rows: seq<StackEvent>): (r: seq<string>)
    ensures |r| == |rows| && forall i :: 0 <= i < |rows| ==> r[i] == TypeName(view, rows[i])
  {
    seq(|rows|, i requires 0 <= i < |rows| => TypeName(view, rows[i]))
  }

  /**
   * One row of the live view. A status with an entry in the colour table is padded to the
   * widest status plus four, the type to the widest type plus four, and the reason is shown
   * only when no error sink is attached; any other status is written with fixed four-space
   * gaps and always with its reason.
   */
  function AnsiRow(view: ViewConfig, evt: StackEvent, maxStatus: nat, maxType: nat): string
    requires |evt.resourceStatus| <= maxStatus && |TypeName(view, evt)| <= maxType
  {
    var status := evt.resourceStatus;
    var typeName := TypeName(view, evt);
    if status in StyledStates then
      status + Spaces(maxStatus - |status| + 4)
      + typeName + Spaces(maxType - |typeName| + 4)
      + ResourceName(view, evt)
      + (if !view.hasErrorSink then ReasonSuffix(evt.resourceStatusReason) else "")
    else
      status + "    " + typeName + "    " + ResourceName(view, evt) + ReasonSuffix(evt.resourceStatusReason)
  }

  /** The block the live view draws for `rows`, widths computed over the rows drawn. */
  function RenderRows(view: ViewConfig, rows: seq<StackEvent>): (r: seq<string>)
    ensures |r| == |rows|
  {
    WidestFits(view, rows);
    RowsWithWidths(view, rows, MaxLength(Statuses(rows)), MaxLength(TypeNames(view, rows)))
  }

  /** Every status and type of `rows` fits the given column widths. */
  predicate Fits(view: ViewConfig, rows: seq<StackEvent>, maxStatus: nat, maxType: nat) {
    forall i :: 0 <= i < |rows| ==> |rows[i].resourceStatus| <= maxStatus && |TypeName(view, rows[i])| <= maxType
  }

  /** The widest status and the widest type are widths every row fits. */
  lemma WidestFits(view: ViewConfig, rows: seq<StackEvent>)
    ensures Fits(view, rows, MaxLength(Statuses(rows)), MaxLength(TypeNames(view, rows)))
  {
    var statuses := Statuses(rows);
    var typeNames := TypeNames(view, rows);
    forall i | 0 <= i < |rows|
      ensures |rows[i].resourceStatus| <= MaxLength(statuses) && |TypeName(view, rows[i])| <= MaxLength(typeNames)
    {
      assert statuses[i] == rows[i].resourceStatus && typeNames[i] == TypeName(view, rows[i]);
    }
  }

  /** Each event drawn as a row with the given column widths. */
  function RowsWithWidths(view: ViewConfig, rows: seq<StackEvent>, maxStatus: nat, maxType: nat): (r: seq<string>)
    requires Fits(view, rows, maxStatus, maxType)
    ensures |r| == |rows|
  {
    seq(|rows|, i requires 0 <= i < |rows| => AnsiRow(view, rows[i], maxStatus, maxType))
  }

  /** The drawing loop: one row per event, with the widths of the whole block. */
  method DrawRows(view: ViewConfig, rows: seq<StackEvent>) returns (lines: seq<string>)
    ensures lines == RenderRows(view, rows)
  {
    var maxStatus := MaxLength(Statuses(rows));
    var maxType := MaxLength(TypeNames(view, rows));
    WidestFits(view, rows);
    lines := [];
    for i := 0 to |rows|
      invariant |lines| == i
      invariant forall j :: 0 <= j < i ==> lines[j] == AnsiRow(view, rows[j], maxStatus, maxType)
    {
      lines := lines + [AnsiRow(view, rows[i], maxStatus, maxType)];
    }
    assert lines == RowsWithWidths(view, rows, maxStatus, maxType);
  }

  /** A slice of a concatenation that lies inside its first part is a slice of that part. */
  lemma SliceLeft(a: string, b: string, i: nat, j: nat)
    requires i <= j <= |a|
    ensures (a + b)[i..j] == a[i..j]
  {
    assert forall k :: 0 <= k < j - i ==> (a + b)[i..j][k] == a[i..j][k];
  }

  /** A slice of a concatenation that lies inside its second part is a slice of that part. */
  lemma SliceRight(a: string, b: string, i: nat, j: nat)
    requires i <= j <= |b|
    ensures (a + b)[|a| + i .. |a| + j] == b[i..j]
  {
    assert forall k :: 0 <= k < j - i ==> (a + b)[|a| + i .. |a| + j][k] == b[i..j][k];
  }

  /** In `a + p + b + q + c + rest`, the parts `a`, `b` and `c` sit at the columns the lengths before them give. */
  lemma ColumnsOfRow(a: string, p: string, b: string, q: string, c: string, rest: string)
    ensures var row := a + p + b + q + c + rest;
      |row| >= |a| + |p| + |b| + |q| + |c|
      && row[..|a|] == a
      && row[|a| + |p| .. |a| + |p| + |b|] == b
      && row[|a| + |p| + |b| + |q| .. |a| + |p| + |b| + |q| + |c|] == c
  {
    var head := a + p;
    var mid := b + q;
    var tail := c + rest;
    var row := a + p + b + q + c + rest;
    assert row == head + (mid + tail);
    SliceLeft(head, mid + tail, 0, |a|);
    SliceLeft(a, p, 0, |a|);
    assert row[..|a|] == a[0..|a|];
    SliceRight(head, mid + tail, 0, |b|);
    SliceLeft(mid, tail, 0, |b|);
    SliceLeft(b, q, 0, |b|);
    assert row[|head| .. |head| + |b|] == b[0..|b|];
    SliceRight(head, mid + tail, |mid|, |mid| + |c|);
    SliceRight(mid, tail, 0, |c|);
    SliceLeft(c, rest, 0, |c|);
    assert row[|head| + |mid| .. |head| + |mid| + |c|] == c[0..|c|];
  }

  /** `row` shows `status` from its first column, `typeName` from column `typeAt` and `name` from column `nameAt`. */
  predicate ColumnsAt(row: string, status: string, typeName: string, typeAt: nat, name: string, nameAt: nat) {
    |status| <= |row| && typeAt + |typeName| <= |row| && nameAt + |name| <= |row|
    && row[..|status|] == status
    && row[typeAt..typeAt + |typeName|] == typeName
    && row[nameAt..nameAt + |name|] == name
  }

  /** In a styled row drawn with the given widths, the type starts at `maxStatus + 4` and the name at `maxStatus + 4 + maxType + 4`. */
  lemma AnsiRowColumns(view: ViewConfig, evt: StackEvent, maxStatus: nat, maxType: nat)
    requires |evt.resourceStatus| <= maxStatus && |TypeName(view, evt)| <= maxType
    requires evt.resourceStatus in StyledStates
    ensures ColumnsAt(AnsiRow(view, evt, maxStatus, maxType), evt.resourceStatus,
                      TypeName(view, evt), maxStatus + 4, ResourceName(view, evt), maxStatus + 4 + maxType + 4)
  {
    var status := evt.resourceStatus;
    var typeName := TypeName(view, evt);
    var p := Spaces(maxStatus - |status| + 4);
    var q := Spaces(maxType - |typeName| + 4);
    var rest := if !view.hasErrorSink then ReasonSuffix(evt.resourceStatusReason) else "";
    assert AnsiRow(view, evt, maxStatus, maxType) == status + p + typeName + q + ResourceName(view, evt) + rest;
    assert |p| == maxStatus - |status| + 4 && |q| == maxType - |typeName| + 4;
    ColumnsOfRow(status, p, typeName, q, ResourceName(view, evt), rest);
  }

  /**
   * The columns of the styled rows of the live view line up: each such row starts with its
   * status, its type starts four columns past the widest status, and its resource name four
   * columns past the widest type.
   */
  lemma StyledColumnsAlign(view: ViewConfig, rows: seq<StackEvent>, i: nat)
    requires i < |rows| && rows[i].resourceStatus in StyledStates
    ensures var maxStatus := MaxLength(Statuses(rows));
      var maxType := MaxLength(TypeNames(view, rows));
      ColumnsAt(RenderRows(view, rows)[i], rows[i].resourceStatus,
                TypeName(view, rows[i]), maxStatus + 4, ResourceName(view, rows[i]), maxStatus + 4 + maxType + 4)
  {
    WidestFits(view, rows);
    RowColumns(view, rows, MaxLength(Statuses(rows)), MaxLength(TypeNames(view, rows)), i);
  }

  /** A styled row drawn with widths every row fits has its type and name at the columns those widths give. */
  lemma RowColumns(view: ViewConfig, rows: seq<StackEvent>, maxStatus: nat, maxType: nat, i: nat)
    requires Fits(view, rows, maxStatus, maxType)
    requires i < |rows| && rows[i].resourceStatus in StyledStates
    ensures ColumnsAt(RowsWithWidths(view, rows, maxStatus, maxType)[i], rows[i].resourceStatus,
                      TypeName(view, rows[i]), maxStatus + 4, ResourceName(view, rows[i]), maxStatus + 4 + maxType + 4)
  {
    AnsiRowColumns(view, rows[i], maxStatus, maxType);
  }

  /** One line of the plain log: status padded to 35 columns, type to 55, then the name and reason. */
  function PlainLine(view: ViewConfig, evt: StackEvent): string {
    PadRight(evt.resourceStatus, 35) + " " + PadRight(TypeName(view, evt), 55) + " "
    + ResourceName(view, evt) + ReasonSuffix(evt.resourceStatusReason)
  }

  /** A plain line starts with the status, and the type starts one column past the padded status. */
  lemma PlainLineColumns(view: ViewConfig, evt: StackEvent)
    ensures
      var line := PlainLine(view, evt);
      var typeAt := (if |evt.resourceStatus| < 35 then 35 else |evt.resourceStatus|) + 1;
      var typeName := TypeName(view, evt);
      |line| >= typeAt + |typeName|
      && line[..|evt.resourceStatus|] == evt.resourceStatus
      && line[typeAt - 1] == ' '
      && line[typeAt..typeAt + |typeName|] == typeName
  {
    var status := evt.resourceStatus;
    var typeName := TypeName(view, evt);
    var padded := PadRight(status, 35);
    var head := padded + " ";
    var paddedType := PadRight(typeName, 55);
    var tail := " " + ResourceName(view, evt) + ReasonSuffix(evt.resourceStatusReason);
    var rest := paddedType + tail;
    assert PlainLine(view, evt) == head + rest;
    assert |head| == |padded| + 1 && head[|padded|] == ' ';
    SliceLeft(padded, " ", 0, |status|);
    SliceLeft(head, rest, 0, |status|);
    SliceLeft(paddedType, tail, 0, |typeName|);
    SliceRight(head, rest, 0, |typeName|);
  }

  /** The message sent to the error sink: `STATUS name [type]: reason` (a null reason prints as nothing). */
  function ErrorMessage(view: ViewConfig, evt: StackEvent): string {
    evt.resourceStatus + " " + ResourceName(view, evt) + " [" + TypeName(view, evt) + "]: "
    + (match evt.resourceStatusReason case Some(text) => text case None => "")
  }
}
