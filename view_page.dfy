/**
 * The project view page: the search box, and how each address row and each team cell of the
 * address table is styled from the teams' statuses and the project's completing team.
 */
module ViewPage {
  import opened Wrappers
  import opened Text
  import opened Sequences

  // ---------------------------------------------------------------------------------------------
  // Search box

  /**
   * `handleSearch`: the query becomes the trimmed input when that is non-empty and a project is
   * selected; otherwise the query stays as it was.
   */
  function HandleSearch(searchWoid: string, selectedProjectId: Option<string>, searchQuery: string): (r: string)
    ensures Trim(searchWoid) != "" && Truthy(selectedProjectId) ==> r == Trim(searchWoid)
    ensures !(Trim(searchWoid) != "" && Truthy(selectedProjectId)) ==> r == searchQuery
  {
    var trimmed := Trim(searchWoid);
    if trimmed != "" && Truthy(selectedProjectId) then trimmed else searchQuery
  }

  /**
   * `handleSearch` keeps a trimmed query trimmed and never empties a non-empty one. The query
   * starts as "" and the Clear button resets it to "", which is trimmed too, so the query is
   * always trimmed.
   */
  lemma HandleSearchKeepsTrimmed(searchWoid: string, selectedProjectId: Option<string>, searchQuery: string)
    requires Trim(searchQuery) == searchQuery
    ensures var r := HandleSearch(searchWoid, selectedProjectId, searchQuery);
            Trim(r) == r && (searchQuery != "" ==> r != "")
  {
    if Trim(searchWoid) != "" && Truthy(selectedProjectId) {
      TrimIdempotent(searchWoid);
    }
  }

  /** An input of nothing but whitespace never changes the query; any other input does once a project is selected. */
  lemma HandleSearchIgnoresBlank(searchWoid: string, selectedProjectId: Option<string>, searchQuery: string)
    ensures AllWhitespace(searchWoid) ==> HandleSearch(searchWoid, selectedProjectId, searchQuery) == searchQuery
    ensures !AllWhitespace(searchWoid) && Truthy(selectedProjectId)
            ==> HandleSearch(searchWoid, selectedProjectId, searchQuery) == Trim(searchWoid) != ""
  {
    TrimEmptyIff(searchWoid);
  }

  /** Pressing search twice with the same input changes nothing the second time. */
  lemma HandleSearchIdempotent(searchWoid: string, selectedProjectId: Option<string>, searchQuery: string)
    ensures var r := HandleSearch(searchWoid, selectedProjectId, searchQuery);
            HandleSearch(searchWoid, selectedProjectId, r) == r
  {
  }

  // ---------------------------------------------------------------------------------------------
  // Address rows

  datatype ViewTeam = ViewTeam(
    taskForceId: string, taskForceName: string, status: Option<string>, completionDate: Option<int>)

  datatype ViewWoid = ViewWoid(workOrderId: string, teams: seq<ViewTeam>)

  datatype AddressData = AddressData(address: string, woids: seq<ViewWoid>)

  /** `team.status?.toLowerCase()`, with `undefined` kept. */
  function StatusKey(status: Option<string>): (r: Option<string>)
    ensures r.Some? <==> status.Some?
    ensures r.Some? ==> r.value == Lower(status.value)
  {
    match status
    case None => None
    case Some(s) => Some(Lower(s))
  }

  predicate IsVoidTeam(t: ViewTeam) {
    StatusKey(t.status) == Some("void")
  }

  predicate IsCompleteTeam(t: ViewTeam, completingTeamId: string) {
    t.taskForceId == completingTeamId && StatusKey(t.status) == Some("complete")
  }

  /** Some team of some work order of the address has status "void" in any letter case. */
  function HasVoidTeam(a: AddressData): (r: bool)
    ensures r <==> exists i, j :: 0 <= i < |a.woids| && 0 <= j < |a.woids[i].teams| && IsVoidTeam(a.woids[i].teams[j])
  {
    Any(a.woids, (w: ViewWoid) => Any(w.teams, IsVoidTeam))
  }

  /**
   * The address counts as complete when the project has a completing team and some work order of
   * the address has that team with status "complete" in any letter case.
   */
  function IsAddressComplete(a: AddressData, completingTeamId: Option<string>): (r: bool)
    ensures !Truthy(completingTeamId) ==> !r
    ensures Truthy(completingTeamId) ==>
              (r <==> exists i, j :: 0 <= i < |a.woids| && 0 <= j < |a.woids[i].teams|
                                     && IsCompleteTeam(a.woids[i].teams[j], completingTeamId.value))
  {
    if Truthy(completingTeamId) then
      var id := completingTeamId.value;
      Any(a.woids, (w: ViewWoid) => Any(w.teams, (t: ViewTeam) => IsCompleteTeam(t, id)))
    else
      false
  }

  /** The address-row backgrounds: orange for void, green for complete, purple otherwise. */
  datatype RowStyle = VoidRow | CompleteRow | DefaultRow

  /** `addressRowClass`: a void team wins over completion; neither gives the default style. */
  function AddressRowStyle(a: AddressData, completingTeamId: Option<string>): (s: RowStyle)
    ensures s == VoidRow <==> HasVoidTeam(a)
    ensures s == CompleteRow <==> !HasVoidTeam(a) && IsAddressComplete(a, completingTeamId)
    ensures s == DefaultRow <==> !HasVoidTeam(a) && !IsAddressComplete(a, completingTeamId)
  {
    if HasVoidTeam(a) then VoidRow
    else if IsAddressComplete(a, completingTeamId) then CompleteRow
    else DefaultRow
  }

  // ---------------------------------------------------------------------------------------------
  // Team cells

  const DefaultTeamColor := "bg-gray-100 text-gray-800"

  /** The own properties of the `statusColors` object. */
  function StatusColorEntry(key: string): (r: Option<string>)
    ensures r.Some? <==> key in ["complete", "incomplete", "void"]
  {
    if key == "complete" then Some("bg-green-100 text-green-800")
    else if key == "incomplete" then Some("bg-gray-100 text-gray-600")
    else if key == "void" then Some("bg-orange-100 text-orange-800")
    else None
  }

  /**
   * The colour class of a team's status cell: the `statusColors` entry of the lower-cased status,
   * and the default grey for a missing or empty status or one without an entry.
   */
  function TeamStatusColor(status: Option<string>): (c: string)
    ensures c in ["bg-green-100 text-green-800", "bg-gray-100 text-gray-600", "bg-orange-100 text-orange-800", DefaultTeamColor]
    ensures status.Some? && StatusColorEntry(Lower(status.value)).Some? ==> c == StatusColorEntry(Lower(status.value)).value
    ensures status.None? || StatusColorEntry(Lower(status.value)).None? ==> c == DefaultTeamColor
  {
    var key := StatusKey(status);
    if Truthy(key) then
      match StatusColorEntry(key.value)
      case Some(v) => v
      case None => DefaultTeamColor
    else DefaultTeamColor
  }

  /** Status colours ignore letter case: "VOID", "Void" and "void" look the same. */
  lemma TeamStatusColorIgnoresCase(s: string, s': string)
    requires Lower(s) == Lower(s')
    ensures TeamStatusColor(Some(s)) == TeamStatusColor(Some(s'))
  {
  }

  /**
   * A property lookup `statusColors[key]` on a plain object literal: the own entries, then the
   * members every object inherits. Only "constructor" and "__proto__" among the inherited names
   * are lower case, and a lower-cased key can reach no other.
   */
  datatype LookupValue = OwnEntry(className: string) | Inherited(name: string)

  predicate IsInheritedName(key: string) {
    key == "constructor" || key == "__proto__"
  }

  function LookupStatusColors(key: string): (r: Option<LookupValue>)
    ensures r.None? <==> StatusColorEntry(key).None? && !IsInheritedName(key)
  {
    match StatusColorEntry(key)
    case Some(v) => Some(OwnEntry(v))
    case None => if IsInheritedName(key) then Some(Inherited(key)) else None
  }

  /**
   * The colour expression as written: `statusColors[statusKey] ?? default`. An inherited member is
   * neither `null` nor `undefined`, so `??` keeps it and it ends up in the class attribute.
   */
  function StatusColorAsWritten(status: Option<string>): (v: LookupValue)
    ensures v.Inherited? <==> status.Some? && IsInheritedName(Lower(status.value))
  {
    var key := StatusKey(status);
    if Truthy(key) then
      match LookupStatusColors(key.value)
      case Some(v) => v
      case None => OwnEntry(DefaultTeamColor)
    else OwnEntry(DefaultTeamColor)
  }

  /** A team whose status is "Constructor" gets an inherited function, not a colour class. */
  lemma StatusColorAsWrittenLeaksInherited()
    ensures StatusColorAsWritten(Some("Constructor")) == Inherited("constructor")
  {
    var l := Lower("Constructor");
    assert LowerChar('C') == 'c';
    assert l == "constructor";
  }

  /** Apart from the two inherited names, the expression as written gives `TeamStatusColor`. */
  lemma StatusColorAsWrittenAgrees(status: Option<string>)
    requires status.None? || !IsInheritedName(Lower(status.value))
    ensures StatusColorAsWritten(status) == OwnEntry(TeamStatusColor(status))
  {
  }

  datatype CompletionCell = VoidCell | DateCell(date: int) | Dash

  /**
   * The completion cell of a team: "VOID" for a void status, otherwise the completion date when
   * it is present and not 0 (a falsy number), otherwise a dash.
   */
  function CompletionCellOf(t: ViewTeam): (c: CompletionCell)
    ensures c == VoidCell <==> IsVoidTeam(t)
    ensures c.DateCell? <==> !IsVoidTeam(t) && t.completionDate.Some? && t.completionDate.value != 0
    ensures c.DateCell? ==> t.completionDate == Some(c.date)
  {
    if StatusKey(t.status) == Some("void") then VoidCell
    else match t.completionDate
      case Some(d) => if d != 0 then DateCell(d) else Dash
      case None => Dash
  }

  /** A team shown as void also gives its address the void row style. */
  lemma VoidCellMeansVoidRow(a: AddressData, completingTeamId: Option<string>, i: nat, j: nat)
    requires i < |a.woids| && j < |a.woids[i].teams|
    requires CompletionCellOf(a.woids[i].teams[j]) == VoidCell
    ensures AddressRowStyle(a, completingTeamId) == VoidRow
  {
  }
}
