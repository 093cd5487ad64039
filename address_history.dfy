/**
 * The data shaping of the address-history page: for one address it indexes work orders (WOIDs),
 * their teams, reports and files, classifies each WOID, computes the completion figures, and
 * builds the activity timeline and the latest status per utility company.
 */
module AddressHistory {
  import opened Wrappers
  import opened Text
  import opened Sequences
  import opened OrderedMaps

  // ---------------------------------------------------------------------------------------------
  // Records as the backend query returns them (only the fields the page reads)

  datatype WoidAssignment = WoidAssignment(workOrderId: string)

  datatype TeamRecord = TeamRecord(
    taskForceName: string, status: Option<string>, completionDate: Option<int>)

  /** The teams of one WOID, already grouped by the backend. */
  datatype TaskForceGroup = TaskForceGroup(workOrderId: string, teams: seq<TeamRecord>)

  /** A team as the page keeps it in the WOID-to-teams map. */
  datatype TeamEntry = TeamEntry(teamName: string, status: Option<string>, completionDate: Option<int>)

  datatype Report = Report(id: string, creationTime: int)

  /** The reports of one WOID, already grouped by the backend. */
  datatype ReportGroup = ReportGroup(workOrderId: string, reports: seq<Report>)

  datatype TicketUpdate = TicketUpdate(utilityCompany: string, status: string, creationTime: int)

  datatype Ticket = Ticket(ticketId: string, updates: seq<TicketUpdate>)

  datatype FileRecord = FileRecord(
    name: string, fileType: Option<string>, creationTime: int, workOrderId: Option<string>)

  // ---------------------------------------------------------------------------------------------
  // WOID-to-teams, WOID-to-reports and WOID-to-files maps

  function ToEntry(t: TeamRecord): TeamEntry {
    TeamEntry(t.taskForceName, t.status, t.completionDate)
  }

  /** `group.teams.map(...)`: each team renamed to the page's shape. */
  function Entries(teams: seq<TeamRecord>): (r: seq<TeamEntry>)
    ensures |r| == |teams| && forall i :: 0 <= i < |teams| ==> r[i] == ToEntry(teams[i])
  {
    seq(|teams|, i requires 0 <= i < |teams| => ToEntry(teams[i]))
  }

  function AssignmentIds(assignments: seq<WoidAssignment>): (r: seq<string>)
    ensures |r| == |assignments| && forall i :: 0 <= i < |r| ==> r[i] == assignments[i].workOrderId
  {
    seq(|assignments|, i requires 0 <= i < |assignments| => assignments[i].workOrderId)
  }

  function TeamPairs(groups: seq<TaskForceGroup>): (r: seq<(string, seq<TeamEntry>)>)
    ensures |r| == |groups|
    ensures forall i :: 0 <= i < |r| ==> r[i] == (groups[i].workOrderId, Entries(groups[i].teams))
  {
    seq(|groups|, i requires 0 <= i < |groups| => (groups[i].workOrderId, Entries(groups[i].teams)))
  }

  function ReportPairs(groups: seq<ReportGroup>): (r: seq<(string, seq<Report>)>)
    ensures |r| == |groups|
    ensures forall i :: 0 <= i < |r| ==> r[i] == (groups[i].workOrderId, groups[i].reports)
  {
    seq(|groups|, i requires 0 <= i < |groups| => (groups[i].workOrderId, groups[i].reports))
  }

  /** The first loop of the WOID-to-teams map: every assigned WOID, once, with no teams yet. */
  method SeedWoids(ids: seq<string>) returns (m: OrderedMap<seq<TeamEntry>>)
    ensures Valid(m)
    ensures m.order == Dedup(ids)
    ensures forall k :: k in m.entries <==> k in ids
    ensures forall k | k in m.entries :: m.entries[k] == []
  {
    m := Empty();
    var i := 0;
    while i < |ids|
      invariant 0 <= i <= |ids|
      invariant Valid(m)
      invariant m.order == Dedup(ids[..i])
      invariant forall k :: k in m.entries <==> k in ids[..i]
      invariant forall k | k in m.entries :: m.entries[k] == []
    {
      var woid := ids[i];
      assert ids[..i + 1] == ids[..i] + [woid];
      DedupSnoc(ids[..i], woid);
      if woid !in m.entries {
        m := Set(m, woid, []);
      }
      i := i + 1;
    }
    assert ids[..i] == ids;
  }

  /**
   * The WOID-to-teams map: every assigned WOID starts with no teams, then each task-force group
   * replaces the list of its WOID, so a later group for the same WOID overwrites an earlier one
   * and a group may add a WOID that has no assignment.
   */
  method BuildTeamMap(assignments: seq<WoidAssignment>, groups: seq<TaskForceGroup>)
    returns (m: OrderedMap<seq<TeamEntry>>)
    ensures Valid(m)
    ensures m.order == Dedup(AssignmentIds(assignments) + Keys(TeamPairs(groups)))
    ensures forall i | 0 <= i < |assignments| :: assignments[i].workOrderId in m.entries
    ensures forall k :: k in m.entries <==>
              (exists i :: 0 <= i < |assignments| && assignments[i].workOrderId == k)
              || (exists i :: 0 <= i < |groups| && groups[i].workOrderId == k)
    ensures forall k | k in m.entries && LastKeyIndex(TeamPairs(groups), k).None? :: m.entries[k] == []
    ensures forall k | LastKeyIndex(TeamPairs(groups), k).Some? ::
              k in m.entries && m.entries[k] == Entries(groups[LastKeyIndex(TeamPairs(groups), k).value].teams)
  {
    var ids := AssignmentIds(assignments);
    var pairs := TeamPairs(groups);
    var seeded := SeedWoids(ids);
    DedupAppend(ids, Keys(pairs));
    m := SetAll(seeded, pairs);
    TeamMapKeys(assignments, groups);
  }

  /** Membership in the assigned WOIDs and in the grouped WOIDs. */
  lemma TeamMapKeys(assignments: seq<WoidAssignment>, groups: seq<TaskForceGroup>)
    ensures forall k :: k in AssignmentIds(assignments) <==>
              exists i :: 0 <= i < |assignments| && assignments[i].workOrderId == k
    ensures forall k :: k in Keys(TeamPairs(groups)) <==> exists i :: 0 <= i < |groups| && groups[i].workOrderId == k
  {
    var ids, keys := AssignmentIds(assignments), Keys(TeamPairs(groups));
    assert forall i :: 0 <= i < |ids| ==> ids[i] in ids;
    assert forall i :: 0 <= i < |keys| ==> keys[i] in keys;
  }

  /** The WOID-to-reports map: each report group sets the list of its WOID, the last one winning. */
  method ReportsByWoid(groups: seq<ReportGroup>) returns (m: OrderedMap<seq<Report>>)
    ensures Valid(m)
    ensures m.order == Dedup(Keys(ReportPairs(groups)))
    ensures forall k :: k in m.entries <==> exists i :: 0 <= i < |groups| && groups[i].workOrderId == k
    ensures forall k | k in m.entries ::
              LastKeyIndex(ReportPairs(groups), k).Some?
              && m.entries[k] == groups[LastKeyIndex(ReportPairs(groups), k).value].reports
  {
    var pairs := ReportPairs(groups);
    var empty: OrderedMap<seq<Report>> := Empty();
    assert empty.order + Keys(pairs) == Keys(pairs);
    m := SetAll(empty, pairs);
  }

  /** The WOID a file is filed under: none when its `workOrderId` is missing or "". */
  function FileWoid(f: FileRecord): Option<string> {
    if Truthy(f.workOrderId) then f.workOrderId else None
  }

  /** The WOIDs with a bucket are the non-empty WOIDs of some file. */
  lemma FileBucketKeys(files: seq<FileRecord>, e: map<string, seq<FileRecord>>)
    requires GroupByEntries(files, FileWoid, e)
    ensures forall k :: k in e <==> k != "" && exists i :: 0 <= i < |files| && files[i].workOrderId == Some(k)
  {
    forall k | k != "" && exists i :: 0 <= i < |files| && files[i].workOrderId == Some(k) ensures k in e {
      var i :| 0 <= i < |files| && files[i].workOrderId == Some(k);
      assert FileWoid(files[i]) == Some(k);
    }
  }

  /** A bucket holds only files of its own WOID. */
  lemma FileBucketsOwn(files: seq<FileRecord>, e: map<string, seq<FileRecord>>)
    requires GroupByEntries(files, FileWoid, e)
    ensures forall k, f | k in e && f in e[k] :: k != "" && f.workOrderId == Some(k)
  {
    forall k, f | k in e && f in e[k] ensures k != "" && f.workOrderId == Some(k) {
      assert f in Bucket(files, FileWoid, k);
    }
  }

  /** Every file with a WOID is in that WOID's bucket as often as it is in the input. */
  lemma FileBucketsComplete(files: seq<FileRecord>, e: map<string, seq<FileRecord>>)
    requires GroupByEntries(files, FileWoid, e)
    ensures forall f | f in files && Truthy(f.workOrderId) ::
              f.workOrderId.value in e && multiset(e[f.workOrderId.value])[f] == multiset(files)[f]
  {
    forall f | f in files && Truthy(f.workOrderId)
      ensures f.workOrderId.value in e && multiset(e[f.workOrderId.value])[f] == multiset(files)[f]
    {
      var i :| 0 <= i < |files| && files[i] == f;
      assert FileWoid(files[i]) == Some(f.workOrderId.value);
    }
  }

  /**
   * The WOID-to-files map: files without a WOID are skipped, every other file is appended to the
   * bucket of its WOID, so each bucket is the files of that WOID in input order.
   */
  method FilesByWoid(files: seq<FileRecord>) returns (m: OrderedMap<seq<FileRecord>>)
    ensures Valid(m)
    ensures forall k :: k in m.entries <==>
              k != "" && exists i :: 0 <= i < |files| && files[i].workOrderId == Some(k)
    ensures forall k, f | k in m.entries && f in m.entries[k] :: k != "" && f.workOrderId == Some(k)
    ensures forall f | f in files && Truthy(f.workOrderId) ::
              f.workOrderId.value in m.entries
              && multiset(m.entries[f.workOrderId.value])[f] == multiset(files)[f]
    ensures forall k | k in m.entries :: m.entries[k] == Bucket(files, FileWoid, k)
  {
    m := GroupBy(files, FileWoid);
    assert GroupByEntries(files, FileWoid, m.entries);
    FileBucketKeys(files, m.entries);
    FileBucketsOwn(files, m.entries);
    FileBucketsComplete(files, m.entries);
  }

  // ---------------------------------------------------------------------------------------------
  // WOID status and completion figures

  datatype WoidStatus = Void | Complete | InProgress | NotStarted

  /** Exact, case-sensitive comparisons: an absent status is neither "void" nor "complete". */
  predicate IsVoidEntry(t: TeamEntry) { t.status == Some("void") }
  predicate IsCompleteEntry(t: TeamEntry) { t.status == Some("complete") }

  /** The status of a WOID from its team list: void dominates, then all-complete, then any team. */
  function Classify(teams: seq<TeamEntry>): (s: WoidStatus)
    ensures s == Void <==> exists i :: 0 <= i < |teams| && teams[i].status == Some("void")
    ensures s == Complete <==> teams != [] && forall i :: 0 <= i < |teams| ==> teams[i].status == Some("complete")
    ensures s == InProgress <==> teams != [] && (forall i :: 0 <= i < |teams| ==> teams[i].status != Some("void"))
                                 && exists i :: 0 <= i < |teams| && teams[i].status != Some("complete")
    ensures s == NotStarted <==> teams == []
  {
    var hasVoid := Any(teams, IsVoidEntry);
    var allComplete := |teams| > 0 && All(teams, IsCompleteEntry);
    if hasVoid then Void
    else if allComplete then Complete
    else if |teams| > 0 then InProgress
    else NotStarted
  }

  /** `getWoidStatus`: a WOID missing from the map has no teams. */
  function GetWoidStatus(m: OrderedMap<seq<TeamEntry>>, woid: string): (s: WoidStatus)
    ensures woid !in m.entries ==> s == NotStarted
    ensures woid in m.entries ==> s == Classify(m.entries[woid])
  {
    Classify(if woid in m.entries then m.entries[woid] else [])
  }

  /** The test "this WOID of `m` has status `st`". */
  function StatusIs(m: OrderedMap<seq<TeamEntry>>, st: WoidStatus): string -> bool {
    k => k in m.entries && Classify(m.entries[k]) == st
  }

  /** The WOIDs of the map that have status `st`. */
  ghost function WoidsWith(m: OrderedMap<seq<TeamEntry>>, st: WoidStatus): (r: set<string>)
    ensures forall k :: k in r <==> k in m.entries && Classify(m.entries[k]) == st
  {
    SetIf(m.entries.Keys, StatusIs(m, st))
  }

  /** Every WOID of the map has exactly one of the four statuses. */
  lemma {:induction false} CountsPartition(keys: seq<string>, m: OrderedMap<seq<TeamEntry>>)
    requires forall k | k in keys :: k in m.entries
    ensures CountIf(keys, StatusIs(m, Complete)) + CountIf(keys, StatusIs(m, Void))
            + CountIf(keys, StatusIs(m, InProgress)) + CountIf(keys, StatusIs(m, NotStarted)) == |keys|
  {
    if keys != [] {
      CountsPartition(keys[..|keys| - 1], m);
    }
  }

  /** Counting along the map's insertion order counts the WOIDs with that status. */
  lemma CountIsStatusSetSize(m: OrderedMap<seq<TeamEntry>>, st: WoidStatus)
    requires Valid(m)
    ensures CountIf(m.order, StatusIs(m, st)) == |WoidsWith(m, st)|
  {
    CountIfOverSet(m.order, m.entries.Keys, StatusIs(m, st));
  }

  /** The counters after the first `i` WOIDs of the insertion order. */
  ghost predicate CountedUpTo(m: OrderedMap<seq<TeamEntry>>, i: nat, completeWoids: nat, voidWoids: nat,
                              inProgressWoids: nat)
    requires i <= |m.order|
  {
    && completeWoids == CountIf(m.order[..i], StatusIs(m, Complete))
    && voidWoids == CountIf(m.order[..i], StatusIs(m, Void))
    && inProgressWoids == CountIf(m.order[..i], StatusIs(m, InProgress)) + CountIf(m.order[..i], StatusIs(m, NotStarted))
  }

  /** Counting one WOID more along the insertion order. */
  lemma CountStep(m: OrderedMap<seq<TeamEntry>>, i: nat, st: WoidStatus)
    requires i < |m.order| && m.order[i] in m.entries
    ensures CountIf(m.order[..i + 1], StatusIs(m, st))
            == CountIf(m.order[..i], StatusIs(m, st)) + (if Classify(m.entries[m.order[i]]) == st then 1 else 0)
  {
    assert m.order[..i + 1][..i] == m.order[..i];
  }

  /**
   * One turn of `CountWoids`'s loop: the WOID's void and all-complete tests decide which counter
   * goes up, from `c`, `v`, `p` to `c'`, `v'`, `p'`.
   */
  lemma CountedStep(m: OrderedMap<seq<TeamEntry>>, i: nat, hasVoid: bool, allComplete: bool,
                    c: nat, v: nat, p: nat, c': nat, v': nat, p': nat)
    requires i < |m.order| && m.order[i] in m.entries
    requires hasVoid == Any(m.entries[m.order[i]], IsVoidEntry)
    requires allComplete == (|m.entries[m.order[i]]| > 0 && All(m.entries[m.order[i]], IsCompleteEntry))
    requires CountedUpTo(m, i, c, v, p)
    requires c' == c + (if !hasVoid && allComplete then 1 else 0)
    requires v' == v + (if hasVoid then 1 else 0)
    requires p' == p + (if !hasVoid && !allComplete then 1 else 0)
    ensures CountedUpTo(m, i + 1, c', v', p')
  {
    CountStep(m, i, Complete);
    CountStep(m, i, Void);
    CountStep(m, i, InProgress);
    CountStep(m, i, NotStarted);
  }

  /** The counts over the whole insertion order are the sizes of the status sets. */
  lemma CountsFinal(m: OrderedMap<seq<TeamEntry>>)
    requires Valid(m)
    ensures CountIf(m.order, StatusIs(m, Complete)) == |WoidsWith(m, Complete)|
    ensures CountIf(m.order, StatusIs(m, Void)) == |WoidsWith(m, Void)|
    ensures CountIf(m.order, StatusIs(m, InProgress)) == |WoidsWith(m, InProgress)|
    ensures CountIf(m.order, StatusIs(m, NotStarted)) == |WoidsWith(m, NotStarted)|
    ensures |WoidsWith(m, Complete)| + |WoidsWith(m, Void)| + |WoidsWith(m, InProgress)|
            + |WoidsWith(m, NotStarted)| == |m.entries|
  {
    CountsPartition(m.order, m);
    SizeIsOrderLength(m);
    CountIsStatusSetSize(m, Complete);
    CountIsStatusSetSize(m, Void);
    CountIsStatusSetSize(m, InProgress);
    CountIsStatusSetSize(m, NotStarted);
  }

  /**
   * The completion counters: one pass over the map's entries, a WOID with a void team counting as
   * void, one whose non-empty team list is all complete as complete, and every other WOID,
   * including one with no teams, as in progress. The three counts add up to the map's size.
   */
  method CountWoids(m: OrderedMap<seq<TeamEntry>>) returns (completeWoids: nat, voidWoids: nat, inProgressWoids: nat)
    requires Valid(m)
    ensures completeWoids == |WoidsWith(m, Complete)|
    ensures voidWoids == |WoidsWith(m, Void)|
    ensures inProgressWoids == |WoidsWith(m, InProgress)| + |WoidsWith(m, NotStarted)|
    ensures completeWoids + voidWoids + inProgressWoids == |m.entries|
  {
    completeWoids, voidWoids, inProgressWoids := 0, 0, 0;
    var i := 0;
    while i < |m.order|
      invariant 0 <= i <= |m.order|
      invariant CountedUpTo(m, i, completeWoids, voidWoids, inProgressWoids)
    {
      var woid := m.order[i];
      assert woid in m.entries;
      var teams := m.entries[woid];
      var hasVoid := Any(teams, IsVoidEntry);
      var allComplete := |teams| > 0 && All(teams, IsCompleteEntry);
      ghost var c, v, p := completeWoids, voidWoids, inProgressWoids;
      if hasVoid {
        voidWoids := voidWoids + 1;
      } else if allComplete {
        completeWoids := completeWoids + 1;
      } else {
        inProgressWoids := inProgressWoids + 1;
      }
      CountedStep(m, i, hasVoid, allComplete, c, v, p, completeWoids, voidWoids, inProgressWoids);
      i := i + 1;
    }
    assert m.order[..i] == m.order;
    CountsFinal(m);
  }

  /**
   * `completionPercentage`: 0 when there are no WOIDs, otherwise `Math.round(complete / total * 100)`,
   * the integer nearest to 100 * complete / total with halves rounded up.
   */
  function CompletionPercentage(completeWoids: nat, totalWoids: nat): (p: nat)
    ensures totalWoids == 0 ==> p == 0
    ensures totalWoids > 0 ==> 2 * totalWoids * p <= 200 * completeWoids + totalWoids < 2 * totalWoids * (p + 1)
    ensures completeWoids <= totalWoids ==> p <= 100
  {
    if totalWoids > 0 then
      var p := (200 * completeWoids + totalWoids) / (2 * totalWoids);
      RoundingBounds(200 * completeWoids + totalWoids, 2 * totalWoids, completeWoids, totalWoids, p);
      p
    else 0
  }

  /**
   * The completion stats the page shows: the three counts, `woidTeamMap.size` and the rounded
   * percentage of complete WOIDs, which lies between 0 and 100.
   */
  method CompletionStats(m: OrderedMap<seq<TeamEntry>>)
    returns (completeWoids: nat, voidWoids: nat, inProgressWoids: nat, totalWoids: nat, completionPercentage: nat)
    requires Valid(m)
    ensures completeWoids == |WoidsWith(m, Complete)|
    ensures voidWoids == |WoidsWith(m, Void)|
    ensures inProgressWoids == |WoidsWith(m, InProgress)| + |WoidsWith(m, NotStarted)|
    ensures totalWoids == |m.entries| == completeWoids + voidWoids + inProgressWoids
    ensures completionPercentage <= 100
    ensures totalWoids == 0 ==> completionPercentage == 0
    ensures completeWoids == totalWoids > 0 ==> completionPercentage == 100
    ensures completeWoids == 0 ==> completionPercentage == 0
  {
    completeWoids, voidWoids, inProgressWoids := CountWoids(m);
    SizeIsOrderLength(m);
    totalWoids := |m.order|;
    completionPercentage := CompletionPercentage(completeWoids, totalWoids);
    PercentageEnds(completeWoids, totalWoids);
  }

  /** No complete WOID rounds to 0%, and all WOIDs complete rounds to exactly 100%. */
  lemma PercentageEnds(completeWoids: nat, totalWoids: nat)
    ensures completeWoids == 0 ==> CompletionPercentage(completeWoids, totalWoids) == 0
    ensures completeWoids == totalWoids > 0 ==> CompletionPercentage(completeWoids, totalWoids) == 100
  {
    var p, t := CompletionPercentage(completeWoids, totalWoids), totalWoids;
    if t > 0 && completeWoids == 0 {
      MulCancel(2 * t, p, 1);
    }
    if t > 0 && completeWoids == t {
      MulCancel(2 * t, p, 101);
      MulCancel(2 * t, 100, p + 1);
    }
  }

  lemma RoundingBounds(a: nat, b: nat, c: nat, t: nat, p: nat)
    requires b > 0 && a == 200 * c + t && b == 2 * t && p == a / b
    ensures b * p <= a < b * (p + 1)
    ensures c <= t ==> p <= 100
  {
    var q := a % b;
    assert a == b * p + q && 0 <= q < b;
    assert b * (p + 1) == b * p + b;
    if c <= t {
      assert a < b * 101;
      assert p < 101 by {
        if p >= 101 { MulMonotone(b, 101, p); }
      }
    }
  }

  lemma MulMonotone(b: nat, x: nat, y: nat)
    requires x <= y
    ensures b * x <= b * y
  {
    assert b * y == b * x + b * (y - x);
  }

  lemma MulCancel(b: nat, x: nat, y: nat)
    requires b * x < b * y
    ensures x < y
  {
    if y <= x {
      MulMonotone(b, y, x);
    }
  }

  // ---------------------------------------------------------------------------------------------
  // Activity timeline

  datatype TimelineItem =
    | ReportItem(date: int, workOrderId: string, report: Report)
    | TicketUpdateItem(date: int, ticketId: string, update: TicketUpdate)

  datatype TimelineFilter = AllItems | ReportsOnly | TicketsOnly

  function ItemsOfReportGroup(g: ReportGroup): (r: seq<TimelineItem>)
    ensures |r| == |g.reports|
    ensures forall i :: 0 <= i < |r| ==> r[i] == ReportItem(g.reports[i].creationTime, g.workOrderId, g.reports[i])
  {
    seq(|g.reports|, i requires 0 <= i < |g.reports| => ReportItem(g.reports[i].creationTime, g.workOrderId, g.reports[i]))
  }

  /** How many reports the groups before index `i` hold: where the items of group `i` start. */
  function ReportsBefore(groups: seq<ReportGroup>, i: nat): nat
    requires i <= |groups|
  {
    if i == 0 then 0 else |groups[0].reports| + ReportsBefore(groups[1..], i - 1)
  }

  /** Where item `j` of group `i` sits in the flattened items. */
  function ReportSlot(groups: seq<ReportGroup>, i: nat, j: nat): nat
    requires i < |groups|
  {
    ReportsBefore(groups, i) + j
  }

  /**
   * `dailyReports.flatMap(...)`: one item per report, dated by its creation time, the items of each
   * group in report order and the groups one after another.
   */
  function ReportItems(groups: seq<ReportGroup>): (r: seq<TimelineItem>)
    ensures |r| == ReportsBefore(groups, |groups|)
    ensures forall k | 0 <= k < |r| :: r[k].ReportItem? && r[k].date == r[k].report.creationTime
  {
    if groups == [] then []
    else
      var head := ItemsOfReportGroup(groups[0]);
      var rest := ReportItems(groups[1..]);
      head + rest
  }

  /** Item `j` of group `i` sits at its slot: nothing is dropped, duplicated or reordered. */
  lemma {:induction false} ReportItemsAt(groups: seq<ReportGroup>, i: nat, j: nat)
    requires i < |groups| && j < |groups[i].reports|
    ensures ReportSlot(groups, i, j) < |ReportItems(groups)|
    ensures ReportItems(groups)[ReportSlot(groups, i, j)]
            == ReportItem(groups[i].reports[j].creationTime, groups[i].workOrderId, groups[i].reports[j])
  {
    var head, rest := ItemsOfReportGroup(groups[0]), ReportItems(groups[1..]);
    assert ReportItems(groups) == head + rest;
    if i == 0 {
      AppendIndexLeft(head, rest, j);
    } else {
      assert groups[1..][i - 1] == groups[i];
      assert ReportSlot(groups, i, j) == |head| + ReportSlot(groups[1..], i - 1, j);
      ReportItemsAt(groups[1..], i - 1, j);
      AppendIndexRight(head, rest, ReportSlot(groups[1..], i - 1, j));
    }
  }

  /** Conversely, every item is item `j` of some group `i`. */
  lemma {:induction false} ReportItemsFrom(groups: seq<ReportGroup>, k: nat)
    requires k < |ReportItems(groups)|
    ensures exists i, j :: 0 <= i < |groups| && 0 <= j < |groups[i].reports| && ReportSlot(groups, i, j) == k
  {
    var head := ItemsOfReportGroup(groups[0]);
    if k < |head| {
      assert ReportSlot(groups, 0, k) == k;
    } else {
      ReportItemsFrom(groups[1..], k - |head|);
      var i, j :| 0 <= i < |groups[1..]| && 0 <= j < |groups[1..][i].reports| && ReportSlot(groups[1..], i, j) == k - |head|;
      assert groups[1..][i] == groups[i + 1];
      assert ReportSlot(groups, i + 1, j) == k;
    }
  }

  function ItemsOfTicket(t: Ticket): (r: seq<TimelineItem>)
    ensures |r| == |t.updates|
    ensures forall i :: 0 <= i < |r| ==> r[i] == TicketUpdateItem(t.updates[i].creationTime, t.ticketId, t.updates[i])
  {
    seq(|t.updates|, i requires 0 <= i < |t.updates| => TicketUpdateItem(t.updates[i].creationTime, t.ticketId, t.updates[i]))
  }

  /** How many updates the tickets before index `i` hold: where the items of ticket `i` start. */
  function UpdatesBefore(tickets: seq<Ticket>, i: nat): nat
    requires i <= |tickets|
  {
    if i == 0 then 0 else |tickets[0].updates| + UpdatesBefore(tickets[1..], i - 1)
  }

  /** Where item `j` of ticket `i` sits in the flattened items. */
  function UpdateSlot(tickets: seq<Ticket>, i: nat, j: nat): nat
    requires i < |tickets|
  {
    UpdatesBefore(tickets, i) + j
  }

  /**
   * `tickets.flatMap(...)`: one item per ticket update, dated by its creation time, the items of
   * each ticket in update order and the tickets one after another.
   */
  function TicketItems(tickets: seq<Ticket>): (r: seq<TimelineItem>)
    ensures |r| == UpdatesBefore(tickets, |tickets|)
    ensures forall k | 0 <= k < |r| :: r[k].TicketUpdateItem? && r[k].date == r[k].update.creationTime
  {
    if tickets == [] then []
    else
      var head := ItemsOfTicket(tickets[0]);
      var rest := TicketItems(tickets[1..]);
      head + rest
  }

  /** Item `j` of ticket `i` sits at its slot: nothing is dropped, duplicated or reordered. */
  lemma {:induction false} TicketItemsAt(tickets: seq<Ticket>, i: nat, j: nat)
    requires i < |tickets| && j < |tickets[i].updates|
    ensures UpdateSlot(tickets, i, j) < |TicketItems(tickets)|
    ensures TicketItems(tickets)[UpdateSlot(tickets, i, j)]
            == TicketUpdateItem(tickets[i].updates[j].creationTime, tickets[i].ticketId, tickets[i].updates[j])
  {
    var head, rest := ItemsOfTicket(tickets[0]), TicketItems(tickets[1..]);
    assert TicketItems(tickets) == head + rest;
    if i == 0 {
      AppendIndexLeft(head, rest, j);
    } else {
      assert tickets[1..][i - 1] == tickets[i];
      assert UpdateSlot(tickets, i, j) == |head| + UpdateSlot(tickets[1..], i - 1, j);
      TicketItemsAt(tickets[1..], i - 1, j);
      AppendIndexRight(head, rest, UpdateSlot(tickets[1..], i - 1, j));
    }
  }

  /** Conversely, every item is item `j` of some ticket `i`. */
  lemma {:induction false} TicketItemsFrom(tickets: seq<Ticket>, k: nat)
    requires k < |TicketItems(tickets)|
    ensures exists i, j :: 0 <= i < |tickets| && 0 <= j < |tickets[i].updates| && UpdateSlot(tickets, i, j) == k
  {
    var head := ItemsOfTicket(tickets[0]);
    if k < |head| {
      assert UpdateSlot(tickets, 0, k) == k;
    } else {
      TicketItemsFrom(tickets[1..], k - |head|);
      var i, j :| 0 <= i < |tickets[1..]| && 0 <= j < |tickets[1..][i].updates| && UpdateSlot(tickets[1..], i, j) == k - |head|;
      assert tickets[1..][i] == tickets[i + 1];
      assert UpdateSlot(tickets, i + 1, j) == k;
    }
  }

  /** The filter callback; a filter value outside the three keeps everything, as `all` does. */
  predicate Keeps(filter: TimelineFilter, item: TimelineItem) {
    match filter
    case AllItems => true
    case ReportsOnly => item.ReportItem?
    case TicketsOnly => item.TicketUpdateItem?
  }

  function KeepsFilter(filter: TimelineFilter): TimelineItem -> bool {
    item => Keeps(filter, item)
  }

  predicate SortedNewestFirst(s: seq<TimelineItem>) {
    forall i, j :: 0 <= i < j < |s| ==> s[i].date >= s[j].date
  }

  /** The items of `s` with date `d`, in order. */
  function WithDate(s: seq<TimelineItem>, d: int): seq<TimelineItem> {
    if s == [] then [] else (if s[0].date == d then [s[0]] else []) + WithDate(s[1..], d)
  }

  /** Inserts `x` before the first item that is not newer than it. */
  function InsertByDate(x: TimelineItem, s: seq<TimelineItem>): (r: seq<TimelineItem>)
    ensures multiset(r) == multiset(s) + multiset{x}
  {
    if s == [] || s[0].date <= x.date then [x] + s
    else
      assert s == [s[0]] + s[1..];
      [s[0]] + InsertByDate(x, s[1..])
  }

  predicate NoNewerThan(s: seq<TimelineItem>, bound: int) {
    forall i :: 0 <= i < |s| ==> s[i].date <= bound
  }

  lemma {:induction false} InsertByDateBounded(x: TimelineItem, s: seq<TimelineItem>, bound: int)
    requires NoNewerThan(s, bound) && x.date <= bound
    ensures NoNewerThan(InsertByDate(x, s), bound)
  {
    if s != [] && s[0].date > x.date {
      InsertByDateBounded(x, s[1..], bound);
    }
  }

  /** Inserting into a newest-first sequence keeps it newest first. */
  lemma {:induction false} InsertByDateSorted(x: TimelineItem, s: seq<TimelineItem>)
    requires SortedNewestFirst(s)
    ensures SortedNewestFirst(InsertByDate(x, s))
  {
    if s != [] && s[0].date > x.date {
      var rest := InsertByDate(x, s[1..]);
      InsertByDateSorted(x, s[1..]);
      InsertByDateBounded(x, s[1..], s[0].date);
      var r := [s[0]] + rest;
      assert forall i :: 0 < i < |r| ==> r[i] == rest[i - 1];
    }
  }

  /**
   * `Array.prototype.sort` with the comparator `(a, b) => b.date - a.date`: newest first and,
   * as the sort is stable, items of equal date in their original order.
   */
  function SortNewestFirst(s: seq<TimelineItem>): (r: seq<TimelineItem>)
    ensures SortedNewestFirst(r)
    ensures multiset(r) == multiset(s)
  {
    if s == [] then []
    else
      assert s == [s[0]] + s[1..];
      InsertByDateSorted(s[0], SortNewestFirst(s[1..]));
      InsertByDate(s[0], SortNewestFirst(s[1..]))
  }

  lemma ConsWithDate(y: TimelineItem, t: seq<TimelineItem>, d: int)
    ensures WithDate([y] + t, d) == (if y.date == d then [y] else []) + WithDate(t, d)
  {
    assert ([y] + t)[0] == y && ([y] + t)[1..] == t;
  }

  /** Inserting `x` adds it in front of the other items of its date, which are all older. */
  lemma {:induction false} InsertByDateStable(x: TimelineItem, s: seq<TimelineItem>, d: int)
    ensures WithDate(InsertByDate(x, s), d) == (if x.date == d then [x] else []) + WithDate(s, d)
  {
    if s == [] || s[0].date <= x.date {
      assert InsertByDate(x, s) == [x] + s;
      ConsWithDate(x, s, d);
    } else {
      var rest := InsertByDate(x, s[1..]);
      var wx := if x.date == d then [x] else [];
      var w0 := if s[0].date == d then [s[0]] else [];
      var w1 := WithDate(s[1..], d);
      InsertByDateStable(x, s[1..], d);
      ConsWithDate(s[0], rest, d);
      assert WithDate(InsertByDate(x, s), d) == w0 + (wx + w1);
      assert WithDate(s, d) == w0 + w1;
      assert w0 == [] || wx == [];
      SwapEmpty(w0, wx, w1);
    }
  }

  /** The sort is stable: the items of any one date keep their relative order. */
  lemma {:induction false} SortStable(s: seq<TimelineItem>, d: int)
    ensures WithDate(SortNewestFirst(s), d) == WithDate(s, d)
  {
    if s != [] {
      SortStable(s[1..], d);
      InsertByDateStable(s[0], SortNewestFirst(s[1..]), d);
    }
  }

  /** The items a filter selects, before sorting. */
  function Selected(groups: seq<ReportGroup>, tickets: seq<Ticket>, filter: TimelineFilter): seq<TimelineItem> {
    match filter
    case AllItems => ReportItems(groups) + TicketItems(tickets)
    case ReportsOnly => ReportItems(groups)
    case TicketsOnly => TicketItems(tickets)
  }

  /** Each filter keeps either every report item or none of them. */
  lemma FilterReportItems(groups: seq<ReportGroup>, filter: TimelineFilter)
    ensures filter != TicketsOnly ==> Filter(ReportItems(groups), KeepsFilter(filter)) == ReportItems(groups)
    ensures filter == TicketsOnly ==> Filter(ReportItems(groups), KeepsFilter(filter)) == []
  {
    var reports := ReportItems(groups);
    if filter == TicketsOnly {
      FilterNonePass(reports, KeepsFilter(filter));
    } else {
      FilterAllPass(reports, KeepsFilter(filter));
    }
  }

  /** Each filter keeps either every ticket-update item or none of them. */
  lemma FilterTicketItems(tickets: seq<Ticket>, filter: TimelineFilter)
    ensures filter != ReportsOnly ==> Filter(TicketItems(tickets), KeepsFilter(filter)) == TicketItems(tickets)
    ensures filter == ReportsOnly ==> Filter(TicketItems(tickets), KeepsFilter(filter)) == []
  {
    var updates := TicketItems(tickets);
    if filter == ReportsOnly {
      FilterNonePass(updates, KeepsFilter(filter));
    } else {
      FilterAllPass(updates, KeepsFilter(filter));
    }
  }

  /** Filtering the concatenated items by kind gives the selection of that kind. */
  lemma FilterSelects(groups: seq<ReportGroup>, tickets: seq<Ticket>, filter: TimelineFilter)
    ensures Filter(ReportItems(groups) + TicketItems(tickets), KeepsFilter(filter)) == Selected(groups, tickets, filter)
  {
    FilterAppend(ReportItems(groups), TicketItems(tickets), KeepsFilter(filter));
    FilterReportItems(groups, filter);
    FilterTicketItems(tickets, filter);
    if filter == ReportsOnly {
      assert ReportItems(groups) + [] == ReportItems(groups);
    } else if filter == TicketsOnly {
      assert [] + TicketItems(tickets) == TicketItems(tickets);
    }
  }

  /**
   * The timeline: the report items followed by the ticket-update items, filtered by kind, sorted
   * newest first. It is a permutation of the selected items, and items of equal date keep the
   * order they had in the selection.
   */
  function Timeline(groups: seq<ReportGroup>, tickets: seq<Ticket>, filter: TimelineFilter): (r: seq<TimelineItem>)
    ensures SortedNewestFirst(r)
    ensures multiset(r) == multiset(Selected(groups, tickets, filter))
    ensures forall d :: WithDate(r, d) == WithDate(Selected(groups, tickets, filter), d)
    ensures filter == ReportsOnly ==> forall x | x in r :: x.ReportItem?
    ensures filter == TicketsOnly ==> forall x | x in r :: x.TicketUpdateItem?
  {
    var all := ReportItems(groups) + TicketItems(tickets);
    var kept := Filter(all, KeepsFilter(filter));
    FilterSelects(groups, tickets, filter);
    var r := SortNewestFirst(kept);
    assert forall d :: WithDate(r, d) == WithDate(kept, d) by {
      forall d ensures WithDate(r, d) == WithDate(kept, d) { SortStable(kept, d); }
    }
    assert forall x | x in r :: x in kept by {
      forall x | x in r ensures x in kept { assert x in multiset(r); }
    }
    r
  }

  /** The bucket key of a timeline item: the calendar day `dayKey` assigns to its date. */
  function DayKeyOf(dayKey: int -> string): TimelineItem -> Option<string> {
    (item: TimelineItem) => Some(dayKey(item.date))
  }

  /** Appending an item no newer than any other keeps a sequence newest first. */
  lemma SortedSnoc(b: seq<TimelineItem>, x: TimelineItem)
    requires SortedNewestFirst(b) && forall i :: 0 <= i < |b| ==> b[i].date >= x.date
    ensures SortedNewestFirst(b + [x])
  {
  }

  /** In a newest-first sequence, the last item is no newer than any item before it. */
  lemma LastIsOldest(s: seq<TimelineItem>, y: TimelineItem)
    requires s != [] && SortedNewestFirst(s) && y in s[..|s| - 1]
    ensures y.date >= s[|s| - 1].date
  {
    var j :| 0 <= j < |s| - 1 && s[..|s| - 1][j] == y;
    assert s[j] == y;
  }

  /** A bucket of a newest-first timeline is newest first too. */
  lemma {:induction false} BucketSorted(s: seq<TimelineItem>, key: TimelineItem -> Option<string>, k: string)
    requires SortedNewestFirst(s)
    ensures SortedNewestFirst(Bucket(s, key, k))
  {
    if s != [] {
      var p := s[..|s| - 1];
      var last := s[|s| - 1];
      assert SortedNewestFirst(p);
      BucketSorted(p, key, k);
      var b := Bucket(p, key, k);
      if key(last) == Some(k) {
        forall i | 0 <= i < |b| ensures b[i].date >= last.date {
          assert b[i] in b;
          LastIsOldest(s, b[i]);
        }
        SortedSnoc(b, last);
        assert Bucket(s, key, k) == b + [last];
      } else {
        assert Bucket(s, key, k) == b;
      }
    }
  }

  /**
   * `groupedTimeline`: the timeline bucketed by calendar day. Every day of some item has a bucket,
   * each bucket is the subsequence of the timeline on that day (so newest first), no item lies in
   * the bucket of another day, and the days are in the order of their first item. The page keeps
   * the buckets in a plain object read back with `Object.entries`, which lists integer-like keys
   * first; `toDateString` keys ("Mon Jan 01 2024") are never integer-like, so its order is
   * insertion order, the order modelled here.
   */
  method GroupedTimeline(timeline: seq<TimelineItem>, dayKey: int -> string)
    returns (g: OrderedMap<seq<TimelineItem>>)
    ensures Valid(g)
    ensures g.order == Dedup(PresentKeys(timeline, DayKeyOf(dayKey)))
    ensures forall i | 0 <= i < |timeline| :: dayKey(timeline[i].date) in g.entries
    ensures forall k | k in g.entries :: exists i :: 0 <= i < |timeline| && dayKey(timeline[i].date) == k
    ensures forall k, x | k in g.entries && x in g.entries[k] :: x in timeline && dayKey(x.date) == k
    ensures forall k | k in g.entries :: g.entries[k] == Bucket(timeline, DayKeyOf(dayKey), k)
    ensures forall k, x | k in g.entries && x in timeline && dayKey(x.date) == k ::
              multiset(g.entries[k])[x] == multiset(timeline)[x]
    ensures SortedNewestFirst(timeline) ==> forall k | k in g.entries :: SortedNewestFirst(g.entries[k])
  {
    g := GroupBy(timeline, DayKeyOf(dayKey));
    forall i | 0 <= i < |timeline| ensures dayKey(timeline[i].date) in g.entries {
      assert DayKeyOf(dayKey)(timeline[i]) == Some(dayKey(timeline[i].date));
    }
    forall k | k in g.entries ensures exists i :: 0 <= i < |timeline| && dayKey(timeline[i].date) == k {
      var i :| 0 <= i < |timeline| && DayKeyOf(dayKey)(timeline[i]) == Some(k);
    }
    if SortedNewestFirst(timeline) {
      forall k | k in g.entries ensures SortedNewestFirst(g.entries[k]) {
        BucketSorted(timeline, DayKeyOf(dayKey), k);
      }
    }
  }

  // ---------------------------------------------------------------------------------------------
  // Latest status per utility company of one ticket

  datatype UtilityStatus = UtilityStatus(status: string, updateDate: int)

  function Companies(updates: seq<TicketUpdate>): (r: seq<string>)
    ensures |r| == |updates| && forall i :: 0 <= i < |r| ==> r[i] == updates[i].utilityCompany
  {
    seq(|updates|, i requires 0 <= i < |updates| => updates[i].utilityCompany)
  }

  /**
   * Among the first `n` updates, the one at `i` is the update of `company` that is kept: no update
   * of that company is newer, and every earlier one is strictly older (a tie keeps the first).
   */
  ghost predicate IsLatest(updates: seq<TicketUpdate>, n: nat, company: string, i: nat) {
    && i < n <= |updates|
    && updates[i].utilityCompany == company
    && (forall j | 0 <= j < n && updates[j].utilityCompany == company :: updates[j].creationTime <= updates[i].creationTime)
    && (forall j | 0 <= j < i && updates[j].utilityCompany == company :: updates[j].creationTime < updates[i].creationTime)
  }

  /** At most one update of a company is the latest. */
  lemma LatestUnique(updates: seq<TicketUpdate>, n: nat, company: string, i: nat, j: nat)
    requires IsLatest(updates, n, company, i) && IsLatest(updates, n, company, j)
    ensures i == j
  {
  }

  /** Every company in `entries` maps to the status and date of its latest update among the first `n`. */
  ghost predicate LatestValues(updates: seq<TicketUpdate>, n: nat, entries: map<string, UtilityStatus>, at: map<string, nat>) {
    forall c | c in entries ::
      c in at && IsLatest(updates, n, c, at[c])
      && entries[c] == UtilityStatus(updates[at[c]].status, updates[at[c]].creationTime)
  }

  /** An update of another company leaves the latest update of `c` as it was. */
  lemma LatestOther(updates: seq<TicketUpdate>, n: nat, c: string, i: nat)
    requires n < |updates| && updates[n].utilityCompany != c && IsLatest(updates, n, c, i)
    ensures IsLatest(updates, n + 1, c, i)
  {
  }

  /** An update of `c` no newer than its latest so far leaves that one the latest. */
  lemma LatestKeep(updates: seq<TicketUpdate>, n: nat, c: string, i: nat)
    requires n < |updates| && IsLatest(updates, n, c, i)
    requires updates[n].creationTime <= updates[i].creationTime
    ensures IsLatest(updates, n + 1, c, i)
  {
  }

  /** An update of `c` strictly newer than its latest so far becomes the latest. */
  lemma LatestReplace(updates: seq<TicketUpdate>, n: nat, c: string, i: nat)
    requires n < |updates| && updates[n].utilityCompany == c && IsLatest(updates, n, c, i)
    requires updates[n].creationTime > updates[i].creationTime
    ensures IsLatest(updates, n + 1, c, n)
  {
  }

  /** The first update of `c` is its latest so far. */
  lemma LatestFirst(updates: seq<TicketUpdate>, n: nat, c: string)
    requires n < |updates| && updates[n].utilityCompany == c
    requires forall j | 0 <= j < n :: updates[j].utilityCompany != c
    ensures IsLatest(updates, n + 1, c, n)
  {
  }

  /** Values after an update that is stored: the company's first, or newer than its latest. */
  lemma ValuesStore(updates: seq<TicketUpdate>, n: nat, entries: map<string, UtilityStatus>, at: map<string, nat>)
    requires n < |updates| && LatestValues(updates, n, entries, at)
    requires updates[n].utilityCompany !in entries ==> forall j | 0 <= j < n :: updates[j].utilityCompany != updates[n].utilityCompany
    requires updates[n].utilityCompany in entries ==> updates[n].creationTime > entries[updates[n].utilityCompany].updateDate
    ensures LatestValues(updates, n + 1,
                         entries[updates[n].utilityCompany := UtilityStatus(updates[n].status, updates[n].creationTime)],
                         at[updates[n].utilityCompany := n])
  {
    var c := updates[n].utilityCompany;
    forall d | d in entries && d != c ensures IsLatest(updates, n + 1, d, at[d]) {
      LatestOther(updates, n, d, at[d]);
    }
    if c in entries {
      LatestReplace(updates, n, c, at[c]);
    } else {
      LatestFirst(updates, n, c);
    }
  }

  /** Values after an update that is dropped: its company already has one at least as new. */
  lemma ValuesDrop(updates: seq<TicketUpdate>, n: nat, entries: map<string, UtilityStatus>, at: map<string, nat>)
    requires n < |updates| && LatestValues(updates, n, entries, at)
    requires updates[n].utilityCompany in entries
    requires updates[n].creationTime <= entries[updates[n].utilityCompany].updateDate
    ensures LatestValues(updates, n + 1, entries, at)
  {
    var c := updates[n].utilityCompany;
    forall d | d in entries && d != c ensures IsLatest(updates, n + 1, d, at[d]) {
      LatestOther(updates, n, d, at[d]);
    }
    LatestKeep(updates, n, c, at[c]);
  }

  /** Storing under a key keeps the order the first-occurrence order of the keys seen. */
  lemma OrderStore<V>(m: OrderedMap<V>, cs: seq<string>, c: string, v: V)
    requires Valid(m) && m.order == Dedup(cs)
    ensures Set(m, c, v).order == Dedup(cs + [c])
  {
    DedupSnoc(cs, c);
  }

  /** What the utilities loop establishes once every update has been seen. */
  lemma LatestFinal(updates: seq<TicketUpdate>, m: OrderedMap<UtilityStatus>, at: map<string, nat>)
    requires Valid(m) && m.order == Dedup(Companies(updates))
    requires LatestValues(updates, |updates|, m.entries, at)
    ensures forall c :: c in m.entries <==> exists i :: 0 <= i < |updates| && updates[i].utilityCompany == c
    ensures forall c | c in m.entries ::
              exists i: nat :: (IsLatest(updates, |updates|, c, i)
                           && m.entries[c] == UtilityStatus(updates[i].status, updates[i].creationTime))
  {
    var cs := Companies(updates);
    forall c | c in m.entries
      ensures exists i: nat :: (IsLatest(updates, |updates|, c, i)
                           && m.entries[c] == UtilityStatus(updates[i].status, updates[i].creationTime))
    {
      assert IsLatest(updates, |updates|, c, at[c]);
    }
    forall c ensures c in m.entries <==> exists i :: 0 <= i < |updates| && updates[i].utilityCompany == c {
      if c in m.entries {
        assert IsLatest(updates, |updates|, c, at[c]);
      } else {
        forall i | 0 <= i < |updates| ensures updates[i].utilityCompany != c {
          assert cs[i] == updates[i].utilityCompany;
        }
      }
    }
  }

  /** What the utilities loop keeps after the first `n` updates. */
  ghost predicate LatestInv(updates: seq<TicketUpdate>, n: nat, m: OrderedMap<UtilityStatus>, at: map<string, nat>) {
    n <= |updates| && Valid(m) && m.order == Dedup(Companies(updates)[..n]) && LatestValues(updates, n, m.entries, at)
  }

  /** The companies of one update more. */
  lemma CompaniesSnoc(updates: seq<TicketUpdate>, n: nat)
    requires n < |updates|
    ensures Companies(updates)[..n + 1] == Companies(updates)[..n] + [updates[n].utilityCompany]
  {
  }

  /** A turn of the utilities loop that stores the update: its company's first, or newer than its latest. */
  lemma LatestStored(updates: seq<TicketUpdate>, n: nat, m0: OrderedMap<UtilityStatus>, at0: map<string, nat>,
                     m: OrderedMap<UtilityStatus>, at: map<string, nat>)
    requires n < |updates| && LatestInv(updates, n, m0, at0)
    requires var c := updates[n].utilityCompany;
             c !in m0.entries || updates[n].creationTime > m0.entries[c].updateDate
    requires m == Set(m0, updates[n].utilityCompany, UtilityStatus(updates[n].status, updates[n].creationTime))
    requires at == at0[updates[n].utilityCompany := n]
    ensures LatestInv(updates, n + 1, m, at)
  {
    var c := updates[n].utilityCompany;
    var cs := Companies(updates)[..n];
    CompaniesSnoc(updates, n);
    if c !in m0.entries {
      forall j | 0 <= j < n ensures updates[j].utilityCompany != c {
        assert cs[j] == updates[j].utilityCompany;
      }
    }
    ValuesStore(updates, n, m0.entries, at0);
    OrderStore(m0, cs, c, UtilityStatus(updates[n].status, updates[n].creationTime));
  }

  /** A turn of the utilities loop that drops the update: its company has one at least as new. */
  lemma LatestDropped(updates: seq<TicketUpdate>, n: nat, m: OrderedMap<UtilityStatus>, at: map<string, nat>)
    requires n < |updates| && LatestInv(updates, n, m, at)
    requires var c := updates[n].utilityCompany;
             c in m.entries && updates[n].creationTime <= m.entries[c].updateDate
    ensures LatestInv(updates, n + 1, m, at)
  {
    CompaniesSnoc(updates, n);
    ValuesDrop(updates, n, m.entries, at);
    DedupSnoc(Companies(updates)[..n], updates[n].utilityCompany);
  }

  /**
   * The per-ticket `utilities` map: for each company with an update, the status and date of its
   * newest update, the first one seen among updates of equal date; companies in order of their
   * first update.
   */
  method LatestUtilityStatus(updates: seq<TicketUpdate>) returns (m: OrderedMap<UtilityStatus>)
    ensures Valid(m)
    ensures m.order == Dedup(Companies(updates))
    ensures forall c :: c in m.entries <==> exists i :: 0 <= i < |updates| && updates[i].utilityCompany == c
    ensures forall c | c in m.entries ::
              exists i: nat :: (IsLatest(updates, |updates|, c, i)
                           && m.entries[c] == UtilityStatus(updates[i].status, updates[i].creationTime))
  {
    m := Empty();
    ghost var at: map<string, nat> := map[];
    assert Companies(updates)[..0] == [];
    var n := 0;
    while n < |updates|
      invariant 0 <= n <= |updates|
      invariant LatestInv(updates, n, m, at)
    {
      var u := updates[n];
      var c := u.utilityCompany;
      if c !in m.entries || u.creationTime > m.entries[c].updateDate {
        ghost var m0, at0 := m, at;
        m := Set(m, c, UtilityStatus(u.status, u.creationTime));
        at := at[c := n];
        LatestStored(updates, n, m0, at0, m, at);
      } else {
        LatestDropped(updates, n, m, at);
      }
      n := n + 1;
    }
    assert Companies(updates)[..n] == Companies(updates);
    LatestFinal(updates, m, at);
  }

  // ---------------------------------------------------------------------------------------------
  // File kind and utility status colour

  const ImageExtensions: seq<string> := [".jpg", ".jpeg", ".png", ".gif", ".webp", ".svg", ".bmp"]

  /**
   * `isImageFile`: a MIME type mentioning "image" makes a file an image; otherwise the lower-cased
   * name must end with one of the seven image extensions.
   */
  function IsImageFile(fileName: string, fileType: Option<string>): (r: bool)
    ensures r <==> (fileType.Some? && Occurs(fileType.value, "image"))
                   || exists e :: e in ImageExtensions && EndsWith(Lower(fileName), e)
  {
    if Truthy(fileType) && Contains(fileType.value, "image") then true
    else
      var name := Lower(fileName);
      var r := Any(ImageExtensions, ext => EndsWith(name, ext));
      assert r <==> exists e :: e in ImageExtensions && EndsWith(name, e) by {
        if r {
          var i :| 0 <= i < |ImageExtensions| && EndsWith(name, ImageExtensions[i]);
        }
      }
      assert fileType == Some("") ==> !Occurs(fileType.value, "image");
      r
  }

  /** The dot colours of a ticket update: `bg-green-500`, `bg-yellow-500` and `bg-gray-500`. */
  datatype StatusColor = Green | Yellow | Gray

  /**
   * `getStatusColor` of a ticket update: green when the lower-cased status mentions "clear" or
   * "marked", otherwise yellow when it mentions "pending" or "wait", otherwise gray.
   */
  function GetStatusColor(status: string): (c: StatusColor)
    ensures c == Green <==> Occurs(Lower(status), "clear") || Occurs(Lower(status), "marked")
    ensures c == Yellow <==> !Occurs(Lower(status), "clear") && !Occurs(Lower(status), "marked")
                             && (Occurs(Lower(status), "pending") || Occurs(Lower(status), "wait"))
  {
    var s := Lower(status);
    if Contains(s, "clear") || Contains(s, "marked") then Green
    else if Contains(s, "pending") || Contains(s, "wait") then Yellow
    else Gray
  }
}
