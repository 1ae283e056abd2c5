/** The live cron jobs behind the schedule rows. */
module Scheduling {
  import opened Text
  import opened Store

  /** What the closure of a cron entry captured, and the text it fires on. */
  datatype Job = Job(scheduleId: string, ruleId: string, cron: string)

  /** The cron library's table; entry IDs are handed out once. */
  datatype CronTable = CronTable(jobs: map<nat, Job>, next: nat) {
    function Add(job: Job): CronTable { CronTable(jobs[next := job], next + 1) }

    function Remove(entry: nat): CronTable { this.(jobs := jobs - {entry}) }
  }

  type JobMap = map<string, nat>

  type Live = map<string, Job>

  /** The map is injective, its range is exactly the live entries, and each entry carries the
      schedule it is mapped from. */
  ghost predicate Bijective(cron: CronTable, jobMap: JobMap) {
    && (forall e | e in cron.jobs :: e < cron.next)
    && (forall s | s in jobMap :: jobMap[s] in cron.jobs && cron.jobs[jobMap[s]].scheduleId == s)
    && (forall e | e in cron.jobs :: cron.jobs[e].scheduleId in jobMap && jobMap[cron.jobs[e].scheduleId] == e)
  }

  /** The live job of each mapped schedule. */
  ghost function LiveOf(cron: CronTable, jobMap: JobMap): (live: Live)
    requires Bijective(cron, jobMap)
    ensures live.Keys == jobMap.Keys
  {
    map s | s in jobMap :: cron.jobs[jobMap[s]]
  }

  /** The rows a load turns into jobs: enabled, with a cron text the library accepts. */
  function Loadable(accepts: string -> bool, rows: Schedules): set<string> {
    set s | s in rows && rows[s].enabled && accepts(rows[s].cron)
  }

  function JobOf(s: string, row: Schedule): Job { Job(s, row.ruleId, row.cron) }

  /** The live jobs a table asks for. */
  function Wanted(accepts: string -> bool, rows: Schedules): Live {
    map s | s in Loadable(accepts, rows) :: JobOf(s, rows[s])
  }

  /** The live jobs after AddOrUpdateSchedule. */
  function Updated(accepts: string -> bool, live: Live, s: string, row: Schedule): Live {
    if row.enabled && accepts(row.cron) then live[s := JobOf(s, row)] else live - {s}
  }

  class Scheduler {
    /** The cron library's parser. */
    const accepts: string -> bool
    var cron: CronTable
    var jobMap: JobMap

    constructor (accepts: string -> bool)
      ensures this.accepts == accepts && Consistent() && LiveJobs() == map[]
    {
      this.accepts := accepts;
      cron := CronTable(map[], 0);
      jobMap := map[];
    }

    ghost predicate Consistent()
      reads this
    {
      Bijective(cron, jobMap)
    }

    /** The live job of each mapped schedule. */
    ghost function LiveJobs(): (live: Live)
      requires Consistent()
      reads this
      ensures live.Keys == jobMap.Keys
    {
      LiveOf(cron, jobMap)
    }

    method AddJob(job: Job) returns (entry: Option<nat>)
      modifies this`cron
      ensures accepts(job.cron) ==> entry == Some(old(cron).next) && cron == old(cron).Add(job)
      ensures !accepts(job.cron) ==> entry == None && cron == old(cron)
    {
      if !accepts(job.cron) {
        return None;
      }
      entry := Some(cron.next);
      cron := cron.Add(job);
    }

    method RemoveSchedule(scheduleId: string)
      requires Mapped(cron, jobMap)
      modifies this
      ensures (cron, jobMap) == Apply(accepts, old(cron), old(jobMap), Unschedule(scheduleId))
      ensures old(Consistent()) ==> Consistent() && LiveJobs() == old(LiveJobs()) - {scheduleId}
    {
      if scheduleId in jobMap {
        cron := cron.Remove(jobMap[scheduleId]);
        jobMap := jobMap - {scheduleId};
      }
    }

    /** Replacing whatever job the schedule had; false when the cron text is rejected. */
    method AddOrUpdateSchedule(scheduleId: string, row: Schedule) returns (ok: bool)
      requires Mapped(cron, jobMap)
      modifies this
      ensures (cron, jobMap) == Apply(accepts, old(cron), old(jobMap), Install(scheduleId, row))
      ensures old(Consistent()) ==> Consistent() && LiveJobs() == Updated(accepts, old(LiveJobs()), scheduleId, row)
      ensures ok <==> (row.enabled ==> accepts(row.cron))
    {
      OpKeepsMapped(accepts, cron, jobMap, Unschedule(scheduleId));
      RemoveSchedule(scheduleId);
      if !row.enabled {
        return true;
      }
      ghost var before := cron;
      var entry := AddJob(JobOf(scheduleId, row));
      if entry.None? {
        return false;
      }
      if old(Consistent()) {
        FreshJobIsMapped(before, jobMap, JobOf(scheduleId, row));
      }
      jobMap := jobMap[scheduleId := entry.value];
      return true;
    }

    /** Loading adds one entry for each loadable row, on top of what is there, and maps it. No
        entry is orphaned if and only if none of those rows was mapped before. */
    method LoadSchedules(rows: Schedules) returns (ghost order: seq<string>)
      requires Mapped(cron, jobMap)
      modifies this
      ensures Lists(order, rows.Keys) && (cron, jobMap) == Apply(accepts, old(cron), old(jobMap), Load(rows, order))
      ensures old(Consistent()) ==>
                && jobMap.Keys == old(jobMap).Keys + Loadable(accepts, rows)
                && (forall s | s in Loadable(accepts, rows) ::
                    jobMap[s] in cron.jobs && cron.jobs[jobMap[s]] == JobOf(s, rows[s]))
                && (Consistent() <==> Loadable(accepts, rows) !! old(jobMap).Keys)
                && (Consistent() ==> LiveJobs() == old(LiveJobs()) + Wanted(accepts, rows))
      ensures forall s | s in Loadable(accepts, rows) && s in old(jobMap) :: IsOrphan(cron, jobMap, old(jobMap)[s])
    {
      var visited := Enumerate(rows.Keys);
      order := visited;
      for i := 0 to |visited|
        invariant (cron, jobMap) == LoadAll(accepts, rows, visited[..i], old(cron), old(jobMap))
      {
        assert visited[..i + 1][..i] == visited[..i];
        if rows[visited[i]].enabled {
          var entry := AddJob(JobOf(visited[i], rows[visited[i]]));
          if entry.None? {
            continue;
          }
          jobMap := jobMap[visited[i] := entry.value];
        }
      }
      assert visited[..|visited|] == visited;
      if old(Consistent()) {
        LoadAllLoads(accepts, rows, visited, old(cron), old(jobMap));
      }
      forall s | s in Loadable(accepts, rows) && s in old(jobMap) ensures IsOrphan(cron, jobMap, old(jobMap)[s]) {
        LoadOrphans(accepts, rows, visited, old(cron), old(jobMap), s);
      }
    }

    /** Removing every mapped job and loading the table again. */
    method ReloadSchedules(rows: Schedules) returns (ghost order: seq<string>)
      requires Mapped(cron, jobMap)
      modifies this
      ensures Lists(order, rows.Keys) && (cron, jobMap) == Apply(accepts, old(cron), old(jobMap), Reload(rows, order))
      ensures old(Consistent()) ==> Consistent() && LiveJobs() == Wanted(accepts, rows)
    {
      RemoveMapped();
      order := LoadSchedules(rows);
    }

    /** The loop over the mapped jobs. */
    method RemoveMapped()
      requires Mapped(cron, jobMap)
      modifies this
      ensures cron == Cleared(old(cron), old(jobMap)) && jobMap == map[] && Mapped(cron, jobMap)
      ensures old(Consistent()) ==> Consistent() && LiveJobs() == map[]
    {
      var mapped := Enumerate(jobMap.Keys);
      for i := 0 to |mapped|
        invariant jobMap == old(jobMap)
        invariant cron == CronTable(Without(old(cron).jobs, old(jobMap), mapped[..i]), old(cron).next)
      {
        WithoutOneMore(old(cron).jobs, old(jobMap), mapped[..i], mapped[i]);
        assert mapped[..i + 1] == mapped[..i] + [mapped[i]];
        cron := cron.Remove(jobMap[mapped[i]]);
      }
      assert mapped[..|mapped|] == mapped;
      ClearedIsMapped(old(cron), old(jobMap), mapped);
      jobMap := map[];
    }
  }

  /** Every mapped entry is live and carries the schedule it is mapped from. */
  ghost predicate Mapped(cron: CronTable, jobMap: JobMap) {
    && (forall e | e in cron.jobs :: e < cron.next)
    && (forall s | s in jobMap :: jobMap[s] in cron.jobs && cron.jobs[jobMap[s]].scheduleId == s)
  }

  /** A live entry that no schedule is mapped to. */
  predicate IsOrphan(cron: CronTable, jobMap: JobMap, e: nat) {
    e in cron.jobs && forall s | s in jobMap :: jobMap[s] != e
  }

  /** Map and cron table are in one-to-one correspondence exactly when there is no orphan. */
  lemma {:induction false} BijectiveIffNoOrphan(cron: CronTable, jobMap: JobMap)
    requires Mapped(cron, jobMap)
    ensures Bijective(cron, jobMap) <==> forall e | e in cron.jobs :: !IsOrphan(cron, jobMap, e)
  {
    if forall e | e in cron.jobs :: !IsOrphan(cron, jobMap, e) {
      forall e | e in cron.jobs ensures cron.jobs[e].scheduleId in jobMap && jobMap[cron.jobs[e].scheduleId] == e {
        assert !IsOrphan(cron, jobMap, e);
      }
    } else {
      var e :| e in cron.jobs && IsOrphan(cron, jobMap, e);
      assert !Bijective(cron, jobMap);
    }
  }

  // ---- Orphans ----

  /** The scheduler's operations; a load visits the rows in the given order. */
  datatype Op =
    | Unschedule(id: string)
    | Install(id: string, row: Schedule)
    | Load(rows: Schedules, order: seq<string>)
    | Reload(rows: Schedules, order: seq<string>)

  /** The entries none of the given schedules is mapped to. */
  function Without(jobs: map<nat, Job>, jobMap: JobMap, schedules: seq<string>): map<nat, Job>
    requires forall s | s in schedules :: s in jobMap
  {
    map e | e in jobs && forall s | s in schedules :: jobMap[s] != e :: jobs[e]
  }

  lemma {:induction false} WithoutOneMore(jobs: map<nat, Job>, jobMap: JobMap, schedules: seq<string>, s: string)
    requires s in jobMap && forall s' | s' in schedules :: s' in jobMap
    ensures Without(jobs, jobMap, schedules + [s]) == Without(jobs, jobMap, schedules) - {jobMap[s]}
  {
  }

  lemma {:induction false} ClearedIsMapped(cron: CronTable, jobMap: JobMap, schedules: seq<string>)
    requires Mapped(cron, jobMap) && Lists(schedules, jobMap.Keys)
    ensures CronTable(Without(cron.jobs, jobMap, schedules), cron.next) == Cleared(cron, jobMap)
    ensures Mapped(Cleared(cron, jobMap), map[])
    ensures Bijective(cron, jobMap) ==> Bijective(Cleared(cron, jobMap), map[])
  {
  }

  function Cleared(cron: CronTable, jobMap: JobMap): CronTable {
    cron.(jobs := map e | e in cron.jobs && (forall s | s in jobMap :: jobMap[s] != e) :: cron.jobs[e])
  }

  /** What each operation makes of the cron table and the map. */
  function Apply(accepts: string -> bool, cron: CronTable, jobMap: JobMap, op: Op): (CronTable, JobMap) {
    match op
    case Unschedule(id) => if id in jobMap then (cron.Remove(jobMap[id]), jobMap - {id}) else (cron, jobMap)
    case Install(id, row) =>
      var (cron, jobMap) := if id in jobMap then (cron.Remove(jobMap[id]), jobMap - {id}) else (cron, jobMap);
      if row.enabled && accepts(row.cron) then (cron.Add(JobOf(id, row)), jobMap[id := cron.next]) else (cron, jobMap)
    case Load(rows, order) => LoadAll(accepts, rows, order, cron, jobMap)
    case Reload(rows, order) => LoadAll(accepts, rows, order, Cleared(cron, jobMap), map[])
  }

  lemma {:induction false} LoadKeepsMapped(accepts: string -> bool, rows: Schedules, order: seq<string>,
                                           cron0: CronTable, map0: JobMap)
    requires Mapped(cron0, map0)
    ensures var (cron, jobMap) := LoadAll(accepts, rows, order, cron0, map0);
            && Mapped(cron, jobMap)
            && forall e | IsOrphan(cron0, map0, e) :: IsOrphan(cron, jobMap, e) && cron.jobs[e] == cron0.jobs[e]
  {
    if order != [] {
      LoadKeepsMapped(accepts, rows, order[..|order| - 1], cron0, map0);
    }
  }

  /** No operation touches an orphan: its job stays live, and no schedule gets mapped to it. */
  lemma {:induction false} OpKeepsMapped(accepts: string -> bool, cron: CronTable, jobMap: JobMap, op: Op)
    requires Mapped(cron, jobMap)
    ensures var (cron', jobMap') := Apply(accepts, cron, jobMap, op);
            && Mapped(cron', jobMap')
            && forall e | IsOrphan(cron, jobMap, e) :: IsOrphan(cron', jobMap', e) && cron'.jobs[e] == cron.jobs[e]
  {
    match op {
      case Load(rows, order) => LoadKeepsMapped(accepts, rows, order, cron, jobMap);
      case Reload(rows, order) => LoadKeepsMapped(accepts, rows, order, Cleared(cron, jobMap), map[]);
      case Install(_, _) =>
      case Unschedule(_) =>
    }
  }

  function ApplyAll(accepts: string -> bool, cron: CronTable, jobMap: JobMap, ops: seq<Op>): (CronTable, JobMap)
    decreases ops
  {
    if ops == [] then (cron, jobMap)
    else
      var (cron', jobMap') := Apply(accepts, cron, jobMap, ops[0]);
      ApplyAll(accepts, cron', jobMap', ops[1..])
  }

  /** Once orphaned, an entry fires its job for good: no run of operations removes it or maps it. */
  lemma {:induction false} OrphansNeverGo(accepts: string -> bool, cron: CronTable, jobMap: JobMap, ops: seq<Op>,
                                          e: nat)
    requires Mapped(cron, jobMap) && IsOrphan(cron, jobMap, e)
    ensures var (cron', jobMap') := ApplyAll(accepts, cron, jobMap, ops);
            IsOrphan(cron', jobMap', e) && cron'.jobs[e] == cron.jobs[e]
    decreases ops
  {
    if ops != [] {
      OpKeepsMapped(accepts, cron, jobMap, ops[0]);
      var (cron', jobMap') := Apply(accepts, cron, jobMap, ops[0]);
      OrphansNeverGo(accepts, cron', jobMap', ops[1..], e);
    }
  }

  /** Mapping a new entry keeps the map bijective exactly when the schedule was not mapped;
      otherwise the entry it was mapped to becomes an orphan. */
  lemma {:induction false} MapOneMore(cron: CronTable, jobMap: JobMap, job: Job)
    requires Mapped(cron, jobMap)
    ensures var cron', jobMap' := cron.Add(job), jobMap[job.scheduleId := cron.next];
            && Mapped(cron', jobMap')
            && (Bijective(cron, jobMap) ==> (Bijective(cron', jobMap') <==> job.scheduleId !in jobMap))
            && (job.scheduleId in jobMap ==> IsOrphan(cron', jobMap', jobMap[job.scheduleId]))
            && (forall e | IsOrphan(cron, jobMap, e) :: IsOrphan(cron', jobMap', e))
  {
    var cron', jobMap' := cron.Add(job), jobMap[job.scheduleId := cron.next];
    assert forall e | e in cron.jobs :: e in cron'.jobs && cron'.jobs[e] == cron.jobs[e];
    BijectiveIffNoOrphan(cron', jobMap');
  }

  /** Mapping a new entry for an unmapped schedule adds exactly that job to the live ones. */
  lemma {:induction false} FreshJobIsMapped(cron: CronTable, jobMap: JobMap, job: Job)
    requires Bijective(cron, jobMap) && job.scheduleId !in jobMap
    ensures var cron', jobMap' := cron.Add(job), jobMap[job.scheduleId := cron.next];
            Bijective(cron', jobMap') && LiveOf(cron', jobMap') == LiveOf(cron, jobMap)[job.scheduleId := job]
  {
    MapOneMore(cron, jobMap, job);
  }

  /** A load in progress: the rows in `loaded` have been added to the tables it started from. */
  ghost predicate Loading(cron: CronTable, jobMap: JobMap, map0: JobMap, live0: Live, rows: Schedules,
                          loaded: set<string>) {
    && live0.Keys == map0.Keys
    && loaded <= rows.Keys
    && Mapped(cron, jobMap) && jobMap.Keys == map0.Keys + loaded
    && (forall s | s in jobMap :: cron.jobs[jobMap[s]] == if s in loaded then JobOf(s, rows[s]) else live0[s])
    && (Bijective(cron, jobMap) <==> loaded !! map0.Keys)
  }

  lemma {:induction false} LoadOneMore(cron: CronTable, jobMap: JobMap, map0: JobMap, live0: Live, rows: Schedules,
                                       loaded: set<string>, s: string)
    requires Loading(cron, jobMap, map0, live0, rows, loaded) && s in rows && s !in loaded
    ensures Loading(cron.Add(JobOf(s, rows[s])), jobMap[s := cron.next], map0, live0, rows, loaded + {s})
  {
    MapOneMore(cron, jobMap, JobOf(s, rows[s]));
    assert (loaded + {s}) !! map0.Keys <==> loaded !! map0.Keys && s !in map0;
    BijectiveIffNoOrphan(cron, jobMap);
    BijectiveIffNoOrphan(cron.Add(JobOf(s, rows[s])), jobMap[s := cron.next]);
  }

  /** The tables after visiting some rows in order, starting from cron0 and map0. */
  function LoadAll(accepts: string -> bool, rows: Schedules, order: seq<string>, cron0: CronTable,
                   map0: JobMap): (CronTable, JobMap)
  {
    if order == [] then (cron0, map0)
    else
      var s := order[|order| - 1];
      var (cron, jobMap) := LoadAll(accepts, rows, order[..|order| - 1], cron0, map0);
      if s in Loadable(accepts, rows) then (cron.Add(JobOf(s, rows[s])), jobMap[s := cron.next]) else (cron, jobMap)
  }

  /** The loadable rows among the visited ones. */
  ghost function LoadedOf(accepts: string -> bool, rows: Schedules, order: seq<string>): (loaded: set<string>)
    ensures forall s :: s in loaded <==> s in order && s in Loadable(accepts, rows)
  {
    if order == [] then {}
    else
      var s := order[|order| - 1];
      assert order == order[..|order| - 1] + [s];
      LoadedOf(accepts, rows, order[..|order| - 1]) + (if s in Loadable(accepts, rows) then {s} else {})
  }

  lemma {:induction false} LoadAllIsLoading(accepts: string -> bool, rows: Schedules, order: seq<string>,
                                            cron0: CronTable, map0: JobMap, live0: Live)
    requires forall s | s in order :: s in rows
    requires forall i, j :: 0 <= i < j < |order| ==> order[i] != order[j]
    requires Loading(cron0, map0, map0, live0, rows, {})
    ensures var (cron, jobMap) := LoadAll(accepts, rows, order, cron0, map0);
            Loading(cron, jobMap, map0, live0, rows, LoadedOf(accepts, rows, order))
  {
    if order != [] {
      var n := |order| - 1;
      LoadAllIsLoading(accepts, rows, order[..n], cron0, map0, live0);
      if order[n] in Loadable(accepts, rows) {
        var (cron, jobMap) := LoadAll(accepts, rows, order[..n], cron0, map0);
        LoadOneMore(cron, jobMap, map0, live0, rows, LoadedOf(accepts, rows, order[..n]), order[n]);
      }
    }
  }

  lemma {:induction false} LoadingDone(cron: CronTable, jobMap: JobMap, map0: JobMap, live0: Live, rows: Schedules,
                                       loaded: set<string>)
    requires Loading(cron, jobMap, map0, live0, rows, loaded)
    ensures Bijective(cron, jobMap) <==> loaded !! map0.Keys
    ensures Bijective(cron, jobMap) ==> LiveOf(cron, jobMap) == live0 + map s | s in loaded :: JobOf(s, rows[s])
  {
  }

  lemma {:induction false} LoadAllLoads(accepts: string -> bool, rows: Schedules, order: seq<string>,
                                        cron0: CronTable, map0: JobMap)
    requires Lists(order, rows.Keys) && Bijective(cron0, map0)
    ensures var (cron, jobMap) := LoadAll(accepts, rows, order, cron0, map0);
            && jobMap.Keys == map0.Keys + Loadable(accepts, rows)
            && (forall s | s in Loadable(accepts, rows) ::
                jobMap[s] in cron.jobs && cron.jobs[jobMap[s]] == JobOf(s, rows[s]))
            && (Bijective(cron, jobMap) <==> Loadable(accepts, rows) !! map0.Keys)
            && (Bijective(cron, jobMap) ==> LiveOf(cron, jobMap) == LiveOf(cron0, map0) + Wanted(accepts, rows))
  {
    var (cron, jobMap) := LoadAll(accepts, rows, order, cron0, map0);
    var live0 := LiveOf(cron0, map0);
    LoadAllIsLoading(accepts, rows, order, cron0, map0, live0);
    assert LoadedOf(accepts, rows, order) == Loadable(accepts, rows);
    LoadingDone(cron, jobMap, map0, live0, rows, Loadable(accepts, rows));
  }

  /** Loading a row that was mapped orphans the entry it was mapped to. */
  lemma {:induction false} LoadOrphans(accepts: string -> bool, rows: Schedules, order: seq<string>,
                                       cron0: CronTable, map0: JobMap, s: string)
    requires Mapped(cron0, map0) && s in map0
    ensures var (cron, jobMap) := LoadAll(accepts, rows, order, cron0, map0);
            if s in order && s in Loadable(accepts, rows) then IsOrphan(cron, jobMap, map0[s])
            else s in jobMap && jobMap[s] == map0[s]
  {
    if order != [] {
      var n := |order| - 1;
      assert order == order[..n] + [order[n]];
      LoadOrphans(accepts, rows, order[..n], cron0, map0, s);
      LoadKeepsMapped(accepts, rows, order[..n], cron0, map0);
      if order[n] in Loadable(accepts, rows) {
        var (cron, jobMap) := LoadAll(accepts, rows, order[..n], cron0, map0);
        MapOneMore(cron, jobMap, JobOf(order[n], rows[order[n]]));
      }
    }
  }

  // ---- Incremental scheduling over whole runs ----

  /** A row change, each followed by the matching scheduler call. */
  datatype Change = Upsert(id: string, row: Schedule) | Delete(id: string)

  function RowsAfter(rows: Schedules, changes: seq<Change>): Schedules
    decreases changes
  {
    if changes == [] then rows
    else
      match changes[0]
      case Upsert(id, row) => RowsAfter(rows[id := row], changes[1..])
      case Delete(id) => RowsAfter(rows - {id}, changes[1..])
  }

  function LiveAfter(accepts: string -> bool, live: Live, changes: seq<Change>): Live
    decreases changes
  {
    if changes == [] then live
    else
      match changes[0]
      case Upsert(id, row) => LiveAfter(accepts, Updated(accepts, live, id, row), changes[1..])
      case Delete(id) => LiveAfter(accepts, live - {id}, changes[1..])
  }

  /** One row change and the matching call lead to the jobs a reload builds. */
  lemma {:induction false} UpdatedIsWanted(accepts: string -> bool, rows: Schedules, id: string, row: Schedule)
    ensures Updated(accepts, Wanted(accepts, rows), id, row) == Wanted(accepts, rows[id := row])
    ensures Wanted(accepts, rows) - {id} == Wanted(accepts, rows - {id})
  {
  }

  /** Following any run of row changes incrementally leaves exactly the jobs that a reload builds
      from the final table, disabled rows and rejected cron texts included. */
  lemma {:induction false} IncrementalEqualsReload(accepts: string -> bool, rows: Schedules, changes: seq<Change>)
    ensures LiveAfter(accepts, Wanted(accepts, rows), changes) == Wanted(accepts, RowsAfter(rows, changes))
    decreases changes
  {
    if changes != [] {
      match changes[0]
      case Upsert(id, row) =>
        UpdatedIsWanted(accepts, rows, id, row);
        IncrementalEqualsReload(accepts, rows[id := row], changes[1..]);
      case Delete(id) =>
        UpdatedIsWanted(accepts, rows, id, Schedule("", "", false));
        IncrementalEqualsReload(accepts, rows - {id}, changes[1..]);
    }
  }

  /** Of any run of row changes, the last one of a schedule decides: it has a live job, of its own rule
      and cron text, exactly if it was last written as enabled with a text the library accepts. */
  lemma {:induction false} LastChangeDecides(accepts: string -> bool, live: Live, changes: seq<Change>, i: nat)
    requires i < |changes| && forall j | i < j < |changes| :: changes[j].id != changes[i].id
    ensures var id, after := changes[i].id, LiveAfter(accepts, live, changes);
            && (id in after <==> changes[i].Upsert? && changes[i].row.enabled && accepts(changes[i].row.cron))
            && (id in after ==> after[id].scheduleId == id && after[id].ruleId == changes[i].row.ruleId
                                && after[id].cron == changes[i].row.cron)
    decreases changes
  {
    var next := match changes[0] case Upsert(id, row) => Updated(accepts, live, id, row) case Delete(id) => live - {id};
    if i > 0 {
      LastChangeDecides(accepts, next, changes[1..], i - 1);
    } else {
      UntouchedStays(accepts, next, changes[1..], changes[0].id);
    }
  }

  lemma {:induction false} UntouchedStays(accepts: string -> bool, live: Live, changes: seq<Change>, id: string)
    requires forall c | c in changes :: c.id != id
    ensures var after := LiveAfter(accepts, live, changes);
            (id in after <==> id in live) && (id in live ==> after[id] == live[id])
    decreases changes
  {
    if changes != [] {
      assert changes[0] in changes;
      match changes[0]
      case Upsert(s, row) => UntouchedStays(accepts, Updated(accepts, live, s, row), changes[1..], id);
      case Delete(s) => UntouchedStays(accepts, live - {s}, changes[1..], id);
    }
  }
}
