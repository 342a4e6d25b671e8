/**
 * The reconciliation (`diff`): for every configured project, the fetched
 * issues pass the milestone filter and are compared with the parsed
 * tasks by issue number. Issues without a task and tasks without an
 * issue are reported, each side in its own hash's order; a project with
 * neither is "Clear".
 */
module Reconcile {
  import opened Wrappers
  import opened OrderedHash
  import opened TaskText
  import opened TaskParser
  import opened Snapshot

  /**
   * A configured project: its name and its `milestones` `includes` and
   * `excludes` lists. A missing list reads as `[]`, as the configuration's default.
   */
  datatype Project = Project(name: string, includes: seq<string>, excludes: seq<string>)

  /** The outcome for one project. */
  datatype Report =
    | Clear(project: string)
    | Differs(project: string, newIssues: seq<Entry>, oldTasks: seq<Task>)

  /** The names of the configured projects, in configuration order. */
  function Names(projects: seq<Project>): (r: seq<string>)
    ensures |r| == |projects|
    ensures forall i :: 0 <= i < |projects| ==> r[i] == projects[i].name
  {
    if projects == [] then []
    else Names(projects[..|projects| - 1]) + [projects[|projects| - 1].name]
  }

  // ---------------------------------------------------------------------
  // The milestone filter
  // ---------------------------------------------------------------------

  /** The reference: a milestone passes when the includes list is empty or names it, and the excludes list does not. */
  predicate Passes(milestone: string, includes: seq<string>, excludes: seq<string>) {
    (|includes| == 0 || milestone in includes) && milestone !in excludes
  }

  /** The issue numbers whose milestone is listed in `milestones`. */
  function WithMilestoneIn(issues: IssueHash, milestones: seq<string>): set<nat> {
    set k | k in issues.entries && issues.entries[k].milestone in milestones
  }

  /** The issue numbers whose milestone is not listed in `milestones`. */
  function WithMilestoneNotIn(issues: IssueHash, milestones: seq<string>): set<nat> {
    set k | k in issues.entries && issues.entries[k].milestone !in milestones
  }

  /** The include stage: the issues whose milestone is listed, in their order. */
  function SelectMilestones(issues: IssueHash, includes: seq<string>): (r: IssueHash)
    requires issues.Valid()
    ensures r.Valid()
    ensures forall k :: k in r.entries <==> k in issues.entries && issues.entries[k].milestone in includes
    ensures forall k :: k in r.entries ==> r.entries[k] == issues.entries[k]
  {
    Restrict(issues, WithMilestoneIn(issues, includes))
  }

  /** The exclude stage: the issues whose milestone is not listed, in their order. */
  function RejectMilestones(issues: IssueHash, excludes: seq<string>): (r: IssueHash)
    requires issues.Valid()
    ensures r.Valid()
    ensures forall k :: k in r.entries <==> k in issues.entries && issues.entries[k].milestone !in excludes
    ensures forall k :: k in r.entries ==> r.entries[k] == issues.entries[k]
  {
    Restrict(issues, WithMilestoneNotIn(issues, excludes))
  }

  /** The two filter stages in their fixed order, bypassed by `--ignore-filter`. */
  function MilestoneFilter(issues: IssueHash, includes: seq<string>, excludes: seq<string>, ignore: bool): (r: IssueHash)
    requires issues.Valid()
    ensures r.Valid()
  {
    if ignore then issues
    else
      var selected := if includes == [] then issues else SelectMilestones(issues, includes);
      if excludes == [] then selected else RejectMilestones(selected, excludes)
  }

  /** The issue numbers the filter keeps. */
  function Kept(issues: IssueHash, includes: seq<string>, excludes: seq<string>, ignore: bool): set<nat> {
    set k | k in issues.entries && (ignore || Passes(issues.entries[k].milestone, includes, excludes))
  }

  /**
   * The filter keeps exactly the issues whose milestone passes (all of
   * them when ignoring the filter), unchanged and in their original order.
   */
  lemma FilterKeeps(issues: IssueHash, includes: seq<string>, excludes: seq<string>, ignore: bool)
    requires issues.Valid()
    ensures var r := MilestoneFilter(issues, includes, excludes, ignore);
      && (forall k :: k in r.entries <==> k in Kept(issues, includes, excludes, ignore))
      && (forall k :: k in r.entries ==> r.entries[k] == issues.entries[k])
      && r.keys == Filter(issues.keys, Kept(issues, includes, excludes, ignore))
  {
    var kept := Kept(issues, includes, excludes, ignore);
    if ignore {
      FilterAll(issues.keys, kept);
    } else {
      FilterStagesKeys(issues, includes, excludes);
    }
  }

  /** The keys the two stages leave, in order. */
  lemma FilterStagesKeys(issues: IssueHash, includes: seq<string>, excludes: seq<string>)
    requires issues.Valid()
    ensures MilestoneFilter(issues, includes, excludes, false).keys
         == Filter(issues.keys, Kept(issues, includes, excludes, false))
  {
    var kept := Kept(issues, includes, excludes, false);
    var first := if includes == [] then issues.entries.Keys else WithMilestoneIn(issues, includes);
    var selected := if includes == [] then issues else SelectMilestones(issues, includes);
    if includes == [] {
      FilterAll(issues.keys, first);
    }
    assert selected.keys == Filter(issues.keys, first);
    var r := MilestoneFilter(issues, includes, excludes, false);
    if excludes == [] {
      assert r == selected;
      FilterCongruent(issues.keys, first, kept);
    } else {
      var second := WithMilestoneNotIn(selected, excludes);
      assert r.keys == Filter(selected.keys, second);
      FilterFilter(issues.keys, first, second);
      FilterCongruent(issues.keys, first * second, kept);
    }
  }

  /** With the filter ignored, or with both lists empty, every issue is kept. */
  lemma FilterIdentity(issues: IssueHash, includes: seq<string>, excludes: seq<string>, ignore: bool)
    requires issues.Valid()
    requires ignore || (includes == [] && excludes == [])
    ensures MilestoneFilter(issues, includes, excludes, ignore) == issues
  {
  }

  /**
   * What survives the filter: only issues of the input, every one with a
   * listed milestone when the include list is in force, and none whose
   * milestone is excluded, even when it is included too.
   */
  lemma FilterBounds(issues: IssueHash, includes: seq<string>, excludes: seq<string>, ignore: bool)
    requires issues.Valid()
    ensures var r := MilestoneFilter(issues, includes, excludes, ignore);
      && (forall k :: k in r.entries ==> k in issues.entries && r.entries[k] == issues.entries[k])
      && (!ignore && includes != [] ==> forall k :: k in r.entries ==> r.entries[k].milestone in includes)
      && (!ignore ==> forall k :: k in r.entries ==> r.entries[k].milestone !in excludes)
  {
    FilterKeeps(issues, includes, excludes, ignore);
  }

  /**
   * A wider include list (or none at all) and a narrower exclude list
   * never keep fewer issues.
   */
  lemma FilterMonotone(issues: IssueHash, includes1: seq<string>, excludes1: seq<string>,
                       includes2: seq<string>, excludes2: seq<string>)
    requires issues.Valid()
    requires includes1 == [] || (includes2 != [] && forall m :: m in includes2 ==> m in includes1)
    requires forall m :: m in excludes1 ==> m in excludes2
    ensures forall k :: k in MilestoneFilter(issues, includes2, excludes2, false).entries ==>
      k in MilestoneFilter(issues, includes1, excludes1, false).entries
  {
    FilterKeeps(issues, includes1, excludes1, false);
    FilterKeeps(issues, includes2, excludes2, false);
  }

  // ---------------------------------------------------------------------
  // The key differences
  // ---------------------------------------------------------------------

  /** The hash of project `name`, or an empty hash when the map lacks the project. */
  function OrEmpty<V>(m: map<string, Hash<nat, V>>, name: string): (h: Hash<nat, V>)
    ensures name !in m ==> |h.keys| == 0 && h.entries == map[]
    ensures name in m ==> h == m[name]
  {
    if name in m then m[name] else Empty()
  }

  /** The reports of one project: issues without a task, tasks without an issue. */
  function ProjectReport(name: string, issues: IssueHash, tasks: TaskHash): (r: Report)
    requires issues.Valid() && tasks.Valid()
    ensures r.project == name
    ensures r.Differs? ==> r.newIssues != [] || r.oldTasks != []
    ensures r.Differs? ==> |r.newIssues| <= |issues.keys| && |r.oldTasks| <= |tasks.keys|
  {
    var newIssues := Values(issues, OnlyIn(issues, tasks));
    var oldTasks := Values(tasks, OnlyIn(tasks, issues));
    if newIssues == [] && oldTasks == [] then Clear(name)
    else Differs(name, newIssues, oldTasks)
  }

  /** The issues a report lists, none when it is Clear. */
  function NewIssues(r: Report): seq<Entry> {
    if r.Differs? then r.newIssues else []
  }

  /** The tasks a report lists, none when it is Clear. */
  function OldTasks(r: Report): seq<Task> {
    if r.Differs? then r.oldTasks else []
  }

  /**
   * A project's report lists the issues whose numbers have no task, in
   * the issues' order, and the tasks whose numbers have no issue, in the
   * tasks' order; it is Clear exactly when both sides hold the same
   * numbers.
   */
  lemma ReportSides(name: string, issues: IssueHash, tasks: TaskHash)
    requires issues.Valid() && tasks.Valid()
    ensures var r := ProjectReport(name, issues, tasks);
      && r.project == name
      && NewIssues(r) == Values(issues, Filter(issues.keys, Missing(issues, tasks)))
      && OldTasks(r) == Values(tasks, Filter(tasks.keys, Missing(tasks, issues)))
      && (r.Clear? <==> forall k :: k in issues.entries <==> k in tasks.entries)
  {
    OnlyInIsFilter(issues, tasks);
    OnlyInIsFilter(tasks, issues);
    var newKeys, oldKeys := OnlyIn(issues, tasks), OnlyIn(tasks, issues);
    if forall k :: k in issues.entries <==> k in tasks.entries {
      NothingInEmpty(newKeys);
      NothingInEmpty(oldKeys);
    } else {
      var k :| !(k in issues.entries <==> k in tasks.entries);
      assert k in newKeys || k in oldKeys;
    }
  }

  /** The report `diff` gives for one configured project. */
  function ReconcileProject(project: Project, snapshot: map<string, IssueHash>,
                            tasks: map<string, TaskHash>, ignore: bool): (r: Report)
    requires forall name :: name in snapshot ==> snapshot[name].Valid()
    requires AllValid(tasks)
    ensures r.project == project.name
    ensures r.Differs? ==> |r.oldTasks| <= |OrEmpty(tasks, project.name).keys|
    ensures project.name !in snapshot && project.name !in tasks ==> r.Clear?
  {
    var issues := MilestoneFilter(OrEmpty(snapshot, project.name), project.includes, project.excludes, ignore);
    ProjectReport(project.name, issues, OrEmpty(tasks, project.name))
  }

  /**
   * The report of a project in closed form over the fetched snapshot:
   * the new issues are the fetched ones that pass the filter and have no
   * task, in fetch order; the old tasks are those whose number is not
   * among the issues that pass the filter, in task order.
   */
  lemma ReconcileClosedForm(project: Project, snapshot: map<string, IssueHash>,
                            tasks: map<string, TaskHash>, ignore: bool)
    requires forall name :: name in snapshot ==> snapshot[name].Valid()
    requires AllValid(tasks)
    ensures var h := OrEmpty(snapshot, project.name);
      var t := OrEmpty(tasks, project.name);
      var kept := Kept(h, project.includes, project.excludes, ignore);
      var r := ReconcileProject(project, snapshot, tasks, ignore);
      && NewIssues(r) == Values(h, Filter(h.keys, kept * Missing(h, t)))
      && OldTasks(r) == Values(t, Filter(t.keys, set k | k in t.entries && k !in kept))
  {
    var h := OrEmpty(snapshot, project.name);
    var t := OrEmpty(tasks, project.name);
    var kept := Kept(h, project.includes, project.excludes, ignore);
    var f := MilestoneFilter(h, project.includes, project.excludes, ignore);
    FilterKeeps(h, project.includes, project.excludes, ignore);
    ReportSides(project.name, f, t);
    FilterFilter(h.keys, kept, Missing(f, t));
    FilterCongruent(h.keys, kept * Missing(f, t), kept * Missing(h, t));
    ValuesAgree(f, h, Filter(h.keys, kept * Missing(h, t)));
    FilterCongruent(t.keys, Missing(t, f), set k | k in t.entries && k !in kept);
  }

  /** A project the snapshot lacks lists no issues and all of its tasks. */
  lemma MissingProject(project: Project, snapshot: map<string, IssueHash>,
                       tasks: map<string, TaskHash>, ignore: bool)
    requires forall name :: name in snapshot ==> snapshot[name].Valid()
    requires AllValid(tasks)
    requires project.name !in snapshot
    ensures var t := OrEmpty(tasks, project.name);
      var r := ReconcileProject(project, snapshot, tasks, ignore);
      && NewIssues(r) == []
      && OldTasks(r) == Values(t, t.keys)
      && (r.Clear? <==> |t.keys| == 0)
  {
    var t := OrEmpty(tasks, project.name);
    var f := MilestoneFilter(OrEmpty(snapshot, project.name), project.includes, project.excludes, ignore);
    assert f.entries == map[];
    ReportSides(project.name, f, t);
    FilterAll(t.keys, Missing(t, f));
  }

  // ---------------------------------------------------------------------
  // The whole of `diff`
  // ---------------------------------------------------------------------

  /**
   * The body of the loop in `diff` for one project: its issues (none when
   * the snapshot lacks it) go through the include stage, then the exclude
   * stage, and the survivors are compared with its tasks.
   */
  method DiffProject(project: Project, snapshot: map<string, IssueHash>,
                     allTasks: map<string, TaskHash>, ignore: bool)
    returns (report: Report)
    requires forall name :: name in snapshot ==> snapshot[name].Valid()
    requires AllValid(allTasks)
    ensures report == ReconcileProject(project, snapshot, allTasks, ignore)
  {
    var issues := if project.name in snapshot then snapshot[project.name] else Empty();
    var tasks := if project.name in allTasks then allTasks[project.name] else Empty();
    ghost var fetched := issues;
    if !ignore {
      if project.includes != [] {
        issues := SelectMilestones(issues, project.includes);
      }
      if project.excludes != [] {
        issues := RejectMilestones(issues, project.excludes);
      }
    }
    assert issues == MilestoneFilter(fetched, project.includes, project.excludes, ignore);
    var newIssues := Values(issues, OnlyIn(issues, tasks));
    var oldTasks := Values(tasks, OnlyIn(tasks, issues));
    if newIssues == [] && oldTasks == [] {
      report := Clear(project.name);
    } else {
      report := Differs(project.name, newIssues, oldTasks);
    }
  }

  /** The reports of the configured projects, in configuration order. */
  function Reports(projects: seq<Project>, snapshot: map<string, IssueHash>,
                   tasks: map<string, TaskHash>, ignore: bool): (r: seq<Report>)
    requires forall name :: name in snapshot ==> snapshot[name].Valid()
    requires AllValid(tasks)
    ensures |r| == |projects|
    ensures forall i :: 0 <= i < |projects| ==> r[i] == ReconcileProject(projects[i], snapshot, tasks, ignore)
  {
    if projects == [] then []
    else
      var init := projects[..|projects| - 1];
      Reports(init, snapshot, tasks, ignore) + [ReconcileProject(projects[|projects| - 1], snapshot, tasks, ignore)]
  }

  /** Reconciling one more project is one more report. */
  lemma ReportsPrefix(projects: seq<Project>, snapshot: map<string, IssueHash>,
                      tasks: map<string, TaskHash>, ignore: bool, i: nat)
    requires forall name :: name in snapshot ==> snapshot[name].Valid()
    requires AllValid(tasks)
    requires i < |projects|
    ensures Reports(projects[..i + 1], snapshot, tasks, ignore)
         == Reports(projects[..i], snapshot, tasks, ignore) + [ReconcileProject(projects[i], snapshot, tasks, ignore)]
  {
    assert projects[..i + 1][..i] == projects[..i];
  }

  /**
   * `diff`: the task manager's output is parsed, then every configured
   * project in turn is reconciled.
   */
  method Diff(projects: seq<Project>, snapshot: map<string, IssueHash>, output: string, ignore: bool)
    returns (warnings: seq<Warning>, reports: seq<Report>)
    requires forall name :: name in snapshot ==> snapshot[name].Valid()
    ensures var parsed := ParseLines(SplitLines(output), Names(projects));
      && warnings == parsed.warnings
      && AllValid(parsed.tasks)
      && reports == Reports(projects, snapshot, parsed.tasks, ignore)
  {
    var allTasks;
    allTasks, warnings := LoadTasks(output, Names(projects));
    ParseLinesValid(SplitLines(output), Names(projects));
    reports := [];
    var i := 0;
    assert projects[..0] == [];
    while i < |projects|
      invariant i <= |projects|
      invariant reports == Reports(projects[..i], snapshot, allTasks, ignore)
    {
      var report := DiffProject(projects[i], snapshot, allTasks, ignore);
      reports := reports + [report];
      ReportsPrefix(projects, snapshot, allTasks, ignore, i);
      i := i + 1;
    }
    assert projects[..i] == projects;
  }
}
