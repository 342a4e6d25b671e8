/**
 * The snapshot that `fetch` builds from the issue tracker: for every
 * configured project, a hash from issue number to an entry holding the
 * issue's title, URL, milestone title and label names. The tracker
 * itself is a parameter: `listIssues(name)` is the list of issues the
 * client returns for project `name`, in the order it returns them.
 */
module Snapshot {
  import opened Wrappers
  import opened OrderedHash

  datatype Milestone = Milestone(title: string)

  datatype Label = Label(name: string)

  /** An issue as the client returns it; milestone and labels may be absent. */
  datatype Issue = Issue(
    number: nat,
    title: string,
    htmlUrl: string,
    milestone: Option<Milestone>,
    labels: Option<seq<Label>>)

  /** What the snapshot keeps of an issue: title, URL, milestone title and label names. */
  datatype Entry = Entry(title: string, url: string, milestone: string, labels: seq<string>)

  type IssueHash = Hash<nat, Entry>

  /** The snapshot entry of one issue. */
  function EntryOf(issue: Issue): (e: Entry)
    ensures e.title == issue.title && e.url == issue.htmlUrl
    ensures issue.milestone.None? ==> e.milestone == ""
    ensures issue.milestone.Some? ==> e.milestone == issue.milestone.value.title
    ensures issue.labels.None? ==> e.labels == []
    ensures issue.labels.Some? ==>
      |e.labels| == |issue.labels.value|
      && forall i :: 0 <= i < |e.labels| ==> e.labels[i] == issue.labels.value[i].name
  {
    var labels := match issue.labels
      case None => []
      case Some(ls) => seq(|ls|, i requires 0 <= i < |ls| => ls[i].name);
    var milestone := if issue.milestone.Some? then issue.milestone.value.title else "";
    Entry(issue.title, issue.htmlUrl, milestone, labels)
  }

  /** The issue numbers, in the order the client returned the issues. */
  function Numbers(issues: seq<Issue>): (r: seq<nat>)
    ensures |r| == |issues|
    ensures forall i :: 0 <= i < |issues| ==> r[i] == issues[i].number
  {
    if issues == [] then []
    else Numbers(issues[..|issues| - 1]) + [issues[|issues| - 1].number]
  }

  /** The hash of one project: every issue stored under its number, in turn. */
  function IssuesOf(issues: seq<Issue>): (h: IssueHash)
    ensures |h.keys| <= |issues|
    ensures forall k :: k in h.entries <==> k in Numbers(issues)
  {
    if issues == [] then Empty()
    else
      var init, last := issues[..|issues| - 1], issues[|issues| - 1];
      assert Numbers(issues) == Numbers(init) + [last.number];
      Put(IssuesOf(init), last.number, EntryOf(last))
  }

  /** Storing one more issue is one more Put. */
  lemma IssuesOfPrefix(issues: seq<Issue>, j: nat)
    requires j < |issues|
    ensures IssuesOf(issues[..j + 1]) == Put(IssuesOf(issues[..j]), issues[j].number, EntryOf(issues[j]))
  {
    assert issues[..j + 1][..j] == issues[..j];
  }

  /** The whole snapshot: one hash per configured project. */
  function SnapshotOf(names: seq<string>, listIssues: string -> seq<Issue>): (s: map<string, IssueHash>)
    ensures forall name :: name in s <==> name in names
  {
    map name | name in names :: IssuesOf(listIssues(name))
  }

  /**
   * The inner loop of `fetch`: the issues of one project stored in turn
   * under their numbers, starting from an empty hash.
   */
  method FetchProject(issues: seq<Issue>) returns (hash: IssueHash)
    ensures hash == IssuesOf(issues)
  {
    hash := Empty();
    var j := 0;
    assert issues[..0] == [];
    while j < |issues|
      invariant j <= |issues|
      invariant hash == IssuesOf(issues[..j])
    {
      var issue := issues[j];
      hash := Put(hash, issue.number, EntryOf(issue));
      IssuesOfPrefix(issues, j);
      j := j + 1;
    }
    assert issues[..j] == issues;
  }

  /**
   * The outer loop of `fetch`: every configured project in turn gets the
   * hash of the issues the client lists for it; a project configured
   * twice is fetched twice, to the same effect.
   */
  method Fetch(names: seq<string>, listIssues: string -> seq<Issue>) returns (result: map<string, IssueHash>)
    ensures result == SnapshotOf(names, listIssues)
  {
    result := map[];
    var i := 0;
    while i < |names|
      invariant i <= |names|
      invariant forall name :: name in result <==> name in names[..i]
      invariant forall name :: name in result ==> result[name] == IssuesOf(listIssues(name))
    {
      var name := names[i];
      var hash := FetchProject(listIssues(name));
      result := result[name := hash];
      assert names[..i + 1] == names[..i] + [name];
      i := i + 1;
    }
    assert names[..i] == names;
  }

  /**
   * A project's hash is well formed and lists each issue number once, in
   * the order of its first occurrence among the issues.
   */
  lemma {:induction false} IssuesOfKeys(issues: seq<Issue>)
    ensures IssuesOf(issues).Valid()
    ensures IssuesOf(issues).keys == Dedup(Numbers(issues))
  {
    if issues != [] {
      var init, last := issues[..|issues| - 1], issues[|issues| - 1];
      IssuesOfKeys(init);
      PutValid(IssuesOf(init), last.number, EntryOf(last));
      assert Numbers(issues)[..|issues| - 1] == Numbers(init);
    }
  }

  /** Number `k` is in a project's hash exactly when some issue carries it. */
  lemma IssueRecorded(issues: seq<Issue>, k: nat)
    ensures k in IssuesOf(issues).entries <==> exists i :: 0 <= i < |issues| && issues[i].number == k
  {
    if exists i :: 0 <= i < |issues| && issues[i].number == k {
      var i :| 0 <= i < |issues| && issues[i].number == k;
      assert Numbers(issues)[i] == k;
    }
  }

  /** The position of the last issue carrying number `k`, or -1 when none does. */
  function LastIndex(issues: seq<Issue>, k: nat): (r: int)
    ensures -1 <= r < |issues|
    ensures r >= 0 ==> issues[r].number == k
    ensures forall j :: r < j < |issues| ==> issues[j].number != k
  {
    if issues == [] then -1
    else if issues[|issues| - 1].number == k then |issues| - 1
    else LastIndex(issues[..|issues| - 1], k)
  }

  /**
   * The entry stored under number `k` is the one of the LAST issue
   * carrying that number.
   */
  lemma {:induction false} LastIssueWins(issues: seq<Issue>, k: nat)
    requires k in IssuesOf(issues).entries
    ensures LastIndex(issues, k) >= 0
    ensures IssuesOf(issues).entries[k] == EntryOf(issues[LastIndex(issues, k)])
  {
    var init, last := issues[..|issues| - 1], issues[|issues| - 1];
    if last.number != k {
      LastIssueWins(init, k);
      assert issues[LastIndex(init, k)] == init[LastIndex(init, k)];
    }
  }
}
