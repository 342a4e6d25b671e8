/**
 * The task line parser (`load_tasks`): every line of the task manager's
 * output that names a configured project and carries an `Issue #<n>`
 * token becomes a task of that project under the number `n`. A second
 * line for the same project and number raises a duplicate warning and
 * replaces the first.
 */
module TaskParser {
  import opened Wrappers
  import opened OrderedHash
  import opened TaskText

  /** A local task: its reconstructed issue URL and the raw line as title. */
  datatype Task = Task(url: string, title: string)

  /** The duplicate warning, naming the project and the issue number. */
  datatype Warning = Duplicated(project: string, number: nat)

  type TaskHash = Hash<nat, Task>

  /** The parser's state: the task hash of every project and the warnings so far. */
  datatype Parsed = Parsed(tasks: map<string, TaskHash>, warnings: seq<Warning>)

  /** Every project's task hash is well formed. */
  ghost predicate AllValid(tasks: map<string, TaskHash>) {
    forall name :: name in tasks ==> tasks[name].Valid()
  }

  /**
   * The issue number `line` contributes to project `name`, if any: the
   * line must contain the name as a substring and carry the issue token.
   */
  function Hit(line: string, name: string): (r: Option<nat>)
    ensures Contains(line, name) ==> r == IssueNumber(line)
    ensures !Contains(line, name) ==> r.None?
  {
    if Contains(line, name) then IssueNumber(line) else None
  }

  /**
   * The task recorded for `line` under project `name` and number `n`: the
   * line itself as title, under a URL of the project's issues whose
   * digits read back as `n`.
   */
  function TaskFor(line: string, name: string, n: nat): (t: Task)
    ensures t.title == line
    ensures |IssuesPrefix(name)| < |t.url| && t.url[..|IssuesPrefix(name)|] == IssuesPrefix(name)
    ensures DecimalValue(t.url[|IssuesPrefix(name)|..]) == n
    ensures t.url[|IssuesPrefix(name)|] == '0' ==> n == 0 && t.url == IssuesPrefix(name) + "0"
  {
    Task(TaskUrl(name, n), line)
  }

  /** An empty hash for every configured project name, and no warnings yet. */
  function Init(names: seq<string>): (p: Parsed)
    ensures forall name :: name in p.tasks <==> name in names
    ensures forall name :: name in p.tasks ==> p.tasks[name].entries == map[]
  {
    Parsed(map name | name in names :: Empty(), [])
  }

  /** One pass of the inner loop body: `line` tried against project `name`. */
  function ParseStep(p: Parsed, line: string, name: string): (r: Parsed)
    requires name in p.tasks
    ensures forall nm :: nm in r.tasks <==> nm in p.tasks
  {
    match Hit(line, name)
    case None => p
    case Some(n) =>
      var h := p.tasks[name];
      Parsed(p.tasks[name := Put(h, n, TaskFor(line, name, n))],
             p.warnings + if n in h.entries then [Duplicated(name, n)] else [])
  }

  /** The inner loop: `line` tried against every project name in turn. */
  function ParseLine(p: Parsed, line: string, names: seq<string>): (r: Parsed)
    requires forall name :: name in names ==> name in p.tasks
    ensures forall nm :: nm in r.tasks <==> nm in p.tasks
  {
    if names == [] then p
    else ParseStep(ParseLine(p, line, names[..|names| - 1]), line, names[|names| - 1])
  }

  /** The outer loop: every line in turn, starting from Init. */
  function ParseLines(lines: seq<string>, names: seq<string>): (r: Parsed)
    ensures forall name :: name in r.tasks <==> name in names
  {
    if lines == [] then Init(names)
    else ParseLine(ParseLines(lines[..|lines| - 1], names), lines[|lines| - 1], names)
  }

  /** Trying one more project name is one more ParseStep. */
  lemma ParseLinePrefix(p: Parsed, line: string, names: seq<string>, j: nat)
    requires j < |names|
    requires forall name :: name in names ==> name in p.tasks
    ensures ParseLine(p, line, names[..j + 1]) == ParseStep(ParseLine(p, line, names[..j]), line, names[j])
  {
    assert names[..j + 1][..j] == names[..j];
  }

  /** Reading one more line is one more ParseLine. */
  lemma ParseLinesPrefix(lines: seq<string>, names: seq<string>, i: nat)
    requires i < |lines|
    ensures ParseLines(lines[..i + 1], names) == ParseLine(ParseLines(lines[..i], names), lines[i], names)
  {
    assert lines[..i + 1][..i] == lines[..i];
  }

  /**
   * The inner loop of `load_tasks`: `line` tried against every project
   * name in turn, updating the task hashes in place.
   */
  method LoadLine(tasks0: map<string, TaskHash>, warnings0: seq<Warning>, line: string, names: seq<string>)
    returns (tasks: map<string, TaskHash>, warnings: seq<Warning>)
    requires forall name :: name in names ==> name in tasks0
    ensures Parsed(tasks, warnings) == ParseLine(Parsed(tasks0, warnings0), line, names)
  {
    tasks, warnings := tasks0, warnings0;
    ghost var start := Parsed(tasks0, warnings0);
    var j := 0;
    while j < |names|
      invariant j <= |names|
      invariant Parsed(tasks, warnings) == ParseLine(start, line, names[..j])
    {
      var name := names[j];
      var hit := Hit(line, name);
      if hit.Some? {
        var n := hit.value;
        if n in tasks[name].entries {
          warnings := warnings + [Duplicated(name, n)];
        }
        tasks := tasks[name := Put(tasks[name], n, TaskFor(line, name, n))];
      }
      ParseLinePrefix(start, line, names, j);
      j := j + 1;
    }
    assert names[..j] == names;
  }

  /**
   * `load_tasks` on what `things.sh all` printed: the output is split into
   * lines, and every line in turn goes through the inner loop, which fills
   * the per-project hashes in place and collects the warnings.
   */
  method LoadTasks(output: string, names: seq<string>)
    returns (tasks: map<string, TaskHash>, warnings: seq<Warning>)
    ensures Parsed(tasks, warnings) == ParseLines(SplitLines(output), names)
  {
    var lines := SplitLines(output);
    tasks := map name | name in names :: Empty();
    warnings := [];
    var i := 0;
    assert lines[..0] == [];
    assert Parsed(tasks, warnings) == ParseLines(lines[..0], names);
    while i < |lines|
      invariant i <= |lines|
      invariant tasks == ParseLines(lines[..i], names).tasks
      invariant warnings == ParseLines(lines[..i], names).warnings
    {
      ghost var before := ParseLines(lines[..i], names);
      assert before == Parsed(tasks, warnings);
      tasks, warnings := LoadLine(tasks, warnings, lines[i], names);
      ParseLinesPrefix(lines, names, i);
      assert Parsed(tasks, warnings) == ParseLine(before, lines[i], names);
      assert Parsed(tasks, warnings) == ParseLines(lines[..i + 1], names);
      i := i + 1;
    }
    assert lines[..i] == lines;
  }

  /** One line keeps every task hash well formed. */
  lemma {:induction false} ParseLineValid(p: Parsed, line: string, names: seq<string>)
    requires forall nm :: nm in names ==> nm in p.tasks
    requires AllValid(p.tasks)
    ensures AllValid(ParseLine(p, line, names).tasks)
  {
    if names != [] {
      var init, last := names[..|names| - 1], names[|names| - 1];
      ParseLineValid(p, line, init);
      var q := ParseLine(p, line, init);
      var hit := Hit(line, last);
      if hit.Some? {
        PutValid(q.tasks[last], hit.value, TaskFor(line, last, hit.value));
      }
    }
  }

  /** Every task hash the parser builds is well formed. */
  lemma {:induction false} ParseLinesValid(lines: seq<string>, names: seq<string>)
    ensures AllValid(ParseLines(lines, names).tasks)
  {
    if lines != [] {
      var init := lines[..|lines| - 1];
      ParseLinesValid(init, names);
      ParseLineValid(ParseLines(init, names), lines[|lines| - 1], names);
    }
  }

  // ---------------------------------------------------------------------
  // What one line does
  // ---------------------------------------------------------------------

  /** The hash of project `name` after `line` was tried against `names`. */
  function LineUpdate(h: TaskHash, line: string, name: string, names: seq<string>): TaskHash {
    if name in names then
      match Hit(line, name)
      case None => h
      case Some(n) => Put(h, n, TaskFor(line, name, n))
    else h
  }

  /**
   * One line changes the hash of a project only if the project is
   * configured and the line is a hit for it, and then only by storing the
   * line under its number; a name listed twice stores it twice, to the
   * same effect.
   */
  lemma {:induction false} LineEffect(p: Parsed, line: string, names: seq<string>, name: string)
    requires forall nm :: nm in names ==> nm in p.tasks
    requires name in p.tasks
    ensures ParseLine(p, line, names).tasks[name] == LineUpdate(p.tasks[name], line, name, names)
  {
    if names != [] {
      var init, last := names[..|names| - 1], names[|names| - 1];
      LineEffect(p, line, init, name);
      if last == name && Hit(line, name).Some? {
        PutPut(p.tasks[name], Hit(line, name).value, TaskFor(line, name, Hit(line, name).value));
      }
    }
  }

  /** A step for one project adds at most a warning naming that project and the line's number. */
  lemma StepWarnings(p: Parsed, line: string, name: string, w: Warning)
    requires name in p.tasks
    requires w.project != name || Hit(line, name) != Some(w.number)
    ensures Count(ParseStep(p, line, name).warnings, w) == Count(p.warnings, w)
  {
    var hit := Hit(line, name);
    if hit.Some? && hit.value in p.tasks[name].entries {
      var m := hit.value;
      assert ParseStep(p, line, name).warnings == p.warnings + [Duplicated(name, m)];
      assert Duplicated(name, m) != w;
      CountSnoc(p.warnings, Duplicated(name, m), w);
    } else {
      assert ParseStep(p, line, name).warnings == p.warnings;
    }
  }

  /** A hit for `name` and `n` warns exactly when `n` is already recorded for `name`. */
  lemma StepWarningsHit(p: Parsed, line: string, name: string, n: nat)
    requires name in p.tasks
    requires Hit(line, name) == Some(n)
    ensures Count(ParseStep(p, line, name).warnings, Duplicated(name, n))
         == Count(p.warnings, Duplicated(name, n)) + if n in p.tasks[name].entries then 1 else 0
  {
    var w := Duplicated(name, n);
    if n in p.tasks[name].entries {
      assert ParseStep(p, line, name).warnings == p.warnings + [w];
      CountSnoc(p.warnings, w, w);
    } else {
      assert ParseStep(p, line, name).warnings == p.warnings;
    }
  }

  /** The number of warnings for `name` and `n` that one line adds. */
  function LineWarningCount(p: Parsed, line: string, name: string, n: nat, names: seq<string>): int
    requires name in names ==> name in p.tasks
  {
    if name in names && Hit(line, name) == Some(n) then
      Count(names, name) - (if n in p.tasks[name].entries then 0 else 1)
    else 0
  }

  /**
   * A line that is a hit for `name` and `n` warns once for every time the
   * name is listed, except the first time when `n` was not yet recorded.
   */
  lemma {:induction false} LineWarnings(p: Parsed, line: string, names: seq<string>, name: string, n: nat)
    requires forall nm :: nm in names ==> nm in p.tasks
    ensures Count(ParseLine(p, line, names).warnings, Duplicated(name, n))
         == Count(p.warnings, Duplicated(name, n)) + LineWarningCount(p, line, name, n, names)
  {
    if names != [] {
      var init, last := names[..|names| - 1], names[|names| - 1];
      assert names == init + [last];
      CountSnoc(init, last, name);
      LineWarnings(p, line, init, name, n);
      var q := ParseLine(p, line, init);
      var r := ParseStep(q, line, last);
      assert r == ParseLine(p, line, names);
      var w := Duplicated(name, n);
      var before := Count(q.warnings, w);
      assert before == Count(p.warnings, w) + LineWarningCount(p, line, name, n, init);
      if last == name && Hit(line, name) == Some(n) {
        var recorded := n in q.tasks[name].entries;
        StepWarningsHit(q, line, name, n);
        if name in init {
          LineEffect(p, line, init, name);
          assert recorded;
          assert LineWarningCount(p, line, name, n, names) == LineWarningCount(p, line, name, n, init) + 1;
        } else {
          LineEffect(p, line, init, name);
          assert recorded == (n in p.tasks[name].entries);
          assert LineWarningCount(p, line, name, n, init) == 0;
        }
      } else {
        StepWarnings(q, line, last, w);
        assert LineWarningCount(p, line, name, n, names) == LineWarningCount(p, line, name, n, init);
      }
    }
  }

  /** A line without an issue token leaves the parser's state alone. */
  lemma {:induction false} LineWithoutToken(p: Parsed, line: string, names: seq<string>)
    requires forall nm :: nm in names ==> nm in p.tasks
    requires IssueNumber(line).None?
    ensures ParseLine(p, line, names) == p
  {
    if names != [] {
      LineWithoutToken(p, line, names[..|names| - 1]);
    }
  }

  /**
   * A line that is a hit for a project already holding its number keeps
   * that number's place in the hash, replaces its task, warns, and changes
   * no other task of any project.
   */
  lemma DuplicateReplaces(p: Parsed, line: string, name: string)
    requires name in p.tasks
    requires Hit(line, name).Some? && Hit(line, name).value in p.tasks[name].entries
    ensures var n := Hit(line, name).value;
      var r := ParseStep(p, line, name);
      && r.tasks[name].keys == p.tasks[name].keys
      && r.tasks[name].entries == p.tasks[name].entries[n := TaskFor(line, name, n)]
      && (forall nm :: nm in p.tasks && nm != name ==> r.tasks[nm] == p.tasks[nm])
      && r.warnings == p.warnings + [Duplicated(name, n)]
  {
  }

  // ---------------------------------------------------------------------
  // What all lines do
  // ---------------------------------------------------------------------

  /** The number of lines that are hits for project `name` with number `n`. */
  function Occurrences(lines: seq<string>, name: string, n: nat): nat {
    if lines == [] then 0
    else Occurrences(lines[..|lines| - 1], name, n) + (if Hit(lines[|lines| - 1], name) == Some(n) then 1 else 0)
  }

  /** Some line is a hit for `name` and `n` exactly when Occurrences counts one. */
  lemma {:induction false} OccurrencesPositive(lines: seq<string>, name: string, n: nat)
    ensures Occurrences(lines, name, n) > 0 <==> exists i :: 0 <= i < |lines| && Hit(lines[i], name) == Some(n)
  {
    if lines != [] {
      var init := lines[..|lines| - 1];
      OccurrencesPositive(init, name, n);
      assert forall i :: 0 <= i < |init| ==> init[i] == lines[i];
    }
  }

  /**
   * A configured project records number `n` exactly when some line is a
   * hit for it with that number.
   */
  lemma {:induction false} Recorded(lines: seq<string>, names: seq<string>, name: string, n: nat)
    requires name in names
    ensures n in ParseLines(lines, names).tasks[name].entries <==> Occurrences(lines, name, n) > 0
  {
    if lines != [] {
      var init, line := lines[..|lines| - 1], lines[|lines| - 1];
      Recorded(init, names, name, n);
      LineEffect(ParseLines(init, names), line, names, name);
    }
  }

  /**
   * The first hit for a configured project and number `n` is silent and
   * every further one warns, once for every time the name is listed: with
   * the name listed `c` times and `k` hitting lines, `k * c - 1` warnings.
   * A name that is not configured gets no warnings.
   */
  lemma {:induction false} WarningCount(lines: seq<string>, names: seq<string>, name: string, n: nat)
    ensures Count(ParseLines(lines, names).warnings, Duplicated(name, n))
         == if name in names && Occurrences(lines, name, n) > 0
            then Occurrences(lines, name, n) * Count(names, name) - 1
            else 0
  {
    if lines != [] {
      var init, line := lines[..|lines| - 1], lines[|lines| - 1];
      var p := ParseLines(init, names);
      WarningCount(init, names, name, n);
      WarningStep(lines, names, name, n);
      var k, c := Occurrences(init, name, n), Count(names, name);
      var before := Count(p.warnings, Duplicated(name, n));
      var added := LineWarningCount(p, line, name, n, names);
      if name !in names {
        assert added == 0;
      } else if Hit(line, name) == Some(n) {
        Recorded(init, names, name, n);
        assert added == c - (if k > 0 then 0 else 1);
        OneMoreHit(k, c, before, added);
      } else {
        assert added == 0;
      }
    }
  }

  /** One more line adds its own warnings and, when it is a hit, one more occurrence. */
  lemma WarningStep(lines: seq<string>, names: seq<string>, name: string, n: nat)
    requires lines != []
    ensures var init, line := lines[..|lines| - 1], lines[|lines| - 1];
      var p := ParseLines(init, names);
      && Count(ParseLines(lines, names).warnings, Duplicated(name, n))
         == Count(p.warnings, Duplicated(name, n)) + LineWarningCount(p, line, name, n, names)
      && Occurrences(lines, name, n) == Occurrences(init, name, n) + if Hit(line, name) == Some(n) then 1 else 0
  {
    LineWarnings(ParseLines(lines[..|lines| - 1], names), lines[|lines| - 1], names, name, n);
  }

  /** The arithmetic of one more hitting line: `k * c - 1` warnings become `(k + 1) * c - 1`. */
  lemma OneMoreHit(k: nat, c: nat, before: int, added: int)
    requires c > 0
    requires before == if k > 0 then k * c - 1 else 0
    requires added == c - (if k > 0 then 0 else 1)
    ensures before + added == (k + 1) * c - 1
  {
    assert (k + 1) * c == k * c + c;
  }

  /** The position of the last line that is a hit for `name` and `n`, or -1 when none is. */
  function LastHit(lines: seq<string>, name: string, n: nat): (r: int)
    ensures -1 <= r < |lines|
    ensures r >= 0 ==> Hit(lines[r], name) == Some(n)
    ensures forall j :: r < j < |lines| ==> Hit(lines[j], name) != Some(n)
  {
    if lines == [] then -1
    else if Hit(lines[|lines| - 1], name) == Some(n) then |lines| - 1
    else
      var init := lines[..|lines| - 1];
      assert forall j :: 0 <= j < |init| ==> init[j] == lines[j];
      LastHit(init, name, n)
  }

  /**
   * The task a configured project records under number `n` is the one of
   * the LAST line that is a hit for the project with that number, under
   * the URL of the project's issue `n`.
   */
  lemma {:induction false} LastLineWins(lines: seq<string>, names: seq<string>, name: string, n: nat)
    requires name in names
    requires n in ParseLines(lines, names).tasks[name].entries
    ensures LastHit(lines, name, n) >= 0
    ensures ParseLines(lines, names).tasks[name].entries[n] == Task(TaskUrl(name, n), lines[LastHit(lines, name, n)])
  {
    var init, line := lines[..|lines| - 1], lines[|lines| - 1];
    var p := ParseLines(init, names);
    LineEffect(p, line, names, name);
    if Hit(line, name) != Some(n) {
      LastLineWins(init, names, name, n);
      assert lines[LastHit(init, name, n)] == init[LastHit(init, name, n)];
    }
  }

  /** The numbers of the lines that are hits for project `name`, in line order. */
  function HitNumbers(lines: seq<string>, name: string): (r: seq<nat>)
    ensures |r| <= |lines|
  {
    if lines == [] then []
    else
      var init := HitNumbers(lines[..|lines| - 1], name);
      match Hit(lines[|lines| - 1], name)
      case None => init
      case Some(n) => init + [n]
  }

  /**
   * A configured project's task hash lists the numbers of its hitting
   * lines in the order of their first hit, each once: a later duplicate
   * keeps the place of the first.
   */
  lemma {:induction false} TaskKeys(lines: seq<string>, names: seq<string>, name: string)
    requires name in names
    ensures ParseLines(lines, names).tasks[name].keys == Dedup(HitNumbers(lines, name))
  {
    if lines != [] {
      var init, line := lines[..|lines| - 1], lines[|lines| - 1];
      var p := ParseLines(init, names);
      TaskKeys(init, names, name);
      ParseLinesValid(init, names);
      LineEffect(p, line, names, name);
      match Hit(line, name)
      case None =>
      case Some(n) =>
        var s := HitNumbers(init, name);
        assert (s + [n])[..|s|] == s;
    }
  }

  /**
   * A line naming several configured projects (say, one name inside
   * another) is recorded under each of them.
   */
  lemma EveryNamedProjectRecordsTheLine(lines: seq<string>, names: seq<string>, i: nat, a: string, b: string)
    requires i < |lines| && a in names && b in names
    requires Contains(lines[i], a) && Contains(lines[i], b) && IssueNumber(lines[i]).Some?
    ensures var n := IssueNumber(lines[i]).value;
      n in ParseLines(lines, names).tasks[a].entries && n in ParseLines(lines, names).tasks[b].entries
  {
    var n := IssueNumber(lines[i]).value;
    assert Hit(lines[i], a) == Some(n) && Hit(lines[i], b) == Some(n);
    OccurrencesPositive(lines, a, n);
    OccurrencesPositive(lines, b, n);
    Recorded(lines, names, a, n);
    Recorded(lines, names, b, n);
  }
}
