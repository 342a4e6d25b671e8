# things-issues-diff, modelled in Dafny

`things-diff` keeps a personal task manager (Things) in step with GitHub issues.

- `fetch` downloads the open issues of every configured repository. It stores them as a snapshot: project name → issue number → entry (title, URL, milestone title, label names).
- `diff` does three things:
  - reads the task manager's task list as text lines and finds the tasks that name a configured project and carry an `Issue #<n>` token;
  - filters each project's issues by milestone;
  - reports, per project, the issues that have no task and the tasks that have no issue, or "Clear" when there are neither.

This project models that logic and proves its properties. It has six modules:

- `Wrappers` (`wrappers.dfy`) holds `Option`.
- `OrderedHash` (`ordered_hash.dfy`) models Ruby's insertion-ordered `Hash` as a key list beside a map. It also holds the sequence filters behind `select`, `reject` and `Array#-`.
- `TaskText` (`task_text.dfy`) covers the text handling the task parser needs:
  - the `\r?\n` line split;
  - `String#include?`;
  - the pattern `\sIssue #(\d+)\s`, with a greedy matcher proved equal to the literal reading of the pattern and the leftmost match chosen;
  - base-10 reading and writing of numbers;
  - the task URL.
- `TaskParser` (`task_parser.dfy`) models `load_tasks`. Its nested loops fill the per-project hashes and collect the duplicate warnings. They are proved against the functions `ParseLine` and `ParseLines`, and the parser's promises are lemmas about those functions.
- `Snapshot` (`snapshot.dfy`) models the entry construction and the loops of `fetch`. The GitHub client is a function parameter: `listIssues(name)` returns the issues of a repository.
- `Reconcile` (`reconcile.dfy`) models the milestone filter, the two key differences and the Clear condition. Its `Diff` method parses the tasks and reconciles every configured project in turn.

Ruby's hashes keep insertion order, and the reports list issues and tasks in that order. The per-project hashes are therefore `OrderedHash.Hash` values whose `Valid()` invariant says the key list holds every key exactly once. The outer hashes, keyed by project name, are plain maps: every lookup into them goes by name, and their order is never observed by the modelled code.

On these points the model follows what the code does:

- **Lists, not sets.** The configured project names and the include and exclude lists are lists. A project configured twice is tried twice on every line.
- **Insertion order, not ascending order.** Both report lists follow hash insertion order, not ascending issue number.
- **A literal space in the pattern.** The pattern has a literal space between `Issue` and `#` (`\sIssue #(\d+)\s`), not any whitespace.
- **The project name must be in the line.** A line counts for a project only when it contains the project name. So a line like `Fix bug  Issue #42  now` yields nothing for `org/repo`, because the name does not occur in it.

## Model

| member | source | states |
|---|---|---|
| OrderedHash.Put | lib/things/issues_diff.rb:177-180 | Storing `v` under `k` as `Hash#[]=` does: an existing key keeps its place in the key list, a new key is appended last; `k` now maps to `v`, and every other key keeps its presence and its value |
| OrderedHash.PutValid | lib/things/issues_diff.rb:177-180 | Storing keeps a hash well formed: keys distinct and exactly the map's domain |
| OrderedHash.PutPut | lib/things/issues_diff.rb:177-180 | Storing the same value twice under a key is the same as storing it once |
| OrderedHash.Filter | lib/things/issues_diff.rb:130-133 | The result holds exactly the elements of the input that are to be kept, keeps distinctness and is no longer than the input |
| OrderedHash.FilterFilter | lib/things/issues_diff.rb:129-134 | Two filters in a row are one filter by the intersection of what they keep |
| OrderedHash.FilterAll | lib/things/issues_diff.rb:129-134 | A filter that keeps every element is the identity |
| OrderedHash.FilterCongruent | lib/things/issues_diff.rb:129-134 | Two filters that agree on every element of the input give the same result |
| OrderedHash.Minus | lib/things/issues_diff.rb:137-138 | Array difference holds exactly the elements of the left list absent from the right one, and keeps distinctness |
| OrderedHash.Values | lib/things/issues_diff.rb:137-138 | Mapping keys to their values gives one value per key, position by position |
| OrderedHash.ValuesAgree | lib/things/issues_diff.rb:137-138 | Hashes that agree on some keys give the same values for them |
| OrderedHash.OnlyIn | lib/things/issues_diff.rb:137-138 | The key difference of two hashes holds each key of the first hash that the second lacks, once |
| OrderedHash.OnlyInIsFilter | lib/things/issues_diff.rb:137-138 | The key difference is the first hash's key list, in its order, filtered by absence from the second |
| OrderedHash.Restrict | lib/things/issues_diff.rb:130-133 | Selecting entries of a hash keeps it well formed and keeps exactly the chosen keys with their values |
| TaskText.Contains | lib/things/issues_diff.rb:170 | `String#include?`: the left-to-right search holds exactly when the name occurs as a contiguous slice of the line |
| TaskText.ContainsFromIsOccurrence | lib/things/issues_diff.rb:170 | The left-to-right search from a position finds exactly the occurrences at or after it |
| TaskText.DigitRun | lib/things/issues_diff.rb:171 | The digit run at a position is maximal: all digits, and followed by the end or a non-digit |
| TaskText.TokenAtIsMatch | lib/things/issues_diff.rb:171 | The greedy matcher at a position succeeds exactly when the pattern matches there, and the digit group of a match is the whole digit run |
| TaskText.FirstToken | lib/things/issues_diff.rb:171 | The search returns the leftmost position where the pattern matches, or none when it matches nowhere |
| TaskText.IssueNumber | lib/things/issues_diff.rb:171-173 | A line yields no number exactly when the pattern matches nowhere in it |
| TaskText.NoTokenNoMatch | lib/things/issues_diff.rb:171 | When the search finds nothing, the pattern matches nowhere in the line |
| TaskText.FirstTokenIsLeftmost | lib/things/issues_diff.rb:171 | The match found is a match, and no match starts further left |
| TaskText.IssueNumberIsLeftmostMatch | lib/things/issues_diff.rb:171-173 | A line has an issue number exactly when the pattern matches, and the number is the base-10 value of the digit group of the leftmost match |
| TaskText.DecimalString | lib/things/issues_diff.rb:178 | A number is written as a non-empty string of digits without leading zeros; 0 is written as the single digit `0` |
| TaskText.DecimalRoundTrip | lib/things/issues_diff.rb:178 | Reading back the decimal string of a number gives the number |
| TaskText.TaskUrl | lib/things/issues_diff.rb:178 | The task URL is the repository's issues prefix followed by digits only, without a leading zero, and those digits read back as the issue number; issue 0 gets exactly the suffix `0` |
| TaskText.Fields | lib/things/issues_diff.rb:165 | Splitting at line breaks gives at least one field, and no field holds a line feed |
| TaskText.DropTrailingEmpty | lib/things/issues_diff.rb:165 | Dropping trailing empty fields leaves a prefix whose last field is non-empty, and drops only empty fields |
| TaskText.SplitLines | lib/things/issues_diff.rb:165 | No line holds a line feed, and the last line is not empty |
| TaskText.FieldsJoin | lib/things/issues_diff.rb:165 | Joining the fields with line feeds gives back the text, with each CR LF read as LF |
| TaskText.NormalizeWithoutCr | lib/things/issues_diff.rb:165 | Text without carriage returns is its own normal form |
| TaskText.SplitLinesRoundTrip | lib/things/issues_diff.rb:165 | Splitting loses only trailing empty lines: with them added back, joining gives the text |
| TaskParser.Hit | lib/things/issues_diff.rb:170-173 | A line yields a number for a project only when it contains the project name, and then it yields the line's issue number |
| TaskParser.TaskFor | lib/things/issues_diff.rb:177-180 | The task's title is the raw line, and its URL is under the project's issues prefix with digits that read back as the number and have no leading zero; number 0 gets exactly the suffix `0` |
| TaskParser.Init | lib/things/issues_diff.rb:166-167 | Every configured name, and no other, starts with an empty hash |
| TaskParser.ParseStep | lib/things/issues_diff.rb:170-180 | Trying a line against one project keeps the set of projects |
| TaskParser.ParseLine | lib/things/issues_diff.rb:169-181 | Trying a line against every name keeps the set of projects |
| TaskParser.ParseLines | lib/things/issues_diff.rb:166-183 | The result has exactly one hash per configured name, even when no line matches it |
| TaskParser.LoadLine | lib/things/issues_diff.rb:169-181 | The inner loop, updating the hashes and warnings in place, ends in the state the specification function gives |
| TaskParser.LoadTasks | lib/things/issues_diff.rb:164-184 | The whole parser, splitting the output and running both loops, ends in the state the specification function gives |
| TaskParser.ParseLineValid | lib/things/issues_diff.rb:169-181 | One line keeps every task hash well formed |
| TaskParser.ParseLinesValid | lib/things/issues_diff.rb:167-182 | Every task hash the parser builds is well formed |
| TaskParser.LineEffect | lib/things/issues_diff.rb:169-180 | A line changes a project's hash only when the project is configured and the line is a hit for it, and then stores the line under its number |
| TaskParser.StepWarnings | lib/things/issues_diff.rb:174-176 | Trying a line against one project adds no warning for any other project or number |
| TaskParser.StepWarningsHit | lib/things/issues_diff.rb:174-176 | A hit warns exactly when its number is already recorded for the project |
| TaskParser.LineWarnings | lib/things/issues_diff.rb:169-176 | One line adds as many warnings for a project and number as the name is listed, less one when the number was not yet recorded |
| TaskParser.LineWithoutToken | lib/things/issues_diff.rb:171 | A line without the issue token changes nothing for any project |
| TaskParser.DuplicateReplaces | lib/things/issues_diff.rb:174-180 | A duplicate hit keeps the number's place, replaces its task, warns once, and changes no other task of any project |
| TaskParser.OccurrencesPositive | lib/things/issues_diff.rb:168-171 | The count of hitting lines is positive exactly when some line is a hit |
| TaskParser.Recorded | lib/things/issues_diff.rb:168-180 | A configured project records a number exactly when some line is a hit for it with that number |
| TaskParser.WarningStep | lib/things/issues_diff.rb:168-176 | One more line adds the warnings that line gives, and one more occurrence exactly when it is a hit |
| TaskParser.WarningCount | lib/things/issues_diff.rb:168-176 | The first hit is silent and each further hit warns once per listing of the name: `k * c - 1` warnings for `k` hits and `c` listings, none for an unconfigured name |
| TaskParser.LastHit | lib/things/issues_diff.rb:168-180 | The position found is a hit, and no later line is |
| TaskParser.LastLineWins | lib/things/issues_diff.rb:177-180 | The recorded task is the last hitting line, unchanged as title, under the URL of the project's issue |
| TaskParser.TaskKeys | lib/things/issues_diff.rb:168-180 | A configured project's task hash lists the issue numbers of its hitting lines in the order of their first hit, each once, so `tasks.keys` has that order |
| TaskParser.EveryNamedProjectRecordsTheLine | lib/things/issues_diff.rb:168-173 | A line naming two configured projects is recorded under each of them |
| Snapshot.EntryOf | lib/things/issues_diff.rb:96-107 | Title and URL are copied; milestone is its title or `''` when absent; labels are the names in order or `[]` when absent |
| Snapshot.IssuesOf | lib/things/issues_diff.rb:95-109 | A project's hash holds exactly the numbers some issue carries, and has no more keys than there are issues |
| Snapshot.SnapshotOf | lib/things/issues_diff.rb:90-110 | The snapshot has exactly one hash per configured project |
| Snapshot.FetchProject | lib/things/issues_diff.rb:95-109 | The inner loop ends with the hash the specification function gives for the project's issues |
| Snapshot.Fetch | lib/things/issues_diff.rb:89-110 | The outer loop ends with the snapshot the specification function gives |
| Snapshot.IssuesOfKeys | lib/things/issues_diff.rb:95-109 | A project's hash is well formed and lists each issue number once, in order of first occurrence |
| Snapshot.IssueRecorded | lib/things/issues_diff.rb:108 | A number is stored exactly when some issue carries it |
| Snapshot.LastIndex | lib/things/issues_diff.rb:108 | The position found carries the number, and no later issue does |
| Snapshot.LastIssueWins | lib/things/issues_diff.rb:108 | The stored entry is the one of the last issue with that number |
| Reconcile.Names | lib/things/issues_diff.rb:166 | The configured names, one per project, in order |
| Reconcile.SelectMilestones | lib/things/issues_diff.rb:129-131 | The include stage keeps exactly the issues whose milestone is listed, with their entries unchanged, in a well-formed hash |
| Reconcile.RejectMilestones | lib/things/issues_diff.rb:132-134 | The exclude stage keeps exactly the issues whose milestone is not listed, with their entries unchanged, in a well-formed hash |
| Reconcile.MilestoneFilter | lib/things/issues_diff.rb:125-135 | The filter yields a well-formed hash; what it keeps is stated by FilterKeeps |
| Reconcile.FilterKeeps | lib/things/issues_diff.rb:125-135 | The filter keeps exactly the issues whose milestone passes (all when ignoring it), with unchanged entries, in their original order |
| Reconcile.FilterStagesKeys | lib/things/issues_diff.rb:129-134 | Include-then-exclude leaves the passing keys in their original order |
| Reconcile.FilterIdentity | lib/things/issues_diff.rb:125-135 | With the filter ignored, or both lists empty, the filter is the identity |
| Reconcile.FilterBounds | lib/things/issues_diff.rb:125-135 | The result is a submap; with an include list every kept milestone is listed; an excluded milestone never survives, even when also included |
| Reconcile.FilterMonotone | lib/things/issues_diff.rb:125-135 | A wider include list and a narrower exclude list never keep fewer issues |
| Reconcile.OrEmpty | lib/things/issues_diff.rb:122-123 | A project missing from a map reads as an empty hash |
| Reconcile.ProjectReport | lib/things/issues_diff.rb:137-143 | The report names the project; a report that differs lists at least one issue or task, never more issues than the hash holds nor more tasks than the task hash holds |
| Reconcile.ReportSides | lib/things/issues_diff.rb:137-143 | New issues are the issues whose number has no task, in issue order; old tasks are the tasks whose number has no issue, in task order; Clear exactly when both sides hold the same numbers |
| Reconcile.ReconcileClosedForm | lib/things/issues_diff.rb:122-143 | New issues are the fetched issues that pass the filter and have no task, in fetch order; old tasks are those whose number no passing issue carries |
| Reconcile.ReconcileProject | lib/things/issues_diff.rb:122-143 | The report names the project, lists no more tasks than the project has, and is Clear for a project with neither issues nor tasks |
| Reconcile.MissingProject | lib/things/issues_diff.rb:122-143 | A project the snapshot lacks lists no issues and all of its tasks, and is Clear exactly when it has no tasks |
| Reconcile.DiffProject | lib/things/issues_diff.rb:122-143 | One loop pass, narrowing the issues stage by stage, gives the project's report |
| Reconcile.Reports | lib/things/issues_diff.rb:121-161 | One report per configured project, in configuration order |
| Reconcile.Diff | lib/things/issues_diff.rb:118-162 | `diff` gives the parser's warnings and, for every configured project, its report over well-formed task hashes |

## Left out

- Option parsing, command selection and usage text (`parse_options`, `execute`, `usage`): command-line plumbing.
- Finding and loading the configuration file, and exiting on its errors (`load_config`): file-system and YAML input. A missing `milestones` list is modelled as the empty list, which is what its `|| []` default gives. A configuration whose `milestones` entry is not a mapping is not modelled.
- The GitHub client (`init_octokit`, `list_issues`): a foreign library and the network. The client is the parameter `listIssues`, which returns all pages of a project's issues for the configured assignee.
- Snapshot.Fetch: `listIssues` is a function, so a project configured twice is fetched twice with the same result. A real client could answer differently the second time.
- Writing and reading the snapshot file with YAML: a foreign serialiser and file I/O, so the save/load round trip is not modelled. `Diff` takes the loaded snapshot as a parameter, and requires each project's hash in it to be well formed, as a hash read back always is.
- Running `things.sh all`: process I/O. `LoadTasks` takes its output as a string.
- Everything printed: the loading and saved messages, the duplicate warning text, the report layout and the sample configuration. Warnings are returned as `Duplicated(project, number)` values, in the order they are printed, and reports as `Clear`/`Differs` values.
- Issue fields that are `nil` (a missing title, URL, label name or milestone title): the model types them as strings.
- Issue numbers are natural numbers. The conversion of the tracker's number with `to_i` is not modelled.
- Unicode: characters are compared one by one. `\s` is the ASCII whitespace Ruby's regular expressions give it (space, tab, LF, VT, FF, CR) and `\d` is `0`-`9`.
