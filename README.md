# Issue and task persistence core, modelled in Dafny

This project models the persistence and identity core of a small, file-backed
issue and task tracker. It has four parts:

- **Repository registry** (`core/repository_manager.py`). It validates
  repository names and bootstraps `repos.json` with five seed names on first
  run. It computes case-insensitive fuzzy suggestions, and it inserts new names
  with duplicate rejection, re-sorting the list.
- **Issue identifier allocator and issue store** (`core/file_manager.py`).
  The allocator is a read-increment-write counter in `issue_counter.txt`, with
  identifiers formatted as `ISSUE-%03d`. Each issue is one document under
  `issues/`, keyed by its id, and an all-or-nothing `load_all_issues` returns
  the issues sorted by id.
- **Task-list store** (`core/task_manager.py`). Each task list is one
  document holding an ordered list of tasks, each task with its own list of
  comments. Tasks are added, commented on, updated and deleted in memory, and
  the whole document is rewritten after each successful change.
- **`truncate_text`** (`utils/helpers.py`).

The disk is abstract. Each document is either absent, corrupt (JSON decoding
fails), or a parsed value. The clock and `uuid4` are parameters supplied by
the caller. Python's `list.sort` is modelled by a stable insertion sort
(`Sorting.SortBy`). `Sorting.SortedPermutationIsUnique` shows that for the
registry's string lists, every correct sort gives this same result.

Files: `common.dfy` (Option, Result, errors), `strings.dfy` (ASCII
`lower`, substring search, string order, `str`/`int` on decimals),
`sorting.dfy`, `repository_manager.dfy`, `file_manager.dfy`,
`task_manager.dfy`, `helpers.dfy`.

Behaviour of the code worth knowing, which the model follows:

- `load_repositories` does not bootstrap a missing registry; only the
  constructor writes the seed list. A missing file, a corrupt file or one
  without a `"repositories"` key loads as `[]`.
- The seed list is not sorted. The registry is sorted only after a
  successful `add_repository`, so suggestions come out in file order.
- All writes are plain `open(..., 'w')`. None are write-then-replace.
- `suggest_repositories("MyRepo")` against `["my-repo"]` gives
  `(False, [])`, not a suggestion, because neither lower-cased name contains
  the other (`Repositories.MyRepoIsNotSimilarToDashedName`).
- Adding a name to a corrupt registry loads it as `[]` and then overwrites
  the file with just the new name.
- String order on the ids agrees with counter order only for counters
  0..999 (`Issues.IdOrderMatchesCounterOrder`). `ISSUE-1000` sorts before
  `ISSUE-999` (`Issues.IdOrderBreaksAt1000`).

## Model

| member | source | states |
|---|---|---|
| `Repositories.ValidateRepoName` | core/repository_manager.py:38-51 | the name is accepted iff it matches `^[a-zA-Z0-9_-]+$` (Python's `$` also allowing one final newline) and has 2..50 characters; the empty string gets the character-class message, a single valid character the "at least 2" message, a long name the "50 or less" message |
| `Repositories.ValidateRepoNameFullMatch` | core/repository_manager.py:40-51 | corrected check: accepted iff every character is a letter, digit, `-` or `_` and the length is 2..50, with the same messages in the same order |
| `Repositories.ValidateAgreesWithoutNewline` | core/repository_manager.py:41-51 | on names without a newline the code as written and the corrected check agree exactly |
| `Repositories.ValidateAcceptsTrailingNewline` | core/repository_manager.py:41 | the code as written accepts `"a\n"`; the corrected check rejects it |
| `Repositories.Suggestions` | core/repository_manager.py:60-69 | the partial matches are a subsequence of the registry (registry order kept) and hold exactly the names whose lower case contains, or is contained in, the lower-cased input |
| `Repositories.SuggestionsCounts` | core/repository_manager.py:60-69 | each similar name is suggested exactly as many times as it is registered, and no other name at all, so the partial matches are the similar names in registry order |
| `Repositories.EmptyInputSuggestsAll` | core/repository_manager.py:60-69 | an empty input is contained in every lower-cased name, so every registered name is a partial match, in registry order |
| `Repositories.MatchesNamePatternShape` | core/repository_manager.py:41 | `^[a-zA-Z0-9_-]+$` under `re.match` accepts a name iff it is non-empty, every character but the last is a letter, digit, `-` or `_`, and the last is one too or is a newline after at least one such character |
| `Repositories.MyRepoIsNotSimilarToDashedName` | core/repository_manager.py:58-69 | `"MyRepo"` is neither an exact nor a partial match of `"my-repo"` |
| `Repositories.SameNameIsExactMatch` | core/repository_manager.py:62-63 | `"my-repo"` typed exactly is an exact match of `"my-repo"` |
| `Repositories.RepositoryManager.constructor` | core/repository_manager.py:11-26 | a missing registry is written with the five seed names in file order; an existing one, even corrupt, is left as it is |
| `Repositories.RepositoryManager.LoadRepositories` | core/repository_manager.py:28-36 | the stored list, or `[]` for a missing file, a corrupt file or a document without `"repositories"` |
| `Repositories.RepositoryManager.SuggestRepositories` | core/repository_manager.py:53-69 | `exact` iff some name equals the input ignoring case, and then no suggestions at all (earlier partial matches are dropped); otherwise exactly the partial matches in registry order |
| `Repositories.RepositoryManager.AddRepository` | core/repository_manager.py:71-81 | returns True iff the name was absent (case-sensitive); then the stored list is the sorted old list plus the name: sorted, a permutation of old + [name], one longer; otherwise nothing is written; either way the name is registered afterwards |
| `Repositories.AddTwice` | core/repository_manager.py:71-81 | a second add of the same name returns False and leaves the registry as the first add left it |
| `Strings.Lower` | core/repository_manager.py:58 | `.lower()` keeps the length and lower-cases each character (ASCII letters only) |
| `Strings.BelowTotal` | core/repository_manager.py:76 | Python's string comparison, which `sort` uses, relates every two strings one way or the other |
| `Strings.BelowTransitive` | core/repository_manager.py:76 | the string comparison is transitive |
| `Strings.BelowAntisymmetric` | core/repository_manager.py:76 | two strings each at most the other are equal, so the comparison is a total order |
| `Strings.ContainsIffSlice` | core/repository_manager.py:66 | Python's substring test `a in b` holds iff `a` occurs at some position of `b` |
| `Strings.NatToDecimal` | core/file_manager.py:31 | `str(n)` gives decimal digits without leading zeros whose value is `n` |
| `Strings.ParseIntToString` | core/file_manager.py:22-31 | what `str(counter)` writes, `int(text.strip())` reads back as the same integer |
| `Strings.IntToString` | core/file_manager.py:31 | `str(i)` is digits without a leading zero (except `"0"` itself), preceded by `-` exactly for a negative `i` |
| `Strings.ParseIntIgnoresSpace` | core/file_manager.py:22 | `int(" 7\n".strip())` is 7: white space around the digits is ignored |
| `Strings.ParseIntReadsMinus` | core/file_manager.py:22 | `int("-04")` is -4: a minus sign is read and leading zeros are allowed |
| `Strings.ParseIntReadsPlus` | core/file_manager.py:22 | `int("+5")` is 5 |
| `Strings.ParseIntRejects` | core/file_manager.py:22 | an empty counter file, a bare sign and digits with inner white space raise ValueError |
| `Sorting.SortBy` | core/repository_manager.py:76 | the sorted list is ordered by key and is a permutation of its input |
| `Sorting.SortedPermutationIsUnique` | core/repository_manager.py:76 | two ascending lists of the same strings are equal, so every correct sort of the registry gives the same list |
| `Issues.FormatId` | core/file_manager.py:33 | the id starts with `ISSUE-` |
| `Issues.IdSuffixShape` | core/file_manager.py:33 | the `{counter:03d}` field is at least three characters: only digits for a counter of 0 or more, `-` followed by digits for a negative one |
| `Issues.FormatIdParsesBack` | core/file_manager.py:33 | the text after `ISSUE-` parses back to the counter, for every integer counter, so the `%03d` field never truncates |
| `Issues.FormatIdInjective` | core/file_manager.py:33 | different counters give different ids |
| `Issues.FormatIdWidth` | core/file_manager.py:33 | the id has `max(3, digits)` characters after the prefix, and at least 4 from counter 1000 on |
| `Issues.IdOrderMatchesCounterOrder` | core/file_manager.py:76 | for counters 0..999, string order on the ids (the sort key of `load_all_issues`) is numeric order on the counters |
| `Issues.IdOrderBreaksAt1000` | core/file_manager.py:76 | `ISSUE-1000` sorts before `ISSUE-999` |
| `Issues.StoredCounter` | core/file_manager.py:21-25 | an absent counter file reads as 0 |
| `Issues.CounterRoundTrip` | core/file_manager.py:22-31 | a counter written by the allocator is read back unchanged by the next call |
| `Issues.ConsecutiveIds` | core/file_manager.py:19-33 | the ids of counters 1..n have no repeats and, up to 999, are strictly ascending in string order |
| `Issues.Gather` | core/file_manager.py:67-73 | a successful loop holds at most one record per listed name, each stored in some listed `ISSUE-*` document; a failure means some listed `ISSUE-*` document is malformed |
| `Issues.GatherErrorPersists` | core/file_manager.py:68-74 | once a document fails to decode the enumeration stops with that error |
| `Issues.GatherFailsOnMalformed` | core/file_manager.py:68-74 | the enumeration fails iff some `ISSUE-*` document is malformed, and names such a document |
| `Issues.GatherCounts` | core/file_manager.py:68-72 | whatever the listing order, a successful enumeration holds each record as many times as there are `ISSUE-*` documents holding it |
| `Issues.FileManager.constructor` | core/file_manager.py:10-15 | binds the counter file and the issue directory as they are on disk |
| `Issues.FileManager.GetNextIssueId` | core/file_manager.py:19-36 | reads counter c (0 without a file), writes c+1 and returns `FormatId(c+1)`; an unparseable counter raises before the write, leaving it unchanged; issue documents untouched |
| `Issues.FileManager.SaveIssue` | core/file_manager.py:38-46 | the record is stored under its id, replacing any earlier one; a following load returns it; every other id loads as before |
| `Issues.FileManager.LoadIssue` | core/file_manager.py:48-58 | None iff no document has the id; an error iff it is malformed; otherwise the stored record |
| `Issues.FileManager.LoadAllIssues` | core/file_manager.py:60-77 | fails iff some `ISSUE-*` document is malformed (all or nothing); otherwise sorted ascending by `id` and holding each stored record exactly as often as it is stored, whatever the directory order |
| `Issues.AllocateFromFresh` | core/file_manager.py:19-36 | n calls from an absent counter return `FormatId(1) ... FormatId(n)` in order and leave the counter file holding `str(n)` (still absent when n = 0) |
| `Tasks.NewTask` | core/task_manager.py:48-56 | the new task has the given id, exactly the keys subject, description, status, date_created, priority and comments, an empty comment list and text everywhere else |
| `Tasks.FirstIndex` | core/task_manager.py:73-77 | the position of the first task with the id, or None iff no task has it |
| `Tasks.Without` | core/task_manager.py:91 | the filtered list is a subsequence of the tasks (order kept), holds exactly the tasks with another id, is shorter by the number of matches, and is the same list when nothing matches |
| `Tasks.DeleteUniqueRemovesOne` | core/task_manager.py:89-95 | with unique ids, deleting a present id removes exactly one task |
| `Tasks.WithoutKeepsUniqueIds` | core/task_manager.py:91 | filtering keeps ids unique |
| `Tasks.TaskManager.constructor` | core/task_manager.py:7-26 | an absent list is created as `{"1.0.0", name, association, created_by, created_on, []}` and written; an existing one is loaded with the arguments ignored; an unreadable or undecodable one leaves no document |
| `Tasks.TaskManager.SaveTaskList` | core/task_manager.py:28-33 | the file holds the whole in-memory document |
| `Tasks.TaskManager.LoadTaskList` | core/task_manager.py:35-45 | a decodable file becomes the document; a decode error sets none; a read error leaves it as it was |
| `Tasks.TaskManager.FindTask` | core/task_manager.py:73-77 | the front-to-back scan finds the first task with the id |
| `Tasks.TaskManager.GetTaskById` | core/task_manager.py:73-77 | None iff no task has the id; otherwise the first task that has it |
| `Tasks.TaskManager.AddTask` | core/task_manager.py:47-59 | exactly one task is appended, with the given values (status `"open"` by default), the fresh id and no comments; earlier tasks and the header are unchanged; the document is written; ids stay unique |
| `Tasks.TaskManager.AddCommentToTask` | core/task_manager.py:61-71 | the comment is appended to the first task with the id, every other task unchanged, and the document written; an unknown id gives False with no change and no write; a task without a comment list raises, with no change |
| `Tasks.Overwrite` | core/task_manager.py:82-84 | the task keeps its key set; each key it has that is among the keyword arguments takes their value, every other key keeps its own |
| `Tasks.OverwriteIdempotent` | core/task_manager.py:82-84 | applying the same keyword arguments twice gives what applying them once gives |
| `Tasks.TaskManager.UpdateTask` | core/task_manager.py:79-87 | on the first task with the id, only keys it already has are overwritten and unknown keys are ignored; writes and returns True iff the task exists, else no change and no write |
| `Tasks.TaskManager.DeleteTask` | core/task_manager.py:89-95 | keeps the tasks with another id, in order; returns True and writes iff the count fell, which is iff the id was present; afterwards no task has the id; with unique ids exactly one task goes |
| `Tasks.ReopenKeepsCreator` | core/task_manager.py:15-16 | re-opening an existing list with other creator and association arguments keeps the stored ones |
| `Helpers.SlicePrefix` | utils/helpers.py:21 | Python's `text[:n]` is a prefix, clamped for large `n` and counted from the end for negative `n` |
| `Helpers.TruncateText` | utils/helpers.py:18-21 | None or `""` give `""`; a text within the bound is unchanged; a longer one is a prefix of the text followed by `...`, of length exactly `max_length + 3` when `max_length >= 0`; for `max_length >= 0` the result never exceeds `max_length + 3` |

## Left out

- Write and read failures (IOError) are not modelled: `save_issue` and the counter write raising, and the message printed and swallowed by `_save_task_list`. An unreadable task list is modelled, because it changes what the constructor leaves.
- JSON encoding and decoding are not modelled. Documents are abstract values, and a malformed document is one `json.load` rejects.
- Documents that parse but have an unexpected shape are not modelled: a `"repositories"` value that is not a list, a task list without its top-level keys, a task without `"task_id"` or with a non-string one. Task values are restricted to strings and comment lists.
- Directory handling is not modelled: `mkdir`/`makedirs`, file paths, and the `issues_dir` missing branch of `load_all_issues`, since the constructor has just created that directory.
- Issues.FileManager.LoadAllIssues: the order in which `glob` lists the directory is a parameter. The glob is matched on the name without `.json`, case-sensitively. The ordering among records with equal `id` (which a stable sort leaves in listing order) is not stated.
- Tasks.TaskManager.GetTaskById: returns the task as a value. In the code, `get_task_by_id` and `add_task` return the very dictionaries inside the document, so a caller that later mutates them changes the document. That aliasing is not modelled.
- Tasks.TaskManager.AddTask: the new id and the timestamps are parameters standing for `uuid4()` and `utcnow().isoformat()`. The id is required to be fresh.
- Tasks.TaskManager.AddCommentToTask, UpdateTask, DeleteTask, GetTaskById and AddTask require a loaded document. When loading failed, the code raises TypeError on `None["tasks"]`, and that failure is not modelled.
- Tasks.TaskManager.UpdateTask requires that the keyword arguments do not include `task_id`. Python binds that name to the positional parameter, so such a call fails before the body runs.
- Strings.Lower covers ASCII only; Unicode case mapping is not modelled. `str.strip()` removes only space, tab, newline, carriage return, vertical tab (U+000B) and form feed (U+000C); the other characters Python also strips (U+001C to U+001F, U+0085 and the Unicode spaces) are not modelled. `int()` is limited to an optional sign and ASCII digits, without underscores or non-ASCII digits.
- Repositories.ValidateRepoName: the character class is exact, but names are otherwise taken as sequences of code points, with no Unicode-specific regex behaviour.
- `format_datetime`, the command-line commands, the interactive prompts, the tutorial driver and printing are not part of this model.
- Cross-process races on the counter, registry and task files are not modelled, nor is crash-atomicity of writes. The code provides neither.

## Findings

| source | as written | input that shows it | evidently intended | confidence | as-written member | corrected member |
|---|---|---|---|---|---|---|
| core/repository_manager.py:41 | `re.match(r'^[a-zA-Z0-9_-]+$', name)` lets `$` match before a final newline, so one trailing `\n` passes the character check and counts toward the length | `"a\n"` gives `(True, "")` | only letters, digits, `-` and `_`, length 2..50 (the comment on line 40) | medium, not executed; reachable from the command line: main.py:86-87 passes the argument unstripped to `add_repo`, which validates it (commands/add_repo.py:15) and registers it (commands/add_repo.py:28); only the interactive prompt strips (utils/validators.py:13) | `Repositories.ValidateAcceptsTrailingNewline` | `Repositories.ValidateRepoNameFullMatch` |
