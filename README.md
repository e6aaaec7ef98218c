# glim, modelled in Dafny

glim is a terminal dashboard for a set of local git repositories. It keeps a
registry that maps a repository name to its path. Subcommands add, remove,
rename and look up entries, and the registry is saved when a command has
changed it. After the subcommand, if any, has succeeded, every registered
repository is opened and handed to a pool of workers, which optionally fetch and then compute the
working-tree status. The results are collected into a map ordered by name,
and one table row is printed per repository: name, status symbols, branch,
distance to upstream, remote branch and the first 50 characters of the head
commit summary.

This project models that core:

- **Registry** (`src/config.rs`, `src/source.rs`): the name -> path map.
  Each operation is a pure function on the map (`Config.AddTo`,
  `Config.RenameIn`, `Source.AddTo`, `Source.RenameIn`, `Source.EntriesOf`).
  Each class method changes its field in place and is proved equal to that
  function: `Config.Config` for `Config`, `Source.Sources` for `Sources`.
  A path is a sequence of components. A component carries its text and
  whether it is valid UTF-8. The default name is the text of the last
  component.
- **Repository** (`src/repository.rs`):
  - A snapshot `Backend` of what the git library answers. The status,
    branch, remote, distance and summary queries are functions over it.
  - The three status facets and their symbols `+`, `*` and `_`.
  - The ahead/behind classification and its symbols.
  - The status cache, as the class `Repository.Repository` and as the
    function `StatusQuery`. The class models a repository object whose
    cache `status()` fills in place. The pipeline in `src/cli.rs` moves
    those objects between threads, and the model passes the same state
    there as the value `Cli.Handle`. Both are tied to `StatusQuery`.
- **Command line** (`src/cli.rs`):
  - `run_command` as the method `Cli.Cli.RunCommand` over a `Config.Config`,
    specified by the function `Apply` and the loop functions `AddAll` and
    `RemoveAll`.
  - The open loop `OpenRepositories`, specified by `OpenedIn` and `FailedIn`.
  - A worker job `Process`.
  - `run_process` as the method `Cli.Cli.RunProcess`, which opens, hands out
    the jobs (`SpawnWorkers`), receives them in a given arrival order
    (`Receive`), folds and tabulates them. It is proved to print the table
    `IsTable` describes, and `TableUnique` shows that this table is the same
    whatever the arrival order.
  - The fold of the workers' results into a `BTreeMap`: `Collect`, over
    `SortedMap` (ascending entry sequences under `StringOrder.Less`). It is
    proved against the reference `Latest`, "the last arrival with that name".
  - The row loop `BuildRows`, with `RowOf`.

A git status value is modelled as the set of its bits. The facet checks
compare whole entry values with single-bit values, exactly as the Rust code
does with `HashSet::contains`. An entry with two bits set, such as a file
staged and then modified again, therefore contributes to no facet.
`Repository.MultiBitEntryIgnored` states this behaviour.

Where the code is inconsistent, the model follows the code as written:

- The commit summary is cut with `chars().take(50)` (`src/cli.rs:181-183`).
  This keeps the first 50 characters and appends nothing
  (`Cli.Truncate`).
- The worker calls `compute_status()` (`src/cli.rs:125`), a method that
  `src/repository.rs` does not define. The model uses the caching
  `status()` query in its place.
- The row loop tests `status()` with `if let Some` (`src/cli.rs:161`) on a
  value that is a `Result`. The model reads this as "a successful query".
- `save()` is called without a path (`src/cli.rs:83`), while
  `Config::save` takes one. The outcome of the write is the parameter
  `saveOk`.

## Model

| member | source | states |
|---|---|---|
| Paths.ToStr | src/config.rs:31-33 | a component converts exactly when it is UTF-8, and then to its text |
| Paths.DefaultName | src/config.rs:27-33 | "path is too short" exactly for the empty path; "not valid UTF-8" exactly when the last component is not UTF-8; otherwise the last component's text |
| Registry.Insert | src/config.rs:34-39 | a free name is bound to the path, growing the map by one and keeping every other binding; a taken name is refused with "already exists" |
| Registry.Without | src/config.rs:41-43 | removal drops exactly that key, keeps other values, and shrinks the map by one only when the key was bound |
| Registry.Move | src/config.rs:50-54 | remove-then-insert moves the path to the new name, keeps the others and preserves the size |
| Config.AddTo | src/config.rs:25-40 | each error case of `add_repository` (too short, not UTF-8, name taken), success exactly when the default name is free, and then the new binding plus all old ones |
| Config.RenameIn | src/config.rs:44-57 | a missing old name is reported first, then a taken new name; success exactly when the old name is bound and the new one free; on success the path moves and the size is kept |
| Config.Config.constructor | src/config.rs:12-16 | a new configuration has an empty registry |
| Config.Config.AddRepository | src/config.rs:25-40 | the map becomes `AddTo`'s result on success and is unchanged on failure, with the same error |
| Config.Config.RemoveRepositoryByName | src/config.rs:41-43 | the result is whether the name was bound; afterwards the name is unbound and nothing else changed |
| Config.Config.RenameRepository | src/config.rs:44-57 | the map becomes `RenameIn`'s result on success and is unchanged on failure |
| Source.AddTo | src/source.rs:34-52 | an explicit name is used verbatim and only checked for being free; without one, the same errors as `Config.AddTo`; on success the new binding plus all old ones |
| Source.RenameIn | src/source.rs:59-69 | a taken new name is reported first, then a missing old name; on success the path moves and the size is kept |
| Source.RenameCheckOrder | src/source.rs:59-69 | differs from `Config.RenameIn` only when the old name is missing and the new one taken; each then reports a different error |
| Source.EntriesOf | src/source.rs:31-33 | the iterated entries are exactly the bindings, one per key |
| Source.EntriesCount | src/source.rs:31-33 | the iteration yields as many entries as the map has keys |
| Source.Sources.constructor | src/source.rs:24-26 | a new registry is empty |
| Source.Sources.Get | src/source.rs:27-30 | an entry is found exactly for a bound name, with that name and its path |
| Source.Sources.Iter | src/source.rs:31-33 | yields exactly the bindings, as many as there are keys |
| Source.Sources.Add | src/source.rs:34-52 | the map becomes `Source.AddTo`'s result on success and is unchanged on failure |
| Source.Sources.Remove | src/source.rs:53-58 | succeeds exactly for a bound name, returning its path; otherwise "does not exist"; the name is unbound afterwards |
| Source.Sources.Rename | src/source.rs:59-69 | the map becomes `Source.RenameIn`'s result on success and is unchanged on failure |
| Repository.HasStagedFiles | src/repository.rs:115-125 | a known status with an entry equal to one single index bit; false for an unknown status |
| Repository.HasUnstagedFiles | src/repository.rs:126-135 | a known status with an entry equal to one single work-tree modified, deleted, renamed or type-change bit |
| Repository.HasUntrackedFiles | src/repository.rs:136-142 | a known status with an entry equal to the single work-tree-new bit |
| Repository.MultiBitEntryIgnored | src/repository.rs:115-142 | adding an entry with two or more bits changes none of the three facets |
| Repository.StatusSymbol | src/repository.rs:145-158 | each of `+`, `*`, `_` appears exactly when its facet holds, at most once and in that order; an unknown status shows nothing |
| Repository.FixedOrderDetermined | src/repository.rs:145-158 | two strings of status symbols in the fixed order that hold the same symbols are equal |
| Repository.StatusSymbolUnique | src/repository.rs:145-158 | any fixed-order string showing exactly the present facets is the status text |
| Repository.FormatStatus | src/repository.rs:146-157 | the push-by-push construction yields the status text |
| Repository.Classify | src/repository.rs:89-94 | Same, Ahead, Behind and Both each hold exactly for their ahead/behind case |
| Repository.DistanceSymbol | src/repository.rs:168-178 | two characters, with Same as "==", Ahead as ">>", Behind as "<<" and Both as "<>", each exactly for its distance |
| Repository.DistanceSymbolInjective | src/repository.rs:168-178 | different distances render differently |
| Repository.BranchName | src/repository.rs:46-52 | the head's short name, or none when `head()` fails |
| Repository.HeadBranch | src/repository.rs:53-60 | "head is not a branch" without a branch name; success exactly when that local branch exists, giving it |
| Repository.HeadOid | src/repository.rs:61-67 | success exactly when the head branch resolves and points directly at a commit, giving that commit |
| Repository.RemoteReference | src/repository.rs:68-73 | the head branch's error, or its upstream's answer |
| Repository.RemoteName | src/repository.rs:74-80 | the upstream's short name, or none when it cannot be found |
| Repository.RemoteOid | src/repository.rs:81-86 | success exactly when the upstream resolves and points directly at a commit |
| Repository.DistanceOf | src/repository.rs:87-99 | present exactly when both commits resolve and the library relates them, then the classification of the counts; absent when the head is not a branch |
| Repository.CommitSummary | src/repository.rs:100-106 | the head commit's error passes through; success exactly when the head commit exists and has a UTF-8 summary, which it returns |
| Repository.Collected | src/repository.rs:37-41 | the folded set holds exactly the statuses that occur among the entries |
| Repository.CollectedIgnoresOrder | src/repository.rs:37-41 | the folded set depends only on which statuses occur |
| Repository.StatusQuery | src/repository.rs:32-45 | a known cache is returned unchanged; an unknown one is computed from the library, or stays unknown with the library's error |
| Repository.StatusQueryStable | src/repository.rs:32-45 | asking after a query gives the same answer and cache as the query |
| Repository.Repository.Open | src/repository.rs:15-28 | an opened repository keeps its name and handle and starts with an unknown status |
| Repository.Repository.Status | src/repository.rs:32-45 | the answer and the new cache are `StatusQuery` of the old cache; a known cache never changes |
| StringOrder.Irreflexive | src/cli.rs:136-142 | no name sorts before itself |
| StringOrder.Asymmetric | src/cli.rs:136-142 | two names never sort before each other |
| StringOrder.Transitive | src/cli.rs:136-142 | the name order is transitive |
| StringOrder.Total | src/cli.rs:136-142 | any two different names are ordered |
| SortedMap.GetKeys | src/cli.rs:159 | a lookup succeeds exactly for a key of the map |
| SortedMap.GetAt | src/cli.rs:159 | looking up the key of an entry answers that entry's value |
| SortedMap.Insert | src/cli.rs:139-141 | insertion keeps the keys ascending, answers the new value for its key and the old answer for every other key, and grows the map exactly when the key is new |
| SortedMap.Extensional | src/cli.rs:136-142 | two ordered maps that answer every lookup alike are the same entry sequence |
| Cli.AddAll | src/cli.rs:53-57 | without an error, `modified` holds exactly when a path was given and every path added one entry; existing bindings are always kept |
| Cli.AddAllBinds | src/cli.rs:53-57 | after a successful `add`, each given path is bound under the text of its last component, which is UTF-8 |
| Cli.BoundExtend | src/cli.rs:54-57 | one more successful `add_repository` keeps the earlier paths bound and binds the new one |
| Cli.AddAllKeys | src/cli.rs:53-57 | after a successful `add`, the names are exactly the old names plus the last components of the given paths |
| Cli.KeysExtend | src/cli.rs:54-57 | one more successful `add_repository` adds exactly its path's last component to the names |
| Cli.AddedNamesSnoc | src/cli.rs:54-57 | the names of one more path are the earlier names plus its last component |
| Cli.AddAllStopsAtError | src/cli.rs:53-57 | after the first failure the remaining paths change nothing |
| Cli.AddAllStep | src/cli.rs:54-57 | one more path either finds the loop stopped or applies `add_repository` once |
| Cli.AddAllAbort | src/cli.rs:53-57 | a failed `add` failed on some path k: the paths before it were added, path k was refused, and its error is the result |
| Cli.FailsAtExtends | src/cli.rs:53-57 | a failure among all paths but the last is a failure of all paths |
| Cli.RemoveAll | src/cli.rs:59-65 | never fails; leaves exactly the names not given, with their paths; `modified` holds exactly when a given name was bound |
| Cli.RemoveAllStep | src/cli.rs:60-64 | one more name removes it and sets `modified` when it was bound |
| Cli.Apply | src/cli.rs:52-79 | no command changes nothing; `path` prints exactly a bound name's path and fails with "name does not exist" otherwise; `rename` modifies exactly when it succeeds; `remove` never fails; a successful `add` modifies exactly when a path was given |
| Cli.Cli.constructor | src/cli.rs:16-31 | the command line holds the given configuration, flag, worker count and subcommand |
| Cli.Cli.AddPaths | src/cli.rs:53-57 | the loop leaves the registry, flag and error that `AddAll` describes |
| Cli.Cli.RemoveNames | src/cli.rs:59-65 | the loop leaves the registry and flag that `RemoveAll` describes |
| Cli.Cli.RunCommand | src/cli.rs:50-86 | the registry becomes `Apply`'s; a save is attempted exactly when nothing failed and the registry was modified; the result is the command's error, else "failed to save config" when that save fails, else success with the printed path |
| Cli.Names | src/cli.rs:140 | the names of the handles, position by position |
| Cli.DistinctCount | src/cli.rs:89-100 | a sequence without repetitions has as many distinct elements as entries |
| Cli.OpenableNames | src/cli.rs:90-93 | exactly the registered names whose paths open |
| Cli.NamesAppend | src/cli.rs:92 | appending a handle appends its name |
| Cli.OpenedIn | src/cli.rs:89-95 | every kept repository is a freshly opened one: registered, its path opens, handle for that path, status unknown |
| Cli.FailedIn | src/cli.rs:89-95 | the reported names are exactly the visited names that do not open |
| Cli.OpenedNames | src/cli.rs:89-95 | the kept names are exactly the visited names that open |
| Cli.OpenSplit | src/cli.rs:89-95 | every visited name is counted once, as kept or as reported |
| Cli.OpenedDistinct | src/cli.rs:89-95 | distinct visited names give distinct kept names |
| Cli.OpenStep | src/cli.rs:90-94 | one more name either keeps a repository or reports the name |
| Cli.OpenRepositories | src/cli.rs:89-95 | the loop yields exactly `OpenedIn` and `FailedIn` of the iteration order |
| Cli.OpenCounts | src/cli.rs:89-100 | the jobs are the openable registered names, each once; `num_jobs` is their number; jobs and failures add up to the registry's size |
| Cli.RegistryCount | src/cli.rs:90 | the iteration order lists as many names as the registry holds |
| Cli.JobCount | src/cli.rs:100 | `num_jobs` equals the number of openable names |
| Cli.Process | src/cli.rs:119-132 | a job keeps its name; without fetch its library state is kept; with fetch it is the fetched state; a known cache stays; an unknown one becomes known exactly when the status listing succeeds, holding exactly the listed statuses; a later query answers as the job's did |
| Cli.Collect | src/cli.rs:136-142 | the fold yields an ascending map of at most `num_jobs` entries |
| Cli.LatestLastWins | src/cli.rs:139-141 | an arrival not followed by another of the same name is the latest for its name |
| Cli.LatestFromArrivals | src/cli.rs:139-141 | the latest for a name is one of the arrivals with that name |
| Cli.LatestAbsent | src/cli.rs:139-141 | a name that never arrived has no latest |
| Cli.CollectStep | src/cli.rs:139-141 | one more arrival answers its own name and leaves every other lookup alone; the map grows exactly when the name is new |
| Cli.CollectGet | src/cli.rs:136-142 | every lookup in the fold gives the latest arrival of that name |
| Cli.CollectLastWins | src/cli.rs:136-142 | under each name the map holds that name's last arrival |
| Cli.CollectFromArrivals | src/cli.rs:136-142 | whatever the map holds under a name arrived under that name |
| Cli.DistinctNames | src/cli.rs:136-142 | handles with pairwise different names are exactly handles whose name sequence has no repetition |
| Cli.CollectSize | src/cli.rs:136-142 | with distinct names the map has exactly `num_jobs` entries |
| Cli.CollectGrows | src/cli.rs:139-141 | an arrival with a name not seen before adds one entry |
| Cli.CollectKeepsAll | src/cli.rs:136-142 | with distinct names every arrival is in the map under its own name |
| Cli.LatestSubsumes | src/cli.rs:136-142 | a name's latest arrival carries over to a reordering whose names are distinct |
| Cli.LatestIgnoresOrder | src/cli.rs:136-142 | with distinct names, the latest arrival of a name does not depend on arrival order |
| Cli.CollectIgnoresArrivalOrder | src/cli.rs:136-142 | the map, and so the table, does not depend on the order in which the workers finish |
| Cli.Truncate | src/cli.rs:178-183 | the first min(50, length) characters, a prefix, unchanged when short enough, no marker |
| Cli.StatusCell | src/cli.rs:160-165 | empty when the status query fails, otherwise symbols showing exactly the facets of the answered status, in fixed order |
| Cli.DistanceCell | src/cli.rs:166-171 | empty exactly when there is no distance, otherwise its symbol |
| Cli.RowOf | src/cli.rs:172-184 | the row holds the name, the status cell, the branch or "", the distance cell (empty exactly without a distance), the remote or "", and a prefix of the summary cut to 50 characters |
| Cli.BuildRows | src/cli.rs:159-185 | one row per map entry, each `RowOf` its entry, in strictly ascending name order |
| Cli.SpawnWorkers | src/cli.rs:111-133 | each job becomes its `Process` result under the given fetch flag and fetch effect, in job order |
| Cli.Receive | src/cli.rs:136-138 | the received results are the processed jobs in arrival order |
| Cli.Arrived | src/cli.rs:114-138 | each received result is the processed repository of an openable name, no name arrives twice, and every openable name arrives |
| Cli.Tabled | src/cli.rs:136-142 | the map has one entry per received result, ascending, each the processed repository of an openable name, and every received name is a key |
| Cli.Tabulated | src/cli.rs:158-185 | the rows built from that map form the table `IsTable` |
| Cli.RowsCover | src/cli.rs:159-185 | every openable name has a row |
| Cli.RowNames | src/cli.rs:173 | the names of the rows, position by position |
| Cli.NameOrderDetermined | src/cli.rs:136-142 | two strictly ascending name sequences with the same names are equal |
| Cli.TableNames | src/cli.rs:159-185 | every name of one table is a name of another table of the same registry |
| Cli.TableUnique | src/cli.rs:136-185 | the table is determined by the registry, the opened paths, the flag and the fetch result: any arrival order gives the same rows |
| Cli.Cli.RunProcess | src/cli.rs:87-191 | the failures are `FailedIn` of the iteration order; one row per openable name; the rows are the table `IsTable` for fetch exactly when `no_fetch` is off; requires at least one worker |

## Left out

- The thread pool, the channel and the progress bar are left out. The workers are modelled as `SpawnWorkers`, which processes every job, and the order in which they finish is the parameter `arrival` of `RunProcess`, a permutation of the job indices. `TableUnique` and `CollectIgnoresArrivalOrder` cover every order in which they can finish.
- `ThreadPool::new` panics when `workers` is 0, so `RunProcess` requires `workers > 0`. Otherwise the worker count affects only scheduling, which is not modelled.
- The table layout and printing (prettytable) are left out; the model stops at the row values.
- Reading and writing the TOML file (`Config::from_path`, `Config::save`) is left out because it is file I/O. The outcome of the save is the parameter `saveOk` of `RunCommand`.
- Argument parsing (structopt) and `main.rs` are left out; `Cli.Cli.constructor` takes the parsed values.
- `Source::open` (`src/source.rs:14-18`) calls `Repository::from_source`, which `src/repository.rs` does not define. It is not part of this model.
- The git library is a foreign dependency. It becomes the `Backend` snapshot plus a `disk` map of the paths that open. The `status_options` (index and work tree, untracked included, ignored excluded) are assumed to be already applied in `Backend.statuses`.
- Cli.Process: `fetch` is not defined in `src/repository.rs`, and its result is ignored. The library state after fetching is the parameter `fetched`, and nothing is stated about how it relates to the state before.
- `println!` of the path, and `eprintln!` of the open failures, are not modelled as output. The printed path is the success value of `RunCommand`, and the failed names are `OpenRepositories`'s `failed`.
- `run()`, which runs `run_command` and then, if that succeeded, `run_process`, is not a member of its own; `RunCommand` and `RunProcess` model its two steps. `RunProcess` passes `Handle` values rather than `Repository` objects, so it does not capture the moves of those objects between threads.
- `fetch()` is a call into the git library. `RunProcess` takes its effect as the function `fetch` from the library state before to the state after.
- `Config::repositories()` is read as the field `repositories`.
- `HashMap` iteration order is unspecified. `OpenRepositories` takes it as the parameter `order`, required to list each key once.
- Cli.Collect: its own contract states only order and size. That each arrival has its own entry needs distinct names, which `Arrived` proves for the jobs of `RunProcess` and `Tabled` then uses.
