# gitfetch repository registry

gitfetch keeps a small configuration object, `Config`, holding a worker count
and an ordered list of registered local repository paths. The command line
adds paths to that list and removes them again; a fetch run walks over it.
This project models the part of that object that changes the list in place:

- `AddRepo` appends a path to the end of the list. It does no duplicate check.
- `DelRepo` scans the list with an index for the first entry equal to the
  path. If it finds one, it splices that entry out and reports no error.
  If it finds none, it reports a "no such repo" error and leaves the list alone.

`repo_list.dfy` (module `RepoList`) describes the list as a value. `FirstIndex`
is the position the scan stops at. `Removed` is the list after the splice.
`RemoveFirst` is an index-free reference definition of the same removal. The
lemmas there state what removal and appending do to the list.

`config.dfy` (module `GitFetch`) holds the `Config` class. Its `repositories`
field is a `seq<string>` that the two methods reassign. `DelRepo` keeps the
source's `for` loop over the index `toRemove`. Its error return becomes the
`Outcome` datatype: `Pass` for a nil error, `Fail(NoSuchRepo(path))` otherwise.

## Model

| member | source | states |
|---|---|---|
| RepoList.FirstIndex | gitfetch.go:78-84 | the scan stops at an index in `[0, len]`; no entry before it equals the path; below `len` the entry there equals the path; it equals `len` exactly when the path is absent |
| RepoList.Removed | gitfetch.go:84-91 | removing a present path shortens the list by exactly one; removing an absent path leaves the list unchanged |
| RepoList.FirstIndexIsLowestMatch | gitfetch.go:78-83 | any index that matches with no match before it (or `len` for a list without a match) is the index the scan stops at |
| RepoList.RemovedAtLowestMatch | gitfetch.go:78-88 | with `i` the lowest index holding the path, the new list is `old[0..i] + old[i+1..]`: entries before `i` keep their positions, later ones move up by one, in order |
| RepoList.RemovedIsRemoveFirst | gitfetch.go:77-92 | the index splice agrees with an index-free walk that drops the first equal entry and keeps all others in order |
| RepoList.RemovedCount | gitfetch.go:77-92 | removal lowers the count of the path by exactly one when present (by zero when absent) and leaves the count of every other path unchanged |
| RepoList.RemovedKeepsLaterCopies | gitfetch.go:79-83 | when the path appears two or more times, only the first copy goes and the later copies remain |
| RepoList.AppendCount | gitfetch.go:73-75 | appending raises the path's count by exactly one; a path already registered ends up registered twice |
| RepoList.AppendThenRemove | gitfetch.go:73-88 | removing a path right after appending it removes its first copy: the earlier one if there was one, otherwise the appended one |
| RepoList.AppendThenRemoveRestores | gitfetch.go:73-88 | appending an absent path and then removing it restores the original list |
| GitFetch.Config.constructor | gitfetch.go:36-41 | a configuration holds the given worker count and the given repository list |
| GitFetch.Config.AddRepo | gitfetch.go:73-75 | the new list is the old list with the path at the end; the length grows by one; the worker count is untouched |
| GitFetch.Config.DelRepo | gitfetch.go:77-92 | the new list is `Removed(old, path)`; the result is `Pass` exactly when the path was present and `Fail(NoSuchRepo(path))` otherwise; a failed removal changes nothing; the path's count drops by one; the worker count is untouched |
| GitFetch.AddThenDel | gitfetch.go:73-88 | calling `AddRepo` then `DelRepo` with a path not yet registered succeeds and leaves the configuration as it was |

## Left out

- `FetchAll` (gitfetch.go:109-141): one goroutine per repository, a wait group, network fetches through go-git, and a done channel. It also calls `DelRepo` from several goroutines without a lock, which a sequential model cannot represent.
- `openConfig`, `read` and `Close` (gitfetch.go:43-71, 94-107): environment lookup, file stat/read/write and JSON encoding. The `configFile` and `configPath` fields exist only for them and are not modelled. The constructor stands for the decoded configuration.
- `main` (gitfetch.go:143-202): command-line argument handling, signal handling, a timeout context and repository opening. All of it is I/O or calls into libraries.
- The "not found" console line in `DelRepo` (gitfetch.go:90) is output only. The error value is modelled by the path it carries, not by its formatted text.
- Go slice aliasing: `append(c.Repositories[0:toRemove], ...)` shifts the later entries inside the backing array the old slice shares. The model reassigns a value-typed `seq`, so other holders of the old slice are not modelled.
- Certificate and host-key checks, credential negotiation, a bounded worker pool and upstream branch resolution are described for the system but appear nowhere in gitfetch.go. There is no code to base a model of them on.
