/** The in-memory configuration of gitfetch: a worker count and the ordered
    list of registered repository paths, changed in place by AddRepo and
    DelRepo. */
module GitFetch {
  import RepoList

  /** The error DelRepo reports, carrying the path that was not found. */
  datatype Error = NoSuchRepo(repo: string)

  /** A nil error (Pass) or a non-nil one (Fail). */
  datatype Outcome = Pass | Fail(error: Error)

  class Config {
    var workers: int
    var repositories: seq<string>

    /** A configuration as decoded from its stored form. */
    constructor (workers: int, repositories: seq<string>)
      ensures this.workers == workers && this.repositories == repositories
    {
      this.workers := workers;
      this.repositories := repositories;
    }

    /** Registers `repo` at the end of the list, without a duplicate check. */
    method AddRepo(repo: string)
      modifies this`repositories
      ensures repositories == old(repositories) + [repo]
      ensures |repositories| == |old(repositories)| + 1
      ensures multiset(repositories)[repo] == multiset(old(repositories))[repo] + 1
    {
      repositories := repositories + [repo];
      RepoList.AppendCount(old(repositories), repo);
    }

    /** Scans for the first entry equal to `repo` and splices it out; when
        there is none, reports NoSuchRepo and changes nothing. */
    method DelRepo(repo: string) returns (err: Outcome)
      modifies this`repositories
      ensures repositories == RepoList.Removed(old(repositories), repo)
      ensures err == if repo in old(repositories) then Pass else Fail(NoSuchRepo(repo))
      ensures err.Pass? ==> |repositories| == |old(repositories)| - 1
      ensures err.Fail? ==> repositories == old(repositories)
      ensures multiset(repositories) == multiset(old(repositories)) - multiset{repo}
    {
      var toRemove := 0;
      while toRemove < |repositories|
        invariant toRemove <= |repositories|
        invariant forall j :: 0 <= j < toRemove ==> repositories[j] != repo
      {
        if repositories[toRemove] == repo {
          break;
        }
        toRemove := toRemove + 1;
      }
      RepoList.FirstIndexIsLowestMatch(repositories, repo, toRemove);
      RepoList.RemovedCount(repositories, repo);
      if toRemove < |repositories| {
        repositories := repositories[0..toRemove] + repositories[toRemove + 1..];
        return Pass;
      }
      return Fail(NoSuchRepo(repo));
    }
  }

  /** A client of the two methods: registering a path that is not yet there
      and then removing it succeeds and leaves the registry as it was. */
  method AddThenDel(c: Config, repo: string) returns (err: Outcome)
    requires repo !in c.repositories
    modifies c
    ensures err == Pass
    ensures c.repositories == old(c.repositories) && c.workers == old(c.workers)
  {
    c.AddRepo(repo);
    err := c.DelRepo(repo);
    RepoList.AppendThenRemoveRestores(old(c.repositories), repo);
  }
}
