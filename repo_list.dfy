/** The repository registry as a value: an ordered list of repository paths,
    and what appending to it and removing the first match from it mean. */
module RepoList {

  /** Position of the first entry equal to `repo`; `|repos|` when no entry is. */
  function FirstIndex(repos: seq<string>, repo: string): (i: nat)
    ensures i <= |repos|
    ensures i < |repos| ==> repos[i] == repo
    ensures forall j :: 0 <= j < i ==> repos[j] != repo
    ensures i == |repos| <==> repo !in repos
  {
    if repos == [] then 0
    else if repos[0] == repo then 0
    else 1 + FirstIndex(repos[1..], repo)
  }

  /** The list after the first entry equal to `repo` is spliced out;
      the list itself when no entry matches. */
  function Removed(repos: seq<string>, repo: string): (r: seq<string>)
    ensures repo in repos ==> |r| == |repos| - 1
    ensures repo !in repos ==> r == repos
  {
    var i := FirstIndex(repos, repo);
    if i < |repos| then repos[..i] + repos[i + 1..] else repos
  }

  /** Reference definition, independent of any index: walk the list and drop
      the first entry equal to `repo`. */
  function RemoveFirst(repos: seq<string>, repo: string): seq<string>
  {
    if repos == [] then []
    else if repos[0] == repo then repos[1..]
    else [repos[0]] + RemoveFirst(repos[1..], repo)
  }

  /** Any index `i` that matches `repo` with no match before it, or that is
      the length of a list without a match, is the one FirstIndex finds. */
  lemma FirstIndexIsLowestMatch(repos: seq<string>, repo: string, i: nat)
    requires i <= |repos|
    requires i < |repos| ==> repos[i] == repo
    requires forall j :: 0 <= j < i ==> repos[j] != repo
    ensures FirstIndex(repos, repo) == i
  {
  }

  /** The removal splices out exactly the lowest matching index and keeps
      everything before it and after it in place and in order. */
  lemma RemovedAtLowestMatch(repos: seq<string>, repo: string, i: nat)
    requires i < |repos| && repos[i] == repo
    requires forall j :: 0 <= j < i ==> repos[j] != repo
    ensures Removed(repos, repo) == repos[..i] + repos[i + 1..]
    ensures forall k :: 0 <= k < i ==> Removed(repos, repo)[k] == repos[k]
    ensures forall k :: i <= k < |repos| - 1 ==> Removed(repos, repo)[k] == repos[k + 1]
  {
    FirstIndexIsLowestMatch(repos, repo, i);
  }

  /** The splice by index agrees with the reference walk. */
  lemma {:induction false} RemovedIsRemoveFirst(repos: seq<string>, repo: string)
    ensures Removed(repos, repo) == RemoveFirst(repos, repo)
  {
    if repos == [] {
    } else if repos[0] == repo {
      assert FirstIndex(repos, repo) == 0;
    } else {
      var tail := repos[1..];
      RemovedIsRemoveFirst(tail, repo);
      var i := FirstIndex(tail, repo);
      assert FirstIndex(repos, repo) == 1 + i;
      if i < |tail| {
        assert repos[..1 + i] == [repos[0]] + tail[..i];
        assert repos[1 + i + 1..] == tail[i + 1..];
      } else {
        assert repos == [repos[0]] + tail;
      }
    }
  }

  /** Removal takes away exactly one copy of `repo` when there is one, and
      leaves the count of every other path unchanged. */
  lemma RemovedCount(repos: seq<string>, repo: string)
    ensures multiset(Removed(repos, repo)) == multiset(repos) - multiset{repo}
  {
    var i := FirstIndex(repos, repo);
    if i < |repos| {
      assert repos == repos[..i] + [repos[i]] + repos[i + 1..];
      calc {
        multiset(repos);
        multiset(repos[..i]) + multiset{repo} + multiset(repos[i + 1..]);
        multiset(Removed(repos, repo)) + multiset{repo};
      }
    } else {
      assert multiset(repos)[repo] == 0;
    }
  }

  /** With two or more copies of `repo`, the later ones survive a removal. */
  lemma RemovedKeepsLaterCopies(repos: seq<string>, repo: string)
    requires multiset(repos)[repo] >= 2
    ensures repo in Removed(repos, repo)
    ensures multiset(Removed(repos, repo))[repo] == multiset(repos)[repo] - 1
  {
    RemovedCount(repos, repo);
    assert multiset(Removed(repos, repo))[repo] > 0;
  }

  /** Appending performs no duplicate check: a path already in the list
      ends up in it one more time. */
  lemma AppendCount(repos: seq<string>, repo: string)
    ensures multiset(repos + [repo])[repo] == multiset(repos)[repo] + 1
    ensures repo in repos ==> multiset(repos + [repo])[repo] >= 2
  {
    assert multiset(repos + [repo]) == multiset(repos) + multiset{repo};
  }

  /** Removing a path right after appending it takes out its first copy:
      the appended one when there was none before. */
  lemma AppendThenRemove(repos: seq<string>, repo: string)
    ensures Removed(repos + [repo], repo)
         == if repo in repos then Removed(repos, repo) + [repo] else repos
  {
    var s := repos + [repo];
    var i := FirstIndex(repos, repo);
    assert forall j :: 0 <= j < |repos| ==> s[j] == repos[j];
    FirstIndexIsLowestMatch(s, repo, i);
    if i < |repos| {
      assert s[..i] == repos[..i];
      assert s[i + 1..] == repos[i + 1..] + [repo];
    } else {
      assert s[..i] == repos;
    }
  }

  /** Round trip: appending an absent path and then removing it restores
      the list. */
  lemma AppendThenRemoveRestores(repos: seq<string>, repo: string)
    requires repo !in repos
    ensures Removed(repos + [repo], repo) == repos
  {
    AppendThenRemove(repos, repo);
  }
}
