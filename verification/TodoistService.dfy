/**
The Todoist service object: an atomic counter and a memo table shared by its methods. One call at a
time, `get_or_create_project` never adds a second project of a name.
*/
module TodoistService {
  import opened Wrappers
  import opened TodoistCache

  class Service {
    const baseUrl: string
    var projectsCacheIndex: nat
    var memo: map<string, seq<Project>>
    /** The Todoist side: what a sync request would return. */
    var remote: map<User, seq<Project>>
    var nextId: nat
    /** How often the list of projects was asked for. */
    var requests: nat

    function Remote(user: User): seq<Project>
      reads this
    {
      if user in remote then remote[user] else []
    }

    /** An entry under the current generation is up to date, and no entry is from the future. */
    ghost predicate Valid()
      reads this
    {
      && IsUrl(baseUrl)
      && (forall u: User :: CacheKey(u, projectsCacheIndex, baseUrl) in memo
            ==> memo[CacheKey(u, projectsCacheIndex, baseUrl)] == Remote(u))
      && (forall u: User, g: nat :: CacheKey(u, g, baseUrl) in memo ==> g <= projectsCacheIndex)
    }

    constructor (url: string, projects: map<User, seq<Project>>, firstFreeId: nat)
      requires IsUrl(url)
      ensures Valid() && fresh(this) && baseUrl == url && remote == projects && projectsCacheIndex == 0 && nextId == firstFreeId && memo == map[] && requests == 0
    {
      baseUrl, projectsCacheIndex, memo, remote, nextId, requests := url, 0, map[], projects, firstFreeId, 0;
    }

    /** `cached_fetch_all_projects`: the memo holds one list, under the key computed on entry. */
    method FetchAllProjects(user: User) returns (projects: seq<Project>)
      requires Valid()
      modifies this`memo, this`requests
      ensures Valid() && projects == Remote(user)
      ensures var key := CacheKey(user, projectsCacheIndex, baseUrl);
              if key in old(memo) then memo == old(memo) && requests == old(requests)
              else memo == map[key := projects] && requests == old(requests) + 1
    {
      var key := CacheKey(user, projectsCacheIndex, baseUrl);
      if key in memo { return memo[key]; }
      projects := Remote(user);
      requests := requests + 1;
      memo := map[key := projects];
      forall u: User, g: nat | CacheKey(u, g, baseUrl) in memo ensures u == user && g == projectsCacheIndex {
        KeysDiffer(u, g, user, projectsCacheIndex, baseUrl, baseUrl);
      }
    }

    /** The project is found if it exists, and is otherwise added and announced. */
    method GetOrCreateProject(user: User, name: string) returns (id: nat)
      requires Valid()
      modifies this
      ensures Valid()
      ensures HasName(old(Remote(user)), name) ==>
        && id == FindName(old(Remote(user)), name).id
        && remote == old(remote) && projectsCacheIndex == old(projectsCacheIndex) && nextId == old(nextId)
      ensures !HasName(old(Remote(user)), name) ==>
        && id == old(nextId) && nextId == old(nextId) + 1
        && remote == old(remote)[user := old(Remote(user)) + [Project(id, name)]]
        && projectsCacheIndex == old(projectsCacheIndex) + 1
    {
      var projects := FetchAllProjects(user);
      if HasName(projects, name) { return FindName(projects, name).id; }
      id := nextId;
      nextId := nextId + 1;
      remote := remote[user := projects + [Project(id, name)]];
      projectsCacheIndex := projectsCacheIndex + 1;
    }

    /** Two calls in a row for the same user and name return the same project, and only one is added. */
    method GetTwice(user: User, name: string) returns (first: nat, second: nat)
      requires Valid()
      modifies this
      ensures Valid() && first == second
      ensures |Remote(user)| <= old(|Remote(user)|) + 1
    {
      first := GetOrCreateProject(user, name);
      assert HasName(Remote(user), name) by {
        if !old(HasName(Remote(user), name)) { assert Project(first, name) in Remote(user); }
      }
      if !old(HasName(Remote(user), name)) { FindInExtended(old(Remote(user)), name, first); }
      second := GetOrCreateProject(user, name);
    }
  }

  lemma {:induction false} FindInExtended(projects: seq<Project>, name: string, id: nat)
    requires !HasName(projects, name)
    ensures HasName(projects + [Project(id, name)], name) && FindName(projects + [Project(id, name)], name).id == id
    decreases |projects|
  {
  }
}
