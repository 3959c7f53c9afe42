/**
  The records of the program: the cached `User`, the two response shapes the
  remote API deserialises into (`GitHubUserResponse` and `Repo`), and the merge
  that builds a `User` from one response of each kind.
*/
module Records {

  /** Kotlin's `Int`: a signed 32-bit integer. Record fields are only copied, never computed. */
  newtype int32 = x: int | -0x8000_0000 <= x < 0x8000_0000

  /** The merged record kept in the cache (Main.kt `User`). */
  datatype User = User(
    followers: int32,
    following: int32,
    createdAt: string,
    publicRepos: seq<string>)

  /** The profile endpoint's body (Main.kt `GitHubUserResponse`); `publicRepos` is a count here. */
  datatype GitHubUserResponse = GitHubUserResponse(
    followers: int32,
    following: int32,
    createdAt: string,
    publicRepos: int32)

  /** One element of the repository-list endpoint's body (Main.kt `Repo`). */
  datatype Repo = Repo(name: string)

  /** The names of `repos`, one per repository, in response order (`repos.map { it.name }`). */
  function RepoNames(repos: seq<Repo>): (names: seq<string>)
    ensures |names| == |repos|
    ensures forall i :: 0 <= i < |repos| ==> names[i] == repos[i].name
  {
    if repos == [] then [] else [repos[0].name] + RepoNames(repos[1..])
  }

  /**
    The record built from a profile and a repository list: the counters and the
    creation date come from the profile, the repository list is the list of
    repository names; the profile's repository count is not used.
  */
  function Merge(profile: GitHubUserResponse, repos: seq<Repo>): (user: User)
    ensures user.followers == profile.followers
    ensures user.following == profile.following
    ensures user.createdAt == profile.createdAt
    ensures |user.publicRepos| == |repos|
    ensures forall i :: 0 <= i < |repos| ==> user.publicRepos[i] == repos[i].name
  {
    User(profile.followers, profile.following, profile.createdAt, RepoNames(repos))
  }

  /** A name is among the stored repository names exactly when some repository in the response has it. */
  lemma RepoNamesMembership(repos: seq<Repo>, name: string)
    ensures name in RepoNames(repos) <==> exists i :: 0 <= i < |repos| && repos[i].name == name
  {
  }
}
