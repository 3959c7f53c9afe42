/**
  The read-only operations on the cache: `displayAllUsers`, `searchUserByUsername`
  and `searchRepoByName`. Each is a function of the cache's contents, so none of
  them can change it; what they print is modelled as the lines they would print.
*/
module Queries {
  import opened Wrappers
  import opened Records
  import opened Remote
  import opened UserCache

  /** One printed line `Username: <username>, Info: <user>`. */
  datatype Entry = Entry(username: string, user: User)

  /** What `displayAllUsers` prints: the empty-cache message, or one line per entry. */
  datatype Listing = NoUsersInMemory | Lines(entries: seq<Entry>)

  /** What `searchRepoByName` prints: the not-found message, or one line per matching entry. */
  datatype RepoSearch = NoRepositoryFound | Found(entries: seq<Entry>)

  /** `xs` is `ys` with some elements left out, the rest kept in order. */
  predicate IsSubsequence(xs: seq<Entry>, ys: seq<Entry>)
  {
    if xs == [] then true
    else if ys == [] then false
    else if xs[0] == ys[0] then IsSubsequence(xs[1..], ys[1..])
    else IsSubsequence(xs, ys[1..])
  }

  /** The entries of `users` listed in the given key order. */
  function Entries(order: seq<string>, users: map<string, User>): (r: seq<Entry>)
    requires forall k :: k in order ==> k in users
    ensures |r| == |order|
    ensures forall i :: 0 <= i < |order| ==> r[i] == Entry(order[i], users[order[i]])
  {
    if order == [] then [] else [Entry(order[0], users[order[0]])] + Entries(order[1..], users)
  }

  /** A sequence without repetitions has as many elements as its set of elements. */
  lemma {:induction false} DistinctCardinality(s: seq<string>)
    requires forall i, j :: 0 <= i < j < |s| ==> s[i] != s[j]
    ensures |set k | k in s| == |s|
  {
    if s != [] {
      DistinctCardinality(s[1..]);
      assert (set k | k in s) == (set k | k in s[1..]) + {s[0]};
      assert s[0] !in s[1..];
    }
  }

  /** A cache holds as many entries as its insertion order lists usernames. */
  lemma CacheSize(c: CacheState)
    requires c.Valid()
    ensures |c.users| == |c.order|
  {
    DistinctCardinality(c.order);
    assert c.users.Keys == set k | k in c.order;
  }

  /**
    `displayAllUsers`: "No users in memory." exactly when the cache is empty,
    otherwise one line per entry, in insertion order.
  */
  function DisplayAllUsers(c: CacheState): (r: Listing)
    requires c.Valid()
    ensures r.NoUsersInMemory? <==> c.users == map[]
    ensures r.Lines? ==> |r.entries| == |c.users| == |c.order|
    ensures r.Lines? ==> forall i :: 0 <= i < |r.entries| ==>
              r.entries[i].username == c.order[i] && r.entries[i].user == c.users[c.order[i]]
    ensures r.Lines? ==> forall k :: k in c.users ==> Entry(k, c.users[k]) in r.entries
    ensures r.Lines? ==> forall e :: e in r.entries ==> e.username in c.users && e.user == c.users[e.username]
  {
    if |c.users| == 0 then NoUsersInMemory
    else
      CacheSize(c);
      var entries := Entries(c.order, c.users);
      assert forall k :: k in c.users ==> Entry(k, c.users[k]) in entries by {
        forall k | k in c.users ensures Entry(k, c.users[k]) in entries {
          var i :| 0 <= i < |c.order| && c.order[i] == k;
          assert entries[i] == Entry(k, c.users[k]);
        }
      }
      Lines(entries)
  }

  /** `searchUserByUsername`: the record when the username is a key, "User not found." otherwise. */
  function SearchUserByUsername(c: CacheState, username: string): (r: Option<User>)
    ensures r.Some? <==> username in c.users
    ensures r.Some? ==> r.value == c.users[username]
  {
    if username in c.users then Some(c.users[username]) else None
  }

  /** The entries whose repository names include `repoName` (exact, case-sensitive), in order. */
  function Select(entries: seq<Entry>, repoName: string): (r: seq<Entry>)
    ensures forall e :: e in r <==> e in entries && repoName in e.user.publicRepos
    ensures IsSubsequence(r, entries)
  {
    if entries == [] then []
    else if repoName in entries[0].user.publicRepos then [entries[0]] + Select(entries[1..], repoName)
    else Select(entries[1..], repoName)
  }

  /** `Select` keeps every matching entry as often as it occurs, and drops every other one. */
  lemma {:induction false} SelectMultiplicity(entries: seq<Entry>, repoName: string, e: Entry)
    ensures multiset(Select(entries, repoName))[e]
         == if repoName in e.user.publicRepos then multiset(entries)[e] else 0
  {
    if entries != [] {
      SelectMultiplicity(entries[1..], repoName, e);
      assert entries == [entries[0]] + entries[1..];
    }
  }

  /** The listing of a cache holds exactly its entries, each username once. */
  lemma EntriesListCache(c: CacheState)
    requires c.Valid()
    ensures forall e: Entry :: e in Entries(c.order, c.users) <==> e.username in c.users && e.user == c.users[e.username]
    ensures var all := Entries(c.order, c.users);
            forall i, j :: 0 <= i < j < |all| ==> all[i].username != all[j].username
  {
  }

  /** Leaving entries out of a listing whose usernames are distinct keeps them distinct. */
  lemma {:induction false} SubsequenceKeepsDistinctUsernames(xs: seq<Entry>, ys: seq<Entry>)
    requires IsSubsequence(xs, ys)
    requires forall i, j :: 0 <= i < j < |ys| ==> ys[i].username != ys[j].username
    ensures forall e :: e in xs ==> e in ys
    ensures forall i, j :: 0 <= i < j < |xs| ==> xs[i].username != xs[j].username
  {
    if xs != [] {
      if xs[0] == ys[0] {
        SubsequenceKeepsDistinctUsernames(xs[1..], ys[1..]);
        assert forall e :: e in xs[1..] ==> e.username != ys[0].username by {
          forall e | e in xs[1..] ensures e.username != ys[0].username {
            var k :| 0 <= k < |ys[1..]| && ys[1..][k] == e;
            assert ys[k + 1] == e;
          }
        }
        assert forall i :: 1 <= i < |xs| ==> xs[i] in xs[1..] by {
          forall i | 1 <= i < |xs| ensures xs[i] in xs[1..] {
            assert xs[1..][i - 1] == xs[i];
          }
        }
      } else {
        SubsequenceKeepsDistinctUsernames(xs, ys[1..]);
      }
    }
  }

  /**
    `searchRepoByName`: every cached entry whose repository names contain
    `repoName` and no other, in insertion order; "No repository found with this
    name." exactly when there is none.
  */
  function SearchRepoByName(c: CacheState, repoName: string): (r: RepoSearch)
    requires c.Valid()
    ensures r.NoRepositoryFound? <==> forall k :: k in c.users ==> repoName !in c.users[k].publicRepos
    ensures r.Found? ==> forall e :: e in r.entries <==>
              e.username in c.users && e.user == c.users[e.username] && repoName in e.user.publicRepos
    ensures r.Found? ==> IsSubsequence(r.entries, Entries(c.order, c.users))
    ensures r.Found? ==> forall i, j :: 0 <= i < j < |r.entries| ==> r.entries[i].username != r.entries[j].username
  {
    var all := Entries(c.order, c.users);
    EntriesListCache(c);
    var found := Select(all, repoName);
    SubsequenceKeepsDistinctUsernames(found, all);
    if found == [] then NoRepositoryFound else Found(found)
  }

  /**
    A fetch of "octocat" with 100 followers, 9 followees, created "2011-01-01"
    and the repositories "Hello-World" and "Spoon-Knife" stores exactly that
    record, and a search for "Spoon-Knife" then finds exactly that user.
  */
  lemma OctocatExample(repoCount: int32)
    ensures var profile := GitHubUserResponse(100, 9, "2011-01-01", repoCount);
            var repos := [Repo("Hello-World"), Repo("Spoon-Knife")];
            var record := User(100, 9, "2011-01-01", ["Hello-World", "Spoon-Knife"]);
            var t := Fetch(Empty(), "octocat", Response(200, Some(profile)), Response(200, Some(repos)));
            && t.cache.users == map["octocat" := record]
            && SearchRepoByName(t.cache, "Spoon-Knife") == Found([Entry("octocat", record)])
  {
    var profile := GitHubUserResponse(100, 9, "2011-01-01", repoCount);
    var repos := [Repo("Hello-World"), Repo("Spoon-Knife")];
    var record := User(100, 9, "2011-01-01", ["Hello-World", "Spoon-Knife"]);
    var t := Fetch(Empty(), "octocat", Response(200, Some(profile)), Response(200, Some(repos)));
    assert Merge(profile, repos) == record;
    assert t.cache == CacheState(["octocat"], map["octocat" := record]);
    assert Entries(t.cache.order, t.cache.users) == [Entry("octocat", record)];
    assert "Spoon-Knife" in record.publicRepos;
  }
}
