/**
  The in-memory user cache and `fetchUserData`, the two-stage fetch that fills it.

  Kotlin's `mutableMapOf` keeps its entries in insertion order, so the cache is
  a map from username to `User` together with the order in which the usernames
  were inserted. The two enqueued calls are modelled as one sequential step
  whose network replies are inputs; the step reports which requests it issued
  and which branch of the callbacks it ended in.
*/
module UserCache {
  import opened Wrappers
  import opened Records
  import opened Remote

  /** The contents of the cache: the entries and their insertion order. */
  datatype CacheState = CacheState(order: seq<string>, users: map<string, User>)
  {
    /** Every username is inserted once, and the order lists exactly the keys of the map. */
    ghost predicate Valid() {
      && (forall i, j :: 0 <= i < j < |order| ==> order[i] != order[j])
      && (forall k :: k in users <==> k in order)
    }
  }

  /** The cache at process start. */
  function Empty(): (c: CacheState)
    ensures c.Valid() && c.users == map[]
  {
    CacheState([], map[])
  }

  /** `userCache[username] = user` for a username not yet in the cache: appended to the insertion order. */
  function Insert(c: CacheState, username: string, user: User): (c': CacheState)
    requires c.Valid() && username !in c.users
    ensures c'.Valid()
    ensures c'.users.Keys == c.users.Keys + {username}
    ensures username in c'.users && c'.users[username] == user
    ensures forall k :: k in c.users ==> c'.users[k] == c.users[k]
    ensures c'.order == c.order + [username]
  {
    CacheState(c.order + [username], c.users[username := user])
  }

  /** Which branch of `fetchUserData` and its callbacks a fetch ended in. */
  datatype FetchOutcome =
    | LoadedFromMemory(user: User)              // the username was cached; nothing requested
    | ConnectionError(failed: Request)          // `onFailure` of that request
    | ErrorResponse(failed: Request, code: int) // a non-2xx response to that request
    | MissingBody(request: Request)             // a 2xx response with a null body: nothing printed
    | Stored(user: User)                        // both bodies arrived and were merged into the cache

  /** The effect of one fetch: the new cache, the requests issued (in order), and the outcome. */
  datatype FetchStep = FetchStep(cache: CacheState, issued: seq<Request>, outcome: FetchOutcome)

  /**
    `fetchUserData(username)` as a transition of the cache, given what the
    profile call and the repository call would deliver if they were made.
  */
  function Fetch(c: CacheState, username: string,
                 profileReply: Reply<GitHubUserResponse>, reposReply: Reply<seq<Repo>>): (t: FetchStep)
    requires c.Valid()
    ensures t.cache.Valid()
    // entries are never updated nor removed, and only `username` can be added
    ensures forall k :: k in c.users ==> k in t.cache.users && t.cache.users[k] == c.users[k]
    ensures t.cache.users.Keys <= c.users.Keys + {username}
    // the profile is requested first, the repositories only after it
    ensures t.issued <= [GetUserInfo(username), GetUserRepos(username)]
    ensures |t.issued| == 2 ==> profileReply.Delivers()
    // the cache changes exactly when a record is stored, and then holds that record
    ensures t.cache != c <==> t.outcome.Stored?
    ensures t.outcome.Stored? ==>
              && username !in c.users
              && profileReply.Delivers() && reposReply.Delivers()
              && t.cache == Insert(c, username, t.outcome.user)
  {
    if username in c.users then
      FetchStep(c, [], LoadedFromMemory(c.users[username]))
    else
      var profileRequest := GetUserInfo(username);
      match profileReply
      case ConnectionFailure =>
        FetchStep(c, [profileRequest], ConnectionError(profileRequest))
      case Response(profileCode, profileBody) =>
        if !profileReply.IsSuccessful() then
          FetchStep(c, [profileRequest], ErrorResponse(profileRequest, profileCode))
        else match profileBody
          case None =>
            FetchStep(c, [profileRequest], MissingBody(profileRequest))
          case Some(profile) =>
            var reposRequest := GetUserRepos(username);
            var issued := [profileRequest, reposRequest];
            match reposReply
            case ConnectionFailure =>
              FetchStep(c, issued, ConnectionError(reposRequest))
            case Response(reposCode, reposBody) =>
              if !reposReply.IsSuccessful() then
                FetchStep(c, issued, ErrorResponse(reposRequest, reposCode))
              else match reposBody
                case None =>
                  FetchStep(c, issued, MissingBody(reposRequest))
                case Some(repos) =>
                  var user := Merge(profile, repos);
                  var c' := Insert(c, username, user);
                  assert c'.users[username] == user;
                  FetchStep(c', issued, Stored(user))
  }

  // ---------------------------------------------------------------------------
  // One fetch, branch by branch
  // ---------------------------------------------------------------------------

  /** A cached username short-circuits: no request, the cache untouched, the cached record reported. */
  lemma FetchCachedIsShortCircuit(c: CacheState, username: string,
                                  profileReply: Reply<GitHubUserResponse>, reposReply: Reply<seq<Repo>>)
    requires c.Valid() && username in c.users
    ensures var t := Fetch(c, username, profileReply, reposReply);
            t.cache == c && t.issued == [] && t.outcome == LoadedFromMemory(c.users[username])
  {
  }

  /** A profile call that fails or answers with a non-2xx status leaves the cache alone and stops there. */
  lemma FetchProfileFailureChangesNothing(c: CacheState, username: string,
                                          profileReply: Reply<GitHubUserResponse>, reposReply: Reply<seq<Repo>>)
    requires c.Valid() && username !in c.users
    requires !profileReply.IsSuccessful()
    ensures var t := Fetch(c, username, profileReply, reposReply);
            && t.cache == c
            && t.issued == [GetUserInfo(username)]
            && (if profileReply.ConnectionFailure? then t.outcome == ConnectionError(GetUserInfo(username))
                else t.outcome == ErrorResponse(GetUserInfo(username), profileReply.code))
  {
  }

  /**
    A repository call that fails or answers with a non-2xx status after a good
    profile leaves the cache alone: the profile already fetched is dropped.
  */
  lemma FetchReposFailureDiscardsProfile(c: CacheState, username: string,
                                         profileReply: Reply<GitHubUserResponse>, reposReply: Reply<seq<Repo>>)
    requires c.Valid() && username !in c.users
    requires profileReply.Delivers() && !reposReply.IsSuccessful()
    ensures var t := Fetch(c, username, profileReply, reposReply);
            && t.cache == c
            && t.issued == [GetUserInfo(username), GetUserRepos(username)]
            && (if reposReply.ConnectionFailure? then t.outcome == ConnectionError(GetUserRepos(username))
                else t.outcome == ErrorResponse(GetUserRepos(username), reposReply.code))
  {
  }

  /**
    A 2xx response with a null body at either stage leaves the cache alone and
    requests nothing more; this path prints no diagnostic.
  */
  lemma FetchMissingBodyChangesNothing(c: CacheState, username: string,
                                       profileReply: Reply<GitHubUserResponse>, reposReply: Reply<seq<Repo>>)
    requires c.Valid() && username !in c.users
    requires (profileReply.IsSuccessful() && profileReply.body.None?)
          || (profileReply.Delivers() && reposReply.IsSuccessful() && reposReply.body.None?)
    ensures var t := Fetch(c, username, profileReply, reposReply);
            && t.cache == c
            && (profileReply.body.None? ==>
                  t.issued == [GetUserInfo(username)] && t.outcome == MissingBody(GetUserInfo(username)))
            && (profileReply.body.Some? ==>
                  t.issued == [GetUserInfo(username), GetUserRepos(username)]
                  && t.outcome == MissingBody(GetUserRepos(username)))
  {
  }

  /**
    When both calls deliver a body, the cache gains exactly the key `username`,
    appended to the insertion order, holding the merged record; every other
    entry stays as it was.
  */
  lemma FetchSuccessStoresMergedRecord(c: CacheState, username: string,
                                       profileReply: Reply<GitHubUserResponse>, reposReply: Reply<seq<Repo>>)
    requires c.Valid() && username !in c.users
    requires profileReply.Delivers() && reposReply.Delivers()
    ensures var t := Fetch(c, username, profileReply, reposReply);
            var profile, repos := profileReply.body.value, reposReply.body.value;
            && t.issued == [GetUserInfo(username), GetUserRepos(username)]
            && t.cache.users.Keys == c.users.Keys + {username}
            && t.cache.order == c.order + [username]
            && (forall k :: k in c.users ==> t.cache.users[k] == c.users[k])
            && t.outcome == Stored(t.cache.users[username])
            && t.cache.users[username].followers == profile.followers
            && t.cache.users[username].following == profile.following
            && t.cache.users[username].createdAt == profile.createdAt
            && |t.cache.users[username].publicRepos| == |repos|
            && (forall i :: 0 <= i < |repos| ==> t.cache.users[username].publicRepos[i] == repos[i].name)
  {
  }

  /** The profile's repository count has no influence on anything a fetch does. */
  lemma FetchIgnoresRepoCount(c: CacheState, username: string,
                              profile1: GitHubUserResponse, profile2: GitHubUserResponse, code: int,
                              reposReply: Reply<seq<Repo>>)
    requires c.Valid()
    requires profile1.followers == profile2.followers && profile1.following == profile2.following
    requires profile1.createdAt == profile2.createdAt
    ensures Fetch(c, username, Response(code, Some(profile1)), reposReply)
         == Fetch(c, username, Response(code, Some(profile2)), reposReply)
  {
  }

  /**
    No partial record: after any fetch, the entry for `username` is either the
    one that was already there or the merge of a delivered profile and a
    delivered repository list.
  */
  lemma FetchStoresNoPartialRecord(c: CacheState, username: string,
                                   profileReply: Reply<GitHubUserResponse>, reposReply: Reply<seq<Repo>>)
    requires c.Valid()
    ensures var t := Fetch(c, username, profileReply, reposReply);
            username in t.cache.users ==>
              || (username in c.users && t.cache.users[username] == c.users[username])
              || (&& username !in c.users
                  && profileReply.Delivers() && reposReply.Delivers()
                  && t.cache.users[username] == Merge(profileReply.body.value, reposReply.body.value))
  {
  }

  /** Fetching a username a second time after it was stored issues no request and changes nothing. */
  lemma FetchTwiceRequestsOnce(c: CacheState, username: string,
                               profile1: Reply<GitHubUserResponse>, repos1: Reply<seq<Repo>>,
                               profile2: Reply<GitHubUserResponse>, repos2: Reply<seq<Repo>>)
    requires c.Valid() && Fetch(c, username, profile1, repos1).outcome.Stored?
    ensures var t1 := Fetch(c, username, profile1, repos1);
            var t2 := Fetch(t1.cache, username, profile2, repos2);
            && t1.issued == [GetUserInfo(username), GetUserRepos(username)]
            && t2.issued == []
            && t2.cache == t1.cache
            && t2.outcome == LoadedFromMemory(t1.outcome.user)
  {
  }

  // ---------------------------------------------------------------------------
  // The cache over a whole run: which usernames it holds, with which record
  // ---------------------------------------------------------------------------

  /** One call of `fetchUserData`, with what the network would deliver to it. */
  datatype FetchEvent = FetchEvent(
    username: string,
    profileReply: Reply<GitHubUserResponse>,
    reposReply: Reply<seq<Repo>>)
  {
    /** Both calls delivered a body. */
    predicate Completes() {
      profileReply.Delivers() && reposReply.Delivers()
    }

    /** The record this event would store. */
    function Merged(): User
      requires Completes()
    {
      Merge(profileReply.body.value, reposReply.body.value)
    }
  }

  /** The cache after the given fetches, from an empty cache. */
  function Replay(events: seq<FetchEvent>): (c: CacheState)
    ensures c.Valid()
  {
    if events == [] then Empty()
    else
      var e := events[|events| - 1];
      Fetch(Replay(events[..|events| - 1]), e.username, e.profileReply, e.reposReply).cache
  }

  /** A username is cached exactly when some fetch of it completed both calls. */
  lemma {:induction false} ReplayHoldsExactlyCompletedFetches(events: seq<FetchEvent>, username: string)
    ensures username in Replay(events).users <==>
              exists i :: 0 <= i < |events| && events[i].username == username && events[i].Completes()
  {
    if events != [] {
      var n := |events| - 1;
      var prefix := events[..n];
      ReplayHoldsExactlyCompletedFetches(prefix, username);
      var e := events[n];
      var before := Replay(prefix);
      var t := Fetch(before, e.username, e.profileReply, e.reposReply);
      assert Replay(events) == t.cache;
      if username in t.cache.users {
        if username in before.users {
          var i :| 0 <= i < |prefix| && prefix[i].username == username && prefix[i].Completes();
          assert events[i] == prefix[i];
        } else {
          assert t.outcome.Stored?;
          assert events[n].username == username && events[n].Completes();
        }
      } else {
        forall i | 0 <= i < |events| && events[i].username == username
          ensures !events[i].Completes()
        {
          if i < n {
            assert prefix[i] == events[i];
          }
        }
      }
    }
  }

  /** The record cached for a username is the merge from the first fetch of it that completed. */
  lemma {:induction false} ReplayKeepsFirstCompletedFetch(events: seq<FetchEvent>, i: nat)
    requires i < |events| && events[i].Completes()
    requires forall j :: 0 <= j < i && events[j].username == events[i].username ==> !events[j].Completes()
    ensures events[i].username in Replay(events).users
    ensures Replay(events).users[events[i].username] == events[i].Merged()
  {
    var n := |events| - 1;
    var prefix := events[..n];
    var e := events[n];
    var t := Fetch(Replay(prefix), e.username, e.profileReply, e.reposReply);
    assert Replay(events) == t.cache;
    if i < n {
      forall j | 0 <= j < i && prefix[j].username == prefix[i].username
        ensures !prefix[j].Completes()
      {
        assert prefix[j] == events[j];
      }
      ReplayKeepsFirstCompletedFetch(prefix, i);
    } else {
      var username := events[i].username;
      ReplayHoldsExactlyCompletedFetches(prefix, username);
      assert username !in Replay(prefix).users;
      FetchStoresNoPartialRecord(Replay(prefix), username, e.profileReply, e.reposReply);
    }
  }

  /** Replaying one more fetch applies that fetch to the cache the earlier ones produced. */
  lemma ReplayAppend(events: seq<FetchEvent>, e: FetchEvent)
    ensures Replay(events + [e]) == Fetch(Replay(events), e.username, e.profileReply, e.reposReply).cache
  {
  }

  // ---------------------------------------------------------------------------
  // The cache as the object the program mutates
  // ---------------------------------------------------------------------------

  /**
    The process-wide `userCache`, as an object owned by whoever calls
    `FetchUserData`. The ghost `history` records every fetch made on it.
  */
  class UserCache {
    var order: seq<string>
    var users: map<string, User>
    ghost var history: seq<FetchEvent>

    /** The cache's contents as a value. */
    function State(): CacheState
      reads this
    {
      CacheState(order, users)
    }

    /** The contents are well formed and are what the fetches made so far produce. */
    ghost predicate Valid()
      reads this
    {
      State().Valid() && State() == Replay(history)
    }

    /** An empty cache, as at process start. */
    constructor ()
      ensures Valid()
      ensures order == [] && users == map[] && history == []
    {
      order := [];
      users := map[];
      history := [];
    }

    /**
      `fetchUserData(username)`: serve a cached username without any request;
      otherwise request the profile and, only if it delivered a body, the
      repositories, and only if both delivered a body insert the merged record.
    */
    method FetchUserData(username: string,
                         profileReply: Reply<GitHubUserResponse>, reposReply: Reply<seq<Repo>>)
      returns (issued: seq<Request>, outcome: FetchOutcome)
      requires Valid()
      modifies this
      ensures Valid()
      ensures history == old(history) + [FetchEvent(username, profileReply, reposReply)]
      ensures Fetch(old(State()), username, profileReply, reposReply) == FetchStep(State(), issued, outcome)
      ensures username in old(users) ==>
                users == old(users) && order == old(order) && issued == []
                && outcome == LoadedFromMemory(old(users)[username])
      ensures username !in old(users) && !(profileReply.Delivers() && reposReply.Delivers()) ==>
                users == old(users) && order == old(order)
      ensures username !in old(users) && profileReply.Delivers() && reposReply.Delivers() ==>
                && users == old(users)[username := Merge(profileReply.body.value, reposReply.body.value)]
                && order == old(order) + [username]
                && outcome == Stored(users[username])
    {
      ghost var before := State();
      ghost var event := FetchEvent(username, profileReply, reposReply);
      ReplayAppend(history, event);
      history := history + [event];
      issued := [];
      if username in users {
        outcome := LoadedFromMemory(users[username]);
        return;
      }
      var profileRequest := GetUserInfo(username);
      issued := [profileRequest];
      if profileReply.ConnectionFailure? {
        outcome := ConnectionError(profileRequest);
        return;
      }
      if !profileReply.IsSuccessful() {
        outcome := ErrorResponse(profileRequest, profileReply.code);
        return;
      }
      if profileReply.body.None? {
        outcome := MissingBody(profileRequest);
        return;
      }
      var profile := profileReply.body.value;
      var reposRequest := GetUserRepos(username);
      issued := issued + [reposRequest];
      if reposReply.ConnectionFailure? {
        outcome := ConnectionError(reposRequest);
        return;
      }
      if !reposReply.IsSuccessful() {
        outcome := ErrorResponse(reposRequest, reposReply.code);
        return;
      }
      if reposReply.body.None? {
        outcome := MissingBody(reposRequest);
        return;
      }
      var user := Merge(profile, reposReply.body.value);
      users := users[username := user];
      order := order + [username];
      outcome := Stored(user);
      assert State() == Insert(before, username, user);
    }
  }
}
