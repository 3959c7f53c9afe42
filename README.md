# GitHub user cache: a Dafny model

This project models the core of a small Kotlin console program (`Main.kt`).
The program looks up GitHub users and keeps what it finds in an in-memory cache.
`fetchUserData(username)` works in stages:

1. If the username is already cached, it serves the cached record and stops.
2. Otherwise it requests the user's profile (`GET users/{username}`).
3. Only if that delivers a body, it requests the user's repositories (`GET users/{username}/repos`).
4. Only if that also delivers a body, it merges the two into a `User` record and inserts it into the cache.

Three read-only operations browse the cache:

- `displayAllUsers` lists every entry.
- `searchUserByUsername` looks up one username.
- `searchRepoByName` filters the entries by repository name.

The network is abstracted away. What each call would deliver is an input of the model, of type `Reply<T>`:

- `ConnectionFailure` is the `onFailure` callback: a transport error, or a 2xx body that cannot be decoded.
- `Response(code, body)` is `onResponse`. Its body may be null. "Successful" means a 2xx status code, as in Retrofit.

The two chained callbacks become one sequential step. That step returns:

- the requests it issued, in order;
- the branch it ended in (`FetchOutcome`);
- the new cache.

The global `userCache` becomes the class `UserCache.UserCache`. Its fields are:

- `users`: a map from username to `User`.
- `order`: the insertion order. Kotlin's `mutableMapOf` is a `LinkedHashMap`, so the listings come out in that order.
- `history`: a ghost record of every fetch made on the cache.

`Valid()` ties the fields to `Replay(history)`, the pure replay of those fetches from an empty cache.

The modules are:

- `Records`: the data classes and the merge.
- `Remote`: the API calls, as values.
- `UserCache`: the cache, the fetch transition `Fetch`, the class, and lemmas about single fetches and about whole runs.
- `Queries`: the three read operations, as functions of the cache's contents. Being functions, they cannot modify the cache.

Field names are camel-cased: `created_at` is `createdAt`, and `public_repos` is `publicRepos`.

Kotlin's `mutableMapOf` is a `LinkedHashMap`, so `displayAllUsers` and `searchRepoByName` list entries in insertion order, and the model keeps that order in `order`. A 2xx response with a null body ends the fetch silently (Main.kt:65-66, 74-75); the model reports it as `MissingBody`.

## Model

| member | source | states |
|---|---|---|
| Records.RepoNames | Main.kt:80 | one name per repository, same length, in response order |
| Records.Merge | Main.kt:76-81 | the record takes followers, following and creation date from the profile; its repository list has the repositories' names in response order |
| Records.RepoNamesMembership | Main.kt:80 | a name is in the stored list iff some repository of the response has that name |
| UserCache.Empty | Main.kt:50 | the cache starts with no entries |
| UserCache.Insert | Main.kt:82 | inserting a new username adds exactly that key with the given record, appends it to the insertion order, keeps every other entry and keeps the cache well formed |
| UserCache.Fetch | Main.kt:52-103 | a fetch never updates or removes an entry and adds at most `username`; the profile is requested first, and the repositories only after a profile body arrived; the cache changes iff a record is stored, and then both calls delivered a body and the record was inserted |
| UserCache.FetchCachedIsShortCircuit | Main.kt:53-56 | a cached username issues no request, leaves the cache unchanged and reports the cached record |
| UserCache.FetchProfileFailureChangesNothing | Main.kt:94-101 | a profile connection failure or non-2xx status leaves the cache unchanged, issues only the profile request and reports that error |
| UserCache.FetchReposFailureDiscardsProfile | Main.kt:84-91 | after a good profile, a repository connection failure or non-2xx status leaves the cache unchanged, and the profile is discarded |
| UserCache.FetchMissingBodyChangesNothing | Main.kt:65-75 | a 2xx response with a null body at either stage leaves the cache unchanged and requests nothing further |
| UserCache.FetchSuccessStoresMergedRecord | Main.kt:76-82 | when both bodies arrive, the cache gains exactly `username` holding the merged record (same fields, repository names in order and of the same number); the other entries are untouched |
| UserCache.FetchIgnoresRepoCount | Main.kt:76-81 | the profile's repository count has no influence on the fetch |
| UserCache.FetchStoresNoPartialRecord | Main.kt:64-83 | after any fetch, the entry for `username` is the old one or the merge of two delivered bodies, never anything partial |
| UserCache.FetchTwiceRequestsOnce | Main.kt:53-56 | the fetch that stores a username issues exactly the profile and repository requests; fetching it again issues no request, changes nothing and reports the stored record |
| UserCache.ReplayHoldsExactlyCompletedFetches | Main.kt:50-103 | after any run of fetches, a username is cached iff some fetch of it had both calls deliver a body |
| UserCache.ReplayKeepsFirstCompletedFetch | Main.kt:53-82 | the cached record for a username is the merge from its first completed fetch |
| UserCache.UserCache.constructor | Main.kt:50 | the cache object starts empty |
| UserCache.UserCache.FetchUserData | Main.kt:52-103 | the in-place fetch: a cached username changes nothing and issues no request; an incomplete fetch leaves the map and the order unchanged; a complete one inserts the merged record and appends the username; the object stays equal to the replay of its history |
| Queries.Entries | Main.kt:109 | one line per listed username, pairing it with its record |
| Queries.EntriesListCache | Main.kt:109 | listing a cache gives exactly its entries, each username once |
| Queries.CacheSize | Main.kt:50 | a cache has as many entries as its insertion order has usernames |
| Queries.DisplayAllUsers | Main.kt:105-111 | "no users" iff the cache is empty; otherwise one line per entry, in insertion order, covering every entry and nothing else |
| Queries.SearchUserByUsername | Main.kt:113-120 | the record iff the username is a key, otherwise not found |
| Queries.Select | Main.kt:123-125 | keeps exactly the entries whose repository names contain the name, in their original order |
| Queries.SelectMultiplicity | Main.kt:123-125 | every matching entry is kept as often as it occurs in the listing, every other entry is dropped |
| Queries.SubsequenceKeepsDistinctUsernames | Main.kt:123 | a subsequence of a listing with distinct usernames has distinct usernames and only entries of that listing |
| Queries.SearchRepoByName | Main.kt:122-131 | "no repository found" iff no cached user has that repository name; otherwise exactly the entries whose repository list contains it, each username at most once, in insertion order |
| Queries.OctocatExample | Main.kt:52-131 | fetching "octocat" with two repositories stores exactly the merged record, and searching "Spoon-Knife" then finds exactly that user |

## Left out

- The HTTP transport, the JSON decoding and the base URL (Main.kt:3-9, 31-48). These are foreign library calls. Their results are inputs of the model.
- Gson decoding a JSON `null` into a field that Kotlin declares non-null (such as a `Repo` with no name). The model's records always have every field.
- The asynchronous `enqueue` callbacks and their threads. Both chained calls are one sequential step. So the model does not capture:
  - the race between a fetch's completion and the menu loop;
  - two concurrent fetches of the same username both inserting.
- The interactive `main` loop (Main.kt:133-173). This covers the menu text, `Scanner` input, and the crash on non-numeric input. It is console I/O.
- The exact text printed on each path: the error body, the exception message and the record's `toString`. `FetchOutcome`, `Listing`, `RepoSearch` and `Option` model which message is printed, not its wording.
- Kotlin's 32-bit `Int` is the newtype `int32`. The fields are only copied, never computed, so there is no overflow to model.
