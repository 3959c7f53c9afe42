/**
  The remote API, abstracted: the two GET requests of `GitHubApi` become values,
  and what a call delivers becomes an input of the model.
*/
module Remote {
  import opened Wrappers

  /** The two endpoints of `GitHubApi`, addressed by username. */
  datatype Request =
    | GetUserInfo(username: string)   // GET users/{username}
    | GetUserRepos(username: string)  // GET users/{username}/repos

  /**
    What an enqueued call delivers to its callback: either `onFailure` (a
    transport error, or a 2xx body that cannot be decoded) or `onResponse` with
    an HTTP status code and a body that may be null.
  */
  datatype Reply<+T> =
    | ConnectionFailure
    | Response(code: int, body: Option<T>)
  {
    /** Retrofit's `Response.isSuccessful`: a status code in the 2xx range. */
    predicate IsSuccessful() {
      Response? && 200 <= code < 300
    }

    /** A successful response whose body is not null. */
    predicate Delivers() {
      IsSuccessful() && body.Some?
    }
  }
}
