/** apiConfig: the state shared by the handlers. The page-hit counter is an
    atomic.Int32, so it wraps around in two's complement; the user table is
    the part of the database that the reset endpoint clears. */
module Config {
  import opened Records
  import opened Http

  const Int32Min: int := -0x8000_0000
  const Int32Max: int := 0x7fff_ffff

  predicate IsInt32(x: int) {
    Int32Min <= x <= Int32Max
  }

  /** The int32 that x denotes after two's-complement wrap-around: the only
      int32 congruent to x modulo 2^32. */
  function Wrap32(x: int): (r: int)
    ensures IsInt32(r)
    ensures (r - x) % 0x1_0000_0000 == 0
    ensures IsInt32(x) ==> r == x
  {
    (x - Int32Min) % 0x1_0000_0000 + Int32Min
  }

  /** The counter after n more requests through the middleware. */
  function AfterRequests(hits: int, n: nat): (r: int)
    requires IsInt32(hits)
    ensures IsInt32(r)
    decreases n
  {
    if n == 0 then hits else Wrap32(AfterRequests(hits, n - 1) + 1)
  }

  /** After n requests the counter holds the wrapped sum of its start and
      n, whatever the start. */
  lemma {:induction false} AfterRequestsWrapsSum(hits: int, n: nat)
    requires IsInt32(hits)
    ensures AfterRequests(hits, n) == Wrap32(hits + n)
    decreases n
  {
    if n > 0 {
      AfterRequestsWrapsSum(hits, n - 1);
      WrapThenAdd(hits + n - 1);
    }
  }

  /** Wrapping before adding one or after it gives the same int32. */
  lemma WrapThenAdd(x: int)
    ensures Wrap32(Wrap32(x) + 1) == Wrap32(x + 1)
  {
    var a := Wrap32(Wrap32(x) + 1);
    var b := Wrap32(x + 1);
    assert (a - b) % 0x1_0000_0000 == 0 by {
      assert a - b == (a - (Wrap32(x) + 1)) + (Wrap32(x) - x) - (b - (x + 1));
    }
  }

  /** Starting from zero, the counter counts the requests exactly for as
      long as the count fits in an int32. */
  lemma {:induction false} CounterCountsRequests(n: nat)
    requires n <= Int32Max
    ensures AfterRequests(0, n) == n
    decreases n
  {
    if n > 0 {
      CounterCountsRequests(n - 1);
    }
  }

  /** The request after the 2147483647th makes the counter negative. */
  lemma CounterWrapsNegative()
    ensures AfterRequests(0, Int32Max + 1) == Int32Min
  {
    CounterCountsRequests(Int32Max);
  }

  /** The platform name on which the reset endpoint is enabled. */
  const DevPlatform: string := "dev"

  const Forbidden: string := "Forbidden"

  class ApiConfig {
    /** fileserverHits */
    var hits: int
    const platform: string
    /** The users table of the database. */
    var users: seq<User>

    ghost predicate Valid()
      reads this
    {
      IsInt32(hits)
    }

    /** NewApiConfig: the counter starts at zero; the database keeps the
        users it already holds. */
    constructor (platform: string, users: seq<User>)
      ensures Valid()
      ensures hits == 0 && this.platform == platform && this.users == users
    {
      hits := 0;
      this.platform := platform;
      this.users := users;
    }

    /** middlewareMetricsInc applied to the handler next and one request:
        counts the request, then answers exactly as next does. */
    method MiddlewareMetricsInc<R>(next: R -> Response, req: R) returns (r: Response)
      requires Valid()
      modifies this
      ensures Valid()
      ensures hits == Wrap32(old(hits) + 1)
      ensures users == old(users)
      ensures r == next(req)
    {
      hits := Wrap32(hits + 1);
      r := next(req);
    }

    /** getFileServerHits: 200 and the admin page showing the current
        count; nothing changes. */
    method GetFileServerHits() returns (r: Response)
      ensures r.status == 200
      ensures r.body == [MetricsPage(hits)]
    {
      var w := WriteHeader(Unwritten, 200);
      w := Write(w, MetricsPage(hits));
      r := Sent(w);
    }

    /** resetServerHits. Off the dev platform the request is refused and
        nothing changes. On it the counter goes back to zero and the users
        are deleted; deleted says whether DeleteUsers succeeded, and its
        failure does not change the response. */
    method ResetServerHits(deleted: bool) returns (r: Response)
      requires Valid()
      modifies this
      ensures Valid()
      ensures platform != DevPlatform ==>
                r == ErrorResponse(403, Forbidden) && hits == old(hits) && users == old(users)
      ensures platform == DevPlatform ==>
                r == Response(200, []) && hits == 0 && users == (if deleted then [] else old(users))
    {
      if platform != DevPlatform {
        r := Sent(RespondWithError(Unwritten, 403, Forbidden));
        return;
      }
      var w := WriteHeader(Unwritten, 200);
      hits := 0;
      if deleted {
        users := [];
      }
      r := Sent(w);
    }
  }

  /** The middleware serving a sequence of requests, one at a time: each
      is answered by next, and the counter ends where n increments take it. */
  method ServeRequests<R>(cfg: ApiConfig, next: R -> Response, reqs: seq<R>) returns (rs: seq<Response>)
    requires cfg.Valid()
    modifies cfg
    ensures cfg.Valid()
    ensures cfg.hits == AfterRequests(old(cfg.hits), |reqs|)
    ensures cfg.users == old(cfg.users)
    ensures |rs| == |reqs| && forall i :: 0 <= i < |reqs| ==> rs[i] == next(reqs[i])
  {
    rs := [];
    var i := 0;
    while i < |reqs|
      invariant 0 <= i <= |reqs|
      invariant cfg.Valid()
      invariant cfg.hits == AfterRequests(old(cfg.hits), i)
      invariant cfg.users == old(cfg.users)
      invariant |rs| == i && forall j :: 0 <= j < i ==> rs[j] == next(reqs[j])
    {
      var r := cfg.MiddlewareMetricsInc(next, reqs[i]);
      rs := rs + [r];
      i := i + 1;
    }
  }

  /** On the dev platform a reset followed by a visit to the metrics page
      reports zero visits, whatever the count was. */
  method ResetThenMetrics(cfg: ApiConfig) returns (r: Response)
    requires cfg.Valid() && cfg.platform == DevPlatform
    modifies cfg
    ensures r == Response(200, [MetricsPage(0)])
  {
    var _ := cfg.ResetServerHits(true);
    r := cfg.GetFileServerHits();
  }
}
