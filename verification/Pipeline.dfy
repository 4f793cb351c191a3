/** Fetching with redirects, and the rolling request metrics. */
module Pipeline {
  import opened Modular
  import opened Wrappers

  datatype Response = Response(status: nat, location: Option<string>, cacheHit: bool,
                               url: string, finalUrl: string, redirects: seq<string>)

  /** What one request gives: a response, or an error that ends the fetch. */
  datatype Reply = Got(response: Response) | Failed(code: nat)

  datatype Outcome = Fetched(response: Response) | RequestFailed(code: nat) | MaxRetriesExceeded

  /** The network: what the n-th request of a fetch gets when it asks for a URL. */
  type Network = (nat, string) -> Reply

  type Resolver = (string, string) -> string

  predicate IsRedirect(r: Response) {
    300 <= r.status < 400 && r.location.Some?
  }

  // The chain of URLs a fetch would visit if it never stopped following.

  function UrlAfter(net: Network, resolve: Resolver, url: string, k: nat): string
    decreases k
  {
    if k == 0 then url
    else
      var before := UrlAfter(net, resolve, url, k - 1);
      match net(k - 1, before)
      case Got(r) => if r.location.Some? then resolve(before, r.location.value) else before
      case Failed(_) => before
  }

  function ReplyAt(net: Network, resolve: Resolver, url: string, k: nat): Reply {
    net(k, UrlAfter(net, resolve, url, k))
  }

  predicate Redirected(net: Network, resolve: Resolver, url: string, k: nat) {
    ReplyAt(net, resolve, url, k).Got? && IsRedirect(ReplyAt(net, resolve, url, k).response)
  }

  /** The first k replies are redirects. */
  ghost predicate AllRedirect(net: Network, resolve: Resolver, url: string, k: nat) {
    forall i :: 0 <= i < k ==> Redirected(net, resolve, url, i)
  }

  function Chain(net: Network, resolve: Resolver, url: string, k: nat): seq<string> {
    seq(k + 1, i requires i >= 0 => UrlAfter(net, resolve, url, i))
  }

  // Metrics.

  datatype Metrics = Metrics(total: nat, successful: nat, failed: nat, hits: nat, misses: nat, average: nat)

  const NO_METRICS: Metrics := Metrics(0, 0, 0, 0, 0, 0)

  /** One finished request; the duration in nanoseconds. */
  datatype Call = Call(status: nat, cacheHit: bool, duration: nat)

  function NextAverage(average: nat, n: nat, duration: nat): nat
    requires n > 0
  {
    ((average * (n - 1) + duration) / n) % WORD
  }

  function Updated(m: Metrics, c: Call): Metrics {
    var n := m.total + 1;
    Metrics(n,
            if c.status < 400 then m.successful + 1 else m.successful,
            if c.status < 400 then m.failed else m.failed + 1,
            if c.cacheHit then m.hits + 1 else m.hits,
            if c.cacheHit then m.misses else m.misses + 1,
            NextAverage(m.average, n, c.duration))
  }

  class Client {
    var metrics: Metrics

    constructor ()
      ensures metrics == NO_METRICS
    {
      metrics := NO_METRICS;
    }

    method UpdateMetrics(c: Call)
      modifies this
      ensures metrics == Updated(old(metrics), c)
    {
      var total := metrics.total + 1;
      metrics := metrics.(total := total);
      if c.status < 400 {
        metrics := metrics.(successful := metrics.successful + 1);
      } else {
        metrics := metrics.(failed := metrics.failed + 1);
      }
      if c.cacheHit {
        metrics := metrics.(hits := metrics.hits + 1);
      } else {
        metrics := metrics.(misses := metrics.misses + 1);
      }
      metrics := metrics.(average := ((metrics.average * (total - 1) + c.duration) / total) % WORD);
    }

    /**
     * `fetch`. With k redirects followed the visited chain is url, the recorded redirects and the
     * final URL; the redirect limit fails exactly when every one of the replies allowed redirects.
     */
    method Fetch(url: string, follow: bool, maxRedirects: nat, net: Network, resolve: Resolver, elapsed: nat)
      returns (r: Outcome, ghost requests: nat)
      modifies this
      ensures 1 <= requests <= maxRedirects + 1
      ensures AllRedirect(net, resolve, url, requests - 1) && (!follow ==> requests == 1)
      ensures r.MaxRetriesExceeded? <==> follow && AllRedirect(net, resolve, url, maxRedirects + 1)
      ensures r.MaxRetriesExceeded? ==> requests == maxRedirects + 1
      ensures r.RequestFailed? ==> ReplyAt(net, resolve, url, requests - 1) == Failed(r.code)
      ensures r.Fetched? && IsRedirect(r.response) ==>
                !follow && ReplyAt(net, resolve, url, 0) == Got(r.response)
      ensures r.Fetched? && !IsRedirect(r.response) ==>
                && ReplyAt(net, resolve, url, requests - 1).Got?
                && Delivered(ReplyAt(net, resolve, url, requests - 1).response, r.response, url)
                && r.response.finalUrl == UrlAfter(net, resolve, url, requests - 1)
                && (requests == 1 ==> r.response.redirects == [])
                && (requests > 1 ==> [url] + r.response.redirects + [r.response.finalUrl]
                                     == Chain(net, resolve, url, requests - 1))
      ensures metrics == if r.Fetched? && !IsRedirect(r.response) then
                           Updated(old(metrics), Call(r.response.status, r.response.cacheHit, elapsed))
                         else old(metrics)
    {
      var redirects: seq<string> := [];
      var current := url;
      var count: nat := 0;
      requests := 0;
      while count <= maxRedirects
        invariant count <= maxRedirects + 1 && requests == count
        invariant follow || count == 0
        invariant metrics == old(metrics)
        invariant current == UrlAfter(net, resolve, url, count)
        invariant AllRedirect(net, resolve, url, count)
        invariant count == 0 ==> redirects == []
        invariant count > 0 ==> [url] + redirects + [current] == Chain(net, resolve, url, count)
        decreases maxRedirects + 1 - count
      {
        requests := requests + 1;
        var result := net(count, current);
        if result.Failed? {
          assert !Redirected(net, resolve, url, count);
          return RequestFailed(result.code), requests;
        }
        if IsRedirect(result.response) {
          assert Redirected(net, resolve, url, count);
          if !follow {
            return Fetched(result.response), requests;
          }
          ghost var chain := [url] + redirects + [current];
          if count > 0 {
            redirects := redirects + [current];
          }
          current := resolve(current, result.response.location.value);
          count := count + 1;
          assert [url] + redirects + [current] == (if count == 1 then [url] else chain) + [current];
          ChainGrows(net, resolve, url, count);
          continue;
        }
        var final := result.response.(url := url, finalUrl := current, redirects := redirects);
        assert !Redirected(net, resolve, url, count);
        UpdateMetrics(Call(final.status, final.cacheHit, elapsed));
        return Fetched(final), requests;
      }
      return MaxRetriesExceeded, requests;
    }
  }

  /** The response handed out is the last one received, under the URL asked for. */
  ghost predicate Delivered(last: Response, r: Response, url: string) {
    r.status == last.status && r.location == last.location && r.cacheHit == last.cacheHit && r.url == url
  }

  lemma ChainGrows(net: Network, resolve: Resolver, url: string, k: nat)
    requires k > 0
    ensures Chain(net, resolve, url, k) == Chain(net, resolve, url, k - 1) + [UrlAfter(net, resolve, url, k)]
  {
  }

  /** The reply to the n-th request sends the client on to this URL. */
  predicate SendsOn(net: Network, resolve: Resolver, n: nat, asked: string, next: string) {
    match net(n, asked)
    case Failed(_) => false
    case Got(r) => 300 <= r.status <= 399 && r.location.Some? && next == resolve(asked, r.location.value)
  }

  /** The URLs asked for: each after the first is where the reply to the one before sends the client. */
  ghost predicate Followed(net: Network, resolve: Resolver, url: string, visited: seq<string>) {
    && visited != [] && visited[0] == url
    && forall i :: 0 <= i < |visited| - 1 ==> SendsOn(net, resolve, i, visited[i], visited[i + 1])
  }

  /** A chain of redirects is followed link by link, and nothing else is. */
  lemma {:induction false} FollowedIff(net: Network, resolve: Resolver, url: string, visited: seq<string>)
    requires visited != []
    ensures Followed(net, resolve, url, visited) <==>
            AllRedirect(net, resolve, url, |visited| - 1) && visited == Chain(net, resolve, url, |visited| - 1)
    decreases |visited|
  {
    var k := |visited| - 1;
    if k > 0 {
      var front, last := visited[..k], visited[k];
      assert visited == front + [last];
      FollowedIff(net, resolve, url, front);
      ChainGrows(net, resolve, url, k);
      LastLink(net, resolve, url, front, last);
      assert AllRedirect(net, resolve, url, k) <==>
             AllRedirect(net, resolve, url, k - 1) && Redirected(net, resolve, url, k - 1);
    }
  }

  lemma LastLink(net: Network, resolve: Resolver, url: string, front: seq<string>, last: string)
    requires front != []
    ensures Followed(net, resolve, url, front + [last]) <==>
            Followed(net, resolve, url, front) && SendsOn(net, resolve, |front| - 1, front[|front| - 1], last)
  {
    var visited := front + [last];
    assert forall i :: 0 <= i < |front| ==> visited[i] == front[i];
    if Followed(net, resolve, url, visited) {
      forall i | 0 <= i < |front| - 1
        ensures SendsOn(net, resolve, i, front[i], front[i + 1])
      {
        assert SendsOn(net, resolve, i, visited[i], visited[i + 1]);
      }
      assert SendsOn(net, resolve, |front| - 1, visited[|front| - 1], visited[|front|]);
    }
  }

  // Any number of updates in a row.

  function AfterAll(calls: seq<Call>): Metrics {
    if calls == [] then NO_METRICS else Updated(AfterAll(calls[..|calls| - 1]), calls[|calls| - 1])
  }

  function Sum(calls: seq<Call>): nat {
    if calls == [] then 0 else Sum(calls[..|calls| - 1]) + calls[|calls| - 1].duration
  }

  ghost predicate Between(calls: seq<Call>, lo: nat, hi: nat) {
    forall i :: 0 <= i < |calls| ==> lo <= calls[i].duration <= hi
  }

  /** One update: what the division drops is less than the number of calls. */
  lemma RollingStep(a: nat, n: nat, d: nat, a': nat) returns (lost: nat)
    requires n > 0 && a' == (a * (n - 1) + d) / n
    ensures lost < n && a' * n + lost == a * (n - 1) + d
  {
    lost := (a * (n - 1) + d) % n;
  }

  lemma QuotientBetween(x: nat, n: nat, lo: nat, hi: nat)
    requires n > 0 && lo * n <= x <= hi * n
    ensures lo <= x / n <= hi
  {
    var q := x / n;
    assert x == q * n + x % n;
    assert (q + 1) * n == q * n + n && (hi + 1) * n == hi * n + n;
    if q < lo {
      MulMonotone(q + 1, lo, n);
      assert false;
    }
    if q > hi {
      MulMonotone(hi + 1, q, n);
      assert false;
    }
  }

  lemma MulMonotone(a: nat, b: nat, n: nat)
    requires a <= b
    ensures a * n <= b * n
  {
  }

  lemma AverageStays(a: nat, n: nat, d: nat, lo: nat, hi: nat)
    requires n > 0 && lo <= d <= hi && (n > 1 ==> lo <= a <= hi)
    ensures lo <= (a * (n - 1) + d) / n <= hi
  {
    if n > 1 {
      MulMonotone(lo, a, n - 1);
      MulMonotone(a, hi, n - 1);
    }
    assert lo * n == lo * (n - 1) + lo && hi * n == hi * (n - 1) + hi;
    QuotientBetween(a * (n - 1) + d, n, lo, hi);
  }

  /** What the average has lost so far grows by less than n with the n-th call. */
  lemma DeficitStep(sum: nat, n: nat, a: nat, d: nat, a': nat, lost: nat)
    requires 0 < n && lost < n && a' * n + lost == a * (n - 1) + d
    requires 0 <= 2 * (sum - (n - 1) * a) <= (n - 1) * (n - 2)
    ensures 0 <= 2 * (sum + d - n * a') <= n * (n - 1)
  {
    assert n * a' == a' * n && (n - 1) * a == a * (n - 1);
    assert n * (n - 1) == (n - 1) * (n - 2) + 2 * (n - 1);
  }

  ghost function Succeeded(calls: seq<Call>): set<nat> {
    set i: nat | i < |calls| && calls[i].status < 400
  }

  ghost function Hits(calls: seq<Call>): set<nat> {
    set i: nat | i < |calls| && calls[i].cacheHit
  }

  /** The counters count: calls below status 400, calls served from the cache, and the others. */
  lemma {:induction false} CountersCount(calls: seq<Call>)
    ensures var m := AfterAll(calls);
            && m.total == |calls|
            && m.successful == |Succeeded(calls)| && m.failed == |calls| - |Succeeded(calls)|
            && m.hits == |Hits(calls)| && m.misses == |calls| - |Hits(calls)|
    decreases |calls|
  {
    hide NextAverage;
    if calls != [] {
      CountersCount(calls[..|calls| - 1]);
      SetsGrow(calls);
    }
  }

  lemma AddOne(s: set<nat>, s': set<nat>, n: nat, more: bool)
    requires n !in s && forall i :: i in s' <==> i in s || (more && i == n)
    ensures |s'| == |s| + if more then 1 else 0
  {
    assert s' == if more then s + {n} else s;
  }

  lemma SetsGrow(calls: seq<Call>)
    requires calls != []
    ensures var front, last := calls[..|calls| - 1], calls[|calls| - 1];
            && |Succeeded(calls)| == |Succeeded(front)| + (if last.status < 400 then 1 else 0)
            && |Hits(calls)| == |Hits(front)| + (if last.cacheHit then 1 else 0)
  {
    var n := |calls| - 1;
    AddOne(Succeeded(calls[..n]), Succeeded(calls), n, calls[n].status < 400);
    AddOne(Hits(calls[..n]), Hits(calls), n, calls[n].cacheHit);
  }

  /**
   * After any calls: the counts balance, the rolling average lies between the smallest and the
   * largest duration, and it falls short of the true mean by at most (n - 1) / 2 nanoseconds.
   */
  lemma {:induction false} RollingAverage(calls: seq<Call>, lo: nat, hi: nat)
    requires Between(calls, lo, hi) && hi < WORD
    ensures var m := AfterAll(calls);
            && m.total == |calls| == m.successful + m.failed == m.hits + m.misses
            && (calls != [] ==> lo <= m.average <= hi)
            && 0 <= 2 * (Sum(calls) - |calls| * m.average) <= |calls| * (|calls| - 1)
    decreases |calls|
  {
    if calls != [] {
      var n := |calls|;
      var front, c := calls[..n - 1], calls[n - 1];
      assert forall i :: 0 <= i < n - 1 ==> front[i] == calls[i];
      RollingAverage(front, lo, hi);
      var a := AfterAll(front).average;
      AverageStays(a, n, c.duration, lo, hi);
      var a' := (a * (n - 1) + c.duration) / n;
      assert AfterAll(calls).average == a' by { SmallStays(a'); }
      var lost := RollingStep(a, n, c.duration, a');
      DeficitStep(Sum(front), n, a, c.duration, a', lost);
    }
  }

  lemma SmallStays(a: nat)
    requires a < WORD
    ensures a % WORD == a
  {
  }

  function Staircase(n: nat): seq<Call> {
    seq(n, i requires i >= 0 => Call(200, false, i))
  }

  lemma QuotientZero(n: nat)
    requires n > 0
    ensures NextAverage(0, n, n - 1) == 0
  {
  }

  /** The bound is met: durations 0, 1, 2, ... leave the average at zero for good. */
  lemma {:induction false} DriftIsReal(n: nat)
    ensures var calls := Staircase(n);
            AfterAll(calls).average == 0 && AfterAll(calls).total == n && 2 * Sum(calls) == n * (n - 1)
    decreases n
  {
    if n > 0 {
      DriftIsReal(n - 1);
      assert Staircase(n)[..n - 1] == Staircase(n - 1);
      QuotientZero(n);
      assert n * (n - 1) == (n - 1) * (n - 2) + 2 * (n - 1);
    }
  }
}
