/**
 * The commit-activity poller: GitHub answers 202 while it is still computing
 * a repository's statistics, and the poller asks again after a growing
 * delay while it has retries left.
 */
module Activity {
  import opened Display

  /** The decoded body of a reply: a falsy JSON value, or a truthy one. */
  datatype Json = Falsy | Value(activity: WeeklyActivity)

  /** What `res.json()` makes of a body. */
  datatype Body = Malformed | Parsed(json: Json)

  /** One request's fate: `fetch` rejects, or the server replies with a status and a body. */
  datatype Response = NetworkError | Reply(status: int, body: Body)

  /**
   * What `fetchCommitActivity` settles to: the decoded body, `null`, or a
   * rejection (the body did not parse; the un-awaited `res.json()` lets it
   * escape the `catch`).
   */
  datatype Outcome = Data(json: Json) | Null | Rejected

  /** The outcome together with the number of requests made and the delays waited between them. */
  datatype Poll = Poll(outcome: Outcome, requests: nat, delays: seq<real>)

  /** `res.ok`: a 2xx status. */
  predicate IsOk(status: int) { 200 <= status <= 299 }

  /**
   * The outcome of a response the poller does not retry on: `null` for a
   * thrown fetch or a status other than 2xx, a rejection for a 2xx body that
   * does not parse, and otherwise the parsed body.
   */
  function Settle(r: Response): (o: Outcome)
    ensures o.Null? <==> r.NetworkError? || !IsOk(r.status)
    ensures o.Rejected? <==> r.Reply? && IsOk(r.status) && r.body.Malformed?
    ensures o.Data? <==> r.Reply? && IsOk(r.status) && r.body.Parsed?
    ensures o.Data? ==> r.body == Parsed(o.json)
  {
    match r
    case NetworkError => Null
    case Reply(status, body) =>
      if !IsOk(status) then Null
      else match body
        case Malformed => Rejected
        case Parsed(json) => Data(json)
  }

  /** Whether the poller asks again after `r` with `retries` left. */
  predicate RetriesOn(r: Response, retries: int)
    ensures RetriesOn(r, retries) ==> r.Reply? && IsOk(r.status)
  {
    r.Reply? && r.status == 202 && retries > 0
  }

  /** The `k`-th request (counting from `attempt`) got a 202 with retries still left. */
  predicate RetriedAt(server: nat -> Response, attempt: nat, retries: int, k: nat) {
    RetriesOn(server(attempt + k), retries - k)
  }

  /** `n` waits starting at `d`, each 1.25 times the one before: d, 1.25d, 1.5625d, … */
  function Delays(d: real, n: nat): (ds: seq<real>)
    ensures |ds| == n
    ensures n > 0 ==> ds[0] == d
    ensures forall k :: 0 < k < n ==> ds[k] == ds[k - 1] * 1.25
    decreases n
  {
    if n == 0 then []
    else
      var rest := Delays(d * 1.25, n - 1);
      var ds := [d] + rest;
      forall k | 1 < k < n ensures ds[k] == ds[k - 1] * 1.25 {
        assert ds[k] == rest[k - 1] && ds[k - 1] == rest[k - 2];
      }
      ds
  }

  /**
   * `fetchCommitActivity(owner, repo, retries, delayMs)`, where `server(i)`
   * is the response to the request with index `i` and the first request has
   * index `attempt`. The requests all get a 202 and a retry except the last,
   * whose response settles the outcome; the waits start at delayMs and grow by 1.25.
   */
  function FetchCommitActivity(server: nat -> Response, attempt: nat, retries: int, delayMs: real): (p: Poll)
    ensures p.requests == |p.delays| + 1
    ensures p.requests <= (if retries > 0 then retries else 0) + 1
    ensures forall k: nat :: k < |p.delays| ==> RetriedAt(server, attempt, retries, k)
    ensures p.delays == Delays(delayMs, |p.delays|)
    ensures !RetriesOn(server(attempt + |p.delays|), retries - |p.delays|)
    ensures p.outcome == Settle(server(attempt + |p.delays|))
    decreases if retries > 0 then retries else 0
  {
    var r := server(attempt);
    if RetriesOn(r, retries) then
      var rest := FetchCommitActivity(server, attempt + 1, retries - 1, delayMs * 1.25);
      var delays := [delayMs] + rest.delays;
      forall k: nat | k < |delays| ensures RetriedAt(server, attempt, retries, k) {
        if k > 0 {
          assert RetriedAt(server, attempt + 1, retries - 1, k - 1);
        }
      }
      Poll(rest.outcome, rest.requests + 1, delays)
    else
      Poll(Settle(r), 1, [])
  }

  /** A 202 with retries left costs exactly one more request, with one fewer retry and 1.25 times the delay. */
  lemma {:induction false} AcceptedRetriesOnce(server: nat -> Response, attempt: nat, retries: int, delayMs: real)
    requires RetriesOn(server(attempt), retries)
    ensures var p := FetchCommitActivity(server, attempt, retries, delayMs);
            var q := FetchCommitActivity(server, attempt + 1, retries - 1, delayMs * 1.25);
            p.outcome == q.outcome && p.requests == q.requests + 1 && p.delays == [delayMs] + q.delays
  {
  }

  /** A thrown fetch or a non-2xx status ends the poll at once with `null`. */
  lemma {:induction false} FailureStops(server: nat -> Response, attempt: nat, retries: int, delayMs: real)
    requires server(attempt).NetworkError? || !IsOk(server(attempt).status)
    ensures FetchCommitActivity(server, attempt, retries, delayMs) == Poll(Null, 1, [])
  {
  }

  /**
   * A server that always answers 202 gets `retries + 1` requests, the waits
   * grow by 1.25 each time, and the last 202's body is what the poller
   * returns (202 is a 2xx status, so `res.ok` holds for it).
   */
  lemma {:induction false} AlwaysAcceptedPolls(body: Body, attempt: nat, retries: nat, delayMs: real)
    ensures var p := FetchCommitActivity(_ => Reply(202, body), attempt, retries, delayMs);
            && p.requests == retries + 1
            && p.delays == Delays(delayMs, retries)
            && p.outcome == Settle(Reply(202, body))
  {
    var server: nat -> Response := _ => Reply(202, body);
    var p := FetchCommitActivity(server, attempt, retries, delayMs);
    assert server(attempt + |p.delays|) == Reply(202, body);
    assert |p.delays| == retries;
  }

  /** The defaults a repository row polls with: `fetchCommitActivity(user, r.name)`. */
  const DefaultRetries: int := 6
  const DefaultDelayMs: real := 1500.0

  /** A repository row's poll: at most seven requests, the first wait 1.5 s, each later one 1.25 times longer. */
  function RowPoll(server: nat -> Response): (p: Poll)
    ensures 1 <= p.requests <= 7
    ensures p.delays == Delays(1500.0, p.requests - 1)
  {
    FetchCommitActivity(server, 0, DefaultRetries, DefaultDelayMs)
  }

  /** Two 202s, then a 200, with six retries: three requests, waits of 1.5 s and 1.875 s. */
  lemma {:induction false} WarmingUpSample(json: Json)
    ensures var server: nat -> Response := i => if i < 2 then Reply(202, Parsed(Falsy)) else Reply(200, Parsed(json));
            RowPoll(server) == Poll(Data(json), 3, [1500.0, 1875.0])
  {
    var server: nat -> Response := i => if i < 2 then Reply(202, Parsed(Falsy)) else Reply(200, Parsed(json));
    assert FetchCommitActivity(server, 2, 4, 2343.75) == Poll(Data(json), 1, []);
    assert FetchCommitActivity(server, 1, 5, 1875.0) == Poll(Data(json), 2, [1875.0]);
  }

  // ---------------------------------------------------------------------
  // The repository row's chart (loadGitHubRepos)
  // ---------------------------------------------------------------------

  /** What a repository row shows: the unavailable notice, a sparkline, or the whole list fails. */
  datatype ChartCell = Unavailable | Chart(bars: seq<Bar>) | ListFails

  /**
   * `if (!activity) … else … sparklineFromWeeklyTotals(activity)`, where a
   * rejected poll throws out of the loop into the list's `catch`.
   */
  function ChartFor(outcome: Outcome): (c: ChartCell)
    ensures outcome.Null? || outcome == Data(Falsy) ==> c == Unavailable
    ensures outcome.Rejected? ==> c == ListFails
    ensures outcome.Data? && outcome.json.Value? ==> c == Chart(Sparkline(outcome.json.activity))
  {
    match outcome
    case Null => Unavailable
    case Rejected => ListFails
    case Data(Falsy) => Unavailable
    case Data(Value(a)) => Chart(Sparkline(a))
  }
}
