/** The token-bucket rate limiter. Times are seconds and token counts are reals; float rounding is not modelled. */
module TokenBucket {
  /** A spoiled bucket holds no number: its float level has become NaN or negative infinity, neither of which any
      refill can bring back and both of which count as empty. */
  datatype Bucket = Bucket(tokens: real, limit: int, lastFill: real, window: real, spoiled: bool)

  datatype State = State(allowed: bool, remaining: int, limit: int, resetsAt: real)

  /** The tokens that flow in during some time. */
  function Inflow(elapsed: real, rate: real): (tokens: real) {
    elapsed * rate
  }

  function Rate(limit: int, window: real): (r: real)
    requires window != 0.0
  {
    limit as real / window
  }

  /** With a window of zero the rate is infinite, or NaN for a limit of 0: the inflow is positive infinity, which
      the cap brings down to the limit, only if time has passed in the direction of the limit's sign. */
  predicate Overflows(elapsed: real, limit: int) {
    (elapsed > 0.0 && limit > 0) || (elapsed < 0.0 && limit < 0)
  }

  predicate Spoils(b: Bucket, limit: int, window: real, now: real) {
    b.spoiled || (window == 0.0 && !Overflows(now - b.lastFill, limit))
  }

  /** The level after refilling for the time since the last call, capped at the limit. */
  function Refilled(b: Bucket, limit: int, window: real, now: real): (tokens: real) {
    if window == 0.0 then limit as real
    else
      var t := b.tokens + Inflow(now - b.lastFill, Rate(limit, window));
      if t > limit as real then limit as real else t
  }

  /** The bucket of a key; a new one starts full. */
  function Current(buckets: map<string, Bucket>, key: string, limit: int, window: real, now: real): (b: Bucket) {
    if key in buckets then buckets[key] else Bucket(limit as real, limit, now, window, false)
  }

  function AllowStep(buckets: map<string, Bucket>, key: string, limit: int, window: real, now: real)
    : (r: (map<string, Bucket>, State))
  {
    var b := Current(buckets, key, limit, window, now);
    if Spoils(b, limit, window, now)
    then (buckets[key := Bucket(0.0, limit, now, window, true)], State(false, 0, limit, now + window))
    else
      var t := Refilled(b, limit, window, now);
      if t >= 1.0
      then
        (buckets[key := Bucket(t - 1.0, limit, now, window, false)],
         State(true, (t - 1.0).Floor, limit, now + window))
      else (buckets[key := Bucket(t, limit, now, window, false)], State(false, 0, limit, now + window))
  }

  class Limiter {
    var buckets: map<string, Bucket>

    constructor ()
      ensures buckets == map[]
    {
      buckets := map[];
    }

    method Allow(key: string, limit: int, window: real, now: real) returns (s: State)
      modifies this
      ensures (buckets, s) == AllowStep(old(buckets), key, limit, window, now)
    {
      var b;
      if key in buckets {
        b := buckets[key];
      } else {
        b := Bucket(limit as real, limit, now, window, false);
      }
      b := b.(limit := limit, window := window);
      b := refill(b, now);
      b := b.(lastFill := now);
      if !b.spoiled && b.tokens >= 1.0 {
        b := b.(tokens := b.tokens - 1.0);
        s := State(true, b.tokens.Floor, limit, now + window);
      } else {
        s := State(false, 0, limit, now + window);
      }
      buckets := buckets[key := b];
    }

    /** The refill and its cap, in what floats make of a division by zero. */
    method refill(b: Bucket, now: real) returns (r: Bucket)
      ensures r.spoiled == Spoils(b, b.limit, b.window, now)
      ensures r == b.(tokens := if r.spoiled then 0.0 else Refilled(b, b.limit, b.window, now), spoiled := r.spoiled)
    {
      var elapsed := now - b.lastFill;
      if b.spoiled || (b.window == 0.0 && !Overflows(elapsed, b.limit)) {
        return b.(tokens := 0.0, spoiled := true);
      }
      if b.window == 0.0 {
        return b.(tokens := b.limit as real);
      }
      var refillRate := Rate(b.limit, b.window);
      r := b.(tokens := b.tokens + Inflow(elapsed, refillRate));
      if r.tokens > b.limit as real {
        r := r.(tokens := b.limit as real);
      }
    }

    method Reset(key: string)
      modifies this
      ensures buckets == old(buckets) - {key}
    {
      buckets := buckets - {key};
    }
  }

  // ---- Whole runs ------------------------------------------------------------------------------

  datatype Request = Request(key: string, limit: int, window: real, now: real)

  /** A run of requests on any keys, with the limiter's contents around each and whether it was admitted. */
  datatype History = History(requests: seq<Request>, states: seq<map<string, Bucket>>, admitted: seq<bool>)
  {
    ghost predicate Step(j: nat)
      requires j < |requests| == |admitted| && |states| == |requests| + 1
    {
      var q := requests[j];
      var r := AllowStep(states[j], q.key, q.limit, q.window, q.now);
      states[j + 1] == r.0 && admitted[j] == r.1.allowed
    }

    ghost predicate IsRun() {
      && |admitted| == |requests| && |states| == |requests| + 1
      && states[0] == map[]
      && forall j: nat {:trigger Step(j)} :: j < |requests| ==> Step(j)
    }

    /** Clock readings do not go backwards. */
    ghost predicate Monotone() {
      forall i, j :: 0 <= i < j < |requests| ==> requests[i].now <= requests[j].now
    }

    /** The key is always used with this limit and window. */
    ghost predicate Fixed(key: string, limit: int, window: real) {
      forall j :: 0 <= j < |requests| && requests[j].key == key ==>
        requests[j].limit == limit && requests[j].window == window
    }

    /** How many of the first j requests on this key were admitted with a time in [s, t]. */
    function Admitted(key: string, s: real, t: real, j: nat): (n: nat)
      requires j <= |requests| == |admitted|
    {
      if j == 0 then 0
      else
        var q := requests[j - 1];
        Admitted(key, s, t, j - 1) + if q.key == key && admitted[j - 1] && s <= q.now <= t then 1 else 0
    }

    /** The clock before request j, as far as this bucket is concerned. */
    ghost predicate NotAhead(key: string, j: nat)
      requires j < |states|
    {
      key in states[j] ==> exists i :: 0 <= i < j && i < |requests| && requests[i].now == states[j][key].lastFill
    }
  }

  lemma StepElsewhere(h: History, j: nat, key: string)
    requires h.IsRun() && j < |h.requests| && h.requests[j].key != key
    ensures key in h.states[j + 1] <==> key in h.states[j]
    ensures key in h.states[j] ==> h.states[j + 1][key] == h.states[j][key]
  {
    assert h.Step(j);
  }

  /** One request on a key: its bucket is refilled to some level and pays for the request if it can. */
  lemma StepAtKey(h: History, key: string, limit: int, window: real, j: nat) returns (level: real)
    requires h.IsRun() && h.Fixed(key, limit, window) && window > 0.0 && j < |h.requests| && h.requests[j].key == key
    requires key in h.states[j] ==> !h.states[j][key].spoiled
    ensures var now := h.requests[j].now;
      level == Refilled(Current(h.states[j], key, limit, window, now), limit, window, now)
    ensures key in h.states[j + 1] && h.states[j + 1][key].lastFill == h.requests[j].now
    ensures !h.states[j + 1][key].spoiled
    ensures h.admitted[j] <==> level >= 1.0
    ensures h.states[j + 1][key].tokens == if h.admitted[j] then level - 1.0 else level
  {
    assert h.Step(j);
    level := Refilled(Current(h.states[j], key, limit, window, h.requests[j].now), limit, window, h.requests[j].now);
  }

  lemma InflowNonNegative(elapsed: real, rate: real)
    requires elapsed >= 0.0 && rate >= 0.0
    ensures Inflow(elapsed, rate) >= 0.0
  {
  }

  lemma RateNonNegative(limit: int, window: real)
    requires limit >= 0 && window > 0.0
    ensures Rate(limit, window) >= 0.0
  {
  }

  lemma RefilledRange(b: Bucket, limit: int, window: real, now: real)
    requires limit >= 0 && window > 0.0 && b.lastFill <= now && 0.0 <= b.tokens
    ensures 0.0 <= Refilled(b, limit, window, now) <= limit as real
  {
    RateNonNegative(limit, window);
    InflowNonNegative(now - b.lastFill, Rate(limit, window));
  }

  /** A bucket's clock is the time of some earlier request, and its level stays within [0, limit]. */
  lemma {:induction false} LevelInRange(h: History, key: string, limit: int, window: real, j: nat)
    requires h.IsRun() && h.Monotone() && h.Fixed(key, limit, window) && limit >= 0 && window > 0.0
    requires j <= |h.requests|
    ensures h.NotAhead(key, j)
    ensures key in h.states[j] ==> !h.states[j][key].spoiled && 0.0 <= h.states[j][key].tokens <= limit as real
  {
    if j > 0 {
      LevelInRange(h, key, limit, window, j - 1);
      if h.requests[j - 1].key == key {
        var now := h.requests[j - 1].now;
        var level := StepAtKey(h, key, limit, window, j - 1);
        RefilledRange(Current(h.states[j - 1], key, limit, window, now), limit, window, now);
        assert h.requests[j - 1].now == h.states[j][key].lastFill;
      } else {
        StepElsewhere(h, j - 1, key);
        if key in h.states[j - 1] {
          var i :| 0 <= i < j - 1 && h.requests[i].now == h.states[j - 1][key].lastFill;
        }
      }
    }
  }

  lemma LastFillPast(h: History, key: string, limit: int, window: real, j: nat)
    requires h.IsRun() && h.Monotone() && h.Fixed(key, limit, window) && limit >= 0 && window > 0.0
    requires j < |h.requests|
    ensures Current(h.states[j], key, limit, window, h.requests[j].now).lastFill <= h.requests[j].now
    ensures 0.0 <= Current(h.states[j], key, limit, window, h.requests[j].now).tokens <= limit as real
    ensures !Current(h.states[j], key, limit, window, h.requests[j].now).spoiled
  {
    LevelInRange(h, key, limit, window, j);
    if key in h.states[j] {
      var i :| 0 <= i < j && h.requests[i].now == h.states[j][key].lastFill;
    }
  }

  /** What the calls counted so far leave room for: spent plus level is at most the limit plus the inflow since s. */
  ghost predicate Balanced(h: History, key: string, limit: int, rate: real, s: real, t: real, j: nat)
    requires h.IsRun() && j <= |h.requests|
  {
    var n := h.Admitted(key, s, t, j) as real;
    && n <= limit as real + Inflow(t - s, rate)
    && (key !in h.states[j] || h.states[j][key].lastFill < s ==> n == 0.0)
    && (key in h.states[j] && s <= h.states[j][key].lastFill <= t ==>
          n + h.states[j][key].tokens <= limit as real + Inflow(h.states[j][key].lastFill - s, rate))
  }

  lemma InflowAdds(rate: real, a: real, b: real, c: real)
    ensures Inflow(c - a, rate) == Inflow(c - b, rate) + Inflow(b - a, rate)
  {
  }

  lemma InflowGrows(rate: real, x: real, y: real)
    requires rate >= 0.0 && x <= y
    ensures Inflow(x, rate) <= Inflow(y, rate)
  {
    InflowAdds(rate, 0.0, x, y);
    InflowNonNegative(y - x, rate);
  }

  /** Refilling keeps the balance. */
  lemma RefillBalanced(n: real, b: Bucket, limit: int, window: real, s: real, now: real)
    requires limit >= 0 && window > 0.0 && s <= now && b.lastFill <= now
    requires b.lastFill < s ==> n == 0.0
    requires s <= b.lastFill ==> n + b.tokens <= limit as real + Inflow(b.lastFill - s, Rate(limit, window))
    ensures n + Refilled(b, limit, window, now) <= limit as real + Inflow(now - s, Rate(limit, window))
  {
    var rate := Rate(limit, window);
    RateNonNegative(limit, window);
    InflowNonNegative(now - s, rate);
    InflowAdds(rate, s, b.lastFill, now);
  }

  /** A request in the interval: what was spent before it and the level it finds are balanced. */
  lemma FoundBalanced(h: History, key: string, limit: int, window: real, s: real, t: real, j: nat)
    requires h.IsRun() && h.Monotone() && h.Fixed(key, limit, window) && limit >= 0 && window > 0.0
    requires j < |h.requests| && h.requests[j].key == key && s <= h.requests[j].now <= t
    requires Balanced(h, key, limit, Rate(limit, window), s, t, j)
    ensures var now := h.requests[j].now;
      h.Admitted(key, s, t, j) as real + Refilled(Current(h.states[j], key, limit, window, now), limit, window, now)
      <= limit as real + Inflow(now - s, Rate(limit, window))
  {
    LastFillPast(h, key, limit, window, j);
    var now := h.requests[j].now;
    RateNonNegative(limit, window);
    InflowNonNegative(now - s, Rate(limit, window));
    var b := Current(h.states[j], key, limit, window, now);
    RefillBalanced(h.Admitted(key, s, t, j) as real, b, limit, window, s, now);
  }

  lemma BalancedStep(h: History, key: string, limit: int, window: real, s: real, t: real, j: nat)
    requires h.IsRun() && h.Monotone() && h.Fixed(key, limit, window) && limit >= 0 && window > 0.0 && s <= t
    requires j < |h.requests| && h.requests[j].key == key
    requires Balanced(h, key, limit, Rate(limit, window), s, t, j)
    ensures Balanced(h, key, limit, Rate(limit, window), s, t, j + 1)
  {
    var now := h.requests[j].now;
    LastFillPast(h, key, limit, window, j);
    LevelInRange(h, key, limit, window, j + 1);
    var level := StepAtKey(h, key, limit, window, j);
    if s <= now <= t {
      FoundBalanced(h, key, limit, window, s, t, j);
      RateNonNegative(limit, window);
      InflowGrows(Rate(limit, window), now - s, t - s);
    }
  }

  lemma {:induction false} StaysBalanced(h: History, key: string, limit: int, window: real, s: real, t: real, j: nat)
    requires h.IsRun() && h.Monotone() && h.Fixed(key, limit, window) && limit >= 0 && window > 0.0 && s <= t
    requires j <= |h.requests|
    ensures Balanced(h, key, limit, Rate(limit, window), s, t, j)
  {
    if j == 0 {
      RateNonNegative(limit, window);
      InflowNonNegative(t - s, Rate(limit, window));
    } else {
      StaysBalanced(h, key, limit, window, s, t, j - 1);
      if h.requests[j - 1].key == key {
        BalancedStep(h, key, limit, window, s, t, j - 1);
      } else {
        StepElsewhere(h, j - 1, key);
      }
    }
  }

  /** The rate guarantee: in any interval [s, t] of any run a key is admitted at most
      limit + (t - s) * limit / window times. */
  lemma IntervalBound(h: History, key: string, limit: int, window: real, s: real, t: real)
    requires h.IsRun() && h.Monotone() && h.Fixed(key, limit, window) && limit >= 0 && window > 0.0 && s <= t
    ensures h.Admitted(key, s, t, |h.requests|) as real <= limit as real + (t - s) * (limit as real / window)
  {
    StaysBalanced(h, key, limit, window, s, t, |h.requests|);
  }

  // ---- Exactly which requests are admitted -----------------------------------------------------

  /** How many of the requests i to j - 1 on this key were admitted. */
  function AdmittedSince(h: History, key: string, i: nat, j: nat): (n: nat)
    requires i <= j <= |h.requests| == |h.admitted|
    decreases j
  {
    if i == j then 0
    else AdmittedSince(h, key, i, j - 1) + if h.requests[j - 1].key == key && h.admitted[j - 1] then 1 else 0
  }

  /** What a bucket that was full at request i has left for request j. */
  function Room(h: History, key: string, limit: int, rate: real, i: nat, j: nat): (room: real)
    requires i <= j < |h.requests| == |h.admitted|
  {
    Balance(limit, Inflow(h.requests[j].now - h.requests[i].now, rate), AdmittedSince(h, key, i, j))
  }

  /** A full bucket, what flowed in, less what was spent. */
  function Balance(limit: int, flow: real, spent: nat): (room: real) {
    limit as real + flow - spent as real
  }

  /** The level request j finds. */
  function Found(h: History, key: string, limit: int, window: real, j: nat): (level: real)
    requires j < |h.requests| && j < |h.states|
  {
    Refilled(Current(h.states[j], key, limit, window, h.requests[j].now), limit, window, h.requests[j].now)
  }

  /** The level found is the least room any earlier request on the key, or this one, leaves for it. */
  ghost predicate LeastRoom(h: History, key: string, limit: int, window: real, j: nat)
    requires h.IsRun() && j < |h.requests| && window != 0.0
  {
    && (forall i :: 0 <= i <= j && h.requests[i].key == key ==>
          Found(h, key, limit, window, j) <= Room(h, key, limit, Rate(limit, window), i, j))
    && (exists i :: 0 <= i <= j && h.requests[i].key == key
          && Found(h, key, limit, window, j) == Room(h, key, limit, Rate(limit, window), i, j))
  }

  /** Between two consecutive requests on the key nothing else is admitted on it. */
  lemma {:induction false} QuietBetween(h: History, key: string, j: nat, m: nat)
    requires |h.requests| == |h.admitted| && j < m <= |h.requests| && LastCall(h, key, m) == j
    ensures forall i :: 0 <= i <= j ==>
      AdmittedSince(h, key, i, m) == AdmittedSince(h, key, i, j) + if h.admitted[j] then 1 else 0
    decreases m
  {
    if j + 1 < m {
      QuietBetween(h, key, j, m - 1);
    }
  }

  /** The level that request j leaves is what the next request on the key finds on record. */
  lemma {:induction false} LeftOnRecord(h: History, key: string, limit: int, window: real, j: nat, m: nat)
    requires h.IsRun() && h.Fixed(key, limit, window) && window != 0.0
    requires j < m <= |h.requests| && h.requests[j].key == key && LastCall(h, key, m) == j
    requires key in h.states[j] ==> !h.states[j][key].spoiled
    ensures key in h.states[m] && !h.states[m][key].spoiled && h.states[m][key].lastFill == h.requests[j].now
    ensures h.states[m][key].tokens == Found(h, key, limit, window, j) - if h.admitted[j] then 1.0 else 0.0
    ensures h.admitted[j] <==> Found(h, key, limit, window, j) >= 1.0
    decreases m
  {
    if m == j + 1 {
      assert h.Step(j);
    } else {
      LeftOnRecord(h, key, limit, window, j, m - 1);
      StepElsewhere(h, m - 1, key);
    }
  }

  lemma NeverSpoiled(h: History, key: string, limit: int, window: real, j: nat)
    requires h.IsRun() && h.Fixed(key, limit, window) && window != 0.0 && j <= |h.requests|
    ensures key in h.states[j] ==> !h.states[j][key].spoiled
  {
    SpoiledIff(h, key, j);
  }

  lemma FirstLeastRoom(h: History, key: string, limit: int, window: real, j: nat)
    requires h.IsRun() && window != 0.0 && j < |h.requests| && h.requests[j].key == key && LastCall(h, key, j) < 0
    ensures LeastRoom(h, key, limit, window, j)
  {
    FilledAtLastCall(h, key, j);
    NoEarlier(h, key, j);
    assert Inflow(h.requests[j].now - h.requests[j].now, Rate(limit, window)) == 0.0;
    assert Room(h, key, limit, Rate(limit, window), j, j) == limit as real;
  }

  lemma {:induction false} NoEarlier(h: History, key: string, j: nat)
    requires j <= |h.requests|
    ensures forall i :: LastCall(h, key, j) < i < j ==> h.requests[i].key != key
  {
    if j > 0 {
      NoEarlier(h, key, j - 1);
    }
  }

  /** From one request on the key to the next: the room changes as the level does. */
  lemma RoomMoves(h: History, key: string, limit: int, rate: real, i: nat, j: nat, m: nat)
    requires |h.requests| == |h.admitted| && i <= j < m < |h.requests| && LastCall(h, key, m) == j
    ensures Room(h, key, limit, rate, i, m)
         == Room(h, key, limit, rate, i, j) + Inflow(h.requests[m].now - h.requests[j].now, rate)
            - if h.admitted[j] then 1.0 else 0.0
  {
    QuietBetween(h, key, j, m);
    var first, later := h.requests[j].now - h.requests[i].now, h.requests[m].now - h.requests[j].now;
    InflowAdds(rate, h.requests[i].now, h.requests[j].now, h.requests[m].now);
    BalanceMoves(limit, Inflow(first, rate), Inflow(later, rate), Inflow(h.requests[m].now - h.requests[i].now, rate),
                 AdmittedSince(h, key, i, j), AdmittedSince(h, key, i, m), h.admitted[j]);
  }

  lemma BalanceMoves(limit: int, first: real, more: real, flow: real, a: nat, b: nat, spent: bool)
    requires flow == more + first && b == a + if spent then 1 else 0
    ensures Balance(limit, flow, b) == Balance(limit, first, a) + more - if spent then 1.0 else 0.0
  {
  }

  lemma NextFound(h: History, key: string, limit: int, window: real, j: nat, m: nat)
    requires h.IsRun() && h.Fixed(key, limit, window) && window != 0.0
    requires j < m < |h.requests| && h.requests[j].key == key && LastCall(h, key, m) == j
    ensures var t := Found(h, key, limit, window, j) - (if h.admitted[j] then 1.0 else 0.0)
                     + Inflow(h.requests[m].now - h.requests[j].now, Rate(limit, window));
      Found(h, key, limit, window, m) == if t > limit as real then limit as real else t
  {
    NeverSpoiled(h, key, limit, window, j);
    LeftOnRecord(h, key, limit, window, j, m);
  }

  lemma NextLeastRoom(h: History, key: string, limit: int, window: real, j: nat, m: nat)
    requires h.IsRun() && h.Fixed(key, limit, window) && window != 0.0
    requires j < m < |h.requests| && h.requests[j].key == key && h.requests[m].key == key && LastCall(h, key, m) == j
    requires LeastRoom(h, key, limit, window, j)
    ensures LeastRoom(h, key, limit, window, m)
  {
    var rate, found := Rate(limit, window), Found(h, key, limit, window, m);
    NextFound(h, key, limit, window, j, m);
    NoEarlier(h, key, m);
    assert Inflow(h.requests[m].now - h.requests[m].now, rate) == 0.0;
    assert Room(h, key, limit, rate, m, m) == limit as real;
    forall i | 0 <= i <= m && h.requests[i].key == key
      ensures found <= Room(h, key, limit, rate, i, m)
    {
      if i < m {
        RoomMoves(h, key, limit, rate, i, j, m);
      }
    }
    var i :| 0 <= i <= j && h.requests[i].key == key
      && Found(h, key, limit, window, j) == Room(h, key, limit, rate, i, j);
    RoomMoves(h, key, limit, rate, i, j, m);
    assert found == Room(h, key, limit, rate, i, m) || found == Room(h, key, limit, rate, m, m);
  }

  lemma {:induction false} FindsLeastRoom(h: History, key: string, limit: int, window: real, j: nat)
    requires h.IsRun() && h.Fixed(key, limit, window) && window != 0.0
    requires j < |h.requests| && h.requests[j].key == key
    ensures LeastRoom(h, key, limit, window, j)
  {
    var before := LastCall(h, key, j);
    if before < 0 {
      FirstLeastRoom(h, key, limit, window, j);
    } else {
      FindsLeastRoom(h, key, limit, window, before);
      NextLeastRoom(h, key, limit, window, before, j);
    }
  }

  /** Counted from request i, the admissions since and request j are covered by a full bucket and what flowed in. */
  ghost predicate Covered(h: History, key: string, limit: int, window: real, i: nat, j: nat)
    requires i <= j < |h.requests| == |h.admitted| && window != 0.0
  {
    (1 + AdmittedSince(h, key, i, j)) as real
    <= limit as real + (h.requests[j].now - h.requests[i].now) * (limit as real / window)
  }

  lemma CoveredIsRoom(h: History, key: string, limit: int, window: real, i: nat, j: nat)
    requires i <= j < |h.requests| == |h.admitted| && window != 0.0
    ensures Covered(h, key, limit, window, i, j) <==> Room(h, key, limit, Rate(limit, window), i, j) >= 1.0
  {
    var n, elapsed := AdmittedSince(h, key, i, j), h.requests[j].now - h.requests[i].now;
    ExplicitInflow(elapsed, limit, window);
    OneMore(n, limit, Inflow(elapsed, Rate(limit, window)));
  }

  lemma ExplicitInflow(elapsed: real, limit: int, window: real)
    requires window != 0.0
    ensures Inflow(elapsed, Rate(limit, window)) == elapsed * (limit as real / window)
  {
  }

  lemma OneMore(n: nat, limit: int, flow: real)
    ensures (1 + n) as real <= limit as real + flow <==> Balance(limit, flow, n) >= 1.0
  {
  }

  lemma EnoughIff(h: History, key: string, limit: int, window: real, j: nat)
    requires h.IsRun() && window != 0.0 && j < |h.requests| && LeastRoom(h, key, limit, window, j)
    ensures Found(h, key, limit, window, j) >= 1.0
       <==> forall i :: 0 <= i <= j && h.requests[i].key == key ==> Covered(h, key, limit, window, i, j)
  {
    forall i | 0 <= i <= j
      ensures Covered(h, key, limit, window, i, j) <==> Room(h, key, limit, Rate(limit, window), i, j) >= 1.0
    {
      CoveredIsRoom(h, key, limit, window, i, j);
    }
    var i :| 0 <= i <= j && h.requests[i].key == key
      && Found(h, key, limit, window, j) == Room(h, key, limit, Rate(limit, window), i, j);
    assert Covered(h, key, limit, window, i, j) <==> Found(h, key, limit, window, j) >= 1.0;
  }

  /** The admission law, whatever the clock does: a request is admitted exactly if it is covered counted from every
      request on its key so far, itself included. */
  lemma AdmittedIff(h: History, key: string, limit: int, window: real, j: nat)
    requires h.IsRun() && h.Fixed(key, limit, window) && window != 0.0
    requires j < |h.requests| && h.requests[j].key == key
    ensures h.admitted[j]
       <==> forall i :: 0 <= i <= j && h.requests[i].key == key ==> Covered(h, key, limit, window, i, j)
  {
    FindsLeastRoom(h, key, limit, window, j);
    EnoughIff(h, key, limit, window, j);
    NeverSpoiled(h, key, limit, window, j);
    LastCallNext(h, key, j);
    LeftOnRecord(h, key, limit, window, j, j + 1);
  }

  lemma LastCallNext(h: History, key: string, j: nat)
    requires j < |h.requests| && h.requests[j].key == key
    ensures LastCall(h, key, j + 1) == j
  {
  }

  /** No starvation: a request at least window/limit after the previous one on its key, or the first, is admitted. */
  lemma AdmittedAfterPause(h: History, key: string, limit: int, window: real, j: nat)
    requires h.IsRun() && h.Monotone() && h.Fixed(key, limit, window) && limit >= 1 && window > 0.0
    requires j < |h.requests| && h.requests[j].key == key
    requires key in h.states[j] ==> h.requests[j].now >= h.states[j][key].lastFill + window / limit as real
    ensures h.admitted[j]
  {
    var now := h.requests[j].now;
    LastFillPast(h, key, limit, window, j);
    var level := StepAtKey(h, key, limit, window, j);
    var b := Current(h.states[j], key, limit, window, now);
    RateNonNegative(limit, window);
    if key in h.states[j] {
      InflowGrows(Rate(limit, window), window / limit as real, now - b.lastFill);
      OneToken(limit, window);
    } else {
      InflowNonNegative(now - b.lastFill, Rate(limit, window));
    }
  }

  lemma OneToken(limit: int, window: real)
    requires limit >= 1 && window > 0.0
    ensures Inflow(window / limit as real, Rate(limit, window)) == 1.0
  {
    var l := limit as real;
    assert (window / l) * (l / window) == 1.0;
  }

  /** ResetsAt is honest: a bucket left alone from a call until the ResetsAt it reported is full again, and one that
      the call left empty is full exactly from then on. */
  lemma FullAtReset(buckets: map<string, Bucket>, key: string, limit: int, window: real, now: real, when: real)
    requires limit > 0 && window > 0.0 && when >= now
    requires var r := AllowStep(buckets, key, limit, window, now).0;
      key in r && !r[key].spoiled && 0.0 <= r[key].tokens <= limit as real
    ensures var (r, s) := AllowStep(buckets, key, limit, window, now);
      && (when >= s.resetsAt ==> Refilled(r[key], limit, window, when) == limit as real)
      && (r[key].tokens == 0.0 ==> (Refilled(r[key], limit, window, when) == limit as real <==> when >= s.resetsAt))
  {
    var r := AllowStep(buckets, key, limit, window, now).0;
    FullInflow(when - now, limit, window);
    InflowNonNegative(when - now, Rate(limit, window));
  }

  /** A window's worth of time brings a bucketful, no less does. */
  lemma FullInflow(elapsed: real, limit: int, window: real)
    requires limit > 0 && window > 0.0
    ensures Rate(limit, window) >= 0.0
    ensures Inflow(elapsed, Rate(limit, window)) >= limit as real <==> elapsed >= window
  {
    var rate := Rate(limit, window);
    RateNonNegative(limit, window);
    assert rate * window == limit as real;
    Grows(rate, elapsed, window, limit as real);
  }

  lemma Grows(rate: real, x: real, y: real, full: real)
    requires full > 0.0 && rate * y == full && rate >= 0.0
    ensures Inflow(x, rate) >= full <==> x >= y
  {
    assert rate != 0.0;
    assert Inflow(x, rate) - full == rate * (x - y);
    if x >= y {
      InflowNonNegative(x - y, rate);
    } else {
      SmallerProduct(rate, y - x);
    }
  }

  lemma SmallerProduct(rate: real, gap: real)
    requires rate > 0.0 && gap > 0.0
    ensures rate * gap > 0.0 && rate * (-gap) < 0.0
  {
  }

  /** Requests j to j + m are all on this key, at one instant. */
  ghost predicate AtOnce(h: History, key: string, limit: int, window: real, j: nat, m: nat)
    requires j + m < |h.requests|
  {
    forall i :: j <= i <= j + m ==> h.requests[i] == Request(key, limit, window, h.requests[j].now)
  }

  lemma {:induction false} SpentAtOnce(h: History, key: string, limit: int, window: real, j: nat, m: nat)
    requires h.IsRun() && limit >= 0 && window != 0.0 && j + m < |h.requests| && AtOnce(h, key, limit, window, j, m)
    requires key in h.states[j + 1] && 0.0 <= h.states[j + 1][key].tokens <= limit as real
    requires h.states[j + 1][key].lastFill == h.requests[j].now && !h.states[j + 1][key].spoiled
    requires m as real <= h.states[j + 1][key].tokens
    ensures forall i :: j < i <= j + m ==> h.admitted[i]
    ensures key in h.states[j + m + 1]
    ensures h.states[j + m + 1][key].tokens == h.states[j + 1][key].tokens - m as real
    ensures h.states[j + m + 1][key].lastFill == h.requests[j].now && !h.states[j + m + 1][key].spoiled
  {
    if m > 0 {
      SpentAtOnce(h, key, limit, window, j, m - 1);
      SameInstantStep(h, key, limit, window, j + m);
    }
  }

  /** A request at the very time of the last refill finds the level as it was left. */
  lemma SameInstantStep(h: History, key: string, limit: int, window: real, j: nat)
    requires h.IsRun() && window != 0.0 && j < |h.requests| && key in h.states[j]
    requires h.requests[j] == Request(key, limit, window, h.states[j][key].lastFill)
    requires h.states[j][key].tokens <= limit as real && !h.states[j][key].spoiled
    ensures key in h.states[j + 1] && h.states[j + 1][key].lastFill == h.requests[j].now
    ensures !h.states[j + 1][key].spoiled
    ensures h.admitted[j] <==> h.states[j][key].tokens >= 1.0
    ensures h.states[j + 1][key].tokens == h.states[j][key].tokens - if h.admitted[j] then 1.0 else 0.0
  {
    assert h.Step(j);
    assert Inflow(h.requests[j].now - h.states[j][key].lastFill, Rate(limit, window)) == 0.0;
  }

  /** Remaining is exact: of m further requests at the same instant the last is admitted
      exactly if m is at most the Remaining reported at j, whether j was admitted or not. */
  lemma RemainingIsExact(h: History, key: string, limit: int, window: real, j: nat, m: nat)
    requires h.IsRun() && h.Monotone() && h.Fixed(key, limit, window) && limit >= 0 && window > 0.0
    requires 0 < m && j + m < |h.requests| && AtOnce(h, key, limit, window, j, m)
    ensures var reply := AllowStep(h.states[j], key, limit, window, h.requests[j].now).1;
      reply.limit == limit && (h.admitted[j + m] <==> m <= reply.remaining)
  {
    LevelInRange(h, key, limit, window, j);
    LevelInRange(h, key, limit, window, j + 1);
    var level := StepAtKey(h, key, limit, window, j);
    assert h.Step(j);
    var left := h.states[j + 1][key].tokens;
    assert AllowStep(h.states[j], key, limit, window, h.requests[j].now).1.remaining == left.Floor;
    if m as real <= left {
      SpentAtOnce(h, key, limit, window, j, m);
    } else {
      DeniedAtOnce(h, key, limit, window, j, m);
    }
  }

  lemma {:induction false} DeniedAtOnce(h: History, key: string, limit: int, window: real, j: nat, m: nat)
    requires h.IsRun() && limit >= 0 && window != 0.0 && 0 < m && j + m < |h.requests|
    requires AtOnce(h, key, limit, window, j, m)
    requires key in h.states[j + 1] && 0.0 <= h.states[j + 1][key].tokens <= limit as real
    requires h.states[j + 1][key].lastFill == h.requests[j].now && !h.states[j + 1][key].spoiled
    requires m as real > h.states[j + 1][key].tokens
    ensures !h.admitted[j + m]
    ensures key in h.states[j + m + 1] && h.states[j + m + 1][key].tokens < 1.0
    ensures h.states[j + m + 1][key].tokens <= limit as real
    ensures h.states[j + m + 1][key].lastFill == h.requests[j].now && !h.states[j + m + 1][key].spoiled
  {
    if (m - 1) as real <= h.states[j + 1][key].tokens {
      SpentAtOnce(h, key, limit, window, j, m - 1);
    } else {
      DeniedAtOnce(h, key, limit, window, j, m - 1);
    }
    SameInstantStep(h, key, limit, window, j + m);
  }

  /** The bound is attained: a new key admits a burst of `limit` requests in one instant. */
  lemma {:induction false} BurstAdmitted(h: History, key: string, limit: int, window: real, now: real, n: nat)
    requires h.IsRun() && limit >= 0 && window != 0.0
    requires n <= limit && n <= |h.requests|
    requires forall j :: 0 <= j < n ==> h.requests[j] == Request(key, limit, window, now)
    ensures forall j :: 0 <= j < n ==> h.admitted[j]
    ensures n > 0 ==> key in h.states[n] && h.states[n][key] == Bucket((limit - n) as real, limit, now, window, false)
    ensures n == 0 ==> h.states[n] == map[]
  {
    if n > 0 {
      BurstAdmitted(h, key, limit, window, now, n - 1);
      assert h.Step(n - 1);
      assert Inflow(now - now, Rate(limit, window)) == 0.0;
    }
  }

  // ---- A window of zero ------------------------------------------------------------------------

  /** A bucket is spoiled from some request on its key onwards, and denies every later one, whatever its settings. */
  lemma {:induction false} SpoiledForGood(h: History, key: string, i: nat, j: nat)
    requires h.IsRun() && i <= j <= |h.requests| && key in h.states[i] && h.states[i][key].spoiled
    ensures key in h.states[j] && h.states[j][key].spoiled
    ensures forall m :: i <= m < j && h.requests[m].key == key ==> !h.admitted[m]
    decreases j
  {
    if i < j {
      SpoiledForGood(h, key, i, j - 1);
      assert h.Step(j - 1);
    }
  }

  /** The first request on a key with a window of zero spoils its bucket at once: the key is never admitted,
      not even once the window is set right, until it is Reset. */
  lemma ZeroWindowSpoils(h: History, key: string, i: nat, j: nat)
    requires h.IsRun() && i <= j < |h.requests| && h.requests[i].key == h.requests[j].key == key
    requires key !in h.states[i] && h.requests[i].window == 0.0
    ensures !h.admitted[j]
  {
    assert h.Step(i);
    if i < j {
      SpoiledForGood(h, key, i + 1, j + 1);
    }
  }

  /** The index of the last request on this key among the first j, -1 if there is none. */
  function LastCall(h: History, key: string, j: nat): (i: int)
    requires j <= |h.requests|
    ensures -1 <= i < j
    ensures i >= 0 ==> h.requests[i].key == key
  {
    if j == 0 then -1 else if h.requests[j - 1].key == key then j - 1 else LastCall(h, key, j - 1)
  }

  /** A key has a bucket once it was asked for, filled at the time of the last request on it. */
  lemma {:induction false} FilledAtLastCall(h: History, key: string, j: nat)
    requires h.IsRun() && j <= |h.requests|
    ensures key in h.states[j] <==> LastCall(h, key, j) >= 0
    ensures key in h.states[j] ==> h.states[j][key].lastFill == h.requests[LastCall(h, key, j)].now
  {
    if j > 0 {
      FilledAtLastCall(h, key, j - 1);
      assert h.Step(j - 1);
    }
  }

  /** Request i asks for this key with a window of zero, and it is the first for the key or the time since the
      one before has not moved in the direction of the limit's sign. */
  ghost predicate Spoiler(h: History, key: string, i: nat)
    requires i < |h.requests|
  {
    var q, before := h.requests[i], LastCall(h, key, i);
    && q.key == key && q.window == 0.0
    && (before < 0 || (q.now - h.requests[before].now) * q.limit as real <= 0.0)
  }

  /** In any run, whatever the clocks, limits and windows, a bucket is spoiled exactly if one of the requests so
      far was such a spoiler. */
  lemma {:induction false} SpoiledIff(h: History, key: string, j: nat)
    requires h.IsRun() && j <= |h.requests|
    ensures key in h.states[j] && h.states[j][key].spoiled <==> exists i :: 0 <= i < j && Spoiler(h, key, i)
  {
    if j > 0 {
      SpoiledIff(h, key, j - 1);
      FilledAtLastCall(h, key, j - 1);
      SpoiledStep(h, key, j - 1);
    }
  }

  /** Time has passed in the direction of the limit's sign exactly if the product is positive. */
  lemma OverflowsIsProduct(elapsed: real, limit: int)
    ensures Overflows(elapsed, limit) <==> elapsed * limit as real > 0.0
  {
  }

  lemma SpoiledStep(h: History, key: string, j: nat)
    requires h.IsRun() && j < |h.requests|
    requires key in h.states[j] <==> LastCall(h, key, j) >= 0
    requires key in h.states[j] ==> h.states[j][key].lastFill == h.requests[LastCall(h, key, j)].now
    ensures key in h.states[j + 1] && h.states[j + 1][key].spoiled
       <==> (key in h.states[j] && h.states[j][key].spoiled) || Spoiler(h, key, j)
  {
    if key in h.states[j] {
      OverflowsIsProduct(h.requests[j].now - h.states[j][key].lastFill, h.requests[j].limit);
    }
    assert h.Step(j);
  }

  /** What request j is answered. */
  function ReplyAt(h: History, j: nat): (s: State)
    requires j < |h.requests| && j < |h.states|
  {
    var q := h.requests[j];
    AllowStep(h.states[j], q.key, q.limit, q.window, q.now).1
  }

  /** From its first spoiler on a key is never admitted again, and nothing remains. */
  lemma DeniedSinceSpoiler(h: History, key: string, i: nat, j: nat)
    requires h.IsRun() && i <= j < |h.requests| && h.requests[j].key == key && Spoiler(h, key, i)
    ensures !h.admitted[j]
    ensures var q := h.requests[j]; ReplyAt(h, j) == State(false, 0, q.limit, q.now + q.window)
  {
    assert exists m :: 0 <= m < j + 1 && Spoiler(h, key, m);
    SpoiledIff(h, key, j + 1);
    assert h.Step(j);
  }

  /** And without one a window of zero finds the bucket full. */
  lemma ZeroWindowFills(h: History, key: string, j: nat)
    requires h.IsRun() && j < |h.requests| && h.requests[j].key == key && h.requests[j].window == 0.0
    requires forall i :: 0 <= i <= j ==> !Spoiler(h, key, i)
    ensures var q := h.requests[j];
      ReplyAt(h, j)
      == if q.limit >= 1 then State(true, q.limit - 1, q.limit, q.now) else State(false, 0, q.limit, q.now)
  {
    SpoiledIff(h, key, j + 1);
    assert h.Step(j);
  }

  /** Every sequence of requests has its run. */
  lemma {:induction false} RunExists(requests: seq<Request>) returns (h: History)
    ensures h.IsRun() && h.requests == requests
  {
    if requests == [] {
      h := History(requests, [map[]], []);
    } else {
      var last := |requests| - 1;
      var b := RunExists(requests[..last]);
      var q := requests[last];
      var r := AllowStep(b.states[last], q.key, q.limit, q.window, q.now);
      h := History(requests, b.states + [r.0], b.admitted + [r.1.allowed]);
      forall j: nat | j < |requests|
        ensures h.Step(j)
      {
        if j < last {
          assert b.Step(j);
        }
      }
    }
  }
}
