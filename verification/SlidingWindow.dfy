/** The sliding-window rate limiter: two counters and a weighted estimate. Times are seconds, as reals. */
module SlidingWindow {
  import opened Base

  datatype Window = Window(prev: int, curr: int, limit: int, len: real, start: real)

  datatype State = State(allowed: bool, remaining: int, limit: int, resetsAt: real)

  /** Move the window forward to the present: shift by one length, or start over after two. */
  function Advanced(w: Window, len: real, now: real): (r: Window) {
    var elapsed := now - w.start;
    if elapsed >= 2.0 * len then w.(prev := 0, curr := 0, start := now)
    else if elapsed >= len then w.(prev := w.curr, curr := 0, start := w.start + len)
    else w
  }

  /** How far the window is through, cut at 1. */
  function Progress(w: Window, len: real, now: real): (p: real)
    requires len != 0.0
  {
    var p := Share(now - w.start, len);
    if p > 1.0 then 1.0 else p
  }

  function Estimate(w: Window, len: real, now: real): (e: real)
    requires len != 0.0
  {
    Blend(w.prev, 1.0 - Progress(w, len, now), w.curr)
  }

  /** The previous window's count by its weight, plus the current one's. */
  function Blend(prev: int, weight: real, curr: int): (e: real) {
    prev as real * weight + curr as real
  }

  /** The fraction of a window that has passed. */
  function Share(elapsed: real, len: real): (p: real)
    requires len != 0.0
  {
    elapsed / len
  }

  /** The window a call works with: settings updated and moved to the present, the call not yet counted. */
  function Working(w: Window, limit: int, len: real, now: real): (r: Window) {
    Advanced(w.(limit := limit, len := len), len, now)
  }

  function Admits(w: Window, limit: int, len: real, now: real): bool
    requires len != 0.0
  {
    Estimate(w, len, now).Floor < limit
  }

  function AllowStep(windows: map<string, Window>, key: string, limit: int, len: real, now: real)
    : (r: (map<string, Window>, State))
    requires len != 0.0
  {
    var w := Working(if key in windows then windows[key] else Window(0, 0, limit, len, now), limit, len, now);
    if Admits(w, limit, len, now)
    then (windows[key := w.(curr := w.curr + 1)], State(true, Left(w, limit, len, now), limit, w.start + len))
    else (windows[key := w], State(false, 0, limit, w.start + len))
  }

  /** What a conversion of NaN and of positive infinity to int64 gives; Go leaves both to the implementation. */
  datatype Platform = Platform(nan: int, inf: int)

  /** A call with a window of length zero: both windows have passed at once, and the estimate is NaN; only a clock
      that went back leaves the counters, the previous one then with an infinite weight. */
  function ZeroStep(p: Platform, windows: map<string, Window>, key: string, limit: int, now: real)
    : (r: (map<string, Window>, State))
  {
    var w := Working(if key in windows then windows[key] else Window(0, 0, limit, 0.0, now), limit, 0.0, now);
    var estimate := if now - w.start < 0.0 && w.prev > 0 then p.inf else p.nan;
    if estimate < limit
    then
      (windows[key := w.(curr := w.curr + 1)],
       State(true, NotBelowZero(Wrap64(limit - estimate - 1)), limit, w.start))
    else (windows[key := w], State(false, 0, limit, w.start))
  }

  function NotBelowZero(n: int): (r: int) {
    if n < 0 then 0 else n
  }

  /** A call with any window. */
  function Answer(p: Platform, windows: map<string, Window>, key: string, limit: int, len: real, now: real)
    : (r: (map<string, Window>, State))
  {
    if len == 0.0 then ZeroStep(p, windows, key, limit, now) else AllowStep(windows, key, limit, len, now)
  }

  /** What remains after admitting a call, cut at 0. */
  function Left(w: Window, limit: int, len: real, now: real): int
    requires len != 0.0
  {
    var n := limit - Estimate(w, len, now).Floor - 1;
    if n < 0 then 0 else n
  }

  class Limiter {
    const platform: Platform
    var windows: map<string, Window>

    constructor (platform: Platform)
      ensures windows == map[] && this.platform == platform
    {
      this.platform := platform;
      windows := map[];
    }

    method Allow(key: string, limit: int, windowLen: real, now: real) returns (s: State)
      modifies this
      ensures (windows, s) == Answer(platform, old(windows), key, limit, windowLen, now)
    {
      var w;
      if key in windows {
        w := windows[key];
      } else {
        w := Window(0, 0, limit, windowLen, now);
      }
      w := w.(limit := limit, len := windowLen);
      var elapsed := now - w.start;
      if elapsed >= 2.0 * windowLen {
        w := w.(prev := 0, curr := 0, start := now);
      } else if elapsed >= windowLen {
        w := w.(prev := w.curr, curr := 0, start := w.start + windowLen);
      }
      ghost var found := if key in windows then windows[key] else Window(0, 0, limit, windowLen, now);
      assert w == Working(found, limit, windowLen, now);
      var estimatedCount := estimate(w, windowLen, now);
      var resetsAt := w.start + windowLen;
      if estimatedCount < limit {
        w := w.(curr := w.curr + 1);
        var remaining := if windowLen == 0.0 then Wrap64(limit - estimatedCount - 1) else limit - estimatedCount - 1;
        if remaining < 0 {
          remaining := 0;
        }
        s := State(true, remaining, limit, resetsAt);
      } else {
        s := State(false, 0, limit, resetsAt);
      }
      windows := windows[key := w];
    }

    /** The weighted count as an int64, in what floats make of a window of length zero. */
    method estimate(w: Window, windowLen: real, now: real) returns (n: int)
      ensures windowLen != 0.0 ==> n == Estimate(w, windowLen, now).Floor
      ensures windowLen == 0.0 ==> n == if now - w.start < 0.0 && w.prev > 0 then platform.inf else platform.nan
    {
      if windowLen == 0.0 {
        return if now - w.start < 0.0 && w.prev > 0 then platform.inf else platform.nan;
      }
      var windowProgress := Share(now - w.start, windowLen);
      if windowProgress > 1.0 {
        windowProgress := 1.0;
      }
      var prevWeight := 1.0 - windowProgress;
      n := Blend(w.prev, prevWeight, w.curr).Floor;
    }

    method Reset(key: string)
      modifies this
      ensures windows == old(windows) - {key}
    {
      windows := windows - {key};
    }
  }

  // ---- One step --------------------------------------------------------------------------------

  /** Advancing puts the present inside the window, so the cut at 1 is never reached. */
  lemma ClampNeverFires(w: Window, len: real, now: real)
    requires len > 0.0 && w.start <= now
    ensures var v := Advanced(w, len, now);
      && v.start <= now < v.start + len
      && Progress(v, len, now) == (now - v.start) / len
      && 0.0 <= Progress(v, len, now) < 1.0
  {
    var v := Advanced(w, len, now);
    FractionOf(now - v.start, len);
  }

  lemma FractionOf(x: real, len: real)
    requires len > 0.0 && 0.0 <= x < len
    ensures 0.0 <= x / len < 1.0
  {
    var q := x / len;
    assert q * len == x;
    QuotientBelowOne(q, len, x);
  }

  lemma QuotientBelowOne(q: real, len: real, x: real)
    requires len > 0.0 && q * len == x && 0.0 <= x < len
    ensures 0.0 <= q < 1.0
  {
    assert (1.0 - q) * len == len - x;
    PositiveFactor(1.0 - q, len);
    PositiveFactor(-q, len);
    assert (-q) * len == -x;
  }

  lemma PositiveFactor(a: real, len: real)
    requires len > 0.0
    ensures a * len > 0.0 <==> a > 0.0
  {
  }

  /** What holds of a key's window right after a call at time now. */
  ghost predicate Sound(w: Window, limit: int, len: real, now: real)
    requires len > 0.0
  {
    && 0 <= w.prev <= limit && 0 <= w.curr <= limit
    && w.start <= now < w.start + len
    && Estimate(w, len, now) < limit as real + 1.0
  }

  lemma EstimateRange(w: Window, limit: int, len: real, now: real)
    requires len > 0.0 && 0 <= w.prev <= limit && 0 <= w.curr && w.start <= now < w.start + len
    ensures w.curr as real <= Estimate(w, len, now) <= limit as real + w.curr as real
  {
    FractionOf(now - w.start, len);
    var weight := 1.0 - Progress(w, len, now);
    Between(w.prev as real, weight);
  }

  lemma Between(p: real, weight: real)
    requires p >= 0.0 && 0.0 <= weight <= 1.0
    ensures 0.0 <= p * weight <= p
  {
  }

  /** A later look at the same window estimates no more. */
  lemma EstimateFalls(w: Window, limit: int, len: real, now: real, later: real)
    requires len > 0.0 && 0 <= w.prev <= limit && w.start <= now <= later < w.start + len
    ensures Estimate(w, len, later) <= Estimate(w, len, now)
  {
    FractionOf(now - w.start, len);
    FractionOf(later - w.start, len);
    Ordered(now - w.start, later - w.start, len);
    Weighted(w.prev as real, 1.0 - Progress(w, len, later), 1.0 - Progress(w, len, now));
  }

  lemma Ordered(x: real, y: real, len: real)
    requires len > 0.0 && x <= y
    ensures x / len <= y / len
  {
  }

  lemma Weighted(p: real, x: real, y: real)
    requires p >= 0.0 && x <= y
    ensures p * x <= p * y
  {
  }

  lemma AdvancedSound(w: Window, limit: int, len: real, before: real, now: real)
    requires len > 0.0 && Sound(w, limit, len, before) && before <= now
    ensures var v := Advanced(w, len, now);
      0 <= v.prev <= limit && 0 <= v.curr <= limit && v.start <= now < v.start + len
      && Estimate(v, len, now) < limit as real + 1.0
  {
    ClampNeverFires(w, len, now);
    var v := Advanced(w, len, now);
    if v == w {
      EstimateFalls(w, limit, len, before, now);
    } else {
      EstimateRange(v, limit, len, now);
    }
  }

  /** Counting a call keeps the bounds: it happens only while the estimate is below the limit. */
  lemma CountedSound(v: Window, limit: int, len: real, now: real)
    requires len > 0.0 && 0 <= v.prev <= limit && 0 <= v.curr <= limit && v.start <= now < v.start + len
    requires Estimate(v, len, now).Floor < limit
    ensures Sound(v.(curr := v.curr + 1), limit, len, now)
  {
    EstimateRange(v, limit, len, now);
    var e := Estimate(v, len, now);
    assert e.Floor as real <= e < e.Floor as real + 1.0;
    assert Estimate(v.(curr := v.curr + 1), len, now) == e + 1.0;
  }

  // ---- Whole runs ------------------------------------------------------------------------------

  datatype Request = Request(key: string, limit: int, len: real, now: real)

  datatype History = History(
    platform: Platform, requests: seq<Request>, states: seq<map<string, Window>>, admitted: seq<bool>)
  {
    ghost predicate Step(j: nat)
      requires j < |requests| == |admitted| && |states| == |requests| + 1
    {
      var q := requests[j];
      var r := Answer(platform, states[j], q.key, q.limit, q.len, q.now);
      states[j + 1] == r.0 && admitted[j] == r.1.allowed
    }

    ghost predicate IsRun() {
      && |admitted| == |requests| && |states| == |requests| + 1
      && states[0] == map[]
      && forall j: nat {:trigger Step(j)} :: j < |requests| ==> Step(j)
    }

    ghost predicate Monotone() {
      forall i, j :: 0 <= i < j < |requests| ==> requests[i].now <= requests[j].now
    }

    ghost predicate Fixed(key: string, limit: int, len: real) {
      forall j :: 0 <= j < |requests| && requests[j].key == key ==>
        requests[j].limit == limit && requests[j].len == len
    }

    /** The key is rate limited with these settings throughout, with a clock that does not go backwards. */
    ghost predicate Limits(key: string, limit: int, len: real) {
      IsRun() && Monotone() && Fixed(key, limit, len) && limit >= 0 && len > 0.0
    }

    /** How many of the first j requests on this key were admitted with a time in [s, t). */
    function Admitted(key: string, s: real, t: real, j: nat): (n: nat)
      requires j <= |requests| == |admitted|
    {
      if j == 0 then 0
      else
        var q := requests[j - 1];
        Admitted(key, s, t, j - 1) + if q.key == key && admitted[j - 1] && s <= q.now < t then 1 else 0
    }
  }

  lemma StepElsewhere(h: History, j: nat, key: string)
    requires h.IsRun() && j < |h.requests| && h.requests[j].key != key
    ensures key in h.states[j + 1] <==> key in h.states[j]
    ensures key in h.states[j] ==> h.states[j + 1][key] == h.states[j][key]
  {
    assert h.Step(j);
  }

  /** The index of the last request on this key among the first j. */
  function LastCall(h: History, key: string, j: nat): (i: int)
    requires j <= |h.requests|
    ensures -1 <= i < j
    ensures i >= 0 ==> h.requests[i].key == key
  {
    if j == 0 then -1 else if h.requests[j - 1].key == key then j - 1 else LastCall(h, key, j - 1)
  }

  /** In every reachable state both counters are within the limit and the estimate at the time of the key's
      last call is below limit + 1. */
  lemma {:induction false} ReachableSound(h: History, key: string, limit: int, len: real, j: nat)
    requires h.Limits(key, limit, len) && j <= |h.requests|
    ensures key in h.states[j] <==> LastCall(h, key, j) >= 0
    ensures key in h.states[j] ==> Sound(h.states[j][key], limit, len, h.requests[LastCall(h, key, j)].now)
  {
    if j > 0 {
      ReachableSound(h, key, limit, len, j - 1);
      if h.requests[j - 1].key == key {
        SoundStep(h, key, limit, len, j - 1);
      } else {
        StepElsewhere(h, j - 1, key);
      }
    }
  }

  /** The window request j works with. */
  function WorkingAt(h: History, key: string, limit: int, len: real, j: nat): (w: Window)
    requires j < |h.requests| && j < |h.states|
  {
    var now := h.requests[j].now;
    Working(if key in h.states[j] then h.states[j][key] else Window(0, 0, limit, len, now), limit, len, now)
  }

  lemma StepAtKey(h: History, key: string, limit: int, len: real, j: nat)
    requires h.Limits(key, limit, len) && j < |h.requests| && h.requests[j].key == key
    ensures var v := WorkingAt(h, key, limit, len, j);
      && key in h.states[j + 1]
      && h.states[j + 1][key] == (if h.admitted[j] then v.(curr := v.curr + 1) else v)
      && (h.admitted[j] <==> Admits(v, limit, len, h.requests[j].now))
  {
    assert h.Step(j);
  }

  lemma SoundStep(h: History, key: string, limit: int, len: real, j: nat)
    requires h.Limits(key, limit, len) && j < |h.requests| && h.requests[j].key == key
    requires key in h.states[j] <==> LastCall(h, key, j) >= 0
    requires key in h.states[j] ==> Sound(h.states[j][key], limit, len, h.requests[LastCall(h, key, j)].now)
    ensures key in h.states[j + 1] && Sound(h.states[j + 1][key], limit, len, h.requests[j].now)
  {
    StepAtKey(h, key, limit, len, j);
    var now, v := h.requests[j].now, WorkingAt(h, key, limit, len, j);
    if key in h.states[j] {
      WorkingSound(h.states[j][key], limit, len, h.requests[LastCall(h, key, j)].now, now);
    } else {
      EstimateRange(v, limit, len, now);
    }
    if h.admitted[j] {
      CountedSound(v, limit, len, now);
    }
  }

  lemma WorkingSound(w: Window, limit: int, len: real, before: real, now: real)
    requires len > 0.0 && Sound(w, limit, len, before) && before <= now
    ensures Sound(Working(w, limit, len, now), limit, len, now)
  {
    var w0 := w.(limit := limit, len := len);
    assert Estimate(w0, len, before) == Estimate(w, len, before);
    AdvancedSound(w0, limit, len, before, now);
  }

  // ---- Admissions in an interval ---------------------------------------------------------------

  lemma {:induction false} AdmittedSplits(h: History, key: string, a: real, b: real, c: real, j: nat)
    requires j <= |h.requests| == |h.admitted| && a <= b <= c
    ensures h.Admitted(key, a, c, j) == h.Admitted(key, a, b, j) + h.Admitted(key, b, c, j)
  {
    if j > 0 {
      AdmittedSplits(h, key, a, b, c, j - 1);
    }
  }

  lemma {:induction false} AdmittedWider(h: History, key: string, s: real, t: real, a: real, b: real, j: nat)
    requires j <= |h.requests| == |h.admitted| && a <= s && t <= b
    ensures h.Admitted(key, s, t, j) <= h.Admitted(key, a, b, j)
  {
    if j > 0 {
      AdmittedWider(h, key, s, t, a, b, j - 1);
    }
  }

  /** Nothing is admitted after the window that holds the last call, nor before there was one. */
  lemma {:induction false} NothingLater(h: History, key: string, limit: int, len: real, a: real, b: real, j: nat)
    requires h.Limits(key, limit, len) && j <= |h.requests|
    requires LastCall(h, key, j) >= 0 ==> h.requests[LastCall(h, key, j)].now < a
    ensures h.Admitted(key, a, b, j) == 0
  {
    if j > 0 {
      if h.requests[j - 1].key == key {
        var i := LastCall(h, key, j - 1);
        assert i >= 0 ==> h.requests[i].now <= h.requests[j - 1].now;
      }
      NothingLater(h, key, limit, len, a, b, j - 1);
    }
  }

  /** The counters count: `curr` the admissions of the current window, `prev` those of the length before it. */
  ghost predicate Counted(h: History, key: string, len: real, w: Window, j: nat)
    requires h.IsRun() && j <= |h.requests|
  {
    && h.Admitted(key, w.start, w.start + len, j) == w.curr
    && h.Admitted(key, w.start - len, w.start, j) == w.prev
  }

  lemma {:induction false} CountersCount(h: History, key: string, limit: int, len: real, j: nat)
    requires h.Limits(key, limit, len) && j <= |h.requests|
    ensures key in h.states[j] ==> Counted(h, key, len, h.states[j][key], j)
  {
    if j > 0 {
      CountersCount(h, key, limit, len, j - 1);
      ReachableSound(h, key, limit, len, j - 1);
      if h.requests[j - 1].key == key {
        AdvancedCounted(h, key, limit, len, j - 1);
        StepAtKey(h, key, limit, len, j - 1);
      } else {
        StepElsewhere(h, j - 1, key);
      }
    }
  }

  /** Moving the window to the present keeps the counters meaningful. */
  lemma AdvancedCounted(h: History, key: string, limit: int, len: real, j: nat)
    requires h.Limits(key, limit, len) && j < |h.requests| && h.requests[j].key == key
    requires key in h.states[j] <==> LastCall(h, key, j) >= 0
    requires key in h.states[j] ==> Sound(h.states[j][key], limit, len, h.requests[LastCall(h, key, j)].now)
    requires key in h.states[j] ==> Counted(h, key, len, h.states[j][key], j)
    ensures Counted(h, key, len, WorkingAt(h, key, limit, len, j), j)
    ensures var v := WorkingAt(h, key, limit, len, j); v.start <= h.requests[j].now < v.start + len
  {
    var now, v := h.requests[j].now, WorkingAt(h, key, limit, len, j);
    if key in h.states[j] {
      var w := h.states[j][key];
      ClampNeverFires(w.(limit := limit, len := len), len, now);
      if now - w.start >= len {
        NothingLater(h, key, limit, len, v.start, v.start + len, j);
        if now - w.start >= 2.0 * len {
          NothingLater(h, key, limit, len, v.start - len, v.start, j);
        }
      }
    } else {
      NothingLater(h, key, limit, len, v.start, v.start + len, j);
      NothingLater(h, key, limit, len, v.start - len, v.start, j);
    }
  }

  // ---- Exactly which calls are admitted --------------------------------------------------------

  /** Where the window of a request begins, from the times of the requests on its key alone: the first opens one,
      one that comes a length later moves it on by a length, one that comes two lengths later opens a new one. */
  function WindowStart(h: History, key: string, len: real, j: nat): (s: real)
    requires j < |h.requests|
  {
    var before, now := LastCall(h, key, j), h.requests[j].now;
    if before < 0 then now
    else
      var s := WindowStart(h, key, len, before);
      if now - s >= 2.0 * len then now else if now - s >= len then s + len else s
  }

  /** The window on record is that of the last request on the key. */
  lemma {:induction false} WindowOnRecord(h: History, key: string, limit: int, len: real, j: nat)
    requires h.Limits(key, limit, len) && j <= |h.requests|
    ensures key in h.states[j] <==> LastCall(h, key, j) >= 0
    ensures key in h.states[j] ==> h.states[j][key].start == WindowStart(h, key, len, LastCall(h, key, j))
  {
    if j > 0 {
      WindowOnRecord(h, key, limit, len, j - 1);
      if h.requests[j - 1].key == key {
        StepAtKey(h, key, limit, len, j - 1);
      } else {
        StepElsewhere(h, j - 1, key);
      }
    }
  }

  /** A request works with its window. */
  lemma WorksInWindow(h: History, key: string, limit: int, len: real, j: nat)
    requires h.Limits(key, limit, len) && j < |h.requests| && h.requests[j].key == key
    ensures WorkingAt(h, key, limit, len, j).start == WindowStart(h, key, len, j)
  {
    WindowOnRecord(h, key, limit, len, j);
  }

  /** The calls that weigh on a request: those admitted in its window, and those admitted in the length before,
      weighted by the part of the window that is still to come. */
  function Weight(before: nat, within: nat, s: real, len: real, now: real): (w: real)
    requires len > 0.0
  {
    before as real * (1.0 - (now - s) / len) + within as real
  }

  /** The admission law: a request is admitted exactly if what weighs on it is below the limit. */
  lemma AdmittedIff(h: History, key: string, limit: int, len: real, j: nat)
    requires h.Limits(key, limit, len) && j < |h.requests| && h.requests[j].key == key
    ensures var s, now := WindowStart(h, key, len, j), h.requests[j].now;
      && s <= now < s + len
      && (h.admitted[j] <==>
            Weight(h.Admitted(key, s - len, s, j), h.Admitted(key, s, s + len, j), s, len, now) < limit as real)
  {
    var v, now := WorkingAt(h, key, limit, len, j), h.requests[j].now;
    WorksInWindow(h, key, limit, len, j);
    WorksCounted(h, key, limit, len, j);
    StepAtKey(h, key, limit, len, j);
    EstimateIsWeight(v, len, now);
    BelowLimit(Estimate(v, len, now), limit);
  }

  lemma WorksCounted(h: History, key: string, limit: int, len: real, j: nat)
    requires h.Limits(key, limit, len) && j < |h.requests| && h.requests[j].key == key
    ensures var v := WorkingAt(h, key, limit, len, j);
      && v.start <= h.requests[j].now < v.start + len
      && h.Admitted(key, v.start, v.start + len, j) == v.curr && h.Admitted(key, v.start - len, v.start, j) == v.prev
  {
    CountersCount(h, key, limit, len, j);
    ReachableSound(h, key, limit, len, j);
    AdvancedCounted(h, key, limit, len, j);
  }

  lemma EstimateIsWeight(v: Window, len: real, now: real)
    requires len > 0.0 && v.start <= now < v.start + len && v.prev >= 0 && v.curr >= 0
    ensures Estimate(v, len, now) == Weight(v.prev, v.curr, v.start, len, now)
  {
    FractionOf(now - v.start, len);
  }

  lemma BelowLimit(e: real, limit: int)
    ensures e.Floor < limit <==> e < limit as real
  {
    assert e.Floor as real <= e < e.Floor as real + 1.0;
  }

  /** Whatever the clocks and the length, the estimate never falls below what the current window counted. */
  lemma NeverBelowCurrent(w: Window, len: real, now: real)
    requires len != 0.0 && w.prev >= 0
    ensures Estimate(w, len, now) >= w.curr as real
  {
    NotNegative(w.prev as real, 1.0 - Progress(w, len, now));
  }

  lemma NotNegative(a: real, b: real)
    requires a >= 0.0 && b >= 0.0
    ensures a * b >= 0.0
  {
  }

  /** Windows start no later than the last request on their key, whatever the settings were. */
  lemma {:induction false} StartNotAhead(h: History, key: string, j: nat)
    requires h.IsRun() && h.Monotone() && j <= |h.requests|
    ensures key in h.states[j] <==> LastCall(h, key, j) >= 0
    ensures key in h.states[j] ==> h.states[j][key].start <= h.requests[LastCall(h, key, j)].now
  {
    if j > 0 {
      StartNotAhead(h, key, j - 1);
      assert h.Step(j - 1);
    }
  }

  /** A window of length zero leaves the decision to what NaN converts to: as long as clocks do not go back, each
      request is admitted exactly if that is below the limit, and counts for nothing. */
  lemma ZeroWindowAnswers(h: History, key: string, j: nat)
    requires h.IsRun() && h.Monotone() && j < |h.requests| && h.requests[j].key == key && h.requests[j].len == 0.0
    ensures var q, nan := h.requests[j], h.platform.nan;
      Answer(h.platform, h.states[j], key, q.limit, q.len, q.now).1
      == if nan >= q.limit then State(false, 0, q.limit, q.now)
         else
           var more := Wrap64(q.limit - nan - 1);
           State(true, if more < 0 then 0 else more, q.limit, q.now)
  {
    StartNotAhead(h, key, j);
  }

  /** A clock behind the start of the window, with something counted before it, leaves it to infinity instead. */
  lemma ZeroWindowDecides(p: Platform, windows: map<string, Window>, key: string, limit: int, now: real)
    ensures var behind := key in windows && now < windows[key].start && windows[key].prev > 0;
      Answer(p, windows, key, limit, 0.0, now).1.allowed <==> (if behind then p.inf else p.nan) < limit
  {
  }

  /** ResetsAt is honest: the next request on the key falls into the same window exactly if it comes before. */
  lemma ResetsAtEndsWindow(h: History, key: string, limit: int, len: real, j: nat, m: nat)
    requires h.Limits(key, limit, len) && j < m < |h.requests|
    requires h.requests[j].key == key && LastCall(h, key, m) == j
    ensures WindowStart(h, key, len, m) == WindowStart(h, key, len, j)
       <==> h.requests[m].now < Answer(h.platform, h.states[j], key, limit, len, h.requests[j].now).1.resetsAt
  {
    WorksInWindow(h, key, limit, len, j);
    AdmittedIff(h, key, limit, len, j);
  }

  /** The rate guarantee: no half-open interval of one window length ever holds more than twice the limit. */
  lemma {:induction false} IntervalBound(h: History, key: string, limit: int, len: real, s: real, j: nat)
    requires h.Limits(key, limit, len) && j <= |h.requests|
    ensures h.Admitted(key, s, s + len, j) <= 2 * limit
  {
    if j > 0 {
      IntervalBound(h, key, limit, len, s, j - 1);
      var q := h.requests[j - 1];
      if q.key == key && h.admitted[j - 1] && s <= q.now < s + len {
        CountersCount(h, key, limit, len, j);
        ReachableSound(h, key, limit, len, j);
        var w := h.states[j][key];
        AdmittedSplits(h, key, w.start - len, w.start, w.start + len, j);
        if s + len <= w.start + len {
          AdmittedWider(h, key, s, s + len, w.start - len, w.start + len, j);
        } else {
          AdmittedSplits(h, key, s, w.start + len, s + len, j);
          NothingLater(h, key, limit, len, w.start + len, s + len, j);
          AdmittedWider(h, key, s, w.start + len, w.start - len, w.start + len, j);
        }
      }
    }
  }

  /** Requests j to j + m are all on this key, at one instant. */
  ghost predicate AtOnce(h: History, key: string, limit: int, len: real, j: nat, m: nat)
    requires j + m < |h.requests|
  {
    forall i :: j <= i <= j + m ==> h.requests[i] == Request(key, limit, len, h.requests[j].now)
  }

  /** A second call at the same instant works with the window as the first left it. */
  lemma SameInstantWindow(w: Window, limit: int, len: real, now: real)
    requires len > 0.0 && w.start <= now < w.start + len && w.limit == limit && w.len == len
    ensures Working(w, limit, len, now) == w
    ensures Estimate(w.(curr := w.curr + 1), len, now) == Estimate(w, len, now) + 1.0
  {
  }

  lemma {:induction false} CountedAtOnce(h: History, key: string, limit: int, len: real, j: nat, m: nat, w: Window)
    requires h.IsRun() && len > 0.0 && j + m < |h.requests| && AtOnce(h, key, limit, len, j, m)
    requires key in h.states[j + 1] && h.states[j + 1][key] == w
    requires w.start <= h.requests[j].now < w.start + len && w.limit == limit && w.len == len
    ensures var now := h.requests[j].now;
      var more := if limit <= Estimate(w, len, now).Floor then 0 else limit - Estimate(w, len, now).Floor;
      && key in h.states[j + m + 1]
      && h.states[j + m + 1][key] == w.(curr := w.curr + if m <= more then m else more)
      && (0 < m ==> (h.admitted[j + m] <==> m <= more))
  {
    if m > 0 {
      CountedAtOnce(h, key, limit, len, j, m - 1, w);
      assert h.Step(j + m);
      var now := h.requests[j].now;
      var before := h.states[j + m][key];
      SameInstantWindow(before, limit, len, now);
      EstimateShift(w, len, now, before.curr - w.curr);
    }
  }

  lemma EstimateShift(w: Window, len: real, now: real, n: int)
    requires len > 0.0
    ensures Estimate(w.(curr := w.curr + n), len, now) == Estimate(w, len, now) + n as real
    ensures Estimate(w.(curr := w.curr + n), len, now).Floor == Estimate(w, len, now).Floor + n
  {
    var e := Estimate(w, len, now);
    assert e.Floor as real <= e < e.Floor as real + 1.0;
  }

  /** Remaining is exact: of m further requests at the same instant the last is admitted
      exactly if m is at most the Remaining reported at j, whether j was admitted or not. */
  lemma RemainingIsExact(h: History, key: string, limit: int, len: real, j: nat, m: nat)
    requires h.Limits(key, limit, len)
    requires 0 < m && j + m < |h.requests| && AtOnce(h, key, limit, len, j, m)
    ensures var reply := AllowStep(h.states[j], key, limit, len, h.requests[j].now).1;
      reply.limit == limit && (h.admitted[j + m] <==> m <= reply.remaining)
  {
    var now, v := h.requests[j].now, WorkingAt(h, key, limit, len, j);
    ReachableSound(h, key, limit, len, j);
    SoundStep(h, key, limit, len, j);
    StepAtKey(h, key, limit, len, j);
    EstimateShift(v, len, now, 1);
    CountedAtOnce(h, key, limit, len, j, m, if h.admitted[j] then v.(curr := v.curr + 1) else v);
  }

  /** Every sequence of requests has its run. */
  lemma {:induction false} RunExists(platform: Platform, requests: seq<Request>) returns (h: History)
    ensures h.IsRun() && h.platform == platform && h.requests == requests
  {
    if requests == [] {
      h := History(platform, requests, [map[]], []);
    } else {
      var last := |requests| - 1;
      var b := RunExists(platform, requests[..last]);
      var q := requests[last];
      var r := Answer(platform, b.states[last], q.key, q.limit, q.len, q.now);
      h := History(platform, requests, b.states + [r.0], b.admitted + [r.1.allowed]);
      forall j: nat | j < |requests|
        ensures h.Step(j)
      {
        if j < last {
          assert b.Step(j);
        }
      }
    }
  }

  // ---- The factor two is needed ----------------------------------------------------------------

  /** A burst of `limit` calls that finds nothing counted in its window and an estimate below 1 is admitted whole. */
  lemma BurstAdmitted(h: History, key: string, limit: int, len: real, j: nat, v: Window)
    requires h.Limits(key, limit, len) && limit >= 1 && j + limit <= |h.requests|
    requires AtOnce(h, key, limit, len, j, limit - 1) && v == WorkingAt(h, key, limit, len, j)
    requires v.curr == 0 && v.start <= h.requests[j].now < v.start + len && v.limit == limit && v.len == len
    requires 0.0 <= Estimate(v, len, h.requests[j].now) < 1.0
    ensures forall i :: j <= i < j + limit ==> h.admitted[i]
    ensures key in h.states[j + limit] && h.states[j + limit][key] == v.(curr := limit)
  {
    var now, w := h.requests[j].now, v.(curr := 1);
    StepAtKey(h, key, limit, len, j);
    EstimateShift(v, len, now, 1);
    forall i | j <= i < j + limit
      ensures h.admitted[i]
    {
      CountedAtOnce(h, key, limit, len, j, i - j, w);
    }
    CountedAtOnce(h, key, limit, len, j, limit - 1, w);
  }

  /** Late enough in its window, the previous window weighs less than one call. */
  lemma LateEstimate(limit: int, len: real, e: real, left: real, v: Window, now: real)
    requires 0 <= v.prev <= limit && limit >= 1 && e > 0.0 && len == 4.0 * (limit as real * e)
    requires 0.0 < left <= 2.0 * e && 2.0 * e <= len && v.curr == 0 && now == v.start + len - left
    ensures v.start <= now < v.start + len
    ensures 0.0 <= Estimate(v, len, now) < 1.0
  {
    var share := Share(now - v.start, len);
    ShareTimes(len - left, len);
    LateWeight(v.prev as real, limit as real, e, left, len, share);
    assert Progress(v, len, now) == share;
  }

  lemma ShareTimes(elapsed: real, len: real)
    requires len > 0.0
    ensures Share(elapsed, len) * len == elapsed
  {
  }

  lemma LateWeight(p: real, n: real, e: real, left: real, len: real, share: real)
    requires 0.0 <= p <= n && n >= 1.0 && e > 0.0 && 0.0 < left <= 2.0 * e && len > 0.0
    requires len == 4.0 * (n * e) && share * len == len - left
    ensures share <= 1.0 && 0.0 <= p * (1.0 - share) < 1.0
  {
    var weight := 1.0 - share;
    Complement(share, len);
    assert weight * len == left;
    if weight <= 0.0 {
      NoPositive(weight, len);
      assert false;
    }
    Regrouped(n, weight, e, len);
    HalfAtMost(n * weight, e, left);
    Scaled(p, n, weight);
  }

  lemma Complement(share: real, len: real)
    ensures (1.0 - share) * len == len - share * len
  {
  }

  lemma Regrouped(n: real, w: real, e: real, len: real)
    requires len == 4.0 * (n * e)
    ensures 4.0 * ((n * w) * e) == w * len
  {
    var ne := n * e;
    assert (n * w) * e == w * ne;
  }

  lemma NoPositive(a: real, b: real)
    requires a <= 0.0 && b > 0.0
    ensures a * b <= 0.0
  {
  }

  lemma AtLeast(n: real, e: real)
    requires n >= 1.0 && e > 0.0
    ensures n * e >= e
  {
    assert n * e - e == (n - 1.0) * e;
  }

  lemma HalfAtMost(a: real, e: real, left: real)
    requires e > 0.0 && 4.0 * (a * e) == left <= 2.0 * e
    ensures a < 1.0
  {
    if a >= 1.0 {
      AtLeast(a, e);
      assert false;
    }
  }

  lemma Scaled(p: real, n: real, w: real)
    requires 0.0 <= p <= n && w > 0.0
    ensures 0.0 <= p * w <= n * w
  {
  }

  /** A run of admitted calls of the key inside an interval counts in full. */
  lemma {:induction false} AllCounted(h: History, key: string, s: real, t: real, i: nat, j: nat)
    requires i <= j <= |h.requests| == |h.admitted|
    requires forall m :: i <= m < j ==> h.requests[m].key == key && h.admitted[m] && s <= h.requests[m].now < t
    ensures h.Admitted(key, s, t, j) == h.Admitted(key, s, t, i) + (j - i)
  {
    if i < j {
      AllCounted(h, key, s, t, i, j - 1);
    }
  }

  /** One call to open the windows, a full burst late in the next one and another late in the one after. */
  function TwoBursts(key: string, limit: nat, len: real, e: real): (requests: seq<Request>)
    ensures |requests| == 1 + 2 * limit
  {
    [Request(key, limit, len, 0.0)]
      + seq(limit, _ => Request(key, limit, len, 2.0 * len - e))
      + seq(limit, _ => Request(key, limit, len, 3.0 * len - 2.0 * e))
  }

  /** What TwoBursts asks, call by call. */
  lemma BurstTimes(h: History, key: string, limit: nat, len: real, e: real)
    requires limit >= 1 && h.requests == TwoBursts(key, limit, len, e)
    ensures h.requests[0] == Request(key, limit, len, 0.0)
    ensures forall i :: 1 <= i <= limit ==> h.requests[i] == Request(key, limit, len, 2.0 * len - e)
    ensures forall i :: limit < i <= 2 * limit ==> h.requests[i] == Request(key, limit, len, 3.0 * len - 2.0 * e)
  {
  }

  lemma BurstsAreLimited(h: History, key: string, limit: nat, len: real, e: real)
    requires limit >= 1 && 0.0 < e && 4.0 * e <= len && h.requests == TwoBursts(key, limit, len, e) && h.IsRun()
    ensures h.Limits(key, limit, len)
    ensures AtOnce(h, key, limit, len, 1, limit - 1) && AtOnce(h, key, limit, len, 1 + limit, limit - 1)
  {
    BurstTimes(h, key, limit, len, e);
  }

  /** The opening call is admitted and the first burst with it, late in the second window. */
  lemma FirstBurst(h: History, key: string, limit: nat, len: real, e: real)
    requires limit >= 1 && 0.0 < e && len == 4.0 * (limit as real * e) && 4.0 * e <= len
    requires h.requests == TwoBursts(key, limit, len, e) && h.IsRun()
    ensures forall i :: 1 <= i < 1 + limit ==> h.admitted[i]
    ensures key in h.states[1 + limit] && h.states[1 + limit][key] == Window(1, limit, limit, len, len)
  {
    BurstTimes(h, key, limit, len, e);
    BurstsAreLimited(h, key, limit, len, e);
    StepAtKey(h, key, limit, len, 0);
    var w := WorkingAt(h, key, limit, len, 0);
    EstimateRange(w, limit, len, 0.0);
    NothingYet(w, len, 0.0);
    assert h.states[1][key] == Window(0, 1, limit, len, 0.0);
    var v := WorkingAt(h, key, limit, len, 1);
    assert v == Window(1, 0, limit, len, len);
    LateEstimate(limit, len, e, e, v, 2.0 * len - e);
    BurstAdmitted(h, key, limit, len, 1, v);
  }

  lemma NothingYet(w: Window, len: real, now: real)
    requires len > 0.0 && w.prev == 0 && w.curr == 0
    ensures Estimate(w, len, now) == 0.0
  {
  }

  lemma SecondBurst(h: History, key: string, limit: nat, len: real, e: real)
    requires limit >= 1 && 0.0 < e && len == 4.0 * (limit as real * e) && 4.0 * e <= len
    requires h.requests == TwoBursts(key, limit, len, e) && h.IsRun()
    ensures forall i :: 1 <= i < 1 + 2 * limit ==> h.admitted[i]
  {
    FirstBurst(h, key, limit, len, e);
    BurstTimes(h, key, limit, len, e);
    BurstsAreLimited(h, key, limit, len, e);
    var v := WorkingAt(h, key, limit, len, 1 + limit);
    assert v == Window(limit, 0, limit, len, 2.0 * len);
    LateEstimate(limit, len, e, 2.0 * e, v, 3.0 * len - 2.0 * e);
    BurstAdmitted(h, key, limit, len, 1 + limit, v);
  }

  /** The bound is attained, for every limit and every window length: two full bursts within one length. */
  lemma TwiceTheLimitHappens(platform: Platform, key: string, limit: nat, len: real) returns (h: History, s: real)
    requires limit >= 1 && len > 0.0
    ensures h.platform == platform && h.Limits(key, limit, len)
    ensures h.Admitted(key, s, s + len, |h.requests|) == 2 * limit
  {
    var e := Quarter(limit, len);
    var requests := TwoBursts(key, limit, len, e);
    h := RunExists(platform, requests);
    BurstTimes(h, key, limit, len, e);
    BurstsAreLimited(h, key, limit, len, e);
    SecondBurst(h, key, limit, len, e);
    s := 2.0 * len - e;
    AllCounted(h, key, s, s + len, 1, 1 + 2 * limit);
    assert h.Admitted(key, s, s + len, 1) == 0;
  }

  /** The 4·limit-th part of a window. */
  lemma Quarter(limit: nat, len: real) returns (e: real)
    requires limit >= 1 && len > 0.0
    ensures 0.0 < e && len == 4.0 * (limit as real * e) && 4.0 * e <= len
  {
    var n := limit as real;
    e := len / (4.0 * n);
    assert e * (4.0 * n) == len;
    assert e > 0.0 by { if e <= 0.0 { NoPositive(e, 4.0 * n); assert false; } }
    AtLeast(n, e);
  }

  /** No window length that starts at s holds more than the limit. */
  ghost predicate WithinLimit(h: History, key: string, limit: int, len: real, s: real)
    requires |h.requests| == |h.admitted|
  {
    h.Admitted(key, s, s + len, |h.requests|) <= limit
  }

  /** What the documentation asks for: no window length of any run ever holds more than the limit. */
  ghost predicate KeepsLimit(limit: int, len: real) {
    forall h: History, key, s :: h.Limits(key, limit, len) ==> WithinLimit(h, key, limit, len, s)
  }

  /** It holds exactly for a limit that admits nothing. */
  lemma KeepsLimitIff(limit: nat, len: real)
    requires len > 0.0
    ensures KeepsLimit(limit, len) <==> limit == 0
  {
    if limit == 0 {
      forall h: History, key, s | h.Limits(key, limit, len)
        ensures WithinLimit(h, key, limit, len, s)
      {
        IntervalBound(h, key, limit, len, s, |h.requests|);
      }
    } else {
      var h, s := TwiceTheLimitHappens(Platform(0, 0), "", limit, len);
      assert !WithinLimit(h, "", limit, len, s);
    }
  }
}
