/** What the clients of a partitioned cluster are answered, in terms of their own calls alone: no store, no owner and
    no reference map, only who called what before and when, by the clock of the key's home. */
module ClusterAnswers {
  import opened Base
  import opened TtlMap
  import P = Partitioned

  // ---- The shared map, one event at a time -----------------------------------------------------

  function After(cl: P.Cluster, t: Table, run: seq<P.Event>): (u: Table)
    decreases |run|
  {
    if run == [] then t else After(cl, P.SharedStep(cl, t, run[0]).0, run[1..])
  }

  lemma {:induction false} TraceSnoc(cl: P.Cluster, t: Table, run: seq<P.Event>, ev: P.Event)
    ensures After(cl, t, run + [ev]) == P.SharedStep(cl, After(cl, t, run), ev).0
    ensures P.SharedTrace(cl, t, run + [ev])
         == P.SharedTrace(cl, t, run) + P.SharedStep(cl, After(cl, t, run), ev).1
    decreases |run|
  {
    var longer := run + [ev];
    if run == [] {
      assert longer == [ev] && longer[1..] == [];
      assert P.SharedStep(cl, t, ev).1 + [] == P.SharedStep(cl, t, ev).1;
    } else {
      var r := P.SharedStep(cl, t, run[0]);
      assert longer[0] == run[0] && longer[1..] == run[1..] + [ev];
      TraceSnoc(cl, r.0, run[1..], ev);
      AppendAssoc(r.1, P.SharedTrace(cl, r.0, run[1..]), P.SharedStep(cl, After(cl, t, run), ev).1);
    }
  }

  /** A run of calls on nodes of the cluster, with clocks that do not go back. */
  ghost predicate Proper(cl: P.Cluster, run: seq<P.Event>) {
    P.Stable(cl) && P.Timely(cl, run) && forall i :: 0 <= i < |run| ==> run[i].node in cl.views
  }

  /** All replies of a run that starts with empty stores. */
  ghost function Replies(cl: P.Cluster, run: seq<P.Event>): (replies: seq<Reply>) {
    P.ClusterTrace(cl, map n | n in cl.ring.members :: map[], run)
  }

  lemma ProperPrefix(cl: P.Cluster, run: seq<P.Event>, ev: P.Event)
    requires Proper(cl, run + [ev])
    ensures Proper(cl, run)
  {
    var longer := run + [ev];
    assert forall i :: 0 <= i < |run| ==> run[i] == longer[i];
  }

  /** What one more event adds to the replies. */
  lemma NextReply(cl: P.Cluster, run: seq<P.Event>, ev: P.Event)
    requires Proper(cl, run + [ev])
    ensures Replies(cl, run + [ev]) == Replies(cl, run) + P.SharedStep(cl, After(cl, map[], run), ev).1
  {
    ProperPrefix(cl, run, ev);
    P.FreshClusterIsOneMap(cl, run);
    P.FreshClusterIsOneMap(cl, run + [ev]);
    TraceSnoc(cl, map[], run, ev);
  }

  // ---- The last write decides ------------------------------------------------------------------

  /** The call changes k: a Set, a Delete or an Incr of it. */
  predicate Writes(ev: P.Event, k: string) {
    ev.Client? && ev.op.key == k && (ev.op.Set? || ev.op.Delete? || ev.op.Incr?)
  }

  /** The index of the last such call, -1 if there is none. */
  function LastWrite(run: seq<P.Event>, k: string): (i: int)
    ensures -1 <= i < |run| && (i >= 0 ==> Writes(run[i], k))
  {
    if run == [] then -1
    else
      var last := |run| - 1;
      if Writes(run[last], k) then last else LastWrite(run[..last], k)
  }

  /** How long what a call stores is meant to last: its own time to live, or the default for a Set with none and
      for a new counter. 0 or less is for ever. */
  function Lifetime(cl: P.Cluster, op: P.ClientOp): (ttl: Time)
    requires op.Set? || op.Incr?
  {
    if op.Set? && op.ttl != 0 then op.ttl else cl.defaultTTL
  }

  /** What call i stored has not run out. */
  predicate Lasts(cl: P.Cluster, run: seq<P.Event>, i: nat, now: Time)
    requires i < |run| && run[i].Client? && (run[i].op.Set? || run[i].op.Incr?)
  {
    Lifetime(cl, run[i].op) <= 0 || now <= run[i].now + Lifetime(cl, run[i].op)
  }

  /** The value of the last Set of k that no Delete followed, while it lasts. */
  function Stored(cl: P.Cluster, run: seq<P.Event>, k: string, now: Time): (v: Option<Bytes>)
    requires var i := LastWrite(run, k); i >= 0 ==> !run[i].op.Incr?
  {
    var i := LastWrite(run, k);
    if i >= 0 && run[i].op.Set? && Lasts(cl, run, i, now) then Some(run[i].op.value) else None
  }

  /** A call that does not write k leaves its record alone. */
  lemma OthersLeave(cl: P.Cluster, t: Table, ev: P.Event, k: string)
    requires k != "" && !Writes(ev, k)
    ensures var u := P.SharedStep(cl, t, ev).0; (k in u <==> k in t) && (k in t ==> u[k] == t[k])
  {
  }

  /** Set and Delete replace the record, whatever was there. */
  lemma WriteReplaces(cl: P.Cluster, t: Table, ev: P.Event, k: string)
    requires k != "" && Writes(ev, k) && !ev.op.Incr?
    ensures var u := P.SharedStep(cl, t, ev).0;
      if ev.op.Delete? then k !in u
      else
        var ttl := Lifetime(cl, ev.op);
        k in u && u[k] == Rec(ev.op.value, if ttl <= 0 then None else Some(ev.now + ttl))
  {
  }

  /** The map holds what the last write of k left there. */
  ghost predicate Stands(cl: P.Cluster, run: seq<P.Event>, k: string, t: Table)
    requires var i := LastWrite(run, k); i >= 0 ==> !run[i].op.Incr?
  {
    var i := LastWrite(run, k);
    if i < 0 || run[i].op.Delete? then k !in t
    else
      var ttl := Lifetime(cl, run[i].op);
      k in t && t[k] == Rec(run[i].op.value, if ttl <= 0 then None else Some(run[i].now + ttl))
  }

  lemma {:induction false} LastWriteStands(cl: P.Cluster, run: seq<P.Event>, k: string)
    requires k != "" && var i := LastWrite(run, k); i >= 0 ==> !run[i].op.Incr?
    ensures Stands(cl, run, k, After(cl, map[], run))
  {
    if run != [] {
      var before, ev := run[..|run| - 1], run[|run| - 1];
      assert run == before + [ev];
      TraceSnoc(cl, map[], before, ev);
      if Writes(ev, k) {
        WriteReplaces(cl, After(cl, map[], before), ev, k);
      } else {
        LastWriteStands(cl, before, k);
        OthersLeave(cl, After(cl, map[], before), ev, k);
      }
    }
  }

  /** What a read of k makes of the map: an answer and nothing else. */
  lemma ReadStep(cl: P.Cluster, t: Table, ev: P.Event)
    requires ev.Client? && ev.op.key != "" && (ev.op.Get? || ev.op.Exists?)
    ensures var live := Live(t, ev.op.key, ev.now);
      P.SharedStep(cl, t, ev).1
      == [if ev.op.Exists? then Flag(live.Some?)
          else Value(if live.Some? then Some(live.value.value) else None)]
  {
  }

  lemma StoredIsLive(cl: P.Cluster, run: seq<P.Event>, k: string, t: Table, now: Time)
    requires var i := LastWrite(run, k); i >= 0 ==> !run[i].op.Incr?
    requires Stands(cl, run, k, t)
    ensures var live := Live(t, k, now);
      Stored(cl, run, k, now) == if live.Some? then Some(live.value.value) else None
  {
  }

  /** Get, on whatever node, answers the value of the last Set of the key, on whatever node, that no Delete
      followed and whose time has not run out, and nothing otherwise; and Exists says whether there is one. For a key
      that no Incr came to since. */
  lemma LastWriteAnswers(cl: P.Cluster, run: seq<P.Event>, ev: P.Event)
    requires ev.Client? && ev.op.key != "" && (ev.op.Get? || ev.op.Exists?) && Proper(cl, run + [ev])
    requires var i := LastWrite(run, ev.op.key); i >= 0 ==> !run[i].op.Incr?
    ensures var v := Stored(cl, run, ev.op.key, ev.now);
      Replies(cl, run + [ev]) == Replies(cl, run) + [if ev.op.Get? then Value(v) else Flag(v.Some?)]
  {
    NextReply(cl, run, ev);
    LastWriteStands(cl, run, ev.op.key);
    ReadStep(cl, After(cl, map[], run), ev);
    StoredIsLive(cl, run, ev.op.key, After(cl, map[], run), ev.now);
  }

  /** Set and Delete report nothing back. */
  lemma WriteAnswers(cl: P.Cluster, run: seq<P.Event>, ev: P.Event)
    requires ev.Client? && ev.op.key != "" && (ev.op.Set? || ev.op.Delete?) && Proper(cl, run + [ev])
    ensures Replies(cl, run + [ev]) == Replies(cl, run) + [Done]
  {
    NextReply(cl, run, ev);
  }

  /** The empty key is refused by every call that would store something under it and is never found. */
  lemma EmptyKeyAnswers(cl: P.Cluster, run: seq<P.Event>, ev: P.Event)
    requires ev.Client? && ev.op.key == "" && Proper(cl, run + [ev])
    ensures Replies(cl, run + [ev]) == Replies(cl, run)
      + [if ev.op.Set? || ev.op.Incr? then Failed
         else if ev.op.Get? then Value(None) else if ev.op.Exists? then Flag(false) else Done]
  {
    NextReply(cl, run, ev);
  }

  // ---- Counters --------------------------------------------------------------------------------

  /** Where the record of a key comes from: the Set that stored it or the Incr that found nothing, and whether it
      still has the deadline that call gave it. */
  datatype Origin = Nothing | From(at: nat, dated: bool)

  /** The record is there to be seen. */
  predicate Alive(cl: P.Cluster, run: seq<P.Event>, o: Origin, now: Time)
    requires o.From? ==> o.at < |run| && run[o.at].Client? && (run[o.at].op.Set? || run[o.at].op.Incr?)
  {
    o.From? && (o.dated ==> Lasts(cl, run, o.at, now))
  }

  /** Its time runs out right now. */
  predicate FallsDue(cl: P.Cluster, run: seq<P.Event>, i: nat, now: Time)
    requires i < |run| && run[i].Client? && (run[i].op.Set? || run[i].op.Incr?)
  {
    Lifetime(cl, run[i].op) > 0 && now == run[i].now + Lifetime(cl, run[i].op)
  }

  /** An Incr of a living counter keeps its origin, and its deadline too, unless that falls due right now. */
  function OriginOf(cl: P.Cluster, run: seq<P.Event>, k: string): (o: Origin)
    ensures o.From? ==> o.at < |run| && Writes(run[o.at], k) && !run[o.at].op.Delete?
  {
    if run == [] then Nothing
    else
      var last := |run| - 1;
      var ev, before := run[last], OriginOf(cl, run[..last], k);
      if !Writes(ev, k) then before
      else match ev.op
        case Set(_, _, _) => From(last, true)
        case Delete(_) => Nothing
        case Incr(_, _) =>
          if !Alive(cl, run, before, ev.now) then From(last, true)
          else if Start(cl, run[before.at].op).None? then before
          else From(before.at, before.dated && !FallsDue(cl, run, before.at, ev.now))
  }

  /** The number a record starts with: what a Set stored, if it is one, or the first delta. */
  function Start(cl: P.Cluster, op: P.ClientOp): (n: Option<int>)
    requires op.Set? || op.Incr?
  {
    if op.Set? then cl.codec.dec(op.value) else Some(op.delta)
  }

  /** The deltas of the Incrs of k after call i. */
  function Deltas(run: seq<P.Event>, k: string, i: nat): (sum: int) {
    if |run| <= i + 1 then 0
    else
      var ev := run[|run| - 1];
      Deltas(run[..|run| - 1], k, i) + if ev.Client? && ev.op.Incr? && ev.op.key == k then ev.op.delta else 0
  }

  predicate Incremented(run: seq<P.Event>, k: string, i: nat) {
    exists m :: i < m < |run| && run[m].Client? && run[m].op.Incr? && run[m].op.key == k
  }

  /** What a record holds: the bytes of its Set until it is first incremented, and then the number it started with
      plus every delta since, as an int64. */
  ghost function Content(cl: P.Cluster, run: seq<P.Event>, k: string, i: nat): (v: Bytes)
    requires i < |run| && run[i].Client? && (run[i].op.Set? || run[i].op.Incr?)
  {
    var n := Start(cl, run[i].op);
    if run[i].op.Set? && (n.None? || !Incremented(run, k, i)) then run[i].op.value
    else cl.codec.enc(Wrap64(n.value + Deltas(run, k, i)))
  }

  ghost predicate RecordIs(cl: P.Cluster, run: seq<P.Event>, k: string, t: Table) {
    var o := OriginOf(cl, run, k);
    if o.Nothing? then k !in t
    else
      var ttl := Lifetime(cl, run[o.at].op);
      k in t && t[k] == Rec(Content(cl, run, k, o.at),
                            if o.dated && ttl > 0 then Some(run[o.at].now + ttl) else None)
  }

  lemma SameContent(cl: P.Cluster, run: seq<P.Event>, k: string, i: nat)
    requires i < |run| - 1 && run[i].Client? && (run[i].op.Set? || run[i].op.Incr?)
    requires var ev := run[|run| - 1]; !(ev.Client? && ev.op.Incr? && ev.op.key == k)
    ensures Content(cl, run, k, i) == Content(cl, run[..|run| - 1], k, i)
  {
    var before := run[..|run| - 1];
    assert forall m :: 0 <= m < |before| ==> before[m] == run[m];
    if Incremented(run, k, i) {
      var m :| i < m < |run| && run[m].Client? && run[m].op.Incr? && run[m].op.key == k;
      assert before[m].Client? && before[m].op.Incr?;
    }
  }

  /** Read as a number, a record is what it started with plus every delta since, up to wrap-around. */
  lemma ContentCounts(cl: P.Cluster, run: seq<P.Event>, k: string, i: nat, delta: int)
    requires RoundTrips(cl.codec) && i < |run| && run[i].Client? && (run[i].op.Set? || run[i].op.Incr?)
    ensures var n, held := Start(cl, run[i].op), cl.codec.dec(Content(cl, run, k, i));
      if n.None? then held == None
      else held.Some? && Wrap64(held.value + delta) == Wrap64(n.value + Deltas(run, k, i) + delta)
  {
    var n := Start(cl, run[i].op);
    if n.Some? {
      var sum := n.value + Deltas(run, k, i);
      WrapAdd(sum, delta);
      assert cl.codec.dec(cl.codec.enc(Wrap64(sum))) == Some(Wrap64(sum));
      if run[i].op.Set? && !Incremented(run, k, i) {
        NoDeltas(run, k, i);
      }
    }
  }

  /** And one more Incr adds its delta, unless what was Set is no number. */
  lemma MoreContent(cl: P.Cluster, run: seq<P.Event>, k: string, i: nat)
    requires i < |run| - 1 && run[i].Client? && (run[i].op.Set? || run[i].op.Incr?)
    requires var ev := run[|run| - 1]; ev.Client? && ev.op.Incr? && ev.op.key == k
    ensures var before, n := run[..|run| - 1], Start(cl, run[i].op);
      Content(cl, run, k, i)
      == if n.None? then Content(cl, before, k, i)
         else cl.codec.enc(Wrap64(n.value + Deltas(before, k, i) + run[|run| - 1].op.delta))
  {
    assert Incremented(run, k, i);
  }

  lemma {:induction false} NoDeltas(run: seq<P.Event>, k: string, i: nat)
    requires !Incremented(run, k, i)
    ensures Deltas(run, k, i) == 0
  {
    if |run| > i + 1 {
      var before := run[..|run| - 1];
      assert forall m :: 0 <= m < |before| ==> before[m] == run[m];
      assert !Incremented(before, k, i);
      NoDeltas(before, k, i);
    }
  }

  lemma AliveIsLive(cl: P.Cluster, run: seq<P.Event>, k: string, t: Table, now: Time)
    requires RecordIs(cl, run, k, t)
    ensures Alive(cl, run, OriginOf(cl, run, k), now) <==> Live(t, k, now).Some?
  {
  }

  lemma QuietStep(cl: P.Cluster, run: seq<P.Event>, k: string, t: Table)
    requires run != [] && k != "" && RecordIs(cl, run[..|run| - 1], k, t) && !Writes(run[|run| - 1], k)
    ensures RecordIs(cl, run, k, P.SharedStep(cl, t, run[|run| - 1]).0)
  {
    OthersLeave(cl, t, run[|run| - 1], k);
    var o := OriginOf(cl, run[..|run| - 1], k);
    if o.From? {
      SameContent(cl, run, k, o.at);
    }
  }

  lemma ReplacingStep(cl: P.Cluster, run: seq<P.Event>, k: string, t: Table)
    requires run != [] && k != "" && Writes(run[|run| - 1], k) && !run[|run| - 1].op.Incr?
    ensures RecordIs(cl, run, k, P.SharedStep(cl, t, run[|run| - 1]).0)
  {
    WriteReplaces(cl, t, run[|run| - 1], k);
  }

  /** What an Incr stores and answers, on a record that is alive and on none. */
  lemma IncrStep(cl: P.Cluster, t: Table, ev: P.Event, k: string)
    requires k != "" && Writes(ev, k) && ev.op.Incr?
    ensures var u, live, n := P.SharedStep(cl, t, ev), Live(t, k, ev.now), ev.op.delta;
      if live.None? then
        var ttl := Lifetime(cl, ev.op);
        && k in u.0 && u.0[k] == Rec(cl.codec.enc(Wrap64(n)), if ttl <= 0 then None else Some(ev.now + ttl))
        && u.1 == [Counter(Wrap64(n))]
      else if cl.codec.dec(live.value.value).None? then u == (t, [Failed])
      else
        var sum := Wrap64(cl.codec.dec(live.value.value).value + n);
        && k in u.0 && u.0[k].value == cl.codec.enc(sum) && u.1 == [Counter(sum)]
        && u.0[k].deadline == if live.value.deadline == Some(ev.now) then None else live.value.deadline
  {
  }

  lemma FirstCount(cl: P.Cluster, run: seq<P.Event>, k: string, t: Table)
    requires run != [] && k != "" && RecordIs(cl, run[..|run| - 1], k, t)
    requires Writes(run[|run| - 1], k) && run[|run| - 1].op.Incr?
    requires var before := run[..|run| - 1]; !Alive(cl, before, OriginOf(cl, before, k), run[|run| - 1].now)
    ensures RecordIs(cl, run, k, P.SharedStep(cl, t, run[|run| - 1]).0)
  {
    IncrStep(cl, t, run[|run| - 1], k);
    AliveIsLive(cl, run[..|run| - 1], k, t, run[|run| - 1].now);
  }

  /** An Incr of a record that is alive keeps its origin; its deadline too, unless it falls due. */
  lemma SameOrigin(cl: P.Cluster, run: seq<P.Event>, k: string)
    requires run != [] && Writes(run[|run| - 1], k) && run[|run| - 1].op.Incr?
    requires var before := run[..|run| - 1]; Alive(cl, before, OriginOf(cl, before, k), run[|run| - 1].now)
    ensures var o, p := OriginOf(cl, run[..|run| - 1], k), OriginOf(cl, run, k);
      && p.From? && p.at == o.at && run[o.at] == run[..|run| - 1][o.at]
      && if Start(cl, run[o.at].op).None? then p == o
         else p.dated == (o.dated && !FallsDue(cl, run, o.at, run[|run| - 1].now))
  {
  }

  /** Incr of a record that is no number changes nothing. */
  lemma NoCount(cl: P.Cluster, run: seq<P.Event>, k: string, t: Table)
    requires RoundTrips(cl.codec) && run != [] && k != "" && RecordIs(cl, run[..|run| - 1], k, t)
    requires Writes(run[|run| - 1], k) && run[|run| - 1].op.Incr?
    requires var before := run[..|run| - 1];
      var o := OriginOf(cl, before, k);
      Alive(cl, before, o, run[|run| - 1].now) && Start(cl, before[o.at].op).None?
    ensures RecordIs(cl, run, k, P.SharedStep(cl, t, run[|run| - 1]).0)
  {
    var before, ev := run[..|run| - 1], run[|run| - 1];
    var o := OriginOf(cl, before, k);
    SameOrigin(cl, run, k);
    ContentCounts(cl, before, k, o.at, ev.op.delta);
    MoreContent(cl, run, k, o.at);
    AliveIsLive(cl, before, k, t, ev.now);
    IncrStep(cl, t, ev, k);
  }

  /** The deadline a record has and whether it falls due. */
  lemma DueIs(cl: P.Cluster, run: seq<P.Event>, k: string, t: Table, now: Time)
    requires RecordIs(cl, run, k, t) && OriginOf(cl, run, k).From?
    ensures var o := OriginOf(cl, run, k);
      && k in t && t[k].value == Content(cl, run, k, o.at)
      && (t[k].deadline == Some(now) <==> o.dated && FallsDue(cl, run, o.at, now))
  {
  }

  lemma NextCount(cl: P.Cluster, run: seq<P.Event>, k: string, t: Table)
    requires RoundTrips(cl.codec) && run != [] && k != "" && RecordIs(cl, run[..|run| - 1], k, t)
    requires Writes(run[|run| - 1], k) && run[|run| - 1].op.Incr?
    requires var before := run[..|run| - 1];
      var o := OriginOf(cl, before, k);
      Alive(cl, before, o, run[|run| - 1].now) && Start(cl, before[o.at].op).Some?
    ensures RecordIs(cl, run, k, P.SharedStep(cl, t, run[|run| - 1]).0)
  {
    var before, ev := run[..|run| - 1], run[|run| - 1];
    var o := OriginOf(cl, before, k);
    SameOrigin(cl, run, k);
    ContentCounts(cl, before, k, o.at, ev.op.delta);
    MoreContent(cl, run, k, o.at);
    AliveIsLive(cl, before, k, t, ev.now);
    DueIs(cl, before, k, t, ev.now);
    IncrStep(cl, t, ev, k);
    var u := P.SharedStep(cl, t, ev).0;
    assert Live(t, k, ev.now) == Some(t[k]);
    assert k in u && u[k].value == Content(cl, run, k, o.at);
  }

  lemma CountingStep(cl: P.Cluster, run: seq<P.Event>, k: string, t: Table)
    requires RoundTrips(cl.codec) && run != [] && k != "" && RecordIs(cl, run[..|run| - 1], k, t)
    requires Writes(run[|run| - 1], k) && run[|run| - 1].op.Incr?
    ensures RecordIs(cl, run, k, P.SharedStep(cl, t, run[|run| - 1]).0)
  {
    var before := run[..|run| - 1];
    var o := OriginOf(cl, before, k);
    if !Alive(cl, before, o, run[|run| - 1].now) {
      FirstCount(cl, run, k, t);
    } else if Start(cl, before[o.at].op).None? {
      NoCount(cl, run, k, t);
    } else {
      NextCount(cl, run, k, t);
    }
  }

  lemma {:induction false} RunRecordIs(cl: P.Cluster, run: seq<P.Event>, k: string)
    requires RoundTrips(cl.codec) && k != ""
    ensures RecordIs(cl, run, k, After(cl, map[], run))
  {
    if run != [] {
      var before, ev := run[..|run| - 1], run[|run| - 1];
      assert run == before + [ev];
      RunRecordIs(cl, before, k);
      TraceSnoc(cl, map[], before, ev);
      var t := After(cl, map[], before);
      if !Writes(ev, k) {
        QuietStep(cl, run, k, t);
      } else if ev.op.Incr? {
        CountingStep(cl, run, k, t);
      } else {
        ReplacingStep(cl, run, k, t);
      }
    }
  }

  /** The value Get finds after any run, counters included. */
  ghost function Shown(cl: P.Cluster, run: seq<P.Event>, k: string, now: Time): (v: Option<Bytes>) {
    var o := OriginOf(cl, run, k);
    if Alive(cl, run, o, now) then Some(Content(cl, run, k, o.at)) else None
  }

  lemma ShownIsLive(cl: P.Cluster, run: seq<P.Event>, k: string, t: Table, now: Time)
    requires RecordIs(cl, run, k, t)
    ensures var live := Live(t, k, now);
      Shown(cl, run, k, now) == if live.Some? then Some(live.value.value) else None
  {
    AliveIsLive(cl, run, k, t, now);
  }

  /** Get and Exists after any run of any calls. */
  lemma ReadAnswers(cl: P.Cluster, run: seq<P.Event>, ev: P.Event)
    requires ev.Client? && ev.op.key != "" && (ev.op.Get? || ev.op.Exists?) && Proper(cl, run + [ev])
    requires RoundTrips(cl.codec)
    ensures var v := Shown(cl, run, ev.op.key, ev.now);
      Replies(cl, run + [ev]) == Replies(cl, run) + [if ev.op.Get? then Value(v) else Flag(v.Some?)]
  {
    NextReply(cl, run, ev);
    RunRecordIs(cl, run, ev.op.key);
    ReadStep(cl, After(cl, map[], run), ev);
    ShownIsLive(cl, run, ev.op.key, After(cl, map[], run), ev.now);
  }

  /** What an Incr is answered after any run: the number its counter started with, plus every delta since, from
      whatever nodes, plus its own, as an int64; it fails on a Set of something else, and starts anew when there is
      nothing or its time is up. */
  ghost function Tally(cl: P.Cluster, run: seq<P.Event>, k: string, delta: int, now: Time): (r: Reply) {
    var o := OriginOf(cl, run, k);
    if !Alive(cl, run, o, now) then Counter(Wrap64(delta))
    else
      var n := Start(cl, run[o.at].op);
      if n.None? then Failed else Counter(Wrap64(n.value + Deltas(run, k, o.at) + delta))
  }

  lemma IncrReply(cl: P.Cluster, run: seq<P.Event>, ev: P.Event, t: Table)
    requires RoundTrips(cl.codec) && ev.Client? && ev.op.Incr? && ev.op.key != ""
    requires RecordIs(cl, run, ev.op.key, t)
    ensures P.SharedStep(cl, t, ev).1 == [Tally(cl, run, ev.op.key, ev.op.delta, ev.now)]
  {
    var k := ev.op.key;
    var o := OriginOf(cl, run, k);
    IncrStep(cl, t, ev, k);
    AliveIsLive(cl, run, k, t, ev.now);
    if Alive(cl, run, o, ev.now) {
      ContentCounts(cl, run, k, o.at, ev.op.delta);
    }
  }

  lemma IncrAnswers(cl: P.Cluster, run: seq<P.Event>, ev: P.Event)
    requires RoundTrips(cl.codec) && ev.Client? && ev.op.Incr? && ev.op.key != "" && Proper(cl, run + [ev])
    ensures Replies(cl, run + [ev]) == Replies(cl, run) + [Tally(cl, run, ev.op.key, ev.op.delta, ev.now)]
  {
    NextReply(cl, run, ev);
    RunRecordIs(cl, run, ev.op.key);
    IncrReply(cl, run, ev, After(cl, map[], run));
  }

  /** In particular a key that is only ever incremented, with no default time to live, counts every delta. */
  lemma {:induction false} OnlyIncrements(cl: P.Cluster, run: seq<P.Event>, k: string)
    requires cl.defaultTTL <= 0
    requires forall i :: 0 <= i < |run| && Writes(run[i], k) ==> run[i].op.Incr?
    ensures var o := OriginOf(cl, run, k);
      if o.Nothing? then forall i :: 0 <= i < |run| ==> !Writes(run[i], k)
      else
        && Writes(run[o.at], k) && run[o.at].op.Incr? && (forall now :: Alive(cl, run, o, now))
        && (forall i :: 0 <= i < o.at ==> !Writes(run[i], k))
  {
    if run != [] {
      var before := run[..|run| - 1];
      assert forall i :: 0 <= i < |before| ==> before[i] == run[i];
      OnlyIncrements(cl, before, k);
      var o := OriginOf(cl, before, k);
      assert o.From? ==> Alive(cl, before, o, run[|run| - 1].now);
    }
  }
}
