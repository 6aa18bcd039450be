/** The tag index and invalidation by tag on a local node. */
module Tags {
  import opened Base
  import T = TtlMap

  predicate Tagged(tagToKeys: map<string, set<string>>, tag: string, key: string) {
    tag in tagToKeys && key in tagToKeys[tag]
  }

  class TagIndex {
    var tagToKeys: map<string, set<string>>
    var keyToTags: map<string, seq<string>>

    /** The two maps are exact inverses, and no tag has an empty set of keys. */
    ghost predicate Valid()
      reads this
    {
      && (forall t, k :: Tagged(tagToKeys, t, k) <==> k in keyToTags && t in keyToTags[k])
      && (forall t :: t in tagToKeys ==> tagToKeys[t] != {})
    }

    constructor ()
      ensures Valid() && keyToTags == map[]
    {
      tagToKeys, keyToTags := map[], map[];
    }

    /** Take a key out of the sets of these tags, dropping sets that become empty. */
    method detach(key: string, tags: seq<string>)
      requires forall t :: t in tagToKeys ==> tagToKeys[t] != {}
      modifies this`tagToKeys
      ensures forall t, k :: Tagged(tagToKeys, t, k) <==> Tagged(old(tagToKeys), t, k) && !(k == key && t in tags)
      ensures forall t :: t in tagToKeys ==> tagToKeys[t] != {}
    {
      var i := 0;
      while i < |tags|
        invariant 0 <= i <= |tags|
        invariant forall t, k ::
          Tagged(tagToKeys, t, k) <==> Tagged(old(tagToKeys), t, k) && !(k == key && t in tags[..i])
        invariant forall t :: t in tagToKeys ==> tagToKeys[t] != {}
      {
        var tag := tags[i];
        detachOne(key, tag);
        assert tags[..i + 1] == tags[..i] + [tag];
        i := i + 1;
      }
      assert tags[..|tags|] == tags;
    }

    method detachOne(key: string, tag: string)
      requires forall t :: t in tagToKeys ==> tagToKeys[t] != {}
      modifies this`tagToKeys
      ensures forall t, k :: Tagged(tagToKeys, t, k) <==> Tagged(old(tagToKeys), t, k) && !(k == key && t == tag)
      ensures forall t :: t in tagToKeys ==> tagToKeys[t] != {}
    {
      if tag in tagToKeys {
        var keys := tagToKeys[tag] - {key};
        if |keys| == 0 {
          tagToKeys := tagToKeys - {tag};
        } else {
          tagToKeys := tagToKeys[tag := keys];
        }
      }
    }

    method attach(key: string, tags: seq<string>)
      requires forall t :: t in tagToKeys ==> tagToKeys[t] != {}
      modifies this`tagToKeys
      ensures forall t, k :: Tagged(tagToKeys, t, k) <==> Tagged(old(tagToKeys), t, k) || (k == key && t in tags)
      ensures forall t :: t in tagToKeys ==> tagToKeys[t] != {}
    {
      var i := 0;
      while i < |tags|
        invariant 0 <= i <= |tags|
        invariant forall t, k ::
          Tagged(tagToKeys, t, k) <==> Tagged(old(tagToKeys), t, k) || (k == key && t in tags[..i])
        invariant forall t :: t in tagToKeys ==> tagToKeys[t] != {}
      {
        var tag := tags[i];
        var keys := if tag in tagToKeys then tagToKeys[tag] else {};
        tagToKeys := tagToKeys[tag := keys + {key}];
        assert tags[..i + 1] == tags[..i] + [tag];
        i := i + 1;
      }
      assert tags[..|tags|] == tags;
    }

    method Add(key: string, tags: seq<string>)
      requires Valid()
      modifies this
      ensures Valid() && keyToTags == old(keyToTags)[key := tags]
    {
      forget(key);
      keyToTags := keyToTags[key := tags];
      attach(key, tags);
      assert forall t, k :: Tagged(tagToKeys, t, k) <==> k in keyToTags && t in keyToTags[k];
    }

    method Remove(key: string)
      requires Valid()
      modifies this
      ensures Valid() && keyToTags == old(keyToTags) - {key}
    {
      if key !in keyToTags {
        return;
      }
      forget(key);
      keyToTags := keyToTags - {key};
      assert forall t, k :: Tagged(tagToKeys, t, k) <==> k in keyToTags && t in keyToTags[k];
    }

    /** Take a key out of all its tags' sets, leaving its own list for the caller to replace or delete. */
    method forget(key: string)
      requires Valid()
      modifies this`tagToKeys
      ensures forall t, k :: Tagged(tagToKeys, t, k) <==> k != key && k in keyToTags && t in keyToTags[k]
      ensures forall t :: t in tagToKeys ==> tagToKeys[t] != {}
    {
      if key in keyToTags {
        detach(key, keyToTags[key]);
      }
    }

    /** The keys of a tag, each once, in the order the set gives them. */
    method GetKeysByTag(tag: string) returns (result: seq<string>)
      requires Valid()
      ensures forall k :: k in result <==> k in keyToTags && tag in keyToTags[k]
      ensures forall i, j :: 0 <= i < j < |result| ==> result[i] != result[j]
    {
      result := [];
      if tag !in tagToKeys {
        assert forall k :: !Tagged(tagToKeys, tag, k);
        return;
      }
      var rest := tagToKeys[tag];
      while rest != {}
        invariant forall k :: k in result <==> k in tagToKeys[tag] - rest
        invariant rest <= tagToKeys[tag]
        invariant forall i, j :: 0 <= i < j < |result| ==> result[i] != result[j]
        decreases rest
      {
        var k :| k in rest;
        assert k !in result;
        rest := rest - {k};
        result := result + [k];
      }
      assert forall k :: k in result <==> Tagged(tagToKeys, tag, k);
    }
  }

  /** The keys a tag stands for. */
  function KeysOf(keyToTags: map<string, seq<string>>, tag: string): (r: set<string>) {
    set k | k in keyToTags && tag in keyToTags[k]
  }

  // ---- What each call does to store and index --------------------------------------------------

  datatype TagEvent =
    | Put(key: string, tags: seq<string>)   // Set or SetWithTags, with no tags or some
    | Delete(key: string)
    | Drop(key: string)                     // by lazy expiry, sweep or eviction, in the store alone
    | Callback(key: string)                 // of a sweep or an eviction
    | Invalidate(tag: string)

  /** The keys in the store and the tags in the index. */
  datatype CacheState = CacheState(store: set<string>, index: map<string, seq<string>>)

  function CacheStep(c: CacheState, ev: TagEvent): (r: CacheState) {
    match ev
    case Put(k, tags) => CacheState(c.store + {k}, if tags == [] then c.index else c.index[k := tags])
    case Delete(k) => CacheState(c.store - {k}, c.index - {k})
    case Drop(k) => c.(store := c.store - {k})
    case Callback(k) => c.(index := c.index - {k})
    case Invalidate(t) => CacheState(c.store - KeysOf(c.index, t), c.index - KeysOf(c.index, t))
  }

  /** A cache without a cluster: its store and its tag index. */
  class LocalCache {
    var store: T.Table
    const tags: TagIndex
    const defaultTTL: Time

    ghost predicate Valid()
      reads this, tags
    {
      tags.Valid() && "" !in tags.keyToTags
    }

    /** The keys of the store and the index. */
    ghost function View(): (c: CacheState)
      reads this, tags
    {
      CacheState(store.Keys, tags.keyToTags)
    }

    constructor (defaultTTL: Time)
      ensures View() == CacheAfter([])
      ensures Valid() && store == map[] && tags.keyToTags == map[] && fresh(tags) && this.defaultTTL == defaultTTL
    {
      this.defaultTTL := defaultTTL;
      tags := new TagIndex();
      store := map[];
    }

    /** Set with tags: an empty key is refused; a zero TTL means the default; without tags the old ones stay. */
    method SetWithTags(key: string, value: Bytes, ttl: Time, tagList: seq<string>, now: Time) returns (ok: bool)
      requires Valid()
      modifies this, tags
      ensures Valid()
      ensures ok <==> key != ""
      ensures !ok ==> store == old(store)
      ensures ok ==>
        store == old(store)[key := T.Rec(value, T.DeadlineFor(if ttl == 0 then defaultTTL else ttl, now))]
      ensures View() == if ok then CacheStep(old(View()), Put(key, tagList)) else old(View())
    {
      if key == "" {
        return false;
      }
      var life := if ttl == 0 then defaultTTL else ttl;
      store := store[key := T.Rec(value, if life > 0 then Some(now + life) else None)];
      if |tagList| > 0 {
        tags.Add(key, tagList);
      }
      ok := true;
    }

    method Delete(key: string)
      requires Valid()
      modifies this, tags
      ensures Valid()
      ensures store == old(store) - (if key == "" then {} else {key})
      ensures View() == if key == "" then old(View()) else CacheStep(old(View()), TagEvent.Delete(key))
    {
      if key == "" {
        assert store - {} == store && tags.keyToTags - {key} == tags.keyToTags;
        return;
      }
      store := store - {key};
      tags.Remove(key);
    }

    /** The store drops a record on its own. The callback of an eviction or a sweep comes later, outside the lock;
        a reader that finds the record expired drops it without any callback. */
    method Dropped(key: string)
      requires Valid()
      modifies this
      ensures Valid()
      ensures store == old(store) - {key} && View() == CacheStep(old(View()), Drop(key))
    {
      store := store - {key};
    }

    /** The eviction and expiry callbacks: whatever the key holds by now, its tags go. */
    method OnDropped(key: string)
      requires Valid()
      modifies tags
      ensures Valid()
      ensures store == old(store) && View() == CacheStep(old(View()), Callback(key))
    {
      tags.Remove(key);
    }

    /** Invalidation removes from store and index exactly the keys of the tag; everything else is left as it was. */
    method InvalidateTag(tag: string)
      requires Valid()
      modifies this, tags
      ensures Valid()
      ensures store == old(store) - KeysOf(old(tags.keyToTags), tag)
      ensures View() == CacheStep(old(View()), Invalidate(tag)) && KeysOf(tags.keyToTags, tag) == {}
    {
      var keys := tags.GetKeysByTag(tag);
      ghost var all := KeysOf(tags.keyToTags, tag);
      ghost var store0, index0 := store, tags.keyToTags;
      var i := 0;
      while i < |keys|
        invariant 0 <= i <= |keys| && Valid()
        invariant store == store0 - SetOf(keys[..i])
        invariant tags.keyToTags == index0 - SetOf(keys[..i])
      {
        assert keys[i] in keys;
        SetOfNext(keys, i);
        RemoveNext(store0, keys, i);
        RemoveNext(index0, keys, i);
        Delete(keys[i]);
        i := i + 1;
      }
      assert keys[..|keys|] == keys;
      assert SetOf(keys) == all;
    }
  }

  // ---- Whole histories -------------------------------------------------------------------------

  function CacheAfter(run: seq<TagEvent>): (c: CacheState) {
    if run == [] then CacheState({}, map[]) else CacheStep(CacheAfter(run[..|run| - 1]), run[|run| - 1])
  }

  /** The event leaves a standing tagging of k alone. */
  predicate Spares(ev: TagEvent, k: string, tags: seq<string>) {
    match ev
    case Put(k', tags') => k' != k || tags' == []
    case Delete(k') => k' != k
    case Drop(_) => true
    case Callback(k') => k' != k
    case Invalidate(t) => t !in tags
  }

  predicate Tags(ev: TagEvent, k: string) {
    ev.Put? && ev.key == k && ev.tags != []
  }

  /** Event i tagged k with these tags and nothing in between i and j took them away again:
      no new tagging, no removal, and no invalidation of one of the tags. */
  ghost predicate Stands(run: seq<TagEvent>, k: string, i: nat, j: nat)
    requires i < j <= |run|
  {
    Tags(run[i], k) && forall m :: i < m < j ==> Spares(run[m], k, run[i].tags)
  }

  /** The index knows a key exactly through its latest tagging that still stands. */
  lemma {:induction false} IndexIsLatestTagging(run: seq<TagEvent>, k: string)
    ensures k in CacheAfter(run).index <==> exists i :: 0 <= i < |run| && Stands(run, k, i, |run|)
    ensures forall i :: 0 <= i < |run| && Stands(run, k, i, |run|) ==>
      k in CacheAfter(run).index && CacheAfter(run).index[k] == run[i].tags
  {
    if run != [] {
      var last := |run| - 1;
      var before := run[..last];
      IndexIsLatestTagging(before, k);
      forall i | 0 <= i < last
        ensures Stands(run, k, i, |run|) <==> Stands(before, k, i, last) && Spares(run[last], k, run[i].tags)
      {
        StandsStep(run, k, i);
      }
      if k in CacheAfter(run).index {
        if Tags(run[last], k) {
          assert Stands(run, k, last, |run|);
        } else {
          var i :| 0 <= i < |before| && Stands(before, k, i, |before|);
          assert Stands(run, k, i, |run|);
        }
      }
    }
  }

  lemma StandsStep(run: seq<TagEvent>, k: string, i: nat)
    requires i < |run| - 1
    ensures var last := |run| - 1;
      Stands(run, k, i, |run|)
      <==> Stands(run[..last], k, i, last) && Tags(run[i], k) && Spares(run[last], k, run[i].tags)
  {
    var last := |run| - 1;
    assert forall m :: 0 <= m < last ==> run[..last][m] == run[m];
    if Stands(run[..last], k, i, last) && Tags(run[i], k) && Spares(run[last], k, run[i].tags) {
      forall m | i < m < |run|
        ensures Spares(run[m], k, run[i].tags)
      {
        if m < last {
          assert run[..last][m] == run[m];
        }
      }
    }
  }

  // ---- When a record's tags are the ones it was set with ---------------------------------------

  /** The event neither writes k nor takes its record out of the store. */
  predicate Leaves(c: CacheState, ev: TagEvent, k: string) {
    match ev
    case Put(k', _) => k' != k
    case Delete(k') => k' != k
    case Drop(k') => k' != k
    case Callback(_) => true
    case Invalidate(t) => k !in KeysOf(c.index, t)
  }

  /** The record of k in the store is the one that event i put there. */
  ghost predicate IsRecord(run: seq<TagEvent>, k: string, i: nat) {
    && i < |run| && run[i].Put? && run[i].key == k
    && forall m :: i < m < |run| ==> Leaves(CacheAfter(run[..m]), run[m], k)
  }

  function TagsOf(index: map<string, seq<string>>, k: string): (tags: seq<string>) {
    if k in index then index[k] else []
  }

  /** A callback for k came in after event i. */
  ghost predicate CalledBack(run: seq<TagEvent>, k: string, i: nat) {
    exists m :: i < m < |run| && run[m] == Callback(k)
  }

  lemma CalledBackSnoc(run: seq<TagEvent>, k: string, i: nat)
    requires i < |run| - 1
    ensures CalledBack(run, k, i) <==> CalledBack(run[..|run| - 1], k, i) || run[|run| - 1] == Callback(k)
  {
    var before := run[..|run| - 1];
    assert forall m :: 0 <= m < |before| ==> before[m] == run[m];
    if CalledBack(before, k, i) {
      var m :| i < m < |before| && before[m] == Callback(k);
      assert run[m] == Callback(k);
    }
  }

  lemma RecordBefore(run: seq<TagEvent>, k: string, i: nat)
    requires IsRecord(run, k, i) && i < |run| - 1
    ensures var before := run[..|run| - 1];
      && IsRecord(before, k, i) && before[i] == run[i] && before[..i] == run[..i]
      && Leaves(CacheAfter(before), run[|run| - 1], k)
  {
    var before := run[..|run| - 1];
    forall m | i < m < |before|
      ensures Leaves(CacheAfter(before[..m]), before[m], k)
    {
      assert before[..m] == run[..m] && before[m] == run[m];
    }
  }

  /** An event that leaves the record of k alone changes its tags only if it is a callback for k. */
  lemma LeavesTags(c: CacheState, ev: TagEvent, k: string)
    requires Leaves(c, ev, k)
    ensures k in c.store ==> k in CacheStep(c, ev).store
    ensures TagsOf(CacheStep(c, ev).index, k) == if ev == Callback(k) then [] else TagsOf(c.index, k)
  {
  }

  /** What the index says of a record: nothing after a callback, otherwise the tags it was set with or, if it was
      set with none, whatever the key was left with before. */
  lemma {:induction false} RecordTags(run: seq<TagEvent>, k: string, i: nat)
    requires IsRecord(run, k, i)
    ensures k in CacheAfter(run).store
    ensures TagsOf(CacheAfter(run).index, k)
         == if CalledBack(run, k, i) then []
            else if run[i].tags != [] then run[i].tags
            else TagsOf(CacheAfter(run[..i]).index, k)
  {
    var last := |run| - 1;
    if i < last {
      RecordBefore(run, k, i);
      RecordTags(run[..last], k, i);
      CalledBackSnoc(run, k, i);
      LeavesTags(CacheAfter(run[..last]), run[last], k);
    }
  }

  /** A record has in the index the tags it was set with exactly if, having some, no callback of an earlier record
      has come in since, and, having none, the key was left without tags before or a callback has come in since.
      So a record set without tags after a lazy expiry inherits the tags of the expired one, and a record set with
      tags between an eviction and its callback loses them. */
  lemma TagsAreOwnIff(run: seq<TagEvent>, k: string, i: nat)
    requires IsRecord(run, k, i)
    ensures TagsOf(CacheAfter(run).index, k) == run[i].tags
       <==> if run[i].tags != [] then !CalledBack(run, k, i)
            else k !in CacheAfter(run[..i]).index || CalledBack(run, k, i)
  {
    RecordTags(run, k, i);
    NoEmptyTags(run[..i], k);
  }

  lemma {:induction false} NoEmptyTags(run: seq<TagEvent>, k: string)
    ensures k in CacheAfter(run).index ==> CacheAfter(run).index[k] != []
  {
    if run != [] {
      NoEmptyTags(run[..|run| - 1], k);
    }
  }

  /** A key is in the store exactly if some Set put it there and nothing has taken that record away since. */
  lemma {:induction false} InStoreIff(run: seq<TagEvent>, k: string)
    ensures k in CacheAfter(run).store <==> exists i :: IsRecord(run, k, i)
  {
    if run != [] {
      var last := |run| - 1;
      var before := run[..last];
      InStoreIff(before, k);
      if run[last].Put? && run[last].key == k {
        assert IsRecord(run, k, last);
      } else if Leaves(CacheAfter(before), run[last], k) {
        if i: nat :| IsRecord(before, k, i) {
          RecordNext(run, k, i);
        }
        if i: nat :| IsRecord(run, k, i) {
          RecordBefore(run, k, i);
        }
        LeavesTags(CacheAfter(before), run[last], k);
      } else {
        forall i: nat
          ensures !IsRecord(run, k, i)
        {
          assert run[..last] == before;
        }
      }
    }
  }

  lemma RecordNext(run: seq<TagEvent>, k: string, i: nat)
    requires run != [] && IsRecord(run[..|run| - 1], k, i)
    requires Leaves(CacheAfter(run[..|run| - 1]), run[|run| - 1], k)
    ensures IsRecord(run, k, i)
  {
    var before := run[..|run| - 1];
    forall m | i < m < |run|
      ensures Leaves(CacheAfter(run[..m]), run[m], k)
    {
      if m < |before| {
        assert before[..m] == run[..m] && before[m] == run[m];
        assert Leaves(CacheAfter(before[..m]), before[m], k);
      }
    }
  }

  /** Invalidating a tag removes a record exactly if it was set with the tag and no callback for its key has come in
      since, or was set without tags and the key was left with the tag before. */
  lemma InvalidateRemovesIff(run: seq<TagEvent>, k: string, i: nat, t: string)
    requires IsRecord(run, k, i)
    ensures k !in CacheAfter(run + [Invalidate(t)]).store
       <==> !CalledBack(run, k, i)
            && t in if run[i].tags != [] then run[i].tags else TagsOf(CacheAfter(run[..i]).index, k)
  {
    var longer := run + [Invalidate(t)];
    assert longer[..|longer| - 1] == run;
    RecordTags(run, k, i);
  }

  /** The first case in full: tagged, lazily expired, set again without tags, and still hit by the old tag. */
  lemma LapsedTagsLinger(run: seq<TagEvent>, k: string, t: string)
    ensures var c := CacheAfter(run + [Drop(k), Put(k, []), Invalidate(t)]);
      k in c.store <==> t !in TagsOf(CacheAfter(run).index, k)
  {
    var a, b := run + [Drop(k)], run + [Drop(k), Put(k, [])];
    var d := run + [Drop(k), Put(k, []), Invalidate(t)];
    assert a[..|a| - 1] == run && b[..|b| - 1] == a && d[..|d| - 1] == b;
    assert CacheAfter(b).index == CacheAfter(run).index && k in CacheAfter(b).store;
  }
}
