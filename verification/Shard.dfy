/** One shard of the in-memory store: a map and a recency list that point into each other. */
module ShardStore {
  import opened Base
  import opened TtlMap
  import opened Recency

  /** A cache item. Only the pointer into the recency list changes after creation. */
  class Entry {
    const item: Item
    var element: Element?

    constructor (item: Item)
      ensures this.item == item && element == null
    {
      this.item := item;
      element := null;
    }
  }

  /** An element of the recency list. */
  class Element {
    const entry: Entry

    constructor (entry: Entry)
      ensures this.entry == entry
    {
      this.entry := entry;
    }
  }

  function Unlinked(ll: seq<Element>, el: Element): (r: seq<Element>) {
    if ll == [] then [] else if ll[0] == el then ll[1..] else [ll[0]] + Unlinked(ll[1..], el)
  }

  function Items(ll: seq<Element>): (o: Order) {
    seq(|ll|, i requires 0 <= i < |ll| => ll[i].entry.item)
  }

  /** A wrapper around `container/list`; the front is the most recently used. */
  class LRUList {
    var ll: seq<Element>

    constructor ()
      ensures ll == []
    {
      ll := [];
    }

    method PushFront(e: Entry) returns (el: Element)
      modifies this
      ensures fresh(el) && el.entry == e
      ensures ll == [el] + old(ll)
    {
      el := new Element(e);
      ll := [el] + ll;
    }

    method MoveToFront(el: Element)
      modifies this
      ensures ll == if el in old(ll) then [el] + Unlinked(old(ll), el) else old(ll)
    {
      if el in ll {
        ll := [el] + Unlinked(ll, el);
      }
    }

    method Remove(el: Element)
      modifies this
      ensures ll == Unlinked(old(ll), el)
    {
      ll := Unlinked(ll, el);
    }

    method RemoveOldest() returns (e: Entry?)
      modifies this
      ensures old(ll) == [] ==> e == null && ll == []
      ensures old(ll) != [] ==> e == old(ll)[|old(ll)| - 1].entry && ll == old(ll)[..|old(ll)| - 1]
    {
      if |ll| == 0 {
        return null;
      }
      e := ll[|ll| - 1].entry;
      ll := ll[..|ll| - 1];
    }
  }

  lemma {:induction false} UnlinkedItems(ll: seq<Element>, el: Element)
    requires Distinct(Items(ll)) && el in ll
    ensures Items(Unlinked(ll, el)) == Drop(Items(ll), {el.entry.item.key})
    ensures forall x :: x in Unlinked(ll, el) <==> x in ll && x.entry.item.key != el.entry.item.key
  {
    var i :| 0 <= i < |ll| && ll[i] == el;
    UnlinkedAt(ll, i);
    DropAt(Items(ll), i);
    assert Items(ll[..i] + ll[i + 1..]) == Items(ll)[..i] + Items(ll)[i + 1..];
    forall x | x in ll && x.entry.item.key != el.entry.item.key
      ensures x in ll[..i] + ll[i + 1..]
    {
      var j :| 0 <= j < |ll| && ll[j] == x;
      assert j < i ==> ll[..i][j] == x;
      assert j > i ==> ll[i + 1..][j - i - 1] == x;
    }
    forall x | x in ll[..i] + ll[i + 1..]
      ensures x in ll && x.entry.item.key != el.entry.item.key
    {
      var j :| 0 <= j < |ll| && j != i && ll[j] == x;
      assert Items(ll)[j].key != Items(ll)[i].key;
    }
  }

  lemma ItemsCons(el: Element, ll: seq<Element>)
    ensures Items([el] + ll) == [el.entry.item] + Items(ll)
  {
  }

  lemma ItemsPrefix(ll: seq<Element>, n: nat)
    requires n <= |ll|
    ensures Items(ll[..n]) == Items(ll)[..n]
  {
  }

  lemma UnlinkedAt(ll: seq<Element>, i: nat)
    requires Distinct(Items(ll)) && i < |ll|
    ensures Unlinked(ll, ll[i]) == ll[..i] + ll[i + 1..]
  {
    forall j | 0 <= j < i
      ensures ll[j] != ll[i]
    {
      assert Items(ll)[j].key != Items(ll)[i].key;
    }
    UnlinkedFirst(ll, i);
  }

  lemma {:induction false} UnlinkedFirst(ll: seq<Element>, i: nat)
    requires i < |ll|
    requires forall j :: 0 <= j < i ==> ll[j] != ll[i]
    ensures Unlinked(ll, ll[i]) == ll[..i] + ll[i + 1..]
  {
    var tail := ll[1..];
    if i > 0 {
      forall j | 0 <= j < i - 1
        ensures tail[j] != tail[i - 1]
      {
        assert tail[j] == ll[j + 1] && tail[i - 1] == ll[i];
      }
      UnlinkedFirst(tail, i - 1);
      WithoutAt(ll, i);
    } else {
      assert ll[..0] + ll[1..] == tail;
    }
  }

  class Shard {
    var items: map<string, Entry>
    const lru: LRUList
    var Size: int
    const MaxSize: int
    ghost var repr: set<object>

    /** The contents, most recently used first. */
    ghost function View(): Order
      reads this, lru
    {
      Items(lru.ll)
    }

    /** Map and list hold the same entries, each pointing at the other, and Size is their total. */
    ghost predicate Linked()
      reads this, repr
    {
      && this in repr && lru in repr
      && (forall el :: el in lru.ll ==>
            && el.entry in repr && el.entry.element == el
            && el.entry.item.key in items && items[el.entry.item.key] == el.entry)
      && (forall k :: k in items ==>
            && items[k] in repr && items[k].item.key == k
            && items[k].element != null && items[k].element in lru.ll && items[k].element.entry == items[k])
    }

    ghost predicate Valid()
      reads this, repr
    {
      Linked() && WellFormed(View()) && Size == Total(View())
    }

    constructor (maxSize: int)
      ensures Valid() && fresh(repr) && View() == [] && MaxSize == maxSize
    {
      items := map[];
      lru := new LRUList();
      Size := 0;
      MaxSize := maxSize;
      new;
      repr := {this, lru};
    }

    lemma Find(k: string)
      requires Valid()
      ensures k in items <==> Has(View(), k)
      ensures k in items ==> items[k].item == ItemOf(View(), k)
    {
      if k in items {
        var i :| 0 <= i < |lru.ll| && lru.ll[i] == items[k].element;
        assert View()[i] == items[k].item;
        ItemOfUnique(View(), View()[i]);
      }
      if Has(View(), k) {
        assert lru.ll[IndexOf(View(), k)] in lru.ll;
      }
    }

    method removeLocked(key: string, e: Entry)
      requires Valid() && key in items && items[key] == e
      modifies this, lru
      ensures Valid() && repr == old(repr) && items == old(items) - {key}
      ensures View() == Drop(old(View()), {key})
    {
      unlink(e);
      Size := Size - e.item.size;
      items := items - {key};
    }

    /** The list side of a removal. */
    method unlink(e: Entry)
      requires Valid() && e.item.key in items && items[e.item.key] == e
      modifies lru
      ensures View() == Drop(old(View()), {e.item.key})
      ensures WellFormed(View()) && Total(View()) == old(Total(View())) - e.item.size
      ensures forall el :: el in lru.ll <==> el in old(lru.ll) && el.entry.item.key != e.item.key
    {
      ghost var ll, el0 := lru.ll, e.element;
      ghost var i := IndexOfElement(ll, el0);
      DropOne(View(), i);
      lru.Remove(e.element);
      UnlinkedItems(ll, el0);
    }

    /** One turn of the eviction loop: the back of the list goes, with its map entry and its bytes. */
    method evictOldest()
      requires Valid() && lru.ll != []
      modifies this, lru
      ensures Valid() && repr == old(repr)
      ensures View() == old(View())[..|old(View())| - 1]
    {
      ghost var ll, o := lru.ll, View();
      ghost var rest := o[..|o| - 1];
      LastOut(o);
      EvictLinked();
      var oldest := lru.RemoveOldest();
      ItemsPrefix(ll, |ll| - 1);
      assert View() == rest;
      if oldest != null {
        Size := Size - oldest.item.size;
        items := items - {oldest.item.key};
      }
      assert forall el :: el in lru.ll ==> el in ll && el.entry.item.key != oldest.item.key;
      assert View() == rest && Size == Total(rest) && Linked();
    }

    method evictLocked()
      requires Valid()
      modifies this, lru
      ensures Valid() && repr == old(repr)
      ensures View() == Evicted(old(View()), MaxSize)
    {
      if MaxSize <= 0 {
        return;
      }
      while Size > MaxSize && |lru.ll| > 0
        invariant Valid() && repr == old(repr)
        invariant Evicted(View(), MaxSize) == Evicted(old(View()), MaxSize)
        decreases |View()|
      {
        evictOldest();
      }
    }

    /** The back of the list is the only element with its key. */
    lemma EvictLinked()
      requires Valid() && |lru.ll| > 0
      ensures var last := lru.ll[|lru.ll| - 1];
        forall el :: el in lru.ll[..|lru.ll| - 1] <==> el in lru.ll && el.entry.item.key != last.entry.item.key
    {
      var n := |lru.ll| - 1;
      UnlinkedItems(lru.ll, lru.ll[n]);
      UnlinkedAt(lru.ll, n);
      assert lru.ll[..n] + lru.ll[n + 1..] == lru.ll[..n];
    }

    /** Push a new entry and record it in the map. */
    method insert(item: Item)
      requires Valid() && item.key !in items
      requires item.size == EstimateSize(item.key, item.rec.value)
      modifies this, lru
      ensures Valid() && fresh(repr - old(repr))
      ensures View() == [item] + old(View())
    {
      Find(item.key);
      ghost var ll, o := lru.ll, View();
      Newcomer(o, item);
      var e := new Entry(item);
      var el := lru.PushFront(e);
      e.element := el;
      items := items[item.key := e];
      Size := Size + item.size;
      repr := repr + {e};
      ItemsCons(el, ll);
      ghost var longer := [item] + o;
      assert View() == longer && Size == Total(longer) && Linked();
    }

    method Get(c: Codec, key: string, now: Time) returns (val: Option<Bytes>)
      requires Valid()
      modifies this, lru
      ensures Valid() && repr == old(repr)
      ensures View() == Step(c, old(View()), MaxSize, TtlMap.Get(key), now)
      ensures Value(val) == Answer(c, old(View()), TtlMap.Get(key), now)
    {
      Find(key);
      if key !in items {
        return None;
      }
      var e := items[key];
      if Expired(e.item.rec, now) {
        removeLocked(key, e);
        return None;
      }
      promote(e);
      val := Some(e.item.rec.value);
    }

    method promote(e: Entry)
      requires Valid() && e.item.key in items && items[e.item.key] == e
      modifies lru
      ensures Valid() && repr == old(repr)
      ensures View() == Front(old(View()), e.item)
    {
      ghost var ll, el0, o := lru.ll, e.element, View();
      ghost var front := Front(o, e.item);
      Find(e.item.key);
      FrontWellFormed(o, e.item);
      DropOneShrinks(o, IndexOf(o, e.item.key));
      lru.MoveToFront(e.element);
      UnlinkedItems(ll, el0);
      assert lru.ll == [el0] + Unlinked(ll, el0);
      assert View() == front;
      assert forall el :: el in lru.ll <==> el in ll;
      assert View() == front && Size == Total(front) && Linked();
    }

    method Set(c: Codec, key: string, value: Bytes, ttl: Time, now: Time)
      requires Valid()
      modifies this, lru
      ensures Valid() && fresh(repr - old(repr))
      ensures View() == Step(c, old(View()), MaxSize, TtlMap.Set(key, value, ttl), now)
    {
      var expiresAt := if ttl > 0 then Some(now + ttl) else None;
      var sz := EstimateSize(key, value);
      replace(Item(key, Rec(value, expiresAt), sz));
    }

    /** The common end of Set and Incr: the old entry goes, the new one is the most recent, the budget is restored. */
    method replace(item: Item)
      requires Valid()
      requires item.size == EstimateSize(item.key, item.rec.value)
      modifies this, lru
      ensures Valid() && fresh(repr - old(repr))
      ensures View() == Evicted(Front(old(View()), item), MaxSize)
    {
      discard(item.key);
      insert(item);
      evictLocked();
    }

    /** Take the entry of this key, if any, out of list, map and byte count. */
    method discard(key: string)
      requires Valid()
      modifies this, lru
      ensures Valid() && repr == old(repr) && key !in items
      ensures View() == Drop(old(View()), {key})
    {
      if key in items {
        removeLocked(key, items[key]);
      } else {
        AbsentDrop(key);
      }
    }

    lemma AbsentDrop(key: string)
      requires Valid() && key !in items
      ensures Drop(View(), {key}) == View()
    {
      Find(key);
      HasIff(View(), key);
      DropAbsent(View(), {key});
    }

    method Delete(c: Codec, key: string, now: Time) returns (ok: bool)
      requires Valid()
      modifies this, lru
      ensures Valid() && repr == old(repr)
      ensures View() == Step(c, old(View()), MaxSize, TtlMap.Delete(key), now)
      ensures Flag(ok) == Answer(c, old(View()), TtlMap.Delete(key), now)
    {
      Find(key);
      ok := key in items;
      if ok {
        removeLocked(key, items[key]);
      } else {
        AbsentDrop(key);
      }
    }

    /** The second critical section of Exists and TTL: check again, then drop. */
    method reapLocked(c: Codec, key: string, now: Time)
      requires Valid()
      modifies this, lru
      ensures Valid() && repr == old(repr)
      ensures View() == Step(c, old(View()), MaxSize, Reap(key), now)
    {
      Find(key);
      if key in items && Expired(items[key].item.rec, now) {
        removeLocked(key, items[key]);
      }
    }

    method Exists(c: Codec, key: string, now: Time) returns (ok: bool)
      requires Valid()
      modifies this, lru
      ensures Valid() && repr == old(repr)
      ensures View() == Step(c, old(View()), MaxSize, TtlMap.Exists(key), now)
      ensures Flag(ok) == Answer(c, old(View()), TtlMap.Exists(key), now)
    {
      Find(key);
      ok := key in items;
      if ok && Expired(items[key].item.rec, now) {
        reapLocked(c, key, now);
        ok := false;
      }
    }

    method TTL(c: Codec, key: string, now: Time) returns (left: Time)
      requires Valid()
      modifies this, lru
      ensures Valid() && repr == old(repr)
      ensures View() == Step(c, old(View()), MaxSize, TtlMap.TTL(key), now)
      ensures Remaining(left) == Answer(c, old(View()), TtlMap.TTL(key), now)
    {
      Find(key);
      if key !in items {
        return 0;
      }
      var e := items[key];
      if Expired(e.item.rec, now) {
        reapLocked(c, key, now);
        return 0;
      }
      left := EntryTTL(e.item.rec, now);
    }

    /** The first half of Incr: the record to store and the value to answer, or nothing if the old bytes do not
        decode. */
    method planIncr(c: Codec, key: string, delta: int, defaultTTL: Time, now: Time) returns (plan: Option<(Rec, int)>)
      requires Valid()
      ensures plan == IncrRec(c, LiveIn(View(), key, now), delta, defaultTTL, now)
    {
      Find(key);
      var current := 0;
      var ttl := defaultTTL;
      if key in items && !Expired(items[key].item.rec, now) {
        var rec := items[key].item.rec;
        var decoded := c.dec(rec.value);
        if decoded.None? {
          return None;
        }
        current := decoded.value;
        ttl := 0;
        if rec.deadline.Some? {
          var remaining := rec.deadline.value - now;
          if remaining > 0 {
            ttl := remaining;
          }
        }
      }
      current := Wrap64(current + delta);
      var expiresAt := if ttl > 0 then Some(now + ttl) else None;
      plan := Some((Rec(c.enc(current), expiresAt), current));
    }

    method Incr(c: Codec, key: string, delta: int, defaultTTL: Time, now: Time) returns (res: Option<int>)
      requires Valid()
      modifies this, lru
      ensures Valid() && fresh(repr - old(repr))
      ensures View() == Step(c, old(View()), MaxSize, TtlMap.Incr(key, delta, defaultTTL), now)
      ensures (if res.Some? then Counter(res.value) else Failed)
           == Answer(c, old(View()), TtlMap.Incr(key, delta, defaultTTL), now)
    {
      var plan := planIncr(c, key, delta, defaultTTL, now);
      if plan.None? {
        return None;
      }
      var rec := plan.value.0;
      replace(Item(key, rec, EstimateSize(key, rec.value)));
      res := Some(plan.value.1);
    }

    /** The sweeper's turn on this shard. */
    method DeleteExpired(c: Codec, now: Time) returns (count: nat)
      requires Valid()
      modifies this, lru
      ensures Valid() && repr == old(repr)
      ensures View() == Step(c, old(View()), MaxSize, Sweep, now)
      ensures Swept(count) == Answer(c, old(View()), Sweep, now)
      ensures count == |DeadKeys(old(View()), now)|
    {
      DeadEntries(now);
      count := sweepAll(now, DeadKeys(View(), now));
    }

    /** Where a sweep stands: these keys are gone. */
    ghost predicate Sweeping(o: Order, all: map<string, Entry>, gone: set<string>)
      reads this, lru
    {
      View() == Drop(o, gone) && items == all - gone
    }

    /** These are the keys of the expired entries. */
    static ghost predicate AreDead(all: map<string, Entry>, dead: set<string>, now: Time) {
      forall k :: k in dead <==> k in all && Expired(all[k].item.rec, now)
    }

    /** The items in any order, the expired ones removed and counted. */
    method sweepAll(now: Time, ghost dead: set<string>) returns (count: nat)
      requires Valid() && AreDead(items, dead, now)
      modifies this, lru
      ensures Valid() && repr == old(repr)
      ensures View() == Drop(old(View()), dead) && count == |dead|
    {
      ghost var o, all := View(), items;
      ghost var gone: set<string> := {};
      count := 0;
      var rest := items.Keys;
      DropAbsent(o, {});
      HalfwayStart(dead, rest);
      while rest != {}
        invariant Valid() && repr == old(repr)
        invariant rest <= all.Keys && Halfway(dead, gone, rest, count)
        invariant Sweeping(o, all, gone)
        decreases rest
      {
        var key :| key in rest;
        HalfwayNext(dead, gone, rest, count, key);
        var hit := sweepOne(key, now, o, all, dead, gone);
        rest := rest - {key};
        if hit {
          gone := gone + {key};
          count := count + 1;
        }
      }
      HalfwayDone(dead, gone, count);
    }

    method sweepOne(key: string, now: Time, ghost o: Order, ghost all: map<string, Entry>,
                    ghost dead: set<string>, ghost gone: set<string>) returns (hit: bool)
      requires Valid() && Sweeping(o, all, gone) && AreDead(all, dead, now) && key in all && key !in gone
      modifies this, lru
      ensures Valid() && repr == old(repr)
      ensures hit <==> key in dead
      ensures Sweeping(o, all, if hit then gone + {key} else gone)
    {
      MapStep(all, gone, key);
      DropDrop(o, gone, {key});
      hit := Expired(items[key].item.rec, now);
      if hit {
        removeLocked(key, items[key]);
      }
    }

    lemma SameKeys()
      requires Valid()
      ensures items.Keys == Keys(View())
    {
      forall k
        ensures k in items <==> k in Keys(View())
      {
        Find(k);
        HasIff(View(), k);
      }
    }

    lemma DeadEntries(now: Time)
      requires Valid()
      ensures forall k :: k in DeadKeys(View(), now) <==> k in items && Expired(items[k].item.rec, now)
    {
      forall k
        ensures k in DeadKeys(View(), now) <==> k in items && Expired(items[k].item.rec, now)
      {
        Find(k);
        if k in DeadKeys(View(), now) {
          var x :| x in View() && Expired(x.rec, now) && x.key == k;
          ItemOfUnique(View(), x);
        }
      }
    }

    method Len() returns (n: nat)
      requires Valid()
      ensures n == |View()|
    {
      SameKeys();
      CountKeys(View());
      n := |items.Keys|;
    }
  }

  /** `Entry.TTL`: -1 without expiry, never negative otherwise. */
  function EntryTTL(r: Rec, now: Time): Time {
    if r.deadline.None? then -1
    else
      var remaining := r.deadline.value - now;
      if remaining < 0 then 0 else remaining
  }

  lemma MapStep<V>(all: map<string, V>, gone: set<string>, key: string)
    ensures (all - gone) - {key} == all - (gone + {key})
  {
  }

  ghost function IndexOfElement(ll: seq<Element>, el: Element): (i: nat)
    requires el in ll
    ensures i < |ll| && ll[i] == el
  {
    if ll[0] == el then 0 else 1 + IndexOfElement(ll[1..], el)
  }
}
