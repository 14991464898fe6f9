/** The registry functions of pthread_bridge.c over linked objects, as their caller runs them under the lock. */
module RegistryHeap {
  import opened Wrappers
  import opened Registry
  import opened RegistryRuns

  class BridgeObject {
    const raw: handle32
    const kind: Kind
    const owner: nat
    var active: bool
    var activeNext: BridgeObject?
    var retiredNext: BridgeObject?
    ghost var stamp: nat

    constructor (raw: handle32, kind: Kind, owner: nat)
      ensures this.raw == raw && this.kind == kind && this.owner == owner && active
      ensures activeNext == null && retiredNext == null
    {
      this.raw, this.kind, this.owner := raw, kind, owner;
      active, activeNext, retiredNext, stamp := true, null, null, 0;
    }

    ghost function AsNode(): Node
      reads `active, `activeNext, `stamp
    {
      Node(kind, owner, active, Link(activeNext), stamp)
    }
  }

  function Link(item: BridgeObject?): Option<handle32> {
    if item == null then None else Some(item.raw)
  }

  function Nth(s: seq<handle32>, i: nat): Option<handle32> {
    if i < |s| then Some(s[i]) else None
  }

  class Table {
    const buckets: array<BridgeObject?>
    var retiredObjects: BridgeObject?
    /** The guest's own words, by address. */
    var slots: map<nat, handle32>
    ghost var objects: map<handle32, BridgeObject>
    ghost var all: set<BridgeObject>
    ghost var retired: seq<handle32>
    ghost var linked: set<handle32>
    ghost var clock: nat

    ghost predicate Known(item: BridgeObject?)
      reads `objects, `all
    {
      item != null ==> item in all && item.raw in objects && objects[item.raw] == item
    }

    ghost predicate Shape()
      reads this, buckets, all
    {
      && buckets.Length == BUCKETS
      && (forall h :: h in objects ==> objects[h] in all && objects[h].raw == h && Known(objects[h].activeNext))
      && (forall b :: 0 <= b < BUCKETS ==> Known(buckets[b]))
    }

    /** The memory of the interleaved model. */
    ghost function View(): (m: Memory)
      requires Shape()
      reads this, buckets, all
      ensures |m.heads| == BUCKETS && m.nodes.Keys == objects.Keys
    {
      Memory(map h | h in objects :: objects[h].AsNode(),
             seq(BUCKETS, b requires 0 <= b < BUCKETS reads this, buckets => Link(buckets[b])),
             slots, retired, linked, clock)
    }

    /** The retired list holds nodes that have been unlinked, youngest retirement first. */
    ghost predicate RetiredLinked()
      reads this, all
    {
      && Link(retiredObjects) == Nth(retired, 0)
      && (forall i :: 0 <= i < |retired| ==>
            && retired[i] in objects && retired[i] !in linked && objects[retired[i]] in all
            && Link(objects[retired[i]].retiredNext) == Nth(retired, i + 1))
    }

    ghost predicate Valid()
      reads this, buckets, all
    {
      Shape() && Reachable(View()) && RetiredLinked()
    }

    /** The link to the object is the next field of this node, or the bucket head. */
    ghost predicate IsLink(item: BridgeObject, previous: BridgeObject?)
      requires Shape()
      reads this, buckets, all
    {
      Known(previous) && LeadsTo(View(), Link(previous), item.raw)
    }

    /** registry_find, for a caller that no one interrupts. */
    method Find(q: Query) returns (found: BridgeObject?)
      requires Valid()
      ensures Link(found) == LookUp(View(), q)
      ensures Known(found)
    {
      hide Bucket, Reaches, LinkSound, Live, KeepsOlder, HeadsYoungest, Sound;
      LinkedKnown(View());
      if q.handle == 0 {
        return null;
      }
      var item := buckets[Bucket(q.handle)];
      if LookUp(View(), q).Some? {
        HeadReaches(View(), q.handle);
      }
      while item != null
        invariant Known(item)
        invariant LookUp(View(), q).Some? ==> item != null && Reaches(View(), item.raw, q.handle)
        decreases item != null, if item != null then item.stamp else 0
      {
        if item.raw == q.handle && item.owner == q.owner && item.kind == q.kind && item.active {
          return item;
        }
        ReachesNext(View(), item.raw, q.handle);
        item := item.activeNext;
      }
      found := null;
    }

    lemma HeadOfBucket(b: nat)
      requires Shape() && b < BUCKETS
      ensures buckets.Length == BUCKETS && Known(buckets[b]) && View().heads[b] == Link(buckets[b])
    {
    }

    /** What publishing the object has changed. */
    twostate predicate JustPublished(new item: BridgeObject, b: nat)
      reads *
    {
      && b == Bucket(item.raw) && b < BUCKETS && item !in old(all) && item.raw !in old(objects)
      && objects == old(objects)[item.raw := item] && all == old(all) + {item}
      && (forall h :: h in old(objects) ==> unchanged(objects[h]))
      && buckets.Length == BUCKETS && buckets[b] == item
      && (forall c :: 0 <= c < BUCKETS && c != b ==> buckets[c] == old(buckets[c]))
      && item.activeNext == old(buckets[b]) && item.active && item.stamp == old(clock)
      && retired == old(retired) && retiredObjects == old(retiredObjects)
      && linked == old(linked) + {item.raw} && clock == old(clock) + 1
      && slots == old(slots)[item.owner := item.raw]
    }

    twostate lemma Published(new item: BridgeObject, new b: nat)
      requires old(Shape()) && JustPublished(item, b)
      ensures Shape()
      ensures View() == StoreSlot(StoreHead(old(View()), item.raw, item.AsNode()), item.owner, item.raw)
    {
      hide Bucket, BridgeObject.AsNode;
      assert old(Known(buckets[b]));
      forall h | h in objects
        ensures objects[h] in all && objects[h].raw == h && Known(objects[h].activeNext)
      {
        if h != item.raw {
          assert old(Known(objects[h].activeNext));
        }
      }
      forall c | 0 <= c < BUCKETS
        ensures Known(buckets[c])
      {
        if c != b {
          assert old(Known(buckets[c]));
        }
      }
      assert View().nodes == old(View()).nodes[item.raw := item.AsNode()];
      assert View().heads == old(View()).heads[b := Some(item.raw)];
    }

    twostate lemma RetiredKept()
      requires old(RetiredLinked()) && retired == old(retired) && retiredObjects == old(retiredObjects)
      requires old(all) <= all
      requires forall h :: h in old(objects) && h !in old(linked) ==> h in objects && objects[h] == old(objects[h]) && h !in linked
      requires forall h :: h in old(objects) ==> old(objects)[h].retiredNext == old(objects[h].retiredNext)
      ensures RetiredLinked()
    {
      forall i | 0 <= i < |retired|
        ensures retired[i] in objects && retired[i] !in linked && objects[retired[i]] in all
        ensures Link(objects[retired[i]].retiredNext) == Nth(retired, i + 1)
      {
        assert retired[i] in old(objects);
      }
    }

    lemma ShapeGives()
      requires Shape()
      ensures buckets.Length == BUCKETS && forall h :: h in objects ==> objects[h] in all && objects[h].raw == h
      ensures View().clock == clock && View().linked == linked && View().slots == slots && View().retired == retired
      ensures forall h :: h in objects ==> h in View().nodes && View().nodes[h] == objects[h].AsNode()
    {
    }

    /** object_allocate_locked and object_publish_locked: three stores of the writer in a row. */
    method StorePublished(item: BridgeObject)
      requires buckets.Length == BUCKETS && item.raw !in objects && item !in all && item.active
      requires forall h :: h in objects ==> objects[h] in all
      modifies `slots, `objects, `all, `linked, `clock, buckets, item`activeNext, item`stamp
      ensures JustPublished(item, Bucket(item.raw))
    {
      hide Bucket;
      var b := Bucket(item.raw);
      item.activeNext := buckets[b];
      item.stamp := clock;
      buckets[b] := item;
      objects, all := objects[item.raw := item], all + {item};
      linked, clock := linked + {item.raw}, clock + 1;
      slots := slots[item.owner := item.raw];
    }

    method Publish(item: BridgeObject)
      requires Valid() && item.raw != 0 && item.raw !in objects && item !in all && item.active
      modifies `slots, `objects, `all, `linked, `clock, buckets, item`activeNext, item`stamp
      ensures Valid() && objects == old(objects)[item.raw := item]
      ensures var before := old(View());
              var node := Node(item.kind, item.owner, true, before.heads[Bucket(item.raw)], before.clock);
              View() == StoreSlot(StoreHead(before, item.raw, node), item.owner, item.raw)
    {
      hide Bucket, Reachable, Table.Shape, Table.View, Table.RetiredLinked, StoreHead, StoreSlot;
      ghost var before := View();
      ShapeGives();
      ghost var b := Bucket(item.raw);
      HeadOfBucket(b);
      ghost var node := Node(item.kind, item.owner, true, before.heads[b], before.clock);
      StorePublished(item);
      assert item.AsNode() == node;
      Published(item, b);
      RetiredKept();
      StoreHeadKeeps(before, item.raw, node);
      SlotKeeps(StoreHead(before, item.raw, node), item.owner, item.raw);
    }

    twostate lemma Deactivated(item: BridgeObject)
      requires old(Shape()) && old(Known(item)) && !item.active
      requires objects == old(objects) && all == old(all) && linked == old(linked) && clock == old(clock)
      requires retired == old(retired) && slots == old(slots)
      requires forall h :: h in objects && objects[h] != item ==> unchanged(objects[h])
      requires item.activeNext == old(item.activeNext) && item.stamp == old(item.stamp)
      requires forall c :: 0 <= c < BUCKETS ==> buckets[c] == old(buckets[c])
      ensures Shape() && View() == Deactivate(old(View()), item.raw)
    {
      hide Bucket;
      forall h | h in objects
        ensures objects[h] in all && objects[h].raw == h && Known(objects[h].activeNext)
      {
        assert old(Known(objects[h].activeNext));
      }
      forall c | 0 <= c < BUCKETS
        ensures Known(buckets[c])
      {
        assert old(Known(buckets[c]));
      }
      assert View().nodes == Deactivate(old(View()), item.raw).nodes;
      assert View().heads == old(View()).heads;
    }

    /** The first two stores of object_retire_locked. */
    method MarkInactive(item: BridgeObject)
      requires Valid() && Known(item) && item.active
      modifies `slots, item`active
      ensures Valid() && Known(item) && item.raw in linked && !View().nodes[item.raw].active
      ensures View() == StoreSlot(Deactivate(old(View()), item.raw), item.owner, 0)
    {
      hide Bucket, Reachable, Table.Shape, Table.View, Table.RetiredLinked;
      ghost var before := View();
      ShapeGives();
      ActiveIsLinked(before, item.raw);
      item.active := false;
      Deactivated(item);
      RetiredKept();
      DeactivateKeeps(before, item.raw);
      label Marked:
      slots := slots[item.owner := 0];
      SlotStored@Marked();
      RetiredKept@Marked();
      SlotKeeps(Deactivate(before, item.raw), item.owner, 0);
      ShapeGives();
    }

    twostate lemma SlotStored()
      requires old(Shape()) && objects == old(objects) && all == old(all) && linked == old(linked) && clock == old(clock)
      requires retired == old(retired)
      requires forall h :: h in objects ==> unchanged(objects[h])
      requires forall c :: 0 <= c < BUCKETS ==> buckets[c] == old(buckets[c])
      ensures Shape() && View() == old(View()).(slots := slots)
    {
      hide Bucket;
      forall h | h in objects
        ensures objects[h] in all && objects[h].raw == h && Known(objects[h].activeNext)
      {
        assert old(Known(objects[h].activeNext));
      }
      forall c | 0 <= c < BUCKETS
        ensures Known(buckets[c])
      {
        assert old(Known(buckets[c]));
      }
      assert View().nodes == old(View()).nodes;
      assert View().heads == old(View()).heads;
    }

    lemma ActiveIsLinked(m: Memory, h: handle32)
      requires Reachable(m) && h in m.nodes && m.nodes[h].active
      ensures h in m.linked
    {
      hide Bucket, LinkSound, KeepsOlder, HeadsYoungest;
    }

    /** The search of object_retire_locked: the node whose next field is the link, or null for the bucket head. */
    method FindLink(item: BridgeObject) returns (previous: BridgeObject?)
      requires Valid() && Known(item) && item.raw in linked
      ensures IsLink(item, previous)
    {
      hide Bucket, Reaches, LinkSound, Live, KeepsOlder, HeadsYoungest, Sound;
      LinkedKnown(View());
      HeadReaches(View(), item.raw);
      HeadLive(View(), item.raw);
      previous := null;
      var current := buckets[Bucket(item.raw)];
      while current != null && current != item
        invariant Known(current) && Known(previous)
        invariant current != null && current.raw in linked && Reaches(View(), current.raw, item.raw)
        invariant previous == null ==> current == buckets[Bucket(item.raw)]
        invariant previous != null ==> previous.raw in linked && previous.activeNext == current
        decreases current.stamp
      {
        ReachesNext(View(), current.raw, item.raw);
        NextLive(View(), current.raw);
        previous := current;
        current := current.activeNext;
      }
    }

    lemma NextLive(m: Memory, h: handle32)
      requires Reachable(m) && h in m.linked
      ensures h in m.nodes && (m.nodes[h].next.Some? ==> m.nodes[h].next.value in m.linked)
    {
      hide Bucket, Reaches, LinkSound, Live, KeepsOlder;
      LiveMeans(m, m.nodes[h].next);
    }

    twostate lemma Bypassed(item: BridgeObject, new previous: BridgeObject?)
      requires old(Shape()) && old(Known(item)) && Known(previous) && previous != item
      requires LeadsTo(old(View()), Link(previous), item.raw)
      requires objects == old(objects) && all == old(all) && linked == old(linked) - {item.raw} && clock == old(clock)
      requires retired == old(retired) && slots == old(slots)
      requires forall h :: h in objects && objects[h] != previous ==> unchanged(objects[h])
      requires previous != null ==> previous.activeNext == old(item.activeNext)
                                    && previous.active == old(previous.active) && previous.stamp == old(previous.stamp)
      requires forall c :: 0 <= c < BUCKETS && (previous != null || c != Bucket(item.raw)) ==> buckets[c] == old(buckets[c])
      requires previous == null ==> buckets[Bucket(item.raw)] == old(item.activeNext)
      ensures Shape() && View() == Unlink(old(View()), Link(previous), item.raw)
    {
      hide Bucket;
      forall h | h in objects
        ensures objects[h] in all && objects[h].raw == h && Known(objects[h].activeNext)
      {
        assert old(Known(objects[h].activeNext)) && old(Known(item.activeNext));
      }
      forall c | 0 <= c < BUCKETS
        ensures Known(buckets[c])
      {
        assert old(Known(buckets[c])) && old(Known(item.activeNext));
      }
      assert View().nodes == Unlink(old(View()), Link(previous), item.raw).nodes;
      assert View().heads == Unlink(old(View()), Link(previous), item.raw).heads;
    }

    /** Storing the link past the object. */
    method StoreLink(item: BridgeObject, previous: BridgeObject?)
      requires Valid() && Known(item) && item.raw in linked && !item.active && previous != item && IsLink(item, previous)
      modifies `linked, buckets, (if previous == null then {} else {previous})`activeNext
      ensures Valid() && Known(item) && linked == old(linked) - {item.raw}
      ensures Bypasses(old(View()), View(), item.raw, Link(previous))
      ensures item.activeNext == old(item.activeNext)
    {
      hide Bucket, Reachable, Table.Shape, Table.View, Table.RetiredLinked;
      ghost var before := View();
      ShapeGives();
      if previous == null {
        buckets[Bucket(item.raw)] := item.activeNext;
      } else {
        previous.activeNext := item.activeNext;
      }
      linked := linked - {item.raw};
      Bypassed(item, previous);
      RetiredKept();
      UnlinkKeeps(before, Link(previous), item.raw);
    }

    /** Pushing the object on the retired list; its own next field is left for readers that still hold it. */
    method Discard(item: BridgeObject)
      requires Valid() && Known(item) && item.raw !in linked && item.raw !in retired
      modifies `retiredObjects, `retired, item`retiredNext
      ensures Valid() && View() == PushRetired(old(View()), item.raw)
    {
      hide Bucket, Reachable, Table.Shape, Table.View, Table.RetiredLinked;
      ghost var before := View();
      ShapeGives();
      item.retiredNext := retiredObjects;
      retiredObjects := item;
      retired := [item.raw] + retired;
      Discarded();
      RetiredPushed(item);
      PushKeeps(before, item.raw);
    }

    twostate lemma RetiredPushed(item: BridgeObject)
      requires old(RetiredLinked()) && objects == old(objects) && all == old(all) && linked == old(linked)
      requires item.raw in objects && objects[item.raw] == item && item in all && item.raw !in linked && item.raw !in old(retired)
      requires forall h :: h in objects && objects[h] != item ==> objects[h].retiredNext == old(objects[h].retiredNext)
      requires item.retiredNext == old(retiredObjects) && retiredObjects == item && retired == [item.raw] + old(retired)
      requires forall h :: h in objects ==> objects[h].raw == h
      ensures RetiredLinked()
    {
      forall i | 0 <= i < |retired|
        ensures retired[i] in objects && retired[i] !in linked && objects[retired[i]] in all
        ensures Link(objects[retired[i]].retiredNext) == Nth(retired, i + 1)
      {
        if i > 0 {
          assert retired[i] == old(retired)[i - 1];
        }
      }
    }

    twostate lemma Discarded()
      requires old(Shape()) && objects == old(objects) && all == old(all) && linked == old(linked) && clock == old(clock)
      requires slots == old(slots)
      requires forall h :: h in objects ==> objects[h].activeNext == old(objects[h].activeNext)
                                            && objects[h].active == old(objects[h].active) && objects[h].stamp == old(objects[h].stamp)
      requires forall c :: 0 <= c < BUCKETS ==> buckets[c] == old(buckets[c])
      ensures Shape() && View() == old(View()).(retired := retired)
    {
      hide Bucket;
      forall h | h in objects
        ensures objects[h] in all && objects[h].raw == h && Known(objects[h].activeNext)
      {
        assert old(Known(objects[h].activeNext));
      }
      forall c | 0 <= c < BUCKETS
        ensures Known(buckets[c])
      {
        assert old(Known(buckets[c]));
      }
      assert View().nodes == old(View()).nodes;
      assert View().heads == old(View()).heads;
    }

    /** object_retire_locked: the writer's four stores in a row, through some link that led to the object. */
    method Retire(item: BridgeObject)
      requires Valid() && Known(item) && item.active && item.raw !in retired
      modifies this, buckets, all
      ensures Valid() && objects == old(objects)
      ensures exists from :: Retires(old(View()), View(), item.raw, item.owner, from)
    {
      hide Bucket, Reachable, Table.Shape, Table.View, Table.RetiredLinked, LeadsTo;
      ghost var before := View();
      MarkInactive(item);
      ghost var cleared := View();
      var previous := FindLink(item);
      LinkNotSelf(item, previous);
      StoreLink(item, previous);
      Discard(item);
      assert Retires(before, View(), item.raw, item.owner, Link(previous));
    }

    lemma LinkNotSelf(item: BridgeObject, previous: BridgeObject?)
      requires Valid() && Known(item) && item.raw in linked && IsLink(item, previous)
      ensures previous != item && item.active == View().nodes[item.raw].active
    {
      hide Bucket, Reaches, LinkSound, Live, KeepsOlder, HeadsYoungest;
      NextNotSelf(View(), item.raw);
    }
  }

  ghost predicate Bypasses(before: Memory, after: Memory, h: handle32, from: Option<handle32>) {
    |before.heads| == BUCKETS && h in before.nodes && LeadsTo(before, from, h) && after == Unlink(before, from, h)
  }

  /** The four stores of a retirement, in order. */
  ghost predicate Retires(before: Memory, after: Memory, h: handle32, owner: nat, from: Option<handle32>) {
    && h in before.nodes && |before.heads| == BUCKETS
    && var cleared := StoreSlot(Deactivate(before, h), owner, 0);
       && LeadsTo(cleared, from, h)
       && after == PushRetired(Unlink(cleared, from, h), h)
  }

  /** What Retire does in one call is a run of the interleaved writer. */
  lemma RetireIsRun(before: Memory, after: Memory, h: handle32, from: Option<handle32>, readers: map<nat, Reader>)
    requires h in before.nodes && before.nodes[h].active && Retires(before, after, h, before.nodes[h].owner, from)
    ensures var marked := Deactivate(before, h);
            var cleared := StoreSlot(marked, before.nodes[h].owner, 0);
            && WriterStep(State(before, Free, readers), State(marked, Deactivated(h), readers))
            && WriterStep(State(marked, Deactivated(h), readers), State(cleared, Cleared(h), readers))
            && WriterStep(State(cleared, Cleared(h), readers), State(Unlink(cleared, from, h), Unlinked(h), readers))
            && WriterStep(State(Unlink(cleared, from, h), Unlinked(h), readers), State(after, Free, readers))
  {
    hide Bucket;
  }

  /** And so is what Publish does. */
  lemma PublishIsRun(before: Memory, h: handle32, kind: Kind, owner: nat, readers: map<nat, Reader>)
    requires |before.heads| == BUCKETS && h !in before.nodes && h != 0
    ensures var node := Node(kind, owner, true, before.heads[Bucket(h)], before.clock);
            var stored := StoreHead(before, h, node);
            && WriterStep(State(before, Free, readers), State(before, Prepared(h, node), readers))
            && WriterStep(State(before, Prepared(h, node), readers), State(stored, Stored(h), readers))
            && WriterStep(State(stored, Stored(h), readers), State(StoreSlot(stored, owner, h), Free, readers))
  {
    hide Bucket;
  }
}
