/**
 The hash registry of pthread_bridge.c: one writer at a time, under the registry
 lock, and any number of readers without it, interleaved at every atomic load
 and store.  Nodes are never freed.
 */
module Registry {
  import opened Wrappers

  newtype handle32 = x: int | 0 <= x < 0x1_0000_0000

  const BUCKETS := 256

  /** registry_bucket. */
  function Bucket(h: handle32): (b: nat)
    ensures b < BUCKETS
  {
    var folded := Xor(h as nat, h as nat / 0x1_0000);
    Xor(folded, folded / 0x100) % BUCKETS
  }

  datatype Kind = Attr | MutexAttr | Mutex | Cond | Sem

  /** The stamp is the order of publication; no step depends on it. */
  datatype Node = Node(kind: Kind, owner: nat, active: bool, next: Option<handle32>, stamp: nat)

  /**
   nodes holds every object ever published, by raw handle; linked are those not
   yet unlinked from their bucket; clock is the next stamp.
   */
  datatype Memory = Memory(nodes: map<handle32, Node>, heads: seq<Option<handle32>>, slots: map<nat, handle32>,
                           retired: seq<handle32>, linked: set<handle32>, clock: nat)

  // ---- Reaching ----

  predicate LinkSound(m: Memory, link: Option<handle32>, bucket: nat, below: nat) {
    link.Some? ==> link.value in m.nodes && m.nodes[link.value].stamp < below && Bucket(link.value) == bucket
  }

  /** Every link leads to an older published node of the same bucket. */
  ghost predicate Sound(m: Memory) {
    && |m.heads| == BUCKETS
    && (forall h :: h in m.nodes ==> h != 0 && m.nodes[h].stamp < m.clock
                                     && LinkSound(m, m.nodes[h].next, Bucket(h), m.nodes[h].stamp))
    && (forall g, h :: g in m.nodes && h in m.nodes && g != h ==> m.nodes[g].stamp != m.nodes[h].stamp)
    && (forall b :: 0 <= b < BUCKETS ==> LinkSound(m, m.heads[b], b, m.clock))
    && (forall h :: h in m.linked ==> h in m.nodes)
    && (forall h :: h in m.nodes && m.nodes[h].active ==> h in m.linked)
  }

  ghost predicate Reaches(m: Memory, a: handle32, b: handle32)
    requires Sound(m) && a in m.nodes
    decreases m.nodes[a].stamp, 1
  {
    a == b || LinkReaches(m, m.nodes[a].next, b, m.nodes[a].stamp)
  }

  ghost predicate LinkReaches(m: Memory, link: Option<handle32>, b: handle32, below: nat)
    requires Sound(m) && (link.Some? ==> link.value in m.nodes && m.nodes[link.value].stamp < below)
    decreases below, 0
  {
    link.Some? && Reaches(m, link.value, b)
  }

  /** Every node ever published, retired or not, still reaches every older linked node of its bucket. */
  ghost predicate KeepsOlder(m: Memory)
    requires Sound(m)
  {
    forall a, b :: a in m.nodes && b in m.linked && Bucket(a) == Bucket(b) && m.nodes[b].stamp <= m.nodes[a].stamp
      ==> Reaches(m, a, b)
  }

  /** The head of a bucket is its youngest linked node, and the live chain holds linked nodes only. */
  ghost predicate HeadsYoungest(m: Memory)
    requires Sound(m)
  {
    && (forall b :: b in m.linked ==>
          && m.heads[Bucket(b)].Some?
          && m.nodes[b].stamp <= m.nodes[m.heads[Bucket(b)].value].stamp)
    && (forall b :: 0 <= b < BUCKETS ==> Live(m, m.heads[b]))
    && (forall h :: h in m.linked ==> Live(m, m.nodes[h].next))
  }

  predicate Live(m: Memory, link: Option<handle32>) {
    link.Some? ==> link.value in m.linked
  }

  ghost predicate Reachable(m: Memory) {
    Sound(m) && KeepsOlder(m) && HeadsYoungest(m)
  }

  lemma HeadIn(m: Memory, b: nat)
    requires Sound(m) && b < BUCKETS && m.heads[b].Some?
    ensures m.heads[b].value in m.nodes && Bucket(m.heads[b].value) == b
  {
    hide Bucket;
    assert LinkSound(m, m.heads[b], b, m.clock);
  }

  lemma NextIn(m: Memory, a: handle32)
    requires Sound(m) && a in m.nodes && m.nodes[a].next.Some?
    ensures var next := m.nodes[a].next.value;
            next in m.nodes && m.nodes[next].stamp < m.nodes[a].stamp && Bucket(next) == Bucket(a)
  {
    hide Bucket;
    assert LinkSound(m, m.nodes[a].next, Bucket(a), m.nodes[a].stamp);
  }

  lemma HeadReaches(m: Memory, h: handle32)
    requires Reachable(m) && h in m.linked
    ensures var head := m.heads[Bucket(h)]; head.Some? && head.value in m.nodes && Reaches(m, head.value, h)
  {
    hide Bucket, LinkSound, Live, Reaches;
    HeadIn(m, Bucket(h));
  }

  lemma LiveMeans(m: Memory, link: Option<handle32>)
    ensures Live(m, link) <==> link == None || link.value in m.linked
  {
  }

  // ---- The writer's stores ----

  function StoreHead(m: Memory, h: handle32, node: Node): Memory
    requires |m.heads| == BUCKETS
  {
    m.(nodes := m.nodes[h := node], heads := m.heads[Bucket(h) := Some(h)], linked := m.linked + {h}, clock := m.clock + 1)
  }

  function Deactivate(m: Memory, h: handle32): Memory
    requires h in m.nodes
  {
    m.(nodes := m.nodes[h := m.nodes[h].(active := false)])
  }

  function StoreSlot(m: Memory, owner: nat, value: handle32): Memory {
    m.(slots := m.slots[owner := value])
  }

  /** The link is the head of the bucket, or the next field of a linked node, and it leads to h. */
  predicate LeadsTo(m: Memory, from: Option<handle32>, h: handle32)
    requires |m.heads| == BUCKETS
  {
    match from
    case None => m.heads[Bucket(h)] == Some(h)
    case Some(p) => p in m.linked && p in m.nodes && m.nodes[p].next == Some(h)
  }

  function Unlink(m: Memory, from: Option<handle32>, h: handle32): Memory
    requires |m.heads| == BUCKETS && h in m.nodes && LeadsTo(m, from, h)
  {
    var next := m.nodes[h].next;
    match from
    case None => m.(heads := m.heads[Bucket(h) := next], linked := m.linked - {h})
    case Some(p) => m.(nodes := m.nodes[p := m.nodes[p].(next := next)], linked := m.linked - {h})
  }

  function PushRetired(m: Memory, h: handle32): Memory {
    m.(retired := [h] + m.retired)
  }

  // ---- What the stores keep ----

  lemma ReachesNext(m: Memory, a: handle32, b: handle32)
    requires Sound(m) && a in m.nodes
    ensures m.nodes[a].next.Some? ==> m.nodes[a].next.value in m.nodes
    ensures Reaches(m, a, b) <==> a == b || (m.nodes[a].next.Some? && Reaches(m, m.nodes[a].next.value, b))
    ensures m.nodes[a].next.Some? ==> m.nodes[m.nodes[a].next.value].stamp < m.nodes[a].stamp
  {
    hide Bucket, LinkSound, Live;
    if m.nodes[a].next.Some? {
      NextIn(m, a);
    }
  }

  /** Reaching is untouched by stores that leave the links alone. */
  lemma {:induction false} SameLinks(m: Memory, n: Memory, a: handle32, b: handle32)
    requires Sound(m) && Sound(n) && a in m.nodes && Reaches(m, a, b)
    requires forall h :: h in m.nodes ==> h in n.nodes && n.nodes[h].next == m.nodes[h].next
    ensures a in n.nodes && Reaches(n, a, b)
    decreases m.nodes[a].stamp
  {
    hide Bucket, LinkSound, Live, Sound, Reaches;
    ReachesNext(m, a, b);
    ReachesNext(n, a, b);
    if a != b {
      SameLinks(m, n, m.nodes[a].next.value, b);
    }
  }

  /** Unlinking h by redirecting one link past it loses no path to any other node. */
  lemma {:induction false} PathsPast(m: Memory, n: Memory, from: Option<handle32>, h: handle32, a: handle32, b: handle32)
    requires Sound(m) && h in m.nodes && LeadsTo(m, from, h) && n == Unlink(m, from, h) && Sound(n)
    requires a in m.nodes && Reaches(m, a, b) && b != h
    ensures a in n.nodes && Reaches(n, a, b)
    decreases m.nodes[a].stamp
  {
    hide Bucket, LinkSound, Live, Reaches;
    ReachesNext(m, a, b);
    ReachesNext(n, a, b);
    if a != b {
      if from == Some(a) {
        ReachesNext(m, h, b);
        PathsPast(m, n, from, h, m.nodes[h].next.value, b);
      } else {
        PathsPast(m, n, from, h, m.nodes[a].next.value, b);
      }
    }
  }

  // ---- Publishing ----

  lemma StoreHeadSound(m: Memory, h: handle32, node: Node)
    requires Sound(m) && h !in m.nodes && h != 0
    requires node.stamp == m.clock && node.next == m.heads[Bucket(h)]
    ensures Sound(StoreHead(m, h, node))
  {
    hide Bucket, LinkSound, Live;
    var n := StoreHead(m, h, node);
    forall k | k in n.nodes
      ensures LinkSound(n, n.nodes[k].next, Bucket(k), n.nodes[k].stamp)
    {
      if k == h {
        LinkStays(m, n, m.heads[Bucket(h)], Bucket(h), m.clock, node.stamp);
      } else {
        LinkStays(m, n, m.nodes[k].next, Bucket(k), m.nodes[k].stamp, m.nodes[k].stamp);
      }
    }
    forall b | 0 <= b < BUCKETS
      ensures LinkSound(n, n.heads[b], b, n.clock)
    {
      if b == Bucket(h) {
        NewLink(n, h);
      } else {
        LinkStays(m, n, m.heads[b], b, m.clock, n.clock);
      }
    }
  }

  lemma NewLink(n: Memory, h: handle32)
    requires h in n.nodes && n.nodes[h].stamp < n.clock
    ensures LinkSound(n, Some(h), Bucket(h), n.clock)
  {
  }

  lemma LinkStays(m: Memory, n: Memory, link: Option<handle32>, bucket: nat, below: nat, under: nat)
    requires LinkSound(m, link, bucket, below) && below <= under
    requires link.Some? && link.value in m.nodes ==>
               link.value in n.nodes && n.nodes[link.value].stamp == m.nodes[link.value].stamp
    ensures LinkSound(n, link, bucket, under)
  {
    hide Bucket;
  }

  lemma StoreHeadPaths(m: Memory, h: handle32, node: Node)
    requires Reachable(m) && h !in m.nodes && h != 0
    requires node.stamp == m.clock && node.next == m.heads[Bucket(h)]
    ensures Sound(StoreHead(m, h, node))
    ensures forall a, b :: a in m.nodes && Reaches(m, a, b) ==> Reaches(StoreHead(m, h, node), a, b)
  {
    hide Bucket, LinkSound, Live, Reaches, Sound;
    LinkedKnown(m);
    var n := StoreHead(m, h, node);
    StoreHeadSound(m, h, node);
    forall a, b | a in m.nodes && Reaches(m, a, b)
      ensures Reaches(n, a, b)
    {
      SameLinks(m, n, a, b);
    }
  }

  lemma NewNodeReaches(m: Memory, h: handle32, node: Node, b: handle32)
    requires Reachable(m) && h !in m.nodes && h != 0
    requires node.stamp == m.clock && node.next == m.heads[Bucket(h)]
    requires b == h || (b in m.linked && Bucket(b) == Bucket(h))
    ensures Sound(StoreHead(m, h, node)) && Reaches(StoreHead(m, h, node), h, b)
  {
    hide Bucket, LinkSound, Live, Reaches;
    StoreHeadPaths(m, h, node);
    ReachesNext(StoreHead(m, h, node), h, b);
    if b != h {
      HeadReaches(m, b);
    }
  }

  lemma StoreHeadKeeps(m: Memory, h: handle32, node: Node)
    requires Reachable(m) && h !in m.nodes && h != 0
    requires node.stamp == m.clock && node.next == m.heads[Bucket(h)]
    ensures Reachable(StoreHead(m, h, node))
    ensures forall a, b :: a in m.nodes && Reaches(m, a, b) ==> Reaches(StoreHead(m, h, node), a, b)
  {
    hide Bucket, LinkSound, Live, Reaches, HeadsYoungest;
    var n := StoreHead(m, h, node);
    StoreHeadPaths(m, h, node);
    StoreHeadHeads(m, h, node);
    forall a, b | a in n.nodes && b in n.linked && Bucket(a) == Bucket(b) && n.nodes[b].stamp <= n.nodes[a].stamp
      ensures Reaches(n, a, b)
    {
      if a == h {
        NewNodeReaches(m, h, node, b);
      } else {
        assert Reaches(m, a, b);
      }
    }
  }

  lemma StoreHeadHeads(m: Memory, h: handle32, node: Node)
    requires Reachable(m) && h !in m.nodes && h != 0
    requires node.stamp == m.clock && node.next == m.heads[Bucket(h)]
    requires Sound(StoreHead(m, h, node))
    ensures HeadsYoungest(StoreHead(m, h, node))
  {
    hide Bucket, LinkSound, Live, Reaches, KeepsOlder, Sound;
    LinkedKnown(m);
    StampsKnown(m);
    var n := StoreHead(m, h, node);
    forall b | b in n.linked
      ensures n.heads[Bucket(b)].Some? && n.heads[Bucket(b)].value in n.nodes
      ensures n.nodes[b].stamp <= n.nodes[n.heads[Bucket(b)].value].stamp
    {
      if Bucket(b) != Bucket(h) {
        assert n.heads[Bucket(b)] == m.heads[Bucket(b)];
        HeadIn(m, Bucket(b));
      }
    }
    forall k | k in n.linked
      ensures Live(n, n.nodes[k].next)
    {
      LiveMeans(n, n.nodes[k].next);
      if k != h {
        LiveMeans(m, m.nodes[k].next);
      } else {
        LiveMeans(m, m.heads[Bucket(h)]);
      }
    }
    forall b | 0 <= b < BUCKETS
      ensures Live(n, n.heads[b])
    {
      LiveMeans(m, m.heads[b]);
      LiveMeans(n, n.heads[b]);
    }
  }

  lemma StampsKnown(m: Memory)
    requires Sound(m)
    ensures forall h :: h in m.nodes ==> m.nodes[h].stamp < m.clock
  {
    hide Bucket, LinkSound, Live;
  }

  // ---- Retiring ----

  lemma DeactivateSound(m: Memory, h: handle32)
    requires Sound(m) && h in m.nodes
    ensures Sound(Deactivate(m, h))
  {
    hide Bucket, LinkSound, Live;
    var n := Deactivate(m, h);
    forall k | k in n.nodes
      ensures LinkSound(n, n.nodes[k].next, Bucket(k), n.nodes[k].stamp)
    {
      LinkStays(m, n, m.nodes[k].next, Bucket(k), m.nodes[k].stamp, m.nodes[k].stamp);
    }
    forall b | 0 <= b < BUCKETS
      ensures LinkSound(n, n.heads[b], b, n.clock)
    {
      LinkStays(m, n, m.heads[b], b, m.clock, n.clock);
    }
  }

  lemma DeactivateKeeps(m: Memory, h: handle32)
    requires Reachable(m) && h in m.nodes
    ensures Reachable(Deactivate(m, h))
    ensures forall a, b :: a in m.nodes && Reaches(m, a, b) ==> Reaches(Deactivate(m, h), a, b)
  {
    hide Bucket, LinkSound, Live, Reaches, Sound;
    var n := Deactivate(m, h);
    DeactivateSound(m, h);
    forall a, b | a in m.nodes && Reaches(m, a, b)
      ensures Reaches(n, a, b)
    {
      SameLinks(m, n, a, b);
    }
    DeactivateHeads(m, h);
  }

  lemma DeactivateHeads(m: Memory, h: handle32)
    requires Sound(m) && HeadsYoungest(m) && h in m.nodes && Sound(Deactivate(m, h))
    ensures HeadsYoungest(Deactivate(m, h))
  {
    hide Bucket, LinkSound, Live, Sound;
    LinkedKnown(m);
    var n := Deactivate(m, h);
    forall k | k in n.linked
      ensures Live(n, n.nodes[k].next)
    {
      LiveMeans(m, m.nodes[k].next);
      LiveMeans(n, n.nodes[k].next);
    }
    forall b | 0 <= b < BUCKETS
      ensures Live(n, n.heads[b])
    {
      LiveMeans(m, m.heads[b]);
      LiveMeans(n, n.heads[b]);
    }
    forall b | b in n.linked
      ensures n.heads[Bucket(b)].Some? && n.heads[Bucket(b)].value in n.nodes
      ensures n.nodes[b].stamp <= n.nodes[n.heads[Bucket(b)].value].stamp
    {
      HeadIn(m, Bucket(b));
    }
  }

  lemma UnlinkSound(m: Memory, from: Option<handle32>, h: handle32)
    requires Sound(m) && h in m.nodes && LeadsTo(m, from, h) && !m.nodes[h].active
    ensures Sound(Unlink(m, from, h))
  {
    hide Bucket, LinkSound, Live;
    var n := Unlink(m, from, h);
    forall k | k in n.nodes
      ensures LinkSound(n, n.nodes[k].next, Bucket(k), n.nodes[k].stamp)
    {
      if from == Some(k) {
        NextIn(m, k);
        LinkStays(m, n, m.nodes[h].next, Bucket(h), m.nodes[h].stamp, m.nodes[k].stamp);
      } else {
        LinkStays(m, n, m.nodes[k].next, Bucket(k), m.nodes[k].stamp, m.nodes[k].stamp);
      }
    }
    forall b | 0 <= b < BUCKETS
      ensures LinkSound(n, n.heads[b], b, n.clock)
    {
      if from == None && b == Bucket(h) {
        LinkStays(m, n, m.nodes[h].next, Bucket(h), m.nodes[h].stamp, n.clock);
      } else {
        LinkStays(m, n, m.heads[b], b, m.clock, n.clock);
      }
    }
  }

  lemma UnlinkKeeps(m: Memory, from: Option<handle32>, h: handle32)
    requires Reachable(m) && h in m.linked && LeadsTo(m, from, h) && !m.nodes[h].active
    ensures Reachable(Unlink(m, from, h))
    ensures forall a, b :: a in m.nodes && b != h && Reaches(m, a, b) ==> Reaches(Unlink(m, from, h), a, b)
  {
    hide Bucket, LinkSound, Live, Reaches, Sound, HeadsYoungest;
    LinkedKnown(m);
    var n := Unlink(m, from, h);
    UnlinkSound(m, from, h);
    forall a, b | a in m.nodes && b != h && Reaches(m, a, b)
      ensures Reaches(n, a, b)
    {
      PathsPast(m, n, from, h, a, b);
    }
    UnlinkHeads(m, from, h);
  }

  lemma LinkedKnown(m: Memory)
    requires Sound(m)
    ensures |m.heads| == BUCKETS
    ensures forall h :: h in m.linked ==> h in m.nodes && h != 0
    ensures forall h :: h in m.nodes && m.nodes[h].active ==> h in m.linked
  {
    hide Bucket, LinkSound, Live;
  }

  /** Only the given link leads to h on the live chain, and the new head is still the youngest. */
  lemma UnlinkHeads(m: Memory, from: Option<handle32>, h: handle32)
    requires Reachable(m) && h in m.linked && LeadsTo(m, from, h) && Sound(Unlink(m, from, h))
    ensures HeadsYoungest(Unlink(m, from, h))
  {
    hide Bucket, LinkSound, Live, Reaches, Sound, KeepsOlder;
    LinkedKnown(m);
    var n := Unlink(m, from, h);
    forall p | p in n.linked
      ensures Live(n, n.nodes[p].next)
    {
      UnlinkedNext(m, from, h, p);
    }
    forall b | b in n.linked
      ensures n.heads[Bucket(b)].Some? && n.heads[Bucket(b)].value in n.nodes
      ensures n.nodes[b].stamp <= n.nodes[n.heads[Bucket(b)].value].stamp
    {
      UnlinkedYoungest(m, from, h, b);
    }
    forall b | 0 <= b < BUCKETS
      ensures Live(n, n.heads[b])
    {
      UnlinkedHead(m, from, h, b);
    }
  }

  lemma UnlinkedNext(m: Memory, from: Option<handle32>, h: handle32, p: handle32)
    requires Reachable(m) && h in m.linked && LeadsTo(m, from, h) && p in m.linked && p != h
    ensures Live(Unlink(m, from, h), Unlink(m, from, h).nodes[p].next)
  {
    hide Bucket, LinkSound, Live, Reaches, KeepsOlder;
    LiveMeans(m, m.nodes[p].next);
    LiveMeans(m, m.nodes[h].next);
    LiveMeans(Unlink(m, from, h), Unlink(m, from, h).nodes[p].next);
    if from == Some(p) {
      NextNotSelf(m, h);
    } else if m.nodes[p].next == Some(h) {
      OnlyLink(m, from, h, p);
    }
  }

  lemma NextNotSelf(m: Memory, h: handle32)
    requires Sound(m) && h in m.nodes
    ensures m.nodes[h].next != Some(h)
  {
    hide Bucket, LinkSound, Live;
    if m.nodes[h].next.Some? {
      NextIn(m, h);
    }
  }

  lemma UnlinkedYoungest(m: Memory, from: Option<handle32>, h: handle32, b: handle32)
    requires Reachable(m) && h in m.linked && LeadsTo(m, from, h) && b in m.linked && b != h
    requires Sound(Unlink(m, from, h))
    ensures var n := Unlink(m, from, h);
            && n.heads[Bucket(b)].Some? && n.heads[Bucket(b)].value in n.nodes
            && n.nodes[b].stamp <= n.nodes[n.heads[Bucket(b)].value].stamp
  {
    hide Bucket, LinkSound, Live, Reaches;
    if from == None && Bucket(b) == Bucket(h) {
      assert Reaches(m, h, b);
      ReachesNext(m, h, b);
      StampOrder(m, m.nodes[h].next, b);
    } else {
      HeadIn(m, Bucket(b));
    }
  }

  lemma UnlinkedHead(m: Memory, from: Option<handle32>, h: handle32, b: nat)
    requires Reachable(m) && h in m.linked && LeadsTo(m, from, h) && b < BUCKETS
    ensures Live(Unlink(m, from, h), Unlink(m, from, h).heads[b])
  {
    hide Bucket, LinkSound, Live, Reaches, KeepsOlder;
    LiveMeans(m, m.heads[b]);
    LiveMeans(m, m.nodes[h].next);
    LiveMeans(Unlink(m, from, h), Unlink(m, from, h).heads[b]);
    if from == None && b == Bucket(h) {
      NextNotSelf(m, h);
    } else if m.heads[b] == Some(h) {
      HeadOnly(m, from, h, b);
    }
  }

  /** A node reaches no younger one. */
  lemma {:induction false} ReachesOlder(m: Memory, a: handle32, b: handle32)
    requires Sound(m) && a in m.nodes && Reaches(m, a, b)
    ensures b in m.nodes && m.nodes[b].stamp <= m.nodes[a].stamp
    decreases m.nodes[a].stamp
  {
    hide Bucket, LinkSound, Live, Sound, Reaches;
    ReachesNext(m, a, b);
    if a != b {
      ReachesOlder(m, m.nodes[a].next.value, b);
    }
  }

  lemma StampOrder(m: Memory, link: Option<handle32>, b: handle32)
    requires Sound(m) && link.Some? && link.value in m.nodes && Reaches(m, link.value, b)
    ensures b in m.nodes && m.nodes[b].stamp <= m.nodes[link.value].stamp
  {
    hide Bucket, LinkSound, Live, Sound, Reaches;
    ReachesOlder(m, link.value, b);
  }

  lemma OnlyLink(m: Memory, from: Option<handle32>, h: handle32, p: handle32)
    requires Reachable(m) && h in m.linked && LeadsTo(m, from, h) && p in m.linked && m.nodes[p].next == Some(h)
    ensures from == Some(p)
  {
    hide Bucket, LinkSound, Live, Reaches;
    NextIn(m, p);
    match from
    case None =>
    case Some(q) =>
      NextIn(m, q);
      if p != q {
        var young, old_ := if m.nodes[p].stamp < m.nodes[q].stamp then q else p, if m.nodes[p].stamp < m.nodes[q].stamp then p else q;
        assert Reaches(m, young, old_);
        ReachesNext(m, young, old_);
        ReachesOlder(m, h, old_);
      }
  }

  lemma HeadOnly(m: Memory, from: Option<handle32>, h: handle32, b: nat)
    requires Reachable(m) && h in m.linked && LeadsTo(m, from, h) && b < BUCKETS && m.heads[b] == Some(h)
    ensures from == None && b == Bucket(h)
  {
    hide Bucket, LinkSound, Live, Reaches;
    HeadIn(m, b);
    if from.Some? {
      NextIn(m, from.value);
    }
  }
}
