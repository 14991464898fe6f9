/**
 The FILE wrappers of bionic_compat.c: bucket lists of wrappers that are never
 freed, counted operations, and a close that waits for them.
 */
module FileRegistry {
  import opened Wrappers

  newtype address32 = x: int | 0 <= x < 0x1_0000_0000

  const BUCKETS := 1024

  /** asm2_file_bucket. */
  function Bucket(stream: address32): (b: nat)
    ensures b < BUCKETS
  {
    var folded := Xor(stream as nat, stream as nat / 0x1_0000);
    Xor(folded, folded / 0x100) % BUCKETS
  }

  datatype Stage = Open | Closing | Closed

  /** A wrapper goes by the address of its guest image; the stamp is the order of creation, and no step reads it. */
  datatype Wrapper = Wrapper(host: Option<nat>, stage: Stage, operations: nat, next: Option<address32>, stamp: nat)

  datatype Files = Files(wrappers: map<address32, Wrapper>, heads: seq<Option<address32>>, retired: seq<address32>,
                         created: nat, open: nat, closed: nat)

  /** A place that holds a pointer of a bucket list. */
  datatype Place = Head(bucket: nat) | Field(w: address32)

  predicate LinkSound(f: Files, link: Option<address32>, bucket: nat, below: nat) {
    link.Some? ==> link.value in f.wrappers && f.wrappers[link.value].stamp < below && Bucket(link.value) == bucket
  }

  /** Every link leads to an older wrapper of its own bucket. */
  ghost predicate Sound(f: Files) {
    && |f.heads| == BUCKETS
    && (forall b :: 0 <= b < BUCKETS ==> LinkSound(f, f.heads[b], b, |f.wrappers|))
    && (forall w :: w in f.wrappers ==>
          f.wrappers[w].stamp < |f.wrappers| && LinkSound(f, f.wrappers[w].next, Bucket(w), f.wrappers[w].stamp))
  }

  predicate Exists(f: Files, p: Place) {
    match p
    case Head(b) => b < BUCKETS
    case Field(w) => w in f.wrappers
  }

  function BucketOf(p: Place): nat {
    match p
    case Head(b) => b
    case Field(w) => Bucket(w)
  }

  function Bound(f: Files, p: Place): nat
    requires Exists(f, p)
  {
    match p
    case Head(_) => |f.wrappers|
    case Field(w) => f.wrappers[w].stamp
  }

  function Deref(f: Files, p: Place): Option<address32>
    requires |f.heads| == BUCKETS && Exists(f, p)
  {
    match p
    case Head(b) => f.heads[b]
    case Field(w) => f.wrappers[w].next
  }

  lemma LinkIn(f: Files, p: Place)
    requires Sound(f) && Exists(f, p)
    ensures var link := Deref(f, p);
            link.Some? ==> link.value in f.wrappers && f.wrappers[link.value].stamp < Bound(f, p) && Bucket(link.value) == BucketOf(p)
  {
    hide Bucket;
  }

  /** The search of asm2_take_file_for_close: the first place that holds the stream or nothing. */
  ghost function Walk(f: Files, p: Place, stream: address32): (q: Place)
    requires Sound(f) && Exists(f, p)
    ensures Exists(f, q)
    ensures Deref(f, q) == None || Deref(f, q) == Some(stream)
    decreases Bound(f, p)
  {
    LinkIn(f, p);
    var link := Deref(f, p);
    if link == None || link == Some(stream) then p else Walk(f, Field(link.value), stream)
  }

  ghost predicate Reaches(f: Files, p: Place, stream: address32)
    requires Sound(f) && Exists(f, p)
  {
    Deref(f, Walk(f, p, stream)) == Some(stream)
  }

  /** asm2_find_active_file_locked. */
  ghost predicate Listed(f: Files, stream: address32)
    requires Sound(f)
  {
    Reaches(f, Head(Bucket(stream)), stream)
  }

  // ---- The four critical sections ----

  function Store(f: Files, p: Place, link: Option<address32>): Files
    requires |f.heads| == BUCKETS && Exists(f, p)
  {
    match p
    case Head(b) => f.(heads := f.heads[b := link])
    case Field(w) => f.(wrappers := f.wrappers[w := f.wrappers[w].(next := link)])
  }

  function Set(f: Files, w: address32, value: Wrapper): Files {
    f.(wrappers := f.wrappers[w := value])
  }

  function Wrap(f: Files, w: address32, host: nat): Files
    requires |f.heads| == BUCKETS
  {
    f.(wrappers := f.wrappers[w := Wrapper(Some(host), Open, 0, f.heads[Bucket(w)], |f.wrappers|)],
       heads := f.heads[Bucket(w) := Some(w)], created := f.created + 1, open := f.open + 1)
  }

  function Acquire(f: Files, w: address32): Files
    requires w in f.wrappers
  {
    Set(f, w, f.wrappers[w].(operations := f.wrappers[w].operations + 1))
  }

  function Release(f: Files, w: address32): Files
    requires w in f.wrappers
  {
    if f.wrappers[w].operations > 0 then Set(f, w, f.wrappers[w].(operations := f.wrappers[w].operations - 1)) else f
  }

  function StartClose(f: Files, w: address32): Files
    requires w in f.wrappers
  {
    Set(f, w, f.wrappers[w].(stage := Closing))
  }

  /** What follows the wait: the wrapper is closed, and whatever is at the place is replaced by the wrapper's next. */
  function FinishClose(f: Files, w: address32, p: Place): Files
    requires |f.heads| == BUCKETS && w in f.wrappers && Exists(f, p)
  {
    var closed := Set(f, w, f.wrappers[w].(host := None, stage := Closed));
    var bypassed := Store(closed, p, f.wrappers[w].next);
    Set(bypassed, w, bypassed.wrappers[w].(next := None))
      .(retired := [w] + f.retired, open := if f.open != 0 then f.open - 1 else 0, closed := f.closed + 1)
  }

  // ---- Lists ----

  lemma TableSize(f: Files)
    requires Sound(f)
    ensures |f.heads| == BUCKETS
  {
  }

  lemma WalkStep(f: Files, p: Place, stream: address32)
    requires Sound(f) && Exists(f, p)
    ensures var link := Deref(f, p);
            && (link == None ==> !Reaches(f, p, stream))
            && (link == Some(stream) ==> Reaches(f, p, stream) && Walk(f, p, stream) == p)
            && (link.Some? && link.value != stream ==>
                  && Exists(f, Field(link.value)) && Bound(f, Field(link.value)) < Bound(f, p)
                  && Walk(f, p, stream) == Walk(f, Field(link.value), stream)
                  && (Reaches(f, p, stream) <==> Reaches(f, Field(link.value), stream)))
  {
    hide Bucket, LinkSound;
    LinkIn(f, p);
  }

  /** Lists through places that hold the same in both are the same. */
  lemma {:induction false} SameWalk(f: Files, g: Files, p: Place, stream: address32, bound: nat)
    requires Sound(f) && Sound(g) && Exists(f, p) && Exists(g, p) && Bound(f, p) < bound
    requires forall w :: w in f.wrappers && f.wrappers[w].stamp < bound && Bucket(w) == BucketOf(p) ==>
               w in g.wrappers && g.wrappers[w].next == f.wrappers[w].next
    requires p.Field?
    ensures Reaches(f, p, stream) <==> Reaches(g, p, stream)
    decreases Bound(f, p)
  {
    hide Bucket, LinkSound, Reaches, Sound;
    WalkStep(f, p, stream);
    WalkStep(g, p, stream);
    LinkIn(f, p);
    TableSize(f);
    var link := Deref(f, p);
    if link.Some? && link.value != stream {
      SameWalk(f, g, Field(link.value), stream, bound);
    }
  }

  /** The place a close remembers belongs to its wrapper's bucket, and comes before the wrapper. */
  predicate PlaceFor(f: Files, p: Place, w: address32)
    requires w in f.wrappers
  {
    Exists(f, p) && BucketOf(p) == Bucket(w) && Bound(f, p) > f.wrappers[w].stamp
  }

  lemma FinishLinks(f: Files, w: address32, p: Place)
    requires Sound(f) && w in f.wrappers && PlaceFor(f, p, w)
    ensures var g := FinishClose(f, w, p);
            && g.wrappers.Keys == f.wrappers.Keys && |g.wrappers| == |f.wrappers| && |g.heads| == BUCKETS
            && (forall u :: u in f.wrappers ==>
                  g.wrappers[u].stamp == f.wrappers[u].stamp
                  && g.wrappers[u].next == if u == w then None else if p == Field(u) then f.wrappers[w].next else f.wrappers[u].next)
            && (forall b :: 0 <= b < BUCKETS ==> g.heads[b] == if p == Head(b) then f.wrappers[w].next else f.heads[b])
  {
    hide Bucket, LinkSound;
    var g := FinishClose(f, w, p);
    assert g.wrappers.Keys == f.wrappers.Keys;
    assert |g.wrappers| == |f.wrappers| by {
      SameSize(f.wrappers, g.wrappers);
    }
  }

  lemma SameSize<K, V, W>(m: map<K, V>, n: map<K, W>)
    requires m.Keys == n.Keys
    ensures |m| == |n|
  {
    assert |m| == |m.Keys| && |n| == |n.Keys|;
  }

  lemma FinishSound(f: Files, w: address32, p: Place)
    requires Sound(f) && w in f.wrappers && PlaceFor(f, p, w)
    ensures Sound(FinishClose(f, w, p))
  {
    hide Bucket, LinkSound, FinishClose;
    FinishLinks(f, w, p);
    TableSize(f);
    var g := FinishClose(f, w, p);
    forall b | 0 <= b < BUCKETS
      ensures LinkSound(g, g.heads[b], b, |g.wrappers|)
    {
      LinkIn(f, Head(b));
      LinkIn(f, Field(w));
      MakeLink(g, g.heads[b], b, |g.wrappers|);
    }
    forall u | u in g.wrappers
      ensures g.wrappers[u].stamp < |g.wrappers| && LinkSound(g, g.wrappers[u].next, Bucket(u), g.wrappers[u].stamp)
    {
      LinkIn(f, Field(u));
      LinkIn(f, Field(w));
      MakeLink(g, g.wrappers[u].next, Bucket(u), g.wrappers[u].stamp);
    }
  }

  lemma MakeLink(f: Files, link: Option<address32>, bucket: nat, below: nat)
    requires link.Some? ==> link.value in f.wrappers && f.wrappers[link.value].stamp < below && Bucket(link.value) == bucket
    ensures LinkSound(f, link, bucket, below)
  {
  }

  // ---- The bucket lists against the open wrappers ----

  /** The lists hold exactly the wrappers that are not closed, and a closed one leads nowhere. */
  ghost predicate Exact(f: Files)
    requires Sound(f)
  {
    && (forall w :: w in f.wrappers ==> (Listed(f, w) <==> f.wrappers[w].stage != Closed))
    && (forall w :: w in f.wrappers && f.wrappers[w].stage == Closed ==> f.wrappers[w].next == None)
  }

  /** A walk that ends at a later place of the same list passes it on the way. */
  lemma {:induction false} WalkThrough(f: Files, p: Place, q: address32, w: address32)
    requires Sound(f) && Exists(f, p) && q in f.wrappers && Reaches(f, p, q) && f.wrappers[q].next == Some(w)
    requires w in f.wrappers
    ensures Walk(f, p, w) == Field(q)
    decreases Bound(f, p)
  {
    hide Bucket, LinkSound, Sound, Reaches;
    TableSize(f);
    LinkIn(f, p);
    WalkStep(f, p, q);
    WalkStep(f, p, w);
    WalkStep(f, Field(q), w);
    LinkIn(f, Field(q));
    var link := Deref(f, p);
    if link != Some(q) {
      if link == Some(w) {
        ReachesOlder(f, Field(w), q);
        assert false;
      }
      WalkThrough(f, Field(link.value), q, w);
    }
  }

  lemma {:induction false} ReachesOlder(f: Files, p: Place, w: address32)
    requires Sound(f) && Exists(f, p) && Reaches(f, p, w)
    ensures w in f.wrappers && f.wrappers[w].stamp < Bound(f, p) && Bucket(w) == BucketOf(p)
    decreases Bound(f, p)
  {
    hide Bucket, LinkSound, Sound, Reaches;
    TableSize(f);
    LinkIn(f, p);
    WalkStep(f, p, w);
    var link := Deref(f, p);
    if link != Some(w) {
      ReachesOlder(f, Field(link.value), w);
    }
  }

  /** From before the place, the finished close bypasses the wrapper and nothing else. */
  lemma {:induction false} Bypassed(f: Files, w: address32, p: Place, at: Place, u: address32)
    requires Sound(f) && w in f.wrappers && PlaceFor(f, p, w) && Deref(f, p) == Some(w)
    requires Exists(f, at) && Walk(f, at, w) == p && Reaches(f, at, w)
    requires Sound(FinishClose(f, w, p)) && Exists(FinishClose(f, w, p), at)
    ensures Reaches(FinishClose(f, w, p), at, u) <==> u != w && Reaches(f, at, u)
    decreases Bound(f, at)
  {
    hide Bucket, LinkSound, Sound, Reaches, FinishClose;
    TableSize(f);
    var g := FinishClose(f, w, p);
    TableSize(g);
    FinishLinks(f, w, p);
    WalkStep(f, at, u);
    WalkStep(f, at, w);
    WalkStep(g, at, u);
    LinkIn(f, at);
    if at == p {
      BehindSame(f, g, w, p, u);
    } else {
      var link := Deref(f, at).value;
      ReachesOlder(f, Field(link), w);
      if link != u {
        Bypassed(f, w, p, Field(link), u);
      }
    }
  }

  /** Behind the wrapper nothing changes. */
  lemma BehindSame(f: Files, g: Files, w: address32, p: Place, u: address32)
    requires Sound(f) && w in f.wrappers && PlaceFor(f, p, w) && Deref(f, p) == Some(w)
    requires g == FinishClose(f, w, p) && Sound(g) && Exists(g, p)
    ensures Reaches(g, p, u) <==> u != w && Reaches(f, p, u)
  {
    hide Bucket, LinkSound, Sound, Reaches, FinishClose;
    TableSize(f);
    TableSize(g);
    FinishLinks(f, w, p);
    LinkIn(f, p);
    LinkIn(f, Field(w));
    WalkStep(f, p, u);
    WalkStep(g, p, u);
    WalkStep(f, Field(w), u);
    var link := f.wrappers[w].next;
    if link.Some? {
      if link.value != u {
        SameWalk(f, g, Field(link.value), u, f.wrappers[w].stamp);
      }
    }
    if Reaches(f, Field(w), w) {
      ReachesOlder(f, Field(w), w);
    }
    if Reaches(g, p, w) && link.Some? {
      if link.value != w {
        WalkStep(g, p, w);
        ReachesOlder(g, Field(link.value), w);
      }
    }
  }

  lemma HeadSame(f: Files, g: Files, b: nat, u: address32)
    requires Sound(f) && Sound(g) && b < BUCKETS && g.heads[b] == f.heads[b]
    requires forall w :: w in f.wrappers && Bucket(w) == b ==> w in g.wrappers && g.wrappers[w].next == f.wrappers[w].next
    ensures Reaches(f, Head(b), u) <==> Reaches(g, Head(b), u)
  {
    hide Bucket, LinkSound, Sound, Reaches;
    TableSize(f);
    TableSize(g);
    WalkStep(f, Head(b), u);
    WalkStep(g, Head(b), u);
    LinkIn(f, Head(b));
    if f.heads[b].Some? && f.heads[b].value != u {
      SameWalk(f, g, Field(f.heads[b].value), u, |f.wrappers|);
    }
  }

  lemma FreshWalk(f: Files, w: address32, p: Place)
    requires Sound(f) && Exact(f) && w in f.wrappers && f.wrappers[w].stage != Closed
    requires PlaceFor(f, p, w) && Deref(f, p) == Some(w)
    ensures Walk(f, Head(Bucket(w)), w) == p
  {
    hide Bucket, LinkSound, Sound, Reaches;
    TableSize(f);
    match p
    case Head(b) =>
      WalkStep(f, p, w);
    case Field(q) =>
      assert Listed(f, q);
      WalkThrough(f, Head(Bucket(w)), q, w);
  }

  /** Closing through a place that still holds the wrapper keeps the lists exact. */
  lemma FreshKeepsExact(f: Files, w: address32, p: Place)
    requires Sound(f) && Exact(f) && w in f.wrappers && f.wrappers[w].stage != Closed
    requires PlaceFor(f, p, w) && Deref(f, p) == Some(w)
    ensures Sound(FinishClose(f, w, p)) && Exact(FinishClose(f, w, p))
  {
    hide Bucket, LinkSound, Sound, Reaches, FinishClose;
    TableSize(f);
    var g := FinishClose(f, w, p);
    FinishSound(f, w, p);
    TableSize(g);
    FinishLinks(f, w, p);
    FinishStages(f, w, p);
    FreshWalk(f, w, p);
    assert Listed(f, w);
    forall u | u in g.wrappers
      ensures Listed(g, u) <==> g.wrappers[u].stage != Closed
    {
      assert Listed(f, u) <==> f.wrappers[u].stage != Closed;
      if Bucket(u) == Bucket(w) {
        Bypassed(f, w, p, Head(Bucket(w)), u);
      } else {
        HeadSame(f, g, Bucket(u), u);
      }
    }
  }

  lemma FinishStages(f: Files, w: address32, p: Place)
    requires w in f.wrappers && PlaceFor(f, p, w) && |f.heads| == BUCKETS
    ensures var g := FinishClose(f, w, p);
            && g.wrappers.Keys == f.wrappers.Keys
            && forall u :: u in g.wrappers ==>
                 && g.wrappers[u].stage == (if u == w then Closed else f.wrappers[u].stage)
                 && g.wrappers[u].host == (if u == w then None else f.wrappers[u].host)
                 && g.wrappers[u].operations == f.wrappers[u].operations
  {
    hide Bucket;
  }

  /** A path that avoids a wrapper survives a store to that wrapper's link. */
  lemma {:induction false} PathAvoids(f: Files, g: Files, at: Place, w: address32, q: address32)
    requires Sound(f) && Sound(g) && Exists(f, at) && Exists(g, at) && at != Field(q)
    requires Reaches(f, at, w) && !Reaches(f, at, q) && w in f.wrappers
    requires at.Head? ==> g.heads[at.bucket] == f.heads[at.bucket]
    requires forall u :: u in f.wrappers && u != w && u != q ==> u in g.wrappers && g.wrappers[u].next == f.wrappers[u].next
    ensures Reaches(g, at, w)
    decreases Bound(f, at)
  {
    hide Bucket, LinkSound, Sound, Reaches;
    TableSize(f);
    TableSize(g);
    LinkIn(f, at);
    WalkStep(f, at, w);
    WalkStep(f, at, q);
    WalkStep(g, at, w);
    if at == Field(w) {
      ReachesOlder(f, at, w);
    }
    var link := Deref(f, at);
    if link != Some(w) {
      PathAvoids(f, g, Field(link.value), w, q);
    }
  }

  /** Closing through a stale bucket head drops the wrapper now at the head, though it is not closed. */
  lemma StaleHead(f: Files, w: address32, b: nat)
    requires Sound(f) && Exact(f) && w in f.wrappers && f.wrappers[w].stage != Closed
    requires PlaceFor(f, Head(b), w) && f.heads[b] != Some(w)
    ensures Sound(FinishClose(f, w, Head(b))) && f.heads[b].Some?
    ensures var lost := f.heads[b].value;
            && lost in FinishClose(f, w, Head(b)).wrappers && FinishClose(f, w, Head(b)).wrappers[lost].stage != Closed
            && !Listed(FinishClose(f, w, Head(b)), lost)
  {
    hide Bucket, LinkSound, Sound, Reaches, FinishClose;
    TableSize(f);
    var p := Head(b);
    var g := FinishClose(f, w, p);
    FinishSound(f, w, p);
    TableSize(g);
    FinishLinks(f, w, p);
    FinishStages(f, w, p);
    assert Listed(f, w);
    WalkStep(f, p, w);
    LinkIn(f, p);
    var lost := f.heads[b].value;
    ReachesOlder(f, Field(lost), w);
    WalkStep(f, p, lost);
    assert Listed(f, lost);
    if Reaches(g, p, lost) {
      WalkStep(g, p, lost);
      LinkIn(f, Field(w));
      var link := g.heads[b];
      if link != Some(lost) {
        ReachesOlder(g, Field(link.value), lost);
      }
    }
  }

  /** Closing through a field of a closed wrapper leaves the closed wrapper on the list. */
  lemma StaleField(f: Files, w: address32, q: address32)
    requires Sound(f) && Exact(f) && w in f.wrappers && f.wrappers[w].stage != Closed
    requires q in f.wrappers && PlaceFor(f, Field(q), w) && f.wrappers[q].stage == Closed
    ensures Sound(FinishClose(f, w, Field(q))) && Listed(FinishClose(f, w, Field(q)), w)
  {
    hide Bucket, LinkSound, Sound, Reaches, FinishClose;
    TableSize(f);
    var g := FinishClose(f, w, Field(q));
    FinishSound(f, w, Field(q));
    TableSize(g);
    FinishLinks(f, w, Field(q));
    assert Listed(f, w) && !Listed(f, q);
    PathAvoids(f, g, Head(Bucket(w)), w, q);
  }

  /**
   A close leaves the lists exact if and only if the place it found before its
   wait still holds its wrapper after the wait.
   */
  lemma CloseExact(f: Files, w: address32, p: Place)
    requires Sound(f) && Exact(f) && w in f.wrappers && f.wrappers[w].stage != Closed && PlaceFor(f, p, w)
    requires p.Field? ==> f.wrappers[p.w].stage == Closed || f.wrappers[p.w].next == Some(w)
    ensures Sound(FinishClose(f, w, p))
    ensures Exact(FinishClose(f, w, p)) <==> Deref(f, p) == Some(w)
  {
    hide Bucket, LinkSound, Sound, Reaches, FinishClose, Listed;
    TableSize(f);
    if Deref(f, p) == Some(w) {
      FreshKeepsExact(f, w, p);
    } else if p.Head? {
      StaleHead(f, w, p.bucket);
    } else {
      StaleField(f, w, p.w);
      FinishStages(f, w, p);
    }
  }

  // ---- The other critical sections ----

  /** What does not touch a link touches no list. */
  lemma SameLists(f: Files, g: Files)
    requires Sound(f) && g.heads == f.heads && g.wrappers.Keys == f.wrappers.Keys
    requires forall w :: w in f.wrappers ==>
               g.wrappers[w].next == f.wrappers[w].next && g.wrappers[w].stamp == f.wrappers[w].stamp
    ensures Sound(g) && forall w :: w in f.wrappers ==> (Listed(g, w) <==> Listed(f, w))
  {
    hide Bucket, LinkSound, Reaches;
    SameSize(f.wrappers, g.wrappers);
    forall b | 0 <= b < BUCKETS
      ensures LinkSound(g, g.heads[b], b, |g.wrappers|)
    {
      LinkIn(f, Head(b));
      MakeLink(g, g.heads[b], b, |g.wrappers|);
    }
    forall u | u in g.wrappers
      ensures g.wrappers[u].stamp < |g.wrappers| && LinkSound(g, g.wrappers[u].next, Bucket(u), g.wrappers[u].stamp)
    {
      LinkIn(f, Field(u));
      MakeLink(g, g.wrappers[u].next, Bucket(u), g.wrappers[u].stamp);
    }
    forall w | w in f.wrappers
      ensures Listed(g, w) <==> Listed(f, w)
    {
      HeadSame(f, g, Bucket(w), w);
    }
  }

  lemma WrapSound(f: Files, w: address32, host: nat)
    requires Sound(f) && w !in f.wrappers
    ensures Sound(Wrap(f, w, host))
  {
    hide Bucket, LinkSound;
    var g := Wrap(f, w, host);
    assert g.wrappers.Keys == f.wrappers.Keys + {w};
    assert |g.wrappers| == |f.wrappers| + 1;
    forall b | 0 <= b < BUCKETS
      ensures LinkSound(g, g.heads[b], b, |g.wrappers|)
    {
      LinkIn(f, Head(b));
      MakeLink(g, g.heads[b], b, |g.wrappers|);
    }
    forall u | u in g.wrappers
      ensures g.wrappers[u].stamp < |g.wrappers| && LinkSound(g, g.wrappers[u].next, Bucket(u), g.wrappers[u].stamp)
    {
      if u == w {
        LinkIn(f, Head(Bucket(w)));
      } else {
        LinkIn(f, Field(u));
      }
      MakeLink(g, g.wrappers[u].next, Bucket(u), g.wrappers[u].stamp);
    }
  }

  lemma WrapExact(f: Files, w: address32, host: nat)
    requires Sound(f) && w !in f.wrappers
    ensures Sound(Wrap(f, w, host))
    ensures Exact(f) ==> Exact(Wrap(f, w, host))
  {
    hide Bucket, LinkSound, Reaches, Sound;
    TableSize(f);
    var g := Wrap(f, w, host);
    WrapSound(f, w, host);
    TableSize(g);
    forall u | u in f.wrappers
      ensures Listed(g, u) <==> Listed(f, u)
    {
      WrapListed(f, w, host, u);
    }
    WalkStep(g, Head(Bucket(w)), w);
  }

  lemma WrapListed(f: Files, w: address32, host: nat, u: address32)
    requires Sound(f) && w !in f.wrappers && u in f.wrappers && Sound(Wrap(f, w, host))
    ensures Listed(Wrap(f, w, host), u) <==> Listed(f, u)
  {
    hide Bucket, LinkSound, Reaches, Sound;
    TableSize(f);
    var g := Wrap(f, w, host);
    if Bucket(u) != Bucket(w) {
      HeadSame(f, g, Bucket(u), u);
    } else {
      WalkStep(g, Head(Bucket(w)), u);
      WalkStep(g, Field(w), u);
      WalkStep(f, Head(Bucket(w)), u);
      LinkIn(f, Head(Bucket(w)));
      var link := f.heads[Bucket(w)];
      if link.Some? && link.value != u {
        SameWalk(f, g, Field(link.value), u, |f.wrappers|);
      }
    }
  }
}
