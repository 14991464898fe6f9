/** The critical sections of bionic_compat.c over linked wrappers, each against its step of the interleaved model. */
module FileHeap {
  import opened Wrappers
  import opened FileRegistry
  import opened FileRuns

  class FileWrapper {
    const stream: address32
    var host: Option<nat>
    var stage: Stage
    var operations: nat
    var hashNext: FileWrapper?
    ghost var stamp: nat

    constructor (stream: address32, host: nat)
      ensures this.stream == stream && this.host == Some(host) && stage == Open && operations == 0
      ensures hashNext == null
    {
      this.stream, this.host, stage, operations := stream, Some(host), Open, 0;
      hashNext, stamp := null, 0;
    }

    ghost function Value(): Wrapper
      reads `host, `stage, `operations, `hashNext, `stamp
    {
      Wrapper(host, stage, operations, Link(hashNext), stamp)
    }
  }

  function Link(w: FileWrapper?): Option<address32> {
    if w == null then None else Some(w.stream)
  }

  /** A place is the next field of a wrapper, or the head of the bucket when there is none. */
  function PlaceOf(holder: FileWrapper?, bucket: nat): Place {
    if holder == null then Head(bucket) else Field(holder.stream)
  }

  class Table {
    const active: array<FileWrapper?>
    /** asm2_retired_files, youngest first. */
    var retired: seq<address32>
    var created: nat
    var open: nat
    var closed: nat
    ghost var wrappers: map<address32, FileWrapper>
    ghost var all: set<FileWrapper>

    ghost predicate Known(w: FileWrapper?)
      reads `wrappers, `all
    {
      w != null ==> w in all && w.stream in wrappers && wrappers[w.stream] == w
    }

    ghost predicate Shape()
      reads this, active, all
    {
      && active.Length == BUCKETS
      && (forall s :: s in wrappers ==> wrappers[s] in all && wrappers[s].stream == s && Known(wrappers[s].hashNext))
      && (forall b :: 0 <= b < BUCKETS ==> Known(active[b]))
    }

    /** The value the interleaved model works on. */
    ghost function View(): (f: Files)
      requires Shape()
      reads this, active, all
      ensures |f.heads| == BUCKETS && f.wrappers.Keys == wrappers.Keys
    {
      Files(map s | s in wrappers :: wrappers[s].Value(),
            seq(BUCKETS, b requires 0 <= b < BUCKETS reads this, active => Link(active[b])),
            retired, created, open, closed)
    }

    ghost predicate Valid()
      reads this, active, all
    {
      Shape() && FilesSound(View())
    }

    lemma ShapeGives()
      requires Shape()
      ensures active.Length == BUCKETS
      ensures forall s :: s in wrappers ==> wrappers[s] in all && wrappers[s].stream == s && Known(wrappers[s].hashNext)
      ensures forall s :: s in wrappers ==> s in View().wrappers && View().wrappers[s] == wrappers[s].Value()
      ensures forall b :: 0 <= b < BUCKETS ==> Known(active[b]) && View().heads[b] == Link(active[b])
      ensures View().retired == retired && View().created == created && View().open == open && View().closed == closed
    {
    }

    /** The search for the place that holds the stream, or that ends its bucket. */
    method FindPlace(stream: address32) returns (holder: FileWrapper?, found: FileWrapper?)
      requires Valid()
      ensures Known(holder) && Known(found)
      ensures Sound(View()) && PlaceOf(holder, Bucket(stream)) == Walk(View(), Head(Bucket(stream)), stream)
      ensures found == (if holder == null then active[Bucket(stream)] else holder.hashNext)
      ensures found != null ==> found.stream == stream
      ensures (found != null) == Listed(View(), stream)
    {
      hide Bucket, Sound, FilesSound, Table.Shape, Table.View;
      ShapeGives();
      SoundOf(View());
      holder := null;
      found := active[Bucket(stream)];
      while found != null && found.stream != stream
        invariant Known(holder) && Known(found)
        invariant found == (if holder == null then active[Bucket(stream)] else holder.hashNext)
        invariant Exists(View(), PlaceOf(holder, Bucket(stream)))
        invariant Walk(View(), PlaceOf(holder, Bucket(stream)), stream) == Walk(View(), Head(Bucket(stream)), stream)
        decreases Bound(View(), PlaceOf(holder, Bucket(stream)))
      {
        WalkStep(View(), PlaceOf(holder, Bucket(stream)), stream);
        holder := found;
        found := found.hashNext;
      }
      WalkStep(View(), PlaceOf(holder, Bucket(stream)), stream);
    }

    twostate lemma LinksKnown()
      requires old(Shape()) && active.Length == BUCKETS && wrappers == old(wrappers) && all == old(all)
      requires forall s :: s in wrappers ==> wrappers[s].hashNext == old(wrappers[s].hashNext) || Known(wrappers[s].hashNext)
      requires forall b :: 0 <= b < BUCKETS ==> active[b] == old(active[b]) || Known(active[b])
      ensures Shape()
    {
      forall s | s in wrappers
        ensures wrappers[s] in all && wrappers[s].stream == s && Known(wrappers[s].hashNext)
      {
        assert old(Known(wrappers[s].hashNext));
      }
      forall b | 0 <= b < BUCKETS
        ensures Known(active[b])
      {
        assert old(Known(active[b]));
      }
    }

    /** Only fields of one wrapper that are no links have changed. */
    twostate lemma FieldsSet(item: FileWrapper)
      requires old(Shape()) && old(Known(item)) && wrappers == old(wrappers) && all == old(all)
      requires retired == old(retired) && created == old(created) && open == old(open) && closed == old(closed)
      requires forall s :: s in wrappers && wrappers[s] != item ==> unchanged(wrappers[s])
      requires item.hashNext == old(item.hashNext)
      requires forall b :: 0 <= b < BUCKETS ==> active[b] == old(active[b])
      ensures Shape() && View() == Set(old(View()), item.stream, item.Value())
    {
      hide Bucket, FileWrapper.Value;
      LinksKnown();
      forall s | s in wrappers && s != item.stream
        ensures wrappers[s].Value() == old(wrappers[s].Value())
      {
      }
      assert View().wrappers == Set(old(View()), item.stream, item.Value()).wrappers;
      assert View().heads == old(View()).heads;
    }

    /** What wrapping a host stream has changed. */
    twostate predicate JustWrapped(new item: FileWrapper, host: nat, bucket: nat)
      reads *
    {
      && bucket == Bucket(item.stream) && bucket < BUCKETS
      && item.stream !in old(wrappers) && item !in old(all)
      && wrappers == old(wrappers)[item.stream := item] && all == old(all) + {item}
      && retired == old(retired) && created == old(created) + 1 && open == old(open) + 1 && closed == old(closed)
      && (forall s :: s in old(wrappers) ==> unchanged(wrappers[s]))
      && active.Length == BUCKETS && active[bucket] == item
      && (forall b :: 0 <= b < BUCKETS && b != bucket ==> active[b] == old(active[b]))
      && item.hashNext == old(active[bucket]) && item.stamp == |old(wrappers)|
      && item.host == Some(host) && item.stage == Open && item.operations == 0
    }

    twostate lemma WrappedShape(new item: FileWrapper, new host: nat, new bucket: nat)
      requires old(Shape()) && JustWrapped(item, host, bucket)
      ensures Shape()
    {
      hide Bucket;
      forall s | s in wrappers
        ensures wrappers[s] in all && wrappers[s].stream == s && Known(wrappers[s].hashNext)
      {
        if s == item.stream {
          assert old(Known(active[bucket]));
        } else {
          assert old(Known(wrappers[s].hashNext));
        }
      }
      forall b | 0 <= b < BUCKETS
        ensures Known(active[b])
      {
        if b != bucket {
          assert old(Known(active[b]));
        }
      }
    }

    twostate lemma WrappedValues(new item: FileWrapper, new host: nat, new bucket: nat)
      requires old(Shape()) && JustWrapped(item, host, bucket)
      ensures forall u :: u in wrappers ==>
                wrappers[u].Value() == if u == item.stream then Wrapper(Some(host), Open, 0, old(View()).heads[bucket], |old(View()).wrappers|)
                                       else old(wrappers[u].Value())
      ensures forall b :: 0 <= b < BUCKETS ==> Link(active[b]) == if b == bucket then Some(item.stream) else old(View()).heads[b]
    {
      hide Bucket, Table.Known;
      SameSize(old(View()).wrappers, old(wrappers));
    }

    lemma WrapValue(f: Files, stream: address32, host: nat)
      requires |f.heads| == BUCKETS && stream !in f.wrappers
      ensures var g, bucket := Wrap(f, stream, host), Bucket(stream);
              && g.wrappers == f.wrappers[stream := Wrapper(Some(host), Open, 0, f.heads[bucket], |f.wrappers|)]
              && g.heads == f.heads[bucket := Some(stream)]
              && g.retired == f.retired && g.created == f.created + 1 && g.open == f.open + 1 && g.closed == f.closed
    {
      hide Bucket;
    }

    twostate lemma Wrapped(new item: FileWrapper, new host: nat, new bucket: nat)
      requires old(Shape()) && JustWrapped(item, host, bucket)
      ensures Shape() && View() == Wrap(old(View()), item.stream, host)
    {
      hide Bucket, Wrap, FileWrapper.Value, Table.Known;
      WrappedShape(item, host, bucket);
      WrappedValues(item, host, bucket);
      ghost var g := Wrap(old(View()), item.stream, host);
      WrapValue(old(View()), item.stream, host);
      assert View().wrappers == g.wrappers;
      assert View().heads == g.heads;
    }

    method StoreWrapped(stream: address32, host: nat) returns (item: FileWrapper)
      requires active.Length == BUCKETS && stream !in wrappers
      modifies `created, `open, `wrappers, `all, active
      ensures fresh(item) && item.stream == stream && JustWrapped(item, host, Bucket(stream))
    {
      hide Bucket;
      item := new FileWrapper(stream, host);
      item.stamp := |wrappers|;
      item.hashNext := active[Bucket(stream)];
      active[Bucket(stream)] := item;
      wrappers, all := wrappers[stream := item], all + {item};
      created, open := created + 1, open + 1;
    }

    /** asm2_wrap_file; the allocator hands out an address that no wrapper has. */
    method WrapStream(stream: address32, host: nat) returns (item: FileWrapper)
      requires Valid() && stream !in wrappers
      modifies `created, `open, `wrappers, `all, active
      ensures Valid() && fresh(item) && item.stream == stream && wrappers == old(wrappers)[stream := item]
      ensures View() == Wrap(old(View()), stream, host)
    {
      hide Bucket, Sound, FilesSound, Table.Shape, Table.View, Wrap, Exact, FileWrapper.Value;
      ShapeGives();
      ghost var before := View();
      item := StoreWrapped(stream, host);
      Wrapped(item, host, Bucket(stream));
      WrapFilesSound(before, stream, host);
    }

    method AcquireFile(stream: address32) returns (item: FileWrapper?)
      requires Valid()
      modifies all`operations
      ensures Valid() && Known(item) && wrappers == old(wrappers)
      ensures IsAcquire(old(View()), View(), stream, Link(item))
    {
      hide Bucket, Sound, FilesSound, Table.Shape, Table.View, Exact, Do, IsAcquire, Acquire, Listed, Walk;
      ShapeGives();
      ghost var before := View();
      SoundOf(before);
      var holder, found := FindPlace(stream);
      if found == null || found.stage != Open || found.host == None {
        AcquireRefused(before, stream);
        return null;
      }
      AcquireGranted(before, stream);
      StartOperation(found);
      item := found;
    }

    method StartOperation(item: FileWrapper)
      requires Valid() && Known(item) && item.stage == Open
      modifies item`operations
      ensures Valid() && View() == Acquire(old(View()), item.stream)
    {
      hide Bucket, Sound, FilesSound, Table.Shape, Table.View, Exact;
      ShapeGives();
      ghost var before := View();
      WrapperIn(before, item.stream);
      item.operations := item.operations + 1;
      FieldsSet(item);
      SetSound(before, View(), item.stream);
    }

    lemma WrapperIn(f: Files, w: address32)
      requires FilesSound(f) && w in f.wrappers
      ensures WrapperSound(f.wrappers[w])
    {
    }

    method ReleaseStream(item: FileWrapper)
      requires Valid() && Known(item) && item.stage != Closed
      modifies item`operations
      ensures Valid() && wrappers == old(wrappers) && View() == Release(old(View()), item.stream)
    {
      hide Bucket, Sound, FilesSound, Table.Shape, Table.View, Exact;
      ShapeGives();
      ghost var before := View();
      WrapperIn(before, item.stream);
      if item.operations > 0 {
        item.operations := item.operations - 1;
        FieldsSet(item);
        SetSound(before, View(), item.stream);
      }
    }

    /** asm2_take_file_for_close up to its wait: the wrapper, and the place remembered for it. */
    method StartClosing(stream: address32) returns (item: FileWrapper?, holder: FileWrapper?)
      requires Valid()
      modifies all`stage
      ensures Valid() && Known(item) && Known(holder) && wrappers == old(wrappers)
      ensures item == null ==> View() == old(View())
      ensures item == null <==> !(stream in old(View()).wrappers && FilesListed(old(View()), stream)
                                  && old(View()).wrappers[stream].stage == Open)
      ensures item != null ==> item.stream == stream && View() == StartClose(old(View()), stream)
                               && IsWalk(old(View()), stream, PlaceOf(holder, Bucket(stream)))
    {
      hide Bucket, Sound, FilesSound, Table.Shape, Table.View, Exact;
      ShapeGives();
      ghost var before := View();
      SoundOf(before);
      var found;
      holder, found := FindPlace(stream);
      if found == null || found.stage != Open {
        return null, holder;
      }
      WrapperIn(before, stream);
      found.stage := Closing;
      FieldsSet(found);
      SetSound(before, View(), stream);
      item := found;
    }

    ghost function FinishedValue(f: Files, w: address32, place: Place, u: address32): Wrapper
      requires w in f.wrappers && u in f.wrappers
    {
      if u == w then Wrapper(None, Closed, f.wrappers[w].operations, None, f.wrappers[w].stamp)
      else if place == Field(u) then f.wrappers[u].(next := f.wrappers[w].next)
      else f.wrappers[u]
    }

    lemma FinishValue(f: Files, w: address32, place: Place)
      requires |f.heads| == BUCKETS && w in f.wrappers && Exists(f, place) && place != Field(w)
      ensures var g := FinishClose(f, w, place);
              && g.wrappers.Keys == f.wrappers.Keys && |g.heads| == BUCKETS
              && (forall u :: u in g.wrappers ==> g.wrappers[u] == FinishedValue(f, w, place, u))
              && (forall b :: 0 <= b < BUCKETS ==> g.heads[b] == if place == Head(b) then f.wrappers[w].next else f.heads[b])
              && g.retired == [w] + f.retired && g.closed == f.closed + 1 && g.created == f.created
              && g.open == if f.open != 0 then f.open - 1 else 0
    {
      hide Bucket;
    }

    twostate predicate SameFields(w: FileWrapper)
      reads w
    {
      && w.host == old(w.host) && w.stage == old(w.stage)
      && w.operations == old(w.operations) && w.stamp == old(w.stamp)
    }

    /** What closing a wrapper through the place of holder has changed. */
    twostate predicate JustClosed(item: FileWrapper, new holder: FileWrapper?)
      reads *
    {
      && wrappers == old(wrappers) && all == old(all) && active.Length == BUCKETS && holder != item
      && retired == [item.stream] + old(retired) && created == old(created) && closed == old(closed) + 1
      && open == (if old(open) != 0 then old(open) - 1 else 0)
      && (forall s :: s in wrappers && wrappers[s] != item && wrappers[s] != holder ==> unchanged(wrappers[s]))
      && item.host == None && item.stage == Closed && item.hashNext == null
      && item.operations == old(item.operations) && item.stamp == old(item.stamp)
      && (holder != null && old(allocated(holder)) ==> holder.hashNext == old(item.hashNext) && SameFields(holder))
      && (forall b :: 0 <= b < BUCKETS && (holder != null || b != Bucket(item.stream)) ==> active[b] == old(active[b]))
      && (holder == null ==> active[Bucket(item.stream)] == old(item.hashNext))
    }

    twostate lemma ClosedShape(item: FileWrapper, new holder: FileWrapper?)
      requires old(Shape()) && old(Known(item)) && Known(holder) && JustClosed(item, holder)
      ensures Shape()
    {
      hide Bucket;
      assert old(Known(item.hashNext));
      LinksKnown();
    }

    twostate lemma ClosedValues(item: FileWrapper, new holder: FileWrapper?)
      requires old(Shape()) && old(Known(item)) && Known(holder) && JustClosed(item, holder)
      ensures wrappers.Keys == old(View()).wrappers.Keys
      ensures forall u :: u in wrappers ==>
                wrappers[u].Value() == FinishedValue(old(View()), item.stream, PlaceOf(holder, Bucket(item.stream)), u)
    {
      hide Bucket;
      ghost var f, w, place := old(View()), item.stream, PlaceOf(holder, Bucket(item.stream));
      forall u | u in wrappers
        ensures u in f.wrappers && wrappers[u].Value() == FinishedValue(f, w, place, u)
      {
        assert f.wrappers[u] == old(wrappers[u].Value());
      }
    }

    twostate lemma Finished(item: FileWrapper, new holder: FileWrapper?)
      requires old(Shape()) && old(Known(item)) && Known(holder) && JustClosed(item, holder)
      ensures Shape() && |old(View()).heads| == BUCKETS && Exists(old(View()), PlaceOf(holder, Bucket(item.stream)))
      ensures View() == FinishClose(old(View()), item.stream, PlaceOf(holder, Bucket(item.stream)))
    {
      hide Bucket, FinishClose, FinishedValue;
      ClosedShape(item, holder);
      ClosedValues(item, holder);
      ghost var f, w, place := old(View()), item.stream, PlaceOf(holder, Bucket(item.stream));
      FinishValue(f, w, place);
      ghost var g := FinishClose(f, w, place);
      assert View().wrappers == g.wrappers;
      assert View().heads == g.heads;
    }

    /** The stores that take the item off its bucket, if the place is still right. */
    method Unlink(item: FileWrapper, holder: FileWrapper?)
      requires active.Length == BUCKETS && holder != item
      modifies active, item`hashNext, (if holder == null then {} else {holder})`hashNext
      ensures item.hashNext == null && (holder != null ==> holder.hashNext == old(item.hashNext))
      ensures holder == null ==> active[Bucket(item.stream)] == old(item.hashNext)
      ensures forall b :: 0 <= b < BUCKETS && (holder != null || b != Bucket(item.stream)) ==> active[b] == old(active[b])
    {
      hide Bucket;
      var next := item.hashNext;
      if holder == null {
        active[Bucket(item.stream)] := next;
      } else {
        holder.hashNext := next;
      }
      item.hashNext := null;
    }

    method StoreClosed(item: FileWrapper, holder: FileWrapper?) returns (host: Option<nat>)
      requires active.Length == BUCKETS && holder != item
      modifies `retired, `open, `closed, active, item, (if holder == null then {} else {holder})`hashNext
      ensures JustClosed(item, holder) && host == old(item.host)
    {
      hide Bucket;
      host := item.host;
      item.host := None;
      item.stage := Closed;
      Unlink(item, holder);
      retired := [item.stream] + retired;
      if open != 0 {
        open := open - 1;
      }
      closed := closed + 1;
    }

    /** asm2_take_file_for_close from the end of its wait, through the place it remembers. */
    method FinishClosing(item: FileWrapper, holder: FileWrapper?) returns (host: Option<nat>)
      requires Valid() && Known(item) && Known(holder) && holder != item && item.stage == Closing && item.operations == 0
      requires PlaceFor(View(), PlaceOf(holder, Bucket(item.stream)), item.stream)
      modifies `retired, `open, `closed, active, item, (if holder == null then {} else {holder})`hashNext
      ensures Valid() && wrappers == old(wrappers) && host == old(item.host)
      ensures IsFinish(old(View()), View(), item.stream, PlaceOf(holder, Bucket(item.stream)))
    {
      hide Bucket, Sound, FilesSound, Table.Shape, Table.View, FinishClose;
      ShapeGives();
      ghost var before := View();
      host := StoreClosed(item, holder);
      Finished(item, holder);
      FinishFilesSound(before, item.stream, PlaceOf(holder, Bucket(item.stream)));
    }
  }

  /** The step of the interleaved model for asm2_acquire_stream. */
  ghost predicate IsAcquire(f: Files, g: Files, stream: address32, link: Option<address32>) {
    FilesSound(f) && Do(f, Idle, AcquireStream(stream)) == Some((g, if link.Some? then Using(link.value) else Idle))
  }

  lemma AcquireRefused(f: Files, stream: address32)
    requires FilesSound(f) && Sound(f)
    requires !Listed(f, stream) || (stream in f.wrappers && (f.wrappers[stream].stage != Open || f.wrappers[stream].host == None))
    ensures IsAcquire(f, f, stream, None)
  {
    hide Bucket, Sound, Listed;
  }

  lemma AcquireGranted(f: Files, stream: address32)
    requires FilesSound(f) && Sound(f) && Listed(f, stream) && stream in f.wrappers
    requires f.wrappers[stream].stage == Open && f.wrappers[stream].host.Some?
    ensures IsAcquire(f, Acquire(f, stream), stream, Some(stream))
  {
    hide Bucket, Sound, Listed;
  }

  ghost predicate FilesListed(f: Files, stream: address32) {
    Sound(f) && Listed(f, stream)
  }

  ghost predicate IsWalk(f: Files, stream: address32, place: Place) {
    Sound(f) && place == Walk(f, Head(Bucket(stream)), stream)
  }

  ghost predicate IsFinish(f: Files, g: Files, w: address32, place: Place) {
    |f.heads| == BUCKETS && w in f.wrappers && Exists(f, place) && g == FinishClose(f, w, place)
  }
}
