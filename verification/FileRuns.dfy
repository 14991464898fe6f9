/** Threads that open, use and close wrapped streams, one critical section of asm2_file_mutex at a time. */
module FileRuns {
  import opened Wrappers
  import opened FileRegistry

  /** Using has an acquired operation; Waiting is the condition wait of a close; Handed is about to call fclose. */
  datatype Pc = Idle | Using(w: address32) | Waiting(w: address32, place: Place) | Handed(w: address32, host: nat)

  datatype State = State(files: Files, threads: map<nat, Pc>)

  datatype Act = WrapFile(w: address32, host: nat) | AcquireStream(w: address32) | ReleaseStream
               | TakeForClose(w: address32) | Resume | HostClose

  // ---- The invariant ----

  function Users(s: State, w: address32): set<nat> {
    set t | t in s.threads && s.threads[t] == Using(w)
  }

  predicate WrapperSound(v: Wrapper) {
    if v.stage == Closed then v.host == None && v.operations == 0 else v.host.Some?
  }

  predicate PcSound(f: Files, pc: Pc) {
    match pc
    case Idle => true
    case Using(w) => w in f.wrappers && f.wrappers[w].stage != Closed
    case Waiting(w, place) =>
      && w in f.wrappers && f.wrappers[w].stage == Closing && PlaceFor(f, place, w)
      && (place.Field? ==> f.wrappers[place.w].stage == Closed || f.wrappers[place.w].next == Some(w))
    case Handed(w, _) => w in f.wrappers && f.wrappers[w].stage == Closed
  }

  ghost predicate FilesSound(f: Files) {
    && Sound(f)
    && (forall w :: w in f.wrappers ==> WrapperSound(f.wrappers[w]))
    && (forall w :: w in f.retired <==> w in f.wrappers && f.wrappers[w].stage == Closed)
    && (forall i, j :: 0 <= i < j < |f.retired| ==> f.retired[i] != f.retired[j])
    && f.closed == |f.retired| && f.created == |f.wrappers| && f.open + f.closed == f.created
  }

  /** The files and the thread after an act, if the thread can make it. */
  ghost function Do(f: Files, pc: Pc, act: Act): Option<(Files, Pc)>
    requires FilesSound(f) && PcSound(f, pc)
  {
    match act
    case WrapFile(w, host) => if pc.Idle? && w !in f.wrappers then Some((Wrap(f, w, host), Idle)) else None
    case AcquireStream(w) =>
      if !pc.Idle? then None
      else if w in f.wrappers && Listed(f, w) && f.wrappers[w].stage == Open && f.wrappers[w].host.Some?
      then Some((Acquire(f, w), Using(w)))
      else Some((f, Idle))
    case ReleaseStream => if pc.Using? then Some((Release(f, pc.w), Idle)) else None
    case TakeForClose(w) =>
      if !pc.Idle? then None
      else if w !in f.wrappers || !Listed(f, w) || f.wrappers[w].stage != Open then Some((f, Idle))
      else
        var place, closing := Walk(f, Head(Bucket(w)), w), StartClose(f, w);
        assert Exists(closing, place);
        if f.wrappers[w].operations != 0 then Some((closing, Waiting(w, place)))
        else Some((FinishClose(closing, w, place), Handed(w, f.wrappers[w].host.value)))
    case Resume =>
      if !pc.Waiting? || f.wrappers[pc.w].operations != 0 then None
      else Some((FinishClose(f, pc.w, pc.place), Handed(pc.w, f.wrappers[pc.w].host.value)))
    case HostClose => if pc.Handed? then Some((f, Idle)) else None
  }

  predicate SameClose(p: Pc, q: Pc) {
    p.Waiting? && q.Waiting? && p.w == q.w
  }

  ghost predicate Inv(s: State) {
    && FilesSound(s.files)
    && (forall t :: t in s.threads ==> PcSound(s.files, s.threads[t]))
    && (forall w :: w in s.files.wrappers ==> s.files.wrappers[w].operations == |Users(s, w)|)
    && (forall t, u :: t in s.threads && u in s.threads && t != u ==> !SameClose(s.threads[t], s.threads[u]))
  }

  /** A step is taken from files and a thread on which the act means something. */
  ghost predicate Step(s: State, n: State, t: nat, act: Act) {
    && t in s.threads && FilesSound(s.files) && PcSound(s.files, s.threads[t])
    && var done := Do(s.files, s.threads[t], act);
       && done.Some?
       && n == State(done.value.0, s.threads[t := done.value.1])
  }

  // ---- The files after each act ----

  lemma {:induction false} DistinctWithin(s: seq<address32>, all: set<address32>)
    requires forall i, j :: 0 <= i < j < |s| ==> s[i] != s[j]
    requires forall w :: w in s ==> w in all
    ensures |s| <= |all|
  {
    if s != [] {
      var last := s[|s| - 1];
      assert s[..|s| - 1] + [last] == s;
      DistinctWithin(s[..|s| - 1], all - {last});
    }
  }

  /** What no list and no counter depends on. */
  ghost predicate SameButWrapper(f: Files, g: Files, w: address32) {
    && w in f.wrappers && w in g.wrappers && g == Set(f, w, g.wrappers[w])
    && g.wrappers[w].next == f.wrappers[w].next && g.wrappers[w].stamp == f.wrappers[w].stamp
    && WrapperSound(g.wrappers[w]) && (g.wrappers[w].stage == Closed <==> f.wrappers[w].stage == Closed)
  }

  lemma SetSound(f: Files, g: Files, w: address32)
    requires FilesSound(f) && SameButWrapper(f, g, w)
    ensures FilesSound(g) && (forall u :: u in f.wrappers ==> (Listed(g, u) <==> Listed(f, u)))
    ensures Exact(f) ==> Exact(g)
  {
    hide Bucket, Sound, Listed;
    assert g.wrappers.Keys == f.wrappers.Keys;
    SameSize(f.wrappers, g.wrappers);
    SameLists(f, g);
  }

  lemma WrapFilesSound(f: Files, w: address32, host: nat)
    requires FilesSound(f) && w !in f.wrappers
    ensures |f.heads| == BUCKETS && FilesSound(Wrap(f, w, host)) && (Exact(f) ==> Exact(Wrap(f, w, host)))
  {
    hide Bucket, Sound, Exact;
    TableSize(f);
    WrapExact(f, w, host);
  }

  lemma FinishFilesSound(f: Files, w: address32, place: Place)
    requires FilesSound(f) && w in f.wrappers && f.wrappers[w].stage != Closed && f.wrappers[w].operations == 0
    requires PlaceFor(f, place, w)
    ensures |f.heads| == BUCKETS && FilesSound(FinishClose(f, w, place))
  {
    hide Bucket, Sound, Store;
    TableSize(f);
    FinishSound(f, w, place);
    FinishLinks(f, w, place);
    FinishStages(f, w, place);
    DistinctWithin(f.retired, f.wrappers.Keys - {w});
    FinishCounts(f, w, place);
  }

  lemma FinishCounts(f: Files, w: address32, place: Place)
    requires |f.heads| == BUCKETS && w in f.wrappers && Exists(f, place)
    ensures var g := FinishClose(f, w, place);
            && g.retired == [w] + f.retired && g.closed == f.closed + 1 && g.created == f.created
            && g.open == if f.open != 0 then f.open - 1 else 0
  {
    hide Bucket;
  }

  // ---- The other threads after each act ----

  lemma SetKeepsPc(f: Files, g: Files, w: address32, pc: Pc)
    requires SameButWrapper(f, g, w) && PcSound(f, pc) && |g.wrappers| == |f.wrappers|
    requires g.wrappers[w].stage == f.wrappers[w].stage || (f.wrappers[w].stage == Open && g.wrappers[w].stage == Closing)
    ensures PcSound(g, pc)
  {
    hide Bucket;
  }

  lemma WrapKeepsPc(f: Files, w: address32, host: nat, pc: Pc)
    requires |f.heads| == BUCKETS && w !in f.wrappers && PcSound(f, pc)
    ensures PcSound(Wrap(f, w, host), pc)
  {
    hide Bucket;
    assert |Wrap(f, w, host).wrappers| == |f.wrappers| + 1;
  }

  lemma FinishKeepsPc(f: Files, w: address32, place: Place, pc: Pc)
    requires Sound(f) && w in f.wrappers && PcSound(f, Waiting(w, place)) && PcSound(f, pc)
    requires pc != Using(w) && !SameClose(pc, Waiting(w, place))
    ensures |f.heads| == BUCKETS && PcSound(FinishClose(f, w, place), pc)
  {
    hide Bucket, Sound, FinishClose;
    TableSize(f);
    FinishLinks(f, w, place);
    FinishStages(f, w, place);
  }

  lemma UsersAfter(s: State, n: State, t: nat, w: address32)
    requires t in s.threads && t in n.threads && n.threads == s.threads[t := n.threads[t]]
    ensures s.threads[t] != Using(w) && n.threads[t] != Using(w) ==> Users(n, w) == Users(s, w)
    ensures s.threads[t] != Using(w) && n.threads[t] == Using(w) ==> |Users(n, w)| == |Users(s, w)| + 1
    ensures s.threads[t] == Using(w) && n.threads[t] != Using(w) ==> |Users(n, w)| == |Users(s, w)| - 1
  {
    if s.threads[t] != Using(w) && n.threads[t] != Using(w) {
      assert Users(n, w) == Users(s, w);
    } else if s.threads[t] != Using(w) {
      assert Users(n, w) == Users(s, w) + {t};
    } else if n.threads[t] != Using(w) {
      assert Users(s, w) == Users(n, w) + {t};
    }
  }

  lemma NobodyUses(s: State, w: address32, t: nat)
    requires |Users(s, w)| == 0 && t in s.threads
    ensures s.threads[t] != Using(w)
  {
    assert s.threads[t] == Using(w) ==> t in Users(s, w);
  }

  lemma FromSetPcs(s: State, n: State, t: nat, w: address32)
    requires Inv(s) && t in s.threads && t in n.threads && n.threads == s.threads[t := n.threads[t]]
    requires SameButWrapper(s.files, n.files, w) && PcSound(n.files, n.threads[t])
    requires n.files.wrappers[w].stage == s.files.wrappers[w].stage
             || (s.files.wrappers[w].stage == Open && n.files.wrappers[w].stage == Closing)
    requires forall u :: u in s.threads && u != t ==> !SameClose(n.threads[t], s.threads[u])
    ensures forall u :: u in n.threads ==> PcSound(n.files, n.threads[u])
    ensures forall u, v :: u in n.threads && v in n.threads && u != v ==> !SameClose(n.threads[u], n.threads[v])
  {
    hide Bucket, Sound, PcSound, FilesSound, SameButWrapper;
    SetSize(s.files, n.files, w);
    forall u | u in n.threads
      ensures PcSound(n.files, n.threads[u])
    {
      if u != t {
        SetKeepsPc(s.files, n.files, w, s.threads[u]);
      }
    }
  }

  lemma FromSetCounts(s: State, n: State, t: nat, w: address32)
    requires Inv(s) && t in s.threads && t in n.threads && n.threads == s.threads[t := n.threads[t]]
    requires SameButWrapper(s.files, n.files, w) && n.files.wrappers[w].operations == |Users(n, w)|
    requires forall u :: u != w ==> s.threads[t] != Using(u) && n.threads[t] != Using(u)
    ensures forall v :: v in n.files.wrappers ==> n.files.wrappers[v].operations == |Users(n, v)|
  {
    hide Bucket, Sound, PcSound, FilesSound, SameButWrapper, Users;
    SetSize(s.files, n.files, w);
    forall v | v in n.files.wrappers
      ensures n.files.wrappers[v].operations == |Users(n, v)|
    {
      if v != w {
        UsersAfter(s, n, t, v);
      }
    }
  }

  /** The invariant after a step of t that changes no wrapper but w's own fields. */
  lemma FromSet(s: State, n: State, t: nat, w: address32)
    requires Inv(s) && t in s.threads && t in n.threads && n.threads == s.threads[t := n.threads[t]]
    requires SameButWrapper(s.files, n.files, w) && PcSound(n.files, n.threads[t])
    requires n.files.wrappers[w].stage == s.files.wrappers[w].stage
             || (s.files.wrappers[w].stage == Open && n.files.wrappers[w].stage == Closing)
    requires n.files.wrappers[w].operations == |Users(n, w)|
    requires forall u :: u != w ==> s.threads[t] != Using(u) && n.threads[t] != Using(u)
    requires forall u :: u in s.threads && u != t ==> !SameClose(n.threads[t], s.threads[u])
    ensures Inv(n)
  {
    hide Bucket, Sound, PcSound, FilesSound, Users, SameButWrapper, SameClose;
    SoundIn(s);
    SetSound(s.files, n.files, w);
    FromSetPcs(s, n, t, w);
    FromSetCounts(s, n, t, w);
  }

  lemma SetSize(f: Files, g: Files, w: address32)
    requires SameButWrapper(f, g, w)
    ensures |g.wrappers| == |f.wrappers| && g.wrappers.Keys == f.wrappers.Keys
    ensures forall v :: v in f.wrappers && v != w ==> g.wrappers[v] == f.wrappers[v]
  {
    assert g.wrappers.Keys == f.wrappers.Keys;
    SameSize(f.wrappers, g.wrappers);
  }

  lemma FromFinish(s: State, n: State, t: nat, w: address32, place: Place)
    requires Inv(s) && t in s.threads && w in s.files.wrappers && s.files.wrappers[w].operations == 0
    requires s.threads[t] == Waiting(w, place) && |s.files.heads| == BUCKETS && Exists(s.files, place)
    requires t in n.threads && n.files == FinishClose(s.files, w, place) && n.threads == s.threads[t := n.threads[t]]
    requires n.threads[t].Handed? && n.threads[t].w == w
    ensures Inv(n)
  {
    hide Bucket, Sound, FilesSound, FinishClose, WrapperSound;
    FinishFilesSound(s.files, w, place);
    FinishStages(s.files, w, place);
    SoundOf(s.files);
    forall u | u in n.threads
      ensures PcSound(n.files, n.threads[u])
    {
      if u != t {
        NobodyUses(s, w, u);
        assert !SameClose(s.threads[u], s.threads[t]);
        FinishKeepsPc(s.files, w, place, s.threads[u]);
      }
    }
    forall v | v in n.files.wrappers
      ensures n.files.wrappers[v].operations == |Users(n, v)|
    {
      UsersAfter(s, n, t, v);
    }
  }

  lemma SoundOf(f: Files)
    requires FilesSound(f)
    ensures Sound(f)
  {
    hide Bucket, Sound;
  }

  lemma WrapStep(s: State, n: State, t: nat, w: address32, host: nat)
    requires Inv(s) && Step(s, n, t, WrapFile(w, host))
    ensures Inv(n) && (Exact(s.files) ==> Exact(n.files))
  {
    hide Bucket, Sound, FilesSound, WrapperSound, Exact, PcSound;
    SoundOf(s.files);
    WrapFilesSound(s.files, w, host);
    forall u | u in n.threads
      ensures PcSound(n.files, n.threads[u])
    {
      WrapKeepsPc(s.files, w, host, s.threads[u]);
    }
    assert s.threads[t] == Idle == n.threads[t];
    forall v | v in n.files.wrappers
      ensures n.files.wrappers[v].operations == |Users(n, v)|
    {
      UsersAfter(s, n, t, v);
      if v == w {
        NoUserYet(s, w);
      }
    }
  }

  lemma NoUserYet(s: State, w: address32)
    requires Inv(s) && w !in s.files.wrappers
    ensures Users(s, w) == {}
  {
    hide Bucket, Sound, FilesSound;
    forall t | t in s.threads
      ensures s.threads[t] != Using(w)
    {
      assert PcSound(s.files, s.threads[t]);
    }
  }

  // ---- Every step ----

  /** A close that need not wait is one that waits for no time. */
  ghost function Marked(s: State, t: nat, w: address32): State
    requires Inv(s) && t in s.threads && w in s.files.wrappers
  {
    State(StartClose(s.files, w), s.threads[t := Waiting(w, Walk(s.files, Head(Bucket(w)), w))])
  }

  lemma AcquireStep(s: State, n: State, t: nat, w: address32)
    requires Inv(s) && Step(s, n, t, AcquireStream(w))
    ensures Inv(n) && (Exact(s.files) ==> Exact(n.files))
  {
    hide Bucket, Sound, Exact, Listed;
    SoundOf(s.files);
    if n.files != s.files || n.threads[t] != Idle {
      UsersAfter(s, n, t, w);
      assert WrapperSound(s.files.wrappers[w]);
      FromSet(s, n, t, w);
      SetSound(s.files, n.files, w);
    } else {
      assert n.threads == s.threads;
    }
  }

  lemma ReleaseStep(s: State, n: State, t: nat)
    requires Inv(s) && Step(s, n, t, ReleaseStream)
    ensures Inv(n) && (Exact(s.files) ==> Exact(n.files))
  {
    hide Bucket, Sound, Exact, Listed;
    SoundOf(s.files);
    var w := s.threads[t].w;
    UsersAfter(s, n, t, w);
    assert PcSound(s.files, s.threads[t]) && WrapperSound(s.files.wrappers[w]);
    FromSet(s, n, t, w);
    SetSound(s.files, n.files, w);
  }

  lemma MarkedInv(s: State, t: nat, w: address32)
    requires Inv(s) && t in s.threads && s.threads[t] == Idle && w in s.files.wrappers
    requires Listed(s.files, w) && s.files.wrappers[w].stage == Open
    ensures Inv(Marked(s, t, w)) && (Exact(s.files) ==> Exact(Marked(s, t, w).files))
    ensures var place := Walk(s.files, Head(Bucket(w)), w);
            Exists(Marked(s, t, w).files, place) && |Marked(s, t, w).files.heads| == BUCKETS
            && Deref(Marked(s, t, w).files, place) == Some(w)
  {
    hide Bucket, Sound, Exact, FilesSound, Walk, Reaches, PcSound;
    SoundOf(s.files);
    TableSize(s.files);
    var n := Marked(s, t, w);
    var place := Walk(s.files, Head(Bucket(w)), w);
    WalkPlace(s.files, Head(Bucket(w)), w);
    UsersAfter(s, n, t, w);
    ClosingSame(s.files, w, place);
    SetSize(s.files, n.files, w);
    forall u | u in s.threads && u != t
      ensures !SameClose(n.threads[t], s.threads[u])
    {
      OpenNotWaiting(s, u, w);
    }
    MarkedPc(s, t, w);
    FromSet(s, n, t, w);
    SetSound(s.files, n.files, w);
  }

  lemma OpenNotWaiting(s: State, u: nat, w: address32)
    requires Inv(s) && u in s.threads && w in s.files.wrappers && s.files.wrappers[w].stage == Open
    ensures !(s.threads[u].Waiting? && s.threads[u].w == w)
  {
    hide Bucket, FilesSound;
    assert PcSound(s.files, s.threads[u]);
  }

  lemma MarkedPc(s: State, t: nat, w: address32)
    requires Inv(s) && t in s.threads && w in s.files.wrappers && s.files.wrappers[w].stage == Open && Listed(s.files, w)
    ensures SameButWrapper(s.files, Marked(s, t, w).files, w)
    ensures PcSound(Marked(s, t, w).files, Marked(s, t, w).threads[t])
  {
    hide Bucket, Sound, Walk, Reaches;
    SoundOf(s.files);
    WalkPlace(s.files, Head(Bucket(w)), w);
    ClosingSame(s.files, w, Walk(s.files, Head(Bucket(w)), w));
    assert WrapperSound(s.files.wrappers[w]);
  }

  lemma {:induction false} WalkPlace(f: Files, p: Place, w: address32)
    requires Sound(f) && Exists(f, p) && w in f.wrappers && Reaches(f, p, w)
    ensures var q := Walk(f, p, w);
            Exists(f, q) && BucketOf(q) == BucketOf(p) && Bound(f, q) > f.wrappers[w].stamp && BucketOf(p) == Bucket(w)
            && |f.heads| == BUCKETS && Deref(f, q) == Some(w)
    decreases Bound(f, p)
  {
    hide Bucket, Sound, LinkSound;
    TableSize(f);
    LinkIn(f, p);
    WalkStep(f, p, w);
    if Deref(f, p) != Some(w) {
      WalkPlace(f, Field(Deref(f, p).value), w);
    }
  }

  lemma CloseStep(s: State, n: State, t: nat, w: address32)
    requires Inv(s) && Step(s, n, t, TakeForClose(w))
    ensures Inv(n) && (Exact(s.files) ==> Exact(n.files))
  {
    hide Bucket, Sound, Exact, Listed, FinishClose, FilesSound, Walk, PcSound, Inv;
    SoundIn(s);
    if w in s.files.wrappers && Listed(s.files, w) && s.files.wrappers[w].stage == Open {
      MarkedInv(s, t, w);
      if s.files.wrappers[w].operations == 0 {
        CloseAtOnce(s, n, t, w);
      }
    } else {
      assert n.threads == s.threads;
    }
  }

  lemma CloseAtOnce(s: State, n: State, t: nat, w: address32)
    requires Inv(s) && t in s.threads && w in s.files.wrappers && s.files.wrappers[w].operations == 0
    requires Listed(s.files, w) && s.files.wrappers[w].stage == Open && s.threads[t] == Idle
    requires Inv(Marked(s, t, w)) && (Exact(s.files) ==> Exact(Marked(s, t, w).files))
    requires var m, place := Marked(s, t, w), Walk(s.files, Head(Bucket(w)), w);
             && Exists(m.files, place) && |m.files.heads| == BUCKETS && Deref(m.files, place) == Some(w)
             && t in n.threads && n.threads[t].Handed? && n.threads[t].w == w
             && n == State(FinishClose(m.files, w, place), s.threads[t := n.threads[t]])
    ensures Inv(n) && (Exact(s.files) ==> Exact(n.files))
  {
    hide Bucket, Sound, Exact, Listed, FinishClose, FilesSound, Walk, PcSound, Inv;
    SoundIn(s);
    var m, place := Marked(s, t, w), Walk(s.files, Head(Bucket(w)), w);
    SoundIn(m);
    WaitingIn(m, t);
    assert n.threads == m.threads[t := n.threads[t]];
    FromFinish(m, n, t, w, place);
    if Exact(s.files) {
      FreshKeepsExact(m.files, w, place);
    }
  }

  /** A close that has waited keeps the lists exact if and only if its place still holds its wrapper. */
  lemma ResumeStep(s: State, n: State, t: nat)
    requires Inv(s) && Step(s, n, t, Resume)
    ensures Inv(n)
    ensures |s.files.heads| == BUCKETS && s.threads[t].Waiting? && Exists(s.files, s.threads[t].place)
    ensures Exact(s.files) ==> (Exact(n.files) <==> Deref(s.files, s.threads[t].place) == Some(s.threads[t].w))
  {
    hide Bucket, Sound, Exact, Listed, FinishClose;
    SoundOf(s.files);
    TableSize(s.files);
    var w, place := s.threads[t].w, s.threads[t].place;
    assert PcSound(s.files, s.threads[t]);
    FromFinish(s, n, t, w, place);
    if Exact(s.files) {
      CloseExact(s.files, w, place);
    }
  }

  lemma HostCloseStep(s: State, n: State, t: nat)
    requires Inv(s) && Step(s, n, t, HostClose)
    ensures Inv(n) && n.files == s.files
  {
    hide Bucket, Sound, FilesSound, PcSound, Users;
    IdleSound(s.files);
    forall v | v in n.files.wrappers
      ensures n.files.wrappers[v].operations == |Users(n, v)|
    {
      UsersAfter(s, n, t, v);
    }
  }

  lemma IdleSound(f: Files)
    ensures PcSound(f, Idle)
  {
  }

  lemma StepKeeps(s: State, n: State, t: nat, act: Act)
    requires Inv(s) && Step(s, n, t, act)
    ensures Inv(n) && t in n.threads && n.threads == s.threads[t := n.threads[t]]
    ensures act != Resume && Exact(s.files) ==> Exact(n.files)
  {
    hide Bucket, Inv, Exact, Listed, FinishClose, Wrap, Acquire, Release, StartClose;
    match act
    case WrapFile(w, host) => WrapStep(s, n, t, w, host);
    case AcquireStream(w) => AcquireStep(s, n, t, w);
    case ReleaseStream => ReleaseStep(s, n, t);
    case TakeForClose(w) => CloseStep(s, n, t, w);
    case Resume => ResumeStep(s, n, t);
    case HostClose => HostCloseStep(s, n, t);
  }

  // ---- Runs ----

  predicate Initial(s: State) {
    && s.files == Files(map[], seq(BUCKETS, _ => None), [], 0, 0, 0)
    && forall t :: t in s.threads ==> s.threads[t] == Idle
  }

  datatype Move = Move(thread: nat, act: Act)

  ghost predicate IsRun(run: seq<State>, moves: seq<Move>) {
    && |run| == |moves| + 1 && Initial(run[0])
    && forall k :: 0 <= k < |moves| ==> Step(run[k], run[k + 1], moves[k].thread, moves[k].act)
  }

  lemma InitialInv(s: State)
    requires Initial(s)
    ensures Inv(s) && Exact(s.files)
  {
    hide Bucket;
  }

  /** The invariant holds in every reachable state, so no run stops because an act there means nothing. */
  lemma {:induction false} RunKeeps(run: seq<State>, moves: seq<Move>, k: nat)
    requires IsRun(run, moves) && k < |run|
    ensures Inv(run[k])
  {
    hide Bucket, Inv, Step;
    if k == 0 {
      InitialInv(run[0]);
    } else {
      RunKeeps(run, moves, k - 1);
      StepKeeps(run[k - 1], run[k], moves[k - 1].thread, moves[k - 1].act);
    }
  }

  function Rank(stage: Stage): nat {
    match stage
    case Open => 0
    case Closing => 1
    case Closed => 2
  }

  ghost predicate StagesGrow(f: Files, g: Files) {
    forall w :: w in f.wrappers ==> w in g.wrappers && Rank(f.wrappers[w].stage) <= Rank(g.wrappers[w].stage)
  }

  /** Acquiring needs an open wrapper; handing its host over closes it. */
  ghost predicate PcFollows(f: Files, g: Files, pc: Pc) {
    match pc
    case Using(w) => w in f.wrappers && f.wrappers[w].stage == Open
    case Handed(w, host) =>
      && w in f.wrappers && f.wrappers[w].stage != Closed && f.wrappers[w].host == Some(host)
      && w in g.wrappers && g.wrappers[w].stage == Closed && g.wrappers[w].host == None
    case _ => true
  }

  lemma FinishGrows(f: Files, w: address32, place: Place, host: nat)
    requires w in f.wrappers && f.wrappers[w].stage != Closed && PlaceFor(f, place, w) && |f.heads| == BUCKETS
    requires f.wrappers[w].host == Some(host)
    ensures StagesGrow(f, FinishClose(f, w, place)) && PcFollows(f, FinishClose(f, w, place), Handed(w, host))
  {
    hide Bucket, FinishClose;
    FinishStages(f, w, place);
  }

  lemma SimpleGrows(f: Files, pc: Pc, act: Act)
    requires FilesSound(f) && PcSound(f, pc) && Do(f, pc, act).Some? && !act.TakeForClose? && !act.Resume?
    ensures var done := Do(f, pc, act).value; StagesGrow(f, done.0) && PcFollows(f, done.0, done.1)
  {
    hide Bucket, Sound, Listed, FinishClose, Walk;
  }

  lemma ResumeGrows(f: Files, pc: Pc)
    requires FilesSound(f) && PcSound(f, pc) && Do(f, pc, Resume).Some?
    ensures var done := Do(f, pc, Resume).value; StagesGrow(f, done.0) && PcFollows(f, done.0, done.1)
  {
    hide Bucket, Sound, Listed, FinishClose, Walk, StagesGrow, PcFollows;
    SoundOf(f);
    TableSize(f);
    assert WrapperSound(f.wrappers[pc.w]);
    FinishGrows(f, pc.w, pc.place, f.wrappers[pc.w].host.value);
  }

  lemma CloseGrows(f: Files, pc: Pc, w: address32)
    requires FilesSound(f) && PcSound(f, pc) && Do(f, pc, TakeForClose(w)).Some?
    ensures var done := Do(f, pc, TakeForClose(w)).value; StagesGrow(f, done.0) && PcFollows(f, done.0, done.1)
  {
    hide Bucket, Sound, FinishClose, Walk, PcFollows;
    SoundOf(f);
    TableSize(f);
    if w in f.wrappers && Listed(f, w) && f.wrappers[w].stage == Open {
      var place, closing := Walk(f, Head(Bucket(w)), w), StartClose(f, w);
      WalkPlace(f, Head(Bucket(w)), w);
      ClosingSame(f, w, place);
      if f.wrappers[w].operations == 0 {
        var host := f.wrappers[w].host.value;
        FinishGrows(closing, w, place, host);
        FollowsFromClosing(f, w, FinishClose(closing, w, place), host);
      } else {
        PcFollowsWaiting(f, closing, w, place);
      }
    } else {
      PcFollowsIdle(f);
    }
  }

  lemma ClosingSame(f: Files, w: address32, place: Place)
    requires FilesSound(f) && w in f.wrappers && f.wrappers[w].stage == Open && PlaceFor(f, place, w)
    ensures var g := StartClose(f, w);
            && StagesGrow(f, g) && PlaceFor(g, place, w) && g.heads == f.heads && f.wrappers[w].host.Some?
            && g.wrappers[w].stage == Closing && g.wrappers[w].host == f.wrappers[w].host
  {
    hide Bucket, Sound;
    assert WrapperSound(f.wrappers[w]);
    SameSize(f.wrappers, StartClose(f, w).wrappers);
  }

  lemma FollowsFromClosing(f: Files, w: address32, g: Files, host: nat)
    requires w in f.wrappers && f.wrappers[w].stage == Open && PcFollows(StartClose(f, w), g, Handed(w, host))
    ensures PcFollows(f, g, Handed(w, host))
  {
  }

  lemma PcFollowsWaiting(f: Files, g: Files, w: address32, place: Place)
    ensures PcFollows(f, g, Waiting(w, place))
  {
  }

  lemma PcFollowsIdle(f: Files)
    ensures PcFollows(f, f, Idle)
  {
  }

  /** Wrappers only ever move from open to closing to closed. */
  lemma StepStages(s: State, n: State, t: nat, act: Act)
    requires Inv(s) && Step(s, n, t, act)
    ensures StagesGrow(s.files, n.files)
    ensures t in n.threads && PcFollows(s.files, n.files, n.threads[t])
    ensures forall u :: u != t && u in n.threads ==> u in s.threads && n.threads[u] == s.threads[u]
  {
    hide Bucket, FilesSound, Listed, StagesGrow, PcFollows;
    match act
    case TakeForClose(w) => CloseGrows(s.files, s.threads[t], w);
    case Resume => ResumeGrows(s.files, s.threads[t]);
    case _ => SimpleGrows(s.files, s.threads[t], act);
  }

  lemma {:induction false} StagesStay(run: seq<State>, moves: seq<Move>, i: nat, j: nat, w: address32)
    requires IsRun(run, moves) && i <= j < |run| && w in run[i].files.wrappers
    ensures w in run[j].files.wrappers && Rank(run[i].files.wrappers[w].stage) <= Rank(run[j].files.wrappers[w].stage)
  {
    hide Inv, Step, Rank;
    if i < j {
      StagesStay(run, moves, i, j - 1, w);
      RunKeeps(run, moves, j - 1);
      StepStages(run[j - 1], run[j], moves[j - 1].thread, moves[j - 1].act);
    }
  }

  /**
   A host stream is handed to fclose only when no acquired operation on its
   wrapper is unreleased, and none is acquired from then on.
   */
  lemma NoUseAfterHanding(run: seq<State>, moves: seq<Move>, i: nat, j: nat, t: nat, u: nat)
    requires IsRun(run, moves) && i <= j < |run| && t in run[i].threads && u in run[j].threads
    requires run[i].threads[t].Handed?
    ensures run[j].threads[u] != Using(run[i].threads[t].w)
    ensures run[i].threads[t].w in run[j].files.wrappers
            && run[j].files.wrappers[run[i].threads[t].w].operations == 0
  {
    hide Bucket, Sound, Step;
    RunKeeps(run, moves, i);
    RunKeeps(run, moves, j);
    assert PcSound(run[i].files, run[i].threads[t]);
    StagesStay(run, moves, i, j, run[i].threads[t].w);
    assert PcSound(run[j].files, run[j].threads[u]);
    assert WrapperSound(run[j].files.wrappers[run[i].threads[t].w]);
  }

  /** Once closing has started, no acquire succeeds: whoever uses the wrapper afterwards already did. */
  lemma {:induction false} NoAcquireOnceClosing(run: seq<State>, moves: seq<Move>, i: nat, j: nat, w: address32, u: nat)
    requires IsRun(run, moves) && i <= j < |run| && w in run[i].files.wrappers && run[i].files.wrappers[w].stage != Open
    requires u in run[j].threads && run[j].threads[u] == Using(w)
    ensures u in run[i].threads && run[i].threads[u] == Using(w)
  {
    hide Inv, Step, StagesGrow;
    if i < j {
      StagesStay(run, moves, i, j - 1, w);
      RunKeeps(run, moves, j - 1);
      StepStages(run[j - 1], run[j], moves[j - 1].thread, moves[j - 1].act);
      NoAcquireOnceClosing(run, moves, i, j - 1, w, u);
    }
  }

  /** The step at k hands the wrapper's host stream to fclose. */
  ghost predicate HandsOver(run: seq<State>, moves: seq<Move>, k: nat, w: address32) {
    && IsRun(run, moves) && k < |moves| && moves[k].thread in run[k + 1].threads
    && run[k + 1].threads[moves[k].thread].Handed? && run[k + 1].threads[moves[k].thread].w == w
  }

  /** Each wrapper is closed at most once. */
  lemma ClosedOnce(run: seq<State>, moves: seq<Move>, i: nat, j: nat, w: address32)
    requires HandsOver(run, moves, i, w) && HandsOver(run, moves, j, w)
    ensures i == j
  {
    hide Bucket, Inv, Step;
    var a, b := if i < j then i else j, if i < j then j else i;
    RunKeeps(run, moves, a);
    RunKeeps(run, moves, b);
    StepStages(run[a], run[a + 1], moves[a].thread, moves[a].act);
    StepStages(run[b], run[b + 1], moves[b].thread, moves[b].act);
    if a < b {
      StagesStay(run, moves, a + 1, b, w);
    }
  }

  /** created = open + closed, and the closed ones are exactly the retired, each once. */
  lemma Counters(run: seq<State>, moves: seq<Move>, k: nat)
    requires IsRun(run, moves) && k < |run|
    ensures var f := run[k].files;
            && f.created == f.open + f.closed && f.created == |f.wrappers| && f.closed == |f.retired|
            && (forall w :: w in f.retired <==> w in f.wrappers && f.wrappers[w].stage == Closed)
            && (forall i, j :: 0 <= i < j < |f.retired| ==> f.retired[i] != f.retired[j])
  {
    RunKeeps(run, moves, k);
  }

  /** While no close has had to wait, the bucket lists hold exactly the wrappers that are not closed. */
  lemma {:induction false} ListsExact(run: seq<State>, moves: seq<Move>, k: nat)
    requires IsRun(run, moves) && k < |run|
    requires forall i :: 0 <= i < k ==> moves[i].act != Resume
    ensures Inv(run[k]) && Exact(run[k].files)
  {
    hide Bucket, Inv, Step, Exact;
    RunKeeps(run, moves, k);
    if k == 0 {
      InitialInv(run[0]);
    } else {
      ListsExact(run, moves, k - 1);
      RunKeeps(run, moves, k - 1);
      StepKeeps(run[k - 1], run[k], moves[k - 1].thread, moves[k - 1].act);
    }
  }

  /** The place that a resumed close remembers still holds its wrapper. */
  predicate FoundItself(f: Files, pc: Pc) {
    && pc.Waiting? && |f.heads| == BUCKETS && Exists(f, pc.place)
    && Deref(f, pc.place) == Some(pc.w)
  }

  ghost predicate ExactAt(s: State) {
    Inv(s) && Exact(s.files)
  }

  lemma ExactStep(s: State, n: State, t: nat, act: Act)
    requires Inv(s) && Step(s, n, t, act) && Exact(s.files)
    ensures Inv(n) && (Exact(n.files) <==> (act == Resume ==> FoundItself(s.files, s.threads[t])))
  {
    hide Bucket, Inv, Exact, Do;
    StepKeeps(s, n, t, act);
    if act == Resume {
      ResumeStep(s, n, t);
    }
  }

  /** Over a whole run the lists stay exact if and only if every close that waited finds its wrapper still at its place. */
  lemma {:induction false} ListsExactly(run: seq<State>, moves: seq<Move>, k: nat)
    requires IsRun(run, moves) && k < |run|
    ensures (forall j :: 0 <= j <= k ==> ExactAt(run[j]))
       <==> (forall j :: 0 <= j < k && moves[j].act == Resume ==>
               moves[j].thread in run[j].threads && FoundItself(run[j].files, run[j].threads[moves[j].thread]))
    decreases k
  {
    hide Bucket, Inv, Exact, Do, FoundItself;
    if k == 0 {
      InitialInv(run[0]);
    } else {
      ListsExactly(run, moves, k - 1);
      RunKeeps(run, moves, k - 1);
      if ExactAt(run[k - 1]) {
        ExactStep(run[k - 1], run[k], moves[k - 1].thread, moves[k - 1].act);
      }
    }
  }

  // ---- A close that waited may lose an open wrapper ----

  /** The first stream is opened by thread 0, used by thread 1, and then thread 0 waits to close it. */
  lemma WaitingClose(first: address32) returns (run: seq<State>, moves: seq<Move>)
    ensures IsRun(run, moves) && |run| == 4 && ExactAt(run[3])
    ensures run[3].threads == map[0 := Waiting(first, Head(Bucket(first))), 1 := Using(first), 2 := Idle]
    ensures run[3].files == Files(map[first := Wrapper(Some(7), Closing, 1, None, 0)], run[3].files.heads, [], 1, 1, 0)
    ensures |run[3].files.heads| == BUCKETS && run[3].files.heads[Bucket(first)] == Some(first)
  {
    hide Bucket, Sound, Exact, Listed, Inv, Walk, Reaches, FinishClose, PcSound, FilesSound;
    var s0 := State(Files(map[], seq(BUCKETS, _ => None), [], 0, 0, 0), map[0 := Idle, 1 := Idle, 2 := Idle]);
    InitialInv(s0);
    SoundIn(s0);
    var s1 := State(Wrap(s0.files, first, 7), s0.threads[0 := Idle]);
    assert Step(s0, s1, 0, WrapFile(first, 7));
    StepKeeps(s0, s1, 0, WrapFile(first, 7));
    SoundIn(s1);
    OpenIsListed(s1.files, first);
    var s2 := State(Acquire(s1.files, first), s1.threads[1 := Using(first)]);
    assert Step(s1, s2, 1, AcquireStream(first));
    StepKeeps(s1, s2, 1, AcquireStream(first));
    SoundIn(s2);
    OpenIsListed(s2.files, first);
    WalkStep(s2.files, Head(Bucket(first)), first);
    var s3 := State(StartClose(s2.files, first), s2.threads[0 := Waiting(first, Head(Bucket(first)))]);
    assert Step(s2, s3, 0, TakeForClose(first));
    StepKeeps(s2, s3, 0, TakeForClose(first));
    run := [s0, s1, s2, s3];
    moves := [Move(0, WrapFile(first, 7)), Move(1, AcquireStream(first)), Move(0, TakeForClose(first))];
  }

  /**
   Two streams of one bucket: the first is closed while an operation is
   unreleased, the second is opened during the wait, and the close then
   overwrites the bucket head that holds the second.
   */
  lemma StaleClose(first: address32, second: address32) returns (run: seq<State>, moves: seq<Move>)
    requires first != second && Bucket(first) == Bucket(second)
    ensures IsRun(run, moves) && |run| == 7
    ensures Inv(run[6]) && second in run[6].files.wrappers && run[6].files.wrappers[second].stage == Open
    ensures !Listed(run[6].files, second)
  {
    hide Bucket, Sound, Exact, Listed, Inv, Walk, Reaches, FinishClose, PcSound, FilesSound;
    var b := Bucket(first);
    var before, made := WaitingClose(first);
    var s3 := before[3];
    SoundIn(s3);
    var s4 := State(Wrap(s3.files, second, 8), s3.threads[2 := Idle]);
    assert Step(s3, s4, 2, WrapFile(second, 8));
    StepKeeps(s3, s4, 2, WrapFile(second, 8));
    SoundIn(s4);
    var s5 := State(Release(s4.files, first), s4.threads[1 := Idle]);
    assert Step(s4, s5, 1, ReleaseStream);
    StepKeeps(s4, s5, 1, ReleaseStream);
    SoundIn(s5);
    WaitingIn(s5, 0);
    var s6 := State(FinishClose(s5.files, first, Head(b)), s5.threads[0 := Handed(first, 7)]);
    assert Step(s5, s6, 0, Resume);
    StepKeeps(s5, s6, 0, Resume);
    StaleHead(s5.files, first, b);
    FinishStages(s5.files, first, Head(b));
    run := before + [s4, s5, s6];
    moves := made + [Move(2, WrapFile(second, 8)), Move(1, ReleaseStream), Move(0, Resume)];
    Joined(before, made, run, moves);
  }

  /** A run of three moves with three more. */
  lemma Joined(before: seq<State>, made: seq<Move>, run: seq<State>, moves: seq<Move>)
    requires IsRun(before, made) && |before| == 4 && |run| == 7 && |moves| == 6 && before == run[..4] && made == moves[..3]
    requires forall k :: 3 <= k < 6 ==> Step(run[k], run[k + 1], moves[k].thread, moves[k].act)
    ensures IsRun(run, moves)
  {
    hide Step;
    forall k | 0 <= k < |moves|
      ensures Step(run[k], run[k + 1], moves[k].thread, moves[k].act)
    {
      if k < 3 {
        assert run[k] == before[k] && run[k + 1] == before[k + 1] && moves[k] == made[k];
      }
    }
  }

  /** Such streams exist, 0x1000 and 0x2030 for two, so there is such a run. */
  lemma StreamLost() returns (run: seq<State>, moves: seq<Move>)
    ensures IsRun(run, moves) && Inv(run[|run| - 1])
    ensures 0x2030 in run[|run| - 1].files.wrappers && run[|run| - 1].files.wrappers[0x2030].stage == Open
    ensures !Listed(run[|run| - 1].files, 0x2030)
  {
    hide Bucket, IsRun, Inv, Listed;
    OneBucket();
    run, moves := StaleClose(0x1000, 0x2030);
  }

  lemma SoundIn(s: State)
    requires Inv(s)
    ensures Sound(s.files) && FilesSound(s.files) && |s.files.heads| == BUCKETS
    ensures forall t :: t in s.threads ==> PcSound(s.files, s.threads[t])
  {
    hide Bucket;
  }

  lemma OpenIsListed(f: Files, w: address32)
    requires Sound(f) && Exact(f) && w in f.wrappers && f.wrappers[w].stage == Open
    ensures Listed(f, w)
  {
    hide Listed;
  }

  lemma WaitingIn(s: State, t: nat)
    requires Inv(s) && t in s.threads && s.threads[t].Waiting?
    ensures s.threads[t].w in s.files.wrappers && s.files.wrappers[s.threads[t].w].stage == Closing
    ensures PlaceFor(s.files, s.threads[t].place, s.threads[t].w)
  {
    hide Bucket, Sound;
    assert PcSound(s.files, s.threads[t]);
  }

  lemma OneBucket()
    ensures Bucket(0x1000) == Bucket(0x2030)
  {
    hide Xor;
    XorZero(0x1000);
    XorZero(0x2030);
    XorZero(0x80);
    XorStep(0x100, 1);
    XorStep(0x203, 2);
    XorStep(0x101, 1);
    XorSixteen(0x100, 1);
    XorSixteen(0x203, 2);
  }

  lemma XorStep(a: nat, b: nat)
    ensures Xor(a, b) == (a + b) % 2 + 2 * Xor(a / 2, b / 2)
  {
  }

  lemma {:induction false} XorZero(a: nat)
    ensures Xor(a, 0) == a
  {
    if a > 0 {
      XorZero(a / 2);
    }
  }

  lemma XorTwice(a: nat, b: nat)
    ensures Xor(2 * a, 2 * b) == 2 * Xor(a, b)
  {
    hide Xor;
    XorStep(2 * a, 2 * b);
  }

  lemma XorSixteen(a: nat, b: nat)
    ensures Xor(16 * a, 16 * b) == 16 * Xor(a, b)
  {
    hide Xor;
    XorTwice(a, b);
    XorTwice(2 * a, 2 * b);
    XorTwice(4 * a, 4 * b);
    XorTwice(8 * a, 8 * b);
  }
}
