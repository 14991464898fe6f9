/** The layout and copying of PT_LOAD segments in so_load. */
module ElfLoad {
  import opened Wrappers

  datatype Segment = Segment(load: bool, offset: nat, vaddr: nat, fileSize: nat, memorySize: nat,
                             writable: bool, executable: bool)

  const PAGE := 0x1000

  function PageDown(v: nat): nat {
    v / PAGE * PAGE
  }

  function PageUp(v: nat): nat {
    (v + PAGE - 1) / PAGE * PAGE
  }

  /** The bounds test of so_load. */
  predicate Accepted(s: Segment, size: nat) {
    s.fileSize <= s.memorySize && s.offset + s.fileSize <= size
  }

  /** No segment wraps around the 32-bit address space. */
  predicate NoWrap(segments: seq<Segment>) {
    forall i :: 0 <= i < |segments| ==> segments[i].vaddr + segments[i].memorySize + PAGE <= 0x1_0000_0000
  }

  predicate Loads(segments: seq<Segment>, i: nat) {
    i < |segments| && segments[i].load
  }

  predicate AllAccepted(segments: seq<Segment>, size: nat) {
    forall i :: 0 <= i < |segments| && Loads(segments, i) ==> Accepted(segments[i], size)
  }

  /** The lowest page start and the highest page end of the PT_LOAD segments; 2^32 and 0 if there are none. */
  function Lowest(segments: seq<Segment>): nat {
    if segments == [] then 0x1_0000_0000
    else
      var before, s := Lowest(segments[..|segments| - 1]), segments[|segments| - 1];
      if s.load && PageDown(s.vaddr) < before then PageDown(s.vaddr) else before
  }

  function Highest(segments: seq<Segment>): nat {
    if segments == [] then 0
    else
      var before, s := Highest(segments[..|segments| - 1]), segments[|segments| - 1];
      if s.load && PageUp(s.vaddr + s.memorySize) > before then PageUp(s.vaddr + s.memorySize) else before
  }

  ghost predicate Usable(segments: seq<Segment>) {
    && (exists i :: 0 <= i < |segments| && Loads(segments, i) && segments[i].executable)
    && (exists i :: 0 <= i < |segments| && Loads(segments, i) && segments[i].writable)
  }

  datatype Range = Range(low: nat, high: nat)

  /** The first loop of so_load: nothing on a bad or unusable layout, else the page range. */
  method LayOut(segments: seq<Segment>, size: nat) returns (range: Option<Range>)
    requires NoWrap(segments)
    ensures range.Some? <==> AllAccepted(segments, size) && Usable(segments) && Lowest(segments) < Highest(segments)
    ensures range.Some? ==> range.value == Range(Lowest(segments), Highest(segments))
  {
    hide PageDown, PageUp;
    var low, high := 0x1_0000_0000, 0;
    var text, data := -1, -1;
    var i := 0;
    while i < |segments|
      invariant i <= |segments|
      invariant forall j :: 0 <= j < i && Loads(segments, j) ==> Accepted(segments[j], size)
      invariant text >= 0 <==> exists j :: 0 <= j < i && Loads(segments, j) && segments[j].executable
      invariant data >= 0 <==> exists j :: 0 <= j < i && Loads(segments, j) && segments[j].writable
      invariant low == Lowest(segments[..i]) && high == Highest(segments[..i])
    {
      var s := segments[i];
      assert segments[..i + 1][..i] == segments[..i] && segments[..i + 1][i] == s;
      if s.load {
        assert Loads(segments, i);
        if s.fileSize > s.memorySize || s.offset + s.fileSize > size {
          return None;
        }
        var start, end := PageDown(s.vaddr), PageUp(s.vaddr + s.memorySize);
        low := if start < low then start else low;
        high := if end > high then end else high;
        text := if s.executable && text < 0 then i else text;
        data := if s.writable && data < 0 then i else data;
      }
      i := i + 1;
    }
    assert segments[..i] == segments;
    if high <= low || text < 0 || data < 0 {
      return None;
    }
    range := Some(Range(low, high));
  }

  /** The range is made of whole pages, and holds every PT_LOAD segment. */
  lemma {:induction false} RangeHolds(segments: seq<Segment>, i: nat)
    requires Loads(segments, i)
    ensures Lowest(segments) <= segments[i].vaddr
    ensures segments[i].vaddr + segments[i].memorySize <= Highest(segments)
    ensures Lowest(segments) % PAGE == 0 && Highest(segments) % PAGE == 0
  {
    WholePages(segments);
    if i < |segments| - 1 {
      RangeHolds(segments[..|segments| - 1], i);
    }
  }

  lemma {:induction false} WholePages(segments: seq<Segment>)
    ensures Lowest(segments) % PAGE == 0 && Highest(segments) % PAGE == 0
  {
    if segments != [] {
      WholePages(segments[..|segments| - 1]);
      Aligned(segments[|segments| - 1].vaddr / PAGE);
      Aligned((segments[|segments| - 1].vaddr + segments[|segments| - 1].memorySize + PAGE - 1) / PAGE);
    }
  }

  lemma Aligned(n: nat)
    ensures n * PAGE % PAGE == 0
  {
  }

  /** A range of whole pages that holds every PT_LOAD segment. */
  predicate Holds(segments: seq<Segment>, low: nat, high: nat) {
    && low % PAGE == 0 && high % PAGE == 0
    && forall i :: 0 <= i < |segments| && Loads(segments, i) ==>
         low <= segments[i].vaddr && segments[i].vaddr + segments[i].memorySize <= high
  }

  lemma PageBounds(v: nat, page: nat)
    requires page % PAGE == 0
    ensures page <= v ==> page <= PageDown(v)
    ensures v <= page ==> PageUp(v) <= page
  {
    var n := page / PAGE;
    assert page == n * PAGE;
  }

  lemma HoldsFront(segments: seq<Segment>, low: nat, high: nat)
    requires Holds(segments, low, high) && segments != []
    ensures Holds(segments[..|segments| - 1], low, high)
  {
    forall i | 0 <= i < |segments| - 1 && Loads(segments[..|segments| - 1], i)
      ensures low <= segments[i].vaddr && segments[i].vaddr + segments[i].memorySize <= high
    {
      assert Loads(segments, i);
    }
  }

  /** No range of whole pages that holds every PT_LOAD segment is smaller at either end. */
  lemma {:induction false} RangeSmallest(segments: seq<Segment>, low: nat, high: nat)
    requires NoWrap(segments) && Holds(segments, low, high) && exists i :: 0 <= i < |segments| && Loads(segments, i)
    ensures low <= Lowest(segments) && Highest(segments) <= high
  {
    hide PageDown, PageUp;
    var last := segments[|segments| - 1];
    HoldsFront(segments, low, high);
    if last.load {
      assert Loads(segments, |segments| - 1);
      PageBounds(last.vaddr, low);
      PageBounds(last.vaddr + last.memorySize, high);
    }
    if i :| 0 <= i < |segments| - 1 && Loads(segments, i) {
      assert Loads(segments[..|segments| - 1], i);
      RangeSmallest(segments[..|segments| - 1], low, high);
    } else {
      var front := segments[..|segments| - 1];
      forall j | 0 <= j < |front|
        ensures !front[j].load
      {
        assert !Loads(segments, j);
      }
      NoneLoads(front);
      BelowLimit(segments, |segments| - 1);
    }
  }

  lemma {:induction false} NoneLoads(segments: seq<Segment>)
    requires forall i :: 0 <= i < |segments| ==> !segments[i].load
    ensures Lowest(segments) == 0x1_0000_0000 && Highest(segments) == 0
  {
    if segments != [] {
      NoneLoads(segments[..|segments| - 1]);
    }
  }

  lemma BelowLimit(segments: seq<Segment>, i: nat)
    requires NoWrap(segments) && i < |segments|
    ensures PageDown(segments[i].vaddr) < 0x1_0000_0000
  {
  }

  // ---- The copy ----

  predicate FileCovers(s: Segment, v: nat) {
    s.load && s.vaddr <= v < s.vaddr + s.fileSize
  }

  /** The byte at an address: from the last segment whose file part covers it, else zero. */
  function ByteAt(segments: seq<Segment>, file: Bytes, v: nat): byte
    requires AllAccepted(segments, |file|)
  {
    if segments == [] then 0
    else
      var s := segments[|segments| - 1];
      assert s.load ==> Loads(segments, |segments| - 1);
      if FileCovers(s, v) then file[s.offset + (v - s.vaddr)]
      else
        assert forall i :: Loads(segments[..|segments| - 1], i) ==> Loads(segments, i);
        ByteAt(segments[..|segments| - 1], file, v)
  }

  lemma AcceptedPrefix(segments: seq<Segment>, size: nat, n: nat)
    requires AllAccepted(segments, size) && n <= |segments|
    ensures AllAccepted(segments[..n], size)
  {
    forall i | 0 <= i < n && Loads(segments[..n], i)
      ensures Accepted(segments[..n][i], size)
    {
      assert Loads(segments, i);
    }
  }

  /** The second loop: the memory is cleared, and then every PT_LOAD segment is copied in turn. */
  method CopySegments(segments: seq<Segment>, file: Bytes) returns (image: array<byte>)
    requires AllAccepted(segments, |file|) && Lowest(segments) < Highest(segments)
    ensures fresh(image) && image.Length == Highest(segments) - Lowest(segments)
    ensures forall p :: 0 <= p < image.Length ==> image[p] == ByteAt(segments, file, Lowest(segments) + p)
  {
    hide Lowest, Highest, Accepted;
    var low := Lowest(segments);
    image := new byte[Highest(segments) - low](_ => 0);
    AcceptedPrefix(segments, |file|, 0);
    var i := 0;
    while i < |segments|
      invariant i <= |segments| && fresh(image) && image.Length == Highest(segments) - low
      invariant AllAccepted(segments[..i], |file|)
      invariant forall p :: 0 <= p < image.Length ==> image[p] == ByteAt(segments[..i], file, low + p)
    {
      AcceptedPrefix(segments, |file|, i + 1);
      assert segments[..i + 1][..i] == segments[..i];
      var s := segments[i];
      if s.load {
        RangeHolds(segments, i);
        CopyOne(image, s, file, low);
      }
      i := i + 1;
    }
    assert segments[..i] == segments;
  }

  method CopyOne(image: array<byte>, s: Segment, file: Bytes, low: nat)
    requires s.load && Accepted(s, |file|)
    requires low <= s.vaddr && s.vaddr + s.memorySize <= low + image.Length
    modifies image
    ensures forall p :: 0 <= p < image.Length ==>
              image[p] == if FileCovers(s, low + p) then file[s.offset + (low + p - s.vaddr)] else old(image[p])
  {
    var n := 0;
    while n < s.fileSize
      invariant n <= s.fileSize
      invariant forall p :: 0 <= p < image.Length ==>
        image[p] == if s.vaddr <= low + p < s.vaddr + n then file[s.offset + (low + p - s.vaddr)] else old(image[p])
    {
      image[s.vaddr - low + n] := file[s.offset + n];
      n := n + 1;
    }
  }

  // ---- What the ELF specification asks of a loaded segment ----

  predicate MemoryApart(s: Segment, t: Segment) {
    s.vaddr + s.memorySize <= t.vaddr || t.vaddr + t.memorySize <= s.vaddr
  }

  /** Segments that do not overlap in memory get their file bytes first and then zeros. */
  lemma {:induction false} SegmentLoaded(segments: seq<Segment>, file: Bytes, i: nat, v: nat)
    requires AllAccepted(segments, |file|) && Loads(segments, i)
    requires forall j, k :: 0 <= j < k < |segments| && segments[j].load && segments[k].load ==> MemoryApart(segments[j], segments[k])
    requires segments[i].vaddr <= v < segments[i].vaddr + segments[i].memorySize
    ensures Accepted(segments[i], |file|)
    ensures ByteAt(segments, file, v)
         == if v < segments[i].vaddr + segments[i].fileSize then file[segments[i].offset + (v - segments[i].vaddr)] else 0
  {
    var before, last := segments[..|segments| - 1], segments[|segments| - 1];
    AcceptedPrefix(segments, |file|, |segments| - 1);
    if i < |segments| - 1 {
      SegmentLoaded(before, file, i, v);
      assert last.load ==> MemoryApart(segments[i], last) && Accepted(last, |file|) by {
        assert last.load ==> Loads(segments, |segments| - 1);
      }
    } else if v >= last.vaddr + last.fileSize {
      forall j | 0 <= j < |before|
        ensures !FileCovers(before[j], v)
      {
        assert segments[j].load ==> MemoryApart(segments[j], last) && Loads(segments, j);
      }
      Uncovered(before, file, v);
    }
  }

  /** Memory that no segment's file part covers is zero. */
  lemma {:induction false} Uncovered(segments: seq<Segment>, file: Bytes, v: nat)
    requires AllAccepted(segments, |file|)
    requires forall j :: 0 <= j < |segments| ==> !FileCovers(segments[j], v)
    ensures ByteAt(segments, file, v) == 0
  {
    if segments != [] {
      AcceptedPrefix(segments, |file|, |segments| - 1);
      Uncovered(segments[..|segments| - 1], file, v);
    }
  }

  datatype LoadResult = Loaded(low: nat, image: array<byte>) | BadLayout | TooLarge | NoMemory

  /** so_load from the segment table on: the outcome, and the memory on success. */
  method LoadSegments(segments: seq<Segment>, file: Bytes, maxSize: nat, hasBase: bool) returns (r: LoadResult)
    requires NoWrap(segments)
    ensures r.BadLayout? <==> !AllAccepted(segments, |file|) || !Usable(segments) || Lowest(segments) >= Highest(segments)
    ensures r.TooLarge? <==> !r.BadLayout? && Highest(segments) - Lowest(segments) > maxSize
    ensures r.NoMemory? <==> !r.BadLayout? && !r.TooLarge? && !hasBase
    ensures r.Loaded? ==> hasBase && r.low == Lowest(segments)
                          && r.image.Length == Highest(segments) - Lowest(segments) <= maxSize
                          && forall p :: 0 <= p < r.image.Length ==> r.image[p] == ByteAt(segments, file, r.low + p)
  {
    var range := LayOut(segments, |file|);
    if range == None {
      return BadLayout;
    }
    if range.value.high - range.value.low > maxSize {
      return TooLarge;
    }
    if !hasBase {
      return NoMemory;
    }
    var image := CopySegments(segments, file);
    r := Loaded(range.value.low, image);
  }
}
