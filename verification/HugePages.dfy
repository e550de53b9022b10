/** The huge-page allocator: page-rounded regions with the size for munmap hidden in the page before the pointer. */
module HugePages {
  import opened Bytes
  import opened Formats
  import opened Words

  const PAGE: nat := 2 * 1024 * 1024

  /** ALIGN_TO_PAGE_SIZE(size + PAGE), in size_t arithmetic. */
  function RealSize(n: long): (r: long) {
    (n + PAGE + (PAGE - 1)) % LONG / PAGE * PAGE
  }

  /** The region has a page to spare beside the bytes asked for, and less than two, exactly while the sum does not
      wrap; it is whole pages in any case. */
  lemma RealSizeIff(n: long)
    ensures RealSize(n) % PAGE == 0
    ensures RealSize(n) >= n + PAGE <==> n + 2 * PAGE - 1 < LONG
    ensures n + 2 * PAGE - 1 < LONG ==> RealSize(n) < n + 2 * PAGE
  {
    var x := (n + PAGE + (PAGE - 1)) % LONG;
    assert x / PAGE * PAGE <= x < x / PAGE * PAGE + PAGE;
  }

  // Memory.

  type Memory = map<nat, byte>

  function At(mem: Memory, a: nat): byte {
    if a in mem then mem[a] else 0
  }

  /** n bytes from a on as a number, and the store of a number in them. */
  function LoadBytes(mem: Memory, a: nat, n: nat): nat
    decreases n
  {
    if n == 0 then 0 else At(mem, a) + 0x100 * LoadBytes(mem, a + 1, n - 1)
  }

  function StoreBytes(mem: Memory, a: nat, v: nat, n: nat): Memory
    decreases n
  {
    if n == 0 then mem else StoreBytes(mem[a := v % 0x100], a + 1, v / 0x100, n - 1)
  }

  const HEADER: nat := 8

  lemma {:induction false} StoreKeeps(mem: Memory, a: nat, v: nat, n: nat, other: nat)
    requires other < a || a + n <= other
    ensures At(StoreBytes(mem, a, v, n), other) == At(mem, other)
    decreases n
  {
    if n > 0 {
      StoreKeeps(mem[a := v % 0x100], a + 1, v / 0x100, n - 1, other);
    }
  }

  lemma {:induction false} LoadStored(mem: Memory, a: nat, v: nat, n: nat)
    requires v < Pow(0x100, n)
    ensures LoadBytes(StoreBytes(mem, a, v, n), a, n) == v
    decreases n
  {
    if n > 0 {
      var mem' := mem[a := v % 0x100];
      assert v / 0x100 < Pow(0x100, n - 1);
      LoadStored(mem', a + 1, v / 0x100, n - 1);
      StoreKeeps(mem', a + 1, v / 0x100, n - 1, a);
    }
  }

  lemma {:induction false} LoadSame(mem: Memory, mem': Memory, a: nat, n: nat)
    requires forall i :: a <= i < a + n ==> At(mem', i) == At(mem, i)
    ensures LoadBytes(mem', a, n) == LoadBytes(mem, a, n)
    decreases n
  {
    if n > 0 {
      LoadSame(mem, mem', a + 1, n - 1);
    }
  }

  lemma PowOfSize()
    ensures Pow(0x100, HEADER) == LONG
  {
    assert Pow(0x100, 4) == 0x1_0000_0000;
  }

  // The allocator and the system below it.

  /** What the system knows of a region it handed out: its length, and whether mmap or malloc gave it. asked is the
      size the caller asked malloc_huge_pages for. */
  datatype Region = Region(length: nat, mapped: bool, asked: nat)

  /** A call that gives memory back. */
  datatype Release = Unmap(base: nat, length: nat) | Free(base: nat)

  datatype Heap = Heap(
    mem: Memory,
    live: map<nat, Region>,  // by base address
    released: seq<Release>)  // the calls free_huge_pages made

  /** What the system answers to mmap, and to malloc where mmap failed: a base address, or failure. */
  datatype Answer = Answer(mmap: Option<nat>, heap: Option<nat>)

  /** The region of n bytes at base overlaps none that is live. */
  ghost predicate Unused(h: Heap, base: nat, n: nat) {
    forall b :: b in h.live ==> b + h.live[b].length <= base || base + n <= b
  }

  datatype Event =
    | Alloc(n: long, answer: Answer)
    | Write(a: nat, b: byte)   // the caller writes a byte of a region it was given
    | Dealloc(ptr: Option<nat>)

  ghost predicate FreshAnswer(h: Heap, n: long, answer: Answer) {
    && (answer.mmap.Some? ==> Unused(h, answer.mmap.value, RealSize(n)))
    && (answer.mmap.None? && answer.heap.Some? ==> Unused(h, answer.heap.value, RealSize(n)))
  }

  /** Address a is in what the caller of some live region asked for. */
  ghost predicate Writable(h: Heap, a: nat) {
    exists base :: base in h.live && InUser(h.live[base], base, a)
  }

  predicate HandedOut(h: Heap, ptr: Option<nat>) {
    ptr.Some? ==> ptr.value >= PAGE && ptr.value - PAGE in h.live
  }

  /** The system answers with fresh memory; the sum of sizes does not wrap; callers write inside what they asked for and
      free what they were given. */
  ghost predicate Enabled(h: Heap, e: Event) {
    match e
    case Alloc(n, answer) => n + 2 * PAGE - 1 < LONG && FreshAnswer(h, n, answer)
    case Write(a, b) => Writable(h, a)
    case Dealloc(ptr) => HandedOut(h, ptr)
  }

  predicate InUser(r: Region, base: nat, a: nat) {
    base + PAGE <= a < base + PAGE + r.asked
  }

  /** The heap after a region was handed out and its header written. */
  function Handed(h: Heap, base: nat, n: long, mapped: bool): Heap {
    h.(mem := StoreBytes(h.mem, base, if mapped then RealSize(n) else 0, HEADER),
       live := h.live[base := Region(RealSize(n), mapped, n)])
  }

  function Right(r: Region, base: nat): Release {
    if r.mapped then Unmap(base, r.length) else Free(base)
  }

  function Without(live: map<nat, Region>, base: nat): map<nat, Region> {
    map b | b in live && b != base :: live[b]
  }

  /** The heap after free_huge_pages, which goes by the header. */
  function Dropped(h: Heap, base: nat): Heap
    requires base in h.live
  {
    var n := LoadBytes(h.mem, base, HEADER);
    h.(live := Without(h.live, base),
       released := h.released + [if n != 0 then Unmap(base, n) else Free(base)])
  }

  /** malloc_huge_pages and free_huge_pages on the heap. */
  function Allocated(h: Heap, n: long, answer: Answer): Heap {
    if answer.mmap.Some? then Handed(h, answer.mmap.value, n, true)
    else if answer.heap.Some? then Handed(h, answer.heap.value, n, false)
    else h
  }

  function Deallocated(h: Heap, ptr: Option<nat>): Heap
    requires HandedOut(h, ptr)
  {
    if ptr.None? then h else Dropped(h, ptr.value - PAGE)
  }

  ghost function Step(h: Heap, e: Event): Heap
    requires Enabled(h, e)
  {
    match e
    case Alloc(n, answer) => Allocated(h, n, answer)
    case Write(a, b) => h.(mem := h.mem[a := b])
    case Dealloc(ptr) => Deallocated(h, ptr)
  }

  /** The header page of a region says how to release it, and the rest holds what was asked for. */
  ghost predicate RegionInv(h: Heap, base: nat)
    requires base in h.live
  {
    var r := h.live[base];
    && LoadBytes(h.mem, base, HEADER) == (if r.mapped then r.length else 0)
    && r.length % PAGE == 0 && PAGE + r.asked <= r.length && r.length < LONG
  }

  ghost predicate Disjoint(h: Heap) {
    forall b, c :: b in h.live && c in h.live && b != c ==>
      b + h.live[b].length <= c || c + h.live[c].length <= b
  }

  ghost predicate Inv(h: Heap) {
    (forall b :: b in h.live ==> RegionInv(h, b)) && Disjoint(h)
  }

  /** A region keeps its header while bytes outside its header page's first eight change. */
  lemma HeaderKept(h: Heap, h': Heap, base: nat)
    requires base in h.live && base in h'.live && h'.live[base] == h.live[base] && RegionInv(h, base)
    requires forall i :: base <= i < base + HEADER ==> At(h'.mem, i) == At(h.mem, i)
    ensures RegionInv(h', base)
  {
    LoadSame(h.mem, h'.mem, base, HEADER);
  }

  lemma HandedDisjoint(h: Heap, base: nat, n: long, mapped: bool)
    requires Disjoint(h) && Unused(h, base, RealSize(n))
    ensures Disjoint(Handed(h, base, n, mapped))
  {
    var live := Handed(h, base, n, mapped).live;
    forall b, c | b in live && c in live && b != c
      ensures b + live[b].length <= c || c + live[c].length <= b
    {
      if b != base && c != base {
        assert b in h.live && c in h.live;
      } else if b != base {
        assert b in h.live && c == base;
      } else {
        assert c in h.live && b == base;
      }
    }
  }

  /** The header is the size that mmap was asked for. */
  ghost predicate HoldsSize(h: Heap, base: nat, n: long) {
    LoadBytes(h.mem, base, HEADER) == RealSize(n)
  }

  ghost predicate HoldsZero(h: Heap, base: nat) {
    LoadBytes(h.mem, base, HEADER) == 0
  }

  lemma HandedHeader(h: Heap, base: nat, n: long, mapped: bool)
    ensures LoadBytes(Handed(h, base, n, mapped).mem, base, HEADER) == if mapped then RealSize(n) else 0
  {
    PowOfSize();
    LoadStored(h.mem, base, if mapped then RealSize(n) else 0, HEADER);
  }

  /** The header goes by the call that answered. */
  lemma AllocatedHeader(h: Heap, n: long, answer: Answer)
    ensures answer.mmap.Some? ==> HoldsSize(Allocated(h, n, answer), answer.mmap.value, n)
    ensures answer.mmap.None? && answer.heap.Some? ==> HoldsZero(Allocated(h, n, answer), answer.heap.value)
  {
    if answer.mmap.Some? {
      HandedHeader(h, answer.mmap.value, n, true);
    } else if answer.heap.Some? {
      HandedHeader(h, answer.heap.value, n, false);
    }
  }

  /** The region holds what was asked for exactly while the sum of sizes does not wrap. */
  lemma AllocatedRoom(h: Heap, n: long, answer: Answer)
    ensures answer.mmap.Some? ==> HasRoom(Allocated(h, n, answer), n, answer.mmap.value)
    ensures answer.mmap.None? && answer.heap.Some? ==> HasRoom(Allocated(h, n, answer), n, answer.heap.value)
  {
    RealSizeIff(n);
  }

  ghost predicate HasRoom(h: Heap, n: long, base: nat) {
    base in h.live && (n + 2 * PAGE - 1 < LONG <==> base + PAGE + n <= base + h.live[base].length)
  }

  lemma HandedInv(h: Heap, base: nat, n: long, mapped: bool)
    requires Inv(h) && n + 2 * PAGE - 1 < LONG && Unused(h, base, RealSize(n))
    ensures Inv(Handed(h, base, n, mapped))
  {
    var h' := Handed(h, base, n, mapped);
    HandedDisjoint(h, base, n, mapped);
    RealSizeIff(n);
    HandedHeader(h, base, n, mapped);
    forall b | b in h'.live
      ensures RegionInv(h', b)
    {
      if b != base {
        forall i | b <= i < b + HEADER
          ensures At(h'.mem, i) == At(h.mem, i)
        {
          StoreKeeps(h.mem, base, if mapped then RealSize(n) else 0, HEADER, i);
        }
        HeaderKept(h, h', b);
      }
    }
  }

  lemma WriteInv(h: Heap, a: nat, b: byte)
    requires Inv(h) && Writable(h, a)
    ensures Inv(h.(mem := h.mem[a := b]))
  {
    var h' := h.(mem := h.mem[a := b]);
    var base :| base in h.live && InUser(h.live[base], base, a);
    forall c | c in h'.live
      ensures RegionInv(h', c)
    {
      assert RegionInv(h, c) && RegionInv(h, base);
      HeaderKept(h, h', c);
    }
  }

  lemma DroppedInv(h: Heap, base: nat)
    requires Inv(h) && base in h.live
    ensures Inv(Dropped(h, base))
    ensures Dropped(h, base).released == h.released + [Right(h.live[base], base)]
  {
    var h' := Dropped(h, base);
    HeaderReads(h, base);
    assert forall b :: b in h'.live ==> b in h.live && h'.live[b] == h.live[b];
    forall b | b in h'.live
      ensures RegionInv(h', b)
    {
      assert RegionInv(h, b);
    }
  }

  /** Each event is enabled after those before it. */
  ghost predicate Legal(run: seq<Event>)
    decreases |run|, 0
  {
    |run| == 0 || (Legal(run[..|run| - 1]) && Enabled(Run(run[..|run| - 1]), run[|run| - 1]))
  }

  ghost function Run(run: seq<Event>): Heap
    requires Legal(run)
    decreases |run|, 1
  {
    if |run| == 0 then EMPTY else Step(Run(run[..|run| - 1]), run[|run| - 1])
  }

  lemma AllocatedInv(h: Heap, n: long, answer: Answer)
    requires Inv(h) && n + 2 * PAGE - 1 < LONG && FreshAnswer(h, n, answer)
    ensures Inv(Allocated(h, n, answer))
  {
    if answer.mmap.Some? {
      HandedInv(h, answer.mmap.value, n, true);
    } else if answer.heap.Some? {
      HandedInv(h, answer.heap.value, n, false);
    }
  }

  lemma DeallocatedInv(h: Heap, ptr: Option<nat>)
    requires Inv(h) && HandedOut(h, ptr)
    ensures Inv(Deallocated(h, ptr))
  {
    if ptr.Some? {
      DroppedInv(h, ptr.value - PAGE);
    }
  }

  lemma StepInv(h: Heap, e: Event)
    requires Inv(h) && Enabled(h, e)
    ensures Inv(Step(h, e))
  {
    match e
    case Alloc(n, answer) => AllocatedInv(h, n, answer);
    case Write(a, b) => WriteInv(h, a, b);
    case Dealloc(ptr) => DeallocatedInv(h, ptr);
  }

  lemma {:induction false} RunInv(run: seq<Event>)
    requires Legal(run)
    ensures Inv(Run(run))
    decreases |run|
  {
    if |run| > 0 {
      RunInv(run[..|run| - 1]);
      StepInv(Run(run[..|run| - 1]), run[|run| - 1]);
    }
  }

  /** What free_huge_pages finds in the header: whole pages, and not zero exactly for mapped memory. */
  lemma HeaderReads(h: Heap, base: nat)
    requires Inv(h) && base in h.live
    ensures LoadBytes(h.mem, base, HEADER) % PAGE == 0
    ensures Right(h.live[base], base)
         == if LoadBytes(h.mem, base, HEADER) != 0 then Unmap(base, LoadBytes(h.mem, base, HEADER)) else Free(base)
  {
    assert RegionInv(h, base);
  }

  const EMPTY: Heap := Heap(map[], map[], [])

  // Every release of a run, against the allocation that obtained the region.

  /** The event is an allocation that the system answered with this base address: from mmap, or from malloc where mmap
      failed. */
  ghost predicate Gives(e: Event, base: nat) {
    && e.Alloc?
    && (e.answer.mmap == Some(base) || (e.answer.mmap.None? && e.answer.heap == Some(base)))
  }

  /** Event i is the last of the run that gave base. */
  ghost predicate LastGives(run: seq<Event>, base: nat, i: nat) {
    i < |run| && Gives(run[i], base) && forall k :: i < k < |run| ==> !Gives(run[k], base)
  }

  /** The system's record of a region that is live is that of the last allocation that gave it. */
  lemma {:induction false} Obtained(run: seq<Event>, base: nat) returns (i: nat)
    requires Legal(run) && base in Run(run).live
    ensures LastGives(run, base, i)
    ensures Run(run).live[base] == Region(RealSize(run[i].n), run[i].answer.mmap.Some?, run[i].n)
    ensures run[i].n + 2 * PAGE - 1 < LONG
    decreases |run|
  {
    assert |run| > 0;
    var last := |run| - 1;
    if Gives(run[last], base) {
      i := last;
    } else {
      OthersStay(Run(run[..last]), run[last], base);
      i := Obtained(run[..last], base);
      assert run[..last][i] == run[i];
      forall k | i < k < |run|
        ensures !Gives(run[k], base)
      {
        assert k < last ==> run[..last][k] == run[k];
      }
    }
  }

  lemma OthersStay(h: Heap, e: Event, base: nat)
    requires Enabled(h, e) && base in Step(h, e).live && !Gives(e, base)
    ensures base in h.live && h.live[base] == Step(h, e).live[base]
  {
  }

  /** Over any run of allocations, writes and frees, each free is of a region that an allocation obtained before, and the
      call it makes is the one for the answer of the last such allocation: munmap of what mmap was asked for where mmap
      gave it, free where malloc did. */
  lemma EveryReleaseIsRight(run: seq<Event>, j: nat, base: nat) returns (i: nat)
    requires Legal(run) && j < |run| && run[j] == Dealloc(Some(base + PAGE))
    ensures LastGives(run[..j], base, i) && Legal(run[..j]) && Legal(run[..j + 1])
    ensures run[i].answer.mmap == Some(base) ==>
              Run(run[..j + 1]).released == Run(run[..j]).released + [Unmap(base, RealSize(run[i].n))]
    ensures run[i].answer.mmap.None? ==>
              run[i].answer.heap == Some(base) && Run(run[..j + 1]).released == Run(run[..j]).released + [Free(base)]
  {
    LegalPrefix(run, j + 1);
    assert run[..j + 1][..j] == run[..j];
    var h := Run(run[..j]);
    i := Obtained(run[..j], base);
    RunInv(run[..j]);
    DroppedInv(h, base);
    assert run[..j][i] == run[i];
  }

  /** Nothing else releases anything. */
  lemma OnlyFreesRelease(h: Heap, e: Event)
    requires Enabled(h, e) && (e.Dealloc? ==> e.ptr.None?)
    ensures Step(h, e).released == h.released
  {
  }

  /** Over any run the region an allocation obtained keeps its header and has room for what was asked, until it is
      freed. */
  lemma HeadersStay(run: seq<Event>, base: nat) returns (i: nat)
    requires Legal(run) && base in Run(run).live
    ensures LastGives(run, base, i)
    ensures LoadBytes(Run(run).mem, base, HEADER) == if run[i].answer.mmap.Some? then RealSize(run[i].n) else 0
    ensures PAGE + run[i].n <= RealSize(run[i].n)
  {
    i := Obtained(run, base);
    RunInv(run);
    assert RegionInv(Run(run), base);
  }

  lemma {:induction false} LegalPrefix(run: seq<Event>, n: nat)
    requires Legal(run) && n <= |run|
    ensures Legal(run[..n])
    decreases |run|
  {
    if n < |run| {
      LegalPrefix(run[..|run| - 1], n);
      assert run[..|run| - 1][..n] == run[..n];
    } else {
      assert run[..n] == run;
    }
  }

  class Allocator {
    var heap: Heap

    constructor ()
      ensures heap == EMPTY
    {
      heap := EMPTY;
    }

    /** malloc_huge_pages. Where the rounding of the size wraps (RealSizeIff), nothing is promised of the region. */
    method MallocHugePages(n: long, answer: Answer) returns (ptr: Option<nat>)
      requires Inv(heap) && FreshAnswer(heap, n, answer)
      modifies this
      ensures heap == Allocated(old(heap), n, answer)
      ensures ptr.None? <==> answer.mmap.None? && answer.heap.None?
      ensures answer.mmap.Some? ==>
                && ptr == Some(answer.mmap.value + PAGE)
                && HoldsSize(heap, answer.mmap.value, n) && HasRoom(heap, n, answer.mmap.value)
      ensures answer.mmap.None? && answer.heap.Some? ==>
                && ptr == Some(answer.heap.value + PAGE)
                && HoldsZero(heap, answer.heap.value) && HasRoom(heap, n, answer.heap.value)
      ensures n + 2 * PAGE - 1 < LONG ==> Inv(heap)
    {
      if n + 2 * PAGE - 1 < LONG {
        AllocatedInv(heap, n, answer);
      }
      AllocatedHeader(heap, n, answer);
      AllocatedRoom(heap, n, answer);
      var base := Obtain(n, answer);
      ptr := if base.None? then None else Some(base.value + PAGE);
    }

    /** The region, from mmap or else from malloc, with the size for munmap stored in its first bytes. */
    method Obtain(n: long, answer: Answer) returns (base: Option<nat>)
      modifies this
      ensures heap == Allocated(old(heap), n, answer)
      ensures base == if answer.mmap.Some? then answer.mmap else answer.heap
    {
      var realSize := RealSize(n);
      var length := realSize;
      var mapped := true;
      base := answer.mmap;
      if base.None? {
        base := answer.heap;
        if base.None? {
          return;
        }
        mapped := false;
        realSize := 0;
      }
      heap := heap.(live := heap.live[base.value := Region(length, mapped, n)],
                    mem := StoreBytes(heap.mem, base.value, realSize, HEADER));
    }

    /** free_huge_pages. */
    method FreeHugePages(ptr: Option<nat>)
      requires Inv(heap)
      requires ptr.Some? ==> ptr.value >= PAGE && ptr.value - PAGE in heap.live
      modifies this
      ensures ptr.None? ==> heap == old(heap)
      ensures ptr.Some? ==> heap == Dropped(old(heap), ptr.value - PAGE)
      ensures ptr.Some? ==>
                var base, n := ptr.value - PAGE, LoadBytes(old(heap).mem, ptr.value - PAGE, HEADER);
                heap.released == old(heap).released + [if n != 0 then Unmap(base, n) else Free(base)]
      ensures Inv(heap)
    {
      if ptr.Some? {
        ReleaseRegion(ptr.value - PAGE);
      }
    }

    /** The release, by the header: its assertion holds for every region that was handed out, and the call is the one
        the system's record of the region asks for. */
    method ReleaseRegion(base: nat)
      requires Inv(heap) && base in heap.live
      modifies this
      ensures heap == Dropped(old(heap), base)
      ensures Inv(heap)
      ensures heap.released == old(heap).released + [Right(old(heap).live[base], base)]
    {
      DroppedInv(heap, base);
      HeaderReads(heap, base);
      var realSize := LoadBytes(heap.mem, base, HEADER);
      assert realSize % PAGE == 0;
      var call := if realSize != 0 then Unmap(base, realSize) else Free(base);
      heap := heap.(live := Without(heap.live, base), released := heap.released + [call]);
    }
  }
}
