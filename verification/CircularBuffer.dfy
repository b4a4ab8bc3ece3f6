/**
 The circular buffer of aesd-circular-buffer.c: ten slots, a write index, a read index and a
 `full` flag. The functions on RingState follow the C code one add at a time; the class Ring
 keeps the fields the C code updates in place and is proved against those functions.
 */
module CircularBuffer {
  import opened Bytes
  import opened FlatFile

  /** AESDCHAR_MAX_WRITE_OPERATIONS_SUPPORTED */
  const SLOTS: nat := 10

  /** A block address; 0 is the null pointer. */
  type Ptr = nat

  const NULL: Ptr := 0

  datatype Entry = Entry(buffptr: Ptr, size: nat)

  const EMPTY_ENTRY := Entry(NULL, 0)

  datatype RingState = RingState(entry: seq<Entry>, inOffs: nat, outOffs: nat, full: bool) {
    predicate InRange() {
      |entry| == SLOTS && inOffs < SLOTS && outOffs < SLOTS
    }
  }

  function Next(i: nat): nat { (i + 1) % SLOTS }

  /** The slot met after i steps of a walk that starts at slot `from`. */
  function Nth(from: nat, i: nat): (slot: nat)
    ensures slot < SLOTS
  {
    (from + i) % SLOTS
  }

  /** The slot the n-th add, counted from 0, writes to. */
  function WriteIndex(n: nat): (slot: nat)
    ensures slot < SLOTS
  {
    n % SLOTS
  }

  function EntrySizes(entries: seq<Entry>): (sizes: seq<nat>)
    ensures |sizes| == |entries|
    ensures forall i | 0 <= i < |entries| :: sizes[i] == entries[i].size
  {
    seq(|entries|, i requires 0 <= i < |entries| => entries[i].size)
  }

  /** The state left by a zeroing memset. */
  function InitState(): (s: RingState)
    ensures s.InRange()
  {
    RingState(seq(SLOTS, _ => EMPTY_ENTRY), 0, 0, false)
  }

  /** One add: the oldest slot is given up first when the ring is full. */
  function Add(s: RingState, e: Entry): (t: RingState)
    requires s.InRange()
    ensures t.InRange()
  {
    var out := if s.full then Next(s.outOffs) else s.outOffs;
    var in' := Next(s.inOffs);
    RingState(s.entry[s.inOffs := e], in', out, s.full || in' == out)
  }

  /** The pointer an add to s hands back for freeing. */
  function Displaced(s: RingState): Ptr
    requires s.InRange()
  {
    if s.full then s.entry[s.inOffs].buffptr else NULL
  }

  function AfterAdds(h: seq<Entry>): (s: RingState)
    ensures s.InRange()
  {
    if h == [] then InitState() else Add(AfterAdds(h[..|h| - 1]), h[|h| - 1])
  }

  /** How many slots a walk from outOffs to inOffs visits, a full ring being entered once. */
  function LiveCount(s: RingState): (n: nat)
    requires s.InRange()
    ensures n <= SLOTS
  {
    if s.full then SLOTS else (s.inOffs + SLOTS - s.outOffs) % SLOTS
  }

  /** The slots in the order that walk visits them. */
  function Live(s: RingState): (live: seq<Entry>)
    requires s.InRange()
    ensures |live| == LiveCount(s)
  {
    seq(LiveCount(s), i requires 0 <= i < LiveCount(s) => s.entry[Nth(s.outOffs, i)])
  }

  /** The slot numbers of that walk. */
  function WalkSlots(s: RingState): (order: seq<nat>)
    requires s.InRange()
    ensures |order| == LiveCount(s)
    ensures forall i | 0 <= i < |order| :: order[i] == Nth(s.outOffs, i)
  {
    seq(LiveCount(s), i requires 0 <= i < LiveCount(s) => Nth(s.outOffs, i))
  }

  /** The newest ten elements of a history. */
  function Window<T>(h: seq<T>): (w: seq<T>)
    ensures |w| == if |h| <= SLOTS then |h| else SLOTS
  {
    if |h| <= SLOTS then h else h[|h| - SLOTS..]
  }

  /** The size computed by walking the physical slots up to the first null pointer. */
  function PhysicalTotal(slots: seq<Entry>): nat {
    if slots == [] || slots[0].buffptr == NULL then 0 else slots[0].size + PhysicalTotal(slots[1..])
  }

  // ----- every run of adds ---------------------------------------------------------------

  ghost predicate Indices(s: RingState, n: nat) {
    && s.InRange()
    && s.inOffs == WriteIndex(n)
    && (s.full <==> n >= SLOTS)
    && s.outOffs == (if n < SLOTS then 0 else WriteIndex(n))
  }

  lemma WriteIndexNext(n: nat)
    ensures WriteIndex(n + 1) == Next(WriteIndex(n))
    ensures n < SLOTS ==> WriteIndex(n) == n
    ensures Next(WriteIndex(n)) == if WriteIndex(n) + 1 < SLOTS then WriteIndex(n) + 1 else 0
  {
  }

  lemma AddIndices(s: RingState, e: Entry, n: nat)
    requires Indices(s, n)
    ensures Indices(Add(s, e), n + 1)
  {
    hide WriteIndex, Next;
    WriteIndexNext(n);
    WriteIndexNext(n + 1);
  }

  lemma {:induction false} IndicesAfterAdds(h: seq<Entry>)
    ensures Indices(AfterAdds(h), |h|)
  {
    if h != [] {
      hide Indices, Add;
      IndicesAfterAdds(h[..|h| - 1]);
      AddIndices(AfterAdds(h[..|h| - 1]), h[|h| - 1], |h| - 1);
    } else {
      WriteIndexNext(0);
    }
  }

  /** The slot an add wrote keeps its entry until ten further adds. */
  lemma {:induction false} SlotHolds(h: seq<Entry>, k: nat)
    requires k < |h| <= k + SLOTS
    ensures AfterAdds(h).entry[WriteIndex(k)] == h[k]
  {
    var front := h[..|h| - 1];
    IndicesAfterAdds(front);
    if k < |h| - 1 {
      SlotHolds(front, k);
      assert WriteIndex(k) != WriteIndex(|front|);
    }
  }

  lemma {:induction false} SlotUnused(h: seq<Entry>, j: nat)
    requires |h| <= j < SLOTS
    ensures AfterAdds(h).entry[j] == EMPTY_ENTRY
  {
    if h != [] {
      IndicesAfterAdds(h[..|h| - 1]);
      SlotUnused(h[..|h| - 1], j);
    }
  }

  /** Index of the history element that the walk meets at its i-th slot. */
  function WindowIndex(n: nat, i: nat): nat {
    if n <= SLOTS then i else n - SLOTS + i
  }

  // Remainders by cases, for slots in range.

  lemma NextIs(i: nat)
    requires i < SLOTS
    ensures Next(i) == if i + 1 < SLOTS then i + 1 else 0
  {
  }

  lemma NthIs(from: nat, i: nat)
    requires from < SLOTS && i < SLOTS
    ensures Nth(from, i) == if from + i < SLOTS then from + i else from + i - SLOTS
  {
  }

  lemma RemainderShift(a: int, k: int)
    ensures (a + k * 10) % 10 == a % 10
  {
  }

  lemma WriteIndexIs(n: nat, i: nat)
    requires i < SLOTS
    ensures n < SLOTS ==> WriteIndex(n) == n
    ensures n >= SLOTS ==> WriteIndex(n - SLOTS + i) == Nth(WriteIndex(n), i)
  {
    if n >= SLOTS {
      WriteIndexShift(n, i);
    }
  }

  lemma WriteIndexShift(n: nat, i: nat)
    requires n >= SLOTS
    ensures WriteIndex(n - SLOTS + i) == Nth(WriteIndex(n), i)
  {
    RemainderShift(WriteIndex(n) + i, n / SLOTS - 1);
  }

  lemma LiveCountIs(s: RingState, n: nat)
    requires Indices(s, n)
    ensures LiveCount(s) == if n <= SLOTS then n else SLOTS
  {
    WriteIndexIs(n, 0);
  }

  lemma WalkIndices(s: RingState, n: nat)
    requires Indices(s, n)
    ensures LiveCount(s) == if n <= SLOTS then n else SLOTS
    ensures n == 0 ==> s.inOffs == s.outOffs && !s.full
    ensures forall i | 0 <= i < LiveCount(s) :: Nth(s.outOffs, i) == WriteIndex(WindowIndex(n, i))
  {
    hide WriteIndex, Nth, LiveCount;
    LiveCountIs(s, n);
    WriteIndexIs(n, 0);
    forall i | 0 <= i < LiveCount(s)
      ensures Nth(s.outOffs, i) == WriteIndex(WindowIndex(n, i))
    {
      WriteIndexIs(n, i);
      if n < SLOTS {
        NthIs(0, i);
        WriteIndexIs(i, 0);
      } else if n == SLOTS {
        assert n - SLOTS + i == i;
      }
    }
  }

  /** Step i of the walk: where it goes next, and that `full` is what lets it enter a full ring. */
  lemma WalkStep(s: RingState, n: nat, i: nat)
    requires Indices(s, n) && i < LiveCount(s)
    ensures Next(Nth(s.outOffs, i)) == if i + 1 < LiveCount(s) then Nth(s.outOffs, i + 1) else s.inOffs
    ensures Nth(s.outOffs, i) == s.inOffs <==> i == 0 && s.full
    ensures Nth(s.outOffs, 0) == s.outOffs && Nth(s.outOffs, i) < SLOTS
  {
    hide WriteIndex, Nth, LiveCount, Next;
    LiveCountIs(s, n);
    WriteIndexIs(n, 0);
    NthIs(s.outOffs, 0);
    NthIs(s.outOffs, i);
    NextIs(Nth(s.outOffs, i));
    if i + 1 < SLOTS {
      NthIs(s.outOffs, i + 1);
    }
  }

  lemma {:induction false} LiveSlot(h: seq<Entry>, i: nat)
    requires i < LiveCount(AfterAdds(h))
    ensures i < |Window(h)| && Live(AfterAdds(h))[i] == Window(h)[i]
  {
    var s := AfterAdds(h);
    IndicesAfterAdds(h);
    WalkIndices(s, |h|);
    SlotHolds(h, WindowIndex(|h|, i));
    assert Live(s)[i] == s.entry[Nth(s.outOffs, i)];
  }

  /**
   After any number n of adds from the initial state, the walk from outOffs yields the newest
   min(n, 10) entries, oldest first.
   */
  lemma {:induction false} LiveIsWindow(h: seq<Entry>)
    ensures Live(AfterAdds(h)) == Window(h)
  {
    var s := AfterAdds(h);
    var live := Live(s);
    assert |live| == |Window(h)| by {
      IndicesAfterAdds(h);
      WalkIndices(s, |h|);
    }
    forall i | 0 <= i < |live|
      ensures live[i] == Window(h)[i]
    {
      LiveSlot(h, i);
    }
  }

  /** Slot number i of a walk, or where the walk ends. */
  ghost function SlotOrEnd(order: seq<nat>, end: nat, i: nat): nat {
    if i < |order| then order[i] else end
  }

  ghost predicate StepsToNext(order: seq<nat>, end: nat, i: nat)
    requires i < |order|
  {
    Next(order[i]) == SlotOrEnd(order, end, i + 1) && (i > 0 ==> order[i] != end)
  }

  /**
   The slots the search walks, in order: it starts at outOffs, each step moves to the next slot, it
   meets inOffs only at the end or, in a full ring, at the start.
   */
  lemma {:induction false} WalkOrder(h: seq<Entry>) returns (order: seq<nat>)
    ensures |order| == |Window(h)|
    ensures forall i | 0 <= i < |order| ::
              order[i] < SLOTS && AfterAdds(h).entry[order[i]] == Window(h)[i]
    ensures forall i | 0 <= i < |order| :: order[i] == Nth(AfterAdds(h).outOffs, i)
    ensures SlotOrEnd(order, AfterAdds(h).inOffs, 0) == AfterAdds(h).outOffs
    ensures order != [] ==> (AfterAdds(h).full <==> AfterAdds(h).outOffs == AfterAdds(h).inOffs)
    ensures order == [] ==> !AfterAdds(h).full
    ensures forall i | 0 <= i < |order| :: StepsToNext(order, AfterAdds(h).inOffs, i)
  {
    hide AfterAdds, Next, Nth, WriteIndex, Window, Live, LiveCount, WalkSlots;
    var s := AfterAdds(h);
    IndicesAfterAdds(h);
    WalkIndices(s, |h|);
    LiveIsWindow(h);
    order := WalkSlots(s);
    WalkStart(s, |h|);
    forall i | 0 <= i < |order|
      ensures order[i] < SLOTS && s.entry[order[i]] == Window(h)[i]
      ensures StepsToNext(order, s.inOffs, i)
    {
      WalkStep(s, |h|, i);
      LiveAt(s, i);
    }
  }

  lemma LiveAt(s: RingState, i: nat)
    requires s.InRange() && i < LiveCount(s)
    ensures Live(s)[i] == s.entry[Nth(s.outOffs, i)]
  {
  }

  lemma WalkStart(s: RingState, n: nat)
    requires Indices(s, n)
    ensures SlotOrEnd(WalkSlots(s), s.inOffs, 0) == s.outOffs
    ensures WalkSlots(s) != [] ==> (s.full <==> s.outOffs == s.inOffs)
    ensures WalkSlots(s) == [] ==> !s.full
  {
    hide Next, Nth, WriteIndex, LiveCount;
    WalkIndices(s, n);
    if WalkSlots(s) != [] {
      WalkStep(s, n, 0);
    }
  }

  /** The next add displaces nothing while n < 10, and afterwards the entry added ten adds before it. */
  lemma {:induction false} DisplacedIsTenBack(h: seq<Entry>)
    ensures Displaced(AfterAdds(h)) == if |h| < SLOTS then NULL else h[|h| - SLOTS].buffptr
  {
    IndicesAfterAdds(h);
    if |h| >= SLOTS {
      SlotHolds(h, |h| - SLOTS);
    }
  }

  /** Once the ring is full its write index points at the oldest entry. */
  lemma {:induction false} OldestAtWriteIndex(h: seq<Entry>)
    requires |h| >= SLOTS
    ensures AfterAdds(h).entry[AfterAdds(h).inOffs] == Window(h)[0]
  {
    hide AfterAdds, WriteIndex;
    IndicesAfterAdds(h);
    RotatedSlot(h, WriteIndex(|h|));
  }

  /** The window index of the entry in slot j of a full ring. */
  function RotatedIndex(n: nat, j: nat): nat
    requires j < SLOTS
  {
    if j < WriteIndex(n) then SLOTS - WriteIndex(n) + j else j - WriteIndex(n)
  }

  lemma RotatedNumber(n: nat, j: nat)
    requires n >= SLOTS && j < SLOTS
    ensures RotatedIndex(n, j) < SLOTS && WriteIndex(n - SLOTS + RotatedIndex(n, j)) == j
  {
  }

  lemma {:induction false} RotatedSlot(h: seq<Entry>, j: nat)
    requires |h| >= SLOTS && j < SLOTS
    ensures RotatedIndex(|h|, j) < SLOTS && AfterAdds(h).entry[j] == Window(h)[RotatedIndex(|h|, j)]
  {
    hide AfterAdds, WriteIndex, RotatedIndex;
    RotatedNumber(|h|, j);
    SlotHolds(h, |h| - SLOTS + RotatedIndex(|h|, j));
  }

  lemma WindowFirst<T>(h: seq<T>)
    requires |h| >= SLOTS
    ensures Window(h)[0] == h[|h| - SLOTS]
  {
  }

  lemma {:induction false} WindowSnoc<T>(h: seq<T>, x: T)
    ensures Window(h + [x]) == if |h| < SLOTS then Window(h) + [x] else Window(h)[1..] + [x]
  {
  }

  /** The read index is back at slot 0 exactly for these run lengths. */
  lemma {:induction false} ReadIndexAtZero(h: seq<Entry>)
    ensures AfterAdds(h).outOffs == 0 <==> |h| <= SLOTS || |h| % SLOTS == 0
  {
    IndicesAfterAdds(h);
  }

  /** The physical slots of a full ring are the live entries rotated by the write index. */
  lemma {:induction false} SlotsAreRotatedWindow(h: seq<Entry>)
    requires |h| >= SLOTS
    ensures var r := WriteIndex(|h|);
            AfterAdds(h).entry == Window(h)[SLOTS - r..] + Window(h)[..SLOTS - r]
  {
    hide AfterAdds, WriteIndex;
    var r, s := WriteIndex(|h|), AfterAdds(h);
    var rotated := Window(h)[SLOTS - r..] + Window(h)[..SLOTS - r];
    forall j | 0 <= j < SLOTS
      ensures s.entry[j] == rotated[j]
    {
      RotatedSlot(h, j);
    }
  }

  /** Before the ring is full the live entries are the first slots and the rest are empty. */
  lemma {:induction false} SlotsBeforeWrap(h: seq<Entry>)
    requires |h| < SLOTS
    ensures AfterAdds(h).entry[..|h|] == h
    ensures forall j | |h| <= j < SLOTS :: AfterAdds(h).entry[j] == EMPTY_ENTRY
  {
    hide AfterAdds, WriteIndex;
    forall k | 0 <= k < |h|
      ensures AfterAdds(h).entry[k] == h[k]
    {
      WriteIndexIs(k, 0);
      SlotHolds(h, k);
    }
    forall j | |h| <= j < SLOTS
      ensures AfterAdds(h).entry[j] == EMPTY_ENTRY
    {
      SlotUnused(h, j);
    }
  }

  lemma {:induction false} PhysicalTotalOfPrefix(live: seq<Entry>, rest: seq<Entry>)
    requires forall e | e in live :: e.buffptr != NULL
    requires rest == [] || rest[0].buffptr == NULL
    ensures PhysicalTotal(live + rest) == Sum(EntrySizes(live))
  {
    if live == [] {
      assert live + rest == rest;
    } else {
      PhysicalTotalOfPrefix(live[1..], rest);
      assert (live + rest)[1..] == live[1..] + rest;
      assert EntrySizes(live) == [live[0].size] + EntrySizes(live[1..]);
      SumConcat([live[0].size], EntrySizes(live[1..]));
      assert [live[0].size][..0] == [];
    }
  }

  lemma {:induction false} SumRotated(a: seq<Entry>, b: seq<Entry>)
    ensures Sum(EntrySizes(a + b)) == Sum(EntrySizes(b + a))
  {
    assert EntrySizes(a + b) == EntrySizes(a) + EntrySizes(b);
    assert EntrySizes(b + a) == EntrySizes(b) + EntrySizes(a);
    SumConcat(EntrySizes(a), EntrySizes(b));
    SumConcat(EntrySizes(b), EntrySizes(a));
  }

  lemma {:induction false} PhysicalTotalBeforeWrap(h: seq<Entry>)
    requires |h| < SLOTS
    requires forall e | e in h :: e.buffptr != NULL
    ensures PhysicalTotal(AfterAdds(h).entry) == Sum(EntrySizes(h))
  {
    SlotsBeforeWrap(h);
    hide AfterAdds;
    var slots := AfterAdds(h).entry;
    PhysicalTotalOfPrefix(h, slots[|h|..]);
    assert slots == h + slots[|h|..];
  }

  lemma {:induction false} PhysicalTotalAfterWrap(h: seq<Entry>)
    requires |h| >= SLOTS
    requires forall e | e in Window(h) :: e.buffptr != NULL
    ensures PhysicalTotal(AfterAdds(h).entry) == Sum(EntrySizes(Window(h)))
  {
    SlotsAreRotatedWindow(h);
    hide AfterAdds, WriteIndex;
    var slots, r, w := AfterAdds(h).entry, WriteIndex(|h|), Window(h);
    SumRotated(w[..SLOTS - r], w[SLOTS - r..]);
    assert w == w[..SLOTS - r] + w[SLOTS - r..];
    PhysicalTotalOfPrefix(slots, []);
    assert slots + [] == slots;
  }

  /** Walking physical slots up to the first null measures exactly the live entries, wrapped or not. */
  lemma {:induction false} PhysicalTotalIsLiveTotal(h: seq<Entry>)
    requires forall e | e in Window(h) :: e.buffptr != NULL
    ensures PhysicalTotal(AfterAdds(h).entry) == Sum(EntrySizes(Window(h)))
  {
    if |h| < SLOTS {
      PhysicalTotalBeforeWrap(h);
    } else {
      PhysicalTotalAfterWrap(h);
    }
  }

  // ----- the buffer itself ---------------------------------------------------------------

  class Ring {
    const entry: array<Entry>
    var inOffs: nat
    var outOffs: nat
    var full: bool

    /** Everything ever added, oldest first. */
    ghost var history: seq<Entry>

    ghost function State(): RingState
      reads this, entry
    {
      RingState(entry[..], inOffs, outOffs, full)
    }

    ghost predicate Valid()
      reads this, entry
    {
      entry.Length == SLOTS && State() == AfterAdds(history)
    }

    /** aesd_circular_buffer_init */
    constructor ()
      ensures Valid() && history == [] && fresh(entry)
    {
      entry := new Entry[SLOTS](_ => EMPTY_ENTRY);
      inOffs, outOffs, full := 0, 0, false;
      history := [];
      new;
      assert entry[..] == InitState().entry;
    }

    /** aesd_circular_buffer_add_entry */
    method AddEntry(e: Entry) returns (pointerToFree: Ptr)
      requires Valid()
      modifies this, entry
      ensures Valid() && history == old(history) + [e]
      ensures Live(State()) == Window(history)
      ensures pointerToFree ==
              if |old(history)| < SLOTS then NULL else old(history)[|old(history)| - SLOTS].buffptr
    {
      ghost var before := State();
      assert Displaced(before) ==
        if |history| < SLOTS then NULL else history[|history| - SLOTS].buffptr
      by {
        DisplacedIsTenBack(history);
      }
      pointerToFree := NULL;
      if full {
        outOffs := Next(outOffs);
        pointerToFree := entry[inOffs].buffptr;
      }
      entry[inOffs] := e;
      inOffs := Next(inOffs);
      if inOffs == outOffs {
        full := true;
      }
      history := history + [e];
      assert State() == Add(before, e);
      assert history[..|history| - 1] == old(history);
      LiveIsWindow(history);
    }

    /**
     aesd_circular_buffer_find_entry_offset_for_fpos, in the C code's own integer widths: the
     running total has 32 bits, the byte offset 16, the subtractions 64.
     */
    method FindEntryOffset(charOffset: nat) returns (r: Option<Hit>)
      requires Valid()
      ensures match MachineFind(EntrySizes(Window(history)), charOffset)
              case None => r == None
              case Some(hit) =>
                r == Some(Hit(Nth(outOffs, hit.index), hit.offset)) &&
                entry[Nth(outOffs, hit.index)] == Window(history)[hit.index]
    {
      hide AfterAdds, Next, Nth, U16, U32, U64;
      ghost var w := Window(history);
      ghost var sizes := EntrySizes(w);
      ghost var order := WalkOrder(history);
      ghost var s := State();
      EmptyTotal(sizes);
      ghost var k := 0;
      var bufferTotalSz := 0;
      var isfull := full;
      var bufferIdx := outOffs;
      while bufferIdx != inOffs || isfull
        invariant 0 <= k <= |order|
        invariant s == State() == AfterAdds(history)
        invariant bufferIdx == SlotOrEnd(order, s.inOffs, k)
        invariant isfull <==> full && k == 0
        invariant bufferTotalSz == U32(Sum(sizes[..k]))
        invariant MachineFind(sizes, charOffset) == MachineFindFrom(sizes, charOffset, k)
        decreases |order| - k
      {
        RunningTotal(sizes, k);
        assert entry[bufferIdx] == w[k];
        bufferTotalSz := U32(bufferTotalSz + entry[bufferIdx].size);
        if bufferTotalSz > charOffset {
          var lastIndex := U16(U64(charOffset - U64(bufferTotalSz - entry[bufferIdx].size)));
          TruncatedOffset(sizes, charOffset, k);
          return Some(Hit(bufferIdx, lastIndex));
        }
        assert StepsToNext(order, s.inOffs, k);
        bufferIdx := Next(bufferIdx);
        isfull := false;
        k := k + 1;
      }
      assert k < |order| ==> StepsToNext(order, s.inOffs, k);
      return None;
    }

    /** aesd_circular_buffer_size */
    method Size() returns (totalBytes: nat)
      requires Valid()
      requires forall e | e in Window(history) :: e.buffptr != NULL
      ensures totalBytes == Sum(EntrySizes(Window(history)))
    {
      totalBytes := 0;
      var index := 0;
      assert entry[..] == entry[0..];
      while index < SLOTS
        invariant index <= SLOTS
        invariant PhysicalTotal(entry[..]) == totalBytes + PhysicalTotal(entry[index..])
      {
        assert entry[index..][1..] == entry[index + 1..];
        if entry[index].buffptr == NULL {
          break;
        }
        totalBytes := totalBytes + entry[index].size;
        index := index + 1;
      }
      PhysicalTotalIsLiveTotal(history);
    }
  }
}
