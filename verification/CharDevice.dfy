/**
 The character device of main.c: partial writes joined in a cache block, committed to the circular
 buffer when they end in a newline, and read back as one flat file.
 */
module CharDevice {
  import opened Bytes
  import opened CircularBuffer
  import opened CommandStream
  import opened FlatFile
  import opened SlabAllocator

  const EFAULT := 14
  const ENOMEM := 12
  const EINVAL := 22

  const SEEK_SET := 0
  const SEEK_CUR := 1
  const SEEK_END := 2

  // ----- block ownership -------------------------------------------------------------------

  ghost function Ptrs(entries: seq<Entry>): set<Ptr> {
    set e | e in entries && e.buffptr != NULL :: e.buffptr
  }

  ghost predicate Holds(blocks: map<Ptr, seq<Byte>>, e: Entry, data: seq<Byte>) {
    e.buffptr != NULL && e.buffptr in blocks && blocks[e.buffptr] == data && e.size == |data|
  }

  ghost predicate DistinctPtrs(entries: seq<Entry>) {
    forall i, j | 0 <= i < j < |entries| :: entries[i].buffptr != entries[j].buffptr
  }

  ghost predicate CacheHolds(blocks: map<Ptr, seq<Byte>>, cache: Entry, pending: seq<Byte>) {
    if cache.buffptr == NULL then cache.size == 0 && pending == [] else pending != [] && Holds(blocks, cache, pending)
  }

  /** The allocated blocks are those of the live entries and the cache, each owned once. */
  ghost predicate Owns(blocks: map<Ptr, seq<Byte>>, live: seq<Entry>, cmds: seq<seq<Byte>>,
                       cache: Entry, pending: seq<Byte>)
  {
    && |live| == |cmds|
    && (forall i | 0 <= i < |live| :: Holds(blocks, live[i], cmds[i]))
    && DistinctPtrs(live)
    && CacheHolds(blocks, cache, pending)
    && cache.buffptr !in Ptrs(live)
    && blocks.Keys == Ptrs(live) + Ptrs([cache])
  }

  lemma OwnsGrownCache(blocks: map<Ptr, seq<Byte>>, live: seq<Entry>, cmds: seq<seq<Byte>>,
                       cache: Entry, pending: seq<Byte>, p: Ptr, joined: seq<Byte>)
    requires Owns(blocks, live, cmds, cache, pending)
    requires p != NULL && (p == cache.buffptr || p !in blocks) && joined != []
    ensures Owns((blocks - {cache.buffptr})[p := joined], live, cmds, Entry(p, |joined|), joined)
  {
    var blocks' := (blocks - {cache.buffptr})[p := joined];
    forall i | 0 <= i < |live|
      ensures Holds(blocks', live[i], cmds[i])
    {
      assert Holds(blocks, live[i], cmds[i]);
      assert live[i].buffptr in Ptrs(live);
    }
    assert NULL !in Ptrs(live);
    assert Ptrs([cache]) == {cache.buffptr} - {NULL};
    assert Ptrs([Entry(p, |joined|)]) == {p} by {
      assert Entry(p, |joined|) in [Entry(p, |joined|)];
    }
    assert NULL !in blocks.Keys;
  }

  /** What the cache fields say about the pending bytes. */
  lemma CachedBytes(blocks: map<Ptr, seq<Byte>>, live: seq<Entry>, cmds: seq<seq<Byte>>,
                    cache: Entry, pending: seq<Byte>)
    requires Owns(blocks, live, cmds, cache, pending)
    ensures NULL !in blocks && cache.size == |pending|
    ensures cache.buffptr != NULL <==> pending != []
    ensures cache.buffptr != NULL ==> cache.buffptr in blocks && blocks[cache.buffptr] == pending
  {
    assert NULL !in Ptrs(live) && NULL !in Ptrs([cache]);
  }

  /** Losing the cache block breaks ownership exactly when there is one. */
  lemma OwnsWithoutCacheIff(blocks: map<Ptr, seq<Byte>>, live: seq<Entry>, cmds: seq<seq<Byte>>,
                            cache: Entry, pending: seq<Byte>)
    requires Owns(blocks, live, cmds, cache, pending)
    ensures Owns(blocks - {cache.buffptr}, live, cmds, cache, pending) <==> cache.buffptr == NULL
  {
    CachedBytes(blocks, live, cmds, cache, pending);
    if cache.buffptr == NULL {
      assert blocks - {NULL} == blocks;
    }
  }

  lemma PtrsSnoc(live: seq<Entry>, e: Entry)
    ensures Ptrs(live + [e]) == Ptrs(live) + Ptrs([e])
  {
    assert forall x :: x in live + [e] <==> x in live || x in [e];
  }

  /** A commit while the ring has room: the cache block becomes the newest entry's. */
  lemma OwnsAfterCommit(blocks: map<Ptr, seq<Byte>>, live: seq<Entry>, cmds: seq<seq<Byte>>,
                        cache: Entry, pending: seq<Byte>)
    requires Owns(blocks, live, cmds, cache, pending) && cache.buffptr != NULL
    ensures |live| == |cmds| && Owns(blocks, live + [cache], cmds + [pending], EMPTY_ENTRY, [])
  {
    PtrsSnoc(live, cache);
    forall i | 0 <= i < |live|
      ensures live[i].buffptr != cache.buffptr
    {
      assert live[i] in live && live[i].buffptr != NULL by {
        assert Holds(blocks, live[i], cmds[i]);
      }
      assert live[i].buffptr in Ptrs(live);
    }
    assert Ptrs([EMPTY_ENTRY]) == {};
    forall i | 0 <= i < |live| + 1
      ensures Holds(blocks, (live + [cache])[i], (cmds + [pending])[i])
    {
      if i < |live| {
        assert Holds(blocks, live[i], cmds[i]);
      }
    }
    assert NULL !in Ptrs(live + [cache]);
  }

  /** Giving up the oldest entry frees its block and no other. */
  lemma OwnsAfterEviction(blocks: map<Ptr, seq<Byte>>, live: seq<Entry>, cmds: seq<seq<Byte>>)
    requires Owns(blocks, live, cmds, EMPTY_ENTRY, []) && live != []
    ensures live[0].buffptr != NULL && live[0].buffptr in blocks && |cmds| == |live|
    ensures Owns(blocks - {live[0].buffptr}, live[1..], cmds[1..], EMPTY_ENTRY, [])
  {
    assert Holds(blocks, live[0], cmds[0]);
    assert live == [live[0]] + live[1..];
    forall i | 0 <= i < |live| - 1
      ensures Holds(blocks - {live[0].buffptr}, live[1..][i], cmds[1..][i])
    {
      assert Holds(blocks, live[i + 1], cmds[i + 1]);
    }
    assert Ptrs(live) == {live[0].buffptr} + Ptrs(live[1..]) by {
      assert forall x :: x in live <==> x == live[0] || x in live[1..];
    }
    assert live[0].buffptr !in Ptrs(live[1..]);
    assert Ptrs([EMPTY_ENTRY]) == {};
  }

  /** What a commit does to the owned blocks, in terms of the whole history. */
  lemma CommitOwns(blocks: map<Ptr, seq<Byte>>, h: seq<Entry>, cmds: seq<seq<Byte>>,
                   cache: Entry, pending: seq<Byte>)
    requires Owns(blocks, Window(h), Window(cmds), cache, pending) && |h| == |cmds| && cache.buffptr != NULL
    ensures |h| < SLOTS ==> Owns(blocks, Window(h + [cache]), Window(cmds + [pending]), EMPTY_ENTRY, [])
    ensures |h| >= SLOTS ==>
              var oldest := h[|h| - SLOTS].buffptr;
              && oldest == Window(h)[0].buffptr && oldest != NULL && oldest in blocks
              && Owns(blocks - {oldest}, Window(h + [cache]), Window(cmds + [pending]), EMPTY_ENTRY, [])
  {
    hide Owns, Window;
    WindowSnoc(h, cache);
    WindowSnoc(cmds, pending);
    OwnsAfterCommit(blocks, Window(h), Window(cmds), cache, pending);
    if |h| >= SLOTS {
      var w, v := Window(h), Window(cmds);
      WindowFirst(h);
      OwnsAfterEviction(blocks, w + [cache], v + [pending]);
      assert (w + [cache])[1..] == w[1..] + [cache];
      assert (v + [pending])[1..] == v[1..] + [pending];
    }
  }

  lemma OldestSize(blocks: map<Ptr, seq<Byte>>, h: seq<Entry>, cmds: seq<seq<Byte>>)
    requires Owns(blocks, Window(h), Window(cmds), EMPTY_ENTRY, []) && h != []
    ensures Window(h)[0].size == |Window(cmds)[0]|
  {
    assert Holds(blocks, Window(h)[0], Window(cmds)[0]);
  }

  lemma {:induction false} CounterStep(cmds: seq<seq<Byte>>, c: seq<Byte>)
    ensures SizeCounter(cmds + [c]) ==
            SizeCounter(cmds) - (if |cmds| < SLOTS then 0 else |Window(cmds + [c])[0]|) + |c|
    ensures |cmds| >= SLOTS ==> SizeCounter(cmds) >= |Window(cmds + [c])[0]|
  {
    assert (cmds + [c])[..|cmds|] == cmds;
    if |cmds| >= SLOTS {
      CounterNeverUnderflows(cmds, c);
    }
  }

  lemma OwnedSizes(blocks: map<Ptr, seq<Byte>>, live: seq<Entry>, cmds: seq<seq<Byte>>,
                   cache: Entry, pending: seq<Byte>)
    requires Owns(blocks, live, cmds, cache, pending)
    ensures EntrySizes(live) == Sizes(cmds)
  {
    forall i | 0 <= i < |live|
      ensures EntrySizes(live)[i] == Sizes(cmds)[i]
    {
      assert Holds(blocks, live[i], cmds[i]);
    }
  }

  lemma OwnedPtrs(blocks: map<Ptr, seq<Byte>>, live: seq<Entry>, cmds: seq<seq<Byte>>,
                  cache: Entry, pending: seq<Byte>)
    requires Owns(blocks, live, cmds, cache, pending)
    ensures forall e | e in live :: e.buffptr != NULL
    ensures DistinctPtrs(live)
    ensures blocks.Keys == Ptrs(live) + Ptrs([cache])
    ensures Ptrs(live) !! Ptrs([cache])
  {
    forall i | 0 <= i < |live|
      ensures live[i].buffptr != NULL
    {
      assert Holds(blocks, live[i], cmds[i]);
    }
  }

  lemma OwnedBlock(blocks: map<Ptr, seq<Byte>>, live: seq<Entry>, cmds: seq<seq<Byte>>,
                   cache: Entry, pending: seq<Byte>, i: nat)
    requires Owns(blocks, live, cmds, cache, pending) && i < |cmds|
    ensures |live| == |cmds| && Holds(blocks, live[i], cmds[i])
  {
  }

  ghost predicate DistinctUsedPtrs(entries: seq<Entry>) {
    forall i, j | 0 <= i < j < |entries| && entries[j].buffptr != NULL :: entries[i].buffptr != entries[j].buffptr
  }

  lemma DistinctRotated(w: seq<Entry>, k: nat)
    requires k <= |w| && DistinctPtrs(w)
    ensures DistinctUsedPtrs(w[k..] + w[..k])
    ensures Ptrs(w[k..] + w[..k]) == Ptrs(w)
  {
    assert w == w[..k] + w[k..];
    assert forall e :: e in w[k..] + w[..k] <==> e in w;
  }

  lemma DistinctPadded(w: seq<Entry>, rest: seq<Entry>)
    requires DistinctPtrs(w) && forall e | e in rest :: e == EMPTY_ENTRY
    ensures DistinctUsedPtrs(w + rest)
    ensures Ptrs(w + rest) == Ptrs(w)
  {
    assert forall e :: e in w + rest <==> e in w || e in rest;
    assert forall i | 0 <= i < |rest| :: rest[i] in rest && (w + rest)[|w| + i] == rest[i];
    assert forall j | |w| <= j < |w + rest| :: (w + rest)[j] == rest[j - |w|];
  }

  /** The physical slots own the live blocks, each once; unused slots own nothing. */
  lemma {:induction false} SlotsOwnBlocks(h: seq<Entry>)
    requires DistinctPtrs(Window(h))
    ensures DistinctUsedPtrs(AfterAdds(h).entry)
    ensures Ptrs(AfterAdds(h).entry) == Ptrs(Window(h))
  {
    hide AfterAdds;
    var slots := AfterAdds(h).entry;
    if |h| < SLOTS {
      SlotsBeforeWrap(h);
      assert slots == h + slots[|h|..];
      DistinctPadded(h, slots[|h|..]);
    } else {
      var w, k := Window(h), SLOTS - WriteIndex(|h|);
      SlotsAreRotatedWindow(h);
      assert slots == w[k..] + w[..k];
      DistinctRotated(w, k);
    }
  }

  // ----- positions -------------------------------------------------------------------------

  /** Where AESDCHAR_IOCSEEKTO moves to, given the sizes of the ten physical slots. */
  function SeekTarget(slotSizes: seq<nat>, cmd: nat, offset: nat): Option<nat>
    requires |slotSizes| == SLOTS
  {
    if cmd >= SLOTS || offset > slotSizes[cmd] then None else Some(Sum(slotSizes[..cmd]) + offset)
  }

  class File {
    var fPos: nat

    constructor ()
      ensures fPos == 0
    {
      fPos := 0;
    }
  }

  class Device {
    const ring: Ring
    const slab: Slab
    var cache: Entry
    var bufferSize: nat

    /** The commands committed so far and the bytes waiting in the cache. */
    ghost var stream: Stream

    /** The data of every accepted write, oldest first. */
    ghost var accepted: seq<seq<Byte>>

    /** The state between a successful copy and the newline test. */
    ghost predicate Holding()
      reads this, ring, ring.entry, slab
    {
      && ring.Valid()
      && |ring.history| == |stream.commands|
      && Owns(slab.blocks, Window(ring.history), Window(stream.commands), cache, stream.pending)
      && bufferSize == SizeCounter(stream.commands)
    }

    ghost predicate Settled()
      reads this, ring, ring.entry, slab
    {
      Holding() && !EndsInNewline(stream.pending)
    }

    ghost predicate Valid()
      reads this, ring, ring.entry, slab
    {
      Settled() && stream == AcceptAll(accepted)
    }

    /** The zeroed device set up by aesd_init_module. */
    constructor ()
      ensures Valid() && stream == EMPTY_STREAM && accepted == []
      ensures fresh(ring) && fresh(ring.entry) && fresh(slab)
    {
      ring := new Ring();
      slab := new Slab();
      cache := EMPTY_ENTRY;
      bufferSize := 0;
      stream := EMPTY_STREAM;
      accepted := [];
      new;
      assert Ptrs([EMPTY_ENTRY]) == {};
    }

    /**
     aesd_write. `grant` is the address the allocator answers with (NULL when it fails) and
     `copied` says whether copy_from_user succeeds.
     */
    method Write(f: File?, buf: Option<seq<Byte>>, grant: Ptr, copied: bool) returns (ret: int)
      requires Valid()
      requires grant == NULL || grant == cache.buffptr || grant !in slab.blocks
      modifies this, ring, ring.entry, slab, f
      // the result
      ensures ret ==
              if f == null || buf == None || buf.value == [] then -EINVAL
              else if grant == NULL then -ENOMEM
              else if !copied then -EFAULT
              else |buf.value|
      // a refused write
      ensures ret < 0 ==> f != null ==> f.fPos == old(f.fPos)
      ensures ret < 0 ==> stream == old(stream) && accepted == old(accepted)
      ensures ret < 0 ==> bufferSize == old(bufferSize) && cache == old(cache)
      ensures ret < 0 ==> ring.history == old(ring.history)
      ensures ret < 0 ==> slab.blocks == old(slab.blocks) - (if ret == -EFAULT then {old(cache.buffptr)} else {})
      // the device survives everything except a failed copy into a regrown cache block
      ensures Valid() <==> !(ret == -EFAULT && old(cache.buffptr) != NULL)
      // an accepted write
      ensures ret > 0 ==> f != null && f.fPos == ret
      ensures ret > 0 ==> accepted == old(accepted) + [buf.value]
      ensures ret > 0 ==>
                var joined := old(stream).pending + buf.value;
                if joined[|joined| - 1] == NEWLINE
                then stream.commands == old(stream).commands + [joined] && stream.pending == []
                else stream.commands == old(stream).commands && stream.pending == joined
      ensures ret > 0 ==> stream == Accept(old(stream), buf.value)
      ensures ret > 0 ==> bufferSize == SizeCounter(stream.commands)
      ensures ret > 0 ==> (slab.blocks.Keys ==
              old(slab.blocks.Keys) - {old(cache.buffptr)} + {grant}
              - (if |stream.commands| > |old(stream).commands| && |old(stream).commands| >= SLOTS
                 then {old(Window(ring.history))[0].buffptr} else {}))
    {
      hide AfterAdds, SizeCounter, Window, Owns, AcceptAll;
      if f == null || buf == None {
        return -EINVAL;
      }
      var data := buf.value;
      if |data| <= 0 {
        return -EINVAL;
      }
      ret := FillCache(data, grant, copied);
      if ret < 0 {
        return;
      }
      CachedBytes(slab.blocks, Window(ring.history), Window(stream.commands), cache, stream.pending);
      if slab.blocks[cache.buffptr][cache.size - 1] == NEWLINE {
        Commit();
      }
      AcceptAllSnoc(accepted, data);
      accepted := accepted + [data];
      ret := |data|;
      f.fPos := |data|;
    }

    /** The allocation and copy steps of aesd_write: the chunk joins the cache block. */
    method FillCache(data: seq<Byte>, grant: Ptr, copied: bool) returns (ret: int)
      requires Settled() && data != []
      requires grant == NULL || grant == cache.buffptr || grant !in slab.blocks
      modifies this, slab
      ensures ret == if grant == NULL then -ENOMEM else if !copied then -EFAULT else |data|
      ensures bufferSize == old(bufferSize) && accepted == old(accepted)
      ensures ret < 0 ==> stream == old(stream) && cache == old(cache)
      ensures ret < 0 ==> slab.blocks == old(slab.blocks) - (if ret == -EFAULT then {old(cache.buffptr)} else {})
      ensures ret < 0 ==> (Settled() <==> !(ret == -EFAULT && old(cache.buffptr) != NULL))
      ensures ret > 0 ==> Holding() && stream == old(stream).(pending := old(stream).pending + data)
      ensures ret > 0 ==> cache.buffptr == grant
      ensures ret > 0 ==> slab.blocks.Keys == old(slab.blocks.Keys) - {old(cache.buffptr)} + {grant}
    {
      hide AfterAdds, SizeCounter, Window, Owns;
      ghost var before, joined := slab.blocks, stream.pending + data;
      ghost var live, cmds := Window(ring.history), Window(stream.commands);
      CachedBytes(before, live, cmds, cache, stream.pending);
      var bufferTmp;
      if cache.buffptr == NULL {
        bufferTmp := slab.Kmalloc(|data|, grant);
      } else {
        bufferTmp := slab.Krealloc(cache.buffptr, cache.size + |data|, grant);
      }
      if bufferTmp == NULL {
        return -ENOMEM;
      }
      if !copied {
        slab.Kfree(bufferTmp);
        assert slab.blocks == before - {cache.buffptr};
        OwnsWithoutCacheIff(before, live, cmds, cache, stream.pending);
        return -EFAULT;
      }
      ghost var block := slab.blocks[bufferTmp];
      assert block[..cache.size] == stream.pending && |block| == |joined|;
      slab.CopyIn(bufferTmp, cache.size, data);
      assert stream.pending + data + block[|joined|..] == joined;
      assert slab.blocks == (before - {cache.buffptr})[bufferTmp := joined];
      OwnsGrownCache(before, live, cmds, cache, stream.pending, bufferTmp, joined);
      cache := Entry(bufferTmp, cache.size + |data|);
      stream := stream.(pending := joined);
      return |data|;
    }

    /** The commit step of aesd_write: the cache entry moves into the ring and the evicted block is freed. */
    method Commit()
      requires Holding() && EndsInNewline(stream.pending)
      modifies this, ring, ring.entry, slab
      ensures accepted == old(accepted)
      ensures Settled() && stream == Stream(old(stream).commands + [old(stream).pending], [])
      ensures slab.blocks == old(slab.blocks) -
              (if |old(ring.history)| < SLOTS then {} else {old(Window(ring.history))[0].buffptr})
    {
      hide AfterAdds, SizeCounter, Window, Owns;
      ghost var h, cmds, pending, blocks := ring.history, stream.commands, stream.pending, slab.blocks;
      CachedBytes(blocks, Window(h), Window(cmds), cache, pending);
      CommitOwns(blocks, h, cmds, cache, pending);
      CounterStep(cmds, pending);
      var toFree := ring.AddEntry(cache);
      if |h| >= SLOTS {
        OldestAtWriteIndex(h + [cache]);
        OldestSize(blocks - {toFree}, h + [cache], cmds + [pending]);
      }
      if toFree != NULL {
        slab.Kfree(toFree);
        bufferSize := bufferSize - ring.entry[ring.inOffs].size;
      }
      bufferSize := bufferSize + cache.size;
      cache := EMPTY_ENTRY;
      stream := Stream(stream.commands + [stream.pending], []);
    }

    /** aesd_read; `copied` says whether copy_to_user succeeds. */
    method Read(f: File, count: nat, copied: bool) returns (ret: int, data: seq<Byte>)
      requires Valid()
      modifies f
      ensures f.fPos == old(f.fPos) + |data|
      // whatever the search answers
      ensures match MachineFind(Sizes(Window(stream.commands)), old(f.fPos))
              case None => ret == 0 && data == []
              case Some(hit) =>
                if !copied then ret == -EFAULT && data == []
                else
                  var command := Window(stream.commands)[hit.index];
                  && ret == |data| <= count && hit.offset + |data| <= |command|
                  && data == command[hit.offset..hit.offset + |data|]
                  && (|data| == count || hit.offset + |data| == |command|)
      // where it answers rightly
      ensures var cmds, p := Window(stream.commands), old(f.fPos);
              copied && Locates(Sizes(cmds), p, MachineFind(Sizes(cmds), p)) ==>
                forall k | 0 <= k < |cmds| && Covers(Sizes(cmds), p, k) ::
                  var end := Sum(Sizes(cmds)[..k + 1]);
                  && |data| <= count && p + |data| <= end <= |Flatten(cmds)|
                  && data == Flatten(cmds)[p..p + |data|]
                  && (|data| == count || p + |data| == end)
      ensures copied ==> data == ReadAt(Window(stream.commands), old(f.fPos), count)
    {
      hide AfterAdds, SizeCounter, Window, Nth, MachineFindFrom, ReadAt, Covers, Locates, Sum, Flatten;
      ghost var live, cmds := Window(ring.history), Window(stream.commands);
      OwnedSizes(slab.blocks, live, cmds, cache, stream.pending);
      HitInEntry(Sizes(cmds), f.fPos);
      ReadOfHit(cmds, f.fPos, count);
      if Locates(Sizes(cmds), f.fPos, MachineFind(Sizes(cmds), f.fPos)) {
        LocatedReadLength(cmds, f.fPos, count);
      }
      var hit := ring.FindEntryOffset(f.fPos);
      if hit == None {
        return 0, [];
      }
      var entry := ring.entry[hit.value.index];
      OwnedBlock(slab.blocks, live, cmds, cache, stream.pending, MachineFind(Sizes(cmds), f.fPos).value.index);
      var available := entry.size - hit.value.offset;
      var n := if available < count then available else count;
      if !copied {
        return -EFAULT, [];
      }
      data := slab.blocks[entry.buffptr][hit.value.offset..hit.value.offset + n];
      f.fPos := f.fPos + n;
      ret := n;
    }

    /**
     aesd_llseek. The end of the data is taken from the size counter, which is off by the difference
     between the sizes of the first command ever and of the current oldest one.
     */
    method Llseek(f: File, off: int, whence: int) returns (newpos: int)
      requires Valid()
      modifies f
      ensures whence == SEEK_SET ==> if off >= 0 then newpos == off else newpos == -EINVAL
      ensures whence == SEEK_CUR ==>
                var target := old(f.fPos) + off; if target >= 0 then newpos == target else newpos == -EINVAL
      ensures whence == SEEK_END ==>
                var cmds := stream.commands;
                var drift := if cmds == [] then 0 else |cmds[0]| - |Window(cmds)[0]|;
                var target := |Flatten(Window(cmds))| + drift + off;
                if target >= 0 then newpos == target else newpos == -EINVAL
      ensures whence != SEEK_SET && whence != SEEK_CUR && whence != SEEK_END ==> newpos == -EINVAL
      ensures newpos >= 0 ==> f.fPos == newpos
      ensures newpos < 0 ==> f.fPos == old(f.fPos)
    {
      hide AfterAdds, Window, Owns, Flatten;
      SizeCounterClosedForm(stream.commands);
      match whence {
        case 0 => newpos := off;
        case 1 => newpos := f.fPos + off;
        case 2 => newpos := bufferSize + off;
        case _ => return -EINVAL;
      }
      if newpos < 0 {
        return -EINVAL;
      }
      f.fPos := newpos;
    }

    /** aesd_adjust_file_offset, the work of the AESDCHAR_IOCSEEKTO ioctl */
    method AdjustFileOffset(f: File, writeCmd: nat, writeCmdOffset: nat) returns (retval: int)
      requires Valid()
      modifies f
      ensures ring.entry.Length == SLOTS
      ensures retval == -EINVAL <==> writeCmd >= SLOTS || writeCmdOffset > ring.entry[writeCmd].size
      ensures retval == -EINVAL ==> f.fPos == old(f.fPos)
      ensures retval != -EINVAL ==>
                retval == 0 && f.fPos == Sum(EntrySizes(ring.entry[..])[..writeCmd]) + writeCmdOffset
      // the function Seeking speaks of
      ensures SeekTarget(EntrySizes(AfterAdds(ring.history).entry), writeCmd, writeCmdOffset) ==
              if retval == 0 then Some(f.fPos) else None
    {
      hide AfterAdds;
      if writeCmd >= SLOTS || writeCmdOffset > ring.entry[writeCmd].size {
        return -EINVAL;
      }
      ghost var sizes := EntrySizes(ring.entry[..]);
      var bufferOffset := 0;
      for i := 0 to writeCmd
        invariant bufferOffset == Sum(sizes[..i])
      {
        SumSnoc(sizes, i);
        bufferOffset := bufferOffset + ring.entry[i].size;
      }
      f.fPos := bufferOffset + writeCmdOffset;
      return 0;
    }

    /** The freeing loop of aesd_cleanup_module: what stays allocated is a pending cache block. */
    method Cleanup()
      requires Valid()
      modifies slab
      ensures slab.blocks.Keys == Ptrs([cache])
    {
      hide AfterAdds, SizeCounter, Window, Owns, AcceptAll, DistinctPtrs;
      ghost var blocks, live := slab.blocks, Window(ring.history);
      ghost var slots := ring.entry[..];
      OwnedPtrs(blocks, live, Window(stream.commands), cache, stream.pending);
      CachedBytes(blocks, live, Window(stream.commands), cache, stream.pending);
      SlotsOwnBlocks(ring.history);
      assert Ptrs(slots[..0]) == {};
      for index := 0 to SLOTS
        invariant slab.blocks == blocks - Ptrs(slots[..index])
      {
        var p := ring.entry[index].buffptr;
        assert slots[..index + 1] == slots[..index] + [slots[index]];
        PtrsSnoc(slots[..index], slots[index]);
        if p != NULL {
          assert p !in Ptrs(slots[..index]);
          assert slots[index] in slots;
        }
        slab.Kfree(p);
      }
      assert slots[..SLOTS] == slots;
    }
  }
}
