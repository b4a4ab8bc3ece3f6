/**
 Programs that use a Device through its file operations. They carry the results about runs over to
 the heap: ring slots, cache block and allocated blocks.
 */
module DeviceClients {
  import opened Bytes
  import opened CircularBuffer
  import opened CommandStream
  import opened FlatFile
  import opened SlabAllocator
  import opened CharDevice
  import DeviceRuns

  /** Some address the allocator may answer with: a fresh one, or the cache block grown in place. */
  method AnyGrant(dev: Device) returns (p: Ptr)
    ensures p != NULL && (p == dev.cache.buffptr || p !in dev.slab.blocks)
  {
    ghost var unused := UnusedAddress(dev.slab.blocks.Keys);
    assert unused !in dev.slab.blocks.Keys;
    p :| p > 0 && (p == dev.cache.buffptr || p !in dev.slab.blocks);
  }

  lemma {:induction false} UnusedAddress(used: set<Ptr>) returns (p: Ptr)
    ensures p > 0 && forall q | q in used :: q < p
  {
    if used == {} {
      p := 1;
    } else {
      var x :| x in used;
      var r := UnusedAddress(used - {x});
      p := if r > x then r else x + 1;
      assert forall q | q in used :: q == x || q in used - {x};
    }
  }

  /** Successful writes, one for each chunk. */
  method WriteAll(dev: Device, f: File, chunks: seq<seq<Byte>>)
    requires dev.Valid() && forall c | c in chunks :: c != []
    modifies dev, dev.ring, dev.ring.entry, dev.slab, f
    ensures dev.Valid() && dev.accepted == old(dev.accepted) + chunks
  {
    hide AfterAdds, SizeCounter, Window, Owns, AcceptAll, Accept;
    assert old(dev.accepted) + chunks[..0] == old(dev.accepted);
    for i := 0 to |chunks|
      invariant dev.Valid() && dev.accepted == old(dev.accepted) + chunks[..i]
    {
      var grant := AnyGrant(dev);
      assert chunks[i] in chunks;
      var ret := dev.Write(f, Some(chunks[i]), grant, true);
      assert old(dev.accepted) + chunks[..i + 1] == old(dev.accepted) + chunks[..i] + [chunks[i]];
    }
    assert chunks[..|chunks|] == chunks;
  }

  /** Successful reads, one for each count. */
  method ReadAllCalls(dev: Device, f: File, counts: seq<nat>) returns (out: seq<Byte>)
    requires dev.Valid()
    modifies f
    ensures (out, f.fPos) == ReadAll(Window(dev.stream.commands), old(f.fPos), counts)
  {
    hide ReadAt, ReadAll, Window, AfterAdds, SizeCounter, Owns, AcceptAll, MachineFindFrom;
    ghost var cmds := Window(dev.stream.commands);
    out := [];
    assert counts[0..] == counts;
    ghost var all := ReadAll(cmds, f.fPos, counts);
    assert [] + all.0 == all.0;
    for i := 0 to |counts|
      invariant var rest := ReadAll(cmds, f.fPos, counts[i..]); all == (out + rest.0, rest.1)
    {
      ReadAllStep(cmds, f.fPos, counts, i, out);
      var ret, data := dev.Read(f, counts[i], true);
      out := out + data;
    }
    ReadAllNone(cmds, f.fPos, counts, out);
  }

  lemma {:induction false} ReadAllStep(cmds: seq<seq<Byte>>, p: nat, counts: seq<nat>, i: nat, out: seq<Byte>)
    requires i < |counts|
    ensures var data := ReadAt(cmds, p, counts[i]);
            var now, next := ReadAll(cmds, p, counts[i..]), ReadAll(cmds, p + |data|, counts[i + 1..]);
            (out + now.0, now.1) == (out + data + next.0, next.1)
  {
    hide ReadAt;
    var data := ReadAt(cmds, p, counts[i]);
    assert counts[i..][0] == counts[i] && counts[i..][1..] == counts[i + 1..];
    var next := ReadAll(cmds, p + |data|, counts[i + 1..]);
    assert out + (data + next.0) == out + data + next.0;
  }

  lemma {:induction false} ReadAllNone(cmds: seq<seq<Byte>>, p: nat, counts: seq<nat>, out: seq<Byte>)
    ensures var r := ReadAll(cmds, p, counts[|counts|..]); (out + r.0, r.1) == (out, p)
  {
    assert out + [] == out;
  }

  /**
   On a fresh device, writes that respect the lines of a stream and then reads from position 0 give
   the newest min(n, 10) lines from their first byte on, and enough positive counts give them all.
   */
  method WriteThenRead(dev: Device, writer: File, reader: File, chunks: seq<seq<Byte>>,
                       ghost lines: Stream, counts: seq<nat>) returns (out: seq<Byte>)
    requires dev.Valid() && dev.accepted == [] && writer != reader && reader.fPos == 0
    requires forall c | c in chunks :: c != [] && NewlineOnlyLast(c)
    requires IsLineSplit(lines, Flatten(chunks)) && EntriesFit16(Window(lines.commands))
    modifies dev, dev.ring, dev.ring.entry, dev.slab, writer, reader
    ensures dev.Valid() && dev.stream == lines
    ensures out <= Flatten(Window(lines.commands))
    ensures (forall c | c in counts :: c > 0) && |counts| >= |Flatten(Window(lines.commands))| ==>
              out == Flatten(Window(lines.commands))
  {
    WriteAll(dev, writer, chunks);
    assert [] + chunks == chunks;
    DeviceRuns.WriteThenRead(chunks, lines, counts);
    out := ReadAllCalls(dev, reader, counts);
  }

  /** One event of a run: a successful write through one file or a read through another. */
  method Perform(dev: Device, writer: File, reader: File, e: DeviceRuns.Event, ghost r: DeviceRuns.Run)
    returns (data: seq<Byte>)
    requires dev.Valid() && writer != reader && (e.Write? ==> e.chunk != [])
    requires dev.stream == r.stream && reader.fPos == r.pos
    modifies dev, dev.ring, dev.ring.entry, dev.slab, writer, reader
    ensures dev.Valid() && dev.accepted == old(dev.accepted) + if e.Write? then [e.chunk] else []
    ensures var r' := DeviceRuns.Step(r, e);
            && dev.stream == r'.stream && reader.fPos == r'.pos
            && (e.Write? ==> r'.got == r.got)
            && (e.Read? ==> |r'.got| == |r.got| + 1 && r.got <= r'.got && r'.got[|r.got|].data == data)
  {
    hide ReadAt, DeviceRuns.EvictedBytes, AfterAdds, SizeCounter, Window, Owns, AcceptAll, Accept;
    data := [];
    match e {
      case Write(chunk) =>
        var grant := AnyGrant(dev);
        var ret := dev.Write(writer, Some(chunk), grant, true);
      case Read(count) =>
        var ret;
        ret, data := dev.Read(reader, count, true);
    }
  }

  /**
   One reader among any number of writers, on the device itself: the run is DeviceRuns.Steps, so
   ReaderSeesStreamInOrder and ReaderMissesNothing speak of what this reader gets.
   */
  method Interleave(dev: Device, writer: File, reader: File, events: seq<DeviceRuns.Event>)
    returns (got: seq<seq<Byte>>)
    requires dev.Valid() && dev.accepted == [] && writer != reader && reader.fPos == 0
    requires forall e | e in events && e.Write? :: e.chunk != []
    modifies dev, dev.ring, dev.ring.entry, dev.slab, writer, reader
    ensures dev.Valid() && dev.accepted == DeviceRuns.Chunks(events)
    ensures var r := DeviceRuns.Steps(events);
            && dev.stream == r.stream && reader.fPos == r.pos
            && |got| == |r.got| && forall i | 0 <= i < |got| :: got[i] == r.got[i].data
  {
    hide ReadAt, DeviceRuns.EvictedBytes, DeviceRuns.Step, AfterAdds, SizeCounter, Window, Owns;
    got := [];
    ghost var r := DeviceRuns.Steps([]);
    assert events[..0] == [];
    for k := 0 to |events|
      invariant dev.Valid() && dev.accepted == DeviceRuns.Chunks(events[..k])
      invariant r == DeviceRuns.Steps(events[..k])
      invariant dev.stream == r.stream && reader.fPos == r.pos
      invariant |got| == |r.got| && forall i | 0 <= i < |got| :: got[i] == r.got[i].data
    {
      assert events[..k + 1][..k] == events[..k] && events[..k + 1][k] == events[k];
      assert events[k] in events;
      var data := Perform(dev, writer, reader, events[k], r);
      if events[k].Read? {
        got := got + [data];
      }
      r := DeviceRuns.Step(r, events[k]);
    }
    assert events[..|events|] == events;
  }
}
