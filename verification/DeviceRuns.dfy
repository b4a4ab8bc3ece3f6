/** Whole runs of the device: writes and reads, in order or interleaved. */
module DeviceRuns {
  import opened Bytes
  import opened CircularBuffer
  import opened CommandStream
  import opened FlatFile

  // ----- write everything, then read -------------------------------------------------------

  /**
   However a stream of lines was cut into writes and whatever counts the reader uses, reading from
   position 0 returns the newest min(n, 10) lines from their first byte on, enough calls return all
   of them, and from the end on every call returns nothing.
   */
  lemma {:induction false} WriteThenRead(chunks: seq<seq<Byte>>, lines: Stream, counts: seq<nat>)
    requires forall c | c in chunks :: c != [] && NewlineOnlyLast(c)
    requires IsLineSplit(lines, Flatten(chunks))
    requires EntriesFit16(Window(lines.commands))
    ensures AcceptAll(chunks) == lines
    ensures var file := Flatten(Window(lines.commands));
            var (data, q) := ReadAll(Window(AcceptAll(chunks).commands), 0, counts);
            && data <= file && q == |data|
            && ((forall c | c in counts :: c > 0) && |counts| >= |file| ==> data == file)
            && forall count: nat :: ReadAt(Window(lines.commands), |file|, count) == []
  {
    ChunkingGivesLinesIff(chunks);
    LineSplitUnique(AcceptAll(chunks), lines, Flatten(chunks));
    ReadAllReturnsFile(Window(lines.commands), 0, counts);
    forall count: nat
      ensures ReadAt(Window(lines.commands), |Flatten(Window(lines.commands))|, count) == []
    {
      ReadAtEnd(Window(lines.commands), |Flatten(Window(lines.commands))|, count);
    }
  }

  // ----- what a commit does to an open reader ----------------------------------------------

  /**
   A commit to a ring with room only extends the file. A commit to a full ring drops the oldest
   command, of s bytes, so that what was at position p + s is now at p.
   */
  lemma {:induction false} CommitShiftsFile(commands: seq<seq<Byte>>, c: seq<Byte>)
    ensures var old', new' := Flatten(Window(commands)), Flatten(Window(commands + [c]));
            if |commands| < SLOTS then new' == old' + c
            else
              var s := |Window(commands)[0]|;
              && s <= |old'| && new' == old'[s..] + c
              && forall p | 0 <= p < |old'| - s :: new'[p] == old'[p + s]
  {
    var w := Window(commands);
    WindowSnoc(commands, c);
    if |commands| < SLOTS {
      FlattenSnoc(w, c);
    } else {
      assert w == [w[0]] + w[1..];
      FlattenConcat([w[0]], w[1..]);
      FlattenSnoc([], w[0]);
      assert [] + [w[0]] == [w[0]];
      FlattenSnoc(w[1..], c);
    }
  }

  /** How many bytes have been evicted so far. */
  function EvictedBytes(commands: seq<seq<Byte>>): nat {
    |Flatten(commands[..Evictions(commands)])|
  }

  /** The file is the whole stream of committed bytes without the evicted ones. */
  lemma {:induction false} FileIsStreamSuffix(commands: seq<seq<Byte>>)
    ensures EvictedBytes(commands) <= |Flatten(commands)|
    ensures Flatten(Window(commands)) == Flatten(commands)[EvictedBytes(commands)..]
  {
    var k := Evictions(commands);
    assert commands == commands[..k] + commands[k..];
    FlattenConcat(commands[..k], commands[k..]);
    assert Window(commands) == commands[k..];
  }

  lemma {:induction false} CommitGrowsStream(commands: seq<seq<Byte>>, c: seq<Byte>)
    ensures Flatten(commands + [c]) == Flatten(commands) + c
    ensures EvictedBytes(commands) <= EvictedBytes(commands + [c])
  {
    var before, after := Evictions(commands), Evictions(commands + [c]);
    FlattenSnoc(commands, c);
    assert (commands + [c])[..before] == commands[..before];
    assert (commands + [c])[..after] == commands[..before] + (commands + [c])[before..after];
    FlattenConcat(commands[..before], (commands + [c])[before..after]);
  }

  // ----- one reader among any number of writers --------------------------------------------

  datatype Event = Write(chunk: seq<Byte>) | Read(count: nat)

  /** Bytes a read returned and the place in the stream of all committed bytes it took them from. */
  datatype Slice = Slice(at: nat, data: seq<Byte>)

  datatype Run = Run(stream: Stream, pos: nat, got: seq<Slice>)

  function Step(r: Run, e: Event): Run {
    match e
    case Write(chunk) => r.(stream := Accept(r.stream, chunk))
    case Read(count) =>
      var cmds := r.stream.commands;
      var data := ReadAt(Window(cmds), r.pos, count);
      Run(r.stream, r.pos + |data|, r.got + [Slice(EvictedBytes(cmds) + r.pos, data)])
  }

  function Steps(events: seq<Event>): Run {
    if events == [] then Run(EMPTY_STREAM, 0, [])
    else Step(Steps(events[..|events| - 1]), events[|events| - 1])
  }

  /** The chunks a run writes, in order. */
  function Chunks(events: seq<Event>): seq<seq<Byte>> {
    if events == [] then []
    else
      var last := events[|events| - 1];
      Chunks(events[..|events| - 1]) + if last.Write? then [last.chunk] else []
  }

  /** The writes of a run do what they do without the reads between them. */
  lemma {:induction false} RunAcceptsItsChunks(events: seq<Event>)
    ensures Steps(events).stream == AcceptAll(Chunks(events))
  {
    hide Accept, ReadAt, EvictedBytes;
    if events != [] {
      var chunks, last := Chunks(events[..|events| - 1]), events[|events| - 1];
      RunAcceptsItsChunks(events[..|events| - 1]);
      if last.Write? {
        AcceptAllSnoc(chunks, last.chunk);
      } else {
        assert chunks + [] == chunks;
      }
    }
  }

  function Reads(counts: seq<nat>): (events: seq<Event>)
    ensures |events| == |counts|
    ensures forall i | 0 <= i < |counts| :: events[i] == Read(counts[i])
  {
    seq(|counts|, i requires 0 <= i < |counts| => Read(counts[i]))
  }

  lemma {:induction false} OneRead(events: seq<Event>, count: nat)
    ensures var r, t := Steps(events), Steps(events + [Read(count)]);
            var data := ReadAt(Window(r.stream.commands), r.pos, count);
            && t.stream == r.stream && t.pos == r.pos + |data|
            && GotBytes(t.got) == GotBytes(r.got) + data
  {
    hide ReadAt, EvictedBytes;
    assert (events + [Read(count)])[..|events|] == events;
    var r, t := Steps(events), Steps(events + [Read(count)]);
    assert t.got[..|r.got|] == r.got;
  }

  /** Reads in a row, wherever in a run they come, give what ReadAll gives from the reader's position on. */
  lemma {:induction false} ReadsInARow(events: seq<Event>, counts: seq<nat>)
    ensures var r, t := Steps(events), Steps(events + Reads(counts));
            var (data, q) := ReadAll(Window(r.stream.commands), r.pos, counts);
            t.stream == r.stream && t.pos == q && GotBytes(t.got) == GotBytes(r.got) + data
    decreases |counts|
  {
    hide ReadAt, EvictedBytes, Steps, GotBytes;
    var r := Steps(events);
    var cmds := Window(r.stream.commands);
    if counts == [] {
      assert events + Reads(counts) == events && GotBytes(r.got) + [] == GotBytes(r.got);
    } else {
      var first, data := Read(counts[0]), ReadAt(cmds, r.pos, counts[0]);
      assert events + Reads(counts) == events + [first] + Reads(counts[1..]);
      OneRead(events, counts[0]);
      ReadsInARow(events + [first], counts[1..]);
      var rest := ReadAll(cmds, r.pos + |data|, counts[1..]);
      assert ReadAll(cmds, r.pos, counts) == (data + rest.0, rest.1);
      assert GotBytes(r.got) + data + rest.0 == GotBytes(r.got) + (data + rest.0);
    }
  }

  ghost predicate InStream(s: Slice, stream: seq<Byte>) {
    s.at + |s.data| <= |stream| && stream[s.at..s.at + |s.data|] == s.data
  }

  /** The returned slices are pieces of the stream, each starting at or after the end of the one before. */
  ghost predicate InOrder(got: seq<Slice>, stream: seq<Byte>, end: nat) {
    && (forall i | 0 <= i < |got| :: got[i].data != [] ==> InStream(got[i], stream))
    && (forall i | 0 < i < |got| :: got[i - 1].at + |got[i - 1].data| <= got[i].at)
    && (got != [] ==> got[|got| - 1].at + |got[|got| - 1].data| <= end)
  }

  /** The slices follow one another from 0 to `end`. */
  ghost predicate Gapless(got: seq<Slice>, end: nat) {
    if got == [] then end == 0
    else
      var last := got[|got| - 1];
      Gapless(got[..|got| - 1], last.at) && end == last.at + |last.data|
  }

  /** The search is right at the reader's position. */
  ghost predicate Located(r: Run) {
    var sizes := Sizes(Window(r.stream.commands));
    Locates(sizes, r.pos, MachineFind(sizes, r.pos))
  }

  /** At each read of the run the search was right, which SearchExactIff decides. */
  ghost predicate ReadsLocated(events: seq<Event>) {
    events == [] ||
    var front := events[..|events| - 1];
    ReadsLocated(front) && (events[|events| - 1].Read? ==> Located(Steps(front)))
  }

  /** That is so in particular when no command is longer than 2^16 bytes. */
  lemma {:induction false} ShortCommandsAreLocated(events: seq<Event>)
    requires EntriesFit16(Steps(events).stream.commands)
    ensures ReadsLocated(events)
  {
    hide ReadAt, EvictedBytes, MachineFindFrom, Flatten;
    if events != [] {
      var front, e := events[..|events| - 1], events[|events| - 1];
      StepKeepsCommands(Steps(front), e);
      ShortCommandsAreLocated(front);
      SearchExactWhenSmall(Sizes(Window(Steps(front).stream.commands)), Steps(front).pos);
    }
  }

  /**
   A sequential reader interleaved with any writes: evictions can make it skip bytes, but it never
   sees a byte twice, out of order or altered, as long as the search is right at each of its reads.
   */
  lemma {:induction false} ReaderSeesStreamInOrder(events: seq<Event>)
    requires ReadsLocated(events)
    ensures var r := Steps(events);
            InOrder(r.got, Flatten(r.stream.commands), EvictedBytes(r.stream.commands) + r.pos)
  {
    hide EvictedBytes, Flatten, ReadAt, InOrder, Located;
    if events == [] {
      NothingReadYet();
    } else {
      var before, e := Steps(events[..|events| - 1]), events[|events| - 1];
      ReaderSeesStreamInOrder(events[..|events| - 1]);
      match e {
        case Write(chunk) => WriteKeepsOrder(before, chunk);
        case Read(count) => ReadKeepsOrder(before, count);
      }
    }
  }

  lemma NothingReadYet()
    ensures InOrder([], Flatten([]), EvictedBytes([]) + 0)
  {
  }

  lemma StepKeepsCommands(r: Run, e: Event)
    ensures r.stream.commands <= Step(r, e).stream.commands
    ensures EntriesFit16(Step(r, e).stream.commands) ==> EntriesFit16(r.stream.commands)
  {
    hide EvictedBytes, ReadAt;
    var before, after := r.stream.commands, Step(r, e).stream.commands;
    assert before <= after;
    assert forall c | c in before :: c in after;
  }

  lemma {:induction false} WriteKeepsOrder(r: Run, chunk: seq<Byte>)
    requires InOrder(r.got, Flatten(r.stream.commands), EvictedBytes(r.stream.commands) + r.pos)
    ensures var s := Accept(r.stream, chunk);
            InOrder(r.got, Flatten(s.commands), EvictedBytes(s.commands) + r.pos)
  {
    hide EvictedBytes, Flatten;
    var joined := r.stream.pending + chunk;
    if EndsInNewline(joined) {
      CommitGrowsStream(r.stream.commands, joined);
      forall i | 0 <= i < |r.got| && r.got[i].data != []
        ensures InStream(r.got[i], Flatten(r.stream.commands) + joined)
      {
        assert InStream(r.got[i], Flatten(r.stream.commands));
      }
    }
  }

  /** A located read takes its bytes from the stream, behind what was evicted and what was read before. */
  lemma {:induction false} ReadInStream(r: Run, count: nat)
    requires Located(r)
    ensures var cmds := r.stream.commands;
            var data := ReadAt(Window(cmds), r.pos, count);
            data != [] ==> InStream(Slice(EvictedBytes(cmds) + r.pos, data), Flatten(cmds))
  {
    hide EvictedBytes, Flatten, ReadAt, FileRead, MachineFindFrom, Window;
    var cmds, p := r.stream.commands, r.pos;
    var data := ReadAt(Window(cmds), p, count);
    ReadExactWhenLocated(Window(cmds), p, count);
    FileIsStreamSuffix(cmds);
    if data != [] {
      SliceOfSuffix(Flatten(cmds), EvictedBytes(cmds), p, |data|);
    }
  }

  lemma SliceOfSuffix(s: seq<Byte>, from: nat, at: nat, n: nat)
    requires from + at + n <= |s|
    ensures s[from..][at..at + n] == s[from + at..from + at + n]
  {
  }

  lemma {:induction false} ReadKeepsOrder(r: Run, count: nat)
    requires Located(r)
    requires InOrder(r.got, Flatten(r.stream.commands), EvictedBytes(r.stream.commands) + r.pos)
    ensures var t := Step(r, Read(count));
            InOrder(t.got, Flatten(t.stream.commands), EvictedBytes(t.stream.commands) + t.pos)
  {
    hide EvictedBytes, Flatten, ReadAt, FileRead, MachineFindFrom, Located;
    ReadInStream(r, count);
    var t := Step(r, Read(count));
    assert t.got == r.got + [t.got[|r.got|]];
    assert forall i | 0 <= i < |r.got| :: t.got[i] == r.got[i];
  }

  lemma {:induction false} StepsNoEviction(events: seq<Event>)
    requires |Steps(events).stream.commands| <= SLOTS
    ensures Gapless(Steps(events).got, Steps(events).pos)
  {
    hide ReadAt, Gapless, Flatten;
    if events == [] {
      GaplessNothing();
    } else {
      var before, e := Steps(events[..|events| - 1]), events[|events| - 1];
      StepKeepsCommands(before, e);
      StepsNoEviction(events[..|events| - 1]);
      if e.Read? {
        NothingEvicted(before.stream.commands);
        var data := ReadAt(Window(before.stream.commands), before.pos, e.count);
        GaplessSnoc(before.got, before.pos, Slice(before.pos, data));
      }
    }
  }

  lemma NothingEvicted(commands: seq<seq<Byte>>)
    requires |commands| <= SLOTS
    ensures EvictedBytes(commands) == 0
  {
  }

  lemma {:induction false} GaplessNothing()
    ensures Gapless([], 0)
  {
  }

  lemma {:induction false} GaplessSnoc(got: seq<Slice>, pos: nat, s: Slice)
    requires Gapless(got, pos) && s.at == pos
    ensures Gapless(got + [s], pos + |s.data|)
  {
    assert (got + [s])[..|got|] == got;
  }

  /**
   While no command has been evicted, an open reader interleaved with writers misses nothing: what
   it was given so far is exactly the first `pos` bytes of the file as it stands at the end.
   */
  lemma {:induction false} ReaderMissesNothing(events: seq<Event>)
    requires ReadsLocated(events) && |Steps(events).stream.commands| <= SLOTS
    ensures var r := Steps(events);
            r.pos <= |Flatten(r.stream.commands)| && GotBytes(r.got) == Flatten(r.stream.commands)[..r.pos]
  {
    StepsNoEviction(events);
    ReaderSeesStreamInOrder(events);
    GaplessBytes(Steps(events).got, Flatten(Steps(events).stream.commands), Steps(events).pos);
  }

  function GotBytes(got: seq<Slice>): seq<Byte> {
    if got == [] then [] else GotBytes(got[..|got| - 1]) + got[|got| - 1].data
  }

  /** The reader's position is inside the stream and what it got is everything before it. */
  lemma {:induction false} GaplessBytes(got: seq<Slice>, stream: seq<Byte>, end: nat)
    requires Gapless(got, end) && forall i | 0 <= i < |got| :: got[i].data != [] ==> InStream(got[i], stream)
    ensures end <= |stream| && GotBytes(got) == stream[..end]
  {
    if got != [] {
      var front, last := got[..|got| - 1], got[|got| - 1];
      assert forall i | 0 <= i < |front| :: front[i] == got[i];
      GaplessBytes(front, stream, last.at);
      assert last.data != [] ==> InStream(last, stream);
      assert stream[..end] == stream[..last.at] + stream[last.at..end];
    }
  }
}
