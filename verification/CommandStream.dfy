/**
 What a sequence of successful writes means, apart from slots and blocks: the commands committed so
 far and the bytes still waiting for a newline; and the driver's running size counter.
 */
module CommandStream {
  import opened Bytes
  import opened CircularBuffer

  datatype Stream = Stream(commands: seq<seq<Byte>>, pending: seq<Byte>)

  const EMPTY_STREAM := Stream([], [])

  /** One successful write: the chunk joins the pending bytes, which commit if they now end in a newline. */
  function Accept(s: Stream, chunk: seq<Byte>): Stream {
    var joined := s.pending + chunk;
    if EndsInNewline(joined) then Stream(s.commands + [joined], []) else Stream(s.commands, joined)
  }

  function AcceptAll(chunks: seq<seq<Byte>>): Stream {
    if chunks == [] then EMPTY_STREAM
    else Accept(AcceptAll(chunks[..|chunks| - 1]), chunks[|chunks| - 1])
  }

  lemma AcceptAllSnoc(chunks: seq<seq<Byte>>, chunk: seq<Byte>)
    ensures AcceptAll(chunks + [chunk]) == Accept(AcceptAll(chunks), chunk)
  {
    assert (chunks + [chunk])[..|chunks|] == chunks;
  }

  // ----- chunking and lines ----------------------------------------------------------------

  predicate NewlineOnlyLast(s: seq<Byte>) {
    forall i | 0 <= i < |s| - 1 :: s[i] != NEWLINE
  }

  /** Complete lines and a remainder without a newline. */
  ghost predicate IsLineSplit(s: Stream, bytes: seq<Byte>) {
    && Flatten(s.commands) + s.pending == bytes
    && (forall i | 0 <= i < |s.commands| :: EndsInNewline(s.commands[i]) && NewlineOnlyLast(s.commands[i]))
    && NEWLINE !in s.pending
  }

  /** Nothing is lost, added or reordered, whatever the chunks. */
  lemma {:induction false} AcceptAllKeepsBytes(chunks: seq<seq<Byte>>)
    ensures var s := AcceptAll(chunks); Flatten(s.commands) + s.pending == Flatten(chunks)
  {
    if chunks != [] {
      var front, chunk := chunks[..|chunks| - 1], chunks[|chunks| - 1];
      AcceptAllKeepsBytes(front);
      var s := AcceptAll(front);
      FlattenSnoc(s.commands, s.pending + chunk);
      assert Flatten(s.commands) + (s.pending + chunk) == Flatten(s.commands) + s.pending + chunk;
    }
  }

  lemma {:induction false} CommandsEndInNewline(chunks: seq<seq<Byte>>)
    ensures var s := AcceptAll(chunks);
            (forall i | 0 <= i < |s.commands| :: EndsInNewline(s.commands[i])) && !EndsInNewline(s.pending)
  {
    if chunks != [] {
      CommandsEndInNewline(chunks[..|chunks| - 1]);
    }
  }

  ghost predicate WholeLinesOnly(s: Stream) {
    (forall i | 0 <= i < |s.commands| :: NewlineOnlyLast(s.commands[i])) && NEWLINE !in s.pending
  }

  lemma NewlineOnlyLastJoin(p: seq<Byte>, c: seq<Byte>)
    requires c != []
    ensures NewlineOnlyLast(p + c) <==> NEWLINE !in p && NewlineOnlyLast(c)
  {
    var joined := p + c;
    assert forall i | 0 <= i < |p| :: joined[i] == p[i];
    assert forall i | 0 <= i < |c| :: joined[|p| + i] == c[i];
    assert |joined| == |p| + |c|;
  }

  lemma NoNewlineIff(s: seq<Byte>)
    requires !EndsInNewline(s)
    ensures NEWLINE !in s <==> NewlineOnlyLast(s)
  {
  }

  lemma CommandsGrow(commands: seq<seq<Byte>>, c: seq<Byte>)
    ensures (forall i | 0 <= i < |commands + [c]| :: NewlineOnlyLast((commands + [c])[i])) <==>
            (forall i | 0 <= i < |commands| :: NewlineOnlyLast(commands[i])) && NewlineOnlyLast(c)
  {
    var more := commands + [c];
    assert more[|commands|] == c;
    assert forall i | 0 <= i < |commands| :: more[i] == commands[i];
  }

  lemma AcceptKeepsLinesIff(s: Stream, chunk: seq<Byte>)
    requires chunk != []
    ensures WholeLinesOnly(Accept(s, chunk)) <==> WholeLinesOnly(s) && NewlineOnlyLast(chunk)
  {
    hide NewlineOnlyLast;
    var joined := s.pending + chunk;
    NewlineOnlyLastJoin(s.pending, chunk);
    CommandsGrow(s.commands, joined);
    if !EndsInNewline(joined) {
      NoNewlineIff(joined);
    }
  }

  /**
   The committed commands and the pending bytes are exactly the lines and the remainder of the
   stream iff no chunk has a newline before its last byte.
   */
  lemma {:induction false} ChunkingGivesLinesIff(chunks: seq<seq<Byte>>)
    requires forall c | c in chunks :: c != []
    ensures IsLineSplit(AcceptAll(chunks), Flatten(chunks)) <==> forall c | c in chunks :: NewlineOnlyLast(c)
  {
    AcceptAllKeepsBytes(chunks);
    CommandsEndInNewline(chunks);
    WholeLinesIff(chunks);
  }

  lemma {:induction false} WholeLinesIff(chunks: seq<seq<Byte>>)
    requires forall c | c in chunks :: c != []
    ensures WholeLinesOnly(AcceptAll(chunks)) <==> forall c | c in chunks :: NewlineOnlyLast(c)
  {
    if chunks != [] {
      var front, chunk := chunks[..|chunks| - 1], chunks[|chunks| - 1];
      assert chunks == front + [chunk];
      assert forall c | c in front :: c in chunks;
      assert chunk in chunks;
      WholeLinesIff(front);
      AcceptKeepsLinesIff(AcceptAll(front), chunk);
    }
  }

  /** A byte string splits into lines and a remainder in one way only. */
  lemma {:induction false} LineSplitUnique(a: Stream, b: Stream, bytes: seq<Byte>)
    requires IsLineSplit(a, bytes) && IsLineSplit(b, bytes)
    ensures a == b
    decreases |a.commands|
  {
    HasLinesIff(a, bytes);
    HasLinesIff(b, bytes);
    if a.commands == [] {
      assert [] + a.pending == a.pending && [] + b.pending == b.pending;
    } else {
      FirstLine(a, bytes);
      FirstLine(b, bytes);
      var x, y := a.commands[0], b.commands[0];
      assert |x| == |y|;
      LineSplitUnique(Stream(a.commands[1..], a.pending), Stream(b.commands[1..], b.pending), bytes[|x|..]);
      assert a.commands == [x] + a.commands[1..] && b.commands == [y] + b.commands[1..];
    }
  }

  /** The first line is the prefix up to the first newline. */
  lemma {:induction false} FirstLine(s: Stream, bytes: seq<Byte>)
    requires IsLineSplit(s, bytes) && s.commands != []
    ensures var x := s.commands[0];
            && 0 < |x| <= |bytes| && x == bytes[..|x|]
            && bytes[|x| - 1] == NEWLINE && (forall i | 0 <= i < |x| - 1 :: bytes[i] != NEWLINE)
            && IsLineSplit(Stream(s.commands[1..], s.pending), bytes[|x|..])
  {
    var x, rest := s.commands[0], s.commands[1..];
    FlattenConcat([x], rest);
    assert s.commands == [x] + rest;
    FlattenSnoc([], x);
    assert [] + [x] == [x];
    assert bytes == x + (Flatten(rest) + s.pending);
  }

  lemma {:induction false} HasLinesIff(s: Stream, bytes: seq<Byte>)
    requires IsLineSplit(s, bytes)
    ensures s.commands == [] <==> NEWLINE !in bytes
  {
    if s.commands != [] {
      FirstLine(s, bytes);
    } else {
      assert [] + s.pending == s.pending;
    }
  }

  /** Two line-respecting chunkings of one stream leave the same commands and the same cache. */
  lemma {:induction false} ChunkIndependence(a: seq<seq<Byte>>, b: seq<seq<Byte>>)
    requires Flatten(a) == Flatten(b)
    requires forall c | c in a :: c != [] && NewlineOnlyLast(c)
    requires forall c | c in b :: c != [] && NewlineOnlyLast(c)
    ensures AcceptAll(a) == AcceptAll(b)
  {
    ChunkingGivesLinesIff(a);
    ChunkingGivesLinesIff(b);
    LineSplitUnique(AcceptAll(a), AcceptAll(b), Flatten(a));
  }

  // ----- the size counter ------------------------------------------------------------------

  /**
   buffer_size after these commits: an evicting commit subtracts the size of the slot the write
   index has moved on to, which is the new oldest command, not the evicted one.
   */
  function SizeCounter(commands: seq<seq<Byte>>): int {
    if commands == [] then 0
    else
      var n := |commands| - 1;
      SizeCounter(commands[..n]) - (if n < SLOTS then 0 else |Window(commands)[0]|) + |commands[n]|
  }

  function Evictions(commands: seq<seq<Byte>>): nat {
    if |commands| <= SLOTS then 0 else |commands| - SLOTS
  }

  function LiveBytes(commands: seq<seq<Byte>>): nat {
    |Flatten(Window(commands))|
  }

  lemma {:induction false} LiveBytesSnoc(commands: seq<seq<Byte>>, c: seq<Byte>)
    ensures LiveBytes(commands + [c]) ==
            LiveBytes(commands) + |c| - if |commands| < SLOTS then 0 else |Window(commands)[0]|
  {
    var w := Window(commands);
    WindowSnoc(commands, c);
    if |commands| < SLOTS {
      FlattenSnoc(w, c);
    } else {
      assert w == [w[0]] + w[1..];
      FlattenConcat([w[0]], w[1..]);
      FlattenSnoc([], w[0]);
      assert [] + [w[0]] == [w[0]];
      FlattenSnoc(w[1..], c);
    }
  }

  /** The counter is the live total plus the size of the first command ever minus that of the oldest live one. */
  lemma {:induction false} SizeCounterClosedForm(commands: seq<seq<Byte>>)
    ensures SizeCounter(commands) ==
            LiveBytes(commands) + if commands == [] then 0 else |commands[0]| - |Window(commands)[0]|
    ensures commands != [] ==> SizeCounter(commands) >= |commands[0]|
  {
    if commands != [] {
      var n := |commands| - 1;
      var front, c := commands[..n], commands[n];
      assert commands == front + [c];
      LiveBytesSnoc(front, c);
      SizeCounterClosedForm(front);
      OldestIsLive(commands);
      if n > 0 {
        OldestIsLive(front);
      }
    }
  }

  lemma {:induction false} OldestIsLive(commands: seq<seq<Byte>>)
    requires commands != []
    ensures Window(commands)[0] == commands[Evictions(commands)]
    ensures LiveBytes(commands) >= |Window(commands)[0]|
  {
    FlattenPart(Window(commands), 0);
  }

  /** The subtraction made by an evicting commit never goes below zero. */
  lemma {:induction false} CounterNeverUnderflows(commands: seq<seq<Byte>>, c: seq<Byte>)
    requires |commands| >= SLOTS
    ensures SizeCounter(commands) >= |Window(commands + [c])[0]|
  {
    var w := Window(commands);
    SizeCounterClosedForm(commands);
    OldestIsLive(commands);
    WindowSnoc(commands, c);
    FlattenLength(w);
    SumSnoc(Sizes(w), 0);
    SumSnoc(Sizes(w), 1);
    SumMonotone(Sizes(w), 2, SLOTS);
    assert Sizes(w)[..SLOTS] == Sizes(w);
  }

  /** The counter is the true size iff nothing was evicted yet or the oldest command is as long as the first ever. */
  lemma {:induction false} CounterIsLiveSizeIff(commands: seq<seq<Byte>>)
    ensures SizeCounter(commands) == LiveBytes(commands) <==>
            |commands| <= SLOTS || |Window(commands)[0]| == |commands[0]|
  {
    if commands != [] {
      SizeCounterClosedForm(commands);
      OldestIsLive(commands);
    }
  }
}
