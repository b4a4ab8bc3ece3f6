/**
 The two ways of moving the file position: the seek ioctl, which adds up physical slots, and
 SEEK_END, which trusts the size counter. When they reach the place the caller asked for.
 */
module Seeking {
  import opened Bytes
  import opened CircularBuffer
  import opened CommandStream
  import opened FlatFile
  import opened CharDevice

  function SlotSizes(h: seq<Entry>): (sizes: seq<nat>)
    ensures |sizes| == SLOTS
  {
    EntrySizes(AfterAdds(h).entry)
  }

  function LiveSizes(h: seq<Entry>): seq<nat> {
    EntrySizes(Window(h))
  }

  predicate Positive(sizes: seq<nat>) {
    forall i | 0 <= i < |sizes| :: sizes[i] > 0
  }

  lemma {:induction false} SlotSizesUnwrapped(h: seq<Entry>)
    requires AfterAdds(h).outOffs == 0
    ensures SlotSizes(h)[..|LiveSizes(h)|] == LiveSizes(h)
  {
    hide AfterAdds;
    IndicesAfterAdds(h);
    if |h| < SLOTS {
      SlotsBeforeWrap(h);
      assert forall i | 0 <= i < |h| :: AfterAdds(h).entry[i] == AfterAdds(h).entry[..|h|][i];
    } else {
      SlotsAreRotatedWindow(h);
    }
  }

  /**
   With the read index at slot 0, a seek into command c at a byte o inside it succeeds, and a read
   from there starts at slot c, byte o, exactly when the search is right at that position.
   */
  lemma {:induction false} SeekThenFind(h: seq<Entry>, c: nat, o: nat)
    requires AfterAdds(h).outOffs == 0 && c < |LiveSizes(h)| && o < LiveSizes(h)[c]
    ensures var p := Sum(LiveSizes(h)[..c]) + o;
            && SeekTarget(SlotSizes(h), c, o) == Some(p)
            && (MachineFind(LiveSizes(h), p) == Some(Hit(c, o)) <==>
                U32(Sum(LiveSizes(h)[..c + 1])) > p && o < W16)
            && Nth(AfterAdds(h).outOffs, c) == c
  {
    hide AfterAdds, MachineFindFrom, Window;
    var live, slots := LiveSizes(h), SlotSizes(h);
    var p := Sum(live[..c]) + o;
    SlotSizesUnwrapped(h);
    assert slots[..c] == slots[..|live|][..c] == live[..c];
    assert slots[c] == slots[..|live|][c];
    SearchExactIff(live, p, c);
    LocatesOnce(live, p, c);
  }

  /**
   The ioctl also accepts an offset equal to the command's size: the end of the data after the last
   live command, and before it the first byte of the next command, which a read then finds iff the
   32-bit total at that command's end still exceeds the position.
   */
  lemma {:induction false} SeekToCommandEnd(h: seq<Entry>, c: nat)
    requires AfterAdds(h).outOffs == 0 && c < |LiveSizes(h)|
    requires c + 1 < |LiveSizes(h)| ==> LiveSizes(h)[c + 1] > 0
    ensures var live := LiveSizes(h);
            var p := Sum(live[..c]) + live[c];
            && SeekTarget(SlotSizes(h), c, live[c]) == Some(p)
            && if c + 1 < |live|
               then (MachineFind(live, p) == Some(Hit(c + 1, 0)) <==> U32(Sum(live[..c + 2])) > p)
               else MachineFind(live, p) == None
  {
    hide AfterAdds, MachineFindFrom, Window, U16, U32;
    var live, slots := LiveSizes(h), SlotSizes(h);
    var p := Sum(live[..c]) + live[c];
    SlotSizesUnwrapped(h);
    assert slots[..c] == slots[..|live|][..c] == live[..c];
    assert slots[c] == slots[..|live|][c];
    SumSnoc(live, c);
    if c + 1 < |live| {
      HitAtCover(live, p, c + 1);
      U16Below(0);
    } else {
      assert live[..c + 1] == live;
      SearchPastEnd(live, p);
    }
  }

  /**
   A command number not yet written is accepted with offset 0 only, and moves to the end of the
   data, where a read finds nothing.
   */
  lemma {:induction false} SeekToUnwritten(h: seq<Entry>, c: nat, o: nat)
    requires |h| <= c < SLOTS
    ensures var end := Sum(LiveSizes(h));
            && SeekTarget(SlotSizes(h), c, o) == (if o == 0 then Some(end) else None)
            && MachineFind(LiveSizes(h), end) == None
  {
    hide AfterAdds, MachineFindFrom, Window, Sum;
    var live := LiveSizes(h);
    UnwrittenSlots(h);
    PaddedSum(SlotSizes(h), live, c);
    SearchPastEnd(live, Sum(live));
  }

  lemma {:induction false} UnwrittenSlots(h: seq<Entry>)
    requires |h| < SLOTS
    ensures |LiveSizes(h)| == |h| && SlotSizes(h)[..|h|] == LiveSizes(h)
    ensures forall j | |h| <= j < SLOTS :: SlotSizes(h)[j] == 0
  {
    hide AfterAdds;
    WindowOfShort(h);
    SlotsBeforeWrap(h);
    assert forall i | 0 <= i < |h| :: AfterAdds(h).entry[i] == AfterAdds(h).entry[..|h|][i];
  }

  lemma {:induction false} PaddedSum(slots: seq<nat>, live: seq<nat>, c: nat)
    requires |live| <= c <= |slots| && slots[..|live|] == live
    requires forall j | |live| <= j < |slots| :: slots[j] == 0
    ensures Sum(slots[..c]) == Sum(live)
  {
    hide Sum;
    assert slots[..c] == live + slots[|live|..c];
    SumConcat(live, slots[|live|..c]);
    SumOfZeros(slots[|live|..c]);
  }

  lemma WindowOfShort(h: seq<Entry>)
    requires |h| < SLOTS
    ensures Window(h) == h
  {
  }

  lemma {:induction false} SumOfZeros(sizes: seq<nat>)
    requires forall i | 0 <= i < |sizes| :: sizes[i] == 0
    ensures Sum(sizes) == 0
  {
    if sizes != [] {
      SumOfZeros(sizes[..|sizes| - 1]);
    }
  }

  /**
   The ioctl is refused exactly for an offset beyond what the addressed slot holds: the entry of add
   k if that add was the last to write there. SeekToUnwritten covers the other slots.
   */
  lemma {:induction false} SeekRefusedIff(h: seq<Entry>, k: nat, o: nat)
    requires k < |h| <= k + SLOTS
    ensures SeekTarget(SlotSizes(h), k % SLOTS, o) == None <==> o > h[k].size
  {
    hide AfterAdds, Sum;
    SlotHolds(h, k);
  }

  /** Every request for a byte of a live command, oldest command first, is sent to that byte. */
  ghost predicate SeeksMeetRequests(slots: seq<nat>, live: seq<nat>)
    requires |slots| == SLOTS
  {
    forall c: nat, o: nat | c < |live| && o < live[c] :: SeekTarget(slots, c, o) == Some(Sum(live[..c]) + o)
  }

  /**
   The ioctl counts physical slots, so it meets every request iff each live command is as long as
   the slot with its number.
   */
  lemma {:induction false} SeeksMeetRequestsIff(h: seq<Entry>)
    requires Positive(LiveSizes(h))
    ensures SeeksMeetRequests(SlotSizes(h), LiveSizes(h)) <==>
            LiveSizes(h) == SlotSizes(h)[..|LiveSizes(h)|]
  {
    hide AfterAdds, Window;
    var slots, live := SlotSizes(h), LiveSizes(h);
    if live == slots[..|live|] {
      forall c: nat, o: nat | c < |live| && o < live[c]
        ensures SeekTarget(slots, c, o) == Some(Sum(live[..c]) + o)
      {
        assert slots[..c] == slots[..|live|][..c];
        assert slots[c] == slots[..|live|][c];
      }
    }
    if |h| < SLOTS {
      IndicesAfterAdds(h);
      SlotSizesUnwrapped(h);
    } else if SeeksMeetRequests(slots, live) {
      TotalsAgree(h);
      assert live[..SLOTS] == live && slots[..SLOTS] == slots;
      forall c: nat | c < SLOTS
        ensures slots[c] == live[c]
      {
        PrefixAgrees(slots, live, c);
        if c + 1 < SLOTS {
          PrefixAgrees(slots, live, c + 1);
        }
        SumSnoc(slots, c);
        SumSnoc(live, c);
      }
    }
  }

  /**
   The same in terms of what was written: always before the ring is full, and after n >= 10 commits
   iff rotating the sizes of the live commands by n mod 10 places does not change them.
   */
  lemma {:induction false} SeeksMeetRequestsByHistory(h: seq<Entry>)
    requires Positive(LiveSizes(h))
    ensures var live, r := LiveSizes(h), WriteIndex(|h|);
            SeeksMeetRequests(SlotSizes(h), live) <==>
            |h| < SLOTS || live == live[SLOTS - r..] + live[..SLOTS - r]
  {
    hide AfterAdds, Window, WriteIndex, SeeksMeetRequests;
    var live, slots := LiveSizes(h), SlotSizes(h);
    SeeksMeetRequestsIff(h);
    if |h| < SLOTS {
      IndicesAfterAdds(h);
      SlotSizesUnwrapped(h);
    } else {
      var k := SLOTS - WriteIndex(|h|);
      SlotsAreRotatedWindow(h);
      assert slots == live[k..] + live[..k];
      assert slots[..|live|] == slots;
    }
  }

  /** Every history of n commits has its requests met. */
  ghost predicate SeeksAlwaysMet(n: nat) {
    forall h: seq<Entry> | |h| == n && Positive(LiveSizes(h)) :: SeeksMeetRequests(SlotSizes(h), LiveSizes(h))
  }

  /** A caller who knows only the number of commits can rely on the ioctl iff n <= 10 or n is a multiple of 10. */
  lemma {:induction false} SeeksAlwaysMetIff(n: nat)
    ensures SeeksAlwaysMet(n) <==> n <= SLOTS || n % SLOTS == 0
  {
    hide AfterAdds, SeeksMeetRequests, Window;
    if n <= SLOTS || n % SLOTS == 0 {
      forall h: seq<Entry> | |h| == n && Positive(LiveSizes(h))
        ensures SeeksMeetRequests(SlotSizes(h), LiveSizes(h))
      {
        SeeksMeetRequestsByHistory(h);
        if n >= SLOTS {
          var live := LiveSizes(h);
          assert |live| == SLOTS && live[SLOTS..] + live[..SLOTS] == live;
        }
      }
    } else {
      var h := OddLast(n);
      var live, r := LiveSizes(h), n % SLOTS;
      SeeksMeetRequestsByHistory(h);
      assert (live[SLOTS - r..] + live[..SLOTS - r])[r - 1] == live[SLOTS - 1] == 2 && live[r - 1] == 1;
    }
  }

  /** One-byte commands and a last one of two bytes. */
  lemma OddLast(n: nat) returns (h: seq<Entry>)
    requires n > SLOTS
    ensures |h| == n && Positive(LiveSizes(h)) && |LiveSizes(h)| == SLOTS
    ensures forall i | 0 <= i < SLOTS :: LiveSizes(h)[i] == if i == SLOTS - 1 then 2 else 1
  {
    h := seq(n, (i: nat) => Entry(1, if i == n - 1 then 2 else 1));
  }

  lemma PrefixAgrees(slots: seq<nat>, live: seq<nat>, c: nat)
    requires |slots| == SLOTS && Positive(live) && SeeksMeetRequests(slots, live) && c < |live| <= SLOTS
    ensures Sum(slots[..c]) == Sum(live[..c])
  {
    assert SeekTarget(slots, c, 0) == Some(Sum(live[..c]) + 0);
  }

  lemma {:induction false} TotalsAgree(h: seq<Entry>)
    requires |h| >= SLOTS
    ensures Sum(SlotSizes(h)) == Sum(LiveSizes(h))
  {
    hide AfterAdds;
    var k, w := SLOTS - WriteIndex(|h|), Window(h);
    SlotsAreRotatedWindow(h);
    SumRotated(w[..k], w[k..]);
    assert w == w[..k] + w[k..];
  }

  /** Ten one-byte commands, then one of two bytes: a seek to command 1 lands on byte 2, not 1. */
  lemma {:induction false} SeekAfterWrapExample()
    ensures var h := seq(SLOTS, (i: nat) => Entry(i + 1, 1)) + [Entry(11, 2)];
            && SeekTarget(SlotSizes(h), 1, 0) == Some(2)
            && Sum(LiveSizes(h)[..1]) == 1
  {
    hide AfterAdds;
    var h := seq(SLOTS, (i: nat) => Entry(i + 1, 1)) + [Entry(11, 2)];
    SlotsAreRotatedWindow(h);
    assert SlotSizes(h)[0] == 2 && LiveSizes(h)[0] == 1;
    SumSnoc(SlotSizes(h), 0);
    SumSnoc(LiveSizes(h), 0);
  }

  /**
   The counter is where SEEK_END counts from, the end of the live data where it should. An offset
   then lands in the same place or is refused alike iff nothing was evicted yet, the oldest command
   is as long as the first ever, or it is refused from both.
   */
  lemma {:induction false} SeekEndIff(commands: seq<seq<Byte>>, off: int)
    ensures var coded, meant := SizeCounter(commands) + off, |Flatten(Window(commands))| + off;
            (if coded < 0 then meant < 0 else coded == meant) <==>
            || |commands| <= SLOTS
            || |Window(commands)[0]| == |commands[0]|
            || (meant < 0 && coded < 0)
  {
    hide Window, Flatten, SizeCounter;
    CounterIsLiveSizeIff(commands);
  }

  /** After eleven commands of which only the first is shorter, SEEK_END stops one byte short. */
  lemma {:induction false} SeekEndExample()
    ensures var commands := [[NEWLINE]] + seq(SLOTS, _ => [0, NEWLINE]);
            SizeCounter(commands) == LiveBytes(commands) - 1
  {
    var commands := [[NEWLINE]] + seq(SLOTS, _ => [0, NEWLINE]);
    SizeCounterClosedForm(commands);
  }
}
