/**
 The ring's live commands seen as one flat file: the position search with the C code's integer
 widths, the search the header comment describes, and exactly where the two agree.
 */
module FlatFile {
  import opened Bytes

  const W16 := 0x1_0000
  const W32 := 0x1_0000_0000
  const W64 := 0x1_0000_0000_0000_0000

  /** Conversion to an unsigned integer of 16, 32 or 64 bits. */
  function U16(x: int): nat { x % W16 }

  function U32(x: int): nat { x % W32 }

  function U64(x: int): nat { x % W64 }

  /** An entry index and a byte offset inside that entry. */
  datatype Hit = Hit(index: nat, offset: nat)

  /** The search as coded: a 32-bit running total and a 16-bit result. */
  function MachineFindFrom(sizes: seq<nat>, p: nat, k: nat): (r: Option<Hit>)
    requires k <= |sizes|
    ensures r.Some? ==> k <= r.value.index < |sizes|
    decreases |sizes| - k
  {
    if k == |sizes| then None
    else if U32(Sum(sizes[..k + 1])) > p then Some(Hit(k, U16(p - Sum(sizes[..k]))))
    else MachineFindFrom(sizes, p, k + 1)
  }

  function MachineFind(sizes: seq<nat>, p: nat): (r: Option<Hit>)
    ensures r.Some? ==> r.value.index < |sizes|
  {
    MachineFindFrom(sizes, p, 0)
  }

  /** The 32-bit total after entry k is beyond p. */
  predicate Exceeds(sizes: seq<nat>, p: nat, k: nat)
    requires k < |sizes|
  {
    Sum(sizes[..k + 1]) % W32 > p
  }

  /** The first entry after which the 32-bit total is beyond p, and the offset into it cut to 16 bits. */
  lemma {:induction false} SearchFindsFirst(sizes: seq<nat>, p: nat)
    ensures match MachineFind(sizes, p)
            case None => forall k | 0 <= k < |sizes| :: !Exceeds(sizes, p, k)
            case Some(hit) =>
              && Exceeds(sizes, p, hit.index)
              && hit.offset == (p - Sum(sizes[..hit.index])) % W16
              && forall k | 0 <= k < hit.index :: !Exceeds(sizes, p, k)
  {
    FindsFirstFrom(sizes, p, 0);
  }

  lemma {:induction false} FindsFirstFrom(sizes: seq<nat>, p: nat, i: nat)
    requires i <= |sizes|
    ensures match MachineFindFrom(sizes, p, i)
            case None => forall k | i <= k < |sizes| :: !Exceeds(sizes, p, k)
            case Some(hit) =>
              && Exceeds(sizes, p, hit.index)
              && hit.offset == (p - Sum(sizes[..hit.index])) % W16
              && forall k | i <= k < hit.index :: !Exceeds(sizes, p, k)
    decreases |sizes| - i
  {
    if i < |sizes| && !Exceeds(sizes, p, i) {
      FindsFirstFrom(sizes, p, i + 1);
    }
  }

  /** Entry k covers position p of the concatenation. */
  predicate Covers(sizes: seq<nat>, p: nat, k: nat)
    requires k < |sizes|
  {
    Sum(sizes[..k]) <= p < Sum(sizes[..k]) + sizes[k]
  }

  /** r is where position p of the concatenated entries lies. */
  ghost predicate Locates(sizes: seq<nat>, p: nat, r: Option<Hit>) {
    match r
    case None => p >= Sum(sizes)
    case Some(hit) =>
      hit.index < |sizes| && Covers(sizes, p, hit.index) && p == Sum(sizes[..hit.index]) + hit.offset
  }

  lemma EmptyTotal(sizes: seq<nat>)
    ensures U32(Sum(sizes[..0])) == 0
  {
  }

  /** The 32-bit running total is the true one truncated. */
  lemma RunningTotal(sizes: seq<nat>, k: nat)
    requires k < |sizes|
    ensures U32(U32(Sum(sizes[..k])) + sizes[k]) == U32(Sum(sizes[..k + 1]))
  {
    SumSnoc(sizes, k);
  }

  // Truncation to 32 or 64 bits changes a number by a multiple of 2^16, which 16 bits do not see.

  lemma U16Shift(a: int, k: int)
    ensures U16(a + k * 0x1_0000) == U16(a)
  {
  }

  lemma U16Below(a: nat)
    ensures U16(a) <= a
    ensures a < W16 <==> U16(a) == a
  {
  }

  lemma SplitU32(a: int) returns (k: int)
    ensures U32(a) == a + k * 0x1_0000
  {
    k := -(a / W32) * 0x1_0000;
  }

  lemma SplitU64(a: int) returns (k: int)
    ensures U64(a) == a + k * 0x1_0000
  {
    k := -(a / W64) * 0x1_0000_0000_0000;
  }

  /** The two 64-bit subtractions under a 16-bit result. */
  lemma CodedOffset(p: int, total: int, size: int)
    ensures U16(U64(p - U64(total - size))) == U16(p - (total - size))
  {
    hide U16, U64;
    var j := SplitU64(total - size);
    var k := SplitU64(p - U64(total - size));
    assert U64(p - U64(total - size)) == p - (total - size) + (k - j) * 0x1_0000;
    U16Shift(p - (total - size), k - j);
  }

  /** The whole expression of the C code: the true offset inside entry k, truncated to 16 bits. */
  lemma TruncatedOffset(sizes: seq<nat>, p: nat, k: nat)
    requires k < |sizes|
    ensures U16(U64(p - U64(U32(Sum(sizes[..k + 1])) - sizes[k]))) == U16(p - Sum(sizes[..k]))
  {
    hide U16, U32, U64;
    SumSnoc(sizes, k);
    var s := Sum(sizes[..k + 1]);
    CodedOffset(p, U32(s), sizes[k]);
    var j := SplitU32(s);
    assert p - (U32(s) - sizes[k]) == p - Sum(sizes[..k]) + (-j) * 0x1_0000;
    U16Shift(p - Sum(sizes[..k]), -j);
  }

  // ----- where the coded search is the intended one ---------------------------------------

  /** The entry that covers a position inside the concatenation. */
  function CoveringEntry(sizes: seq<nat>, p: nat): (k: nat)
    requires p < Sum(sizes)
    ensures k < |sizes| && Covers(sizes, p, k)
  {
    var n := |sizes| - 1;
    if p >= Sum(sizes[..n]) then n
    else
      var k := CoveringEntry(sizes[..n], p);
      assert sizes[..n][..k] == sizes[..k];
      k
  }

  lemma {:induction false} CoversOnce(sizes: seq<nat>, p: nat, j: nat, k: nat)
    requires j < |sizes| && k < |sizes| && Covers(sizes, p, j) && Covers(sizes, p, k)
    ensures j == k
  {
    SumSnoc(sizes, j);
    SumSnoc(sizes, k);
    if j < k {
      SumMonotone(sizes, j + 1, k);
    } else if k < j {
      SumMonotone(sizes, k + 1, j);
    }
  }

  lemma {:induction false} OnlyCover(sizes: seq<nat>, p: nat)
    ensures forall k | 0 <= k < |sizes| && Covers(sizes, p, k) :: p < Sum(sizes) && k == CoveringEntry(sizes, p)
  {
    forall k | 0 <= k < |sizes| && Covers(sizes, p, k)
      ensures p < Sum(sizes) && k == CoveringEntry(sizes, p)
    {
      CoveredIsInside(sizes, p, k);
      CoversOnce(sizes, p, k, CoveringEntry(sizes, p));
    }
  }

  /** Running totals that do not exceed p are passed over. */
  lemma {:induction false} PassOver(sizes: seq<nat>, p: nat, i: nat, k: nat)
    requires i <= k <= |sizes|
    requires Sum(sizes[..k]) <= p
    ensures MachineFindFrom(sizes, p, i) == MachineFindFrom(sizes, p, k)
    decreases k - i
  {
    if i < k {
      SumMonotone(sizes, i + 1, k);
      PassOver(sizes, p, i + 1, k);
    }
  }

  /** At and past the end of the data the search always reports so, whatever the sizes. */
  lemma {:induction false} SearchPastEnd(sizes: seq<nat>, p: nat)
    requires p >= Sum(sizes)
    ensures MachineFind(sizes, p) == None
  {
    assert sizes[..|sizes|] == sizes;
    PassOver(sizes, p, 0, |sizes|);
  }

  /** At the covering entry the search stops iff the 32-bit total still exceeds p. */
  lemma {:induction false} HitAtCover(sizes: seq<nat>, p: nat, k: nat)
    requires k < |sizes| && Covers(sizes, p, k)
    ensures if U32(Sum(sizes[..k + 1])) > p
            then MachineFind(sizes, p) == Some(Hit(k, U16(p - Sum(sizes[..k]))))
            else MachineFind(sizes, p) == MachineFindFrom(sizes, p, k + 1)
  {
    hide U16, U32, Sum;
    PassOver(sizes, p, 0, k);
  }

  /**
   Inside the data the search answers correctly exactly when the 32-bit total at the end of the
   covering entry still exceeds p and the offset inside that entry fits 16 bits.
   */
  lemma {:induction false} SearchExactIff(sizes: seq<nat>, p: nat, k: nat)
    requires k < |sizes| && Covers(sizes, p, k)
    ensures Locates(sizes, p, MachineFind(sizes, p)) <==>
            U32(Sum(sizes[..k + 1])) > p && p - Sum(sizes[..k]) < W16
  {
    hide U16, U32, Sum, MachineFindFrom;
    HitAtCover(sizes, p, k);
    LocatesOnce(sizes, p, k);
    U16Below(p - Sum(sizes[..k]));
  }

  /** A covered position is located by its covering entry and nothing else. */
  lemma {:induction false} LocatesOnce(sizes: seq<nat>, p: nat, k: nat)
    requires k < |sizes| && Covers(sizes, p, k)
    ensures forall r :: Locates(sizes, p, r) <==> r == Some(Hit(k, p - Sum(sizes[..k])))
  {
    hide Sum;
    CoveredIsInside(sizes, p, k);
    forall hit: Hit | Locates(sizes, p, Some(hit))
      ensures hit.index == k
    {
      CoversOnce(sizes, p, hit.index, k);
    }
  }

  lemma {:induction false} CoveredIsInside(sizes: seq<nat>, p: nat, k: nat)
    requires k < |sizes| && Covers(sizes, p, k)
    ensures p < Sum(sizes) && Sum(sizes[..k + 1]) == Sum(sizes[..k]) + sizes[k] <= Sum(sizes)
  {
    SumSnoc(sizes, k);
    SumMonotone(sizes, k + 1, |sizes|);
    assert sizes[..|sizes|] == sizes;
  }

  /** No 32-bit total exceeds 2^32 - 1, so nothing is ever found from that position on. */
  lemma {:induction false} NothingFoundAbove32Bits(sizes: seq<nat>, p: nat, k: nat)
    requires k <= |sizes| && p >= W32 - 1
    ensures MachineFindFrom(sizes, p, k) == None
    decreases |sizes| - k
  {
    if k < |sizes| {
      NothingFoundAbove32Bits(sizes, p, k + 1);
    }
  }

  /** Ten entries of at most 2^16 bytes stay far below the 32-bit limit. */
  lemma {:induction false} SmallTotal(sizes: seq<nat>, k: nat)
    requires k <= |sizes|
    requires forall i | 0 <= i < |sizes| :: sizes[i] <= W16
    ensures Sum(sizes[..k]) <= k * W16
  {
    if k > 0 {
      SmallTotal(sizes, k - 1);
      SumSnoc(sizes, k - 1);
    }
  }

  lemma {:induction false} SearchExactWhenSmall(sizes: seq<nat>, p: nat)
    requires |sizes| <= 10
    requires forall i | 0 <= i < |sizes| :: sizes[i] <= W16
    ensures Locates(sizes, p, MachineFind(sizes, p))
  {
    if p >= Sum(sizes) {
      SearchPastEnd(sizes, p);
    } else {
      var k := CoveringEntry(sizes, p);
      SmallTotal(sizes, k + 1);
      SumSnoc(sizes, k);
      SearchExactIff(sizes, p, k);
    }
  }

  ghost predicate SearchExactEverywhere(sizes: seq<nat>) {
    forall p: nat :: Locates(sizes, p, MachineFind(sizes, p))
  }

  /** For a ring of at most ten entries: right at every position iff no entry is longer than 2^16 bytes. */
  lemma {:induction false} SearchExactEverywhereIff(sizes: seq<nat>)
    requires |sizes| <= 10
    ensures SearchExactEverywhere(sizes) <==> forall i | 0 <= i < |sizes| :: sizes[i] <= W16
  {
    if forall i | 0 <= i < |sizes| :: sizes[i] <= W16 {
      forall p: nat
        ensures Locates(sizes, p, MachineFind(sizes, p))
      {
        SearchExactWhenSmall(sizes, p);
      }
    } else {
      var k :| 0 <= k < |sizes| && sizes[k] > W16;
      var p := Sum(sizes[..k]) + W16;
      SearchExactIff(sizes, p, k);
      assert !Locates(sizes, p, MachineFind(sizes, p));
    }
  }

  /** Right or wrong, a hit never points past the end of its entry. */
  lemma {:induction false} HitInBounds(sizes: seq<nat>, p: nat, k: nat)
    requires k <= |sizes| && U32(Sum(sizes[..k])) <= p
    ensures match MachineFindFrom(sizes, p, k)
            case None => true
            case Some(hit) => hit.offset < sizes[hit.index]
    decreases |sizes| - k
  {
    if k < |sizes| {
      RunningTotal(sizes, k);
      if U32(Sum(sizes[..k + 1])) <= p {
        HitInBounds(sizes, p, k + 1);
      } else {
        TruncatedOffset(sizes, p, k);
        NoWrapInsideHit(U32(Sum(sizes[..k])), sizes[k], p);
      }
    }
  }

  /** The offset before truncation, from the running total on entry to the step that hits. */
  lemma NoWrapInsideHit(before: nat, size: nat, p: nat)
    requires before < W32 && before <= p < U32(before + size)
    ensures U16(U64(p - U64(U32(before + size) - size))) < size
  {
    hide U16, U64;
    NonNegativeOffset(before, size, p);
    CodedOffset(p, U32(before + size), size);
    U16Below(p - (U32(before + size) - size));
  }

  lemma NonNegativeOffset(before: nat, size: nat, p: nat)
    requires before < W32 && before <= p < U32(before + size)
    ensures 0 <= p - (U32(before + size) - size) < size
  {
    if size < W32 {
      assert U32(before + size) == if before + size < W32 then before + size else before + size - W32;
    }
  }

  /** Every hit of a whole search, right or wrong, lies inside its entry: no read leaves the entry's block. */
  lemma {:induction false} HitInEntry(sizes: seq<nat>, p: nat)
    ensures match MachineFind(sizes, p)
            case None => true
            case Some(hit) => hit.offset < sizes[hit.index]
  {
    EmptyTotal(sizes);
    HitInBounds(sizes, p, 0);
  }

  // ----- reading the file ------------------------------------------------------------------

  /** What one read call copies out: at most `count` bytes from one entry, located as coded. */
  function ReadAt(cmds: seq<seq<Byte>>, p: nat, count: nat): seq<Byte> {
    match MachineFind(Sizes(cmds), p)
    case None => []
    case Some(hit) =>
      HitInEntry(Sizes(cmds), p);
      var available := |cmds[hit.index]| - hit.offset;
      cmds[hit.index][hit.offset..hit.offset + if available < count then available else count]
  }

  /** Right or wrong, a hit is read from its byte on, up to the count or the entry's end. */
  lemma {:induction false} ReadOfHit(cmds: seq<seq<Byte>>, p: nat, count: nat)
    ensures match MachineFind(Sizes(cmds), p)
            case None => ReadAt(cmds, p, count) == []
            case Some(hit) =>
              var data, end := ReadAt(cmds, p, count), |cmds[hit.index]|;
              && |data| <= count && hit.offset + |data| <= end
              && data == cmds[hit.index][hit.offset..hit.offset + |data|]
              && (|data| == count || hit.offset + |data| == end)
  {
    HitInEntry(Sizes(cmds), p);
  }

  /** What it is meant to copy: the file from p on, cut at `count` bytes or the end of the entry. */
  function FileRead(cmds: seq<seq<Byte>>, p: nat, count: nat): (data: seq<Byte>)
    ensures |data| <= count
    ensures p <= |Flatten(cmds)| ==> p + |data| <= |Flatten(cmds)| && data == Flatten(cmds)[p..p + |data|]
    ensures data == [] <==> p >= |Flatten(cmds)| || count == 0
    ensures forall k | 0 <= k < |cmds| && Covers(Sizes(cmds), p, k) ::
              var end := Sum(Sizes(cmds)[..k]) + |cmds[k]|;
              p + |data| <= end && (|data| == count || p + |data| == end)
  {
    FlattenLength(cmds);
    OnlyCover(Sizes(cmds), p);
    if p >= |Flatten(cmds)| then []
    else
      var k := CoveringEntry(Sizes(cmds), p);
      FlattenPart(cmds, k);
      var left := Sum(Sizes(cmds)[..k]) + |cmds[k]| - p;
      Flatten(cmds)[p..p + if left < count then left else count]
  }

  predicate EntriesFit16(cmds: seq<seq<Byte>>) {
    forall c | c in cmds :: |c| <= W16
  }

  lemma SliceOfSlice(s: seq<Byte>, start: nat, len: nat, offset: nat, m: nat)
    requires start + len <= |s| && offset + m <= len
    ensures s[start..start + len][offset..offset + m] == s[start + offset..start + offset + m]
  {
    var whole := s[start..start + len];
    var part := whole[offset..offset + m];
    assert forall i | 0 <= i < m :: part[i] == s[start + offset + i];
  }

  lemma {:induction false} ReadExactWhenLocated(cmds: seq<seq<Byte>>, p: nat, count: nat)
    requires Locates(Sizes(cmds), p, MachineFind(Sizes(cmds), p))
    ensures ReadAt(cmds, p, count) == FileRead(cmds, p, count)
  {
    hide Sum, Flatten, MachineFindFrom, FileRead, ReadAt;
    var sizes, data := Sizes(cmds), ReadAt(cmds, p, count);
    ReadOfHit(cmds, p, count);
    FlattenLength(cmds);
    if p < Sum(sizes) {
      var hit := MachineFind(sizes, p).value;
      FlattenPart(cmds, hit.index);
      SliceOfSlice(Flatten(cmds), Sum(sizes[..hit.index]), |cmds[hit.index]|, hit.offset, |data|);
      assert |FileRead(cmds, p, count)| == |data|;
    } else {
      SearchPastEnd(sizes, p);
    }
  }

  /** In terms of file positions: a located read ends at the count or at the end of the covering command. */
  lemma {:induction false} LocatedReadLength(cmds: seq<seq<Byte>>, p: nat, count: nat)
    requires Locates(Sizes(cmds), p, MachineFind(Sizes(cmds), p))
    ensures forall k | 0 <= k < |cmds| && Covers(Sizes(cmds), p, k) ::
              var data := ReadAt(cmds, p, count);
              var end := Sum(Sizes(cmds)[..k + 1]);
              && |data| <= count && p + |data| <= end <= |Flatten(cmds)|
              && data == Flatten(cmds)[p..p + |data|]
              && (|data| == count || p + |data| == end)
  {
    hide Sum, Flatten, MachineFindFrom, FileRead, ReadAt;
    ReadExactWhenLocated(cmds, p, count);
    FlattenLength(cmds);
    forall k | 0 <= k < |cmds| && Covers(Sizes(cmds), p, k)
      ensures Sum(Sizes(cmds)[..k + 1]) == Sum(Sizes(cmds)[..k]) + |cmds[k]| <= Sum(Sizes(cmds))
    {
      CoveredIsInside(Sizes(cmds), p, k);
    }
  }

  lemma {:induction false} ReadExact(cmds: seq<seq<Byte>>, p: nat, count: nat)
    requires |cmds| <= 10 && EntriesFit16(cmds)
    ensures ReadAt(cmds, p, count) == FileRead(cmds, p, count)
  {
    SearchExactWhenSmall(Sizes(cmds), p);
    ReadExactWhenLocated(cmds, p, count);
  }

  ghost predicate ReadsExactly(cmds: seq<seq<Byte>>) {
    forall p: nat, count: nat :: ReadAt(cmds, p, count) == FileRead(cmds, p, count)
  }

  /** Reads are right at every position and for every count iff every live command has at most 2^16 bytes. */
  lemma {:induction false} ReadsExactlyIff(cmds: seq<seq<Byte>>)
    requires |cmds| <= 10
    ensures ReadsExactly(cmds) <==> EntriesFit16(cmds)
  {
    if EntriesFit16(cmds) {
      forall p: nat, count: nat
        ensures ReadAt(cmds, p, count) == FileRead(cmds, p, count)
      {
        ReadExact(cmds, p, count);
      }
    } else {
      var k :| 0 <= k < |cmds| && |cmds[k]| > W16;
      LongEntryWrong(cmds, k);
    }
  }

  /** Byte 2^16 of a long entry is found as byte 0 of that entry, unless the 32-bit total wrapped in it. */
  lemma {:induction false} LongEntryFound(sizes: seq<nat>, k: nat)
    requires k < |sizes| && sizes[k] > W16
    ensures var p := Sum(sizes[..k]) + W16;
            Covers(sizes, p, k) && (MachineFind(sizes, p) == Some(Hit(k, 0)) <==> U32(Sum(sizes[..k + 1])) > p)
  {
    hide U16, U32, Sum, MachineFindFrom;
    HitAtCover(sizes, Sum(sizes[..k]) + W16, k);
    U16Shift(0, 1);
    U16Below(0);
  }

  /** Reading a long command from its byte 2^16 on starts again at its byte 0 when that is what is found. */
  lemma {:induction false} LongEntryMisread(cmds: seq<seq<Byte>>, k: nat)
    requires k < |cmds| && |cmds[k]| > W16
    requires U32(Sum(Sizes(cmds)[..k + 1])) > Sum(Sizes(cmds)[..k]) + W16
    ensures var p := Sum(Sizes(cmds)[..k]) + W16;
            && ReadAt(cmds, p, |cmds[k]|) == cmds[k]
            && |FileRead(cmds, p, |cmds[k]|)| == |cmds[k]| - W16
  {
    hide U16, U32, Sum, Flatten, MachineFindFrom, FileRead;
    LongEntryFound(Sizes(cmds), k);
  }

  /** A long command makes some read wrong, by LongEntryMisread or because its end is past 2^32. */
  lemma {:induction false} LongEntryWrong(cmds: seq<seq<Byte>>, k: nat)
    requires k < |cmds| && |cmds[k]| > W16
    ensures !ReadsExactly(cmds)
  {
    hide Flatten, Sum, MachineFindFrom, FileRead, ReadAt;
    var sizes := Sizes(cmds);
    var p := Sum(sizes[..k]) + W16;
    if U32(Sum(sizes[..k + 1])) > p {
      LongEntryMisread(cmds, k);
      assert ReadAt(cmds, p, |cmds[k]|) != FileRead(cmds, p, |cmds[k]|);
    } else {
      LongEntryFound(sizes, k);
      CoveredIsInside(sizes, p, k);
      FlattenLength(cmds);
      ReadAbove32Bits(cmds, 1);
      assert ReadAt(cmds, W32 - 1, 1) != FileRead(cmds, W32 - 1, 1);
    }
  }

  /** From position 2^32 - 1 on every read returns nothing, even where there is data. */
  lemma {:induction false} ReadAbove32Bits(cmds: seq<seq<Byte>>, count: nat)
    ensures ReadAt(cmds, W32 - 1, count) == []
  {
    NothingFoundAbove32Bits(Sizes(cmds), W32 - 1, 0);
  }

  /** A reader's successive calls with the given counts, from position p; also its last position. */
  function ReadAll(cmds: seq<seq<Byte>>, p: nat, counts: seq<nat>): (r: (seq<Byte>, nat))
    decreases |counts|
  {
    if counts == [] then ([], p)
    else
      var data := ReadAt(cmds, p, counts[0]);
      var (rest, q) := ReadAll(cmds, p + |data|, counts[1..]);
      (data + rest, q)
  }

  lemma {:induction false} ReadIsSlice(cmds: seq<seq<Byte>>, p: nat, count: nat)
    requires |cmds| <= 10 && EntriesFit16(cmds) && p <= |Flatten(cmds)|
    ensures var data := ReadAt(cmds, p, count);
            && p + |data| <= |Flatten(cmds)| && data == Flatten(cmds)[p..p + |data|]
            && (count > 0 && p < |Flatten(cmds)| ==> |data| > 0)
  {
    hide Flatten, ReadAt, FileRead, Sum, Covers;
    ReadExact(cmds, p, count);
  }

  lemma SlicesJoin(s: seq<Byte>, p: nat, q: nat, r: nat)
    requires p <= q <= r <= |s|
    ensures s[p..q] + s[q..r] == s[p..r]
  {
  }

  /**
   Successive reads return the file without gaps or repeats, whatever the counts; enough positive
   counts reach its end, where every further read returns nothing.
   */
  lemma {:induction false} ReadAllReturnsFile(cmds: seq<seq<Byte>>, p: nat, counts: seq<nat>)
    requires |cmds| <= 10 && EntriesFit16(cmds) && p <= |Flatten(cmds)|
    ensures var (data, q) := ReadAll(cmds, p, counts);
            && p <= q <= |Flatten(cmds)| && data == Flatten(cmds)[p..q]
            && ((forall c | c in counts :: c > 0) && |counts| >= |Flatten(cmds)| - p ==> q == |Flatten(cmds)|)
    decreases |counts|
  {
    hide Flatten, ReadAt;
    var flat := Flatten(cmds);
    if counts == [] {
      assert flat[p..p] == [];
    } else {
      var data := ReadAt(cmds, p, counts[0]);
      ReadIsSlice(cmds, p, counts[0]);
      ReadAllReturnsFile(cmds, p + |data|, counts[1..]);
      var r := ReadAll(cmds, p + |data|, counts[1..]);
      assert ReadAll(cmds, p, counts) == (data + r.0, r.1);
      SlicesJoin(flat, p, p + |data|, r.1);
      assert forall c | c in counts[1..] :: c in counts;
      assert counts[0] in counts;
    }
  }

  /** At the end of the file every read returns nothing, whatever the sizes. */
  lemma {:induction false} ReadAtEnd(cmds: seq<seq<Byte>>, p: nat, count: nat)
    requires p >= |Flatten(cmds)|
    ensures ReadAt(cmds, p, count) == []
  {
    FlattenLength(cmds);
    SearchPastEnd(Sizes(cmds), p);
  }
}
