/**
 The cells of queue.h's intrusive lists. Heads and element entries are one class: `next` is the
 first field of either (first/next element) and `prev` the second (address of the last, or of the
 previous, next cell). The address of an object's `next` field is the object itself, so following
 such an address and reading it is `p.next`. A kind of list that lacks a field never touches it.
 */
module Links {

  class Link {
    var next: Link?
    var prev: Link?

    constructor ()
    {
      next, prev := null, null;
    }
  }

  /** A list's cells: the head, then the elements. */
  ghost function Chain(h: Link, q: seq<Link>): (c: seq<Link>)
    ensures |c| == |q| + 1 && c[0] == h
  {
    [h] + q
  }

  ghost function LastCell(h: Link, q: seq<Link>): Link {
    Chain(h, q)[|q|]
  }

  /** Element i of a sequence of cells, or NULL past its end. */
  ghost function At(c: seq<Link>, i: nat): Link? {
    if i < |c| then c[i] else null
  }

  lemma ChainAt(h: Link, q: seq<Link>, i: nat)
    requires i < |q|
    ensures Chain(h, q)[i + 1] == q[i]
  {
  }

  ghost predicate NoDup(c: seq<Link>) {
    forall i, j | 0 <= i < j < |c| :: c[i] != c[j]
  }

  /** Each cell's `next` is the cell after it. */
  ghost predicate Nexts(c: seq<Link>)
    reads c
  {
    forall i | 0 <= i < |c| - 1 :: c[i].next == c[i + 1]
  }

  /** Each cell's `prev` is the cell before it. */
  ghost predicate Prevs(c: seq<Link>)
    reads c
  {
    forall i | 0 < i < |c| :: c[i].prev == c[i - 1]
  }

  /** Following `next` from the head visits exactly q, without repeats, and ends in NULL. */
  ghost predicate Forward(h: Link, q: seq<Link>)
    reads h, q
  {
    var c := Chain(h, q);
    NoDup(c) && Nexts(c) && LastCell(h, q).next == null
  }

  ghost function InsertAt(q: seq<Link>, i: nat, e: Link): seq<Link>
    requires i <= |q|
  {
    q[..i] + [e] + q[i..]
  }

  ghost function RemoveAt(q: seq<Link>, i: nat): seq<Link>
    requires i < |q|
  {
    q[..i] + q[i + 1..]
  }

  ghost function Reverse(q: seq<Link>): (r: seq<Link>)
    ensures |r| == |q|
    ensures forall i | 0 <= i < |q| :: r[i] == q[|q| - 1 - i]
  {
    seq(|q|, i requires 0 <= i < |q| => q[|q| - 1 - i])
  }

  /** The cells a list occupies. */
  ghost function Cells(h: Link, q: seq<Link>): set<Link> {
    {h} + set x | x in q
  }

  /** One step forward from cell i. */
  lemma StepFrom(h: Link, q: seq<Link>, i: nat)
    requires Forward(h, q) && i <= |q|
    ensures Chain(h, q)[i].next == At(q, i) == At(Chain(h, q), i + 1)
    ensures i > 0 ==> Chain(h, q)[i] == q[i - 1]
  {
    if i < |q| {
      ChainAt(h, q, i);
    }
    if i > 0 {
      ChainAt(h, q, i - 1);
    }
  }

  lemma CellsOfChain(h: Link, q: seq<Link>)
    ensures forall x :: x in Chain(h, q) <==> x in Cells(h, q)
    ensures LastCell(h, q) == if q == [] then h else q[|q| - 1]
  {
  }

  lemma DisjointElements(h1: Link, q1: seq<Link>, h2: Link, q2: seq<Link>)
    requires Cells(h1, q1) !! Cells(h2, q2)
    ensures h1 != h2 && h1 !in q2 && h2 !in q1
    ensures DisjointSeqs(q1, q2)
  {
    assert h1 in Cells(h1, q1) && h2 in Cells(h2, q2);
    forall i, j | 0 <= i < |q1| && 0 <= j < |q2|
      ensures q1[i] != q2[j]
    {
      assert q1[i] in Cells(h1, q1) && q2[j] in Cells(h2, q2);
    }
    assert forall x | x in q1 :: x in Cells(h1, q1);
    assert forall x | x in q2 :: x in Cells(h2, q2);
  }

  // ----- cutting and joining chains --------------------------------------------------------

  lemma NextsJoin(a: seq<Link>, b: seq<Link>)
    requires a != [] && Nexts(a) && Nexts(b) && (b != [] ==> a[|a| - 1].next == b[0])
    ensures Nexts(a + b)
  {
  }

  lemma PrevsJoin(a: seq<Link>, b: seq<Link>)
    requires a != [] && Prevs(a) && Prevs(b) && (b != [] ==> b[0].prev == a[|a| - 1])
    ensures Prevs(a + b)
  {
  }

  lemma NoDupJoin(a: seq<Link>, b: seq<Link>)
    requires NoDup(a) && NoDup(b) && forall x | x in a :: x !in b
    ensures NoDup(a + b)
  {
    var c := a + b;
    forall i, j | 0 <= i < j < |c|
      ensures c[i] != c[j]
    {
      if i < |a| <= j {
        assert c[i] in a && c[j] == b[j - |a|] && b[j - |a|] in b;
      }
    }
  }

  lemma NoDupSplit(c: seq<Link>, k: nat)
    requires NoDup(c) && k <= |c|
    ensures NoDup(c[..k]) && NoDup(c[k..])
    ensures forall x | x in c[..k] :: x !in c[k..]
  {
    var a, b := c[..k], c[k..];
    assert c == a + b;
    forall i, j | 0 <= i < |a| && 0 <= j < |b|
      ensures a[i] != b[j]
    {
      assert a[i] == c[i] && b[j] == c[k + j];
    }
  }

  lemma ChainInsert(h: Link, q: seq<Link>, i: nat, e: Link)
    requires i <= |q|
    ensures var c := Chain(h, q); Chain(h, InsertAt(q, i, e)) == c[..i + 1] + [e] + c[i + 1..]
    ensures LastCell(h, InsertAt(q, i, e)) == if i < |q| then LastCell(h, q) else e
  {
    var c := Chain(h, q);
    assert c[..i + 1] == [h] + q[..i] && c[i + 1..] == q[i..];
  }

  lemma ChainRemove(h: Link, q: seq<Link>, i: nat)
    requires i < |q|
    ensures var c := Chain(h, q); Chain(h, RemoveAt(q, i)) == c[..i + 1] + c[i + 2..]
    ensures LastCell(h, RemoveAt(q, i)) == if i + 1 < |q| then LastCell(h, q) else Chain(h, q)[i]
  {
    var c := Chain(h, q);
    assert c[..i + 1] == [h] + q[..i] && c[i + 2..] == q[i + 1..];
  }

  /** A new cell e was linked in after cell i. */
  lemma ForwardInsert(h: Link, q: seq<Link>, i: nat, e: Link)
    requires i <= |q| && NoDup(Chain(h, q)) && e !in Chain(h, q)
    requires var c := Chain(h, q);
             Nexts(c[..i + 1]) && Nexts(c[i + 1..]) && c[i].next == e && e.next == At(c, i + 1)
    requires i < |q| ==> LastCell(h, q).next == null
    ensures Forward(h, InsertAt(q, i, e))
  {
    var c := Chain(h, q);
    var a, b := c[..i + 1], c[i + 1..];
    NoDupSplit(c, i + 1);
    NoDupJoin(a, [e]);
    NoDupJoin(a + [e], b);
    NextsJoin(a, [e]);
    NextsJoin(a + [e], b);
    ChainInsert(h, q, i, e);
  }

  lemma PrevsInsert(h: Link, q: seq<Link>, i: nat, e: Link)
    requires i <= |q|
    requires var c := Chain(h, q);
             Prevs(c[..i + 1]) && Prevs(c[i + 1..]) && e.prev == c[i] && (i < |q| ==> c[i + 1].prev == e)
    ensures Prevs(Chain(h, InsertAt(q, i, e)))
  {
    var c := Chain(h, q);
    PrevsJoin(c[..i + 1], [e]);
    PrevsJoin(c[..i + 1] + [e], c[i + 1..]);
    ChainInsert(h, q, i, e);
  }

  /** The cell after cell i was linked out. */
  lemma ForwardRemove(h: Link, q: seq<Link>, i: nat)
    requires i < |q| && NoDup(Chain(h, q))
    requires var c := Chain(h, q);
             Nexts(c[..i + 1]) && Nexts(c[i + 2..]) && c[i].next == At(c, i + 2)
    requires i + 1 < |q| ==> LastCell(h, q).next == null
    ensures Forward(h, RemoveAt(q, i))
  {
    var c := Chain(h, q);
    var a, b := c[..i + 1], c[i + 2..];
    NoDupSplit(c, i + 1);
    NoDupSplit(c, i + 2);
    assert c[i + 1..][1..] == b;
    NoDupJoin(a, b);
    NextsJoin(a, b);
    ChainRemove(h, q, i);
  }

  lemma PrevsRemove(h: Link, q: seq<Link>, i: nat)
    requires i < |q|
    requires var c := Chain(h, q);
             Prevs(c[..i + 1]) && Prevs(c[i + 2..]) && (i + 1 < |q| ==> c[i + 2].prev == c[i])
    ensures Prevs(Chain(h, RemoveAt(q, i)))
  {
    var c := Chain(h, q);
    PrevsJoin(c[..i + 1], c[i + 2..]);
    ChainRemove(h, q, i);
  }

  // ----- lists seen from the elements ------------------------------------------------------

  /** The elements follow one another to NULL, and the head's `next` is the first. */
  ghost predicate ElementsForward(h: Link, q: seq<Link>)
    reads h, q
  {
    && NoDup(q) && h !in q && Nexts(q) && h.next == At(q, 0)
    && (q != [] ==> q[|q| - 1].next == null)
  }

  ghost predicate ElementsBack(h: Link, q: seq<Link>)
    reads q
  {
    Prevs(q) && (q != [] ==> q[0].prev == h)
  }

  lemma ForwardIff(h: Link, q: seq<Link>)
    ensures Forward(h, q) <==> ElementsForward(h, q)
  {
    var c := Chain(h, q);
    assert c == [h] + q && c[1..] == q;
    if ElementsForward(h, q) {
      NoDupJoin([h], q);
      NextsJoin([h], q);
    }
    if Forward(h, q) {
      NoDupSplit(c, 1);
      StepFrom(h, q, 0);
      StepFrom(h, q, |q|);
      assert Nexts(c[1..]);
      assert h in c[..1];
    }
  }

  lemma BackIff(h: Link, q: seq<Link>)
    ensures Prevs(Chain(h, q)) <==> ElementsBack(h, q)
  {
    var c := Chain(h, q);
    assert c == [h] + q && c[1..] == q;
    if ElementsBack(h, q) {
      PrevsJoin([h], q);
    }
    if Prevs(c) {
      assert Prevs(c[1..]);
      if q != [] {
        assert c[1].prev == c[0];
      }
    }
  }

  ghost predicate DisjointSeqs(a: seq<Link>, b: seq<Link>) {
    forall i, j | 0 <= i < |a| && 0 <= j < |b| :: a[i] != b[j]
  }

  /** A second list's elements were hung after the last cell of the first list. */
  lemma ElementsConcat(h: Link, a: seq<Link>, b: seq<Link>)
    requires NoDup(a) && NoDup(b) && DisjointSeqs(a, b) && h !in a && h !in b && Nexts(a) && Nexts(b) && b != []
    requires if a == [] then h.next == b[0] else h.next == a[0] && a[|a| - 1].next == b[0]
    requires b[|b| - 1].next == null
    ensures ElementsForward(h, a + b)
  {
    if a == [] {
      assert a + b == b;
    } else {
      NoDupJoin(a, b);
      NextsJoin(a, b);
    }
  }

  lemma ElementsBackConcat(h: Link, a: seq<Link>, b: seq<Link>)
    requires ElementsBack(h, a) && Prevs(b) && b != []
    requires b[0].prev == if a == [] then h else a[|a| - 1]
    ensures ElementsBack(h, a + b)
  {
    if a == [] {
      assert a + b == b;
    } else {
      PrevsJoin(a, b);
    }
  }

  // ----- the heap fixes the list -----------------------------------------------------------

  /** No head has two sequences. */
  lemma {:induction false} ForwardUnique(h: Link, a: seq<Link>, b: seq<Link>)
    requires Forward(h, a) && Forward(h, b)
    ensures a == b
  {
    SameCells(h, a, b, |a|);
    SameCells(h, b, a, |b|);
    assert Chain(h, a)[1..] == a && Chain(h, b)[1..] == b;
    assert forall i | 0 <= i < |a| && i < |b| :: a[i] == Chain(h, a)[i + 1] && b[i] == Chain(h, b)[i + 1];
  }

  lemma {:induction false} SameCells(h: Link, a: seq<Link>, b: seq<Link>, k: nat)
    requires Forward(h, a) && Forward(h, b) && k <= |a|
    ensures k <= |b| && forall i | 0 <= i <= k :: Chain(h, a)[i] == Chain(h, b)[i]
  {
    if k > 0 {
      SameCells(h, a, b, k - 1);
      assert Chain(h, a)[k - 1].next == Chain(h, a)[k];
    }
  }
}
