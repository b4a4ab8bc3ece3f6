/** STAILQ of queue.h: singly linked, with a head that also knows its last next cell. */
module STailQueue {
  import opened Links

  ghost predicate IsStailq(h: Link, q: seq<Link>)
    reads h, q
  {
    Forward(h, q) && h.prev == LastCell(h, q)
  }

  ghost predicate HeadsElements(h: Link, q: seq<Link>)
    reads h, q
  {
    ElementsForward(h, q) && h.prev == if q == [] then h else q[|q| - 1]
  }

  lemma HeadsElementsIff(h: Link, q: seq<Link>)
    ensures IsStailq(h, q) <==> HeadsElements(h, q)
  {
    ForwardIff(h, q);
    CellsOfChain(h, q);
  }

  /** STAILQ_INIT */
  method Init(h: Link)
    modifies h
    ensures IsStailq(h, [])
  {
    h.next := null;
    h.prev := h;
  }

  /** STAILQ_INSERT_TAIL */
  method InsertTail(h: Link, elm: Link, ghost q: seq<Link>)
    requires IsStailq(h, q) && elm !in Cells(h, q)
    modifies Cells(h, q) + {elm}
    ensures IsStailq(h, q + [elm])
  {
    ghost var c := Chain(h, q);
    elm.next := null;
    h.prev.next := elm;
    h.prev := elm;
    assert Nexts(c) && c[..|q| + 1] == c;
    ForwardInsert(h, q, |q|, elm);
    ChainInsert(h, q, |q|, elm);
    assert InsertAt(q, |q|, elm) == q + [elm];
  }

  /** STAILQ_INSERT_AFTER */
  method InsertAfter(h: Link, tqelm: Link, elm: Link, ghost q: seq<Link>, ghost i: nat)
    requires IsStailq(h, q) && elm !in Cells(h, q) && i < |q| && q[i] == tqelm
    modifies Cells(h, q) + {elm}
    ensures IsStailq(h, InsertAt(q, i + 1, elm))
  {
    ghost var c := Chain(h, q);
    StepFrom(h, q, i + 1);
    elm.next := tqelm.next;
    if elm.next == null {
      h.prev := elm;
    }
    tqelm.next := elm;
    assert Nexts(c[..i + 2]) && Nexts(c[i + 2..]);
    ForwardInsert(h, q, i + 1, elm);
    ChainInsert(h, q, i + 1, elm);
  }

  /**
   STAILQ_REMOVE_HEAD and STAILQ_REMOVE_AFTER: the cell after cell i, which the first macro is
   given as the head itself and the second as an element, is linked out.
   */
  method RemoveAfter(h: Link, cell: Link, ghost q: seq<Link>, ghost i: nat)
    requires IsStailq(h, q) && i < |q| && Chain(h, q)[i] == cell
    modifies Cells(h, q)
    ensures IsStailq(h, RemoveAt(q, i))
  {
    ghost var c := Chain(h, q);
    StepFrom(h, q, i);
    StepFrom(h, q, i + 1);
    CellsOfChain(h, q);
    cell.next := cell.next.next;
    if cell.next == null {
      h.prev := cell;
    }
    assert Nexts(c[..i + 1]) && Nexts(c[i + 2..]);
    ForwardRemove(h, q, i);
    ChainRemove(h, q, i);
  }

  /** STAILQ_REMOVE */
  method Remove(h: Link, elm: Link, ghost q: seq<Link>, ghost i: nat)
    requires IsStailq(h, q) && i < |q| && q[i] == elm
    modifies Cells(h, q)
    ensures IsStailq(h, RemoveAt(q, i))
  {
    StepFrom(h, q, 0);
    if h.next == elm {
      HeadsElementsIff(h, q);
      RemoveAfter(h, h, q, 0);
      assert q[0] == q[i];
    } else {
      var curelm := ElementBefore(h, elm, q, i);
      StepFrom(h, q, i);
      RemoveAfter(h, curelm, q, i);
    }
  }

  /** The walk of STAILQ_REMOVE and SLIST_REMOVE to the element in front of elm. */
  method ElementBefore(h: Link, elm: Link, ghost q: seq<Link>, ghost i: nat) returns (curelm: Link)
    requires Forward(h, q) && 0 < i < |q| && q[i] == elm
    ensures curelm == q[i - 1]
  {
    ForwardIff(h, q);
    StepFrom(h, q, 0);
    StepFrom(h, q, 1);
    curelm := h.next;
    ghost var k := 0;
    while curelm.next != elm
      invariant 0 <= k < i && curelm == q[k] && curelm.next == q[k + 1]
      decreases i - k
    {
      curelm := curelm.next;
      k := k + 1;
      StepFrom(h, q, k + 1);
      assert k < i;
    }
    assert q[k + 1] == q[i];
  }

  /** STAILQ_CONCAT */
  method Concat(h1: Link, h2: Link, ghost q1: seq<Link>, ghost q2: seq<Link>)
    requires IsStailq(h1, q1) && IsStailq(h2, q2) && Cells(h1, q1) !! Cells(h2, q2)
    modifies Cells(h1, q1) + Cells(h2, q2)
    ensures IsStailq(h1, q1 + q2) && IsStailq(h2, [])
  {
    hide IsStailq, Chain, LastCell, Forward;
    HeadsElementsIff(h1, q1);
    HeadsElementsIff(h2, q2);
    DisjointElements(h1, q1, h2, q2);
    if h2.next != null {
      h1.prev.next := h2.next;
      h1.prev := h2.prev;
      Init(h2);
      ElementsConcat(h1, q1, q2);
      HeadsElementsIff(h1, q1 + q2);
    } else {
      assert q1 + q2 == q1 && q2 == [];
    }
  }

  /** STAILQ_SWAP, of two lists or of one with itself */
  method Swap(h1: Link, h2: Link, ghost q1: seq<Link>, ghost q2: seq<Link>)
    requires IsStailq(h1, q1) && IsStailq(h2, q2)
    requires (h1 == h2 && q1 == q2) || Cells(h1, q1) !! Cells(h2, q2)
    modifies Cells(h1, q1) + Cells(h2, q2)
    ensures IsStailq(h1, q2) && IsStailq(h2, q1)
  {
    hide IsStailq, Chain, LastCell, Forward;
    HeadsElementsIff(h1, q1);
    HeadsElementsIff(h2, q2);
    if h1 != h2 {
      DisjointElements(h1, q1, h2, q2);
    }
    var swapFirst, swapLast := h1.next, h1.prev;
    h1.next := h2.next;
    h1.prev := h2.prev;
    h2.next := swapFirst;
    h2.prev := swapLast;
    if h1.next == null {
      h1.prev := h1;
    }
    if h2.next == null {
      h2.prev := h2;
    }
    HeadsElementsIff(h1, q2);
    HeadsElementsIff(h2, q1);
  }

  /** STAILQ_LAST: the last next cell read as the element it lies in. */
  method Last(h: Link, ghost q: seq<Link>) returns (r: Link?)
    requires IsStailq(h, q)
    ensures r == if q == [] then null else q[|q| - 1]
  {
    HeadsElementsIff(h, q);
    r := if h.next == null then null else h.prev;
  }
}
