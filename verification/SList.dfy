/** SLIST of queue.h, the list of client threads: a head and `next` fields, nothing else. */
module SList {
  import opened Links
  import ListQueue
  import STailQueue

  /** SLIST_REMOVE_HEAD and SLIST_REMOVE_AFTER: the cell after cell i is linked out. */
  method RemoveAfter(cell: Link, ghost h: Link, ghost q: seq<Link>, ghost i: nat)
    requires Forward(h, q) && i < |q| && Chain(h, q)[i] == cell
    modifies Cells(h, q)
    ensures Forward(h, RemoveAt(q, i))
  {
    ghost var c := Chain(h, q);
    StepFrom(h, q, i);
    StepFrom(h, q, i + 1);
    CellsOfChain(h, q);
    cell.next := cell.next.next;
    assert Nexts(c[..i + 1]) && Nexts(c[i + 2..]);
    ForwardRemove(h, q, i);
  }

  /** SLIST_REMOVE */
  method Remove(h: Link, elm: Link, ghost q: seq<Link>, ghost i: nat)
    requires Forward(h, q) && i < |q| && q[i] == elm
    modifies Cells(h, q)
    ensures Forward(h, RemoveAt(q, i))
  {
    StepFrom(h, q, 0);
    if h.next == elm {
      ForwardIff(h, q);
      RemoveAfter(h, h, q, 0);
      assert q[0] == q[i];
    } else {
      var curelm := STailQueue.ElementBefore(h, elm, q, i);
      StepFrom(h, q, i);
      RemoveAfter(curelm, h, q, i);
    }
  }

  /** SLIST_CONCAT */
  method Concat(h1: Link, h2: Link, ghost q1: seq<Link>, ghost q2: seq<Link>)
    requires Forward(h1, q1) && Forward(h2, q2) && Cells(h1, q1) !! Cells(h2, q2)
    modifies Cells(h1, q1) + Cells(h2, q2)
    ensures Forward(h1, q1 + q2) && Forward(h2, [])
  {
    hide Chain, LastCell, Forward;
    ForwardIff(h1, q1);
    ForwardIff(h2, q2);
    DisjointElements(h1, q1, h2, q2);
    var curelm := h1.next;
    if curelm == null {
      h1.next := h2.next;
      if h1.next != null {
        h2.next := null;
      }
    } else if h2.next != null {
      curelm := ListQueue.LastElement(h1, q1);
      curelm.next := h2.next;
      h2.next := null;
    }
    if q2 != [] {
      ElementsConcat(h1, q1, q2);
    } else {
      assert q1 + q2 == q1;
    }
    ForwardIff(h1, q1 + q2);
    ForwardIff(h2, []);
  }

  /** SLIST_SWAP, of two lists or of one with itself */
  method Swap(h1: Link, h2: Link, ghost q1: seq<Link>, ghost q2: seq<Link>)
    requires Forward(h1, q1) && Forward(h2, q2)
    requires (h1 == h2 && q1 == q2) || Cells(h1, q1) !! Cells(h2, q2)
    modifies Cells(h1, q1) + Cells(h2, q2)
    ensures Forward(h1, q2) && Forward(h2, q1)
  {
    hide Chain, LastCell, Forward;
    ForwardIff(h1, q1);
    ForwardIff(h2, q2);
    if h1 != h2 {
      DisjointElements(h1, q1, h2, q2);
    }
    var swapFirst := h1.next;
    h1.next := h2.next;
    h2.next := swapFirst;
    ForwardIff(h1, q2);
    ForwardIff(h2, q1);
  }
}
