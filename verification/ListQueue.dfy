/** LIST of queue.h: doubly linked, with a head that knows only its first element. */
module ListQueue {
  import opened Links

  ghost predicate IsList(h: Link, q: seq<Link>)
    reads h, q
  {
    Forward(h, q) && Prevs(Chain(h, q))
  }

  lemma IsListIff(h: Link, q: seq<Link>)
    ensures IsList(h, q) <==> ElementsForward(h, q) && ElementsBack(h, q)
  {
    ForwardIff(h, q);
    BackIff(h, q);
  }

  /** LIST_INSERT_BEFORE, which is not told the head */
  method InsertBefore(listelm: Link, elm: Link, ghost h: Link, ghost q: seq<Link>, ghost i: nat)
    requires IsList(h, q) && elm !in Cells(h, q) && i < |q| && q[i] == listelm
    modifies Cells(h, q) + {elm}
    ensures IsList(h, InsertAt(q, i, elm))
  {
    ghost var c := Chain(h, q);
    ChainAt(h, q, i);
    assert listelm.prev == c[i];
    elm.prev := listelm.prev;
    elm.next := listelm;
    listelm.prev.next := elm;
    listelm.prev := elm;
    assert Nexts(c[..i + 1]) && Prevs(c[..i + 1]);
    assert Nexts(c[i + 1..]) && Prevs(c[i + 1..]);
    ForwardInsert(h, q, i, elm);
    PrevsInsert(h, q, i, elm);
  }

  /** LIST_REMOVE, which is not told the head */
  method Remove(elm: Link, ghost h: Link, ghost q: seq<Link>, ghost i: nat)
    requires IsList(h, q) && i < |q| && q[i] == elm
    modifies Cells(h, q)
    ensures IsList(h, RemoveAt(q, i))
  {
    ghost var c := Chain(h, q);
    StepFrom(h, q, i + 1);
    assert elm.prev == c[i];
    if elm.next != null {
      elm.next.prev := elm.prev;
    }
    elm.prev.next := elm.next;
    assert Nexts(c[..i + 1]) && Prevs(c[..i + 1]);
    assert Nexts(c[i + 2..]) && Prevs(c[i + 2..]);
    ForwardRemove(h, q, i);
    PrevsRemove(h, q, i);
  }

  /** The walk of LIST_CONCAT to the first list's last element. */
  method LastElement(h: Link, ghost q: seq<Link>) returns (curelm: Link)
    requires Forward(h, q) && q != []
    ensures curelm == q[|q| - 1]
  {
    hide Forward;
    StepFrom(h, q, 0);
    curelm := h.next;
    ghost var k := 0;
    StepFrom(h, q, 1);
    while curelm.next != null
      invariant k < |q| && curelm == q[k] && curelm.next == At(q, k + 1)
      decreases |q| - k
    {
      curelm := curelm.next;
      k := k + 1;
      StepFrom(h, q, k + 1);
    }
  }

  /** LIST_CONCAT */
  method Concat(h1: Link, h2: Link, ghost q1: seq<Link>, ghost q2: seq<Link>)
    requires IsList(h1, q1) && IsList(h2, q2) && Cells(h1, q1) !! Cells(h2, q2)
    modifies Cells(h1, q1) + Cells(h2, q2)
    ensures IsList(h1, q1 + q2) && IsList(h2, [])
  {
    hide IsList, Chain, LastCell, Forward;
    IsListIff(h1, q1);
    IsListIff(h2, q2);
    DisjointElements(h1, q1, h2, q2);
    var curelm := h1.next;
    if curelm == null {
      h1.next := h2.next;
      if h1.next != null {
        h2.next.prev := h1;
        h2.next := null;
      }
    } else if h2.next != null {
      ForwardIff(h1, q1);
      curelm := LastElement(h1, q1);
      curelm.next := h2.next;
      h2.next.prev := curelm;
      h2.next := null;
    }
    if q2 != [] {
      ElementsConcat(h1, q1, q2);
      ElementsBackConcat(h1, q1, q2);
    } else {
      assert q1 + q2 == q1;
    }
    IsListIff(h1, q1 + q2);
    IsListIff(h2, []);
  }

  /** LIST_SWAP, of two lists or of one with itself */
  method Swap(h1: Link, h2: Link, ghost q1: seq<Link>, ghost q2: seq<Link>)
    requires IsList(h1, q1) && IsList(h2, q2)
    requires (h1 == h2 && q1 == q2) || Cells(h1, q1) !! Cells(h2, q2)
    modifies Cells(h1, q1) + Cells(h2, q2)
    ensures IsList(h1, q2) && IsList(h2, q1)
  {
    hide IsList, Chain, LastCell, Forward;
    IsListIff(h1, q1);
    IsListIff(h2, q2);
    if h1 != h2 {
      DisjointElements(h1, q1, h2, q2);
    }
    var swapTmp := h1.next;
    h1.next := h2.next;
    h2.next := swapTmp;
    swapTmp := h1.next;
    if swapTmp != null {
      swapTmp.prev := h1;
    }
    swapTmp := h2.next;
    if swapTmp != null {
      swapTmp.prev := h2;
    }
    IsListIff(h1, q2);
    IsListIff(h2, q1);
  }

  /** LIST_PREV */
  method Prev(elm: Link, head: Link, ghost q: seq<Link>, ghost i: nat) returns (r: Link?)
    requires IsList(head, q) && i < |q| && q[i] == elm
    ensures r == if i == 0 then null else q[i - 1]
  {
    StepFrom(head, q, i + 1);
    assert elm.prev == Chain(head, q)[i];
    StepFrom(head, q, i);
    CellsOfChain(head, q);
    r := if elm.prev == head then null else elm.prev;
  }
}
