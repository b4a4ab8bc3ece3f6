/**
 TAILQ of queue.h. Each macro is a method over the heap; the ghost parameter q is the sequence the
 queue holds. Tracing and link trashing are off, as in a default build.
 */
module TailQueue {
  import opened Links

  ghost predicate IsTailq(h: Link, q: seq<Link>)
    reads h, q
  {
    Forward(h, q) && Prevs(Chain(h, q)) && h.prev == LastCell(h, q)
  }

  /** The elements are linked among themselves, and the head points at both their ends. */
  ghost predicate HeadsElements(h: Link, q: seq<Link>)
    reads h, q
  {
    ElementsForward(h, q) && ElementsBack(h, q) && h.prev == if q == [] then h else q[|q| - 1]
  }

  lemma HeadsElementsIff(h: Link, q: seq<Link>)
    ensures IsTailq(h, q) <==> HeadsElements(h, q)
  {
    ForwardIff(h, q);
    BackIff(h, q);
    CellsOfChain(h, q);
  }

  /** TAILQ_INIT */
  method Init(h: Link)
    modifies h
    ensures IsTailq(h, [])
  {
    h.next := null;
    h.prev := h;
  }

  /** TAILQ_INSERT_HEAD */
  method InsertHead(h: Link, elm: Link, ghost q: seq<Link>)
    requires IsTailq(h, q) && elm !in Cells(h, q)
    modifies Cells(h, q) + {elm}
    ensures IsTailq(h, [elm] + q)
  {
    hide IsTailq, Chain, LastCell, Forward;
    HeadsElementsIff(h, q);
    elm.next := h.next;
    if elm.next != null {
      h.next.prev := elm;
    } else {
      h.prev := elm;
    }
    h.next := elm;
    elm.prev := h;
    NoDupJoin([elm], q);
    NextsJoin([elm], q);
    PrevsJoin([elm], q);
    HeadsElementsIff(h, [elm] + q);
  }

  /** TAILQ_INSERT_TAIL */
  method InsertTail(h: Link, elm: Link, ghost q: seq<Link>)
    requires IsTailq(h, q) && elm !in Cells(h, q)
    modifies Cells(h, q) + {elm}
    ensures IsTailq(h, q + [elm])
  {
    ghost var c := Chain(h, q);
    elm.next := null;
    elm.prev := h.prev;
    h.prev.next := elm;
    h.prev := elm;
    assert Nexts(c) && Prevs(c);
    assert c[..|q| + 1] == c;
    ForwardInsert(h, q, |q|, elm);
    PrevsInsert(h, q, |q|, elm);
    ChainInsert(h, q, |q|, elm);
    assert InsertAt(q, |q|, elm) == q + [elm];
  }

  /** TAILQ_INSERT_AFTER */
  method InsertAfter(h: Link, listelm: Link, elm: Link, ghost q: seq<Link>, ghost i: nat)
    requires IsTailq(h, q) && elm !in Cells(h, q) && i < |q| && q[i] == listelm
    modifies Cells(h, q) + {elm}
    ensures IsTailq(h, InsertAt(q, i + 1, elm))
  {
    ghost var c := Chain(h, q);
    StepFrom(h, q, i + 1);
    elm.next := listelm.next;
    if elm.next != null {
      elm.next.prev := elm;
    } else {
      h.prev := elm;
    }
    listelm.next := elm;
    elm.prev := listelm;
    assert Nexts(c[..i + 2]) && Prevs(c[..i + 2]);
    assert Nexts(c[i + 2..]) && Prevs(c[i + 2..]);
    ForwardInsert(h, q, i + 1, elm);
    PrevsInsert(h, q, i + 1, elm);
    ChainInsert(h, q, i + 1, elm);
  }

  /** TAILQ_INSERT_BEFORE, which is not told the head */
  method InsertBefore(listelm: Link, elm: Link, ghost h: Link, ghost q: seq<Link>, ghost i: nat)
    requires IsTailq(h, q) && elm !in Cells(h, q) && i < |q| && q[i] == listelm
    modifies Cells(h, q) + {elm}
    ensures IsTailq(h, InsertAt(q, i, elm))
  {
    ghost var c := Chain(h, q);
    ChainAt(h, q, i);
    assert listelm.prev == c[i];
    elm.prev := listelm.prev;
    elm.next := listelm;
    listelm.prev.next := elm;
    listelm.prev := elm;
    assert Nexts(c[..i + 1]) && Prevs(c[..i + 1]);
    assert Nexts(c[i + 1..]) && Prevs(c[i + 1..]);
    ForwardInsert(h, q, i, elm);
    PrevsInsert(h, q, i, elm);
    ChainInsert(h, q, i, elm);
  }

  /** TAILQ_REMOVE */
  method Remove(h: Link, elm: Link, ghost q: seq<Link>, ghost i: nat)
    requires IsTailq(h, q) && i < |q| && q[i] == elm
    modifies Cells(h, q)
    ensures IsTailq(h, RemoveAt(q, i))
    ensures elm.next == old(elm.next) && elm.prev == old(elm.prev)
  {
    ghost var c := Chain(h, q);
    StepFrom(h, q, i + 1);
    assert elm.prev == c[i];
    if elm.next != null {
      elm.next.prev := elm.prev;
    } else {
      h.prev := elm.prev;
    }
    elm.prev.next := elm.next;
    assert Nexts(c[..i + 1]) && Prevs(c[..i + 1]);
    assert Nexts(c[i + 2..]) && Prevs(c[i + 2..]);
    ForwardRemove(h, q, i);
    PrevsRemove(h, q, i);
    ChainRemove(h, q, i);
  }

  /** TAILQ_CONCAT */
  method Concat(h1: Link, h2: Link, ghost q1: seq<Link>, ghost q2: seq<Link>)
    requires IsTailq(h1, q1) && IsTailq(h2, q2) && Cells(h1, q1) !! Cells(h2, q2)
    modifies Cells(h1, q1) + Cells(h2, q2)
    ensures IsTailq(h1, q1 + q2) && IsTailq(h2, [])
  {
    hide IsTailq, Chain, LastCell, Forward;
    HeadsElementsIff(h1, q1);
    HeadsElementsIff(h2, q2);
    DisjointElements(h1, q1, h2, q2);
    if h2.next != null {
      h1.prev.next := h2.next;
      h2.next.prev := h1.prev;
      h1.prev := h2.prev;
      Init(h2);
      ElementsConcat(h1, q1, q2);
      ElementsBackConcat(h1, q1, q2);
      HeadsElementsIff(h1, q1 + q2);
    } else {
      assert q1 + q2 == q1 && q2 == [];
    }
  }

  /** TAILQ_SWAP, of two lists or of one with itself */
  method Swap(h1: Link, h2: Link, ghost q1: seq<Link>, ghost q2: seq<Link>)
    requires IsTailq(h1, q1) && IsTailq(h2, q2)
    requires (h1 == h2 && q1 == q2) || Cells(h1, q1) !! Cells(h2, q2)
    modifies Cells(h1, q1) + Cells(h2, q2)
    ensures IsTailq(h1, q2) && IsTailq(h2, q1)
  {
    hide IsTailq, Chain, LastCell;
    HeadsElementsIff(h1, q1);
    HeadsElementsIff(h2, q2);
    if h1 != h2 {
      DisjointElements(h1, q1, h2, q2);
    }
    var swapFirst, swapLast := h1.next, h1.prev;
    h1.next := h2.next;
    h1.prev := h2.prev;
    h2.next := swapFirst;
    h2.prev := swapLast;
    swapFirst := h1.next;
    if swapFirst != null {
      swapFirst.prev := h1;
    } else {
      h1.prev := h1;
    }
    swapFirst := h2.next;
    if swapFirst != null {
      swapFirst.prev := h2;
    } else {
      h2.prev := h2;
    }
    HeadsElementsIff(h1, q2);
    HeadsElementsIff(h2, q1);
  }

  /** The chain fixes both links of its cell i. */
  ghost predicate LinksAre(c: seq<Link>, i: nat)
    requires i < |c|
    reads c
  {
    c[i].next == At(c, i + 1) && c[i].prev == c[if i == 0 then |c| - 1 else i - 1]
  }

  lemma LinksOf(h: Link, q: seq<Link>)
    requires IsTailq(h, q)
    ensures forall i | 0 <= i < |Chain(h, q)| :: LinksAre(Chain(h, q), i)
  {
    forall i | 0 <= i < |Chain(h, q)|
      ensures LinksAre(Chain(h, q), i)
    {
      StepFrom(h, q, i);
    }
  }

  /** Swapping twice restores both links of every cell of both queues. */
  method SwapTwice(h1: Link, h2: Link, ghost q1: seq<Link>, ghost q2: seq<Link>)
    requires IsTailq(h1, q1) && IsTailq(h2, q2)
    requires (h1 == h2 && q1 == q2) || Cells(h1, q1) !! Cells(h2, q2)
    modifies Cells(h1, q1) + Cells(h2, q2)
    ensures IsTailq(h1, q1) && IsTailq(h2, q2)
    ensures var c := Chain(h1, q1);
            forall i | 0 <= i < |c| :: c[i].next == old(c[i].next) && c[i].prev == old(c[i].prev)
    ensures var c := Chain(h2, q2);
            forall i | 0 <= i < |c| :: c[i].next == old(c[i].next) && c[i].prev == old(c[i].prev)
  {
    hide IsTailq;
    ghost var c1, c2 := Chain(h1, q1), Chain(h2, q2);
    LinksOf(h1, q1);
    LinksOf(h2, q2);
    if h1 != h2 {
      ExchangedApart(h1, q1, h2, q2);
    }
    Swap(h1, h2, q1, q2);
    Swap(h1, h2, q2, q1);
    LinksOf(h1, q1);
    LinksOf(h2, q2);
    forall i | 0 <= i < |c1|
      ensures c1[i].next == old(c1[i].next) && c1[i].prev == old(c1[i].prev)
    {
      assert LinksAre(c1, i) && old(LinksAre(c1, i));
    }
    forall i | 0 <= i < |c2|
      ensures c2[i].next == old(c2[i].next) && c2[i].prev == old(c2[i].prev)
    {
      assert LinksAre(c2, i) && old(LinksAre(c2, i));
    }
  }

  lemma ExchangedApart(h1: Link, q1: seq<Link>, h2: Link, q2: seq<Link>)
    requires IsTailq(h1, q1) && IsTailq(h2, q2) && Cells(h1, q1) !! Cells(h2, q2)
    ensures Cells(h1, q2) !! Cells(h2, q1)
    ensures Cells(h1, q2) + Cells(h2, q1) == Cells(h1, q1) + Cells(h2, q2)
  {
    HeadsElementsIff(h1, q1);
    HeadsElementsIff(h2, q2);
    DisjointElements(h1, q1, h2, q2);
  }

  /** TAILQ_LAST: the last cell read as a head, whose second field leads to the cell before it. */
  method Last(h: Link, ghost q: seq<Link>) returns (r: Link?)
    requires IsTailq(h, q)
    ensures r == if q == [] then null else q[|q| - 1]
  {
    StepFrom(h, q, |q|);
    if q != [] {
      StepFrom(h, q, |q| - 1);
    }
    r := h.prev.prev.next;
  }

  /** TAILQ_PREV: NULL for the first element, because the head's second field leads to the last cell. */
  method Prev(elm: Link, ghost h: Link, ghost q: seq<Link>, ghost i: nat) returns (r: Link?)
    requires IsTailq(h, q) && i < |q| && q[i] == elm
    ensures r == if i == 0 then null else q[i - 1]
  {
    StepFrom(h, q, i + 1);
    if i > 0 {
      StepFrom(h, q, i - 1);
    }
    r := elm.prev.prev.next;
  }

  /** The visits of TAILQ_FOREACH. */
  method Foreach(h: Link, ghost q: seq<Link>) returns (visited: seq<Link>)
    requires IsTailq(h, q)
    ensures visited == q
  {
    visited := [];
    FirstAndNext(h, q, 0);
    var v := h.next;
    while v != null
      invariant |visited| <= |q| && visited == q[..|visited|] && v == At(q, |visited|)
      decreases |q| - |visited|
    {
      FirstAndNext(h, q, |visited| + 1);
      visited := visited + [v];
      v := v.next;
    }
  }

  /** The visits of TAILQ_FOREACH_REVERSE: last to first, ending at the head. */
  method ForeachReverse(h: Link, ghost q: seq<Link>) returns (visited: seq<Link>)
    requires IsTailq(h, q)
    ensures visited == Reverse(q)
  {
    hide IsTailq;
    visited := [];
    ghost var left := |q|;
    var v := Last(h, q);
    while v != null
      invariant 0 <= left <= |q| && |visited| == |q| - left
      invariant v == if left == 0 then null else q[left - 1]
      invariant forall i | 0 <= i < |visited| :: visited[i] == q[|q| - 1 - i]
      decreases left
    {
      visited := visited + [v];
      v := Prev(v, h, q, left - 1);
      left := left - 1;
    }
  }

  ghost function Keep(q: seq<Link>, doomed: set<Link>): seq<Link> {
    if q == [] then []
    else Keep(q[..|q| - 1], doomed) + if q[|q| - 1] in doomed then [] else [q[|q| - 1]]
  }

  /** Keep goes through a queue in order... */
  lemma {:induction false} KeepInOrder(a: seq<Link>, b: seq<Link>, doomed: set<Link>)
    ensures Keep(a + b, doomed) == Keep(a, doomed) + Keep(b, doomed)
  {
    if b == [] {
      assert a + b == a;
    } else {
      KeepInOrder(a, b[..|b| - 1], doomed);
      assert (a + b)[..|a + b| - 1] == a + b[..|b| - 1];
    }
  }

  /** ...and leaves out exactly the doomed elements. */
  lemma {:induction false} KeepMembers(q: seq<Link>, doomed: set<Link>, x: Link)
    ensures x in Keep(q, doomed) <==> x in q && x !in doomed
  {
    if q != [] {
      KeepMembers(q[..|q| - 1], doomed, x);
      assert q == q[..|q| - 1] + [q[|q| - 1]];
    }
  }

  /**
   TAILQ_FOREACH_SAFE with a body that removes some of the elements it visits: it still visits the
   original sequence and leaves the others in order.
   */
  method RemoveAllSafe(h: Link, doomed: set<Link>, ghost q: seq<Link>) returns (visited: seq<Link>)
    requires IsTailq(h, q)
    modifies Cells(h, q)
    ensures visited == q
    ensures IsTailq(h, Keep(q, doomed))
  {
    hide IsTailq, Keep, RemoveAt, At;
    visited := [];
    ghost var kept := Keep([], doomed);
    FirstAndNext(h, q, 0);
    KeepStart(q, doomed);
    var v := h.next;
    while v != null
      invariant |visited| <= |q| && visited == q[..|visited|] && v == At(q, |visited|)
      invariant kept == Keep(visited, doomed) && Cells(h, kept) <= Cells(h, q)
      invariant IsTailq(h, kept + q[|visited|..])
      decreases |q| - |visited|
    {
      ghost var k, now := |visited|, kept + q[|visited|..];
      Advance(h, kept, q, k, doomed);
      FirstAndNext(h, now, |kept| + 1);
      var tvar := v.next;
      visited := visited + [v];
      if v in doomed {
        Remove(h, v, now, |kept|);
      } else {
        kept := kept + [v];
      }
      v := tvar;
    }
    KeepEnd(kept, q, |visited|);
  }

  /** The head's `next` is the first element, element i - 1's is element i. */
  lemma FirstAndNext(h: Link, q: seq<Link>, i: nat)
    requires IsTailq(h, q) && i <= |q|
    ensures At(q, i) == if i == 0 then h.next else q[i - 1].next
  {
    StepFrom(h, q, i);
  }

  lemma {:induction false} KeepStart(q: seq<Link>, doomed: set<Link>)
    ensures Keep([], doomed) == [] && [] + q[0..] == q
  {
  }

  lemma KeepEnd(kept: seq<Link>, q: seq<Link>, k: nat)
    requires k <= |q| && At(q, k) == null
    ensures k == |q| && kept + q[k..] == kept && q[..k] == q
  {
  }

  /** One step of the traversal: where the visited element sits, and the sequences after it. */
  lemma {:induction false} Advance(h: Link, kept: seq<Link>, q: seq<Link>, k: nat, doomed: set<Link>)
    requires k <= |q| && At(q, k) != null && Cells(h, kept) <= Cells(h, q)
    ensures k < |q| && At(q, k) == q[k] && q[..k] + [q[k]] == q[..k + 1]
    ensures var now := kept + q[k..];
            && |kept| < |now| && now[|kept|] == q[k] && At(now, |kept| + 1) == At(q, k + 1)
            && RemoveAt(now, |kept|) == kept + q[k + 1..]
            && now == (kept + [q[k]]) + q[k + 1..]
            && Cells(h, now) <= Cells(h, q) && Cells(h, kept + [q[k]]) <= Cells(h, q)
    ensures Keep(q[..k] + [q[k]], doomed) == Keep(q[..k], doomed) + if q[k] in doomed then [] else [q[k]]
  {
    var now := kept + q[k..];
    assert q[k..] == [q[k]] + q[k + 1..];
    assert now[..|kept|] == kept && now[|kept| + 1..] == q[k + 1..];
    assert forall x | x in kept :: x in Cells(h, kept);
    assert (q[..k] + [q[k]])[..k] == q[..k];
  }
}
