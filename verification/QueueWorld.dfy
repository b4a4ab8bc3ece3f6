/**
 Any number of disjoint tail queues and any run of TAILQ operations on them. A world maps each head
 to the sequence its queue holds; Apply says what an operation means for those sequences, and Run
 executes the macros one after the other on the heap.
 */
module QueueWorld {
  import opened Links
  import TailQueue

  type Queues = map<Link, seq<Link>>

  datatype Op =
    | Init(head: Link)
    | InsertHead(head: Link, elm: Link)
    | InsertTail(head: Link, elm: Link)
    | InsertAfter(head: Link, listelm: Link, elm: Link)
    | InsertBefore(listelm: Link, elm: Link)
    | Remove(head: Link, elm: Link)
    | Concat(head: Link, other: Link)
    | Swap(head: Link, other: Link)

  ghost function IndexOf(q: seq<Link>, x: Link): (i: nat)
    requires x in q
    ensures i < |q| && q[i] == x
  {
    if q[0] == x then 0 else 1 + IndexOf(q[1..], x)
  }

  ghost function Footprint(qs: Queues): set<Link> {
    set h, x | h in qs && x in Cells(h, qs[h]) :: x
  }

  /** No cell belongs to two queues. */
  ghost predicate Apart(qs: Queues) {
    forall g, h | g in qs && h in qs && g != h :: Cells(g, qs[g]) !! Cells(h, qs[h])
  }

  lemma CellsInFootprint(qs: Queues, h: Link)
    requires h in qs
    ensures Cells(h, qs[h]) <= Footprint(qs) && h in Footprint(qs)
    ensures forall x | x in qs[h] :: x in Footprint(qs)
  {
    assert h in Cells(h, qs[h]);
    assert forall x | x in qs[h] :: x in Cells(h, qs[h]);
    assert forall x | x in Cells(h, qs[h]) :: x in Footprint(qs);
  }

  ghost predicate WellFormed(qs: Queues, h: Link)
    requires h in qs
    reads Footprint(qs)
  {
    CellsInFootprint(qs, h);
    TailQueue.IsTailq(h, qs[h])
  }

  /** Every queue is well formed and holds its sequence. */
  ghost predicate World(qs: Queues)
    reads Footprint(qs)
  {
    Apart(qs) && forall h | h in qs :: WellFormed(qs, h)
  }

  // ----- what the operations mean ----------------------------------------------------------

  ghost predicate Unused(qs: Queues, e: Link) {
    e !in Footprint(qs)
  }

  /** What queue.h asks of its caller. */
  ghost predicate Legal(qs: Queues, op: Op) {
    match op
    case Init(h) => h in qs || Unused(qs, h)
    case InsertHead(h, e) => h in qs && Unused(qs, e)
    case InsertTail(h, e) => h in qs && Unused(qs, e)
    case InsertAfter(h, l, e) => h in qs && l in qs[h] && Unused(qs, e)
    case InsertBefore(l, e) => (exists h :: h in qs && l in qs[h]) && Unused(qs, e)
    case Remove(h, e) => h in qs && e in qs[h]
    case Concat(h, o) => h in qs && o in qs && h != o
    case Swap(h, o) => h in qs && o in qs
  }

  ghost function Apply(qs: Queues, op: Op): Queues
    requires Legal(qs, op)
  {
    match op
    case Init(h) => qs[h := []]
    case InsertHead(h, e) => qs[h := [e] + qs[h]]
    case InsertTail(h, e) => qs[h := qs[h] + [e]]
    case InsertAfter(h, l, e) => qs[h := InsertAt(qs[h], IndexOf(qs[h], l) + 1, e)]
    case InsertBefore(l, e) =>
      map h | h in qs :: if l in qs[h] then InsertAt(qs[h], IndexOf(qs[h], l), e) else qs[h]
    case Remove(h, e) => qs[h := RemoveAt(qs[h], IndexOf(qs[h], e))]
    case Concat(h, o) => qs[h := qs[h] + qs[o]][o := []]
    case Swap(h, o) => qs[h := qs[o]][o := qs[h]]
  }

  ghost predicate LegalRun(qs: Queues, ops: seq<Op>)
    decreases |ops|
  {
    ops == [] || (Legal(qs, ops[0]) && LegalRun(Apply(qs, ops[0]), ops[1..]))
  }

  ghost function ApplyAll(qs: Queues, ops: seq<Op>): Queues
    requires LegalRun(qs, ops)
    decreases |ops|
  {
    if ops == [] then qs else ApplyAll(Apply(qs, ops[0]), ops[1..])
  }

  /** The cells an operation names. */
  ghost function Named(op: Op): set<Link> {
    match op
    case Init(h) => {h}
    case InsertHead(h, e) => {h, e}
    case InsertTail(h, e) => {h, e}
    case InsertAfter(h, l, e) => {h, l, e}
    case InsertBefore(l, e) => {l, e}
    case Remove(h, e) => {h, e}
    case Concat(h, o) => {h, o}
    case Swap(h, o) => {h, o}
  }

  // ----- keeping queues apart --------------------------------------------------------------

  /** One queue's new cells come from its old ones and from cells nobody used. */
  lemma ApartUpdate(qs: Queues, h: Link, q: seq<Link>, extra: set<Link>)
    requires Apart(qs) && extra !! Footprint(qs)
    requires Cells(h, q) <= (if h in qs then Cells(h, qs[h]) else {}) + extra
    ensures Apart(qs[h := q])
    ensures Footprint(qs[h := q]) <= Footprint(qs) + extra
  {
    var qs' := qs[h := q];
    forall f, g | f in qs' && g in qs' && f != g
      ensures Cells(f, qs'[f]) !! Cells(g, qs'[g])
    {
      if f in qs {
        CellsInFootprint(qs, f);
      }
      if g in qs {
        CellsInFootprint(qs, g);
      }
    }
    forall x | x in Footprint(qs')
      ensures x in Footprint(qs) + extra
    {
      var f :| f in qs' && x in Cells(f, qs'[f]);
      if f in qs {
        CellsInFootprint(qs, f);
      }
    }
  }

  lemma HolderUnique(qs: Queues, g: Link, h: Link, x: Link)
    requires Apart(qs) && g in qs && h in qs && x in qs[g] && x in qs[h]
    ensures g == h
  {
    assert x in Cells(g, qs[g]) && x in Cells(h, qs[h]);
  }

  // ----- the operations on the heap --------------------------------------------------------

  /** After a change to queue h alone, within its own cells and unused ones. */
  lemma WorldUpdate(qs: Queues, h: Link, q: seq<Link>, extra: set<Link>)
    requires Apart(qs) && extra !! Footprint(qs)
    requires Cells(h, q) <= (if h in qs then Cells(h, qs[h]) else {}) + extra
    requires TailQueue.IsTailq(h, q)
    requires forall g | g in qs && g != h :: WellFormed(qs, g)
    ensures World(qs[h := q])
    ensures Footprint(qs[h := q]) <= Footprint(qs) + extra
  {
    ApartUpdate(qs, h, q, extra);
    forall g | g in qs && g != h
      ensures WellFormed(qs[h := q], g)
    {
      assert WellFormed(qs, g);
    }
  }

  /** The same for two queues that share out their own cells anew. */
  lemma WorldUpdateTwo(qs: Queues, h: Link, q: seq<Link>, o: Link, p: seq<Link>)
    requires Apart(qs) && h in qs && o in qs && h != o
    requires Cells(h, q) + Cells(o, p) <= Cells(h, qs[h]) + Cells(o, qs[o]) && Cells(h, q) !! Cells(o, p)
    requires TailQueue.IsTailq(h, q) && TailQueue.IsTailq(o, p)
    requires forall g | g in qs && g != h && g != o :: WellFormed(qs, g)
    ensures World(qs[h := q][o := p])
    ensures Footprint(qs[h := q][o := p]) <= Footprint(qs)
  {
    var qs' := qs[h := q][o := p];
    forall f, g | f in qs' && g in qs' && f != g
      ensures Cells(f, qs'[f]) !! Cells(g, qs'[g])
    {
    }
    forall x | x in Footprint(qs')
      ensures x in Footprint(qs)
    {
      var f :| f in qs' && x in Cells(f, qs'[f]);
      CellsInFootprint(qs, h);
      CellsInFootprint(qs, o);
      CellsInFootprint(qs, f);
    }
    forall g | g in qs && g != h && g != o
      ensures WellFormed(qs', g)
    {
      assert WellFormed(qs, g);
    }
  }

  lemma CellsInsert(h: Link, q: seq<Link>, i: nat, e: Link)
    requires i <= |q|
    ensures Cells(h, InsertAt(q, i, e)) == Cells(h, q) + {e}
  {
    assert q == q[..i] + q[i..];
  }

  lemma CellsRemove(h: Link, q: seq<Link>, i: nat)
    requires i < |q|
    ensures Cells(h, RemoveAt(q, i)) <= Cells(h, q)
  {
    assert q == q[..i] + [q[i]] + q[i + 1..];
  }

  /** Two lists that exchange or hand over their elements still occupy the same cells. */
  lemma CellsShared(h: Link, q: seq<Link>, o: Link, p: seq<Link>)
    requires Cells(h, q) !! Cells(o, p) && h !in q && o !in p
    ensures Cells(h, q + p) + Cells(o, []) == Cells(h, q) + Cells(o, p) && Cells(h, q + p) !! Cells(o, [])
    ensures Cells(h, p) + Cells(o, q) == Cells(h, q) + Cells(o, p) && Cells(h, p) !! Cells(o, q)
  {
    DisjointElements(h, q, o, p);
  }

  /** A queue's cells and a cell nobody uses are apart from every other queue. */
  lemma OthersApart(qs: Queues, h: Link, e: Link)
    requires Apart(qs) && h in qs && Unused(qs, e)
    ensures forall g | g in qs && g != h :: Cells(g, qs[g]) !! Cells(h, qs[h]) + {e}
    ensures e !in Cells(h, qs[h]) && {e} !! Footprint(qs) && Cells(h, qs[h]) <= Footprint(qs)
  {
    CellsInFootprint(qs, h);
    forall g | g in qs && g != h
      ensures Cells(g, qs[g]) !! Cells(h, qs[h]) + {e}
    {
      CellsInFootprint(qs, g);
    }
  }

  method DoInsertHead(h: Link, e: Link, ghost qs: Queues)
    requires World(qs) && h in qs && Unused(qs, e)
    modifies Footprint(qs) + {h, e}
    ensures World(qs[h := [e] + qs[h]])
    ensures Footprint(qs[h := [e] + qs[h]]) <= Footprint(qs) + {h, e}
  {
    OthersApart(qs, h, e);
    assert WellFormed(qs, h);
    TailQueue.InsertHead(h, e, qs[h]);
    forall g | g in qs && g != h
      ensures WellFormed(qs, g)
    {
      CellsInFootprint(qs, g);
      assert old(WellFormed(qs, g));
    }
    WorldUpdate(qs, h, [e] + qs[h], {e});
  }

  method DoInsertTail(h: Link, e: Link, ghost qs: Queues)
    requires World(qs) && h in qs && Unused(qs, e)
    modifies Footprint(qs) + {h, e}
    ensures World(qs[h := qs[h] + [e]])
    ensures Footprint(qs[h := qs[h] + [e]]) <= Footprint(qs) + {h, e}
  {
    OthersApart(qs, h, e);
    assert WellFormed(qs, h);
    TailQueue.InsertTail(h, e, qs[h]);
    forall g | g in qs && g != h
      ensures WellFormed(qs, g)
    {
      CellsInFootprint(qs, g);
      assert old(WellFormed(qs, g));
    }
    WorldUpdate(qs, h, qs[h] + [e], {e});
  }

  method DoInsertAfter(h: Link, l: Link, e: Link, ghost qs: Queues)
    requires World(qs) && h in qs && l in qs[h] && Unused(qs, e)
    modifies Footprint(qs) + {h, l, e}
    ensures World(Apply(qs, InsertAfter(h, l, e)))
    ensures Footprint(Apply(qs, InsertAfter(h, l, e))) <= Footprint(qs) + {h, l, e}
  {
    hide TailQueue.IsTailq, Footprint, InsertAt;
    ghost var i := IndexOf(qs[h], l);
    OthersApart(qs, h, e);
    CellsInsert(h, qs[h], i + 1, e);
    assert WellFormed(qs, h);
    TailQueue.InsertAfter(h, l, e, qs[h], i);
    forall g | g in qs && g != h
      ensures WellFormed(qs, g)
    {
      CellsInFootprint(qs, g);
      assert old(WellFormed(qs, g));
    }
    WorldUpdate(qs, h, InsertAt(qs[h], i + 1, e), {e});
  }

  method DoInsertBefore(l: Link, e: Link, ghost h: Link, ghost qs: Queues)
    requires World(qs) && h in qs && l in qs[h] && Unused(qs, e)
    modifies Footprint(qs) + {l, e}
    ensures World(qs[h := InsertAt(qs[h], IndexOf(qs[h], l), e)])
    ensures Footprint(qs[h := InsertAt(qs[h], IndexOf(qs[h], l), e)]) <= Footprint(qs) + {l, e}
  {
    hide TailQueue.IsTailq;
    ghost var i := IndexOf(qs[h], l);
    OthersApart(qs, h, e);
    CellsInsert(h, qs[h], i, e);
    assert WellFormed(qs, h);
    TailQueue.InsertBefore(l, e, h, qs[h], i);
    forall g | g in qs && g != h
      ensures WellFormed(qs, g)
    {
      CellsInFootprint(qs, g);
      assert old(WellFormed(qs, g));
    }
    WorldUpdate(qs, h, InsertAt(qs[h], i, e), {e});
  }

  method DoRemove(h: Link, e: Link, ghost qs: Queues)
    requires World(qs) && h in qs && e in qs[h]
    modifies Footprint(qs) + {h, e}
    ensures World(Apply(qs, Remove(h, e)))
    ensures Footprint(Apply(qs, Remove(h, e))) <= Footprint(qs) + {h, e}
  {
    ghost var i := IndexOf(qs[h], e);
    CellsInFootprint(qs, h);
    CellsRemove(h, qs[h], i);
    assert WellFormed(qs, h);
    TailQueue.Remove(h, e, qs[h], i);
    forall g | g in qs && g != h
      ensures WellFormed(qs, g)
    {
      CellsInFootprint(qs, g);
      assert old(WellFormed(qs, g));
    }
    WorldUpdate(qs, h, RemoveAt(qs[h], i), {});
  }

  method DoInit(h: Link, ghost qs: Queues)
    requires World(qs) && (h in qs || Unused(qs, h))
    modifies Footprint(qs) + {h}
    ensures World(qs[h := []])
    ensures Footprint(qs[h := []]) <= Footprint(qs) + {h}
  {
    forall g | g in qs && g != h
      ensures Cells(g, qs[g]) !! {h}
    {
      CellsInFootprint(qs, g);
      assert h in qs ==> h in Cells(h, qs[h]);
    }
    TailQueue.Init(h);
    forall g | g in qs && g != h
      ensures WellFormed(qs, g)
    {
      CellsInFootprint(qs, g);
      assert old(WellFormed(qs, g));
    }
    if h in qs {
      WorldUpdate(qs, h, [], {});
    } else {
      WorldUpdate(qs, h, [], {h});
    }
  }

  method DoConcat(h: Link, o: Link, ghost qs: Queues)
    requires World(qs) && h in qs && o in qs && h != o
    modifies Footprint(qs) + {h, o}
    ensures World(Apply(qs, Concat(h, o)))
    ensures Footprint(Apply(qs, Concat(h, o))) <= Footprint(qs)
  {
    CellsInFootprint(qs, h);
    CellsInFootprint(qs, o);
    assert WellFormed(qs, h) && WellFormed(qs, o);
    TailQueue.HeadsElementsIff(h, qs[h]);
    TailQueue.HeadsElementsIff(o, qs[o]);
    CellsShared(h, qs[h], o, qs[o]);
    TailQueue.Concat(h, o, qs[h], qs[o]);
    forall g | g in qs && g != h && g != o
      ensures WellFormed(qs, g)
    {
      CellsInFootprint(qs, g);
      assert old(WellFormed(qs, g));
    }
    WorldUpdateTwo(qs, h, qs[h] + qs[o], o, []);
  }

  method DoSwap(h: Link, o: Link, ghost qs: Queues)
    requires World(qs) && h in qs && o in qs
    modifies Footprint(qs) + {h, o}
    ensures World(Apply(qs, Swap(h, o)))
    ensures Footprint(Apply(qs, Swap(h, o))) <= Footprint(qs)
  {
    hide TailQueue.IsTailq;
    CellsInFootprint(qs, h);
    CellsInFootprint(qs, o);
    assert WellFormed(qs, h) && WellFormed(qs, o);
    TailQueue.HeadsElementsIff(h, qs[h]);
    TailQueue.HeadsElementsIff(o, qs[o]);
    TailQueue.Swap(h, o, qs[h], qs[o]);
    forall g | g in qs && g != h && g != o
      ensures WellFormed(qs, g)
    {
      CellsInFootprint(qs, g);
      assert old(WellFormed(qs, g));
    }
    if h == o {
      assert qs[h := qs[h]] == qs;
      WorldUpdate(qs, h, qs[h], {});
    } else {
      CellsShared(h, qs[h], o, qs[o]);
      WorldUpdateTwo(qs, h, qs[o], o, qs[h]);
    }
  }

  /** Inserting before an element changes only the queue that holds it. */
  lemma InsertBeforeMeans(qs: Queues, l: Link, e: Link, h: Link)
    requires Apart(qs) && Legal(qs, InsertBefore(l, e)) && h in qs && l in qs[h]
    ensures Apply(qs, InsertBefore(l, e)) == qs[h := InsertAt(qs[h], IndexOf(qs[h], l), e)]
  {
    forall g | g in qs && g != h
      ensures l !in qs[g]
    {
      if l in qs[g] {
        HolderUnique(qs, g, h, l);
      }
    }
  }

  /** The operation's macro. */
  method Execute(op: Op, ghost qs: Queues)
    requires World(qs) && Legal(qs, op)
    modifies Footprint(qs) + Named(op)
    ensures World(Apply(qs, op))
    ensures Footprint(Apply(qs, op)) <= Footprint(qs) + Named(op)
  {
    hide World;
    match op {
      case Init(h) => DoInit(h, qs);
      case InsertHead(h, e) => DoInsertHead(h, e, qs);
      case InsertTail(h, e) => DoInsertTail(h, e, qs);
      case InsertAfter(h, l, e) => DoInsertAfter(h, l, e, qs);
      case InsertBefore(l, e) =>
        ghost var h :| h in qs && l in qs[h];
        WorldApart(qs);
        InsertBeforeMeans(qs, l, e, h);
        DoInsertBefore(l, e, h, qs);
      case Remove(h, e) => DoRemove(h, e, qs);
      case Concat(h, o) => DoConcat(h, o, qs);
      case Swap(h, o) => DoSwap(h, o, qs);
    }
  }

  lemma WorldApart(qs: Queues)
    requires World(qs)
    ensures Apart(qs)
  {
  }

  /** An element is at one place only. */
  lemma {:induction false} PlaceOf(qs: Queues, h: Link, i: nat)
    requires World(qs) && h in qs && i < |qs[h]|
    ensures IndexOf(qs[h], qs[h][i]) == i
  {
    var j := IndexOf(qs[h], qs[h][i]);
    assert WellFormed(qs, h);
    ForwardIff(h, qs[h]);
  }

  lemma Places(qs: Queues)
    requires World(qs)
    ensures forall h, i | h in qs && 0 <= i < |qs[h]| :: IndexOf(qs[h], qs[h][i]) == i
  {
    hide World;
    forall h, i | h in qs && 0 <= i < |qs[h]|
      ensures IndexOf(qs[h], qs[h][i]) == i
    {
      PlaceOf(qs, h, i);
    }
  }

  lemma WorldAt(qs: Queues, h: Link)
    requires World(qs) && h in qs
    ensures TailQueue.IsTailq(h, qs[h])
  {
    assert WellFormed(qs, h);
  }

  /** One operation: what each queue it names holds afterwards; every other one is as it was. */
  method Perform(op: Op, ghost qs: Queues)
    requires World(qs) && Legal(qs, op)
    modifies Footprint(qs) + Named(op)
    ensures match op
            case Init(h) => TailQueue.IsTailq(h, [])
            case InsertHead(h, e) => TailQueue.IsTailq(h, [e] + qs[h])
            case InsertTail(h, e) => TailQueue.IsTailq(h, qs[h] + [e])
            case InsertAfter(h, l, e) =>
              forall i | 0 <= i < |qs[h]| && qs[h][i] == l ::
                TailQueue.IsTailq(h, qs[h][..i + 1] + [e] + qs[h][i + 1..])
            case InsertBefore(l, e) =>
              forall h, i | h in qs && 0 <= i < |qs[h]| && qs[h][i] == l ::
                TailQueue.IsTailq(h, qs[h][..i] + [e] + qs[h][i..])
            case Remove(h, e) =>
              forall i | 0 <= i < |qs[h]| && qs[h][i] == e ::
                TailQueue.IsTailq(h, qs[h][..i] + qs[h][i + 1..])
            case Concat(h, o) => TailQueue.IsTailq(h, qs[h] + qs[o]) && TailQueue.IsTailq(o, [])
            case Swap(h, o) => TailQueue.IsTailq(h, qs[o]) && TailQueue.IsTailq(o, qs[h])
    ensures forall g | g in qs && g !in Named(op) && !(op.InsertBefore? && op.listelm in qs[g]) ::
              TailQueue.IsTailq(g, qs[g])
    ensures Apply(qs, op).Keys == qs.Keys + if op.Init? then {op.head} else {}
    ensures World(Apply(qs, op))
    ensures Footprint(Apply(qs, op)) <= Footprint(qs) + Named(op)
  {
    hide World, TailQueue.IsTailq, Footprint, Apart;
    Places(qs);
    Execute(op, qs);
    forall g | g in qs && g !in Named(op) && !(op.InsertBefore? && op.listelm in qs[g])
      ensures TailQueue.IsTailq(g, qs[g])
    {
      WorldAt(Apply(qs, op), g);
    }
    match op {
      case InsertBefore(l, e) =>
        forall h, i | h in qs && 0 <= i < |qs[h]| && qs[h][i] == l
          ensures TailQueue.IsTailq(h, qs[h][..i] + [e] + qs[h][i..])
        {
          WorldAt(Apply(qs, op), h);
        }
      case Concat(h, o) =>
        WorldAt(Apply(qs, op), h);
        WorldAt(Apply(qs, op), o);
      case Swap(h, o) =>
        WorldAt(Apply(qs, op), h);
        WorldAt(Apply(qs, op), o);
      case _ =>
        WorldAt(Apply(qs, op), op.head);
    }
  }

  /** Any run of legal operations on any number of queues. */
  method Run(ops: seq<Op>, ghost qs: Queues, ghost arena: set<Link>)
    requires World(qs) && LegalRun(qs, ops)
    requires Footprint(qs) <= arena && forall i | 0 <= i < |ops| :: Named(ops[i]) <= arena
    modifies arena
    ensures World(ApplyAll(qs, ops))
  {
    hide World, Footprint, Named;
    ghost var now := qs;
    assert ops[0..] == ops;
    for k := 0 to |ops|
      invariant World(now) && Footprint(now) <= arena
      invariant LegalRun(now, ops[k..]) && ApplyAll(now, ops[k..]) == ApplyAll(qs, ops)
    {
      assert ops[k..][0] == ops[k] && ops[k..][1..] == ops[k + 1..];
      Perform(ops[k], now);
      now := Apply(now, ops[k]);
    }
  }

  // ----- laws of the operations ------------------------------------------------------------

  /** Runs compose: every operation is applied once and in its turn. */
  lemma {:induction false} RunsCompose(qs: Queues, a: seq<Op>, b: seq<Op>)
    ensures LegalRun(qs, a + b) <==> LegalRun(qs, a) && LegalRun(ApplyAll(qs, a), b)
    ensures LegalRun(qs, a + b) ==> ApplyAll(qs, a + b) == ApplyAll(ApplyAll(qs, a), b)
    decreases |a|
  {
    hide Apply, Legal;
    if a == [] {
      assert a + b == b;
    } else {
      assert (a + b)[1..] == a[1..] + b;
      if Legal(qs, a[0]) {
        RunsCompose(Apply(qs, a[0]), a[1..], b);
      }
    }
  }

  lemma {:induction false} RunOfOne(qs: Queues, op: Op)
    ensures LegalRun(qs, [op]) <==> Legal(qs, op)
    ensures Legal(qs, op) ==> ApplyAll(qs, [op]) == Apply(qs, op)
  {
    assert [op][1..] == [];
  }

  lemma {:induction false} IndexOfInserted(q: seq<Link>, i: nat, e: Link)
    requires i <= |q| && e !in q
    ensures e in InsertAt(q, i, e) && IndexOf(InsertAt(q, i, e), e) == i
  {
    var r := InsertAt(q, i, e);
    assert r[i] == e;
    var j := IndexOf(r, e);
    assert j == i;
  }

  ghost predicate Inserts(op: Op, qs: Queues, h: Link)
    requires h in qs
  {
    match op
    case InsertHead(g, _) => g == h
    case InsertTail(g, _) => g == h
    case InsertAfter(g, _, _) => g == h
    case InsertBefore(l, _) => l in qs[h]
    case _ => false
  }

  ghost function InsertPosition(op: Op, q: seq<Link>): (i: nat)
    requires op.InsertAfter? || op.InsertBefore? ==> op.listelm in q
    ensures i <= |q|
  {
    match op
    case InsertTail(_, _) => |q|
    case InsertAfter(_, l, _) => IndexOf(q, l) + 1
    case InsertBefore(l, _) => IndexOf(q, l)
    case _ => 0
  }

  lemma {:induction false} InsertMeans(qs: Queues, op: Op, h: Link)
    requires Apart(qs) && Legal(qs, op) && h in qs && Inserts(op, qs, h)
    ensures Apply(qs, op) == qs[h := InsertAt(qs[h], InsertPosition(op, qs[h]), op.elm)]
  {
    var q := qs[h];
    match op {
      case InsertHead(_, e) => assert InsertAt(q, 0, e) == [e] + q;
      case InsertTail(_, e) => assert InsertAt(q, |q|, e) == q + [e];
      case InsertAfter(_, _, _) =>
      case InsertBefore(l, e) => InsertBeforeMeans(qs, l, e, h);
    }
  }

  /** Removing an element just inserted, wherever it was put, undoes the insertion. */
  lemma {:induction false} RemoveUndoesInsert(qs: Queues, op: Op, h: Link)
    requires Apart(qs) && Legal(qs, op) && h in qs && Inserts(op, qs, h)
    ensures Legal(Apply(qs, op), Remove(h, op.elm)) && Apply(Apply(qs, op), Remove(h, op.elm)) == qs
  {
    hide Footprint, Apply, InsertAt, InsertPosition;
    CellsInFootprint(qs, h);
    UnusedElement(qs, op, h);
    InsertMeans(qs, op, h);
    RemoveInserted(qs, h, InsertPosition(op, qs[h]), op.elm);
  }

  lemma UnusedElement(qs: Queues, op: Op, h: Link)
    requires Legal(qs, op) && h in qs && Inserts(op, qs, h)
    ensures op.elm !in qs[h]
  {
    CellsInFootprint(qs, h);
  }

  lemma {:induction false} RemoveInserted(qs: Queues, h: Link, i: nat, e: Link)
    requires h in qs && i <= |qs[h]| && e !in qs[h]
    ensures var qs' := qs[h := InsertAt(qs[h], i, e)];
            Legal(qs', Remove(h, e)) && Apply(qs', Remove(h, e)) == qs
  {
    IndexOfInserted(qs[h], i, e);
    assert RemoveAt(InsertAt(qs[h], i, e), i) == qs[h];
  }

  /** The heap alone determines what every queue holds. */
  lemma {:induction false} WorldUnique(a: Queues, b: Queues)
    requires World(a) && World(b) && a.Keys == b.Keys
    ensures a == b
  {
    forall h | h in a
      ensures a[h] == b[h]
    {
      assert WellFormed(a, h) && WellFormed(b, h);
      ForwardUnique(h, a[h], b[h]);
    }
  }
}
