/**
 Any number of threads running threadfunc at once, interleaved at every recv, lock, fseek, fwrite,
 fread and unlock. They share one stdio file, whose position and end-of-file flag belong to no
 thread; only the mutex keeps those steps apart.
 */
module ThreadProtocol {
  import opened Bytes
  import opened ClientThread

  type Tid = nat

  /**
   Where a thread is: receiving; packet complete and waiting for the mutex; holding it before the
   seek to the end, before the write, before the rewind, and in the echo loop; returned after its
   reply; returned because the peer closed.
   */
  datatype Phase = Receiving | Waiting | Locked | AtEnd | Written | Echoing | Answered | Closed

  /**
   `buffer` holds the first totalLen bytes, `size` is currentMaxSize, `reply` what was sent. The
   other fields record history: all bytes received, and the thread's index in the log of appends.
   */
  datatype Thread = Thread(phase: Phase, buffer: seq<Byte>, size: nat, reply: seq<Byte>,
                           received: seq<Byte>, slot: nat)

  datatype SharedFile = SharedFile(contents: seq<Byte>, pos: nat, eof: bool)

  /** `acquired` records who took the mutex, `log` the packets written, both in order. */
  datatype State = State(threads: map<Tid, Thread>, owner: Option<Tid>, file: SharedFile,
                         acquired: seq<Tid>, log: seq<seq<Byte>>)

  datatype Step =
    | Spawn(t: Tid)
    | Receive(t: Tid, bytes: seq<Byte>)
    | CloseUnread(t: Tid, inFront: Byte)
    | Lock(t: Tid)
    | SeekEnd(t: Tid)
    | Write(t: Tid)
    | Rewind(t: Tid)
    | ReadAndSend(t: Tid)
    | Unlock(t: Tid)

  predicate In(s: State, t: Tid, phase: Phase) {
    t in s.threads && s.threads[t].phase == phase
  }

  /**
   A recv of nothing on an empty buffer is a step of its own: the code then tests the byte in front
   of the buffer, and a newline there makes it deliver an empty packet.
   */
  predicate Enabled(s: State, step: Step) {
    match step
    case Spawn(t) => t !in s.threads
    case Receive(t, bytes) =>
      In(s, t, Receiving) && |bytes| <= INIT_BUFFER_SIZE && s.threads[t].buffer + bytes != []
    case CloseUnread(t, _) => In(s, t, Receiving) && s.threads[t].buffer == []
    case Lock(t) => In(s, t, Waiting) && s.owner == None
    case SeekEnd(t) => In(s, t, Locked)
    case Write(t) => In(s, t, AtEnd) && s.file.pos <= |s.file.contents|
    case Rewind(t) => In(s, t, Written)
    case ReadAndSend(t) => In(s, t, Echoing) && !s.file.eof && s.file.pos <= |s.file.contents|
    case Unlock(t) => In(s, t, Echoing) && s.file.eof
  }

  function Overwrite(contents: seq<Byte>, pos: nat, data: seq<Byte>): seq<Byte>
    requires pos <= |contents|
  {
    contents[..pos] + data + if pos + |data| <= |contents| then contents[pos + |data|..] else []
  }

  /** One recv: the newline test, the close test and the single doubling that follows them. */
  function AfterReceive(th: Thread, bytes: seq<Byte>): Thread {
    var buffer := th.buffer + bytes;
    var size := if |buffer| + INIT_BUFFER_SIZE > th.size then 2 * th.size else th.size;
    var next := th.(buffer := buffer, received := th.received + bytes);
    if EndsInNewline(buffer) then next.(phase := Waiting)
    else if bytes == [] then next.(phase := Closed, size := size)
    else next.(size := size)
  }

  function Do(s: State, step: Step): State
    requires Enabled(s, step)
  {
    var t := step.t;
    match step
    case Spawn(_) => s.(threads := s.threads[t := Thread(Receiving, [], INIT_BUFFER_SIZE, [], [], 0)])
    case Receive(_, bytes) => s.(threads := s.threads[t := AfterReceive(s.threads[t], bytes)])
    case CloseUnread(_, inFront) =>
      s.(threads := s.threads[t := s.threads[t].(phase := if inFront == NEWLINE then Waiting else Closed)])
    case Lock(_) =>
      s.(threads := s.threads[t := s.threads[t].(phase := Locked)], owner := Some(t), acquired := s.acquired + [t])
    case SeekEnd(_) =>
      s.(threads := s.threads[t := s.threads[t].(phase := AtEnd)],
         file := SharedFile(s.file.contents, |s.file.contents|, false))
    case Write(_) =>
      var packet := s.threads[t].buffer;
      s.(threads := s.threads[t := s.threads[t].(phase := Written, slot := |s.log|)],
         file := s.file.(contents := Overwrite(s.file.contents, s.file.pos, packet), pos := s.file.pos + |packet|),
         log := s.log + [packet])
    case Rewind(_) =>
      s.(threads := s.threads[t := s.threads[t].(phase := Echoing, buffer := [])],
         file := SharedFile(s.file.contents, 0, false))
    case ReadAndSend(_) =>
      var left := |s.file.contents| - s.file.pos;
      var n := if left < s.threads[t].size then left else s.threads[t].size;
      var data := s.file.contents[s.file.pos..s.file.pos + n];
      s.(threads := s.threads[t := s.threads[t].(reply := s.threads[t].reply + data)],
         file := SharedFile(s.file.contents, s.file.pos + n, n < s.threads[t].size))
    case Unlock(_) =>
      s.(threads := s.threads[t := s.threads[t].(phase := Answered)], owner := None)
  }

  /** No threads yet; the file has some contents from earlier runs. */
  function Start(initial: seq<Byte>): State {
    State(map[], None, SharedFile(initial, 0, false), [], [])
  }

  predicate EnabledRun(s: State, steps: seq<Step>)
    decreases |steps|
  {
    steps == [] || (Enabled(s, steps[0]) && EnabledRun(Do(s, steps[0]), steps[1..]))
  }

  function After(s: State, steps: seq<Step>): State
    requires EnabledRun(s, steps)
    decreases |steps|
  {
    if steps == [] then s else After(Do(s, steps[0]), steps[1..])
  }

  /** Runs compose: none of their steps is skipped or taken twice. */
  lemma {:induction false} RunConcat(s: State, a: seq<Step>, b: seq<Step>)
    ensures EnabledRun(s, a + b) <==> EnabledRun(s, a) && EnabledRun(After(s, a), b)
    ensures EnabledRun(s, a + b) ==> After(s, a + b) == After(After(s, a), b)
    decreases |a|
  {
    hide Do, Enabled;
    if a == [] {
      assert a + b == b;
    } else {
      assert (a + b)[1..] == a[1..] + b;
      if Enabled(s, a[0]) {
        RunConcat(Do(s, a[0]), a[1..], b);
      }
    }
  }

  lemma {:induction false} RunSnoc(s: State, steps: seq<Step>, x: Step)
    ensures EnabledRun(s, steps + [x]) <==> EnabledRun(s, steps) && Enabled(After(s, steps), x)
    ensures EnabledRun(s, steps + [x]) ==> After(s, steps + [x]) == Do(After(s, steps), x)
  {
    hide Do, Enabled;
    RunConcat(s, steps, [x]);
    if EnabledRun(s, steps) {
      RunOne(After(s, steps), x);
    }
  }

  lemma {:induction false} RunOne(s: State, x: Step)
    ensures EnabledRun(s, [x]) <==> Enabled(s, x)
    ensures Enabled(s, x) ==> After(s, [x]) == Do(s, x)
  {
    assert [x][1..] == [];
  }

  // ----- what the list of steps says by itself ---------------------------------------------

  /** The bytes thread t's recv calls delivered, in order. */
  function ReceivedIn(steps: seq<Step>, t: Tid): seq<Byte> {
    if steps == [] then []
    else
      var last := steps[|steps| - 1];
      ReceivedIn(steps[..|steps| - 1], t) + if last.Receive? && last.t == t then last.bytes else []
  }

  /** The threads that took the mutex, in order. */
  function LockOrder(steps: seq<Step>): seq<Tid> {
    if steps == [] then []
    else
      var last := steps[|steps| - 1];
      LockOrder(steps[..|steps| - 1]) + if last.Lock? then [last.t] else []
  }

  /** For each lock of the mutex, in order, everything its thread received. */
  function Packets(steps: seq<Step>): (packets: seq<seq<Byte>>)
    ensures |packets| == |LockOrder(steps)|
    ensures forall i | 0 <= i < |packets| :: packets[i] == ReceivedIn(steps, LockOrder(steps)[i])
  {
    seq(|LockOrder(steps)|, i requires 0 <= i < |LockOrder(steps)| => ReceivedIn(steps, LockOrder(steps)[i]))
  }

  /** How often thread t read from the file and sent what it read. */
  function SendsIn(steps: seq<Step>, t: Tid): nat {
    if steps == [] then 0
    else SendsIn(steps[..|steps| - 1], t) + if steps[|steps| - 1] == ReadAndSend(t) then 1 else 0
  }

  /** The peer closed: an empty recv, with no newline to be seen in front of an empty buffer. */
  predicate Closes(step: Step, t: Tid) {
    step == Receive(t, []) || (step.CloseUnread? && step.t == t && step.inFront != NEWLINE)
  }

  ghost predicate ClosesIn(steps: seq<Step>, t: Tid) {
    exists step | step in steps :: Closes(step, t)
  }

  /** The newline test succeeded. */
  predicate CompletesIn(steps: seq<Step>, t: Tid) {
    EndsInNewline(ReceivedIn(steps, t)) || CloseUnread(t, NEWLINE) in steps
  }

  lemma {:induction false} StepsSnoc(steps: seq<Step>, x: Step, t: Tid)
    ensures ReceivedIn(steps + [x], t) == ReceivedIn(steps, t) + if x.Receive? && x.t == t then x.bytes else []
    ensures LockOrder(steps + [x]) == LockOrder(steps) + if x.Lock? then [x.t] else []
    ensures SendsIn(steps + [x], t) == SendsIn(steps, t) + if x == ReadAndSend(t) then 1 else 0
    ensures ClosesIn(steps + [x], t) <==> ClosesIn(steps, t) || Closes(x, t)
    ensures forall y :: y in steps + [x] <==> y in steps || y == x
  {
    assert (steps + [x])[..|steps|] == steps;
    assert forall y :: y in steps + [x] <==> y in steps || y == x;
  }

  // ----- the invariant ---------------------------------------------------------------------

  /** The file once the first k packets were appended. */
  function FileAfter(initial: seq<Byte>, log: seq<seq<Byte>>, k: nat): seq<Byte>
    requires k <= |log|
  {
    initial + Flatten(log[..k])
  }

  predicate Critical(p: Phase) {
    p == Locked || p == AtEnd || p == Written || p == Echoing
  }

  predicate HasWritten(p: Phase) {
    p == Written || p == Echoing || p == Answered
  }

  /** A multiple of the initial size reached by doubling. */
  predicate Doubled(size: nat) {
    size == INIT_BUFFER_SIZE || (size > INIT_BUFFER_SIZE && size % 2 == 0 && Doubled(size / 2))
  }

  /** The buffer was doubled only as often as the received bytes and the next recv made necessary. */
  predicate LeastDoubling(size: nat, n: nat) {
    Doubled(size) && (size == INIT_BUFFER_SIZE || size / 2 < n + INIT_BUFFER_SIZE)
  }

  lemma {:induction false} DoubledOnce(size: nat)
    requires Doubled(size)
    ensures Doubled(2 * size)
  {
    assert 2 * size / 2 == size;
  }

  /** What holds of a thread by itself. */
  predicate LocalOk(th: Thread) {
    && th.size > 0 && LeastDoubling(th.size, |th.received|)
    && (th.phase != Echoing && th.phase != Answered ==> th.buffer == th.received && |th.buffer| <= th.size)
    && (th.phase == Receiving ==> |th.buffer| + INIT_BUFFER_SIZE <= th.size && !EndsInNewline(th.buffer))
    && (th.phase == Closed ==> !EndsInNewline(th.received))
    && (th.phase != Receiving && th.phase != Closed ==> th.received == [] || EndsInNewline(th.received))
    && (if th.phase == Echoing || th.phase == Answered then th.buffer == [] else th.reply == [])
  }

  /** How a thread relates to the shared log: its packet is there once written, at its own index. */
  ghost predicate LogOk(initial: seq<Byte>, t: Tid, th: Thread, acquired: seq<Tid>, log: seq<seq<Byte>>)
    requires |log| <= |acquired|
  {
    && (HasWritten(th.phase) ==> th.slot < |log| && acquired[th.slot] == t && log[th.slot] == th.received)
    && (th.phase == Receiving || th.phase == Waiting || th.phase == Closed ==> t !in acquired)
    && (th.phase == Answered ==> th.reply == FileAfter(initial, log, th.slot + 1))
  }

  /** What the holder of the mutex knows about the shared stream. */
  ghost predicate HolderOk(t: Tid, th: Thread, file: SharedFile, acquired: seq<Tid>, log: seq<seq<Byte>>) {
    && Critical(th.phase)
    && acquired != [] && acquired[|acquired| - 1] == t
    && |acquired| == |log| + (if HasWritten(th.phase) then 0 else 1)
    && (HasWritten(th.phase) ==> th.slot == |log| - 1)
    && (th.phase == AtEnd ==> file.pos == |file.contents|)
    && (th.phase == Echoing ==>
          && file.pos <= |file.contents| && th.reply == file.contents[..file.pos]
          && (file.eof ==> file.pos == |file.contents|))
  }

  ghost predicate NoRepeats(acquired: seq<Tid>) {
    forall i, j | 0 <= i < j < |acquired| :: acquired[i] != acquired[j]
  }

  ghost predicate Inv(initial: seq<Byte>, s: State) {
    && |s.log| <= |s.acquired|
    && s.file.contents == FileAfter(initial, s.log, |s.log|)
    && NoRepeats(s.acquired)
    && (forall t | t in s.threads :: LocalOk(s.threads[t]) && LogOk(initial, t, s.threads[t], s.acquired, s.log))
    && (forall t | t in s.threads && s.owner != Some(t) :: !Critical(s.threads[t].phase))
    && (forall i | 0 <= i < |s.acquired| :: s.acquired[i] in s.threads)
    && match s.owner
       case None => |s.acquired| == |s.log|
       case Some(t) => t in s.threads && HolderOk(t, s.threads[t], s.file, s.acquired, s.log)
  }

  // ----- every step keeps it ---------------------------------------------------------------

  /** Later mutex acquisitions and packets do not disturb what a thread has in the log. */
  lemma LogOkExtends(initial: seq<Byte>, t: Tid, th: Thread, acquired: seq<Tid>, log: seq<seq<Byte>>,
                     moreTids: seq<Tid>, morePackets: seq<seq<Byte>>)
    requires |log| <= |acquired| && |log + morePackets| <= |acquired + moreTids|
    requires LogOk(initial, t, th, acquired, log) && t !in moreTids
    ensures LogOk(initial, t, th, acquired + moreTids, log + morePackets)
  {
    if HasWritten(th.phase) {
      assert (log + morePackets)[..th.slot + 1] == log[..th.slot + 1];
    }
  }

  lemma OverwriteAtEnd(contents: seq<Byte>, data: seq<Byte>)
    ensures Overwrite(contents, |contents|, data) == contents + data
  {
  }

  lemma {:induction false} FileAfterWrite(initial: seq<Byte>, log: seq<seq<Byte>>, packet: seq<Byte>)
    ensures FileAfter(initial, log + [packet], |log| + 1) == FileAfter(initial, log, |log|) + packet
  {
    assert (log + [packet])[..|log| + 1] == log + [packet] && log[..|log|] == log;
    FlattenSnoc(log, packet);
    assert initial + (Flatten(log) + packet) == initial + Flatten(log) + packet;
  }

  // What a step means for the thread that takes it.

  lemma OwnReceive(initial: seq<Byte>, t: Tid, th: Thread, bytes: seq<Byte>, acquired: seq<Tid>, log: seq<seq<Byte>>)
    requires |log| <= |acquired| && LocalOk(th) && LogOk(initial, t, th, acquired, log)
    requires th.phase == Receiving && |bytes| <= INIT_BUFFER_SIZE && th.buffer + bytes != []
    ensures var next := AfterReceive(th, bytes);
            LocalOk(next) && LogOk(initial, t, next, acquired, log) && !Critical(next.phase)
  {
    assert th.buffer + [] == th.buffer && th.received + bytes == th.buffer + bytes;
    DoubledOnce(th.size);
  }

  lemma OwnLock(initial: seq<Byte>, t: Tid, th: Thread, file: SharedFile, acquired: seq<Tid>, log: seq<seq<Byte>>)
    requires |log| == |acquired| && LocalOk(th) && LogOk(initial, t, th, acquired, log) && th.phase == Waiting
    ensures var next := th.(phase := Locked);
            && LocalOk(next) && LogOk(initial, t, next, acquired + [t], log)
            && HolderOk(t, next, file, acquired + [t], log)
  {
  }

  lemma OwnSeekEnd(initial: seq<Byte>, t: Tid, th: Thread, file: SharedFile, acquired: seq<Tid>, log: seq<seq<Byte>>)
    requires |log| <= |acquired| && LocalOk(th) && LogOk(initial, t, th, acquired, log)
    requires HolderOk(t, th, file, acquired, log) && th.phase == Locked
    ensures var next := th.(phase := AtEnd);
            && LocalOk(next) && LogOk(initial, t, next, acquired, log)
            && HolderOk(t, next, SharedFile(file.contents, |file.contents|, false), acquired, log)
  {
  }

  lemma OwnWrite(initial: seq<Byte>, t: Tid, th: Thread, file: SharedFile, file': SharedFile,
                 acquired: seq<Tid>, log: seq<seq<Byte>>)
    requires |log| <= |acquired| && LocalOk(th) && LogOk(initial, t, th, acquired, log)
    requires HolderOk(t, th, file, acquired, log) && th.phase == AtEnd
    ensures var next := th.(phase := Written, slot := |log|);
            && |log + [th.buffer]| <= |acquired|
            && LocalOk(next) && LogOk(initial, t, next, acquired, log + [th.buffer])
            && HolderOk(t, next, file', acquired, log + [th.buffer])
  {
  }

  lemma OwnRewind(initial: seq<Byte>, t: Tid, th: Thread, file: SharedFile, acquired: seq<Tid>, log: seq<seq<Byte>>)
    requires |log| <= |acquired| && LocalOk(th) && LogOk(initial, t, th, acquired, log)
    requires HolderOk(t, th, file, acquired, log) && th.phase == Written
    ensures var next := th.(phase := Echoing, buffer := []);
            && LocalOk(next) && LogOk(initial, t, next, acquired, log)
            && HolderOk(t, next, SharedFile(file.contents, 0, false), acquired, log)
  {
  }

  lemma OwnReadAndSend(initial: seq<Byte>, t: Tid, th: Thread, file: SharedFile, n: nat,
                       acquired: seq<Tid>, log: seq<seq<Byte>>)
    requires |log| <= |acquired| && LocalOk(th) && LogOk(initial, t, th, acquired, log)
    requires HolderOk(t, th, file, acquired, log) && th.phase == Echoing
    requires file.pos + n <= |file.contents| && (n < th.size ==> file.pos + n == |file.contents|)
    ensures var next := th.(reply := th.reply + file.contents[file.pos..file.pos + n]);
            && LocalOk(next) && LogOk(initial, t, next, acquired, log)
            && HolderOk(t, next, SharedFile(file.contents, file.pos + n, n < th.size), acquired, log)
  {
    assert file.contents[..file.pos + n] == file.contents[..file.pos] + file.contents[file.pos..file.pos + n];
  }

  lemma OwnUnlock(initial: seq<Byte>, t: Tid, th: Thread, file: SharedFile, acquired: seq<Tid>, log: seq<seq<Byte>>)
    requires |log| <= |acquired| && LocalOk(th) && LogOk(initial, t, th, acquired, log)
    requires HolderOk(t, th, file, acquired, log) && th.phase == Echoing && file.eof
    requires file.contents == FileAfter(initial, log, |log|)
    ensures |acquired| == |log|
    ensures var next := th.(phase := Answered); LocalOk(next) && LogOk(initial, t, next, acquired, log)
  {
    assert file.contents[..file.pos] == file.contents;
  }

  lemma OthersExtend(initial: seq<Byte>, s: State, t: Tid, moreTids: seq<Tid>, morePackets: seq<seq<Byte>>)
    requires Inv(initial, s) && |s.log + morePackets| <= |s.acquired + moreTids|
    requires forall u | u in moreTids :: u == t
    ensures forall u | u in s.threads && u != t ::
              LogOk(initial, u, s.threads[u], s.acquired + moreTids, s.log + morePackets)
  {
    hide FileAfter, LogOk, LocalOk, HolderOk;
    forall u | u in s.threads && u != t
      ensures LogOk(initial, u, s.threads[u], s.acquired + moreTids, s.log + morePackets)
    {
      LogOkExtends(initial, u, s.threads[u], s.acquired, s.log, moreTids, morePackets);
    }
  }

  /** Only the holder is critical. */
  lemma CriticalIsOwner(initial: seq<Byte>, s: State, t: Tid)
    requires Inv(initial, s) && t in s.threads
    ensures Critical(s.threads[t].phase) <==> s.owner == Some(t)
  {
  }

  lemma {:induction false} ReceiveKeepsInv(initial: seq<Byte>, s: State, t: Tid, bytes: seq<Byte>)
    requires Inv(initial, s) && Enabled(s, Receive(t, bytes))
    ensures Inv(initial, Do(s, Receive(t, bytes)))
  {
    hide FileAfter, LogOk, LocalOk, HolderOk, NoRepeats, AfterReceive;
    CriticalIsOwner(initial, s, t);
    OwnReceive(initial, t, s.threads[t], bytes, s.acquired, s.log);
  }

  lemma OwnCloseUnread(initial: seq<Byte>, t: Tid, th: Thread, phase: Phase, acquired: seq<Tid>, log: seq<seq<Byte>>)
    requires |log| <= |acquired| && LocalOk(th) && LogOk(initial, t, th, acquired, log)
    requires th.phase == Receiving && th.buffer == [] && (phase == Waiting || phase == Closed)
    ensures LocalOk(th.(phase := phase)) && LogOk(initial, t, th.(phase := phase), acquired, log)
  {
  }

  lemma {:induction false} CloseUnreadKeepsInv(initial: seq<Byte>, s: State, t: Tid, inFront: Byte)
    requires Inv(initial, s) && Enabled(s, CloseUnread(t, inFront))
    ensures Inv(initial, Do(s, CloseUnread(t, inFront)))
  {
    hide FileAfter, LogOk, LocalOk, HolderOk, NoRepeats;
    CriticalIsOwner(initial, s, t);
    OwnCloseUnread(initial, t, s.threads[t], if inFront == NEWLINE then Waiting else Closed, s.acquired, s.log);
  }

  lemma OwnSpawn(initial: seq<Byte>, t: Tid, acquired: seq<Tid>, log: seq<seq<Byte>>)
    requires |log| <= |acquired| && t !in acquired
    ensures var th := Thread(Receiving, [], INIT_BUFFER_SIZE, [], [], 0);
            LocalOk(th) && LogOk(initial, t, th, acquired, log)
  {
  }

  lemma {:induction false} SpawnKeepsInv(initial: seq<Byte>, s: State, t: Tid)
    requires Inv(initial, s) && Enabled(s, Spawn(t))
    ensures Inv(initial, Do(s, Spawn(t)))
  {
    hide FileAfter, LogOk, LocalOk, HolderOk, NoRepeats;
    OwnSpawn(initial, t, s.acquired, s.log);
  }

  lemma NoRepeatsSnoc(acquired: seq<Tid>, t: Tid)
    requires NoRepeats(acquired) && t !in acquired
    ensures NoRepeats(acquired + [t])
  {
  }

  lemma NotYetAcquired(initial: seq<Byte>, t: Tid, th: Thread, acquired: seq<Tid>, log: seq<seq<Byte>>)
    requires |log| <= |acquired| && LogOk(initial, t, th, acquired, log) && th.phase == Waiting
    ensures t !in acquired
  {
  }

  lemma {:induction false} LockKeepsInv(initial: seq<Byte>, s: State, t: Tid)
    requires Inv(initial, s) && Enabled(s, Lock(t))
    ensures Inv(initial, Do(s, Lock(t)))
  {
    hide FileAfter, LogOk, LocalOk, HolderOk, NoRepeats;
    NotYetAcquired(initial, t, s.threads[t], s.acquired, s.log);
    NoRepeatsSnoc(s.acquired, t);
    OwnLock(initial, t, s.threads[t], s.file, s.acquired, s.log);
    OthersExtend(initial, s, t, [t], []);
    assert s.log + [] == s.log;
  }

  lemma {:induction false} SeekEndKeepsInv(initial: seq<Byte>, s: State, t: Tid)
    requires Inv(initial, s) && Enabled(s, SeekEnd(t))
    ensures Inv(initial, Do(s, SeekEnd(t)))
  {
    hide FileAfter, LogOk, LocalOk, HolderOk, NoRepeats;
    CriticalIsOwner(initial, s, t);
    OwnSeekEnd(initial, t, s.threads[t], s.file, s.acquired, s.log);
  }

  lemma {:induction false} WriteKeepsInv(initial: seq<Byte>, s: State, t: Tid)
    requires Inv(initial, s) && Enabled(s, Write(t))
    ensures Inv(initial, Do(s, Write(t)))
  {
    hide FileAfter, LogOk, LocalOk, HolderOk, NoRepeats, Overwrite;
    var packet, s' := s.threads[t].buffer, Do(s, Write(t));
    CriticalIsOwner(initial, s, t);
    AtEndOfFile(t, s.threads[t], s.file, s.acquired, s.log);
    OverwriteAtEnd(s.file.contents, packet);
    FileAfterWrite(initial, s.log, packet);
    OwnWrite(initial, t, s.threads[t], s.file, s'.file, s.acquired, s.log);
    OthersExtend(initial, s, t, [], [packet]);
    assert s.acquired + [] == s.acquired;
  }

  lemma AtEndOfFile(t: Tid, th: Thread, file: SharedFile, acquired: seq<Tid>, log: seq<seq<Byte>>)
    requires HolderOk(t, th, file, acquired, log) && th.phase == AtEnd
    ensures file.pos == |file.contents|
  {
  }

  lemma {:induction false} RewindKeepsInv(initial: seq<Byte>, s: State, t: Tid)
    requires Inv(initial, s) && Enabled(s, Rewind(t))
    ensures Inv(initial, Do(s, Rewind(t)))
  {
    hide FileAfter, LogOk, LocalOk, HolderOk, NoRepeats;
    CriticalIsOwner(initial, s, t);
    OwnRewind(initial, t, s.threads[t], s.file, s.acquired, s.log);
  }

  lemma {:induction false} ReadAndSendKeepsInv(initial: seq<Byte>, s: State, t: Tid)
    requires Inv(initial, s) && Enabled(s, ReadAndSend(t))
    ensures Inv(initial, Do(s, ReadAndSend(t)))
  {
    hide FileAfter, LogOk, LocalOk, HolderOk, NoRepeats;
    CriticalIsOwner(initial, s, t);
    var n := Do(s, ReadAndSend(t)).file.pos - s.file.pos;
    OwnReadAndSend(initial, t, s.threads[t], s.file, n, s.acquired, s.log);
  }

  lemma {:induction false} UnlockKeepsInv(initial: seq<Byte>, s: State, t: Tid)
    requires Inv(initial, s) && Enabled(s, Unlock(t))
    ensures Inv(initial, Do(s, Unlock(t)))
  {
    hide FileAfter, LogOk, LocalOk, HolderOk, NoRepeats;
    CriticalIsOwner(initial, s, t);
    OwnUnlock(initial, t, s.threads[t], s.file, s.acquired, s.log);
  }

  lemma {:induction false} StepKeepsInv(initial: seq<Byte>, s: State, step: Step)
    requires Inv(initial, s) && Enabled(s, step)
    ensures Inv(initial, Do(s, step))
  {
    match step {
      case Spawn(t) => SpawnKeepsInv(initial, s, t);
      case Receive(t, bytes) => ReceiveKeepsInv(initial, s, t, bytes);
      case CloseUnread(t, inFront) => CloseUnreadKeepsInv(initial, s, t, inFront);
      case Lock(t) => LockKeepsInv(initial, s, t);
      case SeekEnd(t) => SeekEndKeepsInv(initial, s, t);
      case Write(t) => WriteKeepsInv(initial, s, t);
      case Rewind(t) => RewindKeepsInv(initial, s, t);
      case ReadAndSend(t) => ReadAndSendKeepsInv(initial, s, t);
      case Unlock(t) => UnlockKeepsInv(initial, s, t);
    }
  }

  lemma {:induction false} RunKeepsInv(initial: seq<Byte>, s: State, steps: seq<Step>)
    requires Inv(initial, s) && EnabledRun(s, steps)
    ensures Inv(initial, After(s, steps))
    decreases |steps|
  {
    if steps != [] {
      StepKeepsInv(initial, s, steps[0]);
      RunKeepsInv(initial, Do(s, steps[0]), steps[1..]);
    }
  }

  lemma {:induction false} ReachableInv(initial: seq<Byte>, steps: seq<Step>)
    requires EnabledRun(Start(initial), steps)
    ensures Inv(initial, After(Start(initial), steps))
  {
    assert initial + [] == initial;
    RunKeepsInv(initial, Start(initial), steps);
  }

  // ----- the state as the steps determine it -----------------------------------------------

  /** The bytes thread t has received in state s, none before it is spawned. */
  function ReceivedBy(s: State, t: Tid): seq<Byte> {
    if t in s.threads then s.threads[t].received else []
  }

  lemma StepHistory(s: State, x: Step, t: Tid)
    requires Enabled(s, x)
    ensures var s' := Do(s, x);
            && s'.acquired == s.acquired + (if x.Lock? then [x.t] else [])
            && (t in s'.threads <==> t in s.threads || x == Spawn(t))
            && ReceivedBy(s', t) == ReceivedBy(s, t) + if x.Receive? && x.t == t then x.bytes else []
  {
  }

  /** The threads, what each received and who took the mutex, in any enabled run from any state. */
  lemma {:induction false} HistoryOfRun(s: State, steps: seq<Step>, t: Tid)
    requires EnabledRun(s, steps)
    ensures var now := After(s, steps);
            && (t in now.threads <==> t in s.threads || Spawn(t) in steps)
            && ReceivedBy(now, t) == ReceivedBy(s, t) + ReceivedIn(steps, t)
            && now.acquired == s.acquired + LockOrder(steps)
  {
    hide Do, Enabled, ReceivedBy, ClosesIn, SendsIn;
    if steps == [] {
      assert ReceivedBy(s, t) + [] == ReceivedBy(s, t) && s.acquired + [] == s.acquired;
    } else {
      var front, x := steps[..|steps| - 1], steps[|steps| - 1];
      assert steps == front + [x];
      RunSnoc(s, front, x);
      HistoryOfRun(s, front, t);
      var now := After(s, front);
      StepHistory(now, x, t);
      StepsSnoc(front, x, t);
      Associative(ReceivedBy(s, t), ReceivedIn(front, t), if x.Receive? && x.t == t then x.bytes else []);
      Associative(s.acquired, LockOrder(front), if x.Lock? then [x.t] else []);
    }
  }

  lemma Associative<T>(a: seq<T>, b: seq<T>, c: seq<T>)
    ensures a + b + c == a + (b + c)
  {
  }

  /** Which of the four events that move a thread on have happened, by the phase it is in. */
  predicate PhaseFits(s: State, t: Tid, closed: bool, complete: bool, locked: bool, unlocked: bool) {
    if In(s, t, Closed) then closed && !complete && !locked && !unlocked
    else if t !in s.threads || In(s, t, Receiving) then !closed && !complete && !locked && !unlocked
    else !closed && complete && (locked <==> !In(s, t, Waiting)) && (unlocked <==> In(s, t, Answered))
  }

  /** One step; `acc` is what t received before it, `seen` whether a newline was seen in front of its buffer. */
  lemma PhaseStep(s: State, x: Step, t: Tid, acc: seq<Byte>, seen: bool, closed: bool, locked: bool, unlocked: bool)
    requires PhaseFits(s, t, closed, EndsInNewline(acc) || seen, locked, unlocked) && Enabled(s, x)
    requires In(s, t, Receiving) ==> s.threads[t].buffer == acc
    ensures var more := if x.Receive? && x.t == t then x.bytes else [];
            PhaseFits(Do(s, x), t, closed || Closes(x, t),
                      EndsInNewline(acc + more) || seen || x == CloseUnread(t, NEWLINE),
                      locked || x == Lock(t), unlocked || x == Unlock(t))
  {
    assert acc + [] == acc;
  }

  lemma {:induction false} RunPhase(initial: seq<Byte>, steps: seq<Step>, t: Tid)
    requires EnabledRun(Start(initial), steps)
    ensures PhaseFits(After(Start(initial), steps), t, ClosesIn(steps, t), CompletesIn(steps, t),
                      Lock(t) in steps, Unlock(t) in steps)
  {
    hide Do, Enabled, Inv, PhaseFits, ClosesIn, Closes;
    if steps == [] {
      NothingHappened(initial, t);
    } else {
      var front, x := steps[..|steps| - 1], steps[|steps| - 1];
      assert steps == front + [x];
      RunSnoc(Start(initial), front, x);
      RunPhase(initial, front, t);
      if t in After(Start(initial), front).threads {
        ReachableReceived(initial, front, t);
      }
      StepsSnoc(front, x, t);
      PhaseStep(After(Start(initial), front), x, t, ReceivedIn(front, t), CloseUnread(t, NEWLINE) in front,
                ClosesIn(front, t), Lock(t) in front, Unlock(t) in front);
    }
  }

  lemma {:induction false} NothingHappened(initial: seq<Byte>, t: Tid)
    ensures PhaseFits(Start(initial), t, ClosesIn([], t), CompletesIn([], t), false, false)
  {
  }

  /** What a thread has received and, until it completes, what its buffer holds. */
  lemma {:induction false} ReachableReceived(initial: seq<Byte>, steps: seq<Step>, t: Tid)
    requires EnabledRun(Start(initial), steps) && t in After(Start(initial), steps).threads
    ensures var th := After(Start(initial), steps).threads[t];
            && th.received == ReceivedIn(steps, t)
            && (th.phase == Receiving ==> th.buffer == th.received)
  {
    hide After, EnabledRun;
    ReachableInv(initial, steps);
    HistoryOfRun(Start(initial), steps, t);
  }

  /**
   A thread's phase after any run: it has gone on receiving until an empty recv closed it or a
   newline completed its packet, and from then on only its own lock and unlock count.
   */
  lemma {:induction false} PhaseOfRun(initial: seq<Byte>, steps: seq<Step>, t: Tid)
    requires EnabledRun(Start(initial), steps)
    ensures var s := After(Start(initial), steps);
            && (t in s.threads <==> Spawn(t) in steps)
            && (In(s, t, Closed) <==> ClosesIn(steps, t))
            && (In(s, t, Receiving) <==> Spawn(t) in steps && !ClosesIn(steps, t) && !CompletesIn(steps, t))
            && (In(s, t, Waiting) <==> CompletesIn(steps, t) && Lock(t) !in steps)
            && (s.owner == Some(t) <==> Lock(t) in steps && Unlock(t) !in steps)
            && (In(s, t, Answered) <==> Unlock(t) in steps)
  {
    hide After, EnabledRun, ClosesIn, CompletesIn;
    HistoryOfRun(Start(initial), steps, t);
    RunPhase(initial, steps, t);
    ReachableInv(initial, steps);
    var s := After(Start(initial), steps);
    OwnerIsCritical(initial, s, t);
  }

  lemma OwnerIsCritical(initial: seq<Byte>, s: State, t: Tid)
    requires Inv(initial, s)
    ensures s.owner == Some(t) <==> t in s.threads && Critical(s.threads[t].phase)
  {
  }

  // ----- what every run guarantees ---------------------------------------------------------

  /** At most one thread is between lock and unlock. */
  lemma {:induction false} MutualExclusion(initial: seq<Byte>, steps: seq<Step>, t: Tid, u: Tid)
    requires EnabledRun(Start(initial), steps)
    requires var s := After(Start(initial), steps);
             t in s.threads && u in s.threads && Critical(s.threads[t].phase) && Critical(s.threads[u].phase)
    ensures t == u
  {
    ReachableInv(initial, steps);
  }

  /** A packet in the log is everything received by the thread that took the mutex for it. */
  lemma LoggedPacket(initial: seq<Byte>, s: State, i: nat)
    requires Inv(initial, s) && i < |s.log|
    ensures i < |s.acquired| && s.acquired[i] in s.threads
    ensures s.log[i] == s.threads[s.acquired[i]].received
    ensures s.log[i] == [] || EndsInNewline(s.log[i])
  {
    var u := s.acquired[i];
    assert u in s.threads && LogOk(initial, u, s.threads[u], s.acquired, s.log) && LocalOk(s.threads[u]);
  }

  /** The ghost record of the appends is what the list of steps says. */
  lemma {:induction false} LogIsPackets(initial: seq<Byte>, steps: seq<Step>)
    requires EnabledRun(Start(initial), steps)
    ensures var s := After(Start(initial), steps);
            && s.acquired == LockOrder(steps)
            && |s.log| <= |s.acquired| && s.log == Packets(steps)[..|s.log|]
            && forall i | 0 <= i < |s.log| :: s.log[i] == [] || EndsInNewline(s.log[i])
  {
    hide After, EnabledRun, Inv, ReceivedIn, LockOrder, Packets;
    ReachableInv(initial, steps);
    HistoryOfRun(Start(initial), steps, 0);
    var s := After(Start(initial), steps);
    LogWithinLocks(initial, s);
    forall i | 0 <= i < |s.log|
      ensures s.log[i] == Packets(steps)[i] && (s.log[i] == [] || EndsInNewline(s.log[i]))
    {
      LoggedPacket(initial, s, i);
      ReachableReceived(initial, steps, s.acquired[i]);
    }
  }

  /** A thread holds the mutex and has not written yet. */
  predicate HeldUnwritten(s: State) {
    s.owner.Some? && (In(s, s.owner.value, Locked) || In(s, s.owner.value, AtEnd))
  }

  lemma LogWithinLocks(initial: seq<Byte>, s: State)
    requires Inv(initial, s)
    ensures |s.log| == |s.acquired| - if HeldUnwritten(s) then 1 else 0
    ensures s.file.contents == initial + Flatten(s.log) && NoRepeats(s.acquired)
  {
    assert s.log[..|s.log|] == s.log;
  }

  /**
   After any run the file is its initial content followed by whole packets, one for each time the
   mutex was taken, in that order, except for that of a holder which has not written yet. No thread
   takes the mutex twice. A packet is all its thread received, and ends in a newline unless that is
   nothing.
   */
  lemma {:induction false} FileIsPacketsInLockOrder(initial: seq<Byte>, steps: seq<Step>)
    requires EnabledRun(Start(initial), steps)
    ensures var s := After(Start(initial), steps);
            var written := |LockOrder(steps)| - if HeldUnwritten(s) then 1 else 0;
            && written >= 0 && NoRepeats(LockOrder(steps))
            && s.file.contents == initial + Flatten(Packets(steps)[..written])
            && forall i | 0 <= i < written ::
                 Packets(steps)[i] == [] || EndsInNewline(Packets(steps)[i])
  {
    hide After, EnabledRun, Inv, Packets, LockOrder, HeldUnwritten;
    ReachableInv(initial, steps);
    LogIsPackets(initial, steps);
    var s := After(Start(initial), steps);
    LogWithinLocks(initial, s);
    assert forall i | 0 <= i < |s.log| :: s.log[i] == Packets(steps)[i];
  }

  lemma AnsweredReply(initial: seq<Byte>, s: State, t: Tid)
    requires Inv(initial, s) && In(s, t, Answered)
    ensures var th := s.threads[t];
            && th.slot < |s.log| <= |s.acquired| && s.acquired[th.slot] == t && s.log[th.slot] == th.received
            && th.reply == FileAfter(initial, s.log, th.slot + 1)
            && s.file.contents == FileAfter(initial, s.log, |s.log|)
  {
    assert LogOk(initial, t, s.threads[t], s.acquired, s.log);
  }

  /**
   A client is answered with the file as it stood right after its own packet was appended: the
   packets of all earlier holders of the mutex, then everything it sent itself.
   */
  lemma {:induction false} ReplyIsFileAtOwnAppend(initial: seq<Byte>, steps: seq<Step>, t: Tid) returns (k: nat)
    requires EnabledRun(Start(initial), steps) && In(After(Start(initial), steps), t, Answered)
    ensures var s := After(Start(initial), steps);
            && k < |LockOrder(steps)| && LockOrder(steps)[k] == t
            && s.threads[t].reply == initial + Flatten(Packets(steps)[..k]) + ReceivedIn(steps, t)
            && s.threads[t].reply <= s.file.contents
  {
    hide After, EnabledRun, Inv, FileAfter, LockOrder, ReceivedIn, Packets;
    ReachableInv(initial, steps);
    LogIsPackets(initial, steps);
    var s := After(Start(initial), steps);
    k := s.threads[t].slot;
    AnsweredReply(initial, s, t);
    FileAfterOneMore(initial, s.log, k);
    FilePrefix(initial, s.log, k + 1, |s.log|);
    FileAfterFirst(initial, s.log, Packets(steps), k);
  }

  lemma FileAfterFirst(initial: seq<Byte>, log: seq<seq<Byte>>, packets: seq<seq<Byte>>, k: nat)
    requires k < |log| <= |packets| && log == packets[..|log|]
    ensures FileAfter(initial, log, k) == initial + Flatten(packets[..k]) && log[k] == packets[k]
  {
    assert log[..k] == packets[..k];
  }

  lemma {:induction false} FileAfterOneMore(initial: seq<Byte>, log: seq<seq<Byte>>, k: nat)
    requires k < |log|
    ensures FileAfter(initial, log, k + 1) == FileAfter(initial, log, k) + log[k]
  {
    assert log[..k + 1] == log[..k] + [log[k]];
    FlattenSnoc(log[..k], log[k]);
    assert initial + (Flatten(log[..k]) + log[k]) == initial + Flatten(log[..k]) + log[k];
  }

  lemma {:induction false} FilePrefix(initial: seq<Byte>, log: seq<seq<Byte>>, i: nat, j: nat)
    requires i <= j <= |log|
    ensures FileAfter(initial, log, i) <= FileAfter(initial, log, j)
  {
    assert log[..j] == log[..i] + log[i..j];
    FlattenConcat(log[..i], log[i..j]);
  }

  /** Of any two replies, in one run, one is a prefix of the other. */
  lemma {:induction false} RepliesComparable(initial: seq<Byte>, steps: seq<Step>, t: Tid, u: Tid)
    requires EnabledRun(Start(initial), steps)
    requires In(After(Start(initial), steps), t, Answered) && In(After(Start(initial), steps), u, Answered)
    ensures var s := After(Start(initial), steps);
            s.threads[t].reply <= s.threads[u].reply || s.threads[u].reply <= s.threads[t].reply
  {
    hide After, EnabledRun, Inv, FileAfter;
    ReachableInv(initial, steps);
    var s := After(Start(initial), steps);
    var i, j := s.threads[t].slot, s.threads[u].slot;
    AnsweredReply(initial, s, t);
    AnsweredReply(initial, s, u);
    if i <= j {
      FilePrefix(initial, s.log, i + 1, j + 1);
    } else {
      FilePrefix(initial, s.log, j + 1, i + 1);
    }
  }

  /**
   At every recv the buffer has room for it, it holds exactly the bytes the thread's recv calls
   delivered, and it was doubled no more often than that needs.
   */
  lemma {:induction false} ReceiveHasRoom(initial: seq<Byte>, steps: seq<Step>, t: Tid)
    requires EnabledRun(Start(initial), steps) && In(After(Start(initial), steps), t, Receiving)
    ensures var th := After(Start(initial), steps).threads[t];
            && th.buffer == ReceivedIn(steps, t) && !EndsInNewline(th.buffer)
            && |th.buffer| + INIT_BUFFER_SIZE <= th.size && Doubled(th.size)
            && (th.size == INIT_BUFFER_SIZE || th.size / 2 < |th.buffer| + INIT_BUFFER_SIZE)
  {
    hide After, EnabledRun, Doubled;
    ReachableInv(initial, steps);
    ReachableReceived(initial, steps, t);
  }

  // ----- how often the file is read --------------------------------------------------------

  /** Every read but the last filled the buffer, which the last one did not. */
  ghost predicate SendsFit(s: State, n: nat, t: Tid) {
    if t !in s.threads then n == 0
    else
      var th := s.threads[t];
      if th.phase == Answered || (th.phase == Echoing && s.file.eof)
      then n > 0 && (n - 1) * th.size <= |th.reply| < n * th.size
      else if th.phase == Echoing then |th.reply| == n * th.size == s.file.pos
      else n == 0
  }

  lemma OneMoreSend(n: nat, size: nat, before: nat, k: nat)
    requires before == n * size && k <= size
    ensures k == size ==> before + k == (n + 1) * size
    ensures k < size ==> n * size <= before + k < (n + 1) * size
  {
  }

  lemma NoSendYet(size: nat)
    ensures 0 == 0 * size
  {
  }

  lemma {:induction false} SendsStep(initial: seq<Byte>, s: State, n: nat, x: Step, t: Tid)
    requires Inv(initial, s) && Enabled(s, x) && SendsFit(s, n, t)
    ensures SendsFit(Do(s, x), n + if x == ReadAndSend(t) then 1 else 0, t)
  {
    hide Inv;
    OwnerIsCritical(initial, s, t);
    OwnerIsCritical(initial, s, x.t);
    if t in s.threads {
      UnansweredReply(initial, s, t);
      NoSendYet(s.threads[t].size);
      if x == ReadAndSend(t) {
        OneMoreSend(n, s.threads[t].size, |s.threads[t].reply|, |Do(s, x).threads[t].reply| - |s.threads[t].reply|);
      }
    }
  }

  lemma UnansweredReply(initial: seq<Byte>, s: State, t: Tid)
    requires Inv(initial, s) && t in s.threads
    ensures In(s, t, Written) ==> s.threads[t].reply == []
  {
  }

  /**
   The fread and send loop of an answered client ran |reply| / size + 1 times: as long as the buffer
   was filled, and once more.
   */
  lemma {:induction false} SendsOfRun(initial: seq<Byte>, steps: seq<Step>, t: Tid)
    requires EnabledRun(Start(initial), steps)
    ensures var s, n := After(Start(initial), steps), SendsIn(steps, t);
            In(s, t, Answered) ==>
              n > 0 && (n - 1) * s.threads[t].size <= |s.threads[t].reply| < n * s.threads[t].size
  {
    hide Do, Enabled, Inv;
    RunSends(initial, steps, t);
  }

  lemma {:induction false} RunSends(initial: seq<Byte>, steps: seq<Step>, t: Tid)
    requires EnabledRun(Start(initial), steps)
    ensures SendsFit(After(Start(initial), steps), SendsIn(steps, t), t)
  {
    hide Do, Enabled, Inv, SendsFit;
    if steps == [] {
      NoneSpawned(initial, t);
    } else {
      var front, x := steps[..|steps| - 1], steps[|steps| - 1];
      assert steps == front + [x];
      RunSnoc(Start(initial), front, x);
      RunSends(initial, front, t);
      ReachableInv(initial, front);
      SendsStep(initial, After(Start(initial), front), SendsIn(front, t), x, t);
    }
  }

  lemma NoneSpawned(initial: seq<Byte>, t: Tid)
    ensures SendsFit(Start(initial), 0, t)
  {
  }

  // ----- the mutex is always given back ----------------------------------------------------

  /** How much the holder still has to do. */
  function HolderWork(th: Thread, file: SharedFile): int {
    match th.phase
    case Locked => |file.contents| + |th.buffer| + 5
    case AtEnd => |file.contents| + |th.buffer| + 4
    case Written => |file.contents| + 3
    case Echoing => |file.contents| - file.pos + if file.eof then 1 else 2
    case _ => 0
  }

  /** The holder always has a step, and each of its steps releases the mutex or leaves less work. */
  lemma {:induction false} HolderProgresses(initial: seq<Byte>, s: State, t: Tid)
    requires Inv(initial, s) && s.owner == Some(t)
    ensures HolderWork(s.threads[t], s.file) > 0
    ensures exists step :: Enabled(s, step) && step.t == t
    ensures forall step | Enabled(s, step) && step.t == t ::
              var s' := Do(s, step);
              s'.owner == None || (s'.owner == Some(t) && t in s'.threads &&
                                   HolderWork(s'.threads[t], s'.file) < HolderWork(s.threads[t], s.file))
  {
    hide Inv;
    HolderFacts(initial, s, t);
    var th := s.threads[t];
    var step := match th.phase
      case Locked => SeekEnd(t)
      case AtEnd => Write(t)
      case Written => Rewind(t)
      case _ => if s.file.eof then Unlock(t) else ReadAndSend(t);
    assert Enabled(s, step) && step.t == t;
    forall other | Enabled(s, other) && other.t == t
      ensures var s' := Do(s, other);
              s'.owner == None || (s'.owner == Some(t) && t in s'.threads &&
                                   HolderWork(s'.threads[t], s'.file) < HolderWork(th, s.file))
    {
      HolderStep(s, t, other);
    }
  }

  lemma HolderFacts(initial: seq<Byte>, s: State, t: Tid)
    requires Inv(initial, s) && s.owner == Some(t)
    ensures t in s.threads && Critical(s.threads[t].phase) && s.threads[t].size > 0
    ensures s.threads[t].phase == AtEnd || s.threads[t].phase == Echoing ==> s.file.pos <= |s.file.contents|
    ensures s.threads[t].phase == AtEnd ==> s.file.pos == |s.file.contents|
  {
  }

  lemma HolderStep(s: State, t: Tid, step: Step)
    requires t in s.threads && s.owner == Some(t) && Critical(s.threads[t].phase) && s.threads[t].size > 0
    requires s.threads[t].phase == AtEnd ==> s.file.pos == |s.file.contents|
    requires Enabled(s, step) && step.t == t
    ensures var s' := Do(s, step);
            s'.owner == None || (s'.owner == Some(t) && t in s'.threads &&
                                 HolderWork(s'.threads[t], s'.file) < HolderWork(s.threads[t], s.file))
  {
  }

  /** No step of another thread takes the mutex away or adds to the holder's work. */
  lemma {:induction false} OthersDoNotDelay(initial: seq<Byte>, s: State, t: Tid, step: Step)
    requires Inv(initial, s) && s.owner == Some(t) && Enabled(s, step) && step.t != t
    ensures var s' := Do(s, step);
            s'.owner == Some(t) && t in s'.threads && s'.threads[t] == s.threads[t] && s'.file == s.file
  {
  }

  /**
   The mutex is all a thread ever waits for: an unfinished one has a step unless it wants the mutex
   while it is held. A receiving one takes whatever the peer does next.
   */
  lemma {:induction false} OnlyTheMutexBlocks(initial: seq<Byte>, steps: seq<Step>, t: Tid)
    requires EnabledRun(Start(initial), steps) && t in After(Start(initial), steps).threads
    ensures var s := After(Start(initial), steps);
            && ((exists step :: Enabled(s, step) && step.t == t) <==>
                !In(s, t, Answered) && !In(s, t, Closed) && !(In(s, t, Waiting) && s.owner != None))
            && (In(s, t, Receiving) ==>
                  && (forall bytes | 0 < |bytes| <= INIT_BUFFER_SIZE :: Enabled(s, Receive(t, bytes)))
                  && (ReceivedIn(steps, t) != [] ==> Enabled(s, Receive(t, [])))
                  && (ReceivedIn(steps, t) == [] ==> forall b :: Enabled(s, CloseUnread(t, b))))
  {
    hide After, EnabledRun, Inv;
    ReachableInv(initial, steps);
    var s := After(Start(initial), steps);
    OwnerIsCritical(initial, s, t);
    ReachableReceived(initial, steps, t);
    if s.owner == Some(t) {
      HolderProgresses(initial, s, t);
    } else if In(s, t, Waiting) && s.owner == None {
      assert Enabled(s, Lock(t)) && Lock(t).t == t;
    } else if In(s, t, Receiving) {
      assert Enabled(s, Receive(t, [0])) && Receive(t, [0]).t == t;
    }
  }

  /** No reachable state is stuck: while a thread is unfinished, some thread can step. */
  lemma {:induction false} NeverStuck(initial: seq<Byte>, steps: seq<Step>, t: Tid)
    requires EnabledRun(Start(initial), steps) && t in After(Start(initial), steps).threads
    requires var s := After(Start(initial), steps); !In(s, t, Answered) && !In(s, t, Closed)
    ensures var s := After(Start(initial), steps); exists step :: Enabled(s, step) && step.t in s.threads
  {
    hide After, EnabledRun, Inv, Enabled;
    ReachableInv(initial, steps);
    var s := After(Start(initial), steps);
    OnlyTheMutexBlocks(initial, steps, t);
    if In(s, t, Waiting) && s.owner != None {
      HolderProgresses(initial, s, s.owner.value);
      HolderFacts(initial, s, s.owner.value);
    }
  }
}
