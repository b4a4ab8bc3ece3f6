/**
 One client's threadfunc (aesd_thread.c): receive into a doubling buffer until a newline ends it,
 append the packet to the shared file, send the whole file back. The mutex is ThreadProtocol's
 subject; here the thread runs alone.
 */
module ClientThread {
  import opened Bytes

  const INIT_BUFFER_SIZE := 100

  /** What one recv call yields; Data([]) is the peer closing. */
  datatype Received = Error | Data(bytes: seq<Byte>)

  /** The packet a sequence of recv results completes after the bytes `acc`, if it completes one. */
  function Packet(incoming: seq<Received>, acc: seq<Byte>): Option<seq<Byte>>
    decreases |incoming|
  {
    if incoming == [] then None
    else
      match incoming[0]
      case Error => Packet(incoming[1..], acc)
      case Data(bytes) =>
        if bytes == [] then None
        else if EndsInNewline(acc + bytes) then Some(acc + bytes)
        else Packet(incoming[1..], acc + bytes)
  }

  /** The bytes a result delivers. */
  function Got(r: Received): seq<Byte> {
    match r
    case Error => []
    case Data(bytes) => bytes
  }

  function AllGot(incoming: seq<Received>): (parts: seq<seq<Byte>>)
    ensures |parts| == |incoming|
  {
    seq(|incoming|, i requires 0 <= i < |incoming| => Got(incoming[i]))
  }

  /** Result k is the first to end in a newline, and the peer has not closed before it. */
  predicate EndsAt(incoming: seq<Received>, k: nat) {
    && k < |incoming| && EndsInNewline(Got(incoming[k]))
    && forall j | 0 <= j < k :: incoming[j] != Data([]) && !EndsInNewline(Got(incoming[j]))
  }

  lemma AllGotFromFirst(incoming: seq<Received>, k: nat)
    requires k < |incoming|
    ensures Flatten(AllGot(incoming[..k + 1])) == Got(incoming[0]) + Flatten(AllGot(incoming[1..][..k]))
  {
    var got, later := Got(incoming[0]), AllGot(incoming[1..][..k]);
    assert AllGot(incoming[..k + 1]) == [got] + later;
    FlattenConcat([got], later);
    FlattenOne(got);
  }

  lemma FlattenOne(x: seq<Byte>)
    ensures Flatten([x]) == x
  {
    FlattenSnoc([], x);
    assert [] + [x] == [x];
  }

  /** The first result ends the packet. */
  lemma PacketEndsNow(incoming: seq<Received>, acc: seq<Byte>)
    requires EndsAt(incoming, 0)
    ensures Packet(incoming, acc) == Some(acc + Got(incoming[0]))
  {
  }

  /** The first result does not end the packet. */
  lemma PacketEndsLater(incoming: seq<Received>, acc: seq<Byte>, k: nat)
    requires k > 0 && EndsAt(incoming, k)
    ensures EndsAt(incoming[1..], k - 1)
    ensures Packet(incoming, acc) == Packet(incoming[1..], acc + Got(incoming[0]))
  {
    hide Packet;
    PacketStep(incoming, acc);
    var got := Got(incoming[0]);
    assert acc + [] == acc;
    assert got != [] ==> (acc + got)[|acc + got| - 1] == got[|got| - 1];
  }

  /** The packet is everything received up to the first result that ends in a newline. */
  lemma {:induction false} PacketIsFirstEnd(incoming: seq<Received>, acc: seq<Byte>, k: nat)
    requires EndsAt(incoming, k)
    ensures Packet(incoming, acc) == Some(acc + Flatten(AllGot(incoming[..k + 1])))
    decreases |incoming|
  {
    hide Packet, Flatten, AllGot, EndsInNewline;
    var got, later := Got(incoming[0]), Flatten(AllGot(incoming[1..][..k]));
    AllGotFromFirst(incoming, k);
    if k == 0 {
      PacketEndsNow(incoming, acc);
      NothingGot(incoming[1..][..0]);
      assert got + [] == got;
    } else {
      PacketEndsLater(incoming, acc, k);
      PacketIsFirstEnd(incoming[1..], acc + got, k - 1);
      assert acc + got + later == acc + (got + later);
    }
  }

  lemma NothingGot(none: seq<Received>)
    requires none == []
    ensures Flatten(AllGot(none)) == []
  {
  }

  /** Without such a result there is no packet. */
  lemma {:induction false} NoPacketWithoutEnd(incoming: seq<Received>, acc: seq<Byte>)
    requires forall k: nat :: !EndsAt(incoming, k)
    ensures Packet(incoming, acc) == None
    decreases |incoming|
  {
    if incoming != [] && incoming[0] != Data([]) {
      assert !EndsAt(incoming, 0);
      forall k: nat
        ensures !EndsAt(incoming[1..], k)
      {
        assert !EndsAt(incoming, k + 1);
      }
      NoPacketWithoutEnd(incoming[1..], acc + Got(incoming[0]));
      assert acc + [] == acc;
    }
  }

  /** The peer sends something before it closes; errors may come first. */
  predicate StartsWithData(incoming: seq<Received>)
    decreases |incoming|
  {
    incoming != [] &&
    match incoming[0]
    case Error => StartsWithData(incoming[1..])
    case Data(bytes) => bytes != []
  }

  /** In terms of single results: some result brings bytes and all before it are errors. */
  lemma {:induction false} StartsWithDataIff(incoming: seq<Received>)
    ensures StartsWithData(incoming) <==>
            exists k | 0 <= k < |incoming| :: Got(incoming[k]) != [] && forall j | 0 <= j < k :: incoming[j] == Error
    decreases |incoming|
  {
    if incoming != [] && incoming[0] == Error {
      var rest := incoming[1..];
      StartsWithDataIff(rest);
      if StartsWithData(rest) {
        var k :| 0 <= k < |rest| && Got(rest[k]) != [] && forall j | 0 <= j < k :: rest[j] == Error;
        assert incoming[k + 1] == rest[k];
        assert forall j | 0 < j < k + 1 :: incoming[j] == rest[j - 1];
      }
      forall k | 0 <= k < |incoming| && Got(incoming[k]) != [] && forall j | 0 <= j < k :: incoming[j] == Error
        ensures StartsWithData(rest)
      {
        assert rest[k - 1] == incoming[k];
        assert forall j | 0 <= j < k - 1 :: rest[j] == incoming[j + 1];
      }
    } else if incoming != [] {
      assert Got(incoming[0]) != [] ==> StartsWithData(incoming);
    }
  }

  predicate FitRecv(incoming: seq<Received>) {
    forall r | r in incoming && r.Data? :: |r.bytes| <= INIT_BUFFER_SIZE
  }

  class Socket {
    var incoming: seq<Received>
    var sent: seq<Byte>

    constructor (incoming: seq<Received>)
      ensures this.incoming == incoming && sent == []
    {
      this.incoming := incoming;
      sent := [];
    }

    /** recv: the next result, or 0 bytes once the peer has closed. */
    method Recv() returns (r: Received)
      modifies this`incoming
      ensures old(incoming) == [] ==> r == Data([]) && incoming == []
      ensures old(incoming) != [] ==> r == old(incoming)[0] && incoming == old(incoming)[1..]
    {
      if incoming == [] {
        return Data([]);
      }
      r := incoming[0];
      incoming := incoming[1..];
    }
  }

  /** A stdio stream: contents, position and end-of-file flag. */
  class Stdio {
    var contents: seq<Byte>
    var pos: nat
    var eof: bool

    constructor (contents: seq<Byte>)
      ensures this.contents == contents
    {
      this.contents := contents;
      pos, eof := 0, false;
    }

    /** fseek, which clears the flag */
    method Seek(to: nat)
      requires to <= |contents|
      modifies this
      ensures contents == old(contents) && pos == to && !eof
    {
      pos, eof := to, false;
    }

    /** A complete fwrite at the position. */
    method Write(data: seq<Byte>)
      requires pos <= |contents|
      modifies this
      ensures var rest := if pos <= |old(contents)| then old(contents)[pos..] else [];
              contents == old(contents)[..old(pos)] + data + rest
      ensures pos == old(pos) + |data| && eof == old(eof)
    {
      var rest := if pos + |data| <= |contents| then contents[pos + |data|..] else [];
      contents := contents[..pos] + data + rest;
      pos := pos + |data|;
    }

    /** fread of up to n bytes; a short count sets the flag. */
    method Read(n: nat) returns (data: seq<Byte>)
      requires pos <= |contents|
      modifies this
      ensures contents == old(contents) && pos == old(pos) + |data| <= |contents|
      ensures data == contents[old(pos)..pos]
      ensures |data| == n || (|data| < n && pos == |contents|)
      ensures eof <==> old(eof) || |data| < n
    {
      var k := if |contents| - pos < n then |contents| - pos else n;
      data := contents[pos..pos + k];
      pos := pos + k;
      eof := eof || k < n;
    }
  }

  /** Stores data in the buffer from `at` on, as recv and fread do. */
  method Store(buffer: array<Byte>, at: nat, data: seq<Byte>)
    requires at + |data| <= buffer.Length
    modifies buffer
    ensures buffer[..at] == old(buffer[..at]) && buffer[at..at + |data|] == data
  {
    for i := 0 to |data|
      invariant buffer[..at] == old(buffer[..at])
      invariant buffer[at..at + i] == data[..i]
    {
      buffer[at + i] := data[i];
    }
  }

  /** The buffer after a recv behind the bytes it already holds. */
  method StoreBehind(buffer: array<Byte>, totalLen: nat, data: seq<Byte>)
    requires totalLen + |data| <= buffer.Length
    modifies buffer
    ensures buffer[..totalLen + |data|] == old(buffer[..totalLen]) + data
  {
    Store(buffer, totalLen, data);
    assert buffer[..totalLen + |data|] == buffer[..totalLen] + buffer[totalLen..totalLen + |data|];
  }

  /** The single doubling that follows each recv, a realloc that keeps the contents. */
  method MakeRoom(buffer: array<Byte>, totalLen: nat) returns (roomy: array<Byte>)
    requires INIT_BUFFER_SIZE <= buffer.Length && totalLen <= buffer.Length
    ensures roomy == buffer || fresh(roomy)
    ensures totalLen + INIT_BUFFER_SIZE <= roomy.Length && roomy[..totalLen] == buffer[..totalLen]
    ensures roomy.Length == if totalLen + INIT_BUFFER_SIZE > buffer.Length then 2 * buffer.Length else buffer.Length
  {
    if totalLen + INIT_BUFFER_SIZE <= buffer.Length {
      return buffer;
    }
    roomy := new Byte[2 * buffer.Length](_ => 0);
    for i := 0 to buffer.Length
      invariant roomy[..i] == buffer[..i]
    {
      roomy[i] := buffer[i];
    }
    assert roomy[..totalLen] == roomy[..buffer.Length][..totalLen];
  }

  /** The loop that sends the file back, from its start to its end. */
  method Echo(file: Stdio, socket: Socket, buffer: array<Byte>) returns (readBytes: nat)
    requires buffer.Length > 0 && file.pos == 0 && !file.eof
    modifies file, buffer, socket`sent
    ensures file.contents == old(file.contents)
    ensures socket.sent == old(socket.sent) + file.contents
  {
    readBytes := 0;
    while !file.eof
      invariant file.contents == old(file.contents) && file.pos <= |file.contents|
      invariant socket.sent == old(socket.sent) + file.contents[..file.pos]
      invariant file.eof ==> file.pos == |file.contents|
      decreases |file.contents| - file.pos, !file.eof
    {
      ghost var pos := file.pos;
      var data := file.Read(buffer.Length);
      Store(buffer, 0, data);
      readBytes := |data|;
      assert buffer[..readBytes] == buffer[0..0 + |data|] == data;
      socket.sent := socket.sent + buffer[..readBytes];
      assert file.contents[..file.pos] == file.contents[..pos] + data;
    }
    assert file.contents[..file.pos] == file.contents;
  }

  /** The section under the mutex: append the packet at the end, then send everything back. */
  method Deliver(file: Stdio, socket: Socket, buffer: array<Byte>, totalLen: nat) returns (readBytes: nat)
    requires totalLen <= buffer.Length && buffer.Length > 0
    modifies file, buffer, socket`sent
    ensures file.contents == old(file.contents) + old(buffer[..totalLen])
    ensures socket.sent == old(socket.sent) + file.contents
  {
    var packet := buffer[..totalLen];
    file.Seek(|file.contents|);
    file.Write(packet);
    assert file.contents == old(file.contents) + packet;
    file.Seek(0);
    readBytes := Echo(file, socket, buffer);
  }

  /** What the client is sent in the end. */
  function Answer(incoming: seq<Received>, result: Option<seq<Byte>>, inFront: Byte, file: seq<Byte>): seq<Byte> {
    if result.Some? || (!StartsWithData(incoming) && inFront == NEWLINE) then file else []
  }

  lemma {:induction false} PacketNeedsData(incoming: seq<Received>, acc: seq<Byte>)
    ensures Packet(incoming, acc).Some? ==> StartsWithData(incoming)
    decreases |incoming|
  {
    if incoming != [] && incoming[0].Error? {
      PacketNeedsData(incoming[1..], acc);
    }
  }

  /** What one recv result does to the packet still to come. */
  lemma {:induction false} PacketStep(incoming: seq<Received>, acc: seq<Byte>)
    ensures incoming == [] ==> Packet(incoming, acc) == None
    ensures incoming != [] ==>
              match incoming[0]
              case Error => Packet(incoming, acc) == Packet(incoming[1..], acc)
              case Data(bytes) =>
                Packet(incoming, acc) ==
                if bytes == [] then None
                else if EndsInNewline(acc + bytes) then Some(acc + bytes)
                else Packet(incoming[1..], acc + bytes)
  {
  }

  /** Bytes held between calls do not end in a newline; before the first one, only errors came. */
  ghost predicate Partial(acc: seq<Byte>, incoming: seq<Received>, all: seq<Received>) {
    if acc == [] then StartsWithData(incoming) == StartsWithData(all)
    else !EndsInNewline(acc) && StartsWithData(all)
  }

  /** What threadfunc's tests after a recv amount to: deliver, stop, or go on. */
  lemma AfterRecv(all: seq<Received>, incoming: seq<Received>, acc: seq<Byte>, r: Received, rest: seq<Received>)
    requires Partial(acc, incoming, all)
    requires Packet(all, []).Some? ==> StartsWithData(all)
    requires if incoming == [] then r == Data([]) && rest == [] else r == incoming[0] && rest == incoming[1..]
    ensures r == Error ==> Packet(incoming, acc) == Packet(rest, acc) && Partial(acc, rest, all)
    ensures r.Data? && acc + r.bytes == [] ==> Packet(incoming, acc) == None && !StartsWithData(all)
    ensures r.Data? && EndsInNewline(acc + r.bytes) ==> Packet(incoming, acc) == Some(acc + r.bytes)
    ensures r.Data? && acc + r.bytes != [] && !EndsInNewline(acc + r.bytes) ==>
              && StartsWithData(all)
              && if r.bytes == [] then Packet(incoming, acc) == None
                 else Packet(incoming, acc) == Packet(rest, acc + r.bytes) && Partial(acc + r.bytes, rest, all)
  {
    hide Packet;
    PacketStep(incoming, acc);
    if r.Data? && r.bytes == [] {
      assert acc + r.bytes == acc;
    }
  }

  lemma PartialAtStart(all: seq<Received>)
    ensures Partial([], all, all)
  {
  }

  lemma FitRest(incoming: seq<Received>)
    requires FitRecv(incoming) && incoming != []
    ensures FitRecv(incoming[1..])
    ensures incoming[0].Data? ==> |incoming[0].bytes| <= INIT_BUFFER_SIZE
  {
    assert incoming[0] in incoming;
    assert forall r | r in incoming[1..] :: r in incoming;
  }

  /** What the newline test sees: the last byte received, or the byte in front of the buffer. */
  predicate SeesNewline(acc: seq<Byte>, inFront: Byte) {
    if acc == [] then inFront == NEWLINE else EndsInNewline(acc)
  }

  /** The body of the receive loop once recv has returned `bytes`. */
  method Handle(file: Stdio, socket: Socket, buffer: array<Byte>, totalLen: nat, bytes: seq<Byte>, inFront: Byte)
    returns (roomy: array<Byte>, total: nat, isCompleted: bool)
    requires totalLen + INIT_BUFFER_SIZE <= buffer.Length && |bytes| <= INIT_BUFFER_SIZE
    modifies file, buffer, socket`sent
    ensures (roomy == buffer || fresh(roomy)) && total + INIT_BUFFER_SIZE <= roomy.Length
    ensures var acc := old(buffer[..totalLen]) + bytes;
            if SeesNewline(acc, inFront)
            then isCompleted && file.contents == old(file.contents) + acc &&
                 socket.sent == old(socket.sent) + file.contents
            else (isCompleted <==> bytes == []) && roomy[..total] == acc &&
                 file.contents == old(file.contents) && socket.sent == old(socket.sent)
  {
    var readBytes := |bytes|;
    StoreBehind(buffer, totalLen, bytes);
    total, isCompleted := totalLen + readBytes, false;
    var tested := if total == 0 then inFront else buffer[total - 1];
    assert total > 0 ==> tested == buffer[..total][total - 1];
    if tested == NEWLINE {
      readBytes := Deliver(file, socket, buffer, total);
      total := 0;
      isCompleted := true;
    }
    if readBytes == 0 {
      isCompleted := true;
    }
    roomy := MakeRoom(buffer, total);
  }

  /**
   threadfunc. A completed packet is appended to the file and answered with the whole file; a
   connection closed after some bytes without a newline changes and sends nothing. A peer that
   closes before its first byte makes the code test the byte in front of its buffer, `inFront`
   here; if that happens to be a newline the peer is sent the whole file.
   */
  method ThreadFunc(file: Stdio, socket: Socket, inFront: Byte)
    requires FitRecv(socket.incoming)
    modifies file, socket
    ensures match Packet(old(socket.incoming), [])
            case Some(packet) =>
              file.contents == old(file.contents) + packet &&
              socket.sent == old(socket.sent) + file.contents
            case None =>
              file.contents == old(file.contents) &&
              socket.sent == old(socket.sent) +
                if !StartsWithData(old(socket.incoming)) && inFront == NEWLINE then file.contents else []
  {
    hide Packet, AllGot, Got, EndsAt, Flatten, Partial, StartsWithData, FitRecv, EndsInNewline;
    var buffer := new Byte[INIT_BUFFER_SIZE](_ => 0);
    var totalLen: nat, isCompleted := 0, false;
    ghost var all, result := socket.incoming, Packet(socket.incoming, []);
    ghost var received := [];
    PacketNeedsData(all, []);
    PartialAtStart(all);
    while !isCompleted
      invariant fresh(buffer) && totalLen + INIT_BUFFER_SIZE <= buffer.Length
      invariant FitRecv(socket.incoming)
      invariant !isCompleted ==> buffer[..totalLen] == received && Partial(received, socket.incoming, all)
      invariant !isCompleted ==> result == Packet(socket.incoming, received)
      invariant !isCompleted ==> file.contents == old(file.contents) && socket.sent == old(socket.sent)
      invariant isCompleted ==> file.contents == old(file.contents) + (if result.Some? then result.value else [])
      invariant isCompleted ==> socket.sent == old(socket.sent) + Answer(all, result, inFront, file.contents)
      decreases |socket.incoming|, !isCompleted
    {
      ghost var incoming := socket.incoming;
      if incoming != [] {
        FitRest(incoming);
      }
      var r := socket.Recv();
      AfterRecv(all, incoming, received, r, socket.incoming);
      if r.Data? {
        buffer, totalLen, isCompleted := Handle(file, socket, buffer, totalLen, r.bytes, inFront);
        received := received + r.bytes;
      }
    }
  }
}
