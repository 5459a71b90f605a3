/** The two ends of a connection below the server: what `recv` delivers and what `send` takes, as arbitrary scripts. */
module Transport {
  import opened CStrings

  /** One delivery of the peer; `Received([])` is the end of its stream, which stays. */
  datatype Delivery = Received(data: Text) | NothingYet | ReceiveError

  /** How much a send may take. */
  datatype Room = Takes(size: nat) | NoRoom | SendError

  /** The result of `recv` or `send`: a size, -1 with EAGAIN or EWOULDBLOCK, or -1 with another error. */
  datatype IoResult = Moved(size: nat) | WouldBlock | Broken

  function Min(a: nat, b: nat): nat {
    if a < b then a else b
  }

  /** The script after a `recv` of at most `n` bytes: what did not fit stays for the next call, and so does the end. */
  function AfterRecv(script: seq<Delivery>, n: nat): seq<Delivery> {
    if script == [] || script[0] == Received([]) then script
    else if script[0].Received? && n < |script[0].data| then [Received(script[0].data[n..])] + script[1..]
    else script[1..]
  }

  class Socket {
    var incoming: seq<Delivery>
    var outgoing: seq<Room>
    ghost var sent: Text

    /** `recv(buffer + offset, n)` */
    method Recv(buffer: array<Byte>, offset: nat, n: nat) returns (r: IoResult)
      requires offset + n <= buffer.Length
      modifies this`incoming, buffer
      ensures incoming == AfterRecv(old(incoming), n)
      ensures r.WouldBlock? <==> old(incoming) == [] || old(incoming)[0].NothingYet?
      ensures r.Broken? <==> old(incoming) != [] && old(incoming)[0].ReceiveError?
      ensures r.Moved? ==>
                var d := old(incoming)[0].data;
                r.size == Min(|d|, n) && buffer[..] == Put(old(buffer[..]), offset, d[..r.size])
      ensures !r.Moved? ==> buffer[..] == old(buffer[..])
    {
      if incoming == [] {
        return WouldBlock;
      }
      var d := incoming[0];
      incoming := AfterRecv(incoming, n);
      match d
      case Received(data) =>
        var k := Min(|data|, n);
        forall i | 0 <= i < k {
          buffer[offset + i] := data[i];
        }
        return Moved(k);
      case NothingYet => return WouldBlock;
      case ReceiveError => return Broken;
    }

    /** `send(buffer + offset, n)` */
    method Send(buffer: array<Byte>, offset: nat, n: nat) returns (r: IoResult)
      requires offset + n <= buffer.Length
      modifies this`outgoing, this`sent
      ensures outgoing == if old(outgoing) == [] then [] else old(outgoing)[1..]
      ensures r.WouldBlock? <==> old(outgoing) == [] || old(outgoing)[0].NoRoom?
      ensures r.Broken? <==> old(outgoing) != [] && old(outgoing)[0].SendError?
      ensures r.Moved? ==>
                r.size == Min(old(outgoing)[0].size, n) && sent == old(sent) + buffer[offset..offset + r.size]
      ensures !r.Moved? ==> sent == old(sent)
    {
      if outgoing == [] {
        return WouldBlock;
      }
      var room := outgoing[0];
      outgoing := outgoing[1..];
      match room
      case Takes(size) =>
        var k := Min(size, n);
        sent := sent + buffer[offset..offset + k];
        return Moved(k);
      case NoRoom => return WouldBlock;
      case SendError => return Broken;
    }
  }

  // ---------------------------------------------------------------- what an event moves

  /** Everything that one receive event reads, and whether the connection survives it; or reading never stops. */
  datatype Burst = Burst(data: Text, alive: bool) | Endless

  function Preceded(data: Text, b: Burst): Burst {
    if b.Endless? then Endless else Burst(data + b.data, b.alive)
  }

  /**
   What reading until there is nothing yet brings, after `got` bytes have been read. An end of the stream is only
   noticed before the first byte; behind a byte it is read again and again.
   */
  function BurstOf(script: seq<Delivery>, got: nat): Burst {
    if script == [] || script[0].NothingYet? then Burst([], true)
    else if script[0].ReceiveError? then Burst([], false)
    else if script[0].data == [] then if got == 0 then Burst([], false) else Endless
    else Preceded(script[0].data, BurstOf(script[1..], got + |script[0].data|))
  }

  /** The end of the stream is reached behind some data, with nothing between them at which reading stops. */
  predicate EndsAfterData(script: seq<Delivery>) {
    exists i :: 0 < i < |script| && script[i] == Received([]) && DataOnly(script[..i])
  }

  predicate DataOnly(script: seq<Delivery>) {
    forall i | 0 <= i < |script| :: script[i].Received? && script[i].data != []
  }

  /** An event ends unless the stream does so behind data of the same event. */
  lemma EndlessIff(script: seq<Delivery>)
    ensures BurstOf(script, 0).Endless? <==> EndsAfterData(script)
  {
    hide BurstOf;
    if script == [] || script[0] == Received([]) || !script[0].Received? {
      FirstStops(script);
      assert forall i | 0 < i < |script| :: script[..i][0] == script[0];
    } else {
      var rest := script[1..];
      FirstIsData(script, 0);
      EndlessBehindData(rest, |script[0].data|);
      if i :| 0 <= i < |rest| && rest[i] == Received([]) && DataOnly(rest[..i]) {
        assert script[..i + 1] == [script[0]] + rest[..i];
      }
      if i :| 0 < i < |script| && script[i] == Received([]) && DataOnly(script[..i]) {
        assert rest[i - 1] == script[i] && rest[..i - 1] == script[..i][1..];
      }
    }
  }

  lemma FirstStops(script: seq<Delivery>)
    requires script == [] || script[0] == Received([]) || !script[0].Received?
    ensures !BurstOf(script, 0).Endless?
  {
  }

  lemma FirstIsData(script: seq<Delivery>, got: nat)
    requires script != [] && script[0].Received? && script[0].data != []
    ensures BurstOf(script, got) == Preceded(script[0].data, BurstOf(script[1..], got + |script[0].data|))
  {
  }

  lemma {:induction false} EndlessBehindData(script: seq<Delivery>, got: nat)
    requires got > 0
    ensures BurstOf(script, got).Endless? <==>
            exists i :: 0 <= i < |script| && script[i] == Received([]) && DataOnly(script[..i])
  {
    if script != [] && script[0].Received? && script[0].data != [] {
      var rest := script[1..];
      EndlessBehindData(rest, got + |script[0].data|);
      if i :| 0 <= i < |rest| && rest[i] == Received([]) && DataOnly(rest[..i]) {
        assert script[..i + 1] == [script[0]] + rest[..i];
        assert script[i + 1] == Received([]);
      }
      if i :| 0 <= i < |script| && script[i] == Received([]) && DataOnly(script[..i]) {
        assert rest[i - 1] == script[i] && rest[..i - 1] == script[..i][1..];
      }
    } else {
      assert script != [] ==> DataOnly(script[..0]);
      assert forall i | 0 < i < |script| :: script[..i][0] == script[0];
    }
  }

  /** How much reading a script can still cause. */
  ghost function ScriptSize(script: seq<Delivery>): nat {
    if script == [] then 0
    else 1 + (if script[0].Received? then |script[0].data| else 0) + ScriptSize(script[1..])
  }

  /** Cutting a delivery to the room in a page changes nothing in what is read altogether. */
  lemma RecvKeepsBurst(script: seq<Delivery>, got: nat, n: nat)
    requires n > 0 && script != [] && script[0].Received? && script[0].data != []
    ensures var d := script[0].data[..Min(|script[0].data|, n)];
            BurstOf(script, got) == Preceded(d, BurstOf(AfterRecv(script, n), got + |d|))
    ensures ScriptSize(AfterRecv(script, n)) < ScriptSize(script)
  {
    hide BurstOf, Preceded;
    var data := script[0].data;
    FirstIsData(script, got);
    if n < |data| {
      var cut := AfterRecv(script, n);
      assert cut[0] == Received(data[n..]) && cut[1..] == script[1..];
      FirstIsData(cut, got + n);
      PrecededTwice(data, n, BurstOf(script[1..], got + |data|));
    } else {
      assert data[..|data|] == data;
    }
  }

  lemma PrecededTwice(data: Text, n: nat, b: Burst)
    requires n <= |data|
    ensures Preceded(data[..n], Preceded(data[n..], b)) == Preceded(data, b)
  {
    if b.Burst? {
      assert data[..n] + (data[n..] + b.data) == data + b.data;
    }
  }

  /** What is left after sending until there is no room: bytes, and whether the connection survives it. */
  datatype Drain = Drain(rest: Text, alive: bool)

  function DrainOf(pending: Text, script: seq<Room>): (d: Drain)
    ensures |d.rest| <= |pending|
    decreases |script|
  {
    if script == [] || script[0].NoRoom? then Drain(pending, true)
    else if script[0].SendError? then Drain(pending, false)
    else
      var k := Min(script[0].size, |pending|);
      if k == |pending| then Drain([], true) else DrainOf(pending[k..], script[1..])
  }

  /** What one send does to what is left to send. */
  lemma DrainStep(pending: Text, script: seq<Room>)
    ensures script == [] || script[0].NoRoom? ==> DrainOf(pending, script) == Drain(pending, true)
    ensures script != [] && script[0].SendError? ==> DrainOf(pending, script) == Drain(pending, false)
    ensures script != [] && script[0].Takes? ==>
              var k := Min(script[0].size, |pending|);
              DrainOf(pending, script) == if k == |pending| then Drain([], true) else DrainOf(pending[k..], script[1..])
  {
  }

  /** What is left is the end of what was there, and a connection only breaks with something left. */
  lemma {:induction false} DrainLeavesTheEnd(pending: Text, script: seq<Room>)
    requires pending != []
    ensures var d := DrainOf(pending, script);
            pending == pending[..|pending| - |d.rest|] + d.rest && (!d.alive ==> d.rest != [])
    decreases |script|
  {
    hide DrainOf;
    DrainStep(pending, script);
    if script != [] && script[0].Takes? && script[0].size < |pending| {
      var k := script[0].size;
      DrainLeavesTheEnd(pending[k..], script[1..]);
      TakeDrop(pending, k, DrainOf(pending[k..], script[1..]).rest);
    }
  }

  lemma TakeDrop(pending: Text, k: nat, rest: Text)
    requires k <= |pending| && |rest| <= |pending| - k
    requires pending[k..] == pending[k..][..|pending| - k - |rest|] + rest
    ensures pending == pending[..|pending| - |rest|] + rest
  {
    assert pending == pending[..k] + pending[k..];
  }
}
