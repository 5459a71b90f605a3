/** What an event does, as conditions on the scripts of the socket: what is read, what is sent, and what survives. */
module StepOutcomes {
  import opened CStrings
  import opened RequestSyntax
  import opened ResponseSyntax
  import opened Transport
  import opened ConnectionSteps

  // ---------------------------------------------------------------- sending

  /** Each of these sends takes something, or nothing, and none of them stops the loop. */
  predicate AllTake(script: seq<Room>) {
    forall i | 0 <= i < |script| :: script[i].Takes?
  }

  /** The bytes that these sends can take together. */
  function Total(script: seq<Room>): nat
    requires AllTake(script)
  {
    if script == [] then 0
    else
      assert AllTake(script[1..]);
      script[0].size + Total(script[1..])
  }

  /** The first `k` sends take something, and the next one does not, if there is one. */
  predicate TakesFirst(script: seq<Room>, k: nat) {
    k <= |script| && AllTake(script[..k]) && (k < |script| ==> !script[k].Takes?)
  }

  /** The sends take `n` bytes before any of them stops the loop. */
  predicate Suffices(script: seq<Room>, n: nat) {
    exists k: nat :: k <= |script| && AllTake(script[..k]) && Total(script[..k]) >= n
  }

  /** A send fails before `n` bytes have been taken. */
  predicate Breaks(script: seq<Room>, n: nat) {
    exists k: nat :: k < |script| && AllTake(script[..k]) && Total(script[..k]) < n && script[k].SendError?
  }

  lemma TotalStep(script: seq<Room>, k: nat)
    requires 0 < k <= |script| && AllTake(script[..k])
    ensures script[0].Takes? && AllTake(script[1..][..k - 1])
    ensures Total(script[..k]) == script[0].size + Total(script[1..][..k - 1])
  {
    assert script[..k][0] == script[0];
    assert script[..k][1..] == script[1..][..k - 1];
  }

  lemma {:induction false} TotalGrows(script: seq<Room>, i: nat, k: nat)
    requires i <= k <= |script| && AllTake(script[..k])
    ensures AllTake(script[..i]) && Total(script[..i]) <= Total(script[..k])
  {
    hide Total;
    assert forall j | 0 <= j < i :: script[..i][j] == script[..k][j];
    if i == 0 {
      NothingTaken(script);
    } else {
      TotalStep(script, k);
      TotalStep(script, i);
      TotalGrows(script[1..], i - 1, k - 1);
    }
  }

  lemma NothingTaken(script: seq<Room>)
    ensures AllTake(script[..0]) && Total(script[..0]) == 0
  {
  }

  lemma {:induction false} FirstTakes(script: seq<Room>) returns (k: nat)
    ensures TakesFirst(script, k)
  {
    if script == [] || !script[0].Takes? {
      k := 0;
    } else {
      k := FirstTakes(script[1..]);
      k := k + 1;
      assert forall i | 0 < i < k :: script[..k][i] == script[1..][..k - 1][i - 1];
    }
  }

  /** What is left depends on how much the first sends take, and on why they end. */
  lemma {:induction false} DrainIs(pending: Text, script: seq<Room>, k: nat)
    requires pending != [] && TakesFirst(script, k)
    ensures var n := Total(script[..k]);
            DrainOf(pending, script) ==
            if n >= |pending| then Drain([], true)
            else Drain(pending[n..], k == |script| || script[k].NoRoom?)
    decreases |script|
  {
    hide DrainOf, Total;
    DrainStep(pending, script);
    if k == 0 {
      NothingTaken(script);
      assert pending[0..] == pending;
    } else {
      TotalStep(script, k);
      var size := script[0].size;
      if size < |pending| {
        assert TakesFirst(script[1..], k - 1) by {
          assert k < |script| ==> script[1..][k - 1] == script[k];
        }
        DrainIs(pending[size..], script[1..], k - 1);
        var n := Total(script[1..][..k - 1]);
        assert n < |pending| - size ==> pending[size..][n..] == pending[size + n..];
      }
    }
  }

  /**
   What a connection with something to write does with a script: it is back to waiting, and everything is sent, if the
   sends take that much; else it has sent as much as they take, and breaks if an error is why they end.
   */
  lemma SendsExactly(pending: Text, response: Response, script: seq<Room>, k: nat)
    requires pending != [] && TakesFirst(script, k)
    ensures var n := Total(script[..k]);
            SendPending(pending, response, script) ==
            if n >= |pending| then (Open(false, [], response), pending)
            else if k < |script| && script[k].SendError? then (Closed, pending[..n])
            else (Open(true, pending[n..], response), pending[..n])
  {
    hide DrainOf, Total;
    DrainIs(pending, script, k);
    assert pending[..|pending|] == pending;
  }

  lemma SendsAllIff(pending: Text, response: Response, script: seq<Room>)
    requires pending != []
    ensures Suffices(script, |pending|) <==>
            SendPending(pending, response, script) == (Open(false, [], response), pending)
    ensures Breaks(script, |pending|) <==> SendPending(pending, response, script).0 == Closed
  {
    hide Total, SendPending;
    var k := FirstTakes(script);
    SendsExactly(pending, response, script, k);
    forall i: nat | i <= |script| && AllTake(script[..i])
      ensures i <= k && Total(script[..i]) <= Total(script[..k])
    {
      assert forall j | 0 <= j < i :: script[..i][j] == script[j];
      TotalGrows(script, i, k);
    }
    assert k < |script| && script[k].SendError? && Total(script[..k]) < |pending| ==> Breaks(script, |pending|);
    if i: nat :| i < |script| && AllTake(script[..i]) && Total(script[..i]) < |pending| && script[i].SendError? {
      assert i < k ==> script[..k][i] == script[i];
    }
  }

  // ---------------------------------------------------------------- reading

  function Together(script: seq<Delivery>): Text
    requires DataOnly(script)
  {
    if script == [] then []
    else
      assert DataOnly(script[1..]);
      script[0].data + Together(script[1..])
  }

  /** Reading brings exactly these bytes, and stops because there is nothing yet. */
  predicate Reads(script: seq<Delivery>, data: Text) {
    exists k: nat ::
      && k <= |script|
      && DataOnly(script[..k])
      && (k == |script| || script[k].NothingYet?)
      && data == Together(script[..k])
  }

  /** Reading meets an error, or the end of the stream before any data. */
  predicate FailsReading(script: seq<Delivery>) {
    exists k: nat ::
      && k < |script|
      && DataOnly(script[..k])
      && (script[k].ReceiveError? || (k == 0 && script[k] == Received([])))
  }

  lemma TogetherStep(script: seq<Delivery>, k: nat)
    requires 0 < k <= |script| && DataOnly(script[..k])
    ensures script[0].Received? && script[0].data != [] && DataOnly(script[1..][..k - 1])
    ensures Together(script[..k]) == script[0].data + Together(script[1..][..k - 1])
  {
    assert script[..k][0] == script[0];
    assert script[..k][1..] == script[1..][..k - 1];
  }

  lemma {:induction false} DataFirst(script: seq<Delivery>) returns (k: nat)
    ensures k <= |script| && DataOnly(script[..k])
    ensures k < |script| ==> !(script[k].Received? && script[k].data != [])
  {
    if script == [] || !script[0].Received? || script[0].data == [] {
      k := 0;
    } else {
      k := DataFirst(script[1..]);
      k := k + 1;
      assert forall i | 0 < i < k :: script[..k][i] == script[1..][..k - 1][i - 1];
    }
  }

  /** What a burst is depends on the data in front and on what ends it. */
  lemma {:induction false} BurstIs(script: seq<Delivery>, got: nat, k: nat)
    requires k <= |script| && DataOnly(script[..k])
    requires k < |script| ==> !(script[k].Received? && script[k].data != [])
    ensures var data := Together(script[..k]);
            BurstOf(script, got) ==
            if k == |script| || script[k].NothingYet? then Burst(data, true)
            else if script[k].ReceiveError? || (k == 0 && got == 0) then Burst(data, false)
            else Endless
    decreases k
  {
    hide Together;
    if k == 0 {
      TogetherNothing(script);
    } else {
      hide BurstOf;
      TogetherStep(script, k);
      FirstIsData(script, got);
      assert k < |script| ==> script[1..][k - 1] == script[k];
      BurstIs(script[1..], got + |script[0].data|, k - 1);
    }
  }

  lemma TogetherNothing(script: seq<Delivery>)
    ensures DataOnly(script[..0]) && Together(script[..0]) == []
  {
  }

  lemma BurstIff(script: seq<Delivery>)
    ensures forall data :: BurstOf(script, 0) == Burst(data, true) <==> Reads(script, data)
    ensures (BurstOf(script, 0).Burst? && !BurstOf(script, 0).alive) <==> FailsReading(script)
    ensures BurstOf(script, 0) == Endless <==> EndsAfterData(script)
  {
    hide BurstOf, Together;
    var k := DataFirst(script);
    BurstIs(script, 0, k);
    EndlessIff(script);
    forall i: nat | i < |script| && DataOnly(script[..i]) && (!script[i].Received? || script[i].data == [])
      ensures i == k
    {
      assert forall j | 0 <= j < i :: script[..i][j] == script[j];
      assert forall j | 0 <= j < k :: script[..k][j] == script[j];
    }
    assert script[..|script|] == script;
  }

  // ---------------------------------------------------------------- events

  /** The event makes a waiting connection render this response. */
  ghost predicate Answers(c: Conn, e: Event, s: Response) {
    && c.Open? && !c.writing && e.readable
    && exists data ::
         && Reads(e.incoming, data) && data != []
         && !ParseRequest(c.pending + data).Incomplete?
         && s == Answered(c.response, ParseRequest(c.pending + data), e.handler)
  }

  /** What is there to be written in an event, if anything is. */
  ghost predicate ToWrite(c: Conn, e: Event, bytes: Text, s: Response) {
    || (c.Open? && c.writing && e.writable && bytes == c.pending && s == c.response)
    || (Answers(c, e, s) && bytes == Rendered(s))
  }

  lemma ToWriteIsSent(c: Conn, e: Event, bytes: Text, s: Response)
    requires ToWrite(c, e, bytes, s)
    ensures Step(c, e) == SendPending(bytes, s, e.outgoing)
  {
    hide ParseRequest, Rendered, Answered, BurstOf, SendPending, Reads;
    BurstIff(e.incoming);
  }

  /**
   When all that is there to be written fits in what the sends take, it is all sent, and the connection survives and
   waits for the next request; and only then.
   */
  lemma SurvivesIff(c: Conn, e: Event, bytes: Text, s: Response)
    requires ToWrite(c, e, bytes, s) && bytes != []
    ensures Suffices(e.outgoing, |bytes|) <==> Step(c, e) == (Open(false, [], s), bytes)
    ensures Suffices(e.outgoing, |bytes|) <==> Step(c, e).0.Open? && !Step(c, e).0.writing
  {
    hide Step, SendPending, ToWrite, Suffices, Breaks, TakesFirst, Total;
    ToWriteIsSent(c, e, bytes, s);
    SendsAllIff(bytes, s, e.outgoing);
    var k := FirstTakes(e.outgoing);
    SendsExactly(bytes, s, e.outgoing, k);
  }

  /** An open connection is closed exactly if reading fails, or a send fails before everything is taken. */
  lemma ClosedIff(c: Conn, e: Event)
    requires c.Open? && (c.writing ==> c.pending != [])
    ensures Step(c, e).0 == Closed <==>
            || (!c.writing && e.readable && FailsReading(e.incoming))
            || (exists bytes, s :: ToWrite(c, e, bytes, s) && Breaks(e.outgoing, |bytes|))
  {
    hide ParseRequest, Rendered, Answered, BurstOf, SendPending, Reads, FailsReading, Breaks, DrainOf;
    BurstIff(e.incoming);
    forall bytes, s | ToWrite(c, e, bytes, s)
      ensures Step(c, e) == SendPending(bytes, s, e.outgoing)
      ensures Breaks(e.outgoing, |bytes|) <==> SendPending(bytes, s, e.outgoing).0 == Closed
    {
      ToWriteIsSent(c, e, bytes, s);
      RenderedHasBytes(s);
      SendsAllIff(bytes, s, e.outgoing);
    }
    WriteOrNot(c, e);
  }

  /** Without anything to write, an event closes only what cannot be read. */
  lemma WriteOrNot(c: Conn, e: Event)
    requires c.Open?
    ensures (exists bytes, s :: ToWrite(c, e, bytes, s))
         || (Step(c, e).0 == Closed <==> !c.writing && e.readable && FailsReading(e.incoming))
    ensures !c.writing && e.readable && FailsReading(e.incoming) ==> Step(c, e) == (Closed, [])
  {
    hide ParseRequest, Rendered, Answered, BurstOf, SendPending, Reads, FailsReading;
    BurstIff(e.incoming);
    if c.writing {
      assert e.writable ==> ToWrite(c, e, c.pending, c.response);
    } else if e.readable && BurstOf(e.incoming, 0).Burst? && BurstOf(e.incoming, 0).alive {
      var data := BurstOf(e.incoming, 0).data;
      assert Reads(e.incoming, data);
      if data != [] && !ParseRequest(c.pending + data).Incomplete? {
        var s := Answered(c.response, ParseRequest(c.pending + data), e.handler);
        assert Answers(c, e, s);
        assert ToWrite(c, e, Rendered(s), s);
      }
    }
  }

  lemma RenderedHasBytes(s: Response)
    ensures Rendered(s) != []
  {
  }

  /** While the parser is undecided, or nothing arrives, an event only adds what was read. */
  lemma OnlyReads(pending: Text, response: Response, e: Event, data: Text)
    requires e.readable && Reads(e.incoming, data)
    requires data == [] || ParseRequest(pending + data).Incomplete?
    ensures Step(Open(false, pending, response), e) == (Open(false, pending + data, response), [])
  {
    hide ParseRequest, BurstOf, Reads;
    BurstIff(e.incoming);
    assert data == [] ==> pending + data == pending;
  }
}
