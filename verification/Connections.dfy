/** `handle_connection`: receiving in pages, growing the buffer, parsing, rendering and draining. */
module Connections {
  import opened CStrings
  import opened RequestSyntax
  import F = Fields
  import opened HeaderLists
  import opened Requests
  import opened ResponseSyntax
  import opened ResponseTheorems
  import opened Responses
  import opened Transport
  import opened ConnectionSteps

  // ---------------------------------------------------------------- staging a burst in pages

  /** Pages that were read full hold these bytes, in order. */
  ghost predicate FullPages(full: seq<array<Byte>>, data: Text)
    reads full
  {
    && |data| == PAGE * |full|
    && forall i | 0 <= i < |full| :: full[i].Length == PAGE && full[i][..] == data[PAGE * i..PAGE * (i + 1)]
  }

  lemma OneMorePage(full: seq<array<Byte>>, data: Text, page: array<Byte>)
    requires FullPages(full, data) && page.Length == PAGE
    ensures FullPages(full + [page], data + page[..])
  {
    var d := data + page[..];
    forall i | 0 <= i < |full| + 1
      ensures (full + [page])[i].Length == PAGE && (full + [page])[i][..] == d[PAGE * i..PAGE * (i + 1)]
    {
      if i < |full| {
        assert d[PAGE * i..PAGE * (i + 1)] == data[PAGE * i..PAGE * (i + 1)];
      }
    }
  }

  /** What has been read: the full pages, and the filled part of the page that is being read into. */
  ghost predicate Staged(full: seq<array<Byte>>, page: array<Byte>, offset: nat, got: Text)
    reads full, page
  {
    && |got| == PAGE * |full| + offset
    && FullPages(full, got[..PAGE * |full|])
    && offset < page.Length == PAGE && page[..offset] == got[PAGE * |full|..]
  }

  /** Where the receive loop is: what is still to come, how much was read, and how far the last page is filled. */
  datatype Reading = Reading(script: seq<Delivery>, got: nat, offset: nat) | Finished

  /** One round of the receive loop. */
  function Round(r: Reading): Reading {
    if r.Finished? || r.script == [] || !r.script[0].Received? || (r.script[0].data == [] && r.got == 0) then Finished
    else
      var room := PAGE - r.offset % PAGE;
      var size := Min(|r.script[0].data|, room);
      Reading(AfterRecv(r.script, room), r.got + size, (r.offset + size) % PAGE)
  }

  function Rounds(r: Reading, k: nat): Reading {
    if k == 0 then r else Round(Rounds(r, k - 1))
  }

  lemma {:induction false} RoundsLater(r: Reading, k: nat)
    ensures Rounds(Round(r), k) == Rounds(r, k + 1)
  {
    hide Round;
    if k > 0 {
      RoundsLater(r, k - 1);
    } else {
      assert Rounds(r, 1) == Round(Rounds(r, 0));
    }
  }

  /** One round keeps it open whether reading stops, and leaves less to read unless it has come to the end for good. */
  lemma RoundKeepsEnd(r: Reading)
    requires r.Reading?
    ensures Round(r).Reading? ==> BurstOf(Round(r).script, Round(r).got).Endless? == BurstOf(r.script, r.got).Endless?
    ensures Round(r).Finished? ==> !BurstOf(r.script, r.got).Endless?
    ensures Round(r).Reading? && !BurstOf(r.script, r.got).Endless? ==>
              ScriptSize(Round(r).script) < ScriptSize(r.script)
  {
    hide BurstOf, ScriptSize, AfterRecv;
    BurstStops(r.script, r.got);
    if r.script != [] && r.script[0].Received? && r.script[0].data != [] {
      RecvKeepsBurst(r.script, r.got, PAGE - r.offset % PAGE);
    } else if r.script != [] && r.script[0] == Received([]) && r.got > 0 {
      EndStays(r.script, PAGE - r.offset % PAGE);
    }
  }

  lemma EndStays(script: seq<Delivery>, n: nat)
    requires script != [] && script[0] == Received([])
    ensures AfterRecv(script, n) == script
  {
  }

  lemma {:induction false} NeverFinished(r: Reading, k: nat)
    requires r.Reading? && BurstOf(r.script, r.got).Endless?
    ensures Rounds(r, k).Reading? && BurstOf(Rounds(r, k).script, Rounds(r, k).got).Endless?
  {
    hide BurstOf, Round;
    if k == 0 {
    } else {
      NeverFinished(r, k - 1);
      RoundKeepsEnd(Rounds(r, k - 1));
    }
  }

  lemma {:induction false} SometimeFinished(r: Reading) returns (k: nat)
    requires r.Reading? && !BurstOf(r.script, r.got).Endless?
    ensures Rounds(r, k).Finished?
    decreases ScriptSize(r.script)
  {
    hide BurstOf, Round, ScriptSize;
    RoundKeepsEnd(r);
    if Round(r).Finished? {
      k := 1;
      assert Rounds(r, 1) == Round(Rounds(r, 0));
    } else {
      k := SometimeFinished(Round(r));
      RoundsLater(r, k);
      k := k + 1;
    }
  }

  /** The receive loop ends after some number of rounds exactly if the stream does not end behind data of the event. */
  lemma LoopEndsIff(script: seq<Delivery>)
    ensures (exists k :: Rounds(Reading(script, 0, 0), k).Finished?) <==> !EndsAfterData(script)
  {
    hide BurstOf, Rounds, EndsAfterData;
    var start := Reading(script, 0, 0);
    EndlessIff(script);
    if EndsAfterData(script) {
      forall k: nat
        ensures !Rounds(start, k).Finished?
      {
        NeverFinished(start, k);
      }
    } else {
      var k := SometimeFinished(start);
    }
  }

  /** A byte and then the end of the stream: the loop reads the end for ever. */
  lemma EndBehindDataIsReadForEver(k: nat)
    ensures !Rounds(Reading([Received([71]), Received([])], 0, 0), k).Finished?
  {
    hide Rounds;
    var script := [Received([71]), Received([])];
    assert script[1] == Received([]) && DataOnly(script[..1]);
    LoopEndsIff(script);
  }

  /**
   The receive loop, up to would-block, an error or the end of the stream, for an event in which it ends. `full` is the
   list of pages before the last one, and `offset` how far the last one is filled. The list of the source has
   `MAX_PAGES` places: they suffice exactly for a burst of less than that many pages.
   */
  method ReceiveBurst(socket: Socket)
    returns (alive: bool, total: nat, full: seq<array<Byte>>, page: array<Byte>, offset: nat)
    requires BurstOf(socket.incoming, 0).Burst?
    modifies socket`incoming
    ensures Burst(BurstOf(old(socket.incoming), 0).data, alive) == BurstOf(old(socket.incoming), 0)
    ensures var data := BurstOf(old(socket.incoming), 0).data;
            && total == |data| == PAGE * |full| + offset
            && Staged(full, page, offset, data)
            && (|full| + 1 <= MAX_PAGES <==> |data| < PAGE * MAX_PAGES)
    ensures fresh(page) && forall p | p in full :: fresh(p)
  {
    hide BurstOf, ScriptSize, AfterRecv, FullPages, Put, Preceded, Rounds, Round;
    ghost var burst := BurstOf(socket.incoming, 0);
    ghost var got: Text, start, k := [], Reading(socket.incoming, 0, 0), 0;
    page := new Byte[PAGE];
    full, offset, total := [], 0, 0;
    NoPages();
    NoRounds(start);
    PrecededByNothing(burst);
    while true
      invariant fresh(page) && (forall p | p in full :: fresh(p)) && page !in full
      invariant total == |got| && Staged(full, page, offset, got)
      invariant Preceded(got, BurstOf(socket.incoming, total)) == burst
      invariant Rounds(start, k) == Reading(socket.incoming, total, offset)
      decreases ScriptSize(socket.incoming)
    {
      ghost var script, filled := socket.incoming, page[..];
      BurstStops(script, total);
      PrecededBy(got, BurstOf(script, total));
      var r := socket.Recv(page, offset, PAGE - offset);
      if !r.Moved? {
        assert got + [] == got;
        return r.WouldBlock?, total, full, page, offset;
      }
      if r.size == 0 {
        if total == 0 {
          return false, total, full, page, offset;
        }
        assert false;
      }
      RecvKeepsBurst(script, total, PAGE - offset);
      ghost var piece := script[0].data[..r.size];
      PutFront(filled, offset, piece);
      PrecededMore(got, piece, BurstOf(socket.incoming, total + r.size));
      OneMoreRound(start, k, script, total, offset);
      k := k + 1;
      full, page, offset := Advance(full, page, offset, r.size, got, piece);
      got := got + piece;
      total := total + r.size;
    }
  }

  lemma NoRounds(r: Reading)
    ensures Rounds(r, 0) == r
  {
  }

  lemma OneMoreRound(start: Reading, k: nat, script: seq<Delivery>, got: nat, offset: nat)
    requires Rounds(start, k) == Reading(script, got, offset) && offset < PAGE
    requires script != [] && script[0].Received? && (script[0].data != [] || got > 0)
    ensures var size := Min(|script[0].data|, PAGE - offset);
            Rounds(start, k + 1) == Reading(AfterRecv(script, PAGE - offset), got + size, (offset + size) % PAGE)
  {
    hide AfterRecv;
  }

  lemma PrecededByNothing(b: Burst)
    ensures Preceded([], b) == b
  {
    if b.Burst? {
      assert [] + b.data == b.data;
    }
  }

  lemma PrecededBy(data: Text, b: Burst)
    ensures Preceded(data, b).Burst? <==> b.Burst?
    ensures b.Burst? ==> Preceded(data, b) == Burst(data + b.data, b.alive)
  {
  }

  lemma PrecededMore(a: Text, b: Text, c: Burst)
    ensures Preceded(a, Preceded(b, c)) == Preceded(a + b, c)
  {
    if c.Burst? {
      assert a + (b + c.data) == (a + b) + c.data;
    }
  }

  /** Moves on in the page, or to a new one when the page is full. */
  method Advance(full: seq<array<Byte>>, page: array<Byte>, offset: nat, size: nat, ghost got: Text, ghost piece: Text)
    returns (full': seq<array<Byte>>, page': array<Byte>, offset': nat)
    requires page !in full && |got| == PAGE * |full| + offset && FullPages(full, got[..PAGE * |full|])
    requires size == |piece| && offset + size <= page.Length == PAGE
    requires page[..offset + size] == got[PAGE * |full|..] + piece
    ensures Staged(full', page', offset', got + piece) && page' !in full'
    ensures page' == page || fresh(page')
    ensures full' == full || full' == full + [page]
    ensures offset' == (offset + size) % PAGE
  {
    hide FullPages;
    ghost var before := got[..PAGE * |full|];
    if size < PAGE - offset {
      full', page', offset' := full, page, offset + size;
      assert (got + piece)[..PAGE * |full|] == before;
    } else {
      full', offset' := full + [page], 0;
      page' := new Byte[PAGE];
      assert before + page[..] == got + piece;
      OneMorePage(full, before, page);
      assert (got + piece)[..PAGE * |full'|] == got + piece;
    }
  }

  lemma NoPages()
    ensures FullPages([], [])
  {
  }

  /** When reading stops, nothing more is read. */
  lemma BurstStops(script: seq<Delivery>, got: nat)
    ensures script == [] || script[0].NothingYet? ==> BurstOf(script, got) == Burst([], true)
    ensures script != [] && script[0].ReceiveError? ==> BurstOf(script, got) == Burst([], false)
    ensures script != [] && script[0] == Received([]) ==>
              BurstOf(script, got) == if got == 0 then Burst([], false) else Endless
  {
  }

  lemma PutFront(before: Text, at: nat, s: Text)
    requires at + |s| <= |before|
    ensures Put(before, at, s)[..at + |s|] == before[..at] + s
    ensures Put(before, at, s)[at + |s|..] == before[at + |s|..]
  {
  }

  /** `realloc`: as much of the old content as fits, in a block of the new size. */
  method Reallocate(data: array<Byte>, size: nat) returns (grown: array<Byte>)
    ensures fresh(grown) && grown.Length == size
    ensures grown[..Min(size, data.Length)] == data[..Min(size, data.Length)]
  {
    grown := new Byte[size];
    forall i | 0 <= i < Min(size, data.Length) {
      grown[i] := data[i];
    }
  }

  class Connection {
    var writing: bool                // ConnectionStatusWritingResponse, else ConnectionStatusWaitingRequest
    var open: bool                   // not yet destroyed
    var data: array<Byte>            // buffer.buffer
    var capability: nat              // buffer.capability
    var start: nat                   // buffer.start
    var end: nat                     // buffer.end
    const request: HttpRequest
    const response: HttpResponse

    ghost predicate BufferValid()
      reads this
    {
      capability == data.Length && start <= end <= capability && (open && writing ==> start < end)
    }

    ghost predicate Valid()
      reads this, request, request.headers, request.headers.Repr, response, response.headers, response.headers.Repr
    {
      && BufferValid()
      && request.Valid() && response.Valid()
      && request.headers != response.headers && request.headers.Repr !! response.headers.Repr
    }

    ghost function View(): Conn
      requires BufferValid()
      reads this, data, response, response.headers
    {
      if open then Open(writing, data[start..end], response.Value()) else Closed
    }

    /** The code is the one of the outcome, and an accepted request is what the request object holds. */
    ghost predicate Found(code: ErrorCode, outcome: Outcome<Request>)
      reads request, request.headers
    {
      code == CodeOf(outcome) && (outcome.Accepted? ==> request.Value() == outcome.value)
    }

    /** `initialize_connection_information` */
    constructor ()
      ensures Valid() && fresh(data) && fresh(request) && fresh(request.headers) && fresh(response)
      ensures fresh(response.headers) && request.headers.Repr == {} && response.headers.Repr == {}
      ensures View() == Open(false, [], Response(response.code, [], [], []))
    {
      writing, open := false, true;
      data := new Byte[0];
      capability, start, end := 0, 0, 0;
      request := new HttpRequest();
      response := new HttpResponse();
    }

    /** Shifts the unconsumed bytes to the beginning of the buffer. */
    method Compact()
      requires BufferValid() && !writing
      modifies this`start, this`end, data
      ensures BufferValid() && start == 0 && data[..end] == old(data[start..end])
    {
      if start != 0 {
        forall i | 0 <= i < end - start {
          data[i] := data[start + i];
        }
        end := end - start;
        start := 0;
      }
    }

    /**
     Makes room for `total` more bytes. `extra` wraps around when there is more room than needed, and then the buffer
     shrinks: in every case the capability becomes exactly what the bytes will take.
     */
    method Grow(total: nat)
      requires BufferValid() && start == 0 && !writing && capability < SIZE_WRAP && end + total < SIZE_WRAP
      modifies this`data, this`capability
      ensures BufferValid() && fresh(data)
      ensures capability == end + total && data[..end] == old(data[..end])
    {
      var available := (capability - end) % SIZE_WRAP;
      var extra := (total - available) % SIZE_WRAP;
      assert (capability + extra) % SIZE_WRAP == end + total;
      data := Reallocate(data, (capability + extra) % SIZE_WRAP);
      capability := (capability + extra) % SIZE_WRAP;
    }

    /** `memcpy` to the end of the effective part, and the update of `end`. */
    method Append(source: Text)
      requires BufferValid() && end + |source| <= capability
      modifies this`end, data
      ensures BufferValid() && end == old(end) + |source|
      ensures data[start..end] == old(data[start..end]) + source
    {
      forall i | 0 <= i < |source| {
        data[end + i] := source[i];
      }
      end := end + |source|;
    }

    /** Copies the full pages to the end of the effective part, one after the other. */
    method AppendPages(full: seq<array<Byte>>, ghost bytes: Text)
      requires BufferValid() && end + PAGE * |full| <= capability && data !in full && FullPages(full, bytes)
      modifies this`end, data
      ensures BufferValid() && end == old(end) + |bytes|
      ensures data[start..end] == old(data[start..end]) + bytes
    {
      hide FullPages;
      ghost var before := data[start..end];
      PagesSize(full, bytes);
      assert bytes[..0] == [] && before + [] == before;
      for i := 0 to |full|
        invariant BufferValid() && end == old(end) + PAGE * i
        invariant data[start..end] == before + bytes[..PAGE * i]
      {
        PageAt(full, bytes, i);
        Append(full[i][..]);
      }
      assert bytes[..|bytes|] == bytes;
    }

    /** Copies the pages of a burst behind the unconsumed bytes: afterwards the buffer is full to the last byte. */
    method StoreBurst(total: nat, full: seq<array<Byte>>, page: array<Byte>, offset: nat, ghost burst: Text)
      requires BufferValid() && open && !writing && capability < SIZE_WRAP && end - start + total < SIZE_WRAP
      requires total == |burst| && Staged(full, page, offset, burst)
      requires data != page && data !in full
      modifies this`start, this`end, this`data, this`capability, data
      ensures BufferValid() && start == 0 && end == capability
      ensures data[start..end] == old(data[start..end]) + burst
      ensures fresh(data)
    {
      hide FullPages;
      ghost var pending := data[start..end];
      Compact();
      Grow(total);
      AppendPages(full, burst[..PAGE * |full|]);
      if offset > 0 {
        Append(page[..offset]);
      }
      assert burst == burst[..PAGE * |full|] + burst[PAGE * |full|..];
    }

    /**
     Parses what is buffered: nothing but the request object changes, and it holds what was parsed. `behind` is what the
     memory holds behind the block of the buffer; it is read, but the outcome does not depend on it.
     */
    method Parse(behind: Text) returns (code: ErrorCode)
      requires Valid() && NUL in behind
      modifies request, request.headers, request.headers.Repr
      ensures Valid() && fresh(request.headers.Repr - old(request.headers.Repr))
      ensures Found(code, ParseRequest(data[start..end]))
    {
      hide ParseRequest, HttpRequest.Valid, HttpResponse.Valid, Means, Terminated;
      BufferInMemory(data[..], start, end, behind);
      code := request.FromBuffer(data[start..] + behind, end - start);
    }

    /** Builds the response for a decided request; the request is no longer needed then. */
    method BuildResponse(code: ErrorCode, handler: Handler, ghost outcome: Outcome<Request>)
      requires Valid() && Found(code, outcome)
      modifies request, request.headers, response, response.headers, response.headers.Repr
      ensures Valid() && fresh(response.headers.Repr - old(response.headers.Repr))
      ensures request.headers.Repr <= old(request.headers.Repr)
      ensures response.Value() == ApplyAll(old(response.Value()), ConnectionSteps.Answer(outcome, handler))
    {
      hide HttpRequest.Valid, HttpResponse.Valid, Apply;
      ghost var before := response.Value();
      var calls := [Call.SetCode(BAD_REQUEST, None)];
      if code == Succeed {
        var parsed := request.Read();
        calls := handler(parsed);
      }
      Perform(response, calls);
      request.Destroy();
      response.SetHeader(SERVER, SERVER_NAME);
      ApplyOneMore(before, calls, Call.SetHeader(SERVER, SERVER_NAME));
    }

    /** Renders the response, into the old buffer if it fits there and into a new one of the right size if not. */
    method RenderResponse()
      requires Valid() && open && !writing
      modifies this`data, this`capability, this`start, this`end, this`writing, data
      modifies response.headers, response.headers.Repr
      ensures Valid() && writing
      ensures fresh(response.headers.Repr - old(response.headers.Repr))
      ensures response.Value() == Finalized(old(response.Value()))
      ensures data[start..end] == Rendered(response.Value())
      ensures data == old(data) || (fresh(data) && capability == end - start)
    {
      hide HttpRequest.Valid, HttpResponse.Valid, Rendered, Finalized;
      var size;
      data, size := RenderSomewhere(response, data);
      RenderedIsNotEmpty(response.Value());
      capability := data.Length;
      start := 0;
      end := size;
      writing := true;
    }

    /** The send loop: partial writes until everything is out, there is no room, or the connection breaks. */
    method SendLoop(socket: Socket)
      requires BufferValid() && open && writing
      modifies this`start, this`writing, this`open, socket`outgoing, socket`sent
      ensures BufferValid()
      ensures var d := DrainOf(old(data[start..end]), old(socket.outgoing));
              && data[start..end] == d.rest
              && open == d.alive
              && (open ==> writing == (d.rest != []))
              && socket.sent + d.rest == old(socket.sent + data[start..end])
    {
      hide DrainOf, Min;
      ghost var b := data[..];
      ghost var d := DrainOf(b[start..end], socket.outgoing);
      assert data[start..end] == b[start..end];
      while true
        invariant BufferValid() && open && writing
        invariant DrainOf(b[start..end], socket.outgoing) == d
        invariant socket.sent + b[start..end] == old(socket.sent + data[start..end])
        decreases |socket.outgoing|
      {
        var toBeWritten := end - start;
        ghost var script, sent := socket.outgoing, socket.sent;
        DrainStops(b[start..end], script);
        var r := socket.Send(data, start, toBeWritten);
        if !r.Moved? {
          open := r.WouldBlock?;
          break;
        }
        assert data[start..start + r.size] == b[start..start + r.size];
        OneSend(b, start, r.size, end, sent, script);
        start := start + r.size;
        if r.size == toBeWritten {
          writing := false;
          break;
        }
      }
      assert data[start..end] == b[start..end];
    }

    /** The receiving half of an event: reads a burst, stores it behind what is buffered and tries to parse. */
    method ReceiveRequest(socket: Socket, behind: Text) returns (code: Option<ErrorCode>)
      requires NUL in behind
      requires Valid() && open && !writing && capability < SIZE_WRAP && end - start + PAGE * MAX_PAGES <= SIZE_WRAP
      requires BurstOf(socket.incoming, 0).Burst? && |BurstOf(socket.incoming, 0).data| < PAGE * MAX_PAGES
      modifies this`start, this`end, this`data, this`capability, this`open, data
      modifies request, request.headers, request.headers.Repr, socket`incoming
      ensures Valid() && (data == old(data) || fresh(data)) && capability < SIZE_WRAP
      ensures fresh(request.headers.Repr - old(request.headers.Repr))
      ensures var burst := BurstOf(old(socket.incoming), 0);
              && open == burst.alive
              && (open && burst.data == [] ==> code == None && data[start..end] == old(data[start..end]))
              && (open && burst.data != [] ==>
                    && data[start..end] == old(data[start..end]) + burst.data
                    && code.Some? && Found(code.value, ParseRequest(data[start..end])))
    {
      hide ParseRequest, HttpRequest.Valid, HttpResponse.Valid, BurstOf, FullPages;
      ghost var burst := BurstOf(socket.incoming, 0);
      var alive, total, full, page, offset := ReceiveBurst(socket);
      if !alive {
        open := false;
        return None;
      }
      if total == 0 {
        return None;
      }
      StoreBurst(total, full, page, offset, burst.data);
      var c := Parse(behind);
      return Some(c);
    }

    /** The half of an event that ends with a rendered response in the buffer, if a request was decided. */
    method TakeRequest(socket: Socket, handler: Handler, behind: Text) returns (decided: bool)
      requires NUL in behind
      requires Valid() && open && !writing && capability < SIZE_WRAP && end - start + PAGE * MAX_PAGES <= SIZE_WRAP
      requires BurstOf(socket.incoming, 0).Burst? && |BurstOf(socket.incoming, 0).data| < PAGE * MAX_PAGES
      modifies this, data, request, request.headers, request.headers.Repr
      modifies response, response.headers, response.headers.Repr, socket`incoming
      ensures Valid() && (data == old(data) || fresh(data))
      ensures fresh(request.headers.Repr - old(request.headers.Repr))
      ensures fresh(response.headers.Repr - old(response.headers.Repr))
      ensures capability < SIZE_WRAP || (decided && capability == end - start)
      ensures var burst := BurstOf(old(socket.incoming), 0);
              var pending := old(data[start..end]) + burst.data;
              var outcome := ParseRequest(pending);
              && open == burst.alive
              && decided == (open && burst.data != [] && !outcome.Incomplete?)
              && (open && !decided ==> View() == Open(false, pending, old(response.Value())))
              && (decided ==>
                    && writing
                    && response.Value() == Answered(old(response.Value()), outcome, handler)
                    && data[start..end] == Rendered(response.Value()))
    {
      hide ParseRequest, HttpRequest.Valid, HttpResponse.Valid, BurstOf, Rendered, ApplyAll, Finalized;
      hide ConnectionSteps.Answer;
      ghost var pending := data[start..end];
      assert pending + [] == pending;
      var code := ReceiveRequest(socket, behind);
      decided := open && code.Some? && code.value != IncompleteRequest;
      if decided {
        BuildResponse(code.value, handler, ParseRequest(data[start..end]));
        RenderResponse();
      }
    }

    /**
     `handle_connection`: one epoll event. `handler` says what `handle_http_transaction` does on the response for the
     request in the connection, should this event complete an acceptable one; `behind` is what lies behind the buffer in
     memory, with a NUL somewhere.
     */
    method HandleConnection(readable: bool, writable: bool, socket: Socket, handler: Handler, behind: Text)
      requires NUL in behind
      requires Valid() && open && capability < SIZE_WRAP
      requires Manageable(View(), Event(readable, writable, socket.incoming, socket.outgoing, handler))
      modifies this, data, request, request.headers, request.headers.Repr
      modifies response, response.headers, response.headers.Repr, socket
      ensures Valid() && capability < SIZE_WRAP && (data == old(data) || fresh(data))
      ensures fresh(request.headers.Repr - old(request.headers.Repr))
      ensures fresh(response.headers.Repr - old(response.headers.Repr))
      ensures var (c, out) :=
                Step(old(View()), Event(readable, writable, old(socket.incoming), old(socket.outgoing), handler));
              View() == c && socket.sent == old(socket.sent) + out
    {
      hide ParseRequest, HttpRequest.Valid, HttpResponse.Valid, BurstOf, DrainOf, Rendered, ApplyAll, FullPages;
      hide Finalized, Answered, Step, HeaderList.Valid, RenderedAt;
      ghost var e := Event(readable, writable, socket.incoming, socket.outgoing, handler);
      if (!readable && !writing) || (!writable && writing) {
        StepIgnores(View(), e);
        return;
      }
      if !writing {
        StepReceives(data[start..end], response.Value(), e);
        assert data[start..end] + [] == data[start..end];
        RenderedFits(data[start..end], response.Value(), e);
        var decided := TakeRequest(socket, handler, behind);
        if !decided {
          return;
        }
      } else {
        StepSends(data[start..end], response.Value(), e);
      }
      ghost var pending, before := data[start..end], socket.sent;
      SendLoop(socket);
      SentSoFar(before, pending, socket.sent, data[start..end]);
    }
  }

  /**
   Renders into the buffer at hand, or measures that way and renders into one of exactly the right size. The second
   rendering always succeeds, although the first one may have inserted a header.
   */
  method RenderSomewhere(response: HttpResponse, data: array<Byte>) returns (buffer: array<Byte>, size: nat)
    requires response.Valid()
    modifies response.headers, response.headers.Repr, data
    ensures response.Valid() && fresh(response.headers.Repr - old(response.headers.Repr))
    ensures response.Value() == Finalized(old(response.Value()))
    ensures buffer == data || (fresh(buffer) && buffer.Length == size)
    ensures size == |Rendered(response.Value())| <= buffer.Length && buffer[..size] == Rendered(response.Value())
  {
    hide HttpResponse.Valid, Rendered, Finalized, Put;
    buffer := data;
    ghost var built, frame := response.Value(), buffer[..];
    SortedFields(response);
    var result;
    result, size := response.Render(buffer, buffer.Length);
    if result == InsufficientBufferSize {
      buffer := new Byte[size];
      frame := buffer[..];
      FinalizingIsIdempotent(built);
      result, size := response.Render(buffer, size);
    }
    PutAtFront(frame, Rendered(response.Value()));
  }

  /** A transaction as it reaches the response object. */
  method Perform(response: HttpResponse, calls: seq<Call>)
    requires response.Valid()
    modifies response, response.headers, response.headers.Repr
    ensures response.Valid() && fresh(response.headers.Repr - old(response.headers.Repr))
    ensures response.Value() == ApplyAll(old(response.Value()), calls)
  {
    hide HttpResponse.Valid, Apply;
    var i := 0;
    while i < |calls|
      invariant i <= |calls|
      invariant response.Valid() && fresh(response.headers.Repr - old(response.headers.Repr))
      invariant ApplyAll(response.Value(), calls[i..]) == ApplyAll(old(response.Value()), calls)
    {
      assert calls[i..][1..] == calls[i + 1..];
      match calls[i] {
        case SetCode(code, description) => response.SetCode(code, description);
        case SetHeader(key, value) => response.SetHeader(key, value);
        case SetBody(body) =>
          assert body[..|body|] == body;
          response.SetBody(body, Some(|body|));
        case Render =>
          var _, _ := response.Render(null, 0);
          RenderFinalizes(calls[i]);
      }
      i := i + 1;
    }
  }

  lemma BufferInMemory(data: Text, start: nat, end: nat, behind: Text)
    requires start <= end <= |data| && NUL in behind
    ensures Terminated(data[start..] + behind, end - start)
    ensures (data[start..] + behind)[..end - start] == data[start..end]
  {
    var k :| 0 <= k < |behind| && behind[k] == NUL;
    var m := data[start..] + behind;
    assert m[end - start..][|data| - end + k] == NUL;
  }

  lemma PagesSize(full: seq<array<Byte>>, bytes: Text)
    requires FullPages(full, bytes)
    ensures |bytes| == PAGE * |full|
  {
  }

  lemma PageAt(full: seq<array<Byte>>, bytes: Text, i: nat)
    requires i < |full| && FullPages(full, bytes)
    ensures PAGE * (i + 1) <= |bytes| && full[i].Length == PAGE
    ensures bytes[..PAGE * (i + 1)] == bytes[..PAGE * i] + full[i][..]
  {
  }

  lemma RenderFinalizes(c: Call)
    requires c.Render?
    ensures forall r :: Apply(r, c) == Finalized(r)
  {
  }

  lemma SortedFields(response: HttpResponse)
    requires response.Valid()
    ensures F.Sorted(response.Value().fields)
  {
  }

  lemma PutAtFront(before: Text, s: Text)
    requires |s| <= |before|
    ensures Put(before, 0, s)[0..|s|] == s
  {
  }

  /** The response of a manageable event fits in a buffer. */
  lemma RenderedFits(pending: Text, response: Response, e: Event)
    requires e.readable && BurstOf(e.incoming, 0).Burst? && Manageable(Open(false, pending, response), e)
    ensures var burst := BurstOf(e.incoming, 0);
            var outcome := ParseRequest(pending + burst.data);
            burst.alive && burst.data != [] && !outcome.Incomplete? ==>
              |Rendered(Answered(response, outcome, e.handler))| < SIZE_WRAP
  {
    hide ParseRequest, BurstOf, Rendered, Answered;
    var burst := BurstOf(e.incoming, 0);
    var answered := Answered(response, ParseRequest(pending + burst.data), e.handler);
    assert burst.alive && burst.data != [] && !ParseRequest(pending + burst.data).Incomplete? ==>
        answered in RenderedAt(Open(false, pending, response), e);
  }

  lemma DrainStops(pending: Text, script: seq<Room>)
    ensures script == [] || script[0].NoRoom? ==> DrainOf(pending, script) == Drain(pending, true)
    ensures script != [] && script[0].SendError? ==> DrainOf(pending, script) == Drain(pending, false)
    ensures script != [] && script[0].Takes? ==> Min(script[0].size, |pending|) <= |pending|
  {
  }

  /** What one send does to the sent bytes and to what is left to send. */
  lemma OneSend(b: Text, start: nat, size: nat, end: nat, sent: Text, script: seq<Room>)
    requires start <= end <= |b| && script != [] && script[0].Takes? && size == Min(script[0].size, end - start)
    ensures (sent + b[start..start + size]) + b[start + size..end] == sent + b[start..end]
    ensures DrainOf(b[start..end], script) ==
            if size == end - start then Drain([], true) else DrainOf(b[start + size..end], script[1..])
  {
    hide DrainOf;
    DrainStep(b[start..end], script);
    assert b[start..end][size..] == b[start + size..end];
  }

  lemma RenderedIsNotEmpty(r: Response)
    ensures |Rendered(r)| > 0
  {
  }

  lemma SentSoFar(before: Text, pending: Text, sent: Text, rest: Text)
    requires sent + rest == before + pending && |rest| <= |pending|
    ensures sent == before + pending[..|pending| - |rest|]
  {
    assert sent == (before + pending)[..|before| + |pending| - |rest|];
  }
}
