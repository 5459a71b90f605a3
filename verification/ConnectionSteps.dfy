/** One event on a connection, as a function of what the connection holds: the specification of `handle_connection`. */
module ConnectionSteps {
  import opened CStrings
  import opened RequestSyntax
  import opened ResponseSyntax
  import opened Transport

  /**
   What matters of a `struct connection_information`: whether a response is being written, the bytes of the buffer
   from `start` to `end`, and the response object, which is never cleared. A connection is stuck when its event
   does not return.
   */
  datatype Conn =
    | Closed
    | Stuck
    | Open(writing: bool, pending: Text, response: Response)

  /** What a transaction does on the response, as a function of the request that it finds in the connection. */
  type Handler = Request -> seq<Call>

  /** An epoll event, what the socket then does, and how a transaction would answer at that time. */
  datatype Event = Event(
    readable: bool, writable: bool, incoming: seq<Delivery>, outgoing: seq<Room>, handler: Handler)

  const PAGE: nat := 4096
  const MAX_PAGES: nat := 128
  const BAD_REQUEST: nat := 4
  const SERVER: CString := [83, 101, 114, 118, 101, 114]
  const SERVER_NAME: CString := [104, 83, 83, 47, 48, 46, 48, 46, 49, 45, 97, 108, 112, 104, 97]

  /** The calls that answer a decided request: those of the transaction for an accepted one, else a 400. */
  function Answer(outcome: Outcome<Request>, handler: Handler): seq<Call> {
    (if outcome.Accepted? then handler(outcome.value) else [SetCode(BAD_REQUEST, None)])
    + [SetHeader(SERVER, SERVER_NAME)]
  }

  /** The response as it is rendered for a decided request. */
  function Answered(r: Response, outcome: Outcome<Request>, handler: Handler): Response {
    Finalized(ApplyAll(r, Answer(outcome, handler)))
  }

  /** Sending until there is no room: the connection afterwards, and the bytes that went out. */
  function SendPending(pending: Text, response: Response, outgoing: seq<Room>): (Conn, Text) {
    var d := DrainOf(pending, outgoing);
    (if d.alive then Open(d.rest != [], d.rest, response) else Closed, pending[..|pending| - |d.rest|])
  }

  /** The bytes are there: parse them, and answer them if the parser has decided. */
  function Consider(pending: Text, response: Response, e: Event): (Conn, Text) {
    var outcome := ParseRequest(pending);
    if outcome.Incomplete? then (Open(false, pending, response), [])
    else
      var answered := Answered(response, outcome, e.handler);
      SendPending(Rendered(answered), answered, e.outgoing)
  }

  /** The connection after an event, and the bytes that it sent. */
  function Step(c: Conn, e: Event): (Conn, Text) {
    match c
    case Closed => (c, [])
    case Stuck => (c, [])
    case Open(true, pending, response) =>
      if e.writable then SendPending(pending, response, e.outgoing) else (c, [])
    case Open(false, pending, response) =>
      if !e.readable then (c, [])
      else
        var burst := BurstOf(e.incoming, 0);
        if burst.Endless? then (Stuck, [])
        else if !burst.alive then (Closed, [])
        else if burst.data == [] then (c, [])
        else Consider(pending + burst.data, response, e)
  }

  /** The responses that a step renders: none or one. */
  function RenderedAt(c: Conn, e: Event): seq<Response> {
    if !c.Open? || c.writing || !e.readable then []
    else
      var burst := BurstOf(e.incoming, 0);
      if burst.Endless? || !burst.alive || burst.data == [] then []
      else
        var outcome := ParseRequest(c.pending + burst.data);
        if outcome.Incomplete? then [] else [Answered(c.response, outcome, e.handler)]
  }

  /**
   What `handle_connection` needs of an event: that reading stops, and within its list of pages; and that the sizes it
   comes to are sizes.
   */
  predicate Manageable(c: Conn, e: Event) {
    && (c.Open? && !c.writing && e.readable ==>
          && BurstOf(e.incoming, 0).Burst?
          && |BurstOf(e.incoming, 0).data| < PAGE * MAX_PAGES
          && |c.pending| + PAGE * MAX_PAGES <= SIZE_WRAP)
    && (forall r | r in RenderedAt(c, e) :: |Rendered(r)| < SIZE_WRAP)
  }

  lemma StepIgnores(c: Conn, e: Event)
    requires c.Open? && (if c.writing then !e.writable else !e.readable)
    ensures Step(c, e) == (c, [])
  {
  }

  lemma StepSends(pending: Text, response: Response, e: Event)
    requires e.writable
    ensures Step(Open(true, pending, response), e) == SendPending(pending, response, e.outgoing)
  {
  }

  lemma StepReceives(pending: Text, response: Response, e: Event)
    requires e.readable && BurstOf(e.incoming, 0).Burst?
    ensures var burst := BurstOf(e.incoming, 0);
            var outcome := ParseRequest(pending + burst.data);
            var answered := Answered(response, outcome, e.handler);
            Step(Open(false, pending, response), e) ==
              if !burst.alive then (Closed, [])
              else if burst.data == [] then (Open(false, pending, response), [])
              else if outcome.Incomplete? then (Open(false, pending + burst.data, response), [])
              else SendPending(Rendered(answered), answered, e.outgoing)
  {
  }
}
