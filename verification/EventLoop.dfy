/** The events of one connection, one after the other, as the main loop hands them to it. */
module EventLoop {
  import opened CStrings
  import opened HeaderLists
  import opened Requests
  import opened Responses
  import opened Transport
  import opened ConnectionSteps
  import opened ConnectionRuns
  import opened Connections

  /** Every event of a run is one that `handle_connection` can manage in the state that it finds. */
  predicate AllManageable(c: Conn, es: seq<Event>)
    decreases |es|
  {
    es == [] || (Manageable(c, es[0]) && AllManageable(Step(c, es[0]).0, es[1..]))
  }

  /**
   The calls of `handle_connection` for these events, as long as the connection lives; the scripts of the socket are
   what the peer does meanwhile, and `behind` is what lies behind the buffer at each event. What holds of every run thus
   holds of the connection object over any number of events.
   */
  method HandleEvents(connection: Connection, socket: Socket, es: seq<Event>, behind: seq<Text>)
    requires |behind| == |es| && forall i | 0 <= i < |es| :: NUL in behind[i]
    requires connection.Valid() && connection.capability < SIZE_WRAP && AllManageable(connection.View(), es)
    modifies connection, connection.data, socket
    modifies connection.request, connection.request.headers, connection.request.headers.Repr
    modifies connection.response, connection.response.headers, connection.response.headers.Repr
    ensures connection.Valid() && connection.capability < SIZE_WRAP
    ensures var (c, out) := Run(old(connection.View()), es);
            connection.View() == c && socket.sent == old(socket.sent) + out
  {
    hide Run, Step, Manageable, HttpRequest.Valid, HttpResponse.Valid, HeaderList.Valid;
    ghost var start, out: Text := connection.View(), [];
    var i := 0;
    RunNothing(start, es);
    while i < |es| && connection.open
      invariant i <= |es| && connection.Valid() && connection.capability < SIZE_WRAP
      invariant connection.data == old(connection.data) || fresh(connection.data)
      invariant fresh(connection.request.headers.Repr - old(connection.request.headers.Repr))
      invariant fresh(connection.response.headers.Repr - old(connection.response.headers.Repr))
      invariant AllManageable(connection.View(), es[i..])
      invariant socket.sent == old(socket.sent) + out
      invariant Run(start, es) == (Run(connection.View(), es[i..]).0, out + Run(connection.View(), es[i..]).1)
    {
      var e := es[i];
      socket.incoming, socket.outgoing := e.incoming, e.outgoing;
      ghost var c := connection.View();
      assert es[i..][0] == e && es[i..][1..] == es[i + 1..];
      RunStep(c, es[i..], out);
      connection.HandleConnection(e.readable, e.writable, socket, e.handler, behind[i]);
      out := out + Step(c, e).1;
      i := i + 1;
    }
    RunIsOver(connection.View(), es[i..], out);
  }

  lemma RunNothing(c: Conn, es: seq<Event>)
    ensures es[0..] == es && Run(c, es) == (Run(c, es).0, [] + Run(c, es).1)
  {
    assert [] + Run(c, es).1 == Run(c, es).1;
  }

  lemma RunStep(c: Conn, es: seq<Event>, out: Text)
    requires es != []
    ensures var (d, more) := Step(c, es[0]);
            Run(c, es).0 == Run(d, es[1..]).0 && out + Run(c, es).1 == (out + more) + Run(d, es[1..]).1
  {
    hide Step;
    var (d, more) := Step(c, es[0]);
    assert out + (more + Run(d, es[1..]).1) == (out + more) + Run(d, es[1..]).1;
  }

  lemma RunIsOver(c: Conn, es: seq<Event>, out: Text)
    requires es == [] || !c.Open?
    ensures Run(c, es).0 == c && out + Run(c, es).1 == out
  {
    if es != [] {
      StaysClosed(c, es);
    }
  }
}
