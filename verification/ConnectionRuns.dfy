/** Whole runs of a connection: sequences of events of any kind, cut and timed in any way. */
module ConnectionRuns {
  import opened CStrings
  import opened Fields
  import opened RequestSyntax
  import opened PrefixTheorem
  import opened ResponseSyntax
  import opened ResponseTheorems
  import opened Transport
  import opened ConnectionSteps

  /** The connection after some events, and all the bytes that they sent. */
  function Run(c: Conn, es: seq<Event>): (Conn, Text)
    decreases |es|
  {
    if es == [] then (c, [])
    else
      var (d, out) := Step(c, es[0]);
      var (end, more) := Run(d, es[1..]);
      (end, out + more)
  }

  // ---------------------------------------------------------------- receiving

  /** An event that does not break the connection while it waits for a request. */
  predicate Harmless(e: Event) {
    e.readable ==> BurstOf(e.incoming, 0).Burst? && BurstOf(e.incoming, 0).alive
  }

  /** The bytes that an event delivers to a waiting connection. */
  function Delivered(e: Event): Text {
    if e.readable && BurstOf(e.incoming, 0).Burst? then BurstOf(e.incoming, 0).data else []
  }

  function Stream(es: seq<Event>): Text {
    if es == [] then [] else Delivered(es[0]) + Stream(es[1..])
  }

  lemma StepWaiting(pending: Text, response: Response, e: Event)
    requires Harmless(e)
    ensures Step(Open(false, pending, response), e) ==
            if Delivered(e) == [] then (Open(false, pending, response), [])
            else Consider(pending + Delivered(e), response, e)
  {
  }

  lemma ConsiderIncomplete(pending: Text, response: Response, e: Event)
    requires ParseRequest(pending).Incomplete?
    ensures Consider(pending, response, e) == (Open(false, pending, response), [])
  {
  }

  /** If more bytes left the parser undecided, it was undecided before. */
  lemma UndecidedBefore(b: Text, x: Text)
    requires ParseRequest(b + x).Incomplete?
    ensures ParseRequest(b).Incomplete?
  {
    hide ParseRequest;
    if x == [] {
      assert b + x == b;
    } else if !ParseRequest(b).Incomplete? {
      DecisionsAreFinal(b, x);
    }
  }

  /**
   While the parser is undecided about what has arrived, the connection only collects it: it keeps waiting, holds
   exactly the bytes so far, has not touched the response and has sent nothing.
   */
  lemma {:induction false} WaitsWhileUndecided(pending: Text, response: Response, es: seq<Event>)
    requires forall i | 0 <= i < |es| :: Harmless(es[i])
    requires ParseRequest(pending + Stream(es)).Incomplete?
    ensures Run(Open(false, pending, response), es) == (Open(false, pending + Stream(es), response), [])
    decreases |es|
  {
    hide ParseRequest, Step, Consider, Harmless, Delivered;
    if es == [] {
      assert pending + Stream(es) == pending;
    } else {
      var e, rest := es[0], es[1..];
      var next := pending + Delivered(e);
      StepWaiting(pending, response, e);
      assert pending + Stream(es) == next + Stream(rest);
      UndecidedBefore(next, Stream(rest));
      ConsiderIncomplete(next, response, e);
      assert Delivered(e) == [] ==> next == pending;
      WaitsWhileUndecided(next, response, rest);
    }
  }

  /** In particular, what can still become an acceptable request is never answered with 400. */
  lemma WaitsWhileAcceptable(pending: Text, response: Response, es: seq<Event>, x: Text)
    requires forall i | 0 <= i < |es| :: Harmless(es[i])
    requires x != [] && ParseRequest(pending + Stream(es) + x).Accepted?
    ensures Run(Open(false, pending, response), es) == (Open(false, pending + Stream(es), response), [])
  {
    hide ParseRequest, Harmless, Run;
    AcceptedPrefix(pending + Stream(es), x);
    WaitsWhileUndecided(pending, response, es);
  }

  lemma {:induction false} RunAppend(c: Conn, es: seq<Event>, e: Event)
    ensures Run(c, es + [e]) ==
            (Step(Run(c, es).0, e).0, Run(c, es).1 + Step(Run(c, es).0, e).1)
    decreases |es|
  {
    hide Step;
    if es == [] {
      assert es + [e] == [e];
      var (d, out) := Step(c, e);
      assert Run(d, [e][1..]) == (d, []);
      assert Run(c, [e]) == (d, out + []);
      assert [] + out == out == out + [];
    } else {
      assert (es + [e])[1..] == es[1..] + [e];
      var (d, out) := Step(c, es[0]);
      RunAppend(d, es[1..], e);
      assert out + (Run(d, es[1..]).1 + Step(Run(d, es[1..]).0, e).1)
          == (out + Run(d, es[1..]).1) + Step(Run(d, es[1..]).0, e).1;
    }
  }

  /** The event that brings the decision is handled as if all the bytes had arrived with it. */
  lemma DecidedAtTheLastBurst(pending: Text, response: Response, es: seq<Event>, last: Event)
    requires (forall i | 0 <= i < |es| :: Harmless(es[i])) && Harmless(last) && Delivered(last) != []
    requires ParseRequest(pending + Stream(es)).Incomplete?
    ensures Run(Open(false, pending, response), es + [last]) ==
            Consider(pending + Stream(es) + Delivered(last), response, last)
  {
    hide ParseRequest, Step, Consider, Harmless, Delivered, Stream;
    WaitsWhileUndecided(pending, response, es);
    RunAppend(Open(false, pending, response), es, last);
    StepWaiting(pending + Stream(es), response, last);
    var out := Consider(pending + Stream(es) + Delivered(last), response, last).1;
    assert [] + out == out;
  }

  /**
   An acceptable request that arrives in any number of bursts, with any events between them, is collected until its last
   burst and then answered exactly as if it had arrived at once.
   */
  lemma AnsweredAtTheLastBurst(pending: Text, response: Response, es: seq<Event>, last: Event)
    requires (forall i | 0 <= i < |es| :: Harmless(es[i])) && Harmless(last) && Delivered(last) != []
    requires ParseRequest(pending + Stream(es) + Delivered(last)).Accepted?
    ensures Run(Open(false, pending, response), es) == (Open(false, pending + Stream(es), response), [])
    ensures Run(Open(false, pending, response), es + [last]) ==
            Consider(pending + Stream(es) + Delivered(last), response, last)
  {
    hide ParseRequest, Consider, Harmless, Delivered, Stream, Run;
    AcceptedPrefix(pending + Stream(es), Delivered(last));
    WaitsWhileUndecided(pending, response, es);
    DecidedAtTheLastBurst(pending, response, es, last);
  }

  lemma {:induction false} StreamAppend(es: seq<Event>, e: Event)
    ensures Stream(es + [e]) == Stream(es) + Delivered(e)
  {
    hide Delivered;
    if es == [] {
      assert es + [e] == [e];
      assert Stream([e]) == Delivered(e) + Stream([e][1..]);
    } else {
      assert (es + [e])[1..] == es[1..] + [e];
      StreamAppend(es[1..], e);
    }
  }

  /**
   A stream that the parser decides about is answered at the first burst with which it can be decided, and the decision
   is the one for the whole stream, except that bytes behind an acceptable request are not looked at.
   */
  lemma {:induction false} DecidedAsSoonAsPossible(pending: Text, response: Response, es: seq<Event>) returns (k: nat)
    requires forall i | 0 <= i < |es| :: Harmless(es[i])
    requires ParseRequest(pending).Incomplete? && !ParseRequest(pending + Stream(es)).Incomplete?
    ensures k < |es|
    ensures Run(Open(false, pending, response), es[..k]) == (Open(false, pending + Stream(es[..k]), response), [])
    ensures Run(Open(false, pending, response), es[..k + 1]) ==
            Consider(pending + Stream(es[..k + 1]), response, es[k])
    ensures var first := ParseRequest(pending + Stream(es[..k + 1]));
            && !first.Incomplete?
            && (ParseRequest(pending + Stream(es)) == first || ParseRequest(pending + Stream(es)) == Extended(first))
    decreases |es|
  {
    hide ParseRequest, Harmless, Delivered, Stream, Run, Consider;
    NoStream();
    assert es != [] by {
      assert pending + [] == pending;
    }
    var n := |es| - 1;
    var init, last := es[..n], es[n];
    assert es == init + [last];
    StreamAppend(init, last);
    if ParseRequest(pending + Stream(init)).Incomplete? {
      k := n;
      assert es[..k + 1] == es;
      assert pending + Stream(es) == pending + Stream(init) + Delivered(last);
      assert Delivered(last) == [] ==> pending + Stream(es) == pending + Stream(init);
      WaitsWhileUndecided(pending, response, init);
      DecidedAtTheLastBurst(pending, response, init, last);
    } else {
      k := DecidedAsSoonAsPossible(pending, response, init);
      assert init[..k] == es[..k] && init[..k + 1] == es[..k + 1] && init[k] == es[k];
      LaterBytes(pending + Stream(init), Delivered(last));
      assert pending + Stream(es) == pending + Stream(init) + Delivered(last);
    }
  }

  lemma NoStream()
    ensures Stream([]) == []
  {
  }

  /** After a decision, bytes that follow leave it as it is, or spoil an acceptance. */
  lemma LaterBytes(b: Text, x: Text)
    requires !ParseRequest(b).Incomplete?
    ensures ParseRequest(b + x) == ParseRequest(b) || ParseRequest(b + x) == Extended(ParseRequest(b))
  {
    hide ParseRequest;
    if x == [] {
      assert b + x == b;
    } else {
      DecisionsAreFinal(b, x);
    }
  }

  /**
   However a request is cut into bursts and deliveries, the transaction is handed the request that parsing all the bytes
   at once gives, and connection and sent bytes end up the same. All that is assumed of the two transactions is that
   they treat this one request alike.
   */
  lemma ChunkingIsIrrelevant(
      pending: Text, response: Response, es: seq<Event>, last: Event, fs: seq<Event>, final: Event)
    requires (forall i | 0 <= i < |es| :: Harmless(es[i])) && Harmless(last) && Delivered(last) != []
    requires (forall i | 0 <= i < |fs| :: Harmless(fs[i])) && Harmless(final) && Delivered(final) != []
    requires Stream(es) + Delivered(last) == Stream(fs) + Delivered(final)
    requires ParseRequest(pending + (Stream(es) + Delivered(last))).Accepted?
    requires last.outgoing == final.outgoing
    requires var parsed := ParseRequest(pending + (Stream(es) + Delivered(last))).value;
             last.handler(parsed) == final.handler(parsed)
    ensures Run(Open(false, pending, response), es + [last]) == Run(Open(false, pending, response), fs + [final])
  {
    hide ParseRequest, Harmless, Delivered, Stream, SendPending, Run;
    assert pending + Stream(es) + Delivered(last) == pending + (Stream(es) + Delivered(last));
    assert pending + Stream(fs) + Delivered(final) == pending + (Stream(fs) + Delivered(final));
    AnsweredAtTheLastBurst(pending, response, es, last);
    AnsweredAtTheLastBurst(pending, response, fs, final);
  }

  // ---------------------------------------------------------------- sending

  /** A connection is writing only while something is left to write. */
  predicate Sane(c: Conn) {
    c.Open? && c.writing ==> c.pending != []
  }

  /** The bytes of rendered responses that have not been sent yet. */
  function Owed(c: Conn): Text {
    if c.Open? && c.writing then c.pending else []
  }

  /** The responses that a run renders, in order. */
  function RenderedIn(c: Conn, es: seq<Event>): seq<Response>
    decreases |es|
  {
    if es == [] then [] else RenderedAt(c, es[0]) + RenderedIn(Step(c, es[0]).0, es[1..])
  }

  function Bytes(rs: seq<Response>): Text {
    if rs == [] then [] else Rendered(rs[0]) + Bytes(rs[1..])
  }

  lemma {:induction false} BytesAppend(a: seq<Response>, b: seq<Response>)
    ensures Bytes(a + b) == Bytes(a) + Bytes(b)
  {
    hide Rendered;
    if a == [] {
      assert a + b == b;
    } else {
      assert (a + b)[1..] == a[1..] + b;
      BytesAppend(a[1..], b);
    }
  }

  lemma SendConserves(pending: Text, response: Response, outgoing: seq<Room>)
    requires pending != []
    ensures var (c, out) := SendPending(pending, response, outgoing);
            Sane(c) && out <= pending && (c.Open? ==> pending == out + Owed(c) && c.response == response)
  {
    DrainLeavesTheEnd(pending, outgoing);
  }

  lemma BytesOfOne(r: Response)
    ensures Bytes([r]) == Rendered(r) && Bytes([r]) != []
  {
    assert Bytes([r]) == Rendered(r) + Bytes([]);
  }

  lemma StepConserves(c: Conn, e: Event)
    requires Sane(c)
    ensures var (d, out) := Step(c, e);
            && Sane(d)
            && out <= Owed(c) + Bytes(RenderedAt(c, e))
            && (d.Open? ==> Owed(c) + Bytes(RenderedAt(c, e)) == out + Owed(d))
  {
    hide ParseRequest, Rendered, Answered, SendPending, BurstOf;
    if c.Open? && c.writing {
      SendConserves(c.pending, c.response, e.outgoing);
    } else if RenderedAt(c, e) != [] {
      var r := RenderedAt(c, e)[0];
      BytesOfOne(r);
      SendConserves(Rendered(r), r, e.outgoing);
    }
  }

  /**
   Over any run, the bytes sent and the bytes still owed are the bytes owed at first and those of every response that
   was rendered, in order: none is skipped, repeated or mixed up. A run that ends with a broken connection has sent the
   first part of them. And a connection is back to waiting exactly when nothing is owed.
   */
  lemma {:induction false} RunConserves(c: Conn, es: seq<Event>)
    requires Sane(c)
    ensures var (d, out) := Run(c, es);
            && Sane(d)
            && out <= Owed(c) + Bytes(RenderedIn(c, es))
            && (d.Open? ==> Owed(c) + Bytes(RenderedIn(c, es)) == out + Owed(d))
            && (d.Open? ==> (d.writing <==> Owed(d) != []))
    decreases |es|
  {
    hide Step, RenderedAt, Bytes;
    if es == [] {
      NoBytes();
    } else {
      var (d, out) := Step(c, es[0]);
      var (end, more) := Run(d, es[1..]);
      var now, later := RenderedAt(c, es[0]), RenderedIn(d, es[1..]);
      StepConserves(c, es[0]);
      RunConserves(d, es[1..]);
      BytesAppend(now, later);
      if d.Open? {
        Chain(Owed(c), Bytes(now), Bytes(later), out, Owed(d), more);
        if end.Open? {
          assert Owed(c) + (Bytes(now) + Bytes(later)) == out + (Owed(d) + Bytes(later)) == out + (more + Owed(end));
        }
      } else {
        StaysClosed(d, es[1..]);
        assert out + more == out;
        assert Owed(c) + (Bytes(now) + Bytes(later)) == (Owed(c) + Bytes(now)) + Bytes(later);
      }
    }
  }

  lemma NoBytes()
    ensures Bytes([]) == []
  {
  }

  lemma Chain(a: Text, now: Text, later: Text, out: Text, b: Text, more: Text)
    requires a + now == out + b && more <= b + later
    ensures out + more <= a + (now + later)
    ensures a + (now + later) == out + (b + later)
  {
    assert a + (now + later) == (a + now) + later == (out + b) + later == out + (b + later);
  }

  lemma {:induction false} StaysClosed(c: Conn, es: seq<Event>)
    requires !c.Open?
    ensures Run(c, es) == (c, []) && RenderedIn(c, es) == []
    decreases |es|
  {
    if es == [] {
    } else {
      StaysClosed(c, es[1..]);
      var none: Text := [];
      assert Step(c, es[0]) == (c, none) && none + none == none;
    }
  }

  // ---------------------------------------------------------------- the response object over a run

  /** Whatever request an event is asked to answer, its transaction does not set Content-Length by hand. */
  ghost predicate Unannounced(e: Event) {
    forall q :: LeavesContentLength(e.handler(q))
  }

  lemma AnswerKeepsAnnouncement(r: Response, outcome: Outcome<Request>, e: Event)
    requires BodyAnnounced(r) && Unannounced(e)
    ensures var s := Answered(r, outcome, e.handler);
            BodyAnnounced(s) && OnlyField(s.fields, CONTENT_LENGTH, Decimal(|s.body|))
  {
    hide BodyAnnounced, ApplyAll, Finalized, OnlyField;
    var cs := ConnectionSteps.Answer(outcome, e.handler);
    assert SERVER != CONTENT_LENGTH by {
      assert |SERVER| != |CONTENT_LENGTH|;
    }
    assert LeavesContentLength(cs);
    CallsKeepAnnouncement(r, cs);
    AnnouncedOnce(ApplyAll(r, cs));
    FinalizedBody(ApplyAll(r, cs));
  }

  /** The answer to an accepted request is the response that its transaction builds, with the Server header. */
  lemma AcceptedIsAnswered(r: Response, q: Request, handler: Handler)
    requires Sorted(r.fields)
    ensures var t := ApplyAll(r, handler(q));
            var s := Answered(r, Accepted(q), handler);
            && (s.code, s.description, s.body) == (t.code, t.description, t.body)
            && Lookup(s.fields, SERVER) == Some(SERVER_NAME)
            && forall name | name != SERVER && name != CONTENT_LENGTH ::
                 Lookup(s.fields, name) == Lookup(t.fields, name)
  {
    hide Lookup, Set, ApplyAll, Sorted;
    var t := ApplyAll(r, handler(q));
    ApplyOneMore(r, handler(q), Call.SetHeader(SERVER, SERVER_NAME));
    AllKeepSorted(r, handler(q));
    assert |SERVER| != |CONTENT_LENGTH|;
    var l := Set(t.fields, SERVER, SERVER_NAME);
    forall name: Text
      ensures Lookup(l, name) == if name == SERVER then Some(SERVER_NAME) else Lookup(t.fields, name)
      ensures Lookup(Set(l, CONTENT_LENGTH, ZERO), name) ==
              if name == CONTENT_LENGTH then Some(ZERO) else Lookup(l, name)
    {
      LookupAfterSet(t.fields, SERVER, SERVER_NAME, name);
      LookupAfterSet(l, CONTENT_LENGTH, ZERO, name);
    }
  }

  lemma {:induction false} AllKeepSorted(r: Response, cs: seq<Call>)
    requires Sorted(r.fields)
    ensures Sorted(ApplyAll(r, cs).fields)
    decreases |cs|
  {
    hide Sorted, Set;
    if cs == [] {
    } else {
      match cs[0] {
        case SetCode(_, _) =>
        case SetHeader(key, value) => SetKeepsSorted(r.fields, key, value);
        case SetBody(body) => SetKeepsSorted(r.fields, CONTENT_LENGTH, Decimal(|body|));
        case Render => SetKeepsSorted(r.fields, CONTENT_LENGTH, ZERO);
      }
      AllKeepSorted(Apply(r, cs[0]), cs[1..]);
    }
  }

  /** A 400 repeats the body that the response object holds: it is empty if and only if that one is. */
  lemma RejectionsRepeatTheBody(r: Response, outcome: Outcome<Request>, handler: Handler)
    requires !outcome.Accepted?
    ensures var s := Answered(r, outcome, handler);
            && s.code == BAD_REQUEST && s.description == Ascii("Bad Request")
            && s.body == r.body
            && (s.body == [] <==> r.body == [])
  {
    hide Finalized;
    var bad, server := Call.SetCode(BAD_REQUEST, None), Call.SetHeader(SERVER, SERVER_NAME);
    assert ConnectionSteps.Answer(outcome, handler) == [bad] + [server];
    ApplyOneMore(r, [bad], server);
    assert [bad][1..] == [] && ApplyAll(r, [bad]) == Apply(r, bad);
    FinalizedBody(Apply(Apply(r, bad), server));
  }

  lemma FinalizedBody(r: Response)
    ensures Finalized(r).body == r.body && Finalized(r).code == r.code && Finalized(r).description == r.description
  {
  }

  lemma StepKeepsAnnouncement(c: Conn, e: Event)
    requires (c.Open? ==> BodyAnnounced(c.response)) && Unannounced(e)
    ensures Step(c, e).0.Open? ==> BodyAnnounced(Step(c, e).0.response)
    ensures forall r | r in RenderedAt(c, e) :: OnlyField(r.fields, CONTENT_LENGTH, Decimal(|r.body|))
  {
    hide ParseRequest, Rendered, Answered, BurstOf, DrainOf, BodyAnnounced, OnlyField, Unannounced;
    if c.Open? {
      AnswerKeepsAnnouncement(c.response, ParseRequest(c.pending + Delivered(e)), e);
    }
  }

  /**
   Every response of a run, although they share one response object that is never cleared, carries exactly one
   Content-Length, and that is the length of the body that it carries itself, be it one that was set for an earlier
   response.
   */
  lemma {:induction false} EveryResponseIsAnnounced(c: Conn, es: seq<Event>)
    requires (c.Open? ==> BodyAnnounced(c.response)) && forall i | 0 <= i < |es| :: Unannounced(es[i])
    ensures forall r | r in RenderedIn(c, es) :: OnlyField(r.fields, CONTENT_LENGTH, Decimal(|r.body|))
    decreases |es|
  {
    hide Step, RenderedAt, BodyAnnounced, OnlyField, Unannounced;
    if es == [] {
    } else {
      StepKeepsAnnouncement(c, es[0]);
      EveryResponseIsAnnounced(Step(c, es[0]).0, es[1..]);
    }
  }
}
