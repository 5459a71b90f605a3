/** Several requests on one connection, one after the other: what is sent are the answers to their one-shot parses. */
module Conversations {
  import opened CStrings
  import opened RequestSyntax
  import opened PrefixTheorem
  import opened ResponseSyntax
  import opened Transport
  import opened ConnectionSteps
  import opened ConnectionRuns
  import opened StepOutcomes

  /** The events of one request: before its last burst, the one with its last burst, and those that drain the answer. */
  datatype Exchange = Exchange(before: seq<Event>, last: Event, draining: seq<Event>)

  /** The bytes of the request. */
  function Arriving(x: Exchange): Text {
    Stream(x.before) + Delivered(x.last)
  }

  /**
   The request is settled by its last burst and not before, accepted or not. For an acceptable one that is no condition
   on how it is cut.
   */
  predicate Settled(x: Exchange) {
    && (forall i | 0 <= i < |x.before| :: Harmless(x.before[i]))
    && Harmless(x.last)
    && Delivered(x.last) != []
    && !ParseRequest(Arriving(x)).Incomplete?
    && (ParseRequest(Arriving(x)).Accepted? || ParseRequest(Stream(x.before)).Incomplete?)
  }

  /** The response to the request, rendered for a response object that holds `r`. */
  function Reply(r: Response, x: Exchange): Response {
    Answered(r, ParseRequest(Arriving(x)), x.last.handler)
  }

  /** Nothing arrives in any of the events. */
  predicate Quiet(es: seq<Event>) {
    forall i | 0 <= i < |es| :: Harmless(es[i]) && Delivered(es[i]) == []
  }

  /** The sends that an event offers to a connection that is writing. */
  function Offered(e: Event): seq<Room> {
    if e.writable then e.outgoing else []
  }

  /**
   The sends of this script and then of the events take `n` bytes together, without an error before that, and nothing
   arrives behind that. What arrives before that is not read.
   */
  ghost predicate Drains(n: nat, script: seq<Room>, es: seq<Event>)
    decreases |es|
  {
    if Suffices(script, n) then Quiet(es)
    else
      exists k: nat ::
        && TakesFirst(script, k)
        && (k < |script| ==> script[k].NoRoom?)
        && Total(script[..k]) < n
        && es != []
        && Drains(n - Total(script[..k]), Offered(es[0]), es[1..])
  }

  /** The sends that the peer allows suffice for the answer, in whatever pieces, before anything else arrives. */
  ghost predicate Drained(r: Response, x: Exchange) {
    Drains(|Rendered(Reply(r, x))|, x.last.outgoing, x.draining)
  }

  /** Every request is settled and its answer drained, from a response object that holds `r` on. */
  ghost predicate Conversation(r: Response, xs: seq<Exchange>)
    decreases |xs|
  {
    xs == [] || (Settled(xs[0]) && Drained(r, xs[0]) && Conversation(Reply(r, xs[0]), xs[1..]))
  }

  function Events(xs: seq<Exchange>): seq<Event> {
    if xs == [] then [] else (xs[0].before + [xs[0].last] + xs[0].draining) + Events(xs[1..])
  }

  /** The answers to the requests, in order. The response object passes from each one to the next. */
  function Replies(r: Response, xs: seq<Exchange>): seq<Response>
    decreases |xs|
  {
    if xs == [] then [] else [Reply(r, xs[0])] + Replies(Reply(r, xs[0]), xs[1..])
  }

  lemma {:induction false} RunSplits(c: Conn, es: seq<Event>, fs: seq<Event>)
    ensures Run(c, es + fs) == (Run(Run(c, es).0, fs).0, Run(c, es).1 + Run(Run(c, es).0, fs).1)
    decreases |es|
  {
    hide Step;
    if es == [] {
      assert es + fs == fs;
      assert [] + Run(c, fs).1 == Run(c, fs).1;
    } else {
      var (d, out) := Step(c, es[0]);
      assert (es + fs)[1..] == es[1..] + fs;
      RunSplits(d, es[1..], fs);
      var (e, more) := Run(d, es[1..]);
      assert out + (more + Run(e, fs).1) == (out + more) + Run(e, fs).1;
    }
  }

  lemma {:induction false} QuietChangesNothing(response: Response, es: seq<Event>)
    requires Quiet(es)
    ensures Run(Open(false, [], response), es) == (Open(false, [], response), [])
    decreases |es|
  {
    hide Step, Harmless, Delivered;
    if es == [] {
    } else {
      StepWaiting([], response, es[0]);
      QuietChangesNothing(response, es[1..]);
      var none: Text := [];
      assert none + none == none;
    }
  }

  lemma NothingOffered(pending: Text, response: Response, e: Event)
    requires pending != []
    ensures Step(Open(true, pending, response), e) == SendPending(pending, response, Offered(e))
  {
    hide Rendered;
    assert pending[..0] == [];
  }

  /** Sends that suffice for what there is to write do write it, and the connection waits again. */
  lemma {:induction false} DrainsAll(pending: Text, response: Response, script: seq<Room>, es: seq<Event>)
    requires pending != [] && Drains(|pending|, script, es)
    ensures var (c, out) := SendPending(pending, response, script);
            Run(c, es).0 == Open(false, [], response) && out + Run(c, es).1 == pending
    decreases |es|
  {
    hide Step, SendPending, Suffices, Total, Quiet;
    if Suffices(script, |pending|) {
      SendsAllIff(pending, response, script);
      QuietChangesNothing(response, es);
      assert pending + [] == pending;
    } else {
      var k: nat :| && TakesFirst(script, k) && (k < |script| ==> script[k].NoRoom?) && Total(script[..k]) < |pending|
                    && Drains(|pending| - Total(script[..k]), Offered(es[0]), es[1..]);
      var n := Total(script[..k]);
      var rest := pending[n..];
      SendsExactly(pending, response, script, k);
      NothingOffered(rest, response, es[0]);
      DrainsAll(rest, response, Offered(es[0]), es[1..]);
      var (d, more) := Step(Open(true, rest, response), es[0]);
      assert pending == pending[..n] + rest;
      assert pending[..n] + (more + Run(d, es[1..]).1) == pending[..n] + rest;
    }
  }

  /** One exchange: the answer to the one-shot parse is sent, all of it and nothing else, and the connection waits. */
  lemma ExchangeAnswers(r: Response, x: Exchange)
    requires Settled(x) && Drained(r, x)
    ensures Run(Open(false, [], r), x.before + [x.last] + x.draining) ==
            (Open(false, [], Reply(r, x)), Rendered(Reply(r, x)))
  {
    hide ParseRequest, Harmless, Delivered, Stream, Run, Answered, Rendered, SendPending, Drains;
    var start, s := Open(false, [], r), Reply(r, x);
    assert [] + Stream(x.before) == Stream(x.before);
    if ParseRequest(Arriving(x)).Accepted? {
      AcceptedPrefix(Stream(x.before), Delivered(x.last));
    }
    DecidedAtTheLastBurst([], r, x.before, x.last);
    RenderedHasBytes(s);
    DrainsAll(Rendered(s), s, x.last.outgoing, x.draining);
    RunSplits(start, x.before + [x.last], x.draining);
  }

  /**
   However the requests are cut into bursts and their answers into pieces, when each arrives after the answer to the one
   before it, the bytes sent are the renderings of the answers to their one-shot parses, in order, and nothing else; and
   in the end the connection waits, with nothing buffered.
   */
  lemma {:induction false} ConversationAnswers(r: Response, xs: seq<Exchange>)
    requires Conversation(r, xs)
    ensures var replies := Replies(r, xs);
            Run(Open(false, [], r), Events(xs)) ==
            (Open(false, [], if xs == [] then r else replies[|replies| - 1]), Bytes(replies))
    decreases |xs|
  {
    hide Run, Reply, Settled, Drained, Rendered;
    if xs == [] {
      RunOfNothing(Open(false, [], r));
    } else {
      var x, rest := xs[0], xs[1..];
      var s := Reply(r, x);
      ExchangeAnswers(r, x);
      ConversationAnswers(s, rest);
      RunSplits(Open(false, [], r), x.before + [x.last] + x.draining, Events(rest));
      assert Replies(r, xs)[1..] == Replies(s, rest);
    }
  }

  lemma RunOfNothing(c: Conn)
    ensures Run(c, []) == (c, [])
  {
  }
}
