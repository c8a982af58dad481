/**
 The query-flooding protocol of a share node, as values: the fault codes, the
 outcome of a remote call, and what one flood and one query do to the peer set
 and which remote calls they issue.
 */
module Protocol {

  const MAX_HISTORY_LENGTH := 6
  const UNHANDLED := 100
  const ACCESS_DENIED := 200

  /** What a node's `query`, `_handle` and `fetch` produce: a value, or one of
      the two faults they raise (UnhandledQuery, AccessDenied). */
  datatype Outcome<T> = Ok(value: T) | Unhandled | AccessDenied {

    /** The same fault, for a caller that produces another kind of value. */
    function Reraise<U>(): Outcome<U>
      requires !Ok?
    {
      if Unhandled? then Unhandled else AccessDenied
    }

    /** The XML-RPC fault code the failure is raised with. */
    function FaultCode(): int
      requires !Ok?
    {
      if Unhandled? then UNHANDLED else ACCESS_DENIED
    }
  }

  /** What a remote `query` call gives back to the caller: the content, an
      XML-RPC fault with its code, or any other exception (connection refused,
      protocol error, ...). */
  datatype Reply = Returned(content: string) | Fault(code: int) | TransportError

  /** The peers as seen from one node: the reply of `ServerProxy(peer).query(query, history)`. */
  type Network = (string, string, seq<string>) -> Reply

  /** One remote `query` call issued during a flood. */
  datatype Call = Call(peer: string, query: string, history: seq<string>)

  /** The result of a flood or a query, the node's peer set afterwards, and the
      remote calls it issued, in order. */
  datatype Flooded = Flooded(result: Outcome<string>, known: set<string>, calls: seq<Call>)

  /** A node answering a query over XML-RPC: a fault travels as its code. */
  function AsReply(o: Outcome<string>): (reply: Reply)
    ensures reply.Returned? <==> o.Ok?
    ensures reply == Fault(UNHANDLED) <==> o.Unhandled?
    ensures reply == Fault(ACCESS_DENIED) <==> o.AccessDenied?
    ensures Evicts(reply) <==> o.AccessDenied?
  {
    match o
    case Ok(content) => Returned(content)
    case _ => Fault(o.FaultCode())
  }

  /** A reply that makes the flooding node drop the peer: anything other than
      content or the UNHANDLED fault. */
  predicate Evicts(reply: Reply) {
    reply.TransportError? || (reply.Fault? && reply.code != UNHANDLED)
  }

  /** `order` lists the elements of `s` once each: the iteration order of
      `s.copy()`, which Python leaves unspecified. */
  predicate Enumerates(order: seq<string>, s: set<string>) {
    (forall i, j :: 0 <= i < j < |order| ==> order[i] != order[j]) &&
    (forall p :: p in s ==> p in order) &&
    (forall i :: 0 <= i < |order| ==> order[i] in s)
  }

  /** The peers of `order` a flood with this history may contact, in order. */
  function Candidates(order: seq<string>, history: seq<string>): (c: seq<string>)
    ensures forall i :: 0 <= i < |c| ==> c[i] in order && c[i] !in history
  {
    if order == [] then []
    else if order[0] in history then Candidates(order[1..], history)
    else [order[0]] + Candidates(order[1..], history)
  }

  function Peers(calls: seq<Call>): (peers: seq<string>)
    ensures |peers| == |calls|
  {
    if calls == [] then [] else [calls[0].peer] + Peers(calls[1..])
  }

  /** `_broadcast`: ask the peers of the snapshot `order` in turn, skipping
      those already in the history; the first content returned wins; a peer
      replying UNHANDLED is kept, any other failure evicts it; when no peer
      answers the flood is unhandled. */
  function Flood(order: seq<string>, known: set<string>, query: string, history: seq<string>, net: Network): Flooded
    decreases |order|
  {
    if order == [] then Flooded(Unhandled, known, [])
    else
      var other := order[0];
      if other in history then Flood(order[1..], known, query, history, net)
      else
        var reply := net(other, query, history);
        var call := Call(other, query, history);
        if reply.Returned? then Flooded(Ok(reply.content), known, [call])
        else
          var rest := Flood(order[1..], if Evicts(reply) then known - {other} else known, query, history, net);
          Flooded(rest.result, rest.known, [call] + rest.calls)
  }

  /** `query`: the local answer when there is one (content or AccessDenied);
      on a local miss the history is extended by this node's url, and the
      query is flooded unless that reaches MAX_HISTORY_LENGTH. */
  function Respond(local: Outcome<string>, url: string, known: set<string>, order: seq<string>,
                   query: string, history: seq<string>, net: Network): Flooded
  {
    if !local.Unhandled? then Flooded(local, known, [])
    else
      var forwarded := history + [url];
      if |forwarded| >= MAX_HISTORY_LENGTH then Flooded(Unhandled, known, [])
      else Flood(order, known, query, forwarded, net)
  }

  // ---------------------------------------------------------------------
  // Properties of a flood

  /** One step of a flood that has reached position `i` of the snapshot. */
  lemma FloodStep(order: seq<string>, i: nat, known: set<string>, query: string, history: seq<string>, net: Network)
    requires i < |order|
    ensures var other, reply := order[i], net(order[i], query, history);
      var call := Call(other, query, history);
      var rest := Flood(order[i + 1..], if Evicts(reply) then known - {other} else known, query, history, net);
      Flood(order[i..], known, query, history, net) ==
        if other in history then Flood(order[i + 1..], known, query, history, net)
        else if reply.Returned? then Flooded(Ok(reply.content), known, [call])
        else Flooded(rest.result, rest.known, [call] + rest.calls)
  {
    assert order[i..][0] == order[i] && order[i..][1..] == order[i + 1..];
  }
  /** A flood that has issued `calls` and now asks a peer that does not
      return content: the outcome is the rest of the flood, with the peer
      evicted when its reply says so and its call appended. */
  lemma FloodAdvance(order: seq<string>, i: nat, known: set<string>, query: string, history: seq<string>, net: Network,
                     calls: seq<Call>, total: Flooded)
    requires i < |order| && order[i] !in history && !net(order[i], query, history).Returned?
    requires var rest := Flood(order[i..], known, query, history, net);
      total == Flooded(rest.result, rest.known, calls + rest.calls)
    ensures var other, reply := order[i], net(order[i], query, history);
      var rest := Flood(order[i + 1..], if Evicts(reply) then known - {other} else known, query, history, net);
      total == Flooded(rest.result, rest.known, (calls + [Call(other, query, history)]) + rest.calls)
  {
    FloodStep(order, i, known, query, history, net);
    var other, reply := order[i], net(order[i], query, history);
    var rest := Flood(order[i + 1..], if Evicts(reply) then known - {other} else known, query, history, net);
    assert (calls + [Call(other, query, history)]) + rest.calls == calls + ([Call(other, query, history)] + rest.calls);
  }


  lemma PeersOfCons(c: Call, cs: seq<Call>)
    ensures Peers([c] + cs) == [c.peer] + Peers(cs)
  {
    assert ([c] + cs)[1..] == cs;
  }

  /** Every remote call of a flood carries the query and the history it was
      given, and the peers called are the first few candidates, in order: a
      peer in the history is never called. */
  lemma {:induction false} FloodCalls(order: seq<string>, known: set<string>, query: string, history: seq<string>, net: Network)
    ensures var o := Flood(order, known, query, history, net);
      (forall i :: 0 <= i < |o.calls| ==> o.calls[i].query == query && o.calls[i].history == history) &&
      Peers(o.calls) <= Candidates(order, history)
    decreases |order|
  {
    if order != [] {
      var other := order[0];
      var reply := net(other, query, history);
      var call := Call(other, query, history);
      if other in history {
        FloodCalls(order[1..], known, query, history, net);
      } else if !reply.Returned? {
        var known' := if Evicts(reply) then known - {other} else known;
        var rest := Flood(order[1..], known', query, history, net);
        FloodCalls(order[1..], known', query, history, net);
        PeersOfCons(call, rest.calls);
        var all := [call] + rest.calls;
        forall i | 0 <= i < |all| ensures all[i].query == query && all[i].history == history {
          if i > 0 { assert all[i] == rest.calls[i - 1]; }
        }
      }
    }
  }

  /** The first content returned ends the flood: every called peer but the
      last failed, and the result is the last peer's content; an unhandled
      flood called every candidate and none of them answered. A flood never
      ends in AccessDenied. */
  lemma {:induction false} FloodFirstSuccess(order: seq<string>, known: set<string>, query: string, history: seq<string>, net: Network)
    ensures var o := Flood(order, known, query, history, net);
      var ps := Peers(o.calls);
      (forall i :: 0 <= i < |ps| - 1 ==> !net(ps[i], query, history).Returned?) &&
      (o.result.Ok? ==> ps != [] && net(ps[|ps| - 1], query, history) == Returned(o.result.value)) &&
      (!o.result.Ok? ==> o.result == Unhandled && ps == Candidates(order, history) &&
                         forall i :: 0 <= i < |ps| ==> !net(ps[i], query, history).Returned?)
    decreases |order|
  {
    if order != [] {
      var other := order[0];
      var reply := net(other, query, history);
      var call := Call(other, query, history);
      if other in history {
        FloodFirstSuccess(order[1..], known, query, history, net);
      } else if reply.Returned? {
        PeersOfCons(call, []);
      } else {
        var known' := if Evicts(reply) then known - {other} else known;
        var rest := Flood(order[1..], known', query, history, net);
        FloodFirstSuccess(order[1..], known', query, history, net);
        PeersOfCons(call, rest.calls);
        var ps, tail := [other] + Peers(rest.calls), Peers(rest.calls);
        forall i | 0 <= i < |ps| ensures i == 0 || ps[i] == tail[i - 1] {
        }
      }
    }
  }

  /** A flood succeeds exactly when some candidate peer returns content. */
  lemma {:induction false} FloodSucceedsIff(order: seq<string>, known: set<string>, query: string, history: seq<string>, net: Network)
    ensures Flood(order, known, query, history, net).result.Ok? <==>
            exists p :: p in Candidates(order, history) && net(p, query, history).Returned?
  {
    var o := Flood(order, known, query, history, net);
    var ps, cs := Peers(o.calls), Candidates(order, history);
    FloodCalls(order, known, query, history, net);
    FloodFirstSuccess(order, known, query, history, net);
    if o.result.Ok? {
      assert ps[|ps| - 1] == cs[|ps| - 1];
    } else {
      forall p | p in cs ensures !net(p, query, history).Returned? {
        var i :| 0 <= i < |cs| && cs[i] == p;
        assert ps[i] == p;
      }
    }
  }

  /** After a flood the peer set is the old one minus exactly the peers that
      were called and replied with something other than content or UNHANDLED:
      no peer is added, skipped and uncalled peers are untouched. */
  lemma {:induction false} FloodEvictions(order: seq<string>, known: set<string>, query: string, history: seq<string>, net: Network)
    ensures var o := Flood(order, known, query, history, net);
      forall p :: p in o.known <==> p in known && !(p in Peers(o.calls) && Evicts(net(p, query, history)))
    decreases |order|
  {
    if order != [] {
      var other := order[0];
      var reply := net(other, query, history);
      var call := Call(other, query, history);
      if other in history {
        FloodEvictions(order[1..], known, query, history, net);
      } else if reply.Returned? {
        PeersOfCons(call, []);
      } else {
        var known' := if Evicts(reply) then known - {other} else known;
        var rest := Flood(order[1..], known', query, history, net);
        FloodEvictions(order[1..], known', query, history, net);
        PeersOfCons(call, rest.calls);
      }
    }
  }

  // ---------------------------------------------------------------------
  // Properties of a query

  /** A query forwards only with the incoming history extended by this node's
      url, so strictly longer and still below MAX_HISTORY_LENGTH; it never calls
      itself nor a node already in the incoming history. */
  lemma Forwarding(local: Outcome<string>, url: string, known: set<string>, order: seq<string>,
                   query: string, history: seq<string>, net: Network)
    ensures var o := Respond(local, url, known, order, query, history, net);
      forall i :: 0 <= i < |o.calls| ==>
        var c := o.calls[i];
        c.query == query && c.history == history + [url] &&
        |c.history| < MAX_HISTORY_LENGTH && c.peer != url && c.peer !in history
  {
    var o := Respond(local, url, known, order, query, history, net);
    if local.Unhandled? && |history + [url]| < MAX_HISTORY_LENGTH {
      var forwarded := history + [url];
      FloodCalls(order, known, query, forwarded, net);
      var ps, cs := Peers(o.calls), Candidates(order, forwarded);
      forall i | 0 <= i < |o.calls| ensures o.calls[i].peer !in forwarded {
        PeersAt(o.calls, i);
        assert ps[i] == cs[i];
      }
    }
  }

  lemma {:induction false} PeersAt(calls: seq<Call>, i: nat)
    requires i < |calls|
    ensures Peers(calls)[i] == calls[i].peer
  {
    if i > 0 { PeersAt(calls[1..], i - 1); }
  }

  /** A local answer (content or AccessDenied) is the query's answer, with no
      remote call and no change to the peers. AccessDenied comes only from the
      local check: a query ends in AccessDenied exactly when its local handling
      does, and content that did not come from the local directory is the
      reply of the last peer called. */
  lemma QueryFaults(local: Outcome<string>, url: string, known: set<string>, order: seq<string>,
                    query: string, history: seq<string>, net: Network)
    ensures var o := Respond(local, url, known, order, query, history, net);
      (!local.Unhandled? ==> o == Flooded(local, known, [])) &&
      (o.result.AccessDenied? <==> local.AccessDenied?) &&
      (o.result.Ok? && !local.Ok? ==>
         o.calls != [] && net(o.calls[|o.calls| - 1].peer, query, history + [url]) == Returned(o.result.value))
  {
    var o := Respond(local, url, known, order, query, history, net);
    if local.Unhandled? && |history + [url]| < MAX_HISTORY_LENGTH {
      FloodFirstSuccess(order, known, query, history + [url], net);
      if o.result.Ok? {
        PeersAt(o.calls, |o.calls| - 1);
      }
    }
  }

  /** The hop limit: a node that cannot answer locally and receives a history
      of MAX_HISTORY_LENGTH - 1 or more urls contacts nobody and answers
      UNHANDLED; otherwise every peer the query reaches is called with a
      history one longer than the one received. */
  lemma HopLimit(local: Outcome<string>, url: string, known: set<string>, order: seq<string>,
                 query: string, history: seq<string>, net: Network)
    requires local.Unhandled?
    ensures var o := Respond(local, url, known, order, query, history, net);
      (|history| >= MAX_HISTORY_LENGTH - 1 ==> o == Flooded(Unhandled, known, [])) &&
      (forall i :: 0 <= i < |o.calls| ==> |o.calls[i].history| == |history| + 1 <= MAX_HISTORY_LENGTH - 1)
  {
    Forwarding(local, url, known, order, query, history, net);
  }
}
