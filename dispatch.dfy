/** The socket-mode dispatch loop: inbound items are pulled one at a time from
    the websocket, events_api envelopes are acknowledged on the same socket,
    a disconnect request or a frame that fails to decode ends the loop, and
    everything else is logged and skipped. */
module Dispatch {
  import opened Messages

  /** A websocket frame as the transport delivers it. A text frame is given
      with the outcome of decoding its text as a socket-mode message. */
  datatype Frame =
    | Text(message: SocketModeMessage)
    | Ping(data: seq<bv8>)
    | OtherFrame            // binary, pong, close and raw frames

  /** One item of the inbound stream: a frame, or a websocket-level error. */
  datatype Inbound = Received(frame: Frame) | DecodeError

  /** How the loop ended. */
  datatype Ending =
    | StreamEnded               // the stream yielded no more items
    | Disconnected(reason: string)
    | DecodeFailed              // the process panics on the undecodable item

  /** What the loop did: the acknowledgements it sent, in order, how it ended,
      and how many inbound items it pulled from the stream. */
  datatype Outcome = Outcome(outbox: seq<AckMessage>, ending: Ending, consumed: nat)

  /** The reaction to one inbound item. */
  datatype Reaction = Reply(ack: AckMessage) | Ignore | Stop(ending: Ending)

  /** Items that end the loop. */
  predicate Terminates(item: Inbound) {
    item.DecodeError? || (item.Received? && item.frame.Text? && item.frame.message.Disconnect?)
  }

  /** Items carrying an events_api envelope. */
  predicate IsEvent(item: Inbound) {
    item.Received? && item.frame.Text? && item.frame.message.EventsApi?
  }

  /** The reaction to one inbound item, as the match in the loop body does it. */
  function React(item: Inbound): (r: Reaction)
    ensures r.Stop? <==> Terminates(item)
    ensures r.Reply? <==> IsEvent(item)
    ensures r.Reply? ==> r.ack == AckFor(item.frame.message.envelopeId)
    ensures r.Stop? && item.DecodeError? ==> r.ending == DecodeFailed
    ensures r.Stop? && item.Received? ==> r.ending == Disconnected(item.frame.message.reason)
  {
    match item
    case DecodeError => Stop(DecodeFailed)
    case Received(frame) =>
      match frame
      case Text(Hello) => Ignore
      case Text(Disconnect(reason)) => Stop(Disconnected(reason))
      case Text(EventsApi(envelopeId)) => Reply(AckFor(envelopeId))
      case Text(Unrecognized) => Ignore
      case Ping(_) => Ignore
      case OtherFrame => Ignore
  }

  /** The whole session over a finite inbound stream, item by item. */
  function Session(items: seq<Inbound>): (r: Outcome)
    ensures r.consumed <= |items|
    ensures r.ending == StreamEnded <==> r.consumed == |items| && (items == [] || !Terminates(items[|items| - 1]))
    ensures r.ending != StreamEnded ==> r.consumed >= 1 && Terminates(items[r.consumed - 1])
    decreases |items|
  {
    if items == [] then Outcome([], StreamEnded, 0)
    else
      match React(items[0])
      case Stop(ending) => Outcome([], ending, 1)
      case Ignore =>
        var rest := Session(items[1..]);
        rest.(consumed := rest.consumed + 1)
      case Reply(ack) =>
        var rest := Session(items[1..]);
        Outcome([ack] + rest.outbox, rest.ending, rest.consumed + 1)
  }

  // ---------------------------------------------------------------------
  // Reference definitions, independent of the loop's step-by-step shape
  // ---------------------------------------------------------------------

  /** The position of the first item that ends the loop, or |items| if none. */
  function StopIndex(items: seq<Inbound>): (k: nat)
    ensures k <= |items|
    ensures forall i :: 0 <= i < k ==> !Terminates(items[i])
    ensures k < |items| ==> Terminates(items[k])
  {
    if items == [] || Terminates(items[0]) then 0 else 1 + StopIndex(items[1..])
  }

  /** The envelope identifiers of the events_api items, in stream order. */
  function EventIds(items: seq<Inbound>): seq<string> {
    if items == [] then []
    else (if IsEvent(items[0]) then [items[0].frame.message.envelopeId] else []) + EventIds(items[1..])
  }

  /** How a loop stopped by `item` ends. */
  function EndingAt(item: Inbound): Ending
    requires Terminates(item)
  {
    if item.DecodeError? then DecodeFailed else Disconnected(item.frame.message.reason)
  }

  /** The outbox holds exactly one acknowledgement per identifier in `ids`,
      in the same order, each echoing its identifier with no payload. */
  predicate AcksFor(outbox: seq<AckMessage>, ids: seq<string>) {
    |outbox| == |ids| && forall j :: 0 <= j < |ids| ==> outbox[j] == AckMessage(ids[j], None)
  }

  lemma EventIdsOfCons(items: seq<Inbound>)
    requires items != []
    ensures EventIds(items) == (if IsEvent(items[0]) then [items[0].frame.message.envelopeId] else []) + EventIds(items[1..])
  {
  }

  /** The session, characterised without stepping: it acknowledges exactly the
      events_api items before the first terminating item, in order, and ends
      at that item, or at the end of the stream when there is none. */
  lemma {:induction false} SessionReference(items: seq<Inbound>)
    ensures var k := StopIndex(items);
      var r := Session(items);
      AcksFor(r.outbox, EventIds(items[..k]))
      && (k == |items| ==> r.ending == StreamEnded && r.consumed == |items|)
      && (k < |items| ==> r.ending == EndingAt(items[k]) && r.consumed == k + 1)
  {
    if items != [] {
      var k := StopIndex(items);
      if Terminates(items[0]) {
        assert k == 0 && items[..k] == [];
      } else {
        var tail := items[1..];
        SessionReference(tail);
        assert k == 1 + StopIndex(tail);
        assert items[..k][1..] == tail[..k - 1];
        assert items[..k][0] == items[0];
        EventIdsOfCons(items[..k]);
        if k < |items| {
          assert items[k] == tail[k - 1];
        }
      }
    }
  }

  /** A terminating item with none before it is where the loop stops. */
  lemma FirstStopAt(items: seq<Inbound>, k: nat)
    requires k < |items| && Terminates(items[k])
    requires forall i :: 0 <= i < k ==> !Terminates(items[i])
    ensures StopIndex(items) == k
  {
  }

  // ---------------------------------------------------------------------
  // Properties of the session
  // ---------------------------------------------------------------------

  /** Every acknowledgement in the outbox answers an events_api item that was
      pulled from the stream, in the same order, with its identifier and no
      payload; nothing is reordered. */
  lemma AcksMatchEvents(items: seq<Inbound>)
    ensures var r := Session(items);
      AcksFor(r.outbox, EventIds(items[..StopIndex(items)]))
  {
    SessionReference(items);
  }

  /** Without a disconnect request or a decode error the loop consumes the
      whole stream, ends with it, and sends one acknowledgement per
      events_api item. */
  lemma CompleteRun(items: seq<Inbound>)
    requires forall i :: 0 <= i < |items| ==> !Terminates(items[i])
    ensures var r := Session(items);
      r.ending == StreamEnded && r.consumed == |items| && AcksFor(r.outbox, EventIds(items))
  {
    SessionReference(items);
    assert items[..|items|] == items;
  }

  /** The first disconnect request ends the loop right there: the items after
      it are never examined, so no later envelope is acknowledged. */
  lemma DisconnectStops(items: seq<Inbound>, k: nat, reason: string)
    requires k < |items| && items[k] == Received(Text(Disconnect(reason)))
    requires forall i :: 0 <= i < k ==> !Terminates(items[i])
    ensures var r := Session(items);
      r.ending == Disconnected(reason) && r.consumed == k + 1 && AcksFor(r.outbox, EventIds(items[..k]))
  {
    FirstStopAt(items, k);
    SessionReference(items);
  }

  /** A frame that fails to decode aborts the session at that point: the
      acknowledgements already sent stay sent and nothing later is processed. */
  lemma DecodeErrorAborts(items: seq<Inbound>, k: nat)
    requires k < |items| && items[k] == DecodeError
    requires forall i :: 0 <= i < k ==> !Terminates(items[i])
    ensures var r := Session(items);
      r.ending == DecodeFailed && r.consumed == k + 1 && AcksFor(r.outbox, EventIds(items[..k]))
  {
    FirstStopAt(items, k);
    SessionReference(items);
  }

  /** Once the session has stopped on a prefix, whatever the stream holds
      after it changes nothing. */
  lemma {:induction false} StoppedIgnoresSuffix(p: seq<Inbound>, q: seq<Inbound>)
    requires Session(p).ending != StreamEnded
    ensures Session(p + q) == Session(p)
  {
    assert p != [];
    assert (p + q)[0] == p[0];
    if !Terminates(p[0]) {
      assert (p + q)[1..] == p[1..] + q;
      StoppedIgnoresSuffix(p[1..], q);
    }
  }

  /** A stream that runs through a stretch with no terminating item behaves
      as that stretch followed by the rest: the outboxes concatenate. */
  lemma {:induction false} SessionAppend(p: seq<Inbound>, q: seq<Inbound>)
    requires forall i :: 0 <= i < |p| ==> !Terminates(p[i])
    ensures Session(p + q)
      == Outcome(Session(p).outbox + Session(q).outbox, Session(q).ending, |p| + Session(q).consumed)
  {
    if p == [] {
      assert p + q == q;
    } else {
      assert (p + q)[0] == p[0];
      assert (p + q)[1..] == p[1..] + q;
      SessionAppend(p[1..], q);
    }
  }

  /** Hello, an unrecognised text frame, a ping and any other frame leave the
      outbox unchanged and do not end the loop: the session continues with
      the next item exactly as if the frame had not been there. */
  lemma QuietFrames(f: Frame, rest: seq<Inbound>)
    requires f == Text(Hello) || f == Text(Unrecognized) || f.Ping? || f == OtherFrame
    ensures var r := Session([Received(f)] + rest);
      var s := Session(rest);
      r.outbox == s.outbox && r.ending == s.ending && r.consumed == s.consumed + 1
  {
    assert ([Received(f)] + rest)[1..] == rest;
  }

  /** An events_api frame with envelope id E adds exactly one acknowledgement,
      for E with no payload, in front of whatever the rest of the stream
      produces. */
  lemma EventAcknowledged(envelopeId: string, rest: seq<Inbound>)
    ensures var r := Session([Received(Text(EventsApi(envelopeId)))] + rest);
      var s := Session(rest);
      r.outbox == [AckMessage(envelopeId, None)] + s.outbox && r.ending == s.ending && r.consumed == s.consumed + 1
  {
    assert ([Received(Text(EventsApi(envelopeId)))] + rest)[1..] == rest;
  }

  // ---------------------------------------------------------------------
  // The loop
  // ---------------------------------------------------------------------

  /** The `while let Some(m) = stream.next()` loop over a finite stream. The
      acknowledgements are appended to the outbox as they are sent. */
  method RunSession(items: seq<Inbound>) returns (outbox: seq<AckMessage>, ending: Ending, consumed: nat)
    ensures Outcome(outbox, ending, consumed) == Session(items)
    ensures AcksFor(outbox, EventIds(items[..StopIndex(items)]))
    ensures consumed == if StopIndex(items) < |items| then StopIndex(items) + 1 else |items|
  {
    outbox, ending, consumed := [], StreamEnded, 0;
    while consumed < |items|
      invariant consumed <= |items|
      invariant ending == StreamEnded
      invariant Session(items) == Outcome(outbox + Session(items[consumed..]).outbox,
                                          Session(items[consumed..]).ending,
                                          consumed + Session(items[consumed..]).consumed)
    {
      var item := items[consumed];
      assert items[consumed..][0] == item && items[consumed..][1..] == items[consumed + 1..];
      consumed := consumed + 1;
      match item {
        case DecodeError =>
          ending := DecodeFailed;
          break;
        case Received(frame) =>
          match frame {
            case Text(Disconnect(reason)) =>
              ending := Disconnected(reason);
              break;
            case Text(EventsApi(envelopeId)) =>
              outbox := outbox + [AckFor(envelopeId)];
            case Text(Hello) =>
            case Text(Unrecognized) =>
            case Ping(_) =>
            case OtherFrame =>
          }
      }
    }
    SessionReference(items);
  }
}
