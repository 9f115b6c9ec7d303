/** The message log: an insertion-ordered, append-only sequence of chat
    messages, fed by local sends (which also broadcast) and by inbound
    broadcasts (which are deduplicated by id). */
module ChatMessages {
  import opened Message

  type Log = seq<ChatMessage>

  /** Some entry of `log` carries the id `id`. */
  ghost predicate HasId(log: Log, id: string) {
    exists i :: 0 <= i < |log| && log[i].id == id
  }

  /** No two entries of `log` share an id. */
  ghost predicate UniqueIds(log: Log) {
    forall i, j :: 0 <= i < j < |log| ==> log[i].id != log[j].id
  }

  /** The existence test over the log (`some` with an id comparison). */
  function ContainsId(log: Log, id: string): (found: bool)
    ensures found <==> HasId(log, id)
  {
    if |log| == 0 then false
    else if log[0].id == id then true
    else
      var found := ContainsId(log[1..], id);
      assert HasId(log[1..], id) ==> HasId(log, id) by {
        if HasId(log[1..], id) {
          var i :| 0 <= i < |log[1..]| && log[1..][i].id == id;
          assert log[i + 1].id == id;
        }
      }
      found
  }

  /** Takes in an inbound message: appended at the end unless some entry
      already has its id, in which case the log stays as it is. */
  function ReceiveChatMessage(log: Log, m: ChatMessage): (log': Log)
    ensures HasId(log, m.id) ==> log' == log
    ensures !HasId(log, m.id) ==> log' == log + [m]
  {
    if ContainsId(log, m.id) then log else log + [m]
  }

  /** Arguments of a local send. `None` is an omitted property: a missing
      body or connection id becomes "", a missing update flag means true. */
  datatype SendChatMessageParams = SendChatMessageParams(
    kind: ChatMessageType,
    sender: string,
    message: Option<string>,
    connectionId: Option<string>,
    shouldUpdateStore: Option<bool>)

  /** What a local send leaves behind: the log, everything broadcast so far,
      and the message it built. */
  datatype SendOutcome = SendOutcome(log: Log, outbox: seq<ChatMessage>, sent: ChatMessage)

  /** Builds a message stamped with the given fresh id and time, broadcasts
      it (appends it to `outbox`) and, when the update flag holds, appends it
      to the log as well. The id and time are minted by the caller. */
  function SendChatMessage(log: Log, outbox: seq<ChatMessage>, p: SendChatMessageParams, id: string, now: nat): (r: SendOutcome)
    ensures r.sent.id == id && r.sent.timestamp == now
    ensures r.sent.kind == p.kind && r.sent.sender == p.sender
    ensures r.sent.message == Some(if p.message.Some? then p.message.value else "")
    ensures r.sent.connectionId == Some(if p.connectionId.Some? then p.connectionId.value else "")
    ensures r.outbox == outbox + [r.sent]
    ensures p.shouldUpdateStore != Some(false) ==> r.log == log + [r.sent]
    ensures p.shouldUpdateStore == Some(false) ==> r.log == log
  {
    var message := p.message.GetOr("");
    var connectionId := p.connectionId.GetOr("");
    var shouldUpdateStore := p.shouldUpdateStore.GetOr(true);
    var newMessage := ChatMessage(id, now, p.kind, p.sender, Some(message), Some(connectionId));
    var outbox' := outbox + [newMessage];
    if shouldUpdateStore then SendOutcome(log + [newMessage], outbox', newMessage)
    else SendOutcome(log, outbox', newMessage)
  }

  /** Receives each message of `ms` in turn. */
  function ReceiveAll(log: Log, ms: seq<ChatMessage>): Log
    decreases |ms|
  {
    if |ms| == 0 then log else ReceiveAll(ReceiveChatMessage(log, ms[0]), ms[1..])
  }

  // ---------------------------------------------------------------------
  // Properties

  /** Receiving the same message a second time changes nothing. */
  lemma ReceiveIdempotent(log: Log, m: ChatMessage)
    ensures ReceiveChatMessage(ReceiveChatMessage(log, m), m) == ReceiveChatMessage(log, m)
  {
    if !HasId(log, m.id) {
      assert (log + [m])[|log|].id == m.id;
    }
  }

  /** The old log is a prefix of the new one, at most one entry is added,
      and afterwards the message's id is present. */
  lemma ReceiveExtends(log: Log, m: ChatMessage)
    ensures log <= ReceiveChatMessage(log, m)
    ensures |ReceiveChatMessage(log, m)| <= |log| + 1
    ensures HasId(ReceiveChatMessage(log, m), m.id)
  {
    if !HasId(log, m.id) {
      assert (log + [m])[|log|].id == m.id;
    }
  }

  /** Receiving keeps the ids of the log pairwise distinct. */
  lemma ReceivePreservesUniqueIds(log: Log, m: ChatMessage)
    requires UniqueIds(log)
    ensures UniqueIds(ReceiveChatMessage(log, m))
  {
  }

  /** The first arrival of an id wins: a later message with the same id,
      whatever its other fields, leaves the earlier entry in place. */
  lemma FirstArrivalWins(log: Log, m: ChatMessage, later: ChatMessage)
    requires later.id == m.id
    ensures ReceiveChatMessage(ReceiveChatMessage(log, m), later) == ReceiveChatMessage(log, m)
  {
    ReceiveExtends(log, m);
  }

  /** A locally logged send followed by the echo of its own broadcast
      copy leaves the log as the send left it. */
  lemma SendThenEchoIsNoOp(log: Log, outbox: seq<ChatMessage>, p: SendChatMessageParams, id: string, now: nat)
    requires p.shouldUpdateStore != Some(false)
    ensures var r := SendChatMessage(log, outbox, p, id, now);
            ReceiveChatMessage(r.log, r.sent) == r.log
  {
    var r := SendChatMessage(log, outbox, p, id, now);
    assert r.log[|log|] == r.sent;
  }

  /** A send stamped with an id not yet in the log keeps the ids distinct. */
  lemma SendPreservesUniqueIds(log: Log, outbox: seq<ChatMessage>, p: SendChatMessageParams, id: string, now: nat)
    requires UniqueIds(log) && !HasId(log, id)
    ensures UniqueIds(SendChatMessage(log, outbox, p, id, now).log)
  {
  }

  /** However many duplicates an inbound stream carries, the resulting log
      extends the old one, has pairwise distinct ids, and holds every id the
      stream mentioned. */
  lemma {:induction false} ReceiveAllDeduplicates(log: Log, ms: seq<ChatMessage>)
    requires UniqueIds(log)
    ensures log <= ReceiveAll(log, ms)
    ensures UniqueIds(ReceiveAll(log, ms))
    ensures forall k :: 0 <= k < |ms| ==> HasId(ReceiveAll(log, ms), ms[k].id)
    decreases |ms|
  {
    if |ms| > 0 {
      var log1 := ReceiveChatMessage(log, ms[0]);
      ReceiveExtends(log, ms[0]);
      ReceivePreservesUniqueIds(log, ms[0]);
      ReceiveAllDeduplicates(log1, ms[1..]);
      var result := ReceiveAll(log1, ms[1..]);
      forall k | 0 <= k < |ms|
        ensures HasId(result, ms[k].id)
      {
        if k == 0 {
          var i :| 0 <= i < |log1| && log1[i].id == ms[0].id;
          assert result[i] == log1[i];
        } else {
          assert ms[k] == ms[1..][k - 1];
        }
      }
    }
  }
}
