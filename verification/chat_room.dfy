/** The chat room component as a state machine: the inbound dispatcher, the
    one-shot Joined announcement, the leave handler and the keyboard send
    guard, over the registry, the log, everything broadcast so far (the
    outbox) and the one-shot flag. */
module ChatRoom {
  import opened Message
  import opened Participants
  import opened ChatMessages

  /** The local identity: display name and this context's connection id. */
  datatype Session = Session(username: string, connectionId: string)

  /** One context's view of the room. */
  datatype Room = Room(registry: Registry, log: Log, outbox: seq<ChatMessage>, announced: bool)

  /** The room state before anything happens in a new context. */
  const Initial := Room(map[], [], [], false)

  // ---------------------------------------------------------------------
  // Inbound dispatch

  /** Whether an inbound message of this kind from this name passes its
      presence gate, stated on the connection count of the sender. */
  ghost predicate Visible(r: Registry, m: ChatMessage) {
    match m.kind
    case Joined => |Connections(r, m.sender)| == 0
    case Left => |Connections(r, m.sender)| <= 1
    case Text => true
  }

  /** The dispatch switch, keyed on `name`: the name the handler reads off
      the payload. Each gate is evaluated before the registry changes. */
  function Dispatch(s: Room, m: ChatMessage, name: string, now: nat): Room {
    match m.kind
    case Joined =>
      var log := if IsFirstJoin(s.registry, name) then ReceiveChatMessage(s.log, m) else s.log;
      s.(log := log, registry := AddParticipant(s.registry, name, m.connectionId.GetOr(""), now))
    case Left =>
      var log := if IsLastLeave(s.registry, name) then ReceiveChatMessage(s.log, m) else s.log;
      s.(log := log, registry := RemoveParticipant(s.registry, name, m.connectionId.GetOr("")))
    case Text =>
      s.(log := ReceiveChatMessage(s.log, m))
  }

  /** Handles one broadcast delivery, keyed on the message's sender. An
      event without data is dropped. Otherwise the message is logged exactly
      when its id is new and its presence gate passes in the pre-state, and
      a Joined or Left then always updates the registry. Nothing is
      broadcast in response. */
  function OnMessage(s: Room, data: Option<ChatMessage>, now: nat): (s': Room)
    ensures data.None? ==> s' == s
    ensures s'.outbox == s.outbox && s'.announced == s.announced
    ensures s.log <= s'.log && |s'.log| <= |s.log| + 1
    ensures data.Some? ==>
              (|s'.log| == |s.log| + 1 <==> !HasId(s.log, data.value.id) && Visible(s.registry, data.value))
    ensures |s'.log| == |s.log| + 1 ==> data.Some? && s'.log[|s.log|] == data.value
    ensures data.Some? && data.value.kind == Joined ==>
              s'.registry == AddParticipant(s.registry, data.value.sender, data.value.connectionId.GetOr(""), now)
    ensures data.Some? && data.value.kind == Left ==>
              s'.registry == RemoveParticipant(s.registry, data.value.sender, data.value.connectionId.GetOr(""))
    ensures data.Some? && data.value.kind == Text ==> s'.registry == s.registry
  {
    match data
    case None => s
    case Some(m) =>
      ReceiveExtends(s.log, m);
      Dispatch(s, m, m.sender, now)
  }

  /** The dispatcher as the component is written: it reads the name from a
      `username` property that the message record does not have, so the
      name is absent (the empty name here) for every delivery. */
  function OnMessageAsWritten(s: Room, data: Option<ChatMessage>, now: nat): (s': Room)
    ensures data.None? ==> s' == s
    ensures data.Some? && "" !in s.registry ==>
              s'.registry == s.registry && s'.log == ReceiveChatMessage(s.log, data.value)
  {
    match data
    case None => s
    case Some(m) => Dispatch(s, m, "", now)
  }

  // ---------------------------------------------------------------------
  // Local announcements

  /** The one-shot mount effect: unless already announced, broadcasts a
      Joined for the local session, logs it only if the name had no
      connection before, then registers the local connection and sets the
      flag. */
  function AnnounceJoin(s: Room, session: Session, id: string, now: nat): (s': Room)
    ensures s.announced ==> s' == s
    ensures s'.announced
    ensures !s.announced ==>
              && |s'.outbox| == |s.outbox| + 1 && s.outbox <= s'.outbox
              && s'.outbox[|s.outbox|] == ChatMessage(id, now, Joined, session.username, Some(""), Some(session.connectionId))
    ensures !s.announced && |Connections(s.registry, session.username)| == 0 ==>
              s'.log == s.log + [s'.outbox[|s.outbox|]]
    ensures !s.announced && |Connections(s.registry, session.username)| > 0 ==> s'.log == s.log
    ensures !s.announced ==>
              s'.registry == AddParticipant(s.registry, session.username, session.connectionId, now)
  {
    if s.announced then s
    else
      var params := SendChatMessageParams(Joined, session.username, None, Some(session.connectionId),
                                          Some(IsFirstJoin(s.registry, session.username)));
      var sent := SendChatMessage(s.log, s.outbox, params, id, now);
      Room(AddParticipant(s.registry, session.username, session.connectionId, now), sent.log, sent.outbox, true)
  }

  /** The unload handler: always broadcasts a Left for the local session,
      logs it only if the name had at most one connection before, then
      removes the local connection. */
  function HandleLeave(s: Room, session: Session, id: string, now: nat): (s': Room)
    ensures |s'.outbox| == |s.outbox| + 1 && s.outbox <= s'.outbox
    ensures s'.outbox[|s.outbox|] == ChatMessage(id, now, Left, session.username, Some(""), Some(session.connectionId))
    ensures |Connections(s.registry, session.username)| <= 1 ==> s'.log == s.log + [s'.outbox[|s.outbox|]]
    ensures |Connections(s.registry, session.username)| > 1 ==> s'.log == s.log
    ensures s'.registry == RemoveParticipant(s.registry, session.username, session.connectionId)
    ensures s'.announced == s.announced
  {
    var params := SendChatMessageParams(Left, session.username, None, Some(session.connectionId),
                                        Some(IsLastLeave(s.registry, session.username)));
    var sent := SendChatMessage(s.log, s.outbox, params, id, now);
    s.(registry := RemoveParticipant(s.registry, session.username, session.connectionId),
       log := sent.log, outbox := sent.outbox)
  }

  // ---------------------------------------------------------------------
  // Keyboard send

  /** The characters the string trim removes: white space and line
      terminators of the ECMAScript grammar (section 12.2 and 12.3 of
      ECMA-262), with the space separators of Unicode category Zs. */
  predicate IsWhiteSpace(c: char) {
    || c == '\t' || c == '\n' || c == '\U{B}' || c == '\U{C}' || c == '\r' || c == ' '
    || c == '\U{A0}' || c == '\U{1680}' || ('\U{2000}' <= c <= '\U{200A}')
    || c == '\U{2028}' || c == '\U{2029}' || c == '\U{202F}' || c == '\U{205F}'
    || c == '\U{3000}' || c == '\U{FEFF}'
  }

  /** `s` has a character that is not white space. */
  ghost predicate HasVisibleChar(s: string) {
    exists i :: 0 <= i < |s| && !IsWhiteSpace(s[i])
  }

  /** `s` without its leading white space. */
  function TrimStart(s: string): (t: string)
    ensures |t| <= |s| && t == s[|s| - |t|..]
    ensures forall i :: 0 <= i < |s| - |t| ==> IsWhiteSpace(s[i])
    ensures |t| > 0 ==> !IsWhiteSpace(t[0])
  {
    if |s| > 0 && IsWhiteSpace(s[0]) then TrimStart(s[1..]) else s
  }

  /** `s` without its trailing white space. */
  function TrimEnd(s: string): (t: string)
    ensures |t| <= |s| && t == s[..|t|]
    ensures forall i :: |t| <= i < |s| ==> IsWhiteSpace(s[i])
    ensures |t| > 0 ==> !IsWhiteSpace(t[|t| - 1])
  {
    if |s| > 0 && IsWhiteSpace(s[|s| - 1]) then TrimEnd(s[..|s| - 1]) else s
  }

  /** The string trim: empty exactly when every character is white space. */
  function Trim(s: string): (t: string)
    ensures t == [] <==> !HasVisibleChar(s)
  {
    var front := TrimStart(s);
    var t := TrimEnd(front);
    assert front == [] ==> !HasVisibleChar(s);
    assert front != [] ==> HasVisibleChar(s) by {
      if front != [] {
        assert s[|s| - |front|] == front[0];
      }
    }
    t
  }

  /** The key-down guard: Enter without Shift on an input that is not blank
      once trimmed. */
  function ShouldSend(key: string, shiftKey: bool, input: string): (send: bool)
    ensures send <==> key == "Enter" && !shiftKey && HasVisibleChar(input)
  {
    key == "Enter" && Trim(input) != "" && !shiftKey
  }

  /** The room after a key press, and what the text field then holds. */
  datatype KeyOutcome = KeyOutcome(room: Room, input: string)

  /** The key-down handler. When the guard passes, the untrimmed input is
      sent as a Text from the local name (logged and broadcast) and the
      field is cleared; otherwise nothing changes. */
  function HandleSendMessage(s: Room, session: Session, key: string, shiftKey: bool, input: string,
                             id: string, now: nat): (r: KeyOutcome)
    ensures !(key == "Enter" && !shiftKey && HasVisibleChar(input)) ==> r == KeyOutcome(s, input)
    ensures key == "Enter" && !shiftKey && HasVisibleChar(input) ==>
              var sent := ChatMessage(id, now, Text, session.username, Some(input), Some(""));
              && r.input == ""
              && r.room == s.(log := s.log + [sent], outbox := s.outbox + [sent])
  {
    if ShouldSend(key, shiftKey, input) then
      var params := SendChatMessageParams(Text, session.username, Some(input), None, None);
      var sent := SendChatMessage(s.log, s.outbox, params, id, now);
      KeyOutcome(s.(log := sent.log, outbox := sent.outbox), "")
    else
      KeyOutcome(s, input)
  }

  // ---------------------------------------------------------------------
  // Event traces

  /** What can happen to one context: a broadcast delivery, the mount
      effect, the unload signal, or a key press with the field's text.
      Every local event carries the id and time it would stamp. */
  datatype Event =
    | Delivered(data: Option<ChatMessage>, now: nat)
    | Mounted(id: string, now: nat)
    | Unloading(id: string, now: nat)
    | KeyPressed(key: string, shiftKey: bool, input: string, id: string, now: nat)

  /** The event mints a fresh message id. */
  predicate Mints(e: Event) {
    e.Mounted? || e.Unloading? || e.KeyPressed?
  }

  /** The event brings a message with id `id` into the context. */
  ghost predicate Carries(e: Event, id: string) {
    || (e.Delivered? && e.data.Some? && e.data.value.id == id)
    || (Mints(e) && e.id == id)
  }

  /** Every minted id is new: absent from the starting log and from every
      message an earlier event brought in. */
  ghost predicate FreshMints(log: Log, es: seq<Event>) {
    forall i :: 0 <= i < |es| && Mints(es[i]) ==>
      && !HasId(log, es[i].id)
      && forall j :: 0 <= j < i ==> !Carries(es[j], es[i].id)
  }

  function Step(s: Room, session: Session, e: Event): Room {
    match e
    case Delivered(data, now) => OnMessage(s, data, now)
    case Mounted(id, now) => AnnounceJoin(s, session, id, now)
    case Unloading(id, now) => HandleLeave(s, session, id, now)
    case KeyPressed(key, shiftKey, input, id, now) => HandleSendMessage(s, session, key, shiftKey, input, id, now).room
  }

  function Run(s: Room, session: Session, es: seq<Event>): Room
    decreases |es|
  {
    if |es| == 0 then s else Run(Step(s, session, es[0]), session, es[1..])
  }

  /** The room invariant: a well-formed registry and a log without
      duplicate ids. */
  ghost predicate Invariant(s: Room) {
    WellFormed(s.registry) && UniqueIds(s.log)
  }

  /** Number of messages of kind `k` in `ms`. */
  function CountKind(ms: seq<ChatMessage>, k: ChatMessageType): nat
    decreases |ms|
  {
    if |ms| == 0 then 0
    else CountKind(ms[..|ms| - 1], k) + (if ms[|ms| - 1].kind == k then 1 else 0)
  }

  // ---------------------------------------------------------------------
  // Properties

  /** One step leaves the log alone or appends one entry, whose id the
      event itself brings in. */
  lemma StepAppends(s: Room, session: Session, e: Event)
    ensures var s' := Step(s, session, e);
            || s'.log == s.log
            || (s'.log == s.log + [s'.log[|s.log|]] && Carries(e, s'.log[|s.log|].id))
  {
    match e
    case Delivered(data, now) =>
    case Mounted(id, now) =>
    case Unloading(id, now) =>
    case KeyPressed(key, shiftKey, input, id, now) =>
  }

  /** One step appends at most one entry to the log, only one that the
      event itself brings in, and keeps the invariant when a minted id is
      fresh. The outbox only grows and the flag is never reset. */
  lemma StepEffects(s: Room, session: Session, e: Event)
    ensures s.log <= Step(s, session, e).log
    ensures |Step(s, session, e).log| <= |s.log| + 1
    ensures forall id :: HasId(Step(s, session, e).log, id) ==> HasId(s.log, id) || Carries(e, id)
    ensures s.outbox <= Step(s, session, e).outbox
    ensures s.announced ==> Step(s, session, e).announced
    ensures Invariant(s) && (Mints(e) ==> !HasId(s.log, e.id)) ==> Invariant(Step(s, session, e))
  {
    var s' := Step(s, session, e);
    StepAppends(s, session, e);
    forall id | HasId(s'.log, id)
      ensures HasId(s.log, id) || Carries(e, id)
    {
      var i :| 0 <= i < |s'.log| && s'.log[i].id == id;
      if i < |s.log| {
        assert s.log[i] == s'.log[i];
      }
    }
    if Invariant(s) && (Mints(e) ==> !HasId(s.log, e.id)) {
      StepPreservesInvariant(s, session, e);
    }
  }

  /** One step keeps the invariant when a minted id is new to the log. */
  lemma StepPreservesInvariant(s: Room, session: Session, e: Event)
    requires Invariant(s)
    requires Mints(e) ==> !HasId(s.log, e.id)
    ensures Invariant(Step(s, session, e))
  {
    match e
    case Delivered(data, now) =>
      if data.Some? {
        ReceivePreservesUniqueIds(s.log, data.value);
      }
    case Mounted(id, now) =>
    case Unloading(id, now) =>
    case KeyPressed(key, shiftKey, input, id, now) =>
  }

  /** Over any trace whose minted ids are fresh, the invariant holds
      throughout, and the log and the outbox only grow. */
  lemma {:induction false} RunPreservesInvariant(s: Room, session: Session, es: seq<Event>)
    requires Invariant(s)
    requires FreshMints(s.log, es)
    ensures Invariant(Run(s, session, es))
    ensures s.log <= Run(s, session, es).log
    ensures s.outbox <= Run(s, session, es).outbox
    decreases |es|
  {
    if |es| > 0 {
      var s1 := Step(s, session, es[0]);
      StepEffects(s, session, es[0]);
      assert Mints(es[0]) ==> !HasId(s.log, es[0].id);
      var tail := es[1..];
      forall i | 0 <= i < |tail| && Mints(tail[i])
        ensures !HasId(s1.log, tail[i].id)
        ensures forall j :: 0 <= j < i ==> !Carries(tail[j], tail[i].id)
      {
        assert tail[i] == es[i + 1];
        assert !Carries(es[0], es[i + 1].id);
        forall j | 0 <= j < i
          ensures !Carries(tail[j], tail[i].id)
        {
          assert tail[j] == es[j + 1];
        }
      }
      RunPreservesInvariant(s1, session, tail);
    }
  }

  /** A step adds a Joined to the outbox only by the first announcement,
      which also sets the flag. */
  lemma StepJoinedBound(s: Room, session: Session, e: Event)
    ensures CountKind(Step(s, session, e).outbox, Joined) <= CountKind(s.outbox, Joined) + (if s.announced then 0 else 1)
    ensures CountKind(Step(s, session, e).outbox, Joined) > CountKind(s.outbox, Joined) ==> Step(s, session, e).announced
  {
    var s' := Step(s, session, e);
    if s'.outbox != s.outbox {
      assert |s'.outbox| == |s.outbox| + 1;
      assert s'.outbox[..|s.outbox|] == s.outbox;
    }
  }

  /** Along any trace, at most one Joined is broadcast by a context that has
      not yet announced, and none by one that has. */
  lemma {:induction false} AnnouncesAtMostOnce(s: Room, session: Session, es: seq<Event>)
    ensures CountKind(Run(s, session, es).outbox, Joined) <= CountKind(s.outbox, Joined) + (if s.announced then 0 else 1)
    decreases |es|
  {
    if |es| > 0 {
      var s1 := Step(s, session, es[0]);
      StepJoinedBound(s, session, es[0]);
      StepEffects(s, session, es[0]);
      AnnouncesAtMostOnce(s1, session, es[1..]);
    }
  }

  /** A new context starts from the empty, unannounced room. Along any
      trace whose minted ids are fresh it keeps the invariant and broadcasts
      at most one Joined. */
  lemma FreshContextRun(session: Session, es: seq<Event>)
    requires FreshMints([], es)
    ensures Invariant(Run(Initial, session, es))
    ensures CountKind(Run(Initial, session, es).outbox, Joined) <= 1
  {
    RunPreservesInvariant(Initial, session, es);
    AnnouncesAtMostOnce(Initial, session, es);
  }

  /** A delivered Joined for a name that already has a connection is
      silent: the log is unchanged, and only the connection is added. */
  lemma DeliveredJoinVisibleOnlyOnFirstConnection(s: Room, m: ChatMessage, now: nat)
    requires m.kind == Joined && |Connections(s.registry, m.sender)| > 0
    ensures OnMessage(s, Some(m), now).log == s.log
    ensures OnMessage(s, Some(m), now).registry
            == AddParticipant(s.registry, m.sender, m.connectionId.GetOr(""), now)
  {
  }

  /** The local announcement of a name that already has a connection (a
      second tab) is broadcast but not logged, and it adds the local
      connection. */
  lemma AnnounceVisibleOnlyOnFirstConnection(s: Room, session: Session, id: string, now: nat)
    requires !s.announced && |Connections(s.registry, session.username)| > 0
    ensures AnnounceJoin(s, session, id, now).log == s.log
    ensures |AnnounceJoin(s, session, id, now).outbox| == |s.outbox| + 1
    ensures session.username != "" && session.connectionId != "" ==>
              |Connections(AnnounceJoin(s, session, id, now).registry, session.username)|
              == |Connections(s.registry, session.username)| + 1
  {
  }

  /** Left messages reach the log only for a name's last connection: with
      two or more connections the Left is silent; with one, the local one,
      it is logged and removing that connection deletes the name. */
  lemma LeaveVisibleOnlyOnLastConnection(s: Room, session: Session, id: string, now: nat)
    requires session.username in s.registry
    ensures |s.registry[session.username].connections| > 1 ==> HandleLeave(s, session, id, now).log == s.log
    ensures var cs := s.registry[session.username].connections;
            |cs| == 1 && cs[0].id == session.connectionId ==>
              && |HandleLeave(s, session, id, now).log| == |s.log| + 1
              && session.username !in HandleLeave(s, session, id, now).registry
  {
    var cs := s.registry[session.username].connections;
    if |cs| == 1 && cs[0].id == session.connectionId {
      assert CountId(cs, session.connectionId) == 1;
    }
  }

  /** With the name read from the wrong property, a second connection's
      Joined is logged by the other context and never registered there;
      keyed on the sender, the same delivery is silent and registered. */
  lemma AsWrittenLogsSecondJoin()
    ensures var s := Room(map["alice" := Participant([Connection("c1", 0)])], [], [], true);
            var m := ChatMessage("m2", 1, Joined, "alice", Some(""), Some("c2"));
            && OnMessageAsWritten(s, Some(m), 1).log == [m]
            && OnMessageAsWritten(s, Some(m), 1).registry == s.registry
            && OnMessage(s, Some(m), 1).log == []
            && |OnMessage(s, Some(m), 1).registry["alice"].connections| == 2
  {
    var s := Room(map["alice" := Participant([Connection("c1", 0)])], [], [], true);
    var m := ChatMessage("m2", 1, Joined, "alice", Some(""), Some("c2"));
    assert "" !in s.registry;
    assert !HasId(s.log, m.id);
  }
}
