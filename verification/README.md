# Local chat room: presence and message-sync core

This project models the presence and message-sync core of a serverless chat
room in Dafny. Browser tabs on one device share the room over a local
broadcast channel. The model covers three parts:

- **Presence registry** (`Participants`). A map from display name to the
  connections (tabs) open under that name. It has an add and a remove
  operation. It also has two gates, "first join" and "last leave", which
  decide whether a Joined or Left message becomes a visible log entry.
- **Message log** (`ChatMessages`). An append-only sequence of chat
  messages. A local send stamps the message, broadcasts it and logs it
  unless the caller passes a false update flag. An inbound message is appended only if its id is new.
- **Room component** (`ChatRoom`). A state machine over the registry, the
  log, the outbox and a one-shot "announced" flag. The outbox holds
  everything this tab has broadcast. The component has an inbound
  dispatcher, a one-shot Joined announcement on mount, a Left handler on
  unload, and a keyboard send guard. `Run` folds a trace of these events.

The message record and its three kinds come from `Message`. An optional
property is an `Option`, and `None` means the property is absent.

The component reads and writes the display name under a `username` property.
The message record declares `sender`, and the send operation reads `sender`.
The model keys dispatch on the message's `sender`, and messages built by the
component carry the local name as `sender`. The code as written is modelled
separately by `ChatRoom.OnMessageAsWritten`; see Findings.

The nanoid ids, `Date.now()` times and the text field's contents are
parameters of each operation. Broadcasting appends to the outbox.

## Model

| member | source | states |
|---|---|---|
| Participants.AddParticipant | packages/app/stores/useParticipantsStore.ts:25-45 | An empty name or connection id leaves the registry unchanged. Otherwise exactly one connection with that id is appended to the end of the name's list, and the entry is created if it was absent. Every other name's entry is unchanged, and the registry shape invariant is kept. |
| Participants.RemoveParticipant | packages/app/stores/useParticipantsStore.ts:46-67 | An unknown name is a no-op. The name's list becomes the filtered list. The name stays in the registry exactly when the filtered list is non-empty, so an emptied entry is always deleted. Every other name's entry is unchanged, and the shape invariant is kept. |
| Participants.Without | packages/app/stores/useParticipantsStore.ts:54-56 | The filter drops exactly the copies of the id (the length falls by their count). It keeps every other connection and invents none. |
| Participants.WithoutAppend | packages/app/stores/useParticipantsStore.ts:54-56 | The filter distributes over concatenation, so the survivors stay in their original order. |
| Participants.IsFirstJoin | packages/app/stores/useParticipantsStore.ts:68-71 | True iff the name has zero connections, counting an absent name as zero. |
| Participants.IsLastLeave | packages/app/stores/useParticipantsStore.ts:72-75 | True iff the name has at most one connection. The `\|\| 1` default makes an absent name (or an empty list) read as one. |
| Participants.AddKeepsDuplicates | packages/app/stores/useParticipantsStore.ts:30-44 | Adding does not deduplicate. The count of that id for the name, and the name's list length, each grow by exactly one, even when the id is already present. |
| Participants.RemoveDropsEveryCopy | packages/app/stores/useParticipantsStore.ts:54-56 | After removal no copy of the id is left for the name. Every other id keeps its multiplicity. |
| Participants.FirstJoinGate | packages/app/stores/useParticipantsStore.ts:68-71 | In a well-formed registry, first join means the name is absent. The gate is false right after a successful add for that name. |
| Participants.LastLeaveGate | packages/app/stores/useParticipantsStore.ts:58-75 | In a well-formed registry, last leave means the name is absent or has exactly one connection. Removing that connection deletes the name, which makes it a first join again. |
| Participants.AddThenRemoveRestores | packages/app/stores/useParticipantsStore.ts:25-67 | Adding a connection id the name does not hold, then removing it, gives back the original registry. |
| ChatMessages.ContainsId | packages/app/stores/useChatMessagesStore.ts:48-50 | The existence scan is true iff some entry of the log has the id. |
| ChatMessages.ReceiveChatMessage | packages/app/stores/useChatMessagesStore.ts:46-58 | If an entry has the message's id, the log is unchanged. Otherwise the message is appended at the end. |
| ChatMessages.ReceiveIdempotent | packages/app/stores/useChatMessagesStore.ts:46-58 | Receiving the same message twice gives the same log as receiving it once. |
| ChatMessages.ReceiveExtends | packages/app/stores/useChatMessagesStore.ts:54-56 | The old log is a prefix of the new one. At most one entry is added, and afterwards the message's id is present. |
| ChatMessages.ReceivePreservesUniqueIds | packages/app/stores/useChatMessagesStore.ts:48-56 | If the log's ids are pairwise distinct before receiving, they are still distinct after. |
| ChatMessages.FirstArrivalWins | packages/app/stores/useChatMessagesStore.ts:48-53 | A later message with an id already logged leaves the first entry in place, whatever its other fields. |
| ChatMessages.SendChatMessage | packages/app/stores/useChatMessagesStore.ts:24-45 | The message is stamped with the given id and time. A missing body or connection id becomes "". The message is always broadcast. It is appended to the log unless the update flag is explicitly false, and the flag defaults to true. |
| ChatMessages.SendThenEchoIsNoOp | packages/app/stores/useChatMessagesStore.ts:39-56 | When a logged send's own broadcast copy comes back, receiving it leaves the log unchanged. |
| ChatMessages.SendPreservesUniqueIds | packages/app/stores/useChatMessagesStore.ts:31-44 | A send stamped with an id that is new to the log keeps the log's ids distinct. |
| ChatMessages.ReceiveAllDeduplicates | packages/app/stores/useChatMessagesStore.ts:46-58 | After an inbound stream with any number of duplicates, the log extends the old one, its ids are distinct, and it holds every id in the stream. |
| ChatRoom.OnMessage | packages/app/components/ChatRoom/index.tsx:64-83 | An event with no data is dropped. Otherwise the message is logged iff its id is new and its gate holds in the pre-state: zero connections for Joined, at most one for Left, always for Text. Joined then always adds the connection, Left always removes it, and Text leaves the registry alone. Nothing is broadcast. |
| ChatRoom.OnMessageAsWritten | packages/app/components/ChatRoom/index.tsx:64-83 | As written, the name is read from an absent property. Every new inbound message is then logged, presence messages included, and the registry never changes. |
| ChatRoom.AnnounceJoin | packages/app/components/ChatRoom/index.tsx:95-105 | Only the first call does anything. It broadcasts one Joined for the local session. It logs that Joined iff the name had no connection before the local add. It then adds the local connection and sets the flag. |
| ChatRoom.HandleLeave | packages/app/components/ChatRoom/index.tsx:115-123 | Always broadcasts one Left for the local session. It logs that Left iff the name had at most one connection before the local removal, then removes the local connection. |
| ChatRoom.Trim | packages/app/components/ChatRoom/index.tsx:48 | The trimmed input is empty iff every character is white space. |
| ChatRoom.ShouldSend | packages/app/components/ChatRoom/index.tsx:44-50 | The guard holds iff the key is Enter, Shift is not held, and the input has a character that is not white space. |
| ChatRoom.HandleSendMessage | packages/app/components/ChatRoom/index.tsx:44-61 | When the guard holds, the untrimmed input is logged and broadcast as a Text from the local name, and the field is cleared. Otherwise the room and the field are unchanged. |
| ChatRoom.StepEffects | packages/app/components/ChatRoom/index.tsx:44-123 | One event appends at most one log entry, and only one that the event itself brings in. The outbox only grows and the flag is never reset. The invariant (well-formed registry, distinct ids) is kept when a minted id is fresh. |
| ChatRoom.RunPreservesInvariant | packages/app/components/ChatRoom/index.tsx:44-123 | Over any trace whose minted ids are fresh, the invariant holds at the end, and the log and the outbox only grow. |
| ChatRoom.AnnouncesAtMostOnce | packages/app/components/ChatRoom/index.tsx:95-105 | Along any trace, a context broadcasts at most one Joined if it has not yet announced, and none if it has. |
| ChatRoom.FreshContextRun | packages/app/components/ChatRoom/index.tsx:32-123 | A context that starts empty and unannounced reaches, along any trace with fresh minted ids, a state with a well-formed registry and distinct log ids, and has broadcast at most one Joined. |
| ChatRoom.DeliveredJoinVisibleOnlyOnFirstConnection | packages/app/components/ChatRoom/index.tsx:68-73 | In any state, including after the local announcement, a delivered Joined for a sender that already has a connection leaves the log unchanged. It still adds the connection. |
| ChatRoom.AnnounceVisibleOnlyOnFirstConnection | packages/app/components/ChatRoom/index.tsx:96-104 | When the local name already has a connection (a second tab), the announcement is broadcast but not logged. With a non-empty name and connection id, it adds one connection. |
| ChatRoom.LeaveVisibleOnlyOnLastConnection | packages/app/components/ChatRoom/index.tsx:115-122 | A Left for a name with two or more connections is silent. With exactly one connection carrying the local id (whatever its heartbeat time), the Left is logged and the name disappears from the registry. |
| ChatRoom.AsWrittenLogsSecondJoin | packages/app/components/ChatRoom/index.tsx:66-73 | Concrete case: alice already has connection c1. A delivered Joined for alice's second connection is logged by the as-written dispatcher, and the registry is left unchanged. The sender-keyed dispatcher stays silent and records the second connection. |

## Left out

- The broadcast channel and the wiring of its message handler are left out. Broadcasting is modelled as appending to the outbox.
- Delivery between contexts (at-least-once, unordered) is represented only by arbitrary `Delivered` events in a trace.
- Store creation and persistence to local and session storage are left out. They are storage plumbing. Rehydration is covered by starting a trace from any state that satisfies the invariant.
- nanoid and `Date.now()` become parameters. Trace lemmas require minted ids to be fresh (`FreshMints`), which nanoid gives only with overwhelming probability.
- The connection's heartbeat time is carried as a plain number, because nothing reads it.
- React hook re-execution, refs, auto-scroll state, `preventDefault` and all rendering are left out. The one-shot ref becomes the `announced` flag.
- The input-change handler is left out because it only mirrors the typed text. The key-down handler assumes the text field is mounted (the ref is non-null) and receives the field's current text.
- Inbound payloads are always well-formed messages of the three declared kinds. A payload of some other shape would reach the default branch, but it cannot be expressed here.
- JavaScript object keys are plain strings. Inherited keys such as `__proto__` are not modelled.
- The as-written dispatcher models the absent name as "", not JavaScript's `undefined`. A registry entry under the literal name "undefined" would be read there instead.
- The session store and the top-level routing on whether a session exists are left out. The session is a `Session` parameter.
- ChatMessages.SendChatMessage: stamping with a "fresh" id is not a promise of this function. Freshness is a precondition of the lemmas that need it (`SendPreservesUniqueIds`, `RunPreservesInvariant`).

## Findings

| source | as written | input that shows it | evidently intended | confidence | as-written member | corrected member |
|---|---|---|---|---|---|---|
| packages/app/components/ChatRoom/index.tsx:54-100 | The component passes the name to the send operation as `username`, but the operation reads `sender`, so outgoing messages carry no sender. The dispatcher reads `username` off the payload, and that property is absent. The dispatcher therefore gates on an absent name: every new Joined and Left is logged, and the registry is never updated. | alice has connection c1 in this tab's registry. alice opens a second tab, which broadcasts Joined with connection c2. This tab logs a second Joined for alice and still records one connection. | Key the message, the gates and the registry updates on `sender`, as the message type declares. A second tab's Joined is then silent and registers connection c2. | medium, not executed | ChatRoom.OnMessageAsWritten, ChatRoom.AsWrittenLogsSecondJoin | ChatRoom.OnMessage, ChatRoom.DeliveredJoinVisibleOnlyOnFirstConnection |
