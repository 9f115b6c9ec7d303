/** The presence registry: for every display name, the list of connections
    (open contexts) currently known for it, and the two gates that decide
    whether a Joined or Left message is room-visible. */
module Participants {

  /** One live context of a display name. The heartbeat time is recorded
      when the connection is added and never read. */
  datatype Connection = Connection(id: string, lastHeartbeatTime: nat)

  /** A display name's entry: its connections, in the order they were added. */
  datatype Participant = Participant(connections: seq<Connection>)

  /** Display name to entry. */
  type Registry = map<string, Participant>

  /** The connections recorded for `username`; an absent name has none. */
  function Connections(r: Registry, username: string): seq<Connection> {
    if username in r then r[username].connections else []
  }

  /** The shape both operations keep: no entry under the empty name, no
      entry with an empty connection list (the last removal deletes it), and
      no connection with the empty id (adding refuses one). */
  ghost predicate WellFormed(r: Registry) {
    && "" !in r
    && (forall u :: u in r ==> |r[u].connections| > 0)
    && (forall u, c :: u in r && c in r[u].connections ==> c.id != "")
  }

  /** `u` has the same entry, or the same absence, in `r` and `r'`. */
  ghost predicate SameEntry(r: Registry, r': Registry, u: string) {
    (u in r <==> u in r') && Connections(r, u) == Connections(r', u)
  }

  /** How many connections in `cs` carry the id `id`. */
  function CountId(cs: seq<Connection>, id: string): nat {
    if |cs| == 0 then 0
    else (if cs[0].id == id then 1 else 0) + CountId(cs[1..], id)
  }

  /** `cs` without the connections whose id is `id` (an array filter). */
  function Without(cs: seq<Connection>, id: string): (rest: seq<Connection>)
    ensures |rest| + CountId(cs, id) == |cs|
    ensures forall c :: c in rest ==> c in cs && c.id != id
    ensures forall c :: c in cs && c.id != id ==> c in rest
  {
    if |cs| == 0 then []
    else if cs[0].id != id then [cs[0]] + Without(cs[1..], id)
    else Without(cs[1..], id)
  }

  /** Registers one more connection for `username`. An empty name or an empty
      connection id leaves the registry as it is; otherwise the connection is
      appended to the name's list (created if absent) without checking
      whether that id is already present. */
  function AddParticipant(r: Registry, username: string, connectionId: string, now: nat): (r': Registry)
    ensures username == "" || connectionId == "" ==> r' == r
    ensures username != "" && connectionId != "" ==>
              username in r' && r'[username].connections == Connections(r, username) + [Connection(connectionId, now)]
    ensures forall u :: u != username ==> SameEntry(r, r', u)
    ensures WellFormed(r) ==> WellFormed(r')
  {
    if username == "" || connectionId == "" then r
    else
      var participant := if username in r then r[username] else Participant([]);
      r[username := Participant(participant.connections + [Connection(connectionId, now)])]
  }

  /** Drops every connection of `username` whose id is `connectionId`,
      keeping the others in order; the entry is deleted when none remain.
      An unknown name leaves the registry as it is. */
  function RemoveParticipant(r: Registry, username: string, connectionId: string): (r': Registry)
    ensures username !in r ==> r' == r
    ensures Connections(r', username) == Without(Connections(r, username), connectionId)
    ensures username in r' <==> |Without(Connections(r, username), connectionId)| > 0
    ensures forall u :: u != username ==> SameEntry(r, r', u)
    ensures WellFormed(r) ==> WellFormed(r')
  {
    if username !in r then r
    else
      var participant := r[username];
      var newConnections := Without(participant.connections, connectionId);
      if |newConnections| > 0 then r[username := participant.(connections := newConnections)]
      else r - {username}
  }

  /** Would a Joined for `username` be its first connection? The length read
      defaults to 0 for an absent name. */
  function IsFirstJoin(r: Registry, username: string): (first: bool)
    ensures first <==> |Connections(r, username)| == 0
  {
    var count := if username in r then |r[username].connections| else 0;
    count == 0
  }

  /** Would a Left for `username` be its last connection? A length of 0 is
      falsy and falls back to 1, so an absent name also reads as one. */
  function IsLastLeave(r: Registry, username: string): (last: bool)
    ensures last <==> |Connections(r, username)| <= 1
  {
    var length := if username in r then |r[username].connections| else 0;
    var count := if length == 0 then 1 else length;
    count == 1
  }

  // ---------------------------------------------------------------------
  // Connection-list facts

  /** The filter distributes over concatenation: it keeps the survivors in
      their original order. */
  lemma {:induction false} WithoutAppend(a: seq<Connection>, b: seq<Connection>, id: string)
    ensures Without(a + b, id) == Without(a, id) + Without(b, id)
    decreases |a|
  {
    if |a| == 0 {
      assert a + b == b;
    } else {
      var ab := a + b;
      assert ab[0] == a[0];
      assert ab[1..] == a[1..] + b;
      WithoutAppend(a[1..], b, id);
      if a[0].id != id {
        calc {
          Without(ab, id);
          [a[0]] + Without(a[1..] + b, id);
          [a[0]] + (Without(a[1..], id) + Without(b, id));
          ([a[0]] + Without(a[1..], id)) + Without(b, id);
        }
      }
    }
  }

  /** Filtering out an id that does not occur changes nothing. */
  lemma {:induction false} WithoutAbsentId(cs: seq<Connection>, id: string)
    requires CountId(cs, id) == 0
    ensures Without(cs, id) == cs
    decreases |cs|
  {
    if |cs| > 0 {
      WithoutAbsentId(cs[1..], id);
      assert cs == [cs[0]] + cs[1..];
    }
  }

  /** The filter removes every copy of `id` and no copy of any other id. */
  lemma {:induction false} WithoutCounts(cs: seq<Connection>, id: string, other: string)
    ensures CountId(Without(cs, id), id) == 0
    ensures other != id ==> CountId(Without(cs, id), other) == CountId(cs, other)
    decreases |cs|
  {
    if |cs| > 0 {
      WithoutCounts(cs[1..], id, other);
      if cs[0].id != id {
        var rest := Without(cs[1..], id);
        assert ([cs[0]] + rest)[1..] == rest;
      }
    }
  }

  /** Counting distributes over concatenation. */
  lemma {:induction false} CountIdAppend(a: seq<Connection>, b: seq<Connection>, id: string)
    ensures CountId(a + b, id) == CountId(a, id) + CountId(b, id)
    decreases |a|
  {
    if |a| == 0 {
      assert a + b == b;
    } else {
      assert (a + b)[1..] == a[1..] + b;
      CountIdAppend(a[1..], b, id);
    }
  }

  // ---------------------------------------------------------------------
  // Registry properties

  /** Adding never deduplicates: the count of `connectionId` for the name
      grows by exactly one, even when that id is already recorded. */
  lemma AddKeepsDuplicates(r: Registry, username: string, connectionId: string, now: nat)
    requires username != "" && connectionId != ""
    ensures CountId(Connections(AddParticipant(r, username, connectionId, now), username), connectionId)
            == CountId(Connections(r, username), connectionId) + 1
    ensures |Connections(AddParticipant(r, username, connectionId, now), username)|
            == |Connections(r, username)| + 1
  {
    var c := Connection(connectionId, now);
    CountIdAppend(Connections(r, username), [c], connectionId);
    assert [c][1..] == [];
  }

  /** Removing drops every copy of the id from the name's list and leaves
      the multiplicity of every other id alone. */
  lemma RemoveDropsEveryCopy(r: Registry, username: string, connectionId: string, other: string)
    ensures CountId(Connections(RemoveParticipant(r, username, connectionId), username), connectionId) == 0
    ensures other != connectionId ==>
              CountId(Connections(RemoveParticipant(r, username, connectionId), username), other)
              == CountId(Connections(r, username), other)
  {
    WithoutCounts(Connections(r, username), connectionId, other);
  }

  /** In a well-formed registry the join gate is plain absence, and it
      closes as soon as a connection is added for the name. */
  lemma FirstJoinGate(r: Registry, username: string, connectionId: string, now: nat)
    requires WellFormed(r)
    ensures IsFirstJoin(r, username) <==> username !in r
    ensures username != "" && connectionId != "" ==>
              !IsFirstJoin(AddParticipant(r, username, connectionId, now), username)
  {
  }

  /** In a well-formed registry the leave gate holds exactly for an absent
      name or a name with one connection; removing that one connection
      deletes the name, so it would be a first join again. */
  lemma LastLeaveGate(r: Registry, username: string)
    requires WellFormed(r)
    ensures IsLastLeave(r, username) <==> username !in r || |r[username].connections| == 1
    ensures username in r && IsLastLeave(r, username) ==>
              var r' := RemoveParticipant(r, username, r[username].connections[0].id);
              username !in r' && IsFirstJoin(r', username)
  {
    if username in r && IsLastLeave(r, username) {
      var cs := r[username].connections;
      assert CountId(cs, cs[0].id) >= 1;
    }
  }

  /** Adding a connection whose id the name does not yet hold and then
      removing that id restores the registry exactly. */
  lemma AddThenRemoveRestores(r: Registry, username: string, connectionId: string, now: nat)
    requires WellFormed(r)
    requires username != "" && connectionId != ""
    requires CountId(Connections(r, username), connectionId) == 0
    ensures RemoveParticipant(AddParticipant(r, username, connectionId, now), username, connectionId) == r
  {
    var cs := Connections(r, username);
    var c := Connection(connectionId, now);
    var added := AddParticipant(r, username, connectionId, now);
    assert added == r[username := Participant(cs + [c])];
    WithoutAppend(cs, [c], connectionId);
    WithoutAbsentId(cs, connectionId);
    assert Without([c], connectionId) == [];
    assert Without(cs + [c], connectionId) == cs;
    if username in r {
      assert RemoveParticipant(added, username, connectionId) == added[username := Participant(cs)];
      assert r[username] == Participant(cs);
    } else {
      assert cs == [];
      assert RemoveParticipant(added, username, connectionId) == added - {username};
    }
  }
}
