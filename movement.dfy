/** The in-game handlers: the per-room snapshot, its broadcast, and position updates. */
module Movement {
  import opened Types
  import opened Seqs
  import opened Rooms
  import opened Storage

  /** One player's entry in a room snapshot. */
  datatype Entry = Entry(
    x: int,
    y: int,
    color: Option<Color>,
    positionIndex: nat,
    username: Option<string>,
    isHost: bool,
    isActive: bool)

  /** The reasons `update_position` rejects a request: 'Player not found',
      'Player not in a room'. */
  datatype Rejection = PlayerNotFound | PlayerNotInRoom

  /** `get_room_game_state` of a roster: one entry per roster id that still has a record,
      keyed by id, carrying the index at which the id was enumerated (its last occurrence,
      since a later entry overwrites an earlier one), the record's position, colour and
      username, whether it is the host, and its active flag (false for an id without a key). */
  function Snapshot(roster: seq<string>, active: map<string, bool>, host: Option<string>,
                    players: map<string, Player>): (state: map<string, Entry>)
    ensures state.Keys == Elements(roster) * players.Keys
    ensures forall s | s in state ::
      var i := state[s].positionIndex;
      i < |roster| && roster[i] == s && forall j | i < j < |roster| :: roster[j] != s
    ensures forall s | s in state ::
      state[s].x == players[s].position.x && state[s].y == players[s].position.y &&
      state[s].color == players[s].color && state[s].username == players[s].username &&
      (state[s].isHost <==> host == Some(s)) &&
      (state[s].isActive <==> s in active && active[s])
    decreases |roster|
  {
    if roster == [] then map[]
    else
      var n := |roster| - 1;
      var sid := roster[n];
      var prev := Snapshot(roster[..n], active, host, players);
      assert roster == roster[..n] + [sid];
      assert forall i | 0 <= i < n :: roster[..n][i] == roster[i];
      if sid in players then
        prev[sid := Entry(players[sid].position.x, players[sid].position.y, players[sid].color, n,
                          players[sid].username, host == Some(sid), sid in active && active[sid])]
      else prev
  }

  /** For a valid room's roster and flags the snapshot's index of an id is its roster
      index (the value `get_player_position_index` reports, Rooms.Room.PositionIndex),
      and the snapshot covers exactly the ids in the room that still have a record. */
  lemma SnapshotAgreesWithRoom(roster: seq<string>, active: map<string, bool>, host: Option<string>,
                               players: map<string, Player>)
    requires NoDup(roster) && active.Keys == Elements(roster)
    ensures
      var state := Snapshot(roster, active, host, players);
      state.Keys == active.Keys * players.Keys &&
      forall s | s in state :: s in roster && state[s].positionIndex == IndexOf(roster, s)
  {
    var state := Snapshot(roster, active, host, players);
    forall s | s in state ensures s in roster && state[s].positionIndex == IndexOf(roster, s) {
      var i := state[s].positionIndex;
      assert roster[i] == s;
      var k := IndexOf(roster, s);
      assert roster[k] == s;
    }
  }

  /** Enumerating one more roster id adds (or overwrites) at most that id's entry. */
  lemma SnapshotAppend(roster: seq<string>, sid: string, active: map<string, bool>,
                       host: Option<string>, players: map<string, Player>)
    ensures Snapshot(roster + [sid], active, host, players) ==
      if sid in players then
        Snapshot(roster, active, host, players)[sid := Entry(players[sid].position.x,
          players[sid].position.y, players[sid].color, |roster|, players[sid].username,
          host == Some(sid), sid in active && active[sid])]
      else Snapshot(roster, active, host, players)
  {
    assert (roster + [sid])[..|roster|] == roster;
  }

  /** The enumerate loop of `get_room_game_state` over one roster. */
  method SnapshotLoop(roster: seq<string>, active: map<string, bool>, host: Option<string>,
                      players: map<string, Player>) returns (state: map<string, Entry>)
    ensures state == Snapshot(roster, active, host, players)
  {
    state := map[];
    for i := 0 to |roster|
      invariant state == Snapshot(roster[..i], active, host, players)
    {
      var sid := roster[i];
      SnapshotAppend(roster[..i], sid, active, host, players);
      assert roster[..i + 1] == roster[..i] + [sid];
      if sid in players {
        var p := players[sid];
        state := state[sid := Entry(p.position.x, p.position.y, p.color, i, p.username,
                                    host == Some(sid), sid in active && active[sid])];
      }
    }
    assert roster[..|roster|] == roster;
  }

  /** `get_room_game_state`: no entries for an unregistered name; otherwise the room's
      snapshot. */
  method RoomGameState(g: GameStates, roomName: string) returns (state: map<string, Entry>)
    ensures roomName !in g.rooms ==> state == map[]
    ensures roomName in g.rooms ==>
      var room := g.rooms[roomName];
      state == Snapshot(room.players, room.active, room.hostSid, g.players)
  {
    if roomName !in g.rooms {
      return map[];
    }
    var room := g.rooms[roomName];
    state := SnapshotLoop(room.players, room.active, room.hostSid, g.players);
  }

  /** `get_room_game_state` as written: the first roster id's entry either looks up a
      deleted record (KeyError) or calls `is_player_activated`, which Room does not
      define (AttributeError). Only an unregistered name or an empty roster returns,
      and then with no entries. */
  function RoomGameStateAsWritten(g: GameStates, roomName: string): (r: Outcome<map<string, Entry>>)
    reads g, g.rooms.Values
    ensures r.Returned? ==> r.value == map[]
    ensures r.Raised? ==> r.exception in {KeyError, AttributeError}
    ensures r.Returned? <==> roomName !in g.rooms || g.rooms[roomName].players == []
  {
    if roomName !in g.rooms then Returned(map[])
    else
      var roster := g.rooms[roomName].players;
      if roster == [] then Returned(map[])
      else if roster[0] !in g.players then Raised(KeyError)
      else Raised(AttributeError)
  }

  /** Under the invariant every registered room has a player, so the snapshot as written
      raises for every registered room, while the corrected one has an entry for each
      member whose record survives. */
  lemma SnapshotAsWrittenRaises(g: GameStates, roomName: string)
    requires g.Valid() && roomName in g.rooms
    ensures RoomGameStateAsWritten(g, roomName).Raised?
    ensures
      var room := g.rooms[roomName];
      room.players[0] in g.players ==>
        room.players[0] in Snapshot(room.players, room.active, room.hostSid, g.players)
  {
    assert g.RoomOk(g.rooms[roomName]);
  }

  /** The snapshot of a room object. */
  function RoomSnapshot(room: Room, players: map<string, Player>): (state: map<string, Entry>)
    reads room
  {
    Snapshot(room.players, room.active, room.hostSid, players)
  }

  /** A room the periodic broadcast sends a snapshot to: it has players and its game started. */
  predicate InPlay(g: GameStates, n: string)
    reads g, g.rooms.Values
  {
    n in g.rooms && !g.rooms[n].IsEmpty() && g.rooms[n].started
  }

  /** `broadcast_games_state`: one snapshot per taken name whose room has players and a
      started game, and none for any other room. (`rooms[room_name]` needs every taken
      name to be registered.) */
  method BroadcastGamesState(g: GameStates) returns (sent: map<string, map<string, Entry>>)
    requires g.activeRoomNames <= g.rooms.Keys
    ensures sent.Keys == set n | n in g.activeRoomNames && InPlay(g, n)
    ensures forall n | n in sent :: n in g.rooms && sent[n] == RoomSnapshot(g.rooms[n], g.players)
  {
    sent := map[];
    var todo := g.activeRoomNames;
    while todo != {}
      invariant todo <= g.activeRoomNames
      invariant sent.Keys == set n | n in g.activeRoomNames - todo && InPlay(g, n)
      invariant forall n | n in sent :: n in g.rooms && sent[n] == RoomSnapshot(g.rooms[n], g.players)
      decreases |todo|
    {
      var n :| n in todo;
      todo := todo - {n};
      if g.rooms[n].IsEmpty() || !g.rooms[n].started {
        continue;
      }
      var state := RoomGameState(g, n);
      sent := sent[n := state];
    }
  }

  /** `update_position`. An unknown connection, and a record naming no room or an
      unregistered one, are rejected with no change. Otherwise only that record changes:
      a present, non-empty username replaces the stored one, and the position is replaced
      only when both coordinates are present. */
  method UpdatePosition(g: GameStates, sid: string, x: Option<int>, y: Option<int>,
                        username: Option<string>) returns (r: Option<Rejection>)
    modifies g
    ensures g.rooms == old(g.rooms) && g.activeRoomNames == old(g.activeRoomNames)
    ensures old(g.Valid()) ==> g.Valid()
    ensures sid !in old(g.players) ==> r == Some(PlayerNotFound)
    ensures sid in old(g.players) &&
            (old(g.players[sid].room).None? || old(g.players[sid].room.value) == "" ||
             old(g.players[sid].room.value) !in g.rooms) ==>
      r == Some(PlayerNotInRoom)
    ensures r.None? <==>
      sid in old(g.players) && old(g.players[sid].room).Some? &&
      old(g.players[sid].room.value) != "" && old(g.players[sid].room.value) in g.rooms
    ensures r.Some? ==> g.players == old(g.players)
    ensures r.None? ==>
      var p := old(g.players[sid]);
      g.players == old(g.players)[sid := p.(
        username := if username.Some? && username.value != "" then username else p.username,
        position := if x.Some? && y.Some? then Pos(x.value, y.value) else p.position)]
  {
    if sid !in g.players {
      return Some(PlayerNotFound);
    }
    var roomName := g.players[sid].room;
    if roomName.None? || roomName.value == "" || roomName.value !in g.rooms {
      return Some(PlayerNotInRoom);
    }
    if username.Some? && username.value != "" {
      g.players := g.players[sid := g.players[sid].(username := username)];
    }
    if x.Some? && y.Some? {
      g.players := g.players[sid := g.players[sid].(position := Pos(x.value, y.value))];
    }
    r := None;
  }
}
