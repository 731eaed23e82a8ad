/** The lobby handlers: connect, disconnect, create, join, leave, start, list and the reaper. */
module Lobby {
  import opened Types
  import opened Seqs
  import opened Rooms
  import opened Storage
  import Geometry

  /** Rooms empty for longer than this many seconds (strictly) are reaped. */
  const INACTIVE_ROOM_THRESHOLD: int := 2 * 60 * 60

  /** The failure replies. Their messages on the wire: 'Room name is required',
      'Room already exists', 'Room does not exist', 'Game already started', 'Room is full',
      'Player not found', 'Not in a room', 'Only the host can start the game'. */
  datatype Error =
    | NameRequired | RoomExists | RoomNotFound | GameAlreadyStarted | RoomFull
    | PlayerNotFound | NotInRoom | NotHost

  datatype Result<T> = Ok(value: T) | Err(error: Error)

  /** One element of `player_list`. */
  datatype ListEntry = ListEntry(id: string, username: Option<string>, isHost: bool)

  /** The reply of a successful create or join. */
  datatype RoomInfo = RoomInfo(
    color: Option<Color>,
    walls: seq<Rect>,
    x: int,
    y: int,
    positionIndex: nat,
    isHost: bool,
    playerList: seq<ListEntry>,
    gameStarted: bool)

  /** The successful replies of leave: 'Already left room', 'Room no longer exists', 'Left room'. */
  datatype LeaveOutcome = AlreadyLeft | RoomGone | Left

  /** The ids of a player list, in order. */
  ghost function Ids(list: seq<ListEntry>): (ids: seq<string>)
    ensures |ids| == |list| && forall k | 0 <= k < |list| :: ids[k] == list[k].id
  {
    if list == [] then [] else [list[0].id] + Ids(list[1..])
  }

  /** `get_player_list`: the roster ids that are in the room and still have a record, in
      roster order, with their usernames and the host flag. */
  function PlayerList(roster: seq<string>, active: map<string, bool>, host: Option<string>,
                      players: map<string, Player>): (list: seq<ListEntry>)
    ensures Subseq(Ids(list), roster)
    ensures forall k | 0 <= k < |list| ::
      list[k].id in active && list[k].id in players &&
      list[k].username == players[list[k].id].username &&
      (list[k].isHost <==> host == Some(list[k].id))
    ensures forall i | 0 <= i < |roster| ::
      roster[i] in active && roster[i] in players ==> roster[i] in Ids(list)
  {
    if roster == [] then []
    else
      var rest := PlayerList(roster[1..], active, host, players);
      var sid := roster[0];
      assert forall i | 1 <= i < |roster| :: roster[i] == roster[1..][i - 1];
      if sid in active && sid in players then
        var list := [ListEntry(sid, players[sid].username, host == Some(sid))] + rest;
        assert Ids(list) == [sid] + Ids(rest) by { assert list[1..] == rest; }
        list
      else rest
  }

  /** When every roster id is in the room and has a record, the player list names exactly
      the roster, in roster order. */
  lemma {:induction false} PlayerListCoversRoster(roster: seq<string>, active: map<string, bool>,
                                                  host: Option<string>, players: map<string, Player>)
    requires Elements(roster) <= active.Keys && Elements(roster) <= players.Keys
    ensures Ids(PlayerList(roster, active, host, players)) == roster
  {
    if roster != [] {
      assert Elements(roster[1..]) <= Elements(roster);
      PlayerListCoversRoster(roster[1..], active, host, players);
      var list := PlayerList(roster, active, host, players);
      assert roster[0] in Elements(roster);
      assert list[1..] == PlayerList(roster[1..], active, host, players);
      assert Ids(list) == [list[0].id] + Ids(list[1..]);
    }
  }

  /** Appending one id to the roster appends at most its entry to the player list. */
  lemma {:induction false} PlayerListAppend(roster: seq<string>, sid: string, active: map<string, bool>,
                                            host: Option<string>, players: map<string, Player>)
    ensures PlayerList(roster + [sid], active, host, players) ==
      PlayerList(roster, active, host, players) +
      (if sid in active && sid in players then [ListEntry(sid, players[sid].username, host == Some(sid))]
       else [])
  {
    if roster != [] {
      assert (roster + [sid])[1..] == roster[1..] + [sid];
      PlayerListAppend(roster[1..], sid, active, host, players);
    }
  }

  /** The loop of `get_player_list`. */
  method GetPlayerList(roster: seq<string>, active: map<string, bool>, host: Option<string>,
                       players: map<string, Player>) returns (list: seq<ListEntry>)
    ensures list == PlayerList(roster, active, host, players)
  {
    list := [];
    for i := 0 to |roster|
      invariant list == PlayerList(roster[..i], active, host, players)
    {
      var sid := roster[i];
      var entry := if sid in active && sid in players
        then [ListEntry(sid, players[sid].username, host == Some(sid))] else [];
      PlayerListAppend(roster[..i], sid, active, host, players);
      assert roster[..i + 1] == roster[..i] + [sid];
      list := list + entry;
    }
    assert roster[..|roster|] == roster;
  }

  /** `get_player_list` as written: `players[player_sid]` raises KeyError for the first
      id in the room whose record is gone; otherwise the same list as PlayerList. */
  function PlayerListAsWritten(roster: seq<string>, active: map<string, bool>, host: Option<string>,
                               players: map<string, Player>): (r: Outcome<seq<ListEntry>>)
    ensures r.Raised? <==> exists i | 0 <= i < |roster| :: roster[i] in active && roster[i] !in players
    ensures r.Raised? ==> r.exception == KeyError
    ensures r.Returned? ==> r.value == PlayerList(roster, active, host, players)
  {
    if roster == [] then Returned([])
    else
      var sid := roster[0];
      assert forall i | 1 <= i < |roster| :: roster[i] == roster[1..][i - 1];
      if sid !in active then PlayerListAsWritten(roster[1..], active, host, players)
      else if sid !in players then Raised(KeyError)
      else match PlayerListAsWritten(roster[1..], active, host, players)
        case Raised(e) => Raised(e)
        case Returned(rest) => Returned([ListEntry(sid, players[sid].username, host == Some(sid))] + rest)
  }

  /** A member of a started room that left and then disconnected keeps its roster slot but
      loses its record: the list as written raises where the corrected list skips it. */
  lemma PlayerListAsWrittenRaises()
    ensures PlayerListAsWritten(["a", "b"], map["a" := true, "b" := false], Some("a"),
                                map["a" := NewPlayer("a")]) == Raised(KeyError)
    ensures PlayerList(["a", "b"], map["a" := true, "b" := false], Some("a"),
                       map["a" := NewPlayer("a")]) == [ListEntry("a", None, true)]
  {
    var roster := ["a", "b"];
    assert roster[1] == "b";
    assert roster[1..][1..] == [];
  }

  /** `f'Player {sid[:5]}'`, the username used when the request carries none. */
  function DefaultUsername(sid: string): (u: string)
    ensures |u| == 7 + (if |sid| < 5 then |sid| else 5)
    ensures u[..7] == "Player " && u[7..] == sid[..|u| - 7]
  {
    "Player " + (if |sid| < 5 then sid else sid[..5])
  }

  /** The record of a player seated at slot `n` of room `name`: spawn point and colour
      `n`, the room name and the username. */
  function Seated(p: Player, name: string, n: nat, username: string): (q: Player)
    requires n < |PLAYER_STARTS|
    ensures q.sid == p.sid && q.room == Some(name) && q.username == Some(username)
    ensures q.position == PLAYER_STARTS[n] && q.color == Some(PLAYER_COLORS[n])
  {
    p.(position := PLAYER_STARTS[n], color := Some(PLAYER_COLORS[n]),
       room := Some(name), username := Some(username))
  }

  /** `connect`: a fresh record with a zeroed position and no room. */
  method Connect(g: GameStates, sid: string)
    requires g.Valid()
    modifies g
    ensures g.Valid()
    ensures g.players == old(g.players)[sid := NewPlayer(sid)]
    ensures g.rooms == old(g.rooms) && g.activeRoomNames == old(g.activeRoomNames)
  {
    g.players := g.players[sid := NewPlayer(sid)];
  }

  /** `create_room`: an empty or taken name fails with no state change; otherwise a room
      whose only member and host is the requester, with the filtered layout, is
      registered, and the requester is seated at slot 0. */
  method CreateRoom(g: GameStates, sid: string, roomName: string, username: Option<string>,
                    candidates: seq<Rect>, now: int) returns (r: Result<RoomInfo>)
    requires g.Valid() && sid in g.players
    modifies g
    ensures g.Valid()
    ensures roomName == "" ==> r == Err(NameRequired)
    ensures roomName != "" && roomName in old(g.activeRoomNames) ==> r == Err(RoomExists)
    ensures r.Err? ==>
      g.players == old(g.players) && g.rooms == old(g.rooms) &&
      g.activeRoomNames == old(g.activeRoomNames)
    ensures r.Ok? <==> roomName != "" && roomName !in old(g.activeRoomNames)
    ensures r.Ok? ==>
      roomName in g.rooms && fresh(g.rooms[roomName]) &&
      g.rooms == old(g.rooms)[roomName := g.rooms[roomName]] &&
      g.activeRoomNames == old(g.activeRoomNames) + {roomName}
    ensures r.Ok? ==>
      var room := g.rooms[roomName];
      var name := username.GetOr(DefaultUsername(sid));
      room.players == [sid] && room.active == map[sid := true] && room.hostSid == Some(sid) &&
      !room.started && room.createdAt == now &&
      room.walls == Geometry.Survivors(candidates, PLAYER_STARTS, Geometry.CLEARANCE) &&
      g.players == old(g.players)[sid := Seated(old(g.players[sid]), roomName, 0, name)] &&
      r.value == RoomInfo(Some(PLAYER_COLORS[0]), room.walls, PLAYER_STARTS[0].x, PLAYER_STARTS[0].y,
                          0, true, [ListEntry(sid, Some(name), true)], false)
  {
    if roomName == "" {
      return Err(NameRequired);
    }
    if roomName in g.activeRoomNames {
      return Err(RoomExists);
    }
    var walls := Geometry.FilterWalls(candidates);
    var name := username.GetOr(DefaultUsername(sid));
    var room := OpenRoom(g, roomName, sid, name, walls, now);
    var list := GetPlayerList(room.players, room.active, room.hostSid, g.players);
    assert list == [ListEntry(sid, Some(name), true)] by {
      assert room.players[1..] == [];
    }
    r := Ok(RoomInfo(Some(PLAYER_COLORS[0]), room.walls, PLAYER_STARTS[0].x, PLAYER_STARTS[0].y,
                     0, true, list, false));
  }

  /** The success branch of `create_room`: register a room whose only member and host is
      the requester, take its name, and seat the requester at slot 0. */
  method OpenRoom(g: GameStates, roomName: string, sid: string, name: string, walls: seq<Rect>,
                  now: int) returns (room: Room)
    requires g.Valid() && sid in g.players && roomName != "" && roomName !in g.activeRoomNames
    requires Geometry.WallsClear(walls)
    modifies g
    ensures g.Valid() && fresh(room)
    ensures g.rooms == old(g.rooms)[roomName := room] && g.activeRoomNames == old(g.activeRoomNames) + {roomName}
    ensures room.players == [sid] && room.active == map[sid := true] && room.hostSid == Some(sid)
    ensures !room.started && room.createdAt == now && room.walls == walls
    ensures g.players == old(g.players)[sid := Seated(old(g.players[sid]), roomName, 0, name)]
  {
    room := new Room(walls, sid, now);
    g.rooms := g.rooms[roomName := room];
    g.activeRoomNames := g.activeRoomNames + {roomName};
    g.players := g.players[sid := Seated(g.players[sid], roomName, 0, name)];
  }

  /** `join_room`. An empty name, a name not taken, and a started room the requester is
      not a member of fail with no state change. A member (in either phase) is reactivated
      in place: the roster is untouched and the reply carries its roster index. Otherwise,
      in the lobby phase, a room with MAX_PLAYERS ids is full; if not, the requester is
      appended and seated at slot n, the pre-insertion roster size. */
  method JoinRoom(g: GameStates, sid: string, roomName: string, username: Option<string>)
      returns (r: Result<RoomInfo>)
    requires g.Valid() && sid in g.players
    modifies g, g.RoomsNamed(roomName)
    ensures g.Valid()
    ensures g.rooms == old(g.rooms) && g.activeRoomNames == old(g.activeRoomNames)
    ensures roomName == "" ==> r == Err(NameRequired)
    ensures roomName != "" && roomName !in old(g.activeRoomNames) ==> r == Err(RoomNotFound)
    ensures r.Err? ==> g.players == old(g.players) && unchanged(old(g.RoomsNamed(roomName)))
    ensures roomName != "" && roomName in old(g.rooms) ==>
      var room := g.rooms[roomName];
      old(room.started) && sid !in old(room.active) ==> r == Err(GameAlreadyStarted)
    ensures roomName != "" && roomName in old(g.rooms) ==>
      var room := g.rooms[roomName];
      sid in old(room.active) ==>
        r.Ok? && room.players == old(room.players) && room.active == old(room.active)[sid := true] &&
        room.hostSid == old(room.hostSid) && room.started == old(room.started) &&
        g.players == old(g.players)[sid := old(g.players[sid]).(room := Some(roomName))] &&
        r.value == RoomInfo(g.players[sid].color, room.walls, g.players[sid].position.x,
                            g.players[sid].position.y, IndexOf(room.players, sid),
                            room.hostSid == Some(sid),
                            PlayerList(room.players, room.active, room.hostSid, g.players),
                            room.started)
    ensures roomName != "" && roomName in old(g.rooms) ==>
      var room := g.rooms[roomName];
      var n := |old(room.players)|;
      !old(room.started) && sid !in old(room.active) ==>
        if n >= MAX_PLAYERS then r == Err(RoomFull)
        else
          var name := username.GetOr(DefaultUsername(sid));
          r.Ok? && room.players == old(room.players) + [sid] &&
          room.active == old(room.active)[sid := true] &&
          room.hostSid == old(room.hostSid) && !room.started &&
          g.players == old(g.players)[sid := Seated(old(g.players[sid]), roomName, n, name)] &&
          r.value == RoomInfo(Some(PLAYER_COLORS[n]), room.walls, PLAYER_STARTS[n].x,
                              PLAYER_STARTS[n].y, n, false,
                              PlayerList(room.players, room.active, room.hostSid, g.players),
                              false)
  {
    if roomName == "" {
      return Err(NameRequired);
    }
    if roomName !in g.activeRoomNames {
      return Err(RoomNotFound);
    }
    var room := g.rooms[roomName];
    if room.started && !room.IsPlayerInRoom(sid) {
      return Err(GameAlreadyStarted);
    }
    if room.IsPlayerInRoom(sid) {
      var info := Rejoin(g, roomName, sid);
      return Ok(info);
    }
    if |room.players| >= MAX_PLAYERS {
      return Err(RoomFull);
    }
    var info := Seat(g, roomName, sid, username.GetOr(DefaultUsername(sid)));
    r := Ok(info);
  }

  /** The reconnect branch of `join_room`: reactivate a member in place and point its
      record at the room again. */
  method Rejoin(g: GameStates, roomName: string, sid: string) returns (info: RoomInfo)
    requires g.Valid() && sid in g.players && roomName in g.rooms
    requires sid in g.rooms[roomName].active
    modifies g, g.rooms[roomName]
    ensures g.Valid()
    ensures g.rooms == old(g.rooms) && g.activeRoomNames == old(g.activeRoomNames)
    ensures
      var room := g.rooms[roomName];
      room.players == old(room.players) && room.active == old(room.active)[sid := true] &&
      room.hostSid == old(room.hostSid) && room.started == old(room.started) &&
      g.players == old(g.players)[sid := old(g.players[sid]).(room := Some(roomName))] &&
      info == RoomInfo(g.players[sid].color, room.walls, g.players[sid].position.x,
                       g.players[sid].position.y, IndexOf(room.players, sid),
                       room.hostSid == Some(sid),
                       PlayerList(room.players, room.active, room.hostSid, g.players),
                       room.started)
  {
    var room := g.rooms[roomName];
    room.ActivatePlayer(sid);
    g.players := g.players[sid := g.players[sid].(room := Some(roomName))];
    var p := g.players[sid];
    var list := GetPlayerList(room.players, room.active, room.hostSid, g.players);
    info := RoomInfo(p.color, room.walls, p.position.x, p.position.y,
                     IndexOf(room.players, sid), room.hostSid == Some(sid), list, room.started);
  }

  /** The lobby branch of `join_room` once capacity is checked: seat the requester at
      slot n, the pre-insertion roster size, then append it. */
  method Seat(g: GameStates, roomName: string, sid: string, name: string) returns (info: RoomInfo)
    requires g.Valid() && sid in g.players && roomName in g.rooms
    requires sid !in g.rooms[roomName].active && !g.rooms[roomName].started
    requires |g.rooms[roomName].players| < MAX_PLAYERS
    modifies g, g.rooms[roomName]
    ensures g.Valid()
    ensures g.rooms == old(g.rooms) && g.activeRoomNames == old(g.activeRoomNames)
    ensures
      var room := g.rooms[roomName];
      var n := |old(room.players)|;
      room.players == old(room.players) + [sid] && room.active == old(room.active)[sid := true] &&
      room.hostSid == old(room.hostSid) && !room.started &&
      g.players == old(g.players)[sid := Seated(old(g.players[sid]), roomName, n, name)] &&
      info == RoomInfo(Some(PLAYER_COLORS[n]), room.walls, PLAYER_STARTS[n].x,
                       PLAYER_STARTS[n].y, n, false,
                       PlayerList(room.players, room.active, room.hostSid, g.players), false)
  {
    var room := g.rooms[roomName];
    var n := |room.players|;
    g.players := g.players[sid := Seated(g.players[sid], roomName, n, name)];
    room.AddPlayer(sid);
    var list := GetPlayerList(room.players, room.active, room.hostSid, g.players);
    info := RoomInfo(Some(PLAYER_COLORS[n]), room.walls, PLAYER_STARTS[n].x, PLAYER_STARTS[n].y,
                     n, false, list, false);
  }

  /** `leave_room`. An unknown connection fails. Otherwise the call always succeeds and its
      one effect on the record is to clear its room, so leaving twice is harmless: no room,
      an empty or unregistered room name, or a room that does not count the requester
      change nothing else. A member of a started room is only deactivated, so every roster
      index stays put; a member of a lobby room is removed, the host role passes to the new
      first roster id, and a room left empty is deleted and its name freed. */
  method LeaveRoom(g: GameStates, sid: string) returns (r: Result<LeaveOutcome>)
    requires g.Valid()
    modifies g, g.RoomOfPlayer(sid)
    ensures g.Valid()
    ensures sid !in old(g.players) ==> r == Err(PlayerNotFound) && g.players == old(g.players)
    ensures sid in old(g.players) ==>
      r.Ok? && g.players == old(g.players)[sid := old(g.players[sid]).(room := None)]
    ensures sid in old(g.players) && old(g.players[sid].room).None? ==>
      r == Ok(AlreadyLeft) && g.players == old(g.players)
    ensures sid in old(g.players) && old(g.players[sid].room) == Some("") ==> r == Ok(AlreadyLeft)
    ensures sid in old(g.players) && old(g.players[sid].room).Some? &&
            old(g.players[sid].room.value) != "" && old(g.players[sid].room.value) !in old(g.rooms) ==>
      r == Ok(RoomGone)
    ensures sid in old(g.players) && old(g.players[sid].room).Some? &&
            old(g.players[sid].room.value) in old(g.rooms) && old(g.MemberRoom(sid)).None? ==>
      r == Ok(AlreadyLeft)
    ensures old(g.MemberRoom(sid)).None? ==>
      g.rooms == old(g.rooms) && g.activeRoomNames == old(g.activeRoomNames) &&
      unchanged(old(g.RoomOfPlayer(sid)))
    ensures old(g.MemberRoom(sid)).Some? ==>
      var name := old(g.MemberRoom(sid)).value;
      var room := old(g.rooms[name]);
      r == Ok(Left) &&
      (old(room.started) ==>
        g.rooms == old(g.rooms) && g.activeRoomNames == old(g.activeRoomNames) &&
        room.players == old(room.players) && room.active == old(room.active)[sid := false] &&
        room.hostSid == old(room.hostSid) && room.started) &&
      (!old(room.started) ==>
        room.players == RemoveFirst(old(room.players), sid) &&
        room.active == old(room.active) - {sid} && !room.started &&
        (old(room.hostSid) == Some(sid) && room.players != [] ==> room.hostSid == Some(room.players[0])) &&
        (old(room.hostSid) != Some(sid) ==> room.hostSid == old(room.hostSid)) &&
        (room.players == [] ==>
          g.rooms == old(g.rooms) - {name} && g.activeRoomNames == old(g.activeRoomNames) - {name}) &&
        (room.players != [] ==>
          g.rooms == old(g.rooms) && g.activeRoomNames == old(g.activeRoomNames)))
  {
    if sid !in g.players {
      return Err(PlayerNotFound);
    }
    var roomName := g.players[sid].room;
    if roomName.None? {
      return Ok(AlreadyLeft);
    }
    var name := roomName.value;
    if name == "" {
      g.players := g.players[sid := g.players[sid].(room := None)];
      return Ok(AlreadyLeft);
    }
    if name !in g.rooms {
      g.players := g.players[sid := g.players[sid].(room := None)];
      return Ok(RoomGone);
    }
    if !g.rooms[name].IsPlayerInRoom(sid) {
      g.players := g.players[sid := g.players[sid].(room := None)];
      return Ok(AlreadyLeft);
    }
    Vacate(g, name, sid);
    r := Ok(Left);
  }

  /** The member branch of `leave_room`. */
  method Vacate(g: GameStates, name: string, sid: string)
    requires g.Valid() && sid in g.players && name in g.rooms && sid in g.rooms[name].active
    modifies g, g.rooms[name]
    ensures g.Valid()
    ensures g.players == old(g.players)[sid := old(g.players[sid]).(room := None)]
    ensures
      var room := old(g.rooms[name]);
      (old(room.started) ==>
        g.rooms == old(g.rooms) && g.activeRoomNames == old(g.activeRoomNames) &&
        room.players == old(room.players) && room.active == old(room.active)[sid := false] &&
        room.hostSid == old(room.hostSid) && room.started) &&
      (!old(room.started) ==>
        room.players == RemoveFirst(old(room.players), sid) &&
        room.active == old(room.active) - {sid} && !room.started &&
        (old(room.hostSid) == Some(sid) && room.players != [] ==> room.hostSid == Some(room.players[0])) &&
        (old(room.hostSid) != Some(sid) ==> room.hostSid == old(room.hostSid)) &&
        (room.players == [] ==>
          g.rooms == old(g.rooms) - {name} && g.activeRoomNames == old(g.activeRoomNames) - {name}) &&
        (room.players != [] ==>
          g.rooms == old(g.rooms) && g.activeRoomNames == old(g.activeRoomNames)))
  {
    var room := g.rooms[name];
    g.players := g.players[sid := g.players[sid].(room := None)];
    if room.started {
      room.DeactivatePlayer(sid);
    } else {
      room.RemovePlayer(sid);
      if room.players != [] {
        assert room.players[0] in Elements(room.players);
      }
      if room.players == [] {
        g.rooms := g.rooms - {name};
        g.activeRoomNames := g.activeRoomNames - {name};
      }
    }
  }

  /** `start_game`. An unknown connection, a record that names no registered room, and a
      requester other than that room's host fail with no state change; the host's call
      marks the room started and changes nothing else, so a second call changes nothing. */
  method StartGame(g: GameStates, sid: string) returns (r: Result<()>)
    requires g.Valid()
    modifies g.RoomOfPlayer(sid)
    ensures g.Valid()
    ensures sid !in g.players ==> r == Err(PlayerNotFound)
    ensures sid in g.players && (g.players[sid].room.None? || g.players[sid].room.value !in g.rooms) ==>
      r == Err(NotInRoom)
    ensures sid in g.players && g.players[sid].room.Some? && g.players[sid].room.value in g.rooms &&
            old(g.rooms[g.players[sid].room.value].hostSid) != Some(sid) ==>
      r == Err(NotHost)
    ensures r.Err? ==> unchanged(g.RoomOfPlayer(sid))
    ensures r.Ok? <==>
      sid in g.players && g.players[sid].room.Some? && g.players[sid].room.value in g.rooms &&
      old(g.rooms[g.players[sid].room.value].hostSid) == Some(sid)
    ensures r.Ok? ==>
      var room := g.rooms[g.players[sid].room.value];
      room.started && room.players == old(room.players) && room.active == old(room.active) &&
      room.hostSid == old(room.hostSid) == Some(sid)
  {
    if sid !in g.players {
      return Err(PlayerNotFound);
    }
    var roomName := g.players[sid].room;
    if roomName.None? || roomName.value == "" || roomName.value !in g.rooms {
      return Err(NotInRoom);
    }
    var room := g.rooms[roomName.value];
    if room.hostSid != Some(sid) {
      return Err(NotHost);
    }
    room.StartGame();
    r := Ok(());
  }

  /** `list_rooms`: the roster size of every taken name that has a room; under the
      invariant that is every taken name, with between 1 and MAX_PLAYERS players. */
  method ListRooms(g: GameStates) returns (info: map<string, nat>)
    ensures info.Keys == g.activeRoomNames * g.rooms.Keys
    ensures forall n | n in info :: info[n] == |g.rooms[n].players|
    ensures g.Valid() ==> info.Keys == g.activeRoomNames
    ensures g.Valid() ==> forall n | n in info :: 1 <= info[n] <= MAX_PLAYERS
  {
    info := map[];
    var todo := g.activeRoomNames;
    while todo != {}
      invariant todo <= g.activeRoomNames
      invariant info.Keys == (g.activeRoomNames - todo) * g.rooms.Keys
      invariant forall n | n in info :: info[n] == |g.rooms[n].players|
      decreases |todo|
    {
      var n :| n in todo;
      if n in g.rooms {
        info := info[n := |g.rooms[n].players|];
      }
      todo := todo - {n};
    }
  }

  /** A room the reaper deletes: an empty roster, created more than the threshold ago. */
  predicate Expired(room: Room, now: int)
    reads room
  {
    room.IsEmpty() && now - room.createdAt > INACTIVE_ROOM_THRESHOLD
  }

  /** The taken names whose room has expired. */
  ghost function ExpiredNames(g: GameStates, now: int): (names: set<string>)
    reads g, g.rooms.Values
  {
    set n | n in g.activeRoomNames && n in g.rooms && Expired(g.rooms[n], now)
  }

  /** Under the invariant every room holds a player, so no room ever expires. */
  lemma NothingExpires(g: GameStates, now: int)
    requires g.Valid()
    ensures ExpiredNames(g, now) == {}
  {
    forall n | n in g.rooms ensures !g.rooms[n].IsEmpty() {
      assert g.RoomOk(g.rooms[n]);
    }
  }

  /** The first loop of `cleanup_inactive_rooms`, with `now` for `time.time()`: the taken
      names whose room is registered, has an empty roster and was created more than
      the threshold ago. */
  method CollectExpired(g: GameStates, now: int) returns (names: set<string>)
    ensures names == ExpiredNames(g, now)
    ensures forall n | n in names :: n in g.rooms && g.rooms[n].players == []
    ensures g.Valid() ==> names == {}
  {
    names := {};
    var todo := g.activeRoomNames;
    while todo != {}
      invariant todo <= g.activeRoomNames
      invariant names ==
        set n | n in g.activeRoomNames - todo && n in g.rooms && Expired(g.rooms[n], now)
      decreases |todo|
    {
      var n :| n in todo;
      if n in g.rooms && g.rooms[n].IsEmpty() && now - g.rooms[n].createdAt > INACTIVE_ROOM_THRESHOLD {
        names := names + {n};
      }
      todo := todo - {n};
    }
    if g.Valid() {
      NothingExpires(g, now);
    }
  }

  /** `cleanup_inactive_rooms`: deletes exactly the expired rooms and frees their names;
      rooms with players are never touched. Because no handler leaves a registered room
      with an empty roster, under the invariant nothing is ever reaped. */
  method CleanupInactiveRooms(g: GameStates, now: int) returns (cleaned: set<string>)
    modifies g
    ensures cleaned == old(ExpiredNames(g, now))
    ensures g.rooms == old(g.rooms) - cleaned && g.activeRoomNames == old(g.activeRoomNames) - cleaned
    ensures g.players == old(g.players)
    ensures old(g.Valid()) ==> cleaned == {} && g.Valid()
  {
    cleaned := CollectExpired(g, now);
    var rest := cleaned;
    while rest != {}
      invariant rest <= cleaned
      invariant g.rooms == old(g.rooms) - (cleaned - rest)
      invariant g.activeRoomNames == old(g.activeRoomNames) - (cleaned - rest)
      invariant g.players == old(g.players)
      decreases |rest|
    {
      var n :| n in rest;
      if n in g.rooms {
        g.rooms := g.rooms - {n};
      }
      g.activeRoomNames := g.activeRoomNames - {n};
      rest := rest - {n};
    }
  }

  /** `disconnect`: a member leaves its room exactly as through `leave_room`, then the
      record is deleted; an unknown connection changes nothing. */
  method Disconnect(g: GameStates, sid: string)
    requires g.Valid()
    modifies g, g.RoomOfPlayer(sid)
    ensures g.Valid()
    ensures g.players == old(g.players) - {sid}
    ensures old(g.MemberRoom(sid)).None? ==>
      g.rooms == old(g.rooms) && g.activeRoomNames == old(g.activeRoomNames) &&
      unchanged(old(g.RoomOfPlayer(sid)))
    ensures old(g.MemberRoom(sid)).Some? ==>
      var name := old(g.MemberRoom(sid)).value;
      var room := old(g.rooms[name]);
      (old(room.started) ==>
        g.rooms == old(g.rooms) && g.activeRoomNames == old(g.activeRoomNames) &&
        room.players == old(room.players) && room.active == old(room.active)[sid := false] &&
        room.hostSid == old(room.hostSid) && room.started) &&
      (!old(room.started) ==>
        room.players == RemoveFirst(old(room.players), sid) &&
        room.active == old(room.active) - {sid} && !room.started &&
        (old(room.hostSid) == Some(sid) && room.players != [] ==> room.hostSid == Some(room.players[0])) &&
        (old(room.hostSid) != Some(sid) ==> room.hostSid == old(room.hostSid)) &&
        (room.players == [] ==>
          g.rooms == old(g.rooms) - {name} && g.activeRoomNames == old(g.activeRoomNames) - {name}) &&
        (room.players != [] ==>
          g.rooms == old(g.rooms) && g.activeRoomNames == old(g.activeRoomNames)))
  {
    if sid !in g.players {
      return;
    }
    var roomName := g.players[sid].room;
    if roomName.Some? && roomName.value != "" && roomName.value in g.rooms {
      var _ := LeaveRoom(g, sid);
    }
    g.players := g.players - {sid};
  }

  /** The reconnect branch of `join_room` as written: the member is reactivated, the player
      list is built (raising KeyError when a record of an id in the room is gone), and then
      the log line reads `current_player_count`, which this branch never assigns. The
      handler therefore always ends in NameError, with the member reactivated but its
      record still naming no room if it had left. */
  method RejoinAsWritten(g: GameStates, roomName: string, sid: string) returns (r: Outcome<RoomInfo>)
    requires g.Valid() && sid in g.players && roomName in g.rooms
    requires sid in g.rooms[roomName].active && g.rooms[roomName].started
    modifies g.rooms[roomName]
    ensures g.Valid()
    ensures
      var room := g.rooms[roomName];
      room.players == old(room.players) && room.active == old(room.active)[sid := true] &&
      room.hostSid == old(room.hostSid) && room.started
    ensures
      var room := g.rooms[roomName];
      var list := PlayerListAsWritten(room.players, room.active, room.hostSid, g.players);
      r == if list.Raised? then Raised(KeyError) else Raised(NameError)
  {
    var room := g.rooms[roomName];
    room.ActivatePlayer(sid);
    var list := PlayerListAsWritten(room.players, room.active, room.hostSid, g.players);
    if list.Raised? {
      return Raised(list.exception);
    }
    r := Raised(NameError);
  }

  /** `disconnect` as written: for a member of a registered room it calls the `leave_room`
      handler with one argument where two are required, which raises TypeError before
      anything changes, so the record survives and the member stays in its room. Only a
      record naming no registered room is deleted. */
  method DisconnectAsWritten(g: GameStates, sid: string) returns (r: Outcome<()>)
    requires g.Valid()
    modifies g
    ensures g.Valid()
    ensures g.rooms == old(g.rooms) && g.activeRoomNames == old(g.activeRoomNames)
    ensures sid in g.players && g.MemberRoom(sid).Some? ==> r == Raised(TypeError)
    ensures r == Raised(TypeError) ==> g.players == old(g.players)
    ensures r.Returned? ==> g.players == old(g.players) - {sid}
    ensures r == Raised(TypeError) <==>
      sid in old(g.players) && old(g.players[sid].room).Some? && old(g.players[sid].room.value) in g.rooms
  {
    if sid !in g.players {
      return Returned(());
    }
    var roomName := g.players[sid].room;
    if roomName.Some? && roomName.value != "" && roomName.value in g.rooms {
      return Raised(TypeError);
    }
    g.players := g.players - {sid};
    r := Returned(());
  }

  /** `start_game` as written: the failures reply as in StartGame, but after a successful
      start the log line subscripts the Player record (`players[sid]['username']`), which
      raises TypeError; the room is already started by then. */
  method StartGameAsWritten(g: GameStates, sid: string) returns (r: Outcome<Result<()>>)
    requires g.Valid()
    modifies g.RoomOfPlayer(sid)
    ensures g.Valid()
    ensures r.Returned? ==> r.value.Err? && unchanged(g.RoomOfPlayer(sid))
    ensures r == Raised(TypeError) <==>
      sid in g.players && g.players[sid].room.Some? && g.players[sid].room.value in g.rooms &&
      old(g.rooms[g.players[sid].room.value].hostSid) == Some(sid)
    ensures r.Raised? ==> r == Raised(TypeError) && g.rooms[g.players[sid].room.value].started
  {
    var res := StartGame(g, sid);
    if res.Ok? {
      return Raised(TypeError);
    }
    r := Returned(res);
  }

  /** A lobby member that joins again is appended a second time (Rooms.Room.AddPlayer
      has no membership check). When it then leaves, `remove_player` drops the first copy
      and the key, so the id stays on the roster with no key: later lookups of its flag
      raise KeyError and its slot and colour are never released. */
  lemma DuplicateJoinLeavesStaleId(roster: seq<string>, sid: string)
    requires sid in roster
    ensures |RemoveFirst(roster + [sid], sid)| == |roster|
    ensures sid in RemoveFirst(roster + [sid], sid)
  {
    var s := roster + [sid];
    var k := IndexOf(roster, sid);
    assert s[k] == sid;
    assert IndexOf(s, sid) <= k;
    var r := RemoveFirst(s, sid);
    assert r[|r| - 1] == s[|s| - 1];
  }
}
