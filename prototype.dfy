/** The single-file prototype server: rooms are plain lists of ids, player records are
    flat dictionaries, and spawn slots wrap around the 8-entry tables. */
module Prototype {
  import opened Types
  import opened Seqs
  import Geometry

  /** The side of a player square. */
  const PLAYER_SIZE: int := 40

  /** A player record: position, room, colour, size, stored slot, and the velocity that
      the first accepted position update adds. */
  datatype ProtoPlayer = ProtoPlayer(
    x: int,
    y: int,
    room: Option<string>,
    color: Option<Color>,
    size: int,
    positionIndex: int,
    vx: Option<int>,
    vy: Option<int>)

  /** The failure replies: 'Room name is required', 'Room already exists',
      'Room does not exist', 'Player not found', 'Player not in a room'. */
  datatype Failure = NameRequired | RoomExists | RoomNotFound | PlayerNotFound | PlayerNotInRoom

  datatype Reply<T> = Success(value: T) | Failed(failure: Failure)

  /** One player's entry in a prototype snapshot. */
  datatype ProtoEntry = ProtoEntry(x: int, y: int, color: Option<Color>, positionIndex: int)

  /** The reply of a successful create or join. */
  datatype RoomInfo = RoomInfo(
    color: Color,
    walls: seq<Rect>,
    x: int,
    y: int,
    positionIndex: nat,
    gameState: map<string, ProtoEntry>)

  /** The record `connect` creates: at the origin, in no room, with no colour and slot -1. */
  function NewRecord(): (p: ProtoPlayer)
    ensures p.x == 0 && p.y == 0 && p.room.None? && p.color.None?
    ensures p.size == PLAYER_SIZE && p.positionIndex == -1 && p.vx.None? && p.vy.None?
  {
    ProtoPlayer(0, 0, None, None, PLAYER_SIZE, -1, None, None)
  }

  /** `get_next_player_position`, called after the joiner was appended: (0, 0) for an
      unknown room; otherwise slot and colour are both the joiner's roster index reduced
      modulo the table length, so the ninth joiner shares the host's spawn and colour.
      For an empty list the result is -1, which Python would read as the last entry. */
  function NextPlayerPosition(rooms: map<string, seq<string>>, name: string): (r: (int, int))
    ensures name !in rooms ==> r == (0, 0)
    ensures name in rooms && rooms[name] != [] ==>
      r.0 == r.1 == (|rooms[name]| - 1) % |PLAYER_STARTS| && 0 <= r.0 < |PLAYER_STARTS|
    ensures name in rooms && rooms[name] == [] ==> r == (-1, -1)
  {
    if name !in rooms then (0, 0)
    else
      var p := |rooms[name]| - 1;
      var position := if p >= |PLAYER_STARTS| then p % |PLAYER_STARTS| else p;
      // The colour index is capped the same way against the colour table; as both tables
      // have 8 entries that cap never applies to a value the first cap already reduced.
      assert |PLAYER_COLORS| == |PLAYER_STARTS|;
      (position, position)
  }

  /** `get_room_game_state` of a roster: one entry per roster id that still has a record,
      copying its position, colour and stored slot. */
  function ProtoSnapshot(roster: seq<string>, players: map<string, ProtoPlayer>): (state: map<string, ProtoEntry>)
    ensures state.Keys == Elements(roster) * players.Keys
    ensures forall s | s in state ::
      state[s] == ProtoEntry(players[s].x, players[s].y, players[s].color, players[s].positionIndex)
    decreases |roster|
  {
    if roster == [] then map[]
    else
      var n := |roster| - 1;
      var sid := roster[n];
      var prev := ProtoSnapshot(roster[..n], players);
      assert roster == roster[..n] + [sid];
      if sid in players then
        prev[sid := ProtoEntry(players[sid].x, players[sid].y, players[sid].color, players[sid].positionIndex)]
      else prev
  }

  class Server {
    /** The connection directory. */
    var players: map<string, ProtoPlayer>
    /** Room name -> roster in join order (duplicates allowed). */
    var rooms: map<string, seq<string>>
    /** Room name -> its wall layout. */
    var roomWalls: map<string, seq<Rect>>

    /** The invariant the handlers keep: every room has a layout clear of the spawn points
        and vice versa, no room has the empty name or an empty roster, and a record that
        names a room names a registered one whose roster lists it. */
    ghost predicate Valid()
      reads this
    {
      roomWalls.Keys == rooms.Keys && "" !in rooms &&
      (forall n | n in rooms :: rooms[n] != []) &&
      (forall n | n in roomWalls :: Geometry.WallsClear(roomWalls[n])) &&
      (forall s | s in players && players[s].room.Some? ::
         players[s].room.value in rooms && s in rooms[players[s].room.value])
    }

    /** Empty directories. */
    constructor ()
      ensures Valid()
      ensures players == map[] && rooms == map[] && roomWalls == map[]
    {
      players := map[];
      rooms := map[];
      roomWalls := map[];
    }

    /** `connect`: a fresh record, replacing any record under the same id. */
    method Connect(sid: string)
      requires Valid()
      modifies this
      ensures Valid()
      ensures players == old(players)[sid := NewRecord()]
      ensures rooms == old(rooms) && roomWalls == old(roomWalls)
    {
      players := players[sid := NewRecord()];
    }

    /** `disconnect`: the first occurrence of the id leaves its room's roster, a roster left
        empty takes its room and layout with it, and the record is always deleted. Under
        the invariant the roster lists the id, so `list.remove` never raises. */
    method Disconnect(sid: string)
      requires Valid()
      modifies this
      ensures Valid()
      ensures players == old(players) - {sid}
      ensures sid !in old(players) || old(players[sid].room).None? ==>
        rooms == old(rooms) && roomWalls == old(roomWalls)
      ensures sid in old(players) && old(players[sid].room).Some? ==>
        var name := old(players[sid].room.value);
        var rest := RemoveFirst(old(rooms[name]), sid);
        (rest == [] ==> rooms == old(rooms) - {name} && roomWalls == old(roomWalls) - {name}) &&
        (rest != [] ==> rooms == old(rooms)[name := rest] && roomWalls == old(roomWalls))
    {
      if sid !in players {
        return;
      }
      var room := players[sid].room;
      if room.Some? && room.value != "" && room.value in rooms {
        var name := room.value;
        var rest := RemoveFirst(rooms[name], sid);
        forall s | s in players && s != sid && players[s].room == Some(name)
          ensures s in rest
        {
          RemoveFirstKeeps(rooms[name], sid, s);
        }
        if rest == [] {
          rooms := rooms - {name};
          if name in roomWalls {
            roomWalls := roomWalls - {name};
          }
        } else {
          rooms := rooms[name := rest];
        }
      }
      players := players - {sid};
    }

    /** `create_room`: an empty or taken name fails with no change. Otherwise the requester
        is the room's only member, its record moves to the room at slot 0 with colour 0 and
        the first spawn point, and the room gets the filtered layout; the reply's snapshot
        holds just the requester. */
    method CreateRoom(sid: string, name: string, candidates: seq<Rect>) returns (r: Reply<RoomInfo>)
      requires Valid() && sid in players
      modifies this
      ensures Valid()
      ensures name == "" ==> r == Failed(NameRequired)
      ensures name != "" && name in old(rooms) ==> r == Failed(RoomExists)
      ensures r.Failed? ==> players == old(players) && rooms == old(rooms) && roomWalls == old(roomWalls)
      ensures r.Success? <==> name != "" && name !in old(rooms)
      ensures r.Success? ==>
        rooms == old(rooms)[name := [sid]] &&
        roomWalls == old(roomWalls)[name := Geometry.Survivors(candidates, PLAYER_STARTS, Geometry.CLEARANCE)] &&
        players == old(players)[sid := old(players[sid]).(room := Some(name), positionIndex := 0,
                                  color := Some(PLAYER_COLORS[0]), x := PLAYER_STARTS[0].x,
                                  y := PLAYER_STARTS[0].y)] &&
        r.value == RoomInfo(PLAYER_COLORS[0], roomWalls[name], PLAYER_STARTS[0].x, PLAYER_STARTS[0].y, 0,
                            map[sid := ProtoEntry(PLAYER_STARTS[0].x, PLAYER_STARTS[0].y,
                                                  Some(PLAYER_COLORS[0]), 0)])
    {
      if name == "" {
        return Failed(NameRequired);
      }
      if name in rooms {
        return Failed(RoomExists);
      }
      rooms := rooms[name := [sid]];
      var start := PLAYER_STARTS[0];
      players := players[sid := players[sid].(room := Some(name), positionIndex := 0,
                                              color := Some(PLAYER_COLORS[0]), x := start.x, y := start.y)];
      var walls := Geometry.FilterWalls(candidates);
      roomWalls := roomWalls[name := walls];
      r := Success(RoomInfo(PLAYER_COLORS[0], walls, start.x, start.y, 0,
                            map[sid := ProtoEntry(start.x, start.y, Some(PLAYER_COLORS[0]), 0)]));
    }

    /** `join_room`: an empty name or an unknown room fails with no change. Otherwise the
        id is appended with no capacity or membership check, and its record moves to the
        room at slot n mod 8 (n the pre-append roster length) with the matching colour
        and spawn point; the reply carries the room's snapshot after the join. */
    method JoinRoom(sid: string, name: string) returns (r: Reply<RoomInfo>)
      requires Valid() && sid in players
      modifies this
      ensures Valid()
      ensures name == "" ==> r == Failed(NameRequired)
      ensures name != "" && name !in old(rooms) ==> r == Failed(RoomNotFound)
      ensures r.Failed? ==> players == old(players) && rooms == old(rooms) && roomWalls == old(roomWalls)
      ensures r.Success? <==> name != "" && name in old(rooms)
      ensures r.Success? ==>
        var k := |old(rooms[name])| % |PLAYER_STARTS|;
        rooms == old(rooms)[name := old(rooms[name]) + [sid]] && roomWalls == old(roomWalls) &&
        players == old(players)[sid := old(players[sid]).(room := Some(name), positionIndex := k,
                                  color := Some(PLAYER_COLORS[k]), x := PLAYER_STARTS[k].x,
                                  y := PLAYER_STARTS[k].y)] &&
        r.value == RoomInfo(PLAYER_COLORS[k], roomWalls[name], PLAYER_STARTS[k].x, PLAYER_STARTS[k].y, k,
                            ProtoSnapshot(rooms[name], players))
    {
      if name == "" {
        return Failed(NameRequired);
      }
      if name !in rooms {
        return Failed(RoomNotFound);
      }
      var position, color := Enter(sid, name);
      var start := PLAYER_STARTS[position];
      var state := RoomGameState(name);
      var walls := if name in roomWalls then roomWalls[name] else [];
      r := Success(RoomInfo(PLAYER_COLORS[color], walls, start.x, start.y, position, state));
    }

    /** The success branch of `join_room` up to the reply: append the id, then seat it at
        the slot and colour `get_next_player_position` picks. */
    method Enter(sid: string, name: string) returns (position: nat, color: nat)
      requires Valid() && sid in players && name in rooms
      modifies this
      ensures Valid()
      ensures position == color == |old(rooms[name])| % |PLAYER_STARTS|
      ensures rooms == old(rooms)[name := old(rooms[name]) + [sid]] && roomWalls == old(roomWalls)
      ensures players == old(players)[sid := old(players[sid]).(room := Some(name), positionIndex := position,
                                  color := Some(PLAYER_COLORS[color]), x := PLAYER_STARTS[position].x,
                                  y := PLAYER_STARTS[position].y)]
    {
      rooms := rooms[name := rooms[name] + [sid]];
      var (p, c) := NextPlayerPosition(rooms, name);
      position, color := p, c;
      var start := PLAYER_STARTS[position];
      players := players[sid := players[sid].(room := Some(name), positionIndex := position,
                                              color := Some(PLAYER_COLORS[color]), x := start.x, y := start.y)];
    }

    /** `get_room_game_state`: no entries for an unknown room; otherwise the loop over the
        roster builds its snapshot. */
    method RoomGameState(name: string) returns (state: map<string, ProtoEntry>)
      ensures name !in rooms ==> state == map[]
      ensures name in rooms ==> state == ProtoSnapshot(rooms[name], players)
    {
      if name !in rooms {
        return map[];
      }
      var roster := rooms[name];
      state := map[];
      for i := 0 to |roster|
        invariant state == ProtoSnapshot(roster[..i], players)
      {
        var sid := roster[i];
        assert roster[..i + 1][..i] == roster[..i];
        if sid in players {
          var p := players[sid];
          state := state[sid := ProtoEntry(p.x, p.y, p.color, p.positionIndex)];
        }
      }
      assert roster[..|roster|] == roster;
    }

    /** `list_rooms`: every room with its roster length, which the invariant keeps positive. */
    method ListRooms() returns (info: map<string, nat>)
      ensures info.Keys == rooms.Keys
      ensures forall n | n in info :: info[n] == |rooms[n]|
      ensures Valid() ==> forall n | n in info :: info[n] >= 1
    {
      info := map[];
      var todo := rooms.Keys;
      while todo != {}
        invariant todo <= rooms.Keys
        invariant info.Keys == rooms.Keys - todo
        invariant forall n | n in info :: info[n] == |rooms[n]|
        decreases |todo|
      {
        var n :| n in todo;
        info := info[n := |rooms[n]|];
        todo := todo - {n};
      }
    }

    /** `update_position`: an unknown connection, and a record naming no registered room,
        are rejected with no change. Otherwise the position and the velocity (0 for a
        missing component) are written only when both coordinates are present. */
    method UpdatePosition(sid: string, x: Option<int>, y: Option<int>, vx: Option<int>, vy: Option<int>)
        returns (r: Option<Failure>)
      modifies this
      ensures rooms == old(rooms) && roomWalls == old(roomWalls)
      ensures old(Valid()) ==> Valid()
      ensures sid !in old(players) ==> r == Some(PlayerNotFound)
      ensures sid in old(players) &&
              (old(players[sid].room).None? || old(players[sid].room.value) == "" ||
               old(players[sid].room.value) !in rooms) ==>
        r == Some(PlayerNotInRoom)
      ensures r.None? <==>
        sid in old(players) && old(players[sid].room).Some? &&
        old(players[sid].room.value) != "" && old(players[sid].room.value) in rooms
      ensures r.Some? ==> players == old(players)
      ensures r.None? && (x.None? || y.None?) ==> players == old(players)
      ensures r.None? && x.Some? && y.Some? ==>
        players == old(players)[sid := old(players[sid]).(x := x.value, y := y.value,
                                  vx := Some(vx.GetOr(0)), vy := Some(vy.GetOr(0)))]
    {
      if sid !in players {
        return Some(PlayerNotFound);
      }
      var room := players[sid].room;
      if room.None? || room.value == "" || room.value !in rooms {
        return Some(PlayerNotInRoom);
      }
      if x.Some? && y.Some? {
        players := players[sid := players[sid].(x := x.value, y := y.value,
                                                vx := Some(vx.GetOr(0)), vy := Some(vy.GetOr(0)))];
      }
      r := None;
    }
  }
}
