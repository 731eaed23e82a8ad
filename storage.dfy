/** The three directories shared by the lobby and movement handlers, and the player record. */
module Storage {
  import opened Types
  import opened Seqs
  import opened Rooms
  import Geometry

  /** Capacity of a room in the lobby phase. */
  const MAX_PLAYERS: nat := 8

  /** Per-connection state. `room` is only ever a weak reference (a name). */
  datatype Player = Player(
    sid: string,
    position: Pos,
    username: Option<string>,
    color: Option<Color>,
    room: Option<string>)

  /** The record `connect` creates: zeroed position, no username, colour or room. */
  function NewPlayer(sid: string): (p: Player)
    ensures p.sid == sid && p.position == Pos(0, 0)
    ensures p.username.None? && p.color.None? && p.room.None?
  {
    Player(sid, Pos(0, 0), None, None, None)
  }

  /** Every id in the flag map is active: the state of a room before its game starts. */
  ghost predicate AllActive(active: map<string, bool>) {
    forall s | s in active :: active[s]
  }

  class GameStates {
    /** The connection directory. */
    var players: map<string, Player>
    /** The room directory. */
    var rooms: map<string, Room>
    /** Names currently taken. */
    var activeRoomNames: set<string>

    /** The invariant the handlers keep: the taken names are exactly the room directory's
        keys and never empty; distinct names own distinct rooms; each room is valid, has a
        host, holds between one and MAX_PLAYERS ids, has every member active until its game starts,
        and has a layout clear of every spawn point. */
    ghost predicate Valid()
      reads this, rooms.Values
    {
      rooms.Keys == activeRoomNames && "" !in rooms &&
      (forall n, m | n in rooms && m in rooms && n != m :: rooms[n] != rooms[m]) &&
      (forall n | n in rooms :: RoomOk(rooms[n]))
    }

    /** What the invariant asks of a single room. */
    ghost predicate RoomOk(r: Room)
      reads r
    {
      r.Valid() && 1 <= |r.players| <= MAX_PLAYERS && r.hostSid.Some? &&
      (!r.started ==> AllActive(r.active)) &&
      Geometry.WallsClear(r.walls)
    }

    /** The room registered under `name`, as a frame. */
    function RoomsNamed(name: string): (frame: set<Room>)
      reads this
    {
      if name in rooms then {rooms[name]} else {}
    }

    /** The room the record of `sid` names, as a frame. */
    function RoomOfPlayer(sid: string): (frame: set<Room>)
      reads this
    {
      if sid in players && players[sid].room.Some? then RoomsNamed(players[sid].room.value) else {}
    }

    /** The registered room that the record of `sid` names and that counts `sid` as a member. */
    ghost function MemberRoom(sid: string): (name: Option<string>)
      reads this, rooms.Values
    {
      if sid in players && players[sid].room.Some? && players[sid].room.value in rooms &&
         sid in rooms[players[sid].room.value].active
      then players[sid].room else None
    }

    /** Empty directories. */
    constructor ()
      ensures Valid()
      ensures players == map[] && rooms == map[] && activeRoomNames == {}
    {
      players := map[];
      rooms := map[];
      activeRoomNames := {};
    }
  }

  /** Under the invariant every registered room has a host, and the host is on its roster. */
  lemma RegisteredRoomHasHost(g: GameStates, name: string)
    requires g.Valid() && name in g.rooms
    ensures g.rooms[name].hostSid.Some? && g.rooms[name].hostSid.value in g.rooms[name].players
  {
    var room := g.rooms[name];
    assert g.RoomOk(room);
    assert room.hostSid.value in Elements(room.players);
  }
}
