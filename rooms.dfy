/** A room: its ordered roster, the per-player active flags, host, walls and lifecycle. */
module Rooms {
  import opened Types
  import opened Seqs

  /** The first id of `roster`, in roster order, whose flag is set: the host-migration rule. */
  function FirstActive(roster: seq<string>, active: map<string, bool>): (r: Option<string>)
    requires Elements(roster) <= active.Keys
    ensures r.None? <==> forall i | 0 <= i < |roster| :: !active[roster[i]]
    ensures r.Some? ==> r.value in roster && active[r.value]
    ensures r.Some? ==> forall j | 0 <= j < IndexOf(roster, r.value) :: !active[roster[j]]
  {
    if roster == [] then None
    else if active[roster[0]] then Some(roster[0])
    else
      var r := FirstActive(roster[1..], active);
      assert forall i | 1 <= i < |roster| :: roster[i] == roster[1..][i - 1];
      r
  }

  /** The number of roster entries whose flag is set. */
  function CountActive(roster: seq<string>, active: map<string, bool>): (n: nat)
    requires Elements(roster) <= active.Keys
    ensures n <= |roster|
    ensures n == |roster| <==> forall i | 0 <= i < |roster| :: active[roster[i]]
    ensures n == 0 <==> forall i | 0 <= i < |roster| :: !active[roster[i]]
  {
    if roster == [] then 0
    else
      var rest := CountActive(roster[1..], active);
      assert forall i | 1 <= i < |roster| :: roster[i] == roster[1..][i - 1];
      (if active[roster[0]] then 1 else 0) + rest
  }

  class Room {
    /** The roster: connection ids in join order. */
    var players: seq<string>
    /** id -> active flag; an id is "in the room" when it is a key. */
    var active: map<string, bool>
    /** The host, or None once the host left and no active player remained. */
    var hostSid: Option<string>
    /** The wall layout, fixed at creation. */
    const walls: seq<Rect>
    var started: bool
    /** Creation time in seconds. */
    const createdAt: int

    /** The representation invariant: the keys of the flag map are the roster ids, the
        roster has no duplicates, and the host (if any) is one of them. */
    ghost predicate Valid()
      reads this
    {
      active.Keys == Elements(players) && NoDup(players) &&
      (hostSid.Some? ==> hostSid.value in active)
    }

    /** A new room whose only member is its host; `now` stands for `time.time()`. */
    constructor (walls: seq<Rect>, host: string, now: int)
      ensures Valid()
      ensures players == [host] && active == map[host := true] && hostSid == Some(host)
      ensures this.walls == walls && !started && createdAt == now
    {
      players := [host];
      active := map[host := true];
      hostSid := Some(host);
      this.walls := walls;
      started := false;
      createdAt := now;
    }

    /** Appends an id at the end of the roster and marks it active. There is no membership
        check: appending a fresh id keeps the representation invariant, appending a
        member breaks it by listing that id twice. */
    method AddPlayer(sid: string)
      modifies this
      ensures players == old(players) + [sid] && active == old(active)[sid := true]
      ensures hostSid == old(hostSid) && started == old(started)
      ensures old(Valid()) && sid !in old(active) ==> Valid()
      ensures sid in old(players) ==> !Valid()
    {
      if Valid() && sid !in active {
        AppendNoDup(players, sid);
      }
      players := players + [sid];
      active := active[sid := true];
      if sid in old(players) {
        var i :| 0 <= i < |old(players)| && old(players)[i] == sid;
        assert players[i] == players[|players| - 1];
      }
    }

    /** Removes an id; removing the host hands the role to the first remaining active id. */
    method RemovePlayer(sid: string)
      requires Valid()
      modifies this
      ensures Valid()
      ensures started == old(started)
      ensures sid !in old(active) ==>
        players == old(players) && active == old(active) && hostSid == old(hostSid)
      ensures sid in old(active) ==>
        players == RemoveFirst(old(players), sid) && active == old(active) - {sid}
      ensures sid in old(active) && old(hostSid) == Some(sid) ==>
        hostSid == FirstActive(players, active)
      ensures old(hostSid) != Some(sid) ==> hostSid == old(hostSid)
    {
      if sid in active {
        var rest := RemoveFirst(players, sid);
        RemoveFirstNoDup(players, sid);
        players := rest;
        active := active - {sid};
        if hostSid == Some(sid) {
          ElectHost();
        }
      }
    }

    /** The migration loop of `remove_player`: the first active roster id becomes host,
        or None when no roster id is active. */
    method ElectHost()
      requires Elements(players) <= active.Keys
      modifies this`hostSid
      ensures hostSid == FirstActive(players, active)
    {
      hostSid := None;
      var i := 0;
      while i < |players|
        invariant 0 <= i <= |players|
        invariant hostSid == None
        invariant FirstActive(players[i..], active) == FirstActive(players, active)
      {
        if active[players[i]] {
          hostSid := Some(players[i]);
          break;
        }
        assert players[i..][1..] == players[i + 1..];
        i := i + 1;
      }
    }

    /** Key membership: true for every roster id, active or not. */
    function IsPlayerInRoom(sid: string): (r: bool)
      reads this
      ensures Valid() ==> (r <==> sid in players)
    {
      sid in active
    }

    /** The roster index of `sid` (`list.index`), or None for a non-member. */
    function PositionIndex(sid: string): (r: Option<nat>)
      reads this
      ensures r.Some? <==> sid in players
      ensures r.Some? ==> r.value < |players| && players[r.value] == sid
      ensures r.Some? ==> forall j | 0 <= j < r.value :: players[j] != sid
    {
      if sid !in players then None else Some(IndexOf(players, sid))
    }

    /** Sets the flag of a roster id; no effect on an id outside the roster. */
    method ActivatePlayer(sid: string)
      requires Valid()
      modifies this
      ensures Valid()
      ensures players == old(players) && hostSid == old(hostSid) && started == old(started)
      ensures active == if sid in old(players) then old(active)[sid := true] else old(active)
    {
      if sid !in players {
        return;
      }
      active := active[sid := true];
    }

    /** Clears the flag of a roster id; the id stays in the roster and keeps its index. */
    method DeactivatePlayer(sid: string)
      requires Valid()
      modifies this
      ensures Valid()
      ensures players == old(players) && hostSid == old(hostSid) && started == old(started)
      ensures active == if sid in old(players) then old(active)[sid := false] else old(active)
    {
      if sid !in players {
        return;
      }
      active := active[sid := false];
    }

    /** A member whose flag is set. */
    function IsPlayerActive(sid: string): (r: bool)
      reads this
      ensures r ==> IsPlayerInRoom(sid)
      ensures Valid() ==> (r <==> sid in players && active[sid])
    {
      sid in active && active[sid]
    }

    /** The roster length, which is also the number of keys of the flag map. */
    function NumPlayers(): (n: nat)
      reads this
      ensures Valid() ==> n == |active|
    {
      assert Valid() ==> |players| == |active| by {
        if Valid() { NoDupCard(players); }
      }
      |players|
    }

    /** The number of active members: never more than the roster length. */
    function NumActivePlayers(): (n: nat)
      requires Valid()
      reads this
      ensures n <= NumPlayers()
      ensures n == NumPlayers() <==> forall s | s in active :: active[s]
    {
      CountActive(players, active)
    }

    /** The roster is empty, equivalently no id is in the room. */
    function IsEmpty(): (r: bool)
      reads this
      ensures Valid() ==> (r <==> active == map[])
    {
      assert players != [] ==> players[0] in Elements(players);
      |players| == 0
    }

    /** Marks the game as started; nothing else changes, so a second call is a no-op. */
    method StartGame()
      modifies this
      ensures started
      ensures players == old(players) && active == old(active) && hostSid == old(hostSid)
    {
      started := true;
    }
  }
}
