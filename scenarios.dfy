/** Concrete handler sequences over a fresh set of directories. */
module Scenarios {
  import opened Types
  import opened Seqs
  import opened Rooms
  import opened Storage
  import opened Lobby

  /** Four connections "a" to "d"; "a" creates room "r". */
  method OneInLobby(candidates: seq<Rect>, now: int) returns (g: GameStates)
    ensures fresh(g) && "r" in g.rooms && fresh(g.rooms["r"]) && g.Valid()
    ensures "b" in g.players && "c" in g.players && "d" in g.players
    ensures g.rooms["r"].players == ["a"] && !g.rooms["r"].started
  {
    g := new GameStates();
    Connect(g, "a");
    Connect(g, "b");
    Connect(g, "c");
    Connect(g, "d");
    var created := CreateRoom(g, "a", "r", None, candidates, now);
    assert created.Ok?;
  }

  /** Then "b" joins "r". */
  method TwoInLobby(candidates: seq<Rect>, now: int) returns (g: GameStates)
    ensures fresh(g) && "r" in g.rooms && fresh(g.rooms["r"]) && g.Valid()
    ensures "c" in g.players && "d" in g.players
    ensures g.rooms["r"].players == ["a", "b"] && !g.rooms["r"].started
    ensures g.MemberRoom("b") == Some("r")
  {
    g := OneInLobby(candidates, now);
    var joined := JoinRoom(g, "b", "r", None);
  }

  /** Then "c" joins "r", at slot 2. */
  method ThreeInLobby(candidates: seq<Rect>, now: int) returns (g: GameStates)
    ensures fresh(g) && "r" in g.rooms && fresh(g.rooms["r"]) && g.Valid()
    ensures "c" in g.players && "d" in g.players
    ensures g.rooms["r"].players == ["a", "b", "c"] && !g.rooms["r"].started
    ensures g.MemberRoom("b") == Some("r")
    ensures g.players["c"].color == Some(PLAYER_COLORS[2])
  {
    g := TwoInLobby(candidates, now);
    var joined := JoinRoom(g, "c", "r", None);
  }

  /** Colours and spawn points come from the pre-insertion roster size, not from the free
      slots: after a lobby member leaves, the next joiner is given the colour and spawn
      point of the member that joined last. */
  method ColourReuseAfterLeave(candidates: seq<Rect>, now: int) returns (c: Option<Color>, d: Option<Color>)
    ensures c == d == Some(PLAYER_COLORS[2])
  {
    var g := ThreeInLobby(candidates, now);
    var room := g.rooms["r"];
    c := g.players["c"].color;
    assert RemoveFirst(["a", "b", "c"], "b") == ["a", "c"];
    var left := LeaveRoom(g, "b");
    assert room.players == RemoveFirst(["a", "b", "c"], "b");
    assert g.players["c"].color == c;
    var joinedD := JoinRoom(g, "d", "r", None);
    d := g.players["d"].color;
  }
}
