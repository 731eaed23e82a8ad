# Room and session engine of psycho-prototype, in Dafny

The server of this multiplayer game keeps three directories:
- connections to player records;
- room names to `Room` objects;
- the set of room names in use.

A room holds:
- an ordered roster of connection ids;
- a map from id to active flag (an id is "in the room" when it is a key);
- a host, a started flag and a creation time.

In the lobby phase players create, join and leave rooms. Capacity is eight, and spawn point and colour are chosen by roster size. Leaving removes the id and passes the host role on. Once the host starts the game, leaving only clears the flag, so every roster index stays put. The periodic tick sends each started room a snapshot. Position updates overwrite a player's record. An older single-file prototype (`server.py`) does the same with plain lists.

The Dafny modules follow the source:

| module | file | models |
|---|---|---|
| `Types` | types.dfy | shared records, the spawn and colour tables, Python exceptions as data |
| `Seqs` | seqs.dfy | `list.index` and `list.remove` and their laws |
| `Geometry` | geometry.dfy | `is_near_start` and the clearance filter of `generate_walls` (both servers) |
| `Rooms` | rooms.dfy | `server/src/models/Room.py`, a class with the roster invariant |
| `Storage` | storage.dfy | `server/src/storage/game_states.py` and `Player.py`: the `GameStates` class and its invariant |
| `Lobby` | lobby.dfy | the handlers of `server/src/services/lobby.py` |
| `Movement` | movement.dfy | `server/src/services/movement.py` |
| `Prototype` | prototype.dfy | the root `server.py` |
| `Scenarios` | scenarios.dfy | handler sequences over fresh directories |

The handlers are methods over one `GameStates` object. Each handler's `modifies` clause names only the room it may touch (`g.RoomsNamed(name)` or `g.RoomOfPlayer(sid)`), so its frame says every other room is unchanged. `GameStates.Valid` is the invariant every handler keeps:
- the taken names are exactly the room keys, and never the empty name;
- distinct names own distinct rooms;
- every room satisfies `Room.Valid`: its flag-map keys are its roster ids, there are no duplicates, and its host, if set, is a member;
- every room has a host (`Storage.RegisteredRoomHasHost`);
- every room holds 1 to 8 ids;
- every member is active until its room's game starts;
- every layout is clear of all spawn points.

The handled failures of the source reply with a `{'success': False, 'message': ...}` dictionary; the model returns them as `Result`/`Reply` values. Only the defect paths listed under Findings raise, and the members that follow the code as written return those as `Outcome` values (returned value or raised exception). The clock (`time.time()`) and the 32 literal candidate walls are parameters.

Two observations that follow from the code:
- **The reaper never reaps.** Leaving a lobby room deletes it once its roster is empty. Leaving a started room only clears the flag, so a registered room never has an empty roster. `Lobby.CleanupInactiveRooms` is therefore proved to delete nothing under the invariant, even though its docstring and comment (server/src/services/lobby.py:593, 596) say that empty rooms are reaped after two hours.
- **Colours are reused.** Spawn point and colour come from the roster size before insertion. After a lobby leave, the next joiner gets the same colour as the member who joined last (`Scenarios.ColourReuseAfterLeave`).

## Model

| member | source | states |
|---|---|---|
| Seqs.IndexOf | server/src/models/Room.py:51-54 | `list.index`: the result points at the element, and no earlier entry equals it |
| Seqs.RemoveFirst | server/src/models/Room.py:37 | `list.remove`: one entry shorter; entries before the first occurrence stay, later ones shift down by one |
| Seqs.RemoveFirstNoDup | server/src/models/Room.py:37-38 | on a duplicate-free roster, remove keeps it duplicate-free and removes exactly that id from the set of ids |
| Seqs.RemoveFirstKeeps | server.py:422 | removing one id never drops any other id |
| Geometry.ClearZone | server/src/services/lobby.py:322-327 | the clearance square has side `clearance` and contains the spawn point |
| Geometry.OverlapIffCommonPoint | server/src/services/lobby.py:306-333 | for positive sizes, the strict overlap test holds iff the two rectangles share an integer point |
| Geometry.NearStartIffSharedPoint | server/src/services/lobby.py:306-333 | strict overlap of the wall with the clearance square: for positive sizes, near exactly when the wall and the square share an integer point |
| Geometry.CoveringWallIsNear | server.py:325-352 | the prototype's copy of the same test: a wall covering the spawn point is always near it, for any positive clearance |
| Geometry.Without | server/src/services/lobby.py:301 | one filter pass keeps the candidates' order, keeps only walls clear of that start, and keeps every such wall |
| Geometry.Survivors | server/src/services/lobby.py:300-301 | reference definition: the walls clear of every start, in candidate order, and all of them |
| Geometry.SurvivorsOfNoStarts | server/src/services/lobby.py:300-301 | with no starts, nothing is filtered |
| Geometry.SurvivorsStep | server/src/services/lobby.py:300-301 | one more pass by start s gives the survivors of the start list extended by s |
| Geometry.FilterByStarts | server/src/services/lobby.py:300-301 | the reassign-per-start loop equals the reference definition for any start list |
| Geometry.FilterWalls | server/src/services/lobby.py:299-301 | the layout is a subsequence of the candidates, no wall overlaps any spawn point's 100-square, and every candidate clear of all of them survives |
| Rooms.FirstActive | server/src/models/Room.py:41-46 | reference for host migration: None iff no roster id is active; otherwise an active id with every earlier roster id inactive |
| Rooms.CountActive | server/src/models/Room.py:72-73 | at most the roster length; equal to it iff all are active; 0 iff none is |
| Rooms.Room.constructor | server/src/models/Room.py:13-21 | roster `[host]`, host active and host id set, not started, created at `now`, invariant holds |
| Rooms.Room.AddPlayer | server/src/models/Room.py:29-31 | appends at the end and sets the flag; earlier entries are unchanged; a fresh id keeps the invariant and a member breaks it |
| Rooms.Room.RemovePlayer | server/src/models/Room.py:33-46 | no change for a non-key; otherwise the roster is `list.remove`, the key is gone, a removed host passes to the first active id (or None), and a non-host removal keeps the host |
| Rooms.Room.ElectHost | server/src/models/Room.py:42-46 | the migration loop yields exactly `FirstActive` of the roster |
| Rooms.Room.IsPlayerInRoom | server/src/models/Room.py:48-49 | key membership, which under the invariant is roster membership |
| Rooms.Room.PositionIndex | server/src/models/Room.py:51-54 | None exactly for non-members; otherwise the first roster index of the id |
| Rooms.Room.ActivatePlayer | server/src/models/Room.py:56-59 | only that id's flag becomes true; no-op outside the roster; the roster never changes |
| Rooms.Room.DeactivatePlayer | server/src/models/Room.py:61-64 | only that id's flag becomes false; the id stays in the room at the same index |
| Rooms.Room.IsPlayerActive | server/src/models/Room.py:66-67 | implies membership, and under the invariant means member and flag set |
| Rooms.Room.NumPlayers | server/src/models/Room.py:69-70 | under the invariant, equals the number of keys |
| Rooms.Room.NumActivePlayers | server/src/models/Room.py:72-73 | never more than `NumPlayers`, and equal iff every member is active |
| Rooms.Room.IsEmpty | server/src/models/Room.py:75-76 | under the invariant, true iff no id is in the room |
| Rooms.Room.StartGame | server/src/models/Room.py:81-82 | sets started and nothing else, so a second call is a no-op |
| Storage.RegisteredRoomHasHost | server/src/models/Room.py:13-46 | under the invariant every registered room has a host on its roster: the constructor sets it and removal re-elects one among the remaining active members |
| Storage.NewPlayer | server/src/models/Player.py:10-15 | definition: zero position, no username, colour or room |
| Storage.GameStates.constructor | server/src/storage/game_states.py:6-8 | empty directories satisfy the invariant |
| Lobby.PlayerList | server/src/services/lobby.py:336-346 | reference list: a subsequence of the roster holding only ids in the room with a record, each carrying its username and a host flag true exactly for the host, and covering all such ids |
| Lobby.PlayerListCoversRoster | server/src/services/lobby.py:336-346 | when every roster id is in the room and has a record, the list's ids are exactly the roster |
| Lobby.PlayerListAppend | server/src/services/lobby.py:337-345 | appending one id to the roster adds at most its entry at the end of the list |
| Lobby.GetPlayerList | server/src/services/lobby.py:336-346 | the loop computes the reference list |
| Lobby.PlayerListAsWritten | server/src/services/lobby.py:336-346 | as written: raises KeyError iff some id in the room has no record; otherwise returns the reference list |
| Lobby.PlayerListAsWrittenRaises | server/src/services/lobby.py:343 | a concrete room with a departed id: the code as written raises and the corrected list omits that id |
| Lobby.DefaultUsername | server/src/services/lobby.py:370 | `'Player '` followed by the first five characters of the id (or all of it if shorter) |
| Lobby.Seated | server/src/services/lobby.py:432-436 | definition: slot n gets spawn point n, colour n, the room name and the username |
| Lobby.Connect | server/src/services/lobby.py:350-351 | a fresh record; rooms untouched; invariant kept |
| Lobby.CreateRoom | server/src/services/lobby.py:368-405 | empty name or taken name: error, no change; else a fresh room `[sid]` with sid as host, the filtered layout, name taken, the requester at slot 0 with colour 0, and the matching reply |
| Lobby.OpenRoom | server/src/services/lobby.py:380-389 | success branch of create: a fresh room `[sid]` with sid as active host and the given layout, name taken, requester seated at slot 0; invariant kept |
| Lobby.JoinRoom | server/src/services/lobby.py:408-463 | errors in source order with no change; a member is reactivated in place and told its roster index; a lobby room with 8 ids is full; otherwise appended at slot n (the pre-insertion size, below 8) with spawn n and colour n; invariant kept, other rooms untouched |
| Lobby.Rejoin | server/src/services/lobby.py:424-425 | reconnect: roster and host unchanged, flag set, record names the room again, reply carries the roster index |
| Lobby.Seat | server/src/services/lobby.py:426-437 | lobby join: appended at the end, seated at the pre-insertion size, host unchanged |
| Lobby.LeaveRoom | server/src/services/lobby.py:466-543 | unknown id is an error; otherwise always success, and the record's room is cleared. No room, an empty or unregistered room, or a non-member changes nothing else. A started room only deactivates. A lobby room removes the id, migrates the host and deletes itself when empty |
| Lobby.Vacate | server/src/services/lobby.py:517-528 | the member branch of leave, with the same room effects |
| Lobby.StartGame | server/src/services/lobby.py:546-579 | unknown id, no registered room, or a non-host: error and no change. Success iff the requester hosts a registered room, which becomes started with nothing else changed |
| Lobby.ListRooms | server/src/services/lobby.py:582-588 | one entry per taken, registered name with its roster size; under the invariant every taken name, with size 1 to 8 |
| Lobby.NothingExpires | server/src/services/lobby.py:600-603 | under the invariant no room is empty, so none qualifies for reaping |
| Lobby.CollectExpired | server/src/services/lobby.py:597-603 | the first loop collects exactly the taken names whose room is empty and older than the threshold (strict) |
| Lobby.CleanupInactiveRooms | server/src/services/lobby.py:592-610 | deletes exactly those rooms and frees their names, touches nothing else, and under the invariant deletes nothing |
| Lobby.Disconnect | server/src/services/lobby.py:354-365 | corrected: a member leaves with every room effect of `leave_room` (deactivated and host kept in a started room; otherwise removed, host passed to the new first id, the room and its name deleted when it empties, every other room and name kept), then the record is deleted; unknown ids change nothing |
| Lobby.RejoinAsWritten | server/src/services/lobby.py:424-425 | as written: the member is reactivated, then the handler raises KeyError or NameError and never replies |
| Lobby.DisconnectAsWritten | server/src/services/lobby.py:354-365 | as written: TypeError iff the record names a registered room, and then the record survives and the room is unchanged |
| Lobby.StartGameAsWritten | server/src/services/lobby.py:546-579 | as written: TypeError iff the host starts the game, after the room is already started |
| Lobby.DuplicateJoinLeavesStaleId | server/src/services/lobby.py:426-437 | a member appended twice and then removed once is still on the roster |
| Movement.Snapshot | server/src/services/movement.py:19-29 | reference snapshot: keys are the roster ids with a record; each entry's index points at that id in the roster (its last occurrence), its data is copied from the record, host flag true exactly for the host, active flag as `is_player_active` |
| Movement.SnapshotAgreesWithRoom | server/src/services/movement.py:20-25 | for a duplicate-free roster whose ids are the flag-map keys (a valid room), the snapshot covers exactly the members with records, and every index is the roster index `get_player_position_index` reports |
| Movement.SnapshotAppend | server/src/services/movement.py:20-29 | enumerating one more id adds or overwrites only that id's entry, at the new index |
| Movement.SnapshotLoop | server/src/services/movement.py:19-31 | the enumerate loop computes the reference snapshot |
| Movement.RoomGameState | server/src/services/movement.py:7-31 | empty for an unknown room; otherwise the enumerate loop computes the snapshot |
| Movement.RoomGameStateAsWritten | server/src/services/movement.py:20-28 | as written: returns (empty) only for an unknown room or empty roster, otherwise raises KeyError or AttributeError |
| Movement.SnapshotAsWrittenRaises | server/src/services/movement.py:28 | under the invariant the snapshot as written raises for every registered room, while the corrected one has an entry for its first member when that member has a record |
| Movement.BroadcastGamesState | server/src/services/movement.py:33-39 | a snapshot for exactly the taken rooms that are non-empty and started |
| Movement.UpdatePosition | server/src/services/movement.py:42-64 | unknown id or no registered room: rejected, no change; success exactly when the record names a registered room. On success only that record changes: username replaced iff given and non-empty, position replaced verbatim iff both coordinates are given |
| Prototype.NewRecord | server.py:405-413 | definition: origin, no room, no colour, size 40, slot -1 |
| Prototype.NextPlayerPosition | server.py:385-402 | (0,0) for an unknown room; (-1,-1) for an empty roster; otherwise both indices are (roster length - 1) mod 8, in range |
| Prototype.ProtoSnapshot | server.py:354-370 | reference snapshot: keys are the roster ids with a record; data and stored slot copied from the record |
| Prototype.Server.constructor | server.py:24-26 | empty directories satisfy the prototype invariant |
| Prototype.Server.Connect | server.py:404-413 | a fresh record replaces any old one; invariant kept |
| Prototype.Server.Disconnect | server.py:415-440 | the first occurrence leaves the room's list; an emptied list deletes the room and its walls; the record is always deleted; `remove` never raises under the invariant |
| Prototype.Server.CreateRoom | server.py:442-490 | empty or existing name: error, no change; else the list `[sid]`, slot 0, colour 0, start 0, the filtered walls, and a one-entry snapshot |
| Prototype.Server.JoinRoom | server.py:492-538 | empty or unknown name: error, no change; else appended with no capacity or duplicate check, at slot (pre-append length) mod 8 with the matching colour and start, replying with the post-join snapshot |
| Prototype.Server.Enter | server.py:502-513 | appends the id and seats it at slot and colour (pre-append length) mod 8 with the matching start; invariant kept |
| Prototype.Server.RoomGameState | server.py:354-370 | empty for an unknown room; otherwise the loop computes the reference snapshot |
| Prototype.Server.ListRooms | server.py:540-545 | every room with its list length, positive under the invariant |
| Prototype.Server.UpdatePosition | server.py:547-573 | same guards as the current server, and success exactly when they pass; x, y, vx and vy (defaulting to 0) written only when both coordinates are present |
| Scenarios.OneInLobby | server/src/services/lobby.py:368-405 | four connections and a created room give a valid state with the roster `["a"]` |
| Scenarios.TwoInLobby | server/src/services/lobby.py:408-463 | one join gives the roster `["a","b"]` with "b" a member of "r" |
| Scenarios.ThreeInLobby | server/src/services/lobby.py:408-463 | two joins give the roster `["a","b","c"]`, with the third member at colour 2 |
| Scenarios.ColourReuseAfterLeave | server/src/services/lobby.py:428-431 | after "b" leaves a lobby of three, the next joiner gets the colour already held by "c" |

## Left out

- Transport: `sio.emit`, `enter_room`/`leave_room`, callbacks, `ping`, and the lists that are sent only in emitted events (the one in `leave_room` is not computed; as written it is built by `get_player_list` at server/src/services/lobby.py:530 and can raise KeyError after the roster change, see Findings), and `print` logging.
- Timers: the eventlet periodic tasks in `server/src/server.py`. `cleanup_inactive_rooms` and the tick are methods, and `time.time()` is the parameter `now`.
- Movement.BroadcastGamesState: one call is one tick. The as-written loop in `start_update_players_task` (server/src/server.py:46-50), which ends for good at the first AttributeError of `get_room_game_state` (see Findings), is not modelled; the corrected broadcast never raises.
- The clock is whole seconds: `time.time()` is a float (server/src/models/Room.py:21, server/src/services/lobby.py:594), while `createdAt` and `now` are integers. Under the invariant nothing is ever reaped, so the age comparison never decides anything.
- The 32 literal candidate walls of both `generate_walls` functions. The candidate list is a parameter, and only the clearance filter is modelled.
- `Vec2` arithmetic (float normalisation, length, distance). Positions are integer pairs. `update_position` stores whatever the client sends, which the model limits to integers.
- The client files (`web/`, `client.py`).
- Lobby.CreateRoom, Lobby.JoinRoom, Prototype.Server.CreateRoom, Prototype.Server.JoinRoom: require that the connection has a record. Without one the source raises KeyError part-way, but Socket.IO always delivers `connect` first.
- Lobby.JoinRoom: the corrected model treats any member as reconnecting, in either phase (see Findings). The as-written lobby path for a member is covered only through Rooms.Room.AddPlayer and Lobby.DuplicateJoinLeavesStaleId.
- Lobby.CreateRoom, Lobby.JoinRoom: `data.get('username', default)` (server/src/services/lobby.py:370, 410) stores `None` when the key is present with a null value; the model's `username: Option<string>` has no such case and uses the default for it.
- Lobby.CreateRoom: like the source, it does not check whether the requester already belongs to another room. That room keeps the id as an active member; the model keeps this and does not treat it as a defect.
- Prototype.NextPlayerPosition: the second, colour-table cap is not written out. Both tables have eight entries, so it never changes a value the first cap has already reduced.
- In the prototype, replies carry colours as tuples and snapshots carry the stored `position_index`. That value can differ from the current roster index after a disconnect. The model copies the stored value and proves nothing further about it.

## Findings

| source | as written | input that shows it | evidently intended | confidence | as-written member | corrected member |
|---|---|---|---|---|---|---|
| server/src/services/lobby.py:424-425, 449-459 | the reconnect branch of `join_room` reads `current_player_count`, `start_x`, `start_y` and `new_player_count`, which only the lobby branch assigns | a member of a started room calls `join_room` again after leaving: it is reactivated, then NameError | reconnect: reactivate, re-attach the record and reply with the member's own colour, position and roster index; the corrected reply also reports `is_host` from the room's host and `game_started` from its started flag, where lines 460 and 462 hard-code `False` | high (not executed) | Lobby.RejoinAsWritten | Lobby.Rejoin |
| server/src/services/lobby.py:362, 466 | `disconnect` calls `leave_room(sid)`, but the handler takes `(sid, data, callback=None)` | any member of a registered room disconnects: TypeError before anything changes, so the record and the active membership survive | leave the room, then delete the record | high (not executed) | Lobby.DisconnectAsWritten | Lobby.Disconnect |
| server/src/services/lobby.py:567, 574 | the log line subscripts a `Player` object (`players[sid]['username']`) | the host of a registered room calls `start_game`: the room is started, then TypeError and no success reply | reply success after starting | high (not executed) | Lobby.StartGameAsWritten | Lobby.StartGame |
| server/src/services/movement.py:28 | the snapshot calls `room.is_player_activated`, which `Room` does not define (`is_player_active`, Room.py:66) | any started room with a member: the first tick that reaches it raises AttributeError; `start_update_players_task` (server/src/server.py:46-50) has no handler around `broadcast_games_state`, so the exception ends the periodic task and no room receives another snapshot | use `is_player_active` | high (not executed) | Movement.RoomGameStateAsWritten | Movement.RoomGameState |
| server/src/services/movement.py:22; server/src/services/lobby.py:343 | `players[player_sid]` for every roster id in the room, including ids whose record was deleted; reached from `join_room`, the snapshot, and `leave_room` at lobby.py:530, where it raises after the roster change and the `room = None` write, so no 'Left room' reply is sent | roster `["a","b"]`, flags a: true, b: false, only "a" has a record: KeyError | skip ids with no record, as the prototype does (server.py:362) | medium (not executed) | Lobby.PlayerListAsWritten, Movement.SnapshotAsWrittenRaises | Lobby.PlayerList, Movement.Snapshot |
| server/src/services/lobby.py:426-437; server/src/models/Room.py:29-31 | a lobby-phase `join_room` by a member appends the id again | roster `["a"]`, "a" joins again: roster `["a","a"]`; when "a", the host, then leaves, `remove_player` removes one copy, deletes the flag, clears the host and raises KeyError at Room.py:44 on the remaining copy, after lobby.py:517 has already set the record's room to None, so no reply is sent; "a" stays on the roster with no flag | treat a member's join as a reconnect | medium (not executed) | Rooms.Room.AddPlayer, Lobby.DuplicateJoinLeavesStaleId | Lobby.JoinRoom |
