/** The spawn-clearance test and the wall filter of the layout generator. */
module Geometry {
  import opened Types
  import opened Seqs

  /** The side of the square kept free around every spawn point. */
  const CLEARANCE: int := 100

  /** Strict overlap of two axis-aligned rectangles (touching edges do not overlap). */
  predicate Overlap(a: Rect, b: Rect) {
    a.x < b.x + b.width && a.x + a.width > b.x &&
    a.y < b.y + b.height && a.y + a.height > b.y
  }

  /** The integer point `p` lies in the half-open box `[x, x+width) x [y, y+height)`. */
  ghost predicate Inside(p: Pos, r: Rect) {
    r.x <= p.x < r.x + r.width && r.y <= p.y < r.y + r.height
  }

  /** The clearance square around a spawn point. Dafny's `/` by the positive 2 agrees with
      Python's floor division `//` for negative operands as well. */
  function ClearZone(start: Pos, clearance: int): (r: Rect)
    ensures r.width == r.height == clearance
    ensures clearance >= 0 ==> r.x <= start.x && r.y <= start.y
    ensures clearance >= 0 ==> start.x <= r.x + clearance && start.y <= r.y + clearance
  {
    Rect(start.x - clearance / 2, start.y - clearance / 2, clearance, clearance)
  }

  /** The wall overlaps the clearance square of `start`. */
  predicate IsNearStart(wall: Rect, start: Pos, clearance: int) {
    Overlap(ClearZone(start, clearance), wall)
  }

  /** For rectangles of positive size, strict overlap means sharing an integer point. */
  lemma OverlapIffCommonPoint(a: Rect, b: Rect)
    requires a.width > 0 && a.height > 0 && b.width > 0 && b.height > 0
    ensures Overlap(a, b) <==> exists p: Pos :: Inside(p, a) && Inside(p, b)
  {
    if Overlap(a, b) {
      var p := Pos(if a.x < b.x then b.x else a.x, if a.y < b.y then b.y else a.y);
      assert Inside(p, a) && Inside(p, b);
    }
  }

  /** `is_near_start` for a wall of positive size and a positive clearance: the wall is
      near the start exactly when it shares an integer point with the clearance square. */
  lemma NearStartIffSharedPoint(wall: Rect, start: Pos, clearance: int)
    requires clearance > 0 && wall.width > 0 && wall.height > 0
    ensures IsNearStart(wall, start, clearance) <==>
      exists p: Pos :: Inside(p, ClearZone(start, clearance)) && Inside(p, wall)
  {
    OverlapIffCommonPoint(ClearZone(start, clearance), wall);
  }

  /** A wall that covers the spawn point itself is always near that start. */
  lemma CoveringWallIsNear(wall: Rect, start: Pos, clearance: int)
    requires clearance > 0 && Inside(start, wall)
    ensures IsNearStart(wall, start, clearance)
  {
    assert Inside(start, ClearZone(start, clearance));
  }

  /** The wall keeps clear of every spawn point in `starts`. */
  ghost predicate ClearOfAll(w: Rect, starts: seq<Pos>, clearance: int) {
    forall i | 0 <= i < |starts| :: !IsNearStart(w, starts[i], clearance)
  }

  /** Every wall of a layout keeps clear of every spawn point. */
  ghost predicate WallsClear(walls: seq<Rect>) {
    forall k | 0 <= k < |walls| :: ClearOfAll(walls[k], PLAYER_STARTS, CLEARANCE)
  }

  /** One step of the filter: `[w for w in walls if not is_near_start(w, start, clearance)]`. */
  function Without(walls: seq<Rect>, start: Pos, clearance: int): (r: seq<Rect>)
    ensures Subseq(r, walls)
    ensures forall k | 0 <= k < |r| :: !IsNearStart(r[k], start, clearance)
    ensures forall k | 0 <= k < |walls| :: !IsNearStart(walls[k], start, clearance) ==> walls[k] in r
  {
    if walls == [] then []
    else if IsNearStart(walls[0], start, clearance) then Without(walls[1..], start, clearance)
    else [walls[0]] + Without(walls[1..], start, clearance)
  }

  /** The walls of `walls`, in order, that keep clear of every spawn point in `starts`. */
  ghost function Survivors(walls: seq<Rect>, starts: seq<Pos>, clearance: int): (r: seq<Rect>)
    ensures Subseq(r, walls)
    ensures forall k | 0 <= k < |r| :: ClearOfAll(r[k], starts, clearance)
    ensures forall k | 0 <= k < |walls| :: ClearOfAll(walls[k], starts, clearance) ==> walls[k] in r
  {
    if walls == [] then []
    else if ClearOfAll(walls[0], starts, clearance) then [walls[0]] + Survivors(walls[1..], starts, clearance)
    else Survivors(walls[1..], starts, clearance)
  }

  /** With no spawn points nothing is filtered out. */
  lemma {:induction false} SurvivorsOfNoStarts(walls: seq<Rect>, clearance: int)
    ensures Survivors(walls, [], clearance) == walls
  {
    if walls != [] {
      SurvivorsOfNoStarts(walls[1..], clearance);
      assert walls == [walls[0]] + walls[1..];
    }
  }

  /** Filtering once more by one spawn point is filtering by the longer list of spawn points. */
  lemma {:induction false} SurvivorsStep(walls: seq<Rect>, starts: seq<Pos>, start: Pos, clearance: int)
    ensures Without(Survivors(walls, starts, clearance), start, clearance)
         == Survivors(walls, starts + [start], clearance)
  {
    if walls != [] {
      SurvivorsStep(walls[1..], starts, start, clearance);
      var w := walls[0];
      assert ClearOfAll(w, starts + [start], clearance)
        <==> ClearOfAll(w, starts, clearance) && !IsNearStart(w, start, clearance) by {
        assert (starts + [start])[|starts|] == start;
        assert forall i | 0 <= i < |starts| :: (starts + [start])[i] == starts[i];
      }
    }
  }

  /** The filter loop of `generate_walls` over a list of spawn points: for each in turn,
      drop the walls that come within its clearance square. */
  method FilterByStarts(candidates: seq<Rect>, starts: seq<Pos>) returns (walls: seq<Rect>)
    ensures walls == Survivors(candidates, starts, CLEARANCE)
  {
    walls := candidates;
    SurvivorsOfNoStarts(candidates, CLEARANCE);
    for i := 0 to |starts|
      invariant walls == Survivors(candidates, starts[..i], CLEARANCE)
    {
      SurvivorsStep(candidates, starts[..i], starts[i], CLEARANCE);
      assert starts[..i + 1] == starts[..i] + [starts[i]];
      walls := Without(walls, starts[i], CLEARANCE);
    }
    assert starts[..|starts|] == starts;
  }

  /** The clearance filter of `generate_walls`. The result is the candidates, in order,
      with exactly the walls that overlap some spawn point's clearance zone removed. */
  method FilterWalls(candidates: seq<Rect>) returns (walls: seq<Rect>)
    ensures walls == Survivors(candidates, PLAYER_STARTS, CLEARANCE) && WallsClear(walls)
    ensures Subseq(walls, candidates)
    ensures forall k, i | 0 <= k < |walls| && 0 <= i < |PLAYER_STARTS| ::
              !Overlap(ClearZone(PLAYER_STARTS[i], CLEARANCE), walls[k])
    ensures forall k | 0 <= k < |candidates| ::
              ClearOfAll(candidates[k], PLAYER_STARTS, CLEARANCE) ==> candidates[k] in walls
  {
    walls := FilterByStarts(candidates, PLAYER_STARTS);
    assert WallsClear(walls);
    forall k, i | 0 <= k < |walls| && 0 <= i < |PLAYER_STARTS|
      ensures !Overlap(ClearZone(PLAYER_STARTS[i], CLEARANCE), walls[k])
    {
      assert ClearOfAll(walls[k], PLAYER_STARTS, CLEARANCE);
    }
  }
}
