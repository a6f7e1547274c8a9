/**
 The movement rules of a player, as functions of the index: whether a player
 (optionally holding one block) may make a step, and which way it faces after
 a directional input.
 */
module Movement {
  import opened GridIndex
  import opened Relocation

  /**
   The legality test of Player.CanMoveWithBlock. The player stands at
   `player`; `held` is the cell of the block it holds, if any; `d` is the step.
   The player may step into the cell its block is leaving, and the block may
   step into the cell the player is leaving; any other obstacle stops the move.
   */
  ghost predicate GroupMoveAllowed<B, P>(m: Index<B, P>, player: Pos, held: Option<Pos>, d: Pos)
  {
    match held
    case None => !Obstructed(m, Add(player, d))
    case Some(block) =>
      && (Add(player, d) == block || !Obstructed(m, Add(player, d)))
      && (Add(block, d) == player || !Obstructed(m, Add(block, d)))
  }

  /** The held block as a list of followers. */
  function Followers(held: Option<Pos>): (fs: seq<Pos>)
    ensures |fs| == if held.Some? then 1 else 0
    ensures forall i :: 0 <= i < |fs| ==> held == Some(fs[i])
  {
    match held
    case None => []
    case Some(b) => [b]
  }

  /**
   The lockstep rule for a group of an actor and any number of followers that
   all move by `d`: each member's target cell must be free of obstacles unless
   it is a cell that another member of the group leaves in the same move.
   Every test compares against positions before the move.
   */
  ghost predicate LockstepLegal<B, P>(m: Index<B, P>, actor: Pos, followers: seq<Pos>, d: Pos)
  {
    && (Add(actor, d) in followers || !Obstructed(m, Add(actor, d)))
    && forall i :: 0 <= i < |followers| ==> FollowerStepLegal(m, actor, followers, i, d)
  }

  ghost predicate FollowerStepLegal<B, P>(m: Index<B, P>, actor: Pos, followers: seq<Pos>, i: nat, d: Pos)
    requires i < |followers|
  {
    var target := Add(followers[i], d);
    || target == actor
    || (exists j :: 0 <= j < |followers| && j != i && followers[j] == target)
    || !Obstructed(m, target)
  }

  /**
   The single-block test of the player is the lockstep rule for a group of the
   player and the blocks it holds (none or one).
   */
  lemma GroupMoveIsLockstep<B, P>(m: Index<B, P>, player: Pos, held: Option<Pos>, d: Pos)
    ensures GroupMoveAllowed(m, player, held, d) <==> LockstepLegal(m, player, Followers(held), d)
  {
    var fs := Followers(held);
    if held.Some? {
      assert fs == [held.value];
      assert Add(player, d) in fs <==> Add(player, d) == held.value;
      assert FollowerStepLegal(m, player, fs, 0, d)
        <==> (Add(held.value, d) == player || !Obstructed(m, Add(held.value, d)));
    }
  }

  /**
   In a tidy index every entry is an obstacle, so a step is allowed exactly
   when each target cell is either left by the other group member or has no
   entry at all.
   */
  lemma GroupMoveAllowedInTidyIndex<B, P>(m: Index<B, P>, player: Pos, held: Option<Pos>, d: Pos)
    requires Tidy(m)
    ensures GroupMoveAllowed(m, player, held, d) <==>
      match held
      case None => Add(player, d) !in m
      case Some(block) =>
        && (Add(player, d) == block || Add(player, d) !in m)
        && (Add(block, d) == player || Add(block, d) !in m)
  {
    ObstructedIffOccupied(m, Add(player, d));
    if held.Some? {
      ObstructedIffOccupied(m, Add(held.value, d));
    }
  }

  /** Pushing: the block just ahead of the player may be pushed into a free cell. */
  lemma PushAllowed<B, P>(m: Index<B, P>, player: Pos, block: Pos, d: Pos)
    requires block == Add(player, d)
    requires !Obstructed(m, Add(block, d))
    ensures GroupMoveAllowed(m, player, Some(block), d)
  {
  }

  /** Pulling: the player may step away from the block behind it into a free cell. */
  lemma PullAllowed<B, P>(m: Index<B, P>, player: Pos, block: Pos, d: Pos)
    requires player == Add(block, d)
    requires !Obstructed(m, Add(player, d))
    ensures GroupMoveAllowed(m, player, Some(block), d)
  {
  }

  /** An obstacle on a target cell that no group member leaves stops the whole move. */
  lemma ThirdPartyBlocks<B, P>(m: Index<B, P>, player: Pos, held: Option<Pos>, d: Pos, c: Pos)
    requires Obstructed(m, c)
    requires c == Add(player, d) || (held.Some? && c == Add(held.value, d))
    requires c != player && (held.None? || c != held.value)
    ensures !GroupMoveAllowed(m, player, held, d)
  {
  }

  /**
   The scenario of a push to the right: player at (0,0), its block at (1,0),
   nothing else on the board. The move is allowed although (1,0) is occupied,
   and afterwards the player is alone at (1,0) and the block alone at (2,0).
   */
  lemma PushRightScenario<B, P>(b: B, p: P)
    ensures var m := map[Pos(0, 0) := {PlayerOcc(p)}, Pos(1, 0) := {BlockOcc(b)}];
      && Obstructed(m, Pos(1, 0))
      && GroupMoveAllowed(m, Pos(0, 0), Some(Pos(1, 0)), Right)
      && Relocated(Relocated(m, PlayerOcc(p), Pos(0, 0), Pos(1, 0)), BlockOcc(b), Pos(1, 0), Pos(2, 0))
         == map[Pos(1, 0) := {PlayerOcc(p)}, Pos(2, 0) := {BlockOcc(b)}]
  {
    var m: Index<B, P> := map[Pos(0, 0) := {PlayerOcc(p)}, Pos(1, 0) := {BlockOcc(b)}];
    assert BlockOcc(b) in OccupantsAt(m, Pos(1, 0));
    assert !Obstructed(m, Pos(2, 0));
    assert Removed(m, PlayerOcc(p), Pos(0, 0)) == map[Pos(1, 0) := {BlockOcc(b)}];
    assert {BlockOcc(b)} + {PlayerOcc(p)} == {BlockOcc(b), PlayerOcc(p)};
    assert Inserted(map[Pos(1, 0) := {BlockOcc(b)}], PlayerOcc(p), Pos(1, 0)) == map[Pos(1, 0) := {BlockOcc(b), PlayerOcc(p)}];
    var m1 := Relocated(m, PlayerOcc(p), Pos(0, 0), Pos(1, 0));
    assert m1 == map[Pos(1, 0) := {BlockOcc(b), PlayerOcc(p)}];
    assert {BlockOcc(b), PlayerOcc(p)} - {BlockOcc(b)} == {PlayerOcc(p)};
    assert Removed(m1, BlockOcc(b), Pos(1, 0)) == map[Pos(1, 0) := {PlayerOcc(p)}];
    assert OccupantsAt(map[Pos(1, 0) := {PlayerOcc(p)}], Pos(2, 0)) + {BlockOcc(b)} == {BlockOcc(b)};
    assert Inserted(map[Pos(1, 0) := {PlayerOcc(p)}], BlockOcc(b), Pos(2, 0)) == map[Pos(1, 0) := {PlayerOcc(p)}, Pos(2, 0) := {BlockOcc(b)}];
  }

  /**
   The scenario of a pull to the left: player at (1,0), its block behind it at
   (0,0). The player steps onto the block's cell and the block to (-1,0).
   */
  lemma PullLeftScenario<B, P>(b: B, p: P)
    ensures var m := map[Pos(1, 0) := {PlayerOcc(p)}, Pos(0, 0) := {BlockOcc(b)}];
      && GroupMoveAllowed(m, Pos(1, 0), Some(Pos(0, 0)), Left)
      && Relocated(Relocated(m, PlayerOcc(p), Pos(1, 0), Pos(0, 0)), BlockOcc(b), Pos(0, 0), Pos(-1, 0))
         == map[Pos(0, 0) := {PlayerOcc(p)}, Pos(-1, 0) := {BlockOcc(b)}]
  {
    var m: Index<B, P> := map[Pos(1, 0) := {PlayerOcc(p)}, Pos(0, 0) := {BlockOcc(b)}];
    assert !Obstructed(m, Pos(-1, 0));
    assert Removed(m, PlayerOcc(p), Pos(1, 0)) == map[Pos(0, 0) := {BlockOcc(b)}];
    assert {BlockOcc(b)} + {PlayerOcc(p)} == {BlockOcc(b), PlayerOcc(p)};
    assert Inserted(map[Pos(0, 0) := {BlockOcc(b)}], PlayerOcc(p), Pos(0, 0)) == map[Pos(0, 0) := {BlockOcc(b), PlayerOcc(p)}];
    var m1 := Relocated(m, PlayerOcc(p), Pos(1, 0), Pos(0, 0));
    assert m1 == map[Pos(0, 0) := {BlockOcc(b), PlayerOcc(p)}];
    assert {BlockOcc(b), PlayerOcc(p)} - {BlockOcc(b)} == {PlayerOcc(p)};
    assert Removed(m1, BlockOcc(b), Pos(0, 0)) == map[Pos(0, 0) := {PlayerOcc(p)}];
    assert OccupantsAt(map[Pos(0, 0) := {PlayerOcc(p)}], Pos(-1, 0)) + {BlockOcc(b)} == {BlockOcc(b)};
    assert Inserted(map[Pos(0, 0) := {PlayerOcc(p)}], BlockOcc(b), Pos(-1, 0)) == map[Pos(0, 0) := {PlayerOcc(p)}, Pos(-1, 0) := {BlockOcc(b)}];
  }

  function Sign(n: int): int
  {
    if n > 0 then 1 else if n < 0 then -1 else 0
  }

  /** Exactly one component of `dir` is nonzero. */
  predicate OnOneAxis(dir: Pos)
  {
    (dir.x != 0) != (dir.y != 0)
  }

  /**
   The facing after a directional input (Player.FaceTo): the cardinal
   direction of `dir` when it lies on one axis, otherwise the current facing.
   */
  function FacingFor(dir: Pos, current: Pos): (r: Pos)
    ensures OnOneAxis(dir) ==> r == Pos(Sign(dir.x), Sign(dir.y)) && IsCardinal(r)
    ensures !OnOneAxis(dir) ==> r == current
    ensures IsCardinal(current) ==> IsCardinal(r)
  {
    if dir == Zero then current
    else if dir.x > 0 && dir.y == 0 then Right
    else if dir.x < 0 && dir.y == 0 then Left
    else if dir.y > 0 && dir.x == 0 then Up
    else if dir.y < 0 && dir.x == 0 then Down
    else current
  }
}
