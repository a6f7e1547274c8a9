/**
 The scene entities: teams, blocks and players. Blocks and players are
 objects whose fields the game updates in place; both occupy cells of one
 shared grid, which is passed to their operations explicitly.
 */
module Entities {
  import opened GridIndex
  import opened Relocation
  import opened Movement

  /** A team; two teams are the same team only if they are the same object. */
  class Team {
    const TeamName: string

    constructor (name: string)
      ensures TeamName == name
    {
      TeamName := name;
    }
  }

  type Occ = Occupant<Block, Player>
  type Grid = GridManager<Block, Player>

  /** The grid position an occupant reports. */
  function PosOf(o: Occ): Pos
    reads (if o.BlockOcc? then {o.block} else {})`GridPos, (if o.PlayerOcc? then {o.player} else {})`GridPos
  {
    match o
    case BlockOcc(b) => b.GridPos
    case PlayerOcc(p) => p.GridPos
  }

  /** The blocks registered somewhere in the index. */
  ghost function IndexedBlocks(m: Index<Block, Player>): set<Block>
  {
    set p, o | p in m && o in m[p] && o.BlockOcc? :: o.block
  }

  /** The players registered somewhere in the index. */
  ghost function IndexedPlayers(m: Index<Block, Player>): set<Player>
  {
    set p, o | p in m && o in m[p] && o.PlayerOcc? :: o.player
  }

  /**
   Index consistency: every registration is at the cell its occupant reports,
   and no cell entry is empty.
   */
  ghost predicate Consistent(g: Grid)
    reads g`grid, IndexedBlocks(g.grid)`GridPos, IndexedPlayers(g.grid)`GridPos
  {
    && g.Valid()
    && forall p, o :: p in g.grid && o in g.grid[p] ==> PosOf(o) == p
  }

  /**
   In a consistent index, an occupant found at the cell it reports is
   registered there and nowhere else.
   */
  lemma ConsistentMeansExact(g: Grid, o: Occ)
    requires Consistent(g)
    requires o in OccupantsAt(g.grid, PosOf(o))
    ensures RegisteredExactlyAt(g.grid, o, PosOf(o))
  {
    forall q | q != PosOf(o) ensures o !in OccupantsAt(g.grid, q) {
    }
  }

  /** Every registration in `m`, except those of `o`, is at the cell its occupant reports. */
  ghost predicate AgreesExcept(m: Index<Block, Player>, o: Occ)
    reads IndexedBlocks(m)`GridPos, IndexedPlayers(m)`GridPos
  {
    forall p, x :: p in m && x in m[p] && x != o ==> PosOf(x) == p
  }

  /**
   Moving one occupant by the relocation primitive keeps the index
   consistent: `m0` is the index before the move, in which `o` was registered
   at most at `src` and every other occupant at the cell it reports.
   */
  lemma RelocationKeepsConsistent(g: Grid, m0: Index<Block, Player>, o: Occ, src: Pos, dst: Pos)
    requires Tidy(m0)
    requires forall q :: q != src ==> o !in OccupantsAt(m0, q)
    requires AgreesExcept(m0, o)
    requires g.grid == Relocated(m0, o, src, dst)
    requires PosOf(o) == dst
    ensures Consistent(g)
  {
    RelocatedFromNowhereElse(m0, o, src, dst);
    forall p, x | p in g.grid && x in g.grid[p] ensures PosOf(x) == p {
      if x == o {
        RegisteredCellUnique(g.grid, o, dst, p);
      } else {
        assert x in OccupantsAt(g.grid, p) - {o};
        assert x in OccupantsAt(m0, p);
      }
    }
  }

  /**
   GridOccupantBase.CanMoveTo: whether `newPos` is free of obstacles. The
   answer depends only on the index, never on the asking occupant, and in a
   tidy index it is "the cell has no entry".
   */
  method CanMoveTo(g: Grid, newPos: Pos) returns (r: bool)
    ensures r <==> !Obstructed(g.grid, newPos)
    ensures g.Valid() ==> (r <==> newPos !in g.grid)
  {
    var blocked := g.HasObstacleOccupants(newPos);
    r := !blocked;
    if g.Valid() {
      ObstructedIffOccupied(g.grid, newPos);
    }
  }

  class Block {
    var GridPos: Pos
    var Team: Team
    var GrabbingPlayer: Player?

    /** A block as the scene creates it, before Initialize places it on the grid. */
    constructor (team: Team)
      ensures GridPos == Zero && Team == team && GrabbingPlayer == null
    {
      GridPos := Zero;
      Team := team;
      GrabbingPlayer := null;
    }

    /** The block's side of the grab relation: its holder, if any, holds this block. */
    ghost predicate HolderHolds()
      reads this`GrabbingPlayer, (if GrabbingPlayer == null then {} else {GrabbingPlayer as Player})`grabbingBlock
    {
      GrabbingPlayer != null ==> GrabbingPlayer.grabbingBlock == this
    }

    /** Places the block at `pos` for the team `team` and registers it there. */
    method Initialize(g: Grid, pos: Pos, team: Team)
      modifies this`GridPos, this`Team, g
      ensures GridPos == pos && Team == team
      ensures g.grid == Inserted(old(g.grid), BlockOcc(this), pos)
      ensures old(g.Valid()) ==> g.Valid()
      ensures old(Consistent(g)) && old(Unindexed(g.grid, BlockOcc(this))) ==> Consistent(g)
    {
      ghost var m0 := g.grid;
      ghost var src := GridPos;
      ghost var unplaced := Consistent(g) && Unindexed(g.grid, BlockOcc(this));
      GridPos := pos;
      Team := team;
      g.Register(BlockOcc(this), GridPos);
      if unplaced {
        RelocatedUnindexed(m0, BlockOcc(this), src, pos);
        forall p, x | p in m0 && x in m0[p] && x != BlockOcc(this) ensures PosOf(x) == p {
          assert old(PosOf(x)) == p;
        }
        RelocationKeepsConsistent(g, m0, BlockOcc(this), src, pos);
      }
    }

    /** The relocation primitive: unregister at the old cell, move, register at the new cell. */
    method MoveTo(g: Grid, newPos: Pos)
      modifies this`GridPos, g
      ensures GridPos == newPos
      ensures g.grid == Relocated(old(g.grid), BlockOcc(this), old(GridPos), newPos)
      ensures old(g.Valid()) ==> g.Valid()
      ensures old(Consistent(g)) ==> Consistent(g)
    {
      ghost var m0 := g.grid;
      ghost var src := GridPos;
      ghost var wasConsistent := Consistent(g);
      g.Unregister(BlockOcc(this), GridPos);
      GridPos := newPos;
      g.Register(BlockOcc(this), GridPos);
      if wasConsistent {
        forall q | q != src ensures BlockOcc(this) !in OccupantsAt(m0, q) {
          assert old(PosOf(BlockOcc(this))) == src;
        }
        forall p, x | p in m0 && x in m0[p] && x != BlockOcc(this) ensures PosOf(x) == p {
          assert old(PosOf(x)) == p;
        }
        RelocationKeepsConsistent(g, m0, BlockOcc(this), src, newPos);
      }
    }

    /** A relative move: the same as MoveTo(GridPos + moveDir). */
    method Move(g: Grid, moveDir: Pos)
      modifies this`GridPos, g
      ensures GridPos == Add(old(GridPos), moveDir)
      ensures g.grid == Relocated(old(g.grid), BlockOcc(this), old(GridPos), GridPos)
      ensures old(g.Valid()) ==> g.Valid()
      ensures old(Consistent(g)) ==> Consistent(g)
    {
      MoveTo(g, Add(GridPos, moveDir));
    }

    /** Records which player (if any) holds this block. */
    method SetGrabbedBy(player: Player?)
      modifies this`GrabbingPlayer
      ensures GrabbingPlayer == player
      ensures GridPos == old(GridPos) && Team == old(Team)
    {
      GrabbingPlayer := player;
    }

    /** Moves this block to another team. */
    method SetTeam(newTeam: Team)
      modifies this`Team
      ensures Team == newTeam
      ensures GridPos == old(GridPos) && GrabbingPlayer == old(GrabbingPlayer)
    {
      Team := newTeam;
    }
  }

  class Player {
    /** The length of the cooldown after each move attempt, in ticks. */
    const MoveCooldown: nat
    var Team: Team
    var GridPos: Pos
    var FaceDir: Pos
    var moveTimer: int
    var queuedMove: Option<Pos>
    var grabbingBlock: Block?

    /** A player as the scene creates it: facing right, no cooldown, holding nothing. */
    constructor (team: Team, cooldown: nat)
      ensures MoveCooldown == cooldown && Team == team && GridPos == Zero
      ensures FaceDir == Right && moveTimer == 0 && queuedMove == None && grabbingBlock == null
    {
      MoveCooldown := cooldown;
      Team := team;
      GridPos := Zero;
      FaceDir := Right;
      moveTimer := 0;
      queuedMove := None;
      grabbingBlock := null;
    }

    /** The grab relation is two-way: the block this player holds names this player as its holder. */
    ghost predicate GrabConsistent()
      reads this`grabbingBlock, (if grabbingBlock == null then {} else {grabbingBlock as Block})`GrabbingPlayer
    {
      grabbingBlock != null ==> grabbingBlock.GrabbingPlayer == this
    }

    /**
     The player's view of the scene is sound: the index is consistent, the
     player and its block are registered at their positions, the grab
     relation is two-way and the player faces a cardinal direction.
     */
    ghost predicate Valid(g: Grid)
      reads this`GridPos, this`FaceDir, this`grabbingBlock
      reads (if grabbingBlock == null then {} else {grabbingBlock as Block})`GridPos
      reads (if grabbingBlock == null then {} else {grabbingBlock as Block})`GrabbingPlayer
      reads g`grid, IndexedBlocks(g.grid)`GridPos, IndexedPlayers(g.grid)`GridPos
    {
      && Consistent(g)
      && PlayerOcc(this) in OccupantsAt(g.grid, GridPos)
      && (grabbingBlock != null ==> BlockOcc(grabbingBlock as Block) in OccupantsAt(g.grid, grabbingBlock.GridPos))
      && GrabConsistent()
      && IsCardinal(FaceDir)
    }

    /** The cooldown bookkeeping: the timer never exceeds the cooldown, and a move is queued only while it runs. */
    ghost predicate CooldownInvariant()
      reads this
    {
      moveTimer <= MoveCooldown && (moveTimer <= 0 ==> queuedMove == None)
    }

    /** The cell of the held block, if any. */
    function HeldPos(): Option<Pos>
      reads this, grabbingBlock
    {
      if grabbingBlock == null then None else Some(grabbingBlock.GridPos)
    }

    /** The player and its block both stepped by `d`, and the index followed them. */
    twostate predicate Shifted(g: Grid, d: Pos)
      reads this, grabbingBlock, g
    {
      && grabbingBlock == old(grabbingBlock)
      && GridPos == Add(old(GridPos), d)
      && if grabbingBlock == null then
           g.grid == Relocated(old(g.grid), PlayerOcc(this), old(GridPos), GridPos)
         else
           && grabbingBlock.GridPos == Add(old(grabbingBlock.GridPos), d)
           && grabbingBlock.Team == old(grabbingBlock.Team)
           && grabbingBlock.GrabbingPlayer == old(grabbingBlock.GrabbingPlayer)
           && g.grid == Relocated(Relocated(old(g.grid), PlayerOcc(this), old(GridPos), GridPos),
                                  BlockOcc(grabbingBlock as Block), old(grabbingBlock.GridPos), grabbingBlock.GridPos)
    }

    /** Neither the player nor its block moved, and the index is as it was. */
    twostate predicate Unmoved(g: Grid)
      reads this, grabbingBlock, g
    {
      && grabbingBlock == old(grabbingBlock)
      && GridPos == old(GridPos)
      && g.grid == old(g.grid)
      && (grabbingBlock != null ==> unchanged(grabbingBlock))
    }

    /** The outcome of a move attempt: all of the group moves by `d` if the step is legal, nothing moves otherwise. */
    twostate predicate MoveOutcome(g: Grid, d: Pos)
      reads this, grabbingBlock, g
    {
      if old(GroupMoveAllowed(g.grid, GridPos, HeldPos(), d)) then Shifted(g, d) else Unmoved(g)
    }

    /** Places the player at `startPos` for the team `team` and registers it there. */
    method Initialize(g: Grid, startPos: Pos, team: Team)
      modifies this`GridPos, this`Team, g
      ensures GridPos == startPos && Team == team
      ensures g.grid == Inserted(old(g.grid), PlayerOcc(this), startPos)
      ensures old(g.Valid()) ==> g.Valid()
      ensures old(Consistent(g)) && old(Unindexed(g.grid, PlayerOcc(this))) ==> Consistent(g)
      ensures old(Consistent(g)) && old(Unindexed(g.grid, PlayerOcc(this))) && grabbingBlock == null && IsCardinal(FaceDir) ==>
        Valid(g)
    {
      ghost var m0 := g.grid;
      ghost var src := GridPos;
      ghost var unplaced := Consistent(g) && Unindexed(g.grid, PlayerOcc(this));
      GridPos := startPos;
      Team := team;
      g.Register(PlayerOcc(this), GridPos);
      if unplaced {
        RelocatedUnindexed(m0, PlayerOcc(this), src, startPos);
        forall p, x | p in m0 && x in m0[p] && x != PlayerOcc(this) ensures PosOf(x) == p {
          assert old(PosOf(x)) == p;
        }
        RelocationKeepsConsistent(g, m0, PlayerOcc(this), src, startPos);
      }
    }

    /** The relocation primitive: unregister at the old cell, move, register at the new cell. */
    method MoveTo(g: Grid, newPos: Pos)
      modifies this`GridPos, g
      ensures GridPos == newPos
      ensures g.grid == Relocated(old(g.grid), PlayerOcc(this), old(GridPos), newPos)
      ensures old(g.Valid()) ==> g.Valid()
      ensures old(Consistent(g)) ==> Consistent(g)
    {
      ghost var m0 := g.grid;
      ghost var src := GridPos;
      ghost var wasConsistent := Consistent(g);
      g.Unregister(PlayerOcc(this), GridPos);
      GridPos := newPos;
      g.Register(PlayerOcc(this), GridPos);
      if wasConsistent {
        forall q | q != src ensures PlayerOcc(this) !in OccupantsAt(m0, q) {
          assert old(PosOf(PlayerOcc(this))) == src;
        }
        forall p, x | p in m0 && x in m0[p] && x != PlayerOcc(this) ensures PosOf(x) == p {
          assert old(PosOf(x)) == p;
        }
        RelocationKeepsConsistent(g, m0, PlayerOcc(this), src, newPos);
      }
    }

    /** A relative move: the same as MoveTo(GridPos + moveDir). */
    method Move(g: Grid, moveDir: Pos)
      modifies this`GridPos, g
      ensures GridPos == Add(old(GridPos), moveDir)
      ensures g.grid == Relocated(old(g.grid), PlayerOcc(this), old(GridPos), GridPos)
      ensures old(g.Valid()) ==> g.Valid()
      ensures old(Consistent(g)) ==> Consistent(g)
    {
      MoveTo(g, Add(GridPos, moveDir));
    }

    /** Whether the player, with the block it holds, may step by `moveDir`; reads the index only. */
    method CanMoveWithBlock(g: Grid, moveDir: Pos) returns (r: bool)
      ensures r == GroupMoveAllowed(g.grid, GridPos, HeldPos(), moveDir)
    {
      if grabbingBlock == null {
        var newPlayerPos := Add(GridPos, moveDir);
        var blocked := g.HasObstacleOccupants(newPlayerPos);
        return !blocked;
      } else {
        var prevPlayerPos := GridPos;
        var newPlayerPos := Add(GridPos, moveDir);
        var prevBlockPos := grabbingBlock.GridPos;
        var newBlockPos := Add(grabbingBlock.GridPos, moveDir);
        if newPlayerPos != prevBlockPos {
          var blocked := g.HasObstacleOccupants(newPlayerPos);
          if blocked {
            return false;
          }
        }
        if newBlockPos != prevPlayerPos {
          var blocked := g.HasObstacleOccupants(newBlockPos);
          if blocked {
            return false;
          }
        }
        return true;
      }
    }

    /** Moves the player and then the block it holds by `moveDir`, without any legality test. */
    method MoveWithBlock(g: Grid, moveDir: Pos)
      requires Valid(g)
      modifies this`GridPos, g, grabbingBlock
      ensures Valid(g)
      ensures Shifted(g, moveDir)
    {
      Move(g, moveDir);
      if grabbingBlock != null {
        assert BlockOcc(grabbingBlock as Block) in OccupantsAt(g.grid, grabbingBlock.GridPos);
        grabbingBlock.Move(g, moveDir);
        assert PlayerOcc(this) in OccupantsAt(g.grid, GridPos);
      }
    }

    /** Attempts a step: the whole group moves if that is legal; either way the cooldown restarts. */
    method TryMove(g: Grid, moveDir: Pos)
      requires Valid(g)
      modifies this`GridPos, this`moveTimer, g, grabbingBlock
      ensures Valid(g)
      ensures moveTimer == MoveCooldown
      ensures MoveOutcome(g, moveDir)
    {
      var allowed := CanMoveWithBlock(g, moveDir);
      if allowed {
        MoveWithBlock(g, moveDir);
      }
      moveTimer := MoveCooldown;
    }

    /** Turns to face the cardinal direction of `dir`, if it lies on one axis. */
    method FaceTo(dir: Pos)
      modifies this`FaceDir
      ensures FaceDir == FacingFor(dir, old(FaceDir))
    {
      if dir == Zero {
        return;
      }
      if dir.x > 0 && dir.y == 0 {
        FaceDir := Right;
      } else if dir.x < 0 && dir.y == 0 {
        FaceDir := Left;
      } else if dir.y > 0 && dir.x == 0 {
        FaceDir := Up;
      } else if dir.y < 0 && dir.x == 0 {
        FaceDir := Down;
      }
    }

    /**
     A directional input. A zero input is ignored. Otherwise the player turns;
     during the cooldown the input replaces any queued move, and after it the
     move is attempted at once.
     */
    method OnMoveInput(g: Grid, moveDir: Pos)
      requires Valid(g) && CooldownInvariant()
      modifies this`GridPos, this`FaceDir, this`moveTimer, this`queuedMove, g, grabbingBlock
      ensures Valid(g) && CooldownInvariant()
      ensures moveDir == Zero ==>
        && FaceDir == old(FaceDir) && moveTimer == old(moveTimer) && queuedMove == old(queuedMove)
        && Unmoved(g)
      ensures moveDir != Zero ==> FaceDir == FacingFor(moveDir, old(FaceDir))
      ensures moveDir != Zero && old(moveTimer) > 0 ==>
        && queuedMove == Some(moveDir) && moveTimer == old(moveTimer)
        && Unmoved(g)
      ensures moveDir != Zero && old(moveTimer) <= 0 ==>
        && queuedMove == old(queuedMove) && moveTimer == MoveCooldown
        && MoveOutcome(g, moveDir)
    {
      if moveDir == Zero {
        return;
      }
      FaceTo(moveDir);
      if moveTimer > 0 {
        queuedMove := Some(moveDir);
        return;
      }
      TryMove(g, moveDir);
    }

    /**
     One tick of `delta` time units. While the cooldown runs it counts down;
     the tick that ends it attempts the queued move, if any, and clears the
     queue.
     */
    method Update(g: Grid, delta: nat)
      requires Valid(g) && CooldownInvariant()
      modifies this`GridPos, this`moveTimer, this`queuedMove, g, grabbingBlock
      ensures Valid(g) && CooldownInvariant()
      ensures old(moveTimer) <= 0 ==>
        moveTimer == old(moveTimer) && queuedMove == old(queuedMove) && Unmoved(g)
      ensures old(moveTimer) > 0 && (old(moveTimer) - delta > 0 || old(queuedMove) == None) ==>
        moveTimer == old(moveTimer) - delta && queuedMove == old(queuedMove) && Unmoved(g)
      ensures old(moveTimer) > 0 && old(moveTimer) - delta <= 0 && old(queuedMove) != None ==>
        && queuedMove == None && moveTimer == MoveCooldown
        && MoveOutcome(g, old(queuedMove).value)
    {
      if moveTimer > 0 {
        moveTimer := moveTimer - delta;
        if moveTimer <= 0 && queuedMove.Some? {
          TryMove(g, queuedMove.value);
          queuedMove := None;
        }
      }
    }

    /** Takes hold of `block`, unless this player already holds a block. */
    method GrabBlock(block: Block)
      modifies this`grabbingBlock, block`GrabbingPlayer
      ensures old(grabbingBlock) != null ==>
        grabbingBlock == old(grabbingBlock) && block.GrabbingPlayer == old(block.GrabbingPlayer)
      ensures old(grabbingBlock) == null ==> grabbingBlock == block && block.GrabbingPlayer == this
      ensures old(GrabConsistent()) ==> GrabConsistent()
      // the grabbed block's holder holds it, and no other block loses that property
      ensures old(grabbingBlock) == null || old(block.HolderHolds()) ==> block.HolderHolds()
      ensures forall b: Block :: old(allocated(b)) && b != block && old(b.HolderHolds()) ==> b.HolderHolds()
    {
      if grabbingBlock != null {
        return;
      }
      grabbingBlock := block;
      block.SetGrabbedBy(this);
    }

    /** Lets go of `block` if it is the one held; any other block is left alone. */
    method ReleaseBlock(block: Block)
      modifies this`grabbingBlock, block`GrabbingPlayer
      ensures old(grabbingBlock) == block ==> grabbingBlock == null && block.GrabbingPlayer == null
      ensures old(grabbingBlock) != block ==>
        grabbingBlock == old(grabbingBlock) && block.GrabbingPlayer == old(block.GrabbingPlayer)
      ensures old(GrabConsistent()) ==> GrabConsistent()
      // a released block has no holder, and no block loses the property that its holder holds it
      ensures forall b: Block :: old(allocated(b)) && old(b.HolderHolds()) ==> b.HolderHolds()
    {
      if grabbingBlock != block {
        return;
      }
      block.SetGrabbedBy(null);
      grabbingBlock := null;
    }

    /**
     The grab action: first release the held block, then grab the block in
     the faced cell if it exists, is not the block just released, belongs to
     this player's team and is held by nobody. `watched` is the block the
     index reported in the faced cell.
     */
    method OnGrabInput(g: Grid) returns (ghost watched: Option<Block>)
      requires Valid(g)
      modifies this`grabbingBlock, grabbingBlock, BlocksAt(g.grid, Add(GridPos, FaceDir))
      ensures Valid(g)
      ensures forall b: Block :: old(allocated(b)) && old(b.HolderHolds()) ==> b.HolderHolds()
      ensures watched == None <==> BlocksAt(g.grid, Add(GridPos, FaceDir)) == {}
      ensures watched != None ==> watched.value in BlocksAt(g.grid, Add(GridPos, FaceDir))
      ensures old(grabbingBlock) != null ==> old(grabbingBlock).GrabbingPlayer == null
      ensures var w := watched;
        grabbingBlock ==
          if w != None && w.value != old(grabbingBlock) && w.value.Team == Team && old(w.value.GrabbingPlayer) == null
          then w.value else null
      ensures grabbingBlock != null ==> grabbingBlock.GrabbingPlayer == this
      ensures forall b :: b in BlocksAt(g.grid, Add(GridPos, FaceDir)) && b != grabbingBlock && b != old(grabbingBlock) ==>
        b.GrabbingPlayer == old(b.GrabbingPlayer)
      ensures forall b :: b in BlocksAt(g.grid, Add(GridPos, FaceDir)) ==> b.GridPos == old(b.GridPos) && b.Team == old(b.Team)
      ensures old(grabbingBlock) != null ==>
        old(grabbingBlock).GridPos == old(grabbingBlock.GridPos) && old(grabbingBlock).Team == old(grabbingBlock.Team)
    {
      var releasedBlock: Block? := null;
      if grabbingBlock != null {
        releasedBlock := grabbingBlock;
        ReleaseBlock(releasedBlock);
      }

      var watchingPos := Add(GridPos, FaceDir);
      var watchingBlock := g.GetBlockAt(watchingPos);
      watched := watchingBlock;

      if watchingBlock.Some? && releasedBlock != watchingBlock.value
         && watchingBlock.value.Team == Team && watchingBlock.value.GrabbingPlayer == null
      {
        var b := watchingBlock.value;
        assert BlockOcc(b) in OccupantsAt(g.grid, watchingPos);
        assert PosOf(BlockOcc(b)) == watchingPos;
        GrabBlock(b);
      }
    }

    /** Moves this player, and the block it holds, to team `newTeam`; a block must be held. */
    method ChangeTeam(newTeam: Team)
      requires grabbingBlock != null
      modifies this`Team, grabbingBlock`Team
      ensures Team == newTeam && grabbingBlock.Team == newTeam
    {
      Team := newTeam;
      grabbingBlock.Team := newTeam;
    }
  }
}
