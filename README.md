# Chasse grid core in Dafny

Chasse is a small grid puzzle game. Players walk on an unbounded integer grid. A player can grab one block of its own team and push or pull it along. This project models the game's occupancy and movement core and proves properties about it:

- **The sparse grid index** (`GridManager`) maps cells to sets of occupants. `Register` and `Unregister` update it in place. Queries ask who is on a cell, whether an obstacle is there, and which block or player is there. Module `GridIndex` holds a generic class `GridManager` and the value-level functions `Inserted` and `Removed` that specify it.
- **The relocation primitive** (`GridOccupantBase.MoveTo`/`Move`) unregisters an occupant at its old cell, updates its position and registers it at the new cell. Module `Relocation` states its effect on the index as `Relocated`. The classes in `Entities` perform that sequence on the shared grid.
- **The movement rule of a player** is in module `Movement`:
  - the legality test for a player with or without a held block, `GroupMoveAllowed`;
  - its equivalence with a general lockstep rule;
  - push, pull and blocking;
  - the facing rule.
- **The scene entities** (`Team`, `Block`, `Player`) are in module `Entities`. They are classes whose fields the methods update. The central invariants are:
  - **index consistency**: every registration sits at the cell its occupant reports, and no cell entry is empty;
  - **two-way grab relation**: a block held by a player names that player as its holder, and a block's holder, if any, holds that block;
  - **cooldown bookkeeping**: the timer never exceeds the cooldown, and a move is queued only while the cooldown runs.

The grid object is passed explicitly to every operation that uses it. The source reaches it through the singleton `GridManager.Instance`. `Occupant` is a tagged value, `BlockOcc(block) | PlayerOcc(player)`, and it stands for the source's `IGridOccupant`. Occupants and teams compare by object identity, as they do in the source.

## Model

| member | source | states |
|---|---|---|
| GridIndex.GridManager.constructor | Assets/Scripts/GridManager.cs:12 | the grid starts as the empty dictionary, which is tidy |
| GridIndex.GridManager.Register | Assets/Scripts/GridManager.cs:40-53 | the new grid is the old one with the occupant added to the cell's set (the cell is created if absent); tidiness is kept |
| GridIndex.GridManager.Unregister | Assets/Scripts/GridManager.cs:58-67 | the new grid is the old one with the occupant removed from the cell and the cell dropped once empty; tidiness is kept |
| GridIndex.GridManager.GetOccupants | Assets/Scripts/GridManager.cs:72-76 | never fails: the cell's set for a populated cell, the empty set otherwise; in a tidy grid it is empty exactly for cells without an entry |
| GridIndex.GridManager.HasObstacleOccupants | Assets/Scripts/GridManager.cs:81-91 | true if and only if some occupant of the cell obstructs movement |
| GridIndex.GridManager.GetBlockAt | Assets/Scripts/GridManager.cs:98-106 | nothing exactly when no block is on the cell; otherwise a block that is registered on the cell |
| GridIndex.GridManager.GetPlayerAt | Assets/Scripts/GridManager.cs:111-119 | nothing exactly when no player is on the cell; otherwise a player that is registered on the cell |
| GridIndex.Occupant.ObstructsMovement | Assets/Scripts/Block.cs:12 | every occupant, block or player, obstructs movement |
| GridIndex.Inserted | Assets/Scripts/GridManager.cs:40-53 | the cell gains the occupant and becomes a key; every other cell is unchanged; tidiness is preserved |
| GridIndex.Removed | Assets/Scripts/GridManager.cs:58-67 | a no-op on an absent cell; the occupant is no longer at the cell; the cell stays a key only if something is left; other cells are unchanged; tidiness is preserved |
| GridIndex.InsertedIdempotent | Assets/Scripts/GridManager.cs:40-53 | registering the same occupant twice at a cell equals registering it once |
| GridIndex.InsertRemoveRoundTrip | Assets/Scripts/GridManager.cs:40-67 | in a tidy grid, registering an occupant where it was not and then unregistering it gives back exactly the original grid |
| GridIndex.ObstructedIffOccupied | Assets/Scripts/GridManager.cs:81-91 | in a tidy grid a cell is obstructed exactly when it has an entry |
| Relocation.Relocated | Assets/Scripts/GridOccupantBase.cs:9-15 | after the move the occupant is at the destination and, on a real move, not at the origin; no other cell and no other occupant's registration changes; tidiness is preserved |
| Relocation.RelocatedExactly | Assets/Scripts/GridOccupantBase.cs:11-14 | an occupant registered exactly at its old cell is registered exactly at its new cell |
| Relocation.RelocatedFromNowhereElse | Assets/Scripts/GridOccupantBase.cs:11-14 | an occupant registered nowhere except possibly its old cell ends registered exactly at its new cell |
| Relocation.RelocatedUnindexed | Assets/Scripts/Block.cs:26-33 | for an occupant not yet in a tidy grid, the relocation is a plain registration, as Initialize does |
| Relocation.RelocatedInPlace | Assets/Scripts/GridOccupantBase.cs:9-15 | a zero move leaves a tidy grid unchanged |
| Movement.Followers | Assets/Scripts/Player.cs:21 | the held block as a list of at most one follower cell |
| Movement.GroupMoveIsLockstep | Assets/Scripts/Player.cs:194-214 | the single-block test is the lockstep rule, in both directions: each group member's target must be free unless another member leaves it |
| Movement.GroupMoveAllowedInTidyIndex | Assets/Scripts/Player.cs:179-215 | in a tidy grid the test reads: each target is either left by the other group member or has no entry |
| Movement.PushAllowed | Assets/Scripts/Player.cs:202-212 | pushing the block ahead into a free cell is allowed although the player's target is occupied by that block |
| Movement.PullAllowed | Assets/Scripts/Player.cs:202-212 | stepping away from the block behind into a free cell is allowed although the block's target is the player's cell |
| Movement.ThirdPartyBlocks | Assets/Scripts/Player.cs:202-212 | an obstacle on a target cell that no group member leaves forbids the move |
| Movement.PushRightScenario | Assets/Scripts/Player.cs:114-119 | concrete push: the move is allowed and leaves the player at (1,0) and the block at (2,0) and nothing else |
| Movement.PullLeftScenario | Assets/Scripts/Player.cs:114-119 | concrete pull: the move is allowed and leaves the player at (0,0) and the block at (-1,0) and nothing else |
| Movement.FacingFor | Assets/Scripts/Player.cs:217-241 | the unit vector of the input's axis when exactly one component is nonzero, otherwise the current facing; a cardinal facing stays cardinal |
| Entities.ConsistentMeansExact | Assets/Scripts/GridOccupantBase.cs:11-14 | in a consistent grid an occupant found at its reported cell is registered there and nowhere else |
| Entities.RelocationKeepsConsistent | Assets/Scripts/GridOccupantBase.cs:9-15 | relocating one occupant to the position it now reports keeps the grid consistent when nobody else moved |
| Entities.CanMoveTo | Assets/Scripts/GridOccupantBase.cs:22-25 | true exactly when the cell has no obstacle, that is, in a tidy grid, no entry; it changes nothing |
| Entities.Team.constructor | Assets/Scripts/Team.cs:6-8 | a team carries its name |
| Entities.Block.constructor | Assets/Scripts/Block.cs:9-10 | a new block has its team and no holder |
| Entities.Block.Initialize | Assets/Scripts/Block.cs:26-33 | sets position and team and registers the block at the position; keeps tidiness and, for an unregistered block, consistency |
| Entities.Block.MoveTo | Assets/Scripts/GridOccupantBase.cs:9-15 | the position becomes the target and the grid is the relocation of the block; tidiness and consistency are kept |
| Entities.Block.Move | Assets/Scripts/GridOccupantBase.cs:17-20 | the same as MoveTo of position plus step |
| Entities.Block.SetGrabbedBy | Assets/Scripts/Block.cs:35-38 | the holder becomes the given player or none; position and team are unchanged |
| Entities.Block.SetTeam | Assets/Scripts/Block.cs:40-44 | the team becomes the given team; position and holder are unchanged and nothing else may change |
| Entities.Player.constructor | Assets/Scripts/Player.cs:13-21 | facing right, no cooldown running, nothing queued, no block held |
| Entities.Player.Initialize | Assets/Scripts/Player.cs:56-64 | sets position and team and registers the player there; keeps consistency for an unregistered player, and then the player's invariant holds |
| Entities.Player.MoveTo | Assets/Scripts/GridOccupantBase.cs:9-15 | the position becomes the target and the grid is the relocation of the player; tidiness and consistency are kept |
| Entities.Player.Move | Assets/Scripts/GridOccupantBase.cs:17-20 | the same as MoveTo of position plus step |
| Entities.Player.CanMoveWithBlock | Assets/Scripts/Player.cs:179-215 | exactly the group-move legality test, with the vacated-cell exceptions for player and block |
| Entities.Player.MoveWithBlock | Assets/Scripts/Player.cs:114-119 | the player and its block both shift by the step, and the grid follows both relocations; the invariant is kept |
| Entities.Player.TryMove | Assets/Scripts/Player.cs:97-105 | all or nothing: the whole group shifts by the step if the move is legal and nothing moves otherwise; the timer restarts in both cases |
| Entities.Player.FaceTo | Assets/Scripts/Player.cs:217-241 | the facing becomes the facing rule applied to the input and the old facing |
| Entities.Player.OnMoveInput | Assets/Scripts/Player.cs:79-95 | a zero input changes nothing; otherwise the player turns; during the cooldown the input replaces the queued move and nothing moves; after it the move is attempted at once |
| Entities.Player.Update | Assets/Scripts/Player.cs:66-77 | while the timer runs it drops by the tick; the tick that ends it with a move queued attempts that move and clears the queue; an expired timer changes nothing |
| Entities.Player.GrabBlock | Assets/Scripts/Player.cs:121-131 | a player already holding is unchanged; otherwise it holds the block and the block names it as holder; the grabbed block's holder holds it, and no other block loses that property |
| Entities.Player.ReleaseBlock | Assets/Scripts/Player.cs:133-143 | releasing the held block clears both sides of the relation; releasing any other block is a no-op; no block loses the property that its holder holds it |
| Entities.Player.OnGrabInput | Assets/Scripts/Player.cs:145-166 | the held block is always released first; afterwards the player holds the block reported in the faced cell exactly when it exists, is not the block just released, is of the player's team and has no holder, and holds nothing otherwise; every block whose holder held it still has a holder that holds it |
| Entities.Player.ChangeTeam | Assets/Scripts/Player.cs:172-177 | the player's team and its held block's team become the new team |

## Left out

- Engine lifecycle and input wiring: `Awake`, `Start`, `OnEnable`/`OnDisable` and the input-action subscriptions are engine plumbing. The operations are called directly instead.
- Rendering is not modelled: sprite colours, `transform.position`/`rotation`, the `DG.Tweening` import and all `Debug.Log` diagnostics, including the "overlap occurred" message of `Register`.
- Floating point: `GridToWorld`, `WorldToGrid` and `Mathf.RoundToInt` are not modelled. The move input is given as the already rounded integer vector.
- Entities.Player.FaceTo receives the rounded integer direction, while the source passes it the raw float vector. For a float input with one component near zero but not zero, the source leaves the facing unchanged, whereas the rounded input may turn the player.
- Entities.Player.Update: time is an integer tick count and `Time.deltaTime` is a natural-number parameter `delta`, not a float.
- The `GridManager.Instance` singleton and its duplicate-instance check are not modelled. One grid object is passed to every operation.
- Entities.Player.ChangeTeam requires a held block, because the source dereferences `grabbingBlock` unconditionally and would fail without one.
- GridIndex.GridManager.GetOccupants returns the cell's set as a value. The source returns its internal `HashSet`, so a caller could alias and mutate it. No core caller does.
- `GridOccupantBase` is abstract in the source. Without inheritance, `MoveTo` and `Move` are written once in `Block` and once in `Player`. `CanMoveTo` never reads the occupant, so it is one module-level method.
- Holding several blocks is not modelled: the code holds one block (`grabbingBlock`).
- Entities.Player.OnGrabInput: the block reported by `GetBlockAt` when a cell holds several blocks depends on hash-set order. The model leaves that choice open and names the reported block in a ghost out-parameter.
- Positions and steps are unbounded integers (`GridIndex.Add`). The source's `Vector2Int` components are 32-bit, so `GridPos + moveDir` (Assets/Scripts/GridOccupantBase.cs:19) and the target cells of Assets/Scripts/Player.cs:155, 184, 197 and 200 wrap around at the 32-bit edge; that wrap-around is not modelled.
- `Block.cs` uses `GridPosition` where the base class declares `GridPos`. Both are the one field `GridPos`.

Behaviour of the code worth noting:

- A player holds at most one block.
- A zero rounded input returns before `FaceTo`, so it does not turn the player.
- A diagonal rounded input such as (1,1) leaves the facing unchanged but is still attempted as a diagonal move.
- `GrabBlock` itself does not check whether the block already has a holder. Only `OnGrabInput` tests `GrabbingPlayer == null` before calling it, so only there is the previous holder's side of the relation guaranteed to be kept.
