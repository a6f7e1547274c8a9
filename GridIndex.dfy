/**
 The sparse grid index of the game (GridManager): a dictionary from integer
 cells to the set of occupants standing on each cell.

 The module is generic in the two occupant classes, B (blocks) and P
 (players), so that the classes themselves can be declared in a module that
 imports this one.
 */
module GridIndex {

  datatype Option<T> = None | Some(value: T)

  /** An integer grid cell, also used for integer displacements (Vector2Int). */
  datatype Pos = Pos(x: int, y: int)

  const Zero := Pos(0, 0)
  const Up := Pos(0, 1)
  const Down := Pos(0, -1)
  const Left := Pos(-1, 0)
  const Right := Pos(1, 0)

  function Add(a: Pos, b: Pos): Pos
  {
    Pos(a.x + b.x, a.y + b.y)
  }

  /** The four unit directions a player can face. */
  predicate IsCardinal(d: Pos)
  {
    d == Up || d == Down || d == Left || d == Right
  }

  /** Anything that occupies a grid cell: one of the two occupant classes. */
  datatype Occupant<B, P> = BlockOcc(block: B) | PlayerOcc(player: P)
  {
    /** Both kinds of occupant declare that they obstruct movement. */
    function ObstructsMovement(): (r: bool)
      ensures r
    {
      match this
      case BlockOcc(_) => true
      case PlayerOcc(_) => true
    }
  }

  type Index<B(==), P(==)> = map<Pos, set<Occupant<B, P>>>

  /** The occupants registered at `p`; the empty set for a cell with no entry. */
  function OccupantsAt<B(==), P(==)>(m: Index<B, P>, p: Pos): set<Occupant<B, P>>
  {
    if p in m then m[p] else {}
  }

  /** The bookkeeping rule of the index: no cell entry holds an empty set. */
  ghost predicate Tidy<B, P>(m: Index<B, P>)
  {
    forall p :: p in m ==> m[p] != {}
  }

  /** Some occupant at `p` obstructs movement. */
  ghost predicate Obstructed<B, P>(m: Index<B, P>, p: Pos)
  {
    exists o :: o in OccupantsAt(m, p) && o.ObstructsMovement()
  }

  /** The blocks registered at `p`. */
  ghost function BlocksAt<B, P>(m: Index<B, P>, p: Pos): set<B>
  {
    set o | o in OccupantsAt(m, p) && o.BlockOcc? :: o.block
  }

  /** The players registered at `p`. */
  ghost function PlayersAt<B, P>(m: Index<B, P>, p: Pos): set<P>
  {
    set o | o in OccupantsAt(m, p) && o.PlayerOcc? :: o.player
  }

  /** `o` is registered at `p` and at no other cell. */
  ghost predicate RegisteredExactlyAt<B, P>(m: Index<B, P>, o: Occupant<B, P>, p: Pos)
  {
    o in OccupantsAt(m, p) && forall q :: q != p ==> o !in OccupantsAt(m, q)
  }

  /** `o` is registered at no cell at all. */
  ghost predicate Unindexed<B, P>(m: Index<B, P>, o: Occupant<B, P>)
  {
    forall q :: o !in OccupantsAt(m, q)
  }

  /** The index after registering `o` at `p`. */
  function Inserted<B(==), P(==)>(m: Index<B, P>, o: Occupant<B, P>, p: Pos): (r: Index<B, P>)
    ensures r.Keys == m.Keys + {p}
    ensures o in OccupantsAt(r, p) && OccupantsAt(r, p) == OccupantsAt(m, p) + {o}
    ensures forall q :: q != p ==> OccupantsAt(r, q) == OccupantsAt(m, q)
    ensures Tidy(m) ==> Tidy(r)
  {
    m[p := OccupantsAt(m, p) + {o}]
  }

  /** The index after unregistering `o` from `p`. */
  function Removed<B(==), P(==)>(m: Index<B, P>, o: Occupant<B, P>, p: Pos): (r: Index<B, P>)
    ensures p !in m ==> r == m
    ensures o !in OccupantsAt(r, p) && OccupantsAt(r, p) == OccupantsAt(m, p) - {o}
    ensures p in r <==> p in m && m[p] - {o} != {}
    ensures forall q :: q != p ==> (q in r <==> q in m) && OccupantsAt(r, q) == OccupantsAt(m, q)
    ensures Tidy(m) ==> Tidy(r)
  {
    if p in m then
      var rest := m[p] - {o};
      if rest == {} then m - {p} else m[p := rest]
    else
      m
  }

  /** Registering the same occupant twice at the same cell is the same as registering it once. */
  lemma InsertedIdempotent<B, P>(m: Index<B, P>, o: Occupant<B, P>, p: Pos)
    ensures Inserted(Inserted(m, o, p), o, p) == Inserted(m, o, p)
  {
    var once := Inserted(m, o, p);
    assert OccupantsAt(once, p) + {o} == OccupantsAt(once, p);
  }

  /**
   In a tidy index, registering an occupant at a cell where it was not, and
   then unregistering it there, gives back exactly the index one started from.
   */
  lemma InsertRemoveRoundTrip<B, P>(m: Index<B, P>, o: Occupant<B, P>, p: Pos)
    requires Tidy(m)
    requires o !in OccupantsAt(m, p)
    ensures Removed(Inserted(m, o, p), o, p) == m
  {
    var r := Removed(Inserted(m, o, p), o, p);
    if p in m {
      assert (m[p] + {o}) - {o} == m[p];
      assert r.Keys == m.Keys;
    } else {
      assert r.Keys == m.Keys;
    }
    forall q | q in m ensures r[q] == m[q] {
      assert OccupantsAt(r, q) == OccupantsAt(m, q);
    }
  }

  /**
   Since every kind of occupant obstructs movement, in a tidy index a cell is
   obstructed exactly when it has an entry.
   */
  lemma ObstructedIffOccupied<B, P>(m: Index<B, P>, p: Pos)
    requires Tidy(m)
    ensures Obstructed(m, p) <==> p in m
  {
    if p in m {
      var o :| o in m[p];
      assert o.ObstructsMovement();
    }
  }

  /** A consistent index in the sense of RegisteredExactlyAt tells an occupant's cell uniquely. */
  lemma RegisteredCellUnique<B, P>(m: Index<B, P>, o: Occupant<B, P>, p: Pos, q: Pos)
    requires RegisteredExactlyAt(m, o, p)
    requires o in OccupantsAt(m, q)
    ensures p == q
  {
  }

  class GridManager<B(==), P(==)> {
    /** The sparse grid: cell -> occupants of that cell. */
    var grid: Index<B, P>

    ghost predicate Valid()
      reads this`grid
    {
      Tidy(grid)
    }

    constructor ()
      ensures Valid() && grid == map[]
    {
      grid := map[];
    }

    /** Adds `occupant` to the set at `pos`, creating the cell entry if it is absent. */
    method Register(occupant: Occupant<B, P>, pos: Pos)
      modifies this
      ensures grid == Inserted(old(grid), occupant, pos)
      ensures old(Valid()) ==> Valid()
    {
      var cell: set<Occupant<B, P>>;
      if pos !in grid {
        cell := {};
        grid := grid[pos := cell];
      } else {
        cell := grid[pos];
      }
      cell := cell + {occupant};
      grid := grid[pos := cell];
    }

    /** Removes `occupant` from the set at `pos`, dropping the entry once it is empty. */
    method Unregister(occupant: Occupant<B, P>, pos: Pos)
      modifies this
      ensures grid == Removed(old(grid), occupant, pos)
      ensures old(Valid()) ==> Valid()
    {
      if pos in grid {
        var cell := grid[pos] - {occupant};
        grid := grid[pos := cell];
        if |cell| == 0 {
          grid := grid - {pos};
        }
      }
    }

    /** The occupants at `pos`; never fails, and empty exactly for a cell without an entry. */
    function GetOccupants(pos: Pos): (s: set<Occupant<B, P>>)
      reads this
      ensures pos in grid ==> s == grid[pos]
      ensures pos !in grid ==> s == {}
      ensures Valid() ==> (s == {} <==> pos !in grid)
    {
      OccupantsAt(grid, pos)
    }

    /** Whether some occupant at `pos` obstructs movement. */
    method HasObstacleOccupants(pos: Pos) returns (r: bool)
      ensures r <==> Obstructed(grid, pos)
    {
      var rest := GetOccupants(pos);
      r := false;
      while rest != {} && !r
        invariant rest <= GetOccupants(pos)
        invariant r ==> Obstructed(grid, pos)
        invariant !r ==> forall o :: o in GetOccupants(pos) && o !in rest ==> !o.ObstructsMovement()
        decreases |rest|
      {
        var o :| o in rest;
        r := o.ObstructsMovement();
        rest := rest - {o};
      }
    }

    /** Some block at `pos`, or None exactly when there is no block there. */
    method GetBlockAt(pos: Pos) returns (r: Option<B>)
      ensures r.None? <==> BlocksAt(grid, pos) == {}
      ensures r.Some? ==> r.value in BlocksAt(grid, pos)
    {
      var rest := GetOccupants(pos);
      while rest != {}
        invariant rest <= GetOccupants(pos)
        invariant forall o :: o in GetOccupants(pos) && o !in rest ==> !o.BlockOcc?
        decreases |rest|
      {
        var o :| o in rest;
        if o.BlockOcc? {
          assert o.block in BlocksAt(grid, pos);
          return Some(o.block);
        }
        rest := rest - {o};
      }
      return None;
    }

    /** Some player at `pos`, or None exactly when there is no player there. */
    method GetPlayerAt(pos: Pos) returns (r: Option<P>)
      ensures r.None? <==> PlayersAt(grid, pos) == {}
      ensures r.Some? ==> r.value in PlayersAt(grid, pos)
    {
      var rest := GetOccupants(pos);
      while rest != {}
        invariant rest <= GetOccupants(pos)
        invariant forall o :: o in GetOccupants(pos) && o !in rest ==> !o.PlayerOcc?
        decreases |rest|
      {
        var o :| o in rest;
        if o.PlayerOcc? {
          assert o.player in PlayersAt(grid, pos);
          return Some(o.player);
        }
        rest := rest - {o};
      }
      return None;
    }
  }
}
