/**
 The relocation primitive of GridOccupantBase.MoveTo, as its effect on the
 index: unregister the occupant at its old cell, then register it at the new
 one. The occupant classes (module Entities) perform exactly this sequence on
 the shared grid and state their effect with `Relocated`.
 */
module Relocation {
  import opened GridIndex

  /** The index after moving `o` from cell `src` to cell `dst`. */
  function Relocated<B(==), P(==)>(m: Index<B, P>, o: Occupant<B, P>, src: Pos, dst: Pos): (r: Index<B, P>)
    // the occupant is registered at its destination
    ensures o in OccupantsAt(r, dst)
    // and, when it really moved, no longer at its origin
    ensures src != dst ==> o !in OccupantsAt(r, src)
    // every cell except the origin and the destination is untouched
    ensures forall q :: q != src && q != dst ==> (q in r <==> q in m) && OccupantsAt(r, q) == OccupantsAt(m, q)
    // no other occupant changes its registrations
    ensures forall q :: OccupantsAt(r, q) - {o} == OccupantsAt(m, q) - {o}
    // the tidiness rule is kept
    ensures Tidy(m) ==> Tidy(r)
  {
    Inserted(Removed(m, o, src), o, dst)
  }

  /**
   If `o` was registered exactly at `src`, after the relocation it is
   registered exactly at `dst`: index consistency for the moved occupant.
   */
  lemma RelocatedExactly<B, P>(m: Index<B, P>, o: Occupant<B, P>, src: Pos, dst: Pos)
    requires RegisteredExactlyAt(m, o, src)
    ensures RegisteredExactlyAt(Relocated(m, o, src, dst), o, dst)
  {
    var r := Relocated(m, o, src, dst);
    forall q | q != dst ensures o !in OccupantsAt(r, q) {
      if q != src {
        assert OccupantsAt(r, q) == OccupantsAt(m, q);
      }
    }
  }

  /**
   If `o` was registered at no cell other than `src` (possibly at none), after
   the relocation it is registered at `dst` and nowhere else.
   */
  lemma RelocatedFromNowhereElse<B, P>(m: Index<B, P>, o: Occupant<B, P>, src: Pos, dst: Pos)
    requires forall q :: q != src ==> o !in OccupantsAt(m, q)
    ensures RegisteredExactlyAt(Relocated(m, o, src, dst), o, dst)
  {
    var r := Relocated(m, o, src, dst);
    forall q | q != dst ensures o !in OccupantsAt(r, q) {
      if q != src {
        assert OccupantsAt(r, q) == OccupantsAt(m, q);
      }
    }
  }

  /** A relocation of an occupant that is not indexed anywhere is a plain registration. */
  lemma RelocatedUnindexed<B, P>(m: Index<B, P>, o: Occupant<B, P>, src: Pos, dst: Pos)
    requires Tidy(m)
    requires Unindexed(m, o)
    ensures Relocated(m, o, src, dst) == Inserted(m, o, dst)
  {
    if src in m {
      assert o !in OccupantsAt(m, src);
      assert m[src] - {o} == m[src];
    }
    assert Removed(m, o, src) == m;
  }

  /** Relocating an occupant onto the cell it is on (a zero move) leaves a tidy index as it was. */
  lemma RelocatedInPlace<B, P>(m: Index<B, P>, o: Occupant<B, P>, p: Pos)
    requires Tidy(m)
    requires o in OccupantsAt(m, p)
    ensures Relocated(m, o, p, p) == m
  {
    var r := Relocated(m, o, p, p);
    assert (m[p] - {o}) + {o} == m[p];
    assert r.Keys == m.Keys;
    forall q | q in m ensures r[q] == m[q] {
      assert OccupantsAt(r, q) == OccupantsAt(m, q);
    }
  }
}
