/** Escalating discovery over a cell hierarchy: internal/discovery/registry.go and cell.go.

  A cell is a base cell refined by one digit per resolution; its parent at a coarser resolution
  keeps a prefix of the digits. Nothing else about the grid is used.
  */
module Discovery {
  import opened Wrappers

  datatype Cell = Cell(base: nat, digits: seq<nat>)

  function Resolution(c: Cell): nat { |c.digits| }

  /** The ancestor at a resolution; an error when it is negative or finer than the cell. */
  function Parent(c: Cell, res: int): Option<Cell>
  {
    if 0 <= res <= Resolution(c) then Some(c.(digits := c.digits[..res])) else None
  }

  /** One step coarser; there is nothing coarser than resolution 0, where the source panics. */
  function Widen(c: Cell): Option<Cell> { Parent(c, Resolution(c) - 1) }

  /** q is c or an ancestor of c. */
  predicate Contains(q: Cell, c: Cell)
  {
    q == c || Parent(c, Resolution(q)) == Some(q)
  }

  /** Containment is the prefix order of the hierarchy, for cells of any resolution. */
  lemma ContainsIsPrefix(q: Cell, c: Cell)
    ensures Contains(q, c) <==> q.base == c.base && q.digits <= c.digits
  {
    if |q.digits| <= |c.digits| {
      assert Contains(q, c) <==> q.base == c.base && q.digits == c.digits[..|q.digits|] by {
        assert c.digits[..|c.digits|] == c.digits;
      }
    }
  }

  lemma ContainsIsTransitive(a: Cell, b: Cell, c: Cell)
    requires Contains(a, b) && Contains(b, c)
    ensures Contains(a, c)
  {
    ContainsIsPrefix(a, b);
    ContainsIsPrefix(b, c);
    ContainsIsPrefix(a, c);
  }

  /** The cell w steps coarser than c. */
  function Ancestor(c: Cell, w: nat): Cell
    requires w <= Resolution(c)
  {
    c.(digits := c.digits[..Resolution(c) - w])
  }

  lemma AncestorsNest(c: Cell, v: nat, w: nat)
    requires v <= w <= Resolution(c)
    ensures Contains(Ancestor(c, w), Ancestor(c, v))
  {
    ContainsIsPrefix(Ancestor(c, w), Ancestor(c, v));
  }

  /** Widening w times one step at a time leads to the w-th ancestor. */
  lemma WidenIsNextAncestor(c: Cell, w: nat)
    requires w <= Resolution(c)
    ensures w < Resolution(c) ==> Widen(Ancestor(c, w)) == Some(Ancestor(c, w + 1))
    ensures w == Resolution(c) ==> Widen(Ancestor(c, w)).None?
  {
    if w < Resolution(c) {
      assert Ancestor(c, w).digits[..Resolution(c) - w - 1] == c.digits[..Resolution(c) - w - 1];
    }
  }

  /** The drivers inside a cell: those whose own cell refines it. */
  function Inside(driver: map<string, Cell>, q: Cell): (inside: set<string>)
    ensures forall p :: p in inside <==> p in driver && q.base == driver[p].base && q.digits <= driver[p].digits
  {
    assert forall p :: p in driver && Contains(q, driver[p]) <==>
             p in driver && q.base == driver[p].base && q.digits <= driver[p].digits by {
      forall p | p in driver
        ensures Contains(q, driver[p]) <==> q.base == driver[p].base && q.digits <= driver[p].digits
      {
        ContainsIsPrefix(q, driver[p]);
      }
    }
    set p | p in driver && Contains(q, driver[p])
  }

  /** Widening never loses a candidate. */
  lemma WideningKeepsCandidates(driver: map<string, Cell>, c: Cell, v: nat, w: nat)
    requires v <= w <= Resolution(c)
    ensures Inside(driver, Ancestor(c, v)) <= Inside(driver, Ancestor(c, w))
    ensures |Inside(driver, Ancestor(c, v))| <= |Inside(driver, Ancestor(c, w))|
  {
    AncestorsNest(c, v, w);
    forall p | p in Inside(driver, Ancestor(c, v))
      ensures p in Inside(driver, Ancestor(c, w))
    {
      ContainsIsTransitive(Ancestor(c, w), Ancestor(c, v), driver[p]);
    }
    SubsetSize(Inside(driver, Ancestor(c, v)), Inside(driver, Ancestor(c, w)));
  }

  /** names lists the members of s, each once. */
  ghost predicate Lists(names: seq<string>, s: set<string>)
  {
    && (forall p :: p in names <==> p in s)
    && (forall i, j :: 0 <= i < j < |names| ==> names[i] != names[j])
  }

  lemma {:induction false} ListedSize(names: seq<string>, s: set<string>)
    requires Lists(names, s)
    ensures |names| == |s|
    decreases |names|
  {
    if names == [] {
      assert s == {};
    } else {
      var last, init := names[|names| - 1], names[..|names| - 1];
      forall p
        ensures p in init <==> p in s - {last}
      {
        assert p in names <==> p in init || p == last by { assert names == init + [last]; }
      }
      ListedSize(init, s - {last});
    }
  }

  class Registry {
    var driver: map<string, Cell>

    constructor ()
      ensures driver == map[]
    {
      driver := map[];
    }

    method SetCell(pseudonym: string, cell: Cell)
      modifies this
      ensures driver == old(driver)[pseudonym := cell]
    {
      driver := driver[pseudonym := cell];
    }

    method Remove(pseudonym: string)
      modifies this
      ensures driver == old(driver) - {pseudonym}
    {
      driver := driver - {pseudonym};
    }

    /** The drivers inside q, in any order. */
    method Candidates(q: Cell) returns (cands: seq<string>)
      ensures Lists(cands, Inside(driver, q))
    {
      cands := [];
      var todo := driver.Keys;
      while todo != {}
        invariant todo <= driver.Keys
        invariant forall p :: p in cands <==> p in Inside(driver, q) && p !in todo
        invariant forall i, j :: 0 <= i < j < |cands| ==> cands[i] != cands[j]
        decreases todo
      {
        var p :| p in todo;
        ghost var before := cands;
        if Contains(q, driver[p]) {
          cands := cands + [p];
        }
        assert forall r :: r in cands <==> r in before || (Contains(q, driver[p]) && r == p);
        todo := todo - {p};
      }
    }

    /** Escalates from start, widening w times; no result means it ran past resolution 0, where the source panics.

      The final cell is the tightest ancestor holding target drivers among the first maxWiden + 1,
      or the last of them; it runs out exactly when it may widen past resolution 0 and even the
      coarsest ancestor holds too few.
      */
    method Discover(start: Cell, target: int, maxWiden: int) returns (r: Option<(seq<string>, Cell)>, w: nat)
      ensures r.None? <==> maxWiden > Resolution(start) && |Inside(driver, Ancestor(start, Resolution(start)))| < target
      ensures r.Some? ==>
                && w <= Resolution(start) && r.value.1 == Ancestor(start, w)
                && Lists(r.value.0, Inside(driver, r.value.1))
                && (|r.value.0| >= target || w >= maxWiden)
                && TooFew(driver, start, w, target, maxWiden)
    {
      var q := start;
      w := 0;
      assert start.digits[..Resolution(start)] == start.digits;
      while true
        invariant w <= Resolution(start) && q == Ancestor(start, w)
        invariant TooFew(driver, start, w, target, maxWiden)
        decreases Resolution(start) - w
      {
        var cands := Candidates(q);
        ListedSize(cands, Inside(driver, q));
        if |cands| >= target || w >= maxWiden {
          WideningKeepsCandidates(driver, start, w, Resolution(start));
          return Some((cands, q)), w;
        }
        WidenIsNextAncestor(start, w);
        var wider := Widen(q);
        if wider.None? {
          return None, w;
        }
        q := wider.value;
        w := w + 1;
      }
    }
  }

  /** The first w ancestors of start each hold fewer than target drivers, and each may still be widened. */
  ghost predicate TooFew(driver: map<string, Cell>, start: Cell, w: nat, target: int, maxWiden: int)
    requires w <= Resolution(start)
  {
    forall v :: 0 <= v < w ==> |Inside(driver, Ancestor(start, v))| < target && v < maxWiden
  }
}
