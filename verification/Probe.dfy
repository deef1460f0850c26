/** The probe path of a hash value through the series of tables in the page file. */
module Probe {
  import Arith

  const DEFSIZE: int := 120011
  const MAXRUN: nat := 100

  /** Table size and whether the database has the old layout, whose first run is a whole table long. */
  datatype Geometry = Geometry(tsize: nat, olddbz: bool)
  {
    predicate Ok() { tsize > 0 }

    function FirstRun(): nat { if olddbz then tsize else MAXRUN }

    /** The table that is visited by probe i. */
    function Table(i: nat): nat {
      if i < FirstRun() then 0 else 1 + (i - FirstRun()) / MAXRUN
    }

    /** How many probes, probe i included, are left in its table. */
    function RunLeft(i: nat): nat {
      if i < FirstRun() then FirstRun() - i else MAXRUN - (i - FirstRun()) % MAXRUN
    }

    /** The slot that is visited by probe i for hash h. */
    function Place(h: nat, i: nat): nat
      requires Ok()
    {
      (h + i) % tsize + Table(i) * tsize
    }
  }

  lemma ModOfSum(a: nat, k: nat, t: nat)
    requires t > 0
    ensures (a + k * t) % t == a % t
  {
    assert a + k * t == t * (a / t + k) + a % t;
    Arith.Remainder(a + k * t, t, a / t + k, a % t);
  }

  lemma ModStep(a: nat, t: nat)
    requires t > 0
    ensures (a % t + 1) % t == (a + 1) % t
  {
    assert a + 1 == (a % t + 1) + (a / t) * t;
    ModOfSum(a % t + 1, a / t, t);
  }

  /** The step of search(): the place, the table and the run count after one more probe. */
  lemma NextProbe(g: Geometry, h: nat, i: nat)
    requires g.Ok()
    ensures g.RunLeft(i) > 0
    ensures g.Table(i + 1) == if g.RunLeft(i) - 1 <= 0 then g.Table(i) + 1 else g.Table(i)
    ensures g.RunLeft(i + 1) == if g.RunLeft(i) - 1 <= 0 then MAXRUN else g.RunLeft(i) - 1
    ensures g.Place(h, i + 1) == (g.Place(h, i) + 1) % g.tsize + g.Table(i + 1) * g.tsize
  {
    ModOfSum((h + i) % g.tsize + 1, g.Table(i), g.tsize);
    ModStep(h + i, g.tsize);
  }

  /** A probe lies in the table that its run says. */
  lemma PlaceInTable(g: Geometry, h: nat, i: nat)
    requires g.Ok()
    ensures g.Place(h, i) / g.tsize == g.Table(i) && g.Place(h, i) % g.tsize == (h + i) % g.tsize
    ensures g.Place(h, i) >= g.Table(i)
  {
    Arith.Remainder(g.Place(h, i), g.tsize, g.Table(i), (h + i) % g.tsize);
    if g.Table(i) > 0 {
      Arith.Multiple(g.Table(i), g.tsize);
    }
  }

  /** From probe number ProbeLimit(limit) on, a search is past the first `limit` slots. */
  function ProbeLimit(g: Geometry, limit: nat): nat {
    g.FirstRun() + MAXRUN * limit
  }

  lemma ProbesLeave(g: Geometry, h: nat, i: nat, limit: nat)
    requires g.Ok() && i >= ProbeLimit(g, limit)
    ensures g.Place(h, i) >= limit
  {
    PlaceInTable(g, h, i);
  }

  /** With tables no smaller than a run, a search never looks at a slot twice. */
  lemma ProbesAreDistinct(g: Geometry, h: nat, i: nat, j: nat)
    requires g.Ok() && MAXRUN <= g.tsize && i < j
    ensures g.Place(h, i) != g.Place(h, j)
  {
    PlaceInTable(g, h, i);
    PlaceInTable(g, h, j);
    if g.Table(i) == g.Table(j) {
      assert j - i < g.tsize;
      ModDiffers(h + i, j - i, g.tsize);
    }
  }

  lemma ModDiffers(a: nat, d: nat, t: nat)
    requires 0 < d < t
    ensures (a + d) % t != a % t
  {
    var r := a % t;
    if r + d < t {
      assert a + d == t * (a / t) + (r + d);
      Arith.Remainder(a + d, t, a / t, r + d);
    } else {
      assert a + d == t * (a / t + 1) + (r + d - t);
      Arith.Remainder(a + d, t, a / t + 1, r + d - t);
    }
  }

  // ----- the order of tables on a path

  lemma {:induction false} TableMonotone(g: Geometry, i: nat, j: nat)
    requires g.Ok() && i <= j
    ensures g.Table(i) <= g.Table(j)
  {
    if i < j {
      TableMonotone(g, i, j - 1);
      NextProbe(g, 0, j - 1);
    }
  }

  /** A path visits every table before it gets further. */
  lemma {:induction false} TableVisited(g: Geometry, m: nat, d: nat) returns (i: nat)
    requires g.Ok() && m <= g.Table(d)
    ensures i <= d && g.Table(i) == m
  {
    if g.Table(d) == m {
      i := d;
    } else {
      NextProbe(g, 0, d - 1);
      i := TableVisited(g, m, d - 1);
    }
  }
}
