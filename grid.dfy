/**
 * The unbounded integer grid of the Life engine: cells, the Moore
 * neighbourhood, translation of a set of cells, and the extreme
 * coordinates of a non-empty set of cells.
 */
module Grid {

  /** A grid position (x, y). Both coordinates may be negative; the grid has no edge. */
  type Cell = (int, int)

  /** b lies in the Moore neighbourhood of a: it differs from a, by at most one in each axis. */
  predicate Adjacent(a: Cell, b: Cell)
  {
    a != b && -1 <= a.0 - b.0 <= 1 && -1 <= a.1 - b.1 <= 1
  }

  lemma AdjacentSymmetric(a: Cell, b: Cell)
    ensures Adjacent(a, b) <==> Adjacent(b, a)
  {
  }

  /**
   * The 8 Moore neighbours of (x, y), rows of dy = -1, 0, 1 in turn and dx = -1, 0, 1
   * inside each row, the centre skipped. They are pairwise distinct, all adjacent to
   * (x, y), and every cell adjacent to (x, y) is among them.
   */
  function Neighbors(x: int, y: int): (ns: seq<Cell>)
    ensures |ns| == 8
    ensures forall i :: 0 <= i < |ns| ==> Adjacent((x, y), ns[i])
    ensures forall i, j :: 0 <= i < j < |ns| ==> ns[i] != ns[j]
    ensures forall c :: Adjacent((x, y), c) ==> c in ns
  {
    [(x - 1, y - 1), (x, y - 1), (x + 1, y - 1),
     (x - 1, y),                 (x + 1, y),
     (x - 1, y + 1), (x, y + 1), (x + 1, y + 1)]
  }

  /** Every cell of s moved by (dx, dy). A shift neither empties a set nor fills an empty one. */
  function Translate(s: set<Cell>, dx: int, dy: int): (t: set<Cell>)
    ensures t == {} <==> s == {}
  {
    var t := set c | c in s :: (c.0 + dx, c.1 + dy);
    assert s != {} ==> t != {} by {
      if s != {} {
        SomeCell(s);
        var a :| a in s;
        assert (a.0 + dx, a.1 + dy) in t;
      }
    }
    t
  }

  /** A cell is in the moved set exactly when the cell it came from is in s. */
  lemma TranslateMember(s: set<Cell>, dx: int, dy: int, c: Cell)
    ensures c in Translate(s, dx, dy) <==> (c.0 - dx, c.1 - dy) in s
  {
    var d := (c.0 - dx, c.1 - dy);
    if d in s {
      assert c == (d.0 + dx, d.1 + dy);
    }
  }

  /** Moving s with one more cell adds exactly that cell, moved. */
  lemma TranslateInsert(s: set<Cell>, a: Cell, dx: int, dy: int)
    ensures Translate(s + {a}, dx, dy) == Translate(s, dx, dy) + {(a.0 + dx, a.1 + dy)}
  {
    forall c
      ensures c in Translate(s + {a}, dx, dy) <==> c in Translate(s, dx, dy) + {(a.0 + dx, a.1 + dy)}
    {
      TranslateMember(s + {a}, dx, dy, c);
      TranslateMember(s, dx, dy, c);
    }
  }

  /** Translation is injective, so it keeps the number of cells. */
  lemma {:induction false} TranslateCardinality(s: set<Cell>, dx: int, dy: int)
    ensures |Translate(s, dx, dy)| == |s|
    decreases s
  {
    if s != {} {
      SomeCell(s);
      var a :| a in s;
      var rest := s - {a};
      assert s == rest + {a};
      TranslateCardinality(rest, dx, dy);
      TranslateInsert(rest, a, dx, dy);
      var m := (a.0 + dx, a.1 + dy);
      TranslateMember(rest, dx, dy, m);
      assert m !in Translate(rest, dx, dy);
      assert |Translate(s, dx, dy)| == |Translate(rest, dx, dy)| + 1;
    }
  }

  /** A non-empty set of cells has a member (the witness `:|` needs). */
  lemma SomeCell(s: set<Cell>)
    requires s != {}
    ensures exists a :: a in s
  {
    if forall a :: a !in s {
      assert false;
    }
  }

  /** A non-empty set of integers has a member (the witness `:|` needs). */
  lemma SomeInt(s: set<int>)
    requires s != {}
    ensures exists a :: a in s
  {
    if forall a :: a !in s {
      assert false;
    }
  }

  /** The x coordinates of the cells of s. */
  function Xs(s: set<Cell>): (xs: set<int>)
    ensures s != {} ==> xs != {}
  {
    var xs := set c | c in s :: c.0;
    assert s != {} ==> xs != {} by {
      if s != {} {
        SomeCell(s);
        var a :| a in s;
        assert a.0 in xs;
      }
    }
    xs
  }


  /** The y coordinates of the cells of s. */
  function Ys(s: set<Cell>): (ys: set<int>)
    ensures s != {} ==> ys != {}
  {
    var ys := set c | c in s :: c.1;
    assert s != {} ==> ys != {} by {
      if s != {} {
        SomeCell(s);
        var a :| a in s;
        assert a.1 in ys;
      }
    }
    ys
  }


  /** Some cell of s has x coordinate x. */
  lemma XsWitness(s: set<Cell>, x: int)
    requires x in Xs(s)
    ensures exists c :: c in s && c.0 == x
  {
  }

  /** Some cell of s has y coordinate y. */
  lemma YsWitness(s: set<Cell>, y: int)
    requires y in Ys(s)
    ensures exists c :: c in s && c.1 == y
  {
  }

  /** Every non-empty finite set of integers has a least element. */
  lemma {:induction false} HasLeast(xs: set<int>)
    requires xs != {}
    ensures exists m :: m in xs && forall x :: x in xs ==> m <= x
    decreases xs
  {
    SomeInt(xs);
    var y :| y in xs;
    var rest := xs - {y};
    assert forall x :: x in xs ==> x == y || x in rest;
    if rest != {} {
      HasLeast(rest);
      var m' :| m' in rest && forall x :: x in rest ==> m' <= x;
      var m := if y < m' then y else m';
      assert m in xs && forall x :: x in xs ==> m <= x;
    } else {
      assert xs == {y};
    }
  }

  /** Every non-empty finite set of integers has a greatest element. */
  lemma {:induction false} HasGreatest(xs: set<int>)
    requires xs != {}
    ensures exists m :: m in xs && forall x :: x in xs ==> x <= m
    decreases xs
  {
    SomeInt(xs);
    var y :| y in xs;
    var rest := xs - {y};
    assert forall x :: x in xs ==> x == y || x in rest;
    if rest != {} {
      HasGreatest(rest);
      var m' :| m' in rest && forall x :: x in rest ==> x <= m';
      var m := if y > m' then y else m';
      assert m in xs && forall x :: x in xs ==> x <= m;
    } else {
      assert xs == {y};
    }
  }

  /** The least element of a non-empty finite set of integers. */
  ghost function MinOf(xs: set<int>): (m: int)
    requires xs != {}
    ensures m in xs
    ensures forall x :: x in xs ==> m <= x
  {
    HasLeast(xs);
    var m :| m in xs && forall x :: x in xs ==> m <= x;
    m
  }

  /** The greatest element of a non-empty finite set of integers. */
  ghost function MaxOf(xs: set<int>): (m: int)
    requires xs != {}
    ensures m in xs
    ensures forall x :: x in xs ==> x <= m
  {
    HasGreatest(xs);
    var m :| m in xs && forall x :: x in xs ==> x <= m;
    m
  }

  /** An element of xs that no element of xs undercuts is the least element. */
  lemma MinOfUnique(xs: set<int>, m: int)
    requires m in xs
    requires forall x :: x in xs ==> m <= x
    ensures MinOf(xs) == m
  {
  }
}
