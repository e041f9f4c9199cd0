/**
 * Conway's Game of Life (birth on 3, survival on 2 or 3) over a sparse set of
 * live cells on the unbounded grid.
 */
module Life {
  import opened Grid
  import opened Seeding

  datatype Option<T> = None | Some(value: T)

  /** The minimal enclosing rectangle of the live cells, corners included. */
  datatype Rect = Rect(minX: int, minY: int, maxX: int, maxY: int)

  /** The live cells in the Moore neighbourhood of c. */
  function LiveNeighbors(live: set<Cell>, c: Cell): set<Cell>
  {
    set d | d in live && Adjacent(c, d)
  }

  /** How many live cells touch c. */
  function LiveCount(live: set<Cell>, c: Cell): nat
  {
    |LiveNeighbors(live, c)|
  }

  /** A cell has at most 8 live neighbours, whatever the live set. */
  lemma LiveCountAtMostEight(live: set<Cell>, c: Cell)
    ensures LiveCount(live, c) <= 8
  {
    var ns := Neighbors(c.0, c.1);
    var around := set i | 0 <= i < 8 :: ns[i];
    assert LiveNeighbors(live, c) <= around;
    SubsetCardinality(LiveNeighbors(live, c), around);
    PrefixImageBound(ns, 8);
  }

  /** A subset is no larger than its superset. */
  lemma {:induction false} SubsetCardinality(a: set<Cell>, b: set<Cell>)
    requires a <= b
    ensures |a| <= |b|
    decreases a
  {
    if a != {} {
      SomeCell(a);
      var x :| x in a;
      SubsetCardinality(a - {x}, b - {x});
    }
  }

  /** The set of the first k elements of ns has at most k members. */
  lemma {:induction false} PrefixImageBound(ns: seq<Cell>, k: nat)
    requires k <= |ns|
    ensures |set i | 0 <= i < k :: ns[i]| <= k
  {
    if k > 0 {
      PrefixImageBound(ns, k - 1);
      assert (set i | 0 <= i < k :: ns[i]) == (set i | 0 <= i < k - 1 :: ns[i]) + {ns[k - 1]};
    }
  }

  /** B3/S23: a live cell survives on 2 or 3 live neighbours, a dead cell is born on exactly 3. */
  function LivesOn(wasAlive: bool, count: nat): (lives: bool)
    ensures count == 3 ==> lives
    ensures count == 2 ==> (lives <==> wasAlive)
    ensures count != 2 && count != 3 ==> !lives
  {
    if wasAlive then count == 2 || count == 3 else count == 3
  }

  /** Every cell in the Moore neighbourhood of some live cell: the only cells ever counted. */
  function Candidates(live: set<Cell>): set<Cell>
  {
    set a, n | a in live && n in Neighbors(a.0, a.1) :: n
  }

  /** The generation after live: the counted cells that the rule keeps or brings to life. */
  function NextGeneration(live: set<Cell>): set<Cell>
  {
    set c | c in Candidates(live) && LivesOn(c in live, LiveCount(live, c))
  }

  /**
   * The closed form of one generation: a cell is alive next exactly when it is
   * alive with 2 or 3 live neighbours, or dead with exactly 3.
   */
  lemma NextGenerationMembers(live: set<Cell>, c: Cell)
    ensures c in NextGeneration(live) <==> LivesOn(c in live, LiveCount(live, c))
  {
    if LivesOn(c in live, LiveCount(live, c)) {
      var d :| d in LiveNeighbors(live, c);
      AdjacentSymmetric(c, d);
      assert c in Neighbors(d.0, d.1);
      assert c in Candidates(live);
    }
  }

  /** Nothing alive stays nothing alive: the empty grid is a fixed point. */
  lemma EmptyIsFixedPoint()
    ensures NextGeneration({}) == {}
  {
  }

  /** Every cell alive in the next generation touches a cell alive now. */
  lemma BornNextToLife(live: set<Cell>, c: Cell)
    requires c in NextGeneration(live)
    ensures exists d :: d in live && Adjacent(c, d)
  {
    NextGenerationMembers(live, c);
    var d :| d in LiveNeighbors(live, c);
  }

  /** A live cell without live neighbours dies. */
  lemma IsolatedCellDies(live: set<Cell>, c: Cell)
    requires c in live
    requires forall d :: d in live ==> !Adjacent(c, d)
    ensures c !in NextGeneration(live)
  {
    NextGenerationMembers(live, c);
    assert LiveNeighbors(live, c) == {};
  }

  /** The live neighbours of a moved cell in a moved set are its old live neighbours, moved. */
  lemma LiveNeighborsTranslate(live: set<Cell>, dx: int, dy: int, c: Cell)
    ensures LiveNeighbors(Translate(live, dx, dy), c) ==
            Translate(LiveNeighbors(live, (c.0 - dx, c.1 - dy)), dx, dy)
    ensures LiveCount(Translate(live, dx, dy), c) == LiveCount(live, (c.0 - dx, c.1 - dy))
  {
    var from := (c.0 - dx, c.1 - dy);
    forall e
      ensures e in LiveNeighbors(Translate(live, dx, dy), c) <==>
              e in Translate(LiveNeighbors(live, from), dx, dy)
    {
      TranslateMember(live, dx, dy, e);
      TranslateMember(LiveNeighbors(live, from), dx, dy, e);
    }
    TranslateCardinality(LiveNeighbors(live, from), dx, dy);
  }

  /**
   * The rule does not depend on where a pattern sits: moving the live cells and then
   * taking a generation gives the same cells as taking the generation and then moving.
   */
  lemma TranslationCommutes(live: set<Cell>, dx: int, dy: int)
    ensures NextGeneration(Translate(live, dx, dy)) == Translate(NextGeneration(live), dx, dy)
  {
    forall c
      ensures c in NextGeneration(Translate(live, dx, dy)) <==> c in Translate(NextGeneration(live), dx, dy)
    {
      var from := (c.0 - dx, c.1 - dy);
      NextGenerationMembers(Translate(live, dx, dy), c);
      NextGenerationMembers(live, from);
      LiveNeighborsTranslate(live, dx, dy, c);
      TranslateMember(live, dx, dy, c);
      TranslateMember(NextGeneration(live), dx, dy, c);
    }
  }

  /** The live set after n generations. */
  function Iterate(live: set<Cell>, n: nat): set<Cell>
  {
    if n == 0 then live else NextGeneration(Iterate(live, n - 1))
  }

  /** Shift-invariance holds for any number of generations, not only for one. */
  lemma {:induction false} TranslationCommutesN(live: set<Cell>, dx: int, dy: int, n: nat)
    ensures Iterate(Translate(live, dx, dy), n) == Translate(Iterate(live, n), dx, dy)
  {
    if n > 0 {
      TranslationCommutesN(live, dx, dy, n - 1);
      StepShifted(Iterate(live, n - 1), Iterate(Translate(live, dx, dy), n - 1), dx, dy);
    }
  }

  /** One generation of a shifted copy is the shifted generation. */
  lemma StepShifted(prev: set<Cell>, moved: set<Cell>, dx: int, dy: int)
    requires moved == Translate(prev, dx, dy)
    ensures NextGeneration(moved) == Translate(NextGeneration(prev), dx, dy)
  {
    TranslationCommutes(prev, dx, dy);
  }

  /**
   * The neighbour tally of live: its keys are exactly the cells with at least one
   * live neighbour, each mapped to its number of live neighbours.
   */
  ghost predicate IsTally(counts: map<Cell, nat>, live: set<Cell>)
  {
    PartialTally(counts, live, [])
  }

  /**
   * The tally of done while a live cell is being counted: the cells of bumped, all
   * distinct neighbours of that cell, have already received their extra one.
   */
  ghost predicate PartialTally(counts: map<Cell, nat>, done: set<Cell>, bumped: seq<Cell>)
  {
    forall n ::
      (n in counts <==> LiveNeighbors(done, n) != {} || n in bumped) &&
      (n in counts ==> counts[n] == LiveCount(done, n) + (if n in bumped then 1 else 0))
  }

  /** One increment `counts[n] = counts.get(n, 0) + 1` extends a partial tally by n. */
  lemma BumpOne(counts: map<Cell, nat>, done: set<Cell>, bumped: seq<Cell>, n: Cell)
    requires PartialTally(counts, done, bumped) && n !in bumped
    ensures PartialTally(counts[n := (if n in counts then counts[n] else 0) + 1], done, bumped + [n])
  {
  }

  /** Once all 8 neighbours of a are bumped, the tally is the tally of done plus a. */
  lemma BumpedAll(counts: map<Cell, nat>, done: set<Cell>, a: Cell)
    requires a !in done
    requires PartialTally(counts, done, Neighbors(a.0, a.1))
    ensures IsTally(counts, done + {a})
  {
    forall n
      ensures (n in counts <==> LiveNeighbors(done + {a}, n) != {})
      ensures n in counts ==> counts[n] == LiveCount(done + {a}, n)
    {
      TallyInsert(done, a, n);
    }
  }

  /** Counting one more live cell a raises the tally of exactly the cells around a by one. */
  lemma TallyInsert(done: set<Cell>, a: Cell, n: Cell)
    requires a !in done
    ensures LiveNeighbors(done + {a}, n) != {} <==> LiveNeighbors(done, n) != {} || Adjacent(a, n)
    ensures LiveCount(done + {a}, n) == LiveCount(done, n) + (if Adjacent(a, n) then 1 else 0)
  {
    AdjacentSymmetric(a, n);
    if Adjacent(a, n) {
      assert LiveNeighbors(done + {a}, n) == LiveNeighbors(done, n) + {a};
    } else {
      assert LiveNeighbors(done + {a}, n) == LiveNeighbors(done, n);
    }
  }

  /**
   * The counting loop of a generation: for every live cell, add one to the tally of
   * each of its 8 neighbours. Only cells next to a live cell get an entry, and every
   * entry lies between 1 and 8.
   */
  method TallyNeighbors(live: set<Cell>) returns (counts: map<Cell, nat>)
    ensures IsTally(counts, live)
    ensures forall n :: n in counts ==> 1 <= counts[n] <= 8
  {
    counts := map[];
    var todo, done := live, {};
    while todo != {}
      invariant todo + done == live && todo !! done
      invariant IsTally(counts, done)
      decreases todo
    {
      SomeCell(todo);
      var a :| a in todo;
      counts := BumpNeighbors(counts, done, a);
      BumpedAll(counts, done, a);
      todo, done := todo - {a}, done + {a};
    }
    TallyBounded(counts, live);
  }

  /**
   * The inner loop of the counting pass: add one to the count of each of the 8
   * neighbours of the live cell a, starting a count at 0 for a cell not seen yet.
   */
  method BumpNeighbors(counts: map<Cell, nat>, done: set<Cell>, a: Cell) returns (bumped: map<Cell, nat>)
    requires IsTally(counts, done)
    ensures PartialTally(bumped, done, Neighbors(a.0, a.1))
  {
    var ns := Neighbors(a.0, a.1);
    bumped := counts;
    var i := 0;
    assert ns[..0] == [];
    while i < 8
      invariant 0 <= i <= 8
      invariant PartialTally(bumped, done, ns[..i])
    {
      var n := ns[i];
      BumpOne(bumped, done, ns[..i], n);
      assert ns[..i + 1] == ns[..i] + [n];
      bumped := bumped[n := (if n in bumped then bumped[n] else 0) + 1];
      i := i + 1;
    }
    assert ns[..8] == ns;
  }

  /** Every entry of a tally lies between 1 and 8. */
  lemma TallyBounded(counts: map<Cell, nat>, live: set<Cell>)
    requires IsTally(counts, live)
    ensures forall n :: n in counts ==> 1 <= counts[n] <= 8
  {
    forall n | n in counts
      ensures 1 <= counts[n] <= 8
    {
      LiveCountAtMostEight(live, n);
    }
  }

  /**
   * The rule loop of a generation: visit each tallied cell once and keep it when
   * B3/S23 says so. From a tally of live, this is exactly the next generation.
   */
  method NextFromTally(live: set<Cell>, counts: map<Cell, nat>) returns (next: set<Cell>)
    requires IsTally(counts, live)
    ensures next == NextGeneration(live)
  {
    next := {};
    var todo := counts.Keys;
    while todo != {}
      invariant todo <= counts.Keys
      invariant forall c :: c in next <==> c in counts && c !in todo && LivesOn(c in live, counts[c])
      decreases todo
    {
      SomeCell(todo);
      var c :| c in todo;
      if c in live {
        if counts[c] == 2 || counts[c] == 3 {
          next := next + {c};
        }
      } else {
        if counts[c] == 3 {
          next := next + {c};
        }
      }
      todo := todo - {c};
    }
    forall c
      ensures c in next <==> c in NextGeneration(live)
    {
      NextGenerationMembers(live, c);
    }
  }

  /** The engine: the current set of live cells, replaced wholesale by each generation. */
  class GameOfLife {
    var alive: set<Cell>

    /** An engine over the given cells; no cells at all gives an empty grid. */
    constructor (initial: Option<set<Cell>> := None)
      ensures alive == if initial.Some? then initial.value else {}
    {
      alive := if initial.Some? then initial.value else {};
    }

    /**
     * Advance one generation: tally the neighbours of every live cell, apply
     * B3/S23 to each tallied cell, and swap the new set in.
     */
    method Step()
      modifies this
      ensures alive == NextGeneration(old(alive))
    {
      var counts := TallyNeighbors(alive);
      var next := NextFromTally(alive, counts);
      alive := next;
    }

    /**
     * The minimal rectangle around the live cells: None exactly when nothing is
     * alive; otherwise every live cell lies inside it and each of its four edges
     * touches a live cell.
     */
    ghost function Bounds(): (b: Option<Rect>)
      reads this
      ensures b.None? <==> alive == {}
      ensures b.Some? ==> forall c :: c in alive ==>
        b.value.minX <= c.0 <= b.value.maxX && b.value.minY <= c.1 <= b.value.maxY
      ensures b.Some? ==>
        (exists c :: c in alive && c.0 == b.value.minX) &&
        (exists c :: c in alive && c.1 == b.value.minY) &&
        (exists c :: c in alive && c.0 == b.value.maxX) &&
        (exists c :: c in alive && c.1 == b.value.maxY)
    {
      if alive == {} then None
      else
        var xs, ys := Xs(alive), Ys(alive);
        var b := Rect(MinOf(xs), MinOf(ys), MaxOf(xs), MaxOf(ys));
        assert forall c :: c in alive ==> c.0 in xs && c.1 in ys;
        XsWitness(alive, b.minX);
        YsWitness(alive, b.minY);
        XsWitness(alive, b.maxX);
        YsWitness(alive, b.maxY);
        Some(b)
    }

    /**
     * Load a seed from a decoded image: sample it with the given stride, keep the
     * pure white pixels, and crop the result to start at (0, 0) when asked to and
     * when anything is alive.
     */
    static method FromImage(px: array2<Rgb>, nameonly sampleStep: int := 1, nameonly cropToContent: bool := true) returns (life: GameOfLife)
      requires sampleStep != 0
      ensures fresh(life)
      ensures life.alive == if cropToContent && SampledCells(px, sampleStep) != {}
                            then Crop(SampledCells(px, sampleStep))
                            else SampledCells(px, sampleStep)
    {
      var seed := SampleImage(px, sampleStep);
      life := new GameOfLife(Some(seed));
      if cropToContent && life.alive != {} {
        var minX := LeastX(life.alive);
        var minY := LeastY(life.alive);
        CropByLeast(life.alive, minX, minY);
        life.alive := Translate(life.alive, -minX, -minY);
      }
    }
  }
}
