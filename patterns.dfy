/** Known patterns of the game of life, run through the model of one
    generation: a still life (the block), an oscillator (the blinker) and a
    spaceship (the glider). A pattern is a set of live positions `(x, y)`
    anywhere on a board large enough to hold it; every other cell is dead. */
module Patterns {
  import opened LifeRule

  /** Live positions, `(x, y)` being column `x` of row `y`. */
  type LiveSet = set<(int, int)>

  /** The live cells of board `g` are exactly `s`. */
  ghost predicate Shows(g: Grid, s: LiveSet)
  {
    forall x, y :: Live(g, x, y) <==> (x, y) in s
  }

  /** Every position of `s` lies in the rectangle of `w` columns and `h` rows
      whose top left corner is (a, b). */
  ghost predicate Within(s: LiveSet, a: int, b: int, w: int, h: int)
  {
    forall p | p in s :: a <= p.0 < a + w && b <= p.1 < b + h
  }

  /** Board `g` holds the rectangle of `w` columns and `h` rows whose top left
      corner is (a, b). */
  ghost predicate Fits(g: Grid, a: int, b: int, w: int, h: int)
  {
    0 <= a && 0 <= b && b + h <= |g| && forall y | b <= y < b + h :: a + w <= |g[y]|
  }

  function In(s: LiveSet, x: int, y: int): nat
  {
    if (x, y) in s then 1 else 0
  }

  /** The number of positions of `s` among the eight neighbours of (x, y). */
  function Count(s: LiveSet, x: int, y: int): nat
  {
    In(s, x - 1, y - 1) + In(s, x - 1, y) + In(s, x - 1, y + 1) +
    In(s, x, y - 1) + In(s, x, y + 1) +
    In(s, x + 1, y - 1) + In(s, x + 1, y) + In(s, x + 1, y + 1)
  }

  /** Applying the rule to the live set `s` at every position of the plane
      gives the live set `t`. */
  ghost predicate Evolves(s: LiveSet, t: LiveSet)
  {
    forall x, y {:trigger Count(s, x, y)} :: NextState(Count(s, x, y), (x, y) in s) == ((x, y) in t)
  }

  /** On a board showing `s`, the neighbour count is the count in `s`. */
  lemma AroundShown(g: Grid, s: LiveSet, x: int, y: int)
    requires Shows(g, s)
    ensures Around(g, x, y) == Count(s, x, y)
  {
    assert Live(g, x - 1, y - 1) == ((x - 1, y - 1) in s);
    assert Live(g, x - 1, y) == ((x - 1, y) in s);
    assert Live(g, x - 1, y + 1) == ((x - 1, y + 1) in s);
    assert Live(g, x, y - 1) == ((x, y - 1) in s);
    assert Live(g, x, y + 1) == ((x, y + 1) in s);
    assert Live(g, x + 1, y - 1) == ((x + 1, y - 1) in s);
    assert Live(g, x + 1, y) == ((x + 1, y) in s);
    assert Live(g, x + 1, y + 1) == ((x + 1, y + 1) in s);
  }

  lemma NextShown(g: Grid, s: LiveSet, x: int, y: int)
    requires Shows(g, s)
    requires 0 <= y < |g| && 0 <= x < |g[y]|
    ensures NextBoard(g)[y][x] == NextState(Count(s, x, y), (x, y) in s)
  {
    NextBoardAt(g, x, y);
    AroundShown(g, s, x, y);
    assert Live(g, x, y) == g[y][x];
  }

  /** A board showing `s` steps to a board showing `t` when `s` evolves to
      `t` and the board has room for `t`. */
  lemma StepShows(g: Grid, s: LiveSet, t: LiveSet, a: int, b: int, w: int, h: int)
    requires Shows(g, s) && Evolves(s, t)
    requires Within(t, a, b, w, h) && Fits(g, a, b, w, h)
    ensures Shows(NextBoard(g), t)
  {
    var r := NextBoard(g);
    forall x, y ensures Live(r, x, y) <==> (x, y) in t {
      if 0 <= y < |g| && 0 <= x < |g[y]| {
        NextShown(g, s, x, y);
        assert NextState(Count(s, x, y), (x, y) in s) == ((x, y) in t);
      } else if (x, y) in t {
        assert false;
      }
    }
  }

  /** The same, from generation `m` of a board to generation `n = m + 1`. */
  lemma GenerationShows(g: Grid, m: nat, n: nat, s: LiveSet, t: LiveSet, a: int, b: int, w: int, h: int)
    requires n == m + 1
    requires Shows(Generation(g, m), s) && Evolves(s, t)
    requires Within(t, a, b, w, h) && Fits(Generation(g, m), a, b, w, h)
    ensures Shows(Generation(g, n), t)
  {
    var p, r := Generation(g, m), Generation(g, n);
    GenerationNext(g, m, n);
    StepShows(p, s, t, a, b, w, h);
    assert r == NextBoard(p);
  }

  lemma GenerationNext(g: Grid, m: nat, n: nat)
    requires n == m + 1
    ensures Generation(g, n) == NextBoard(Generation(g, m))
  {
  }

  /** A generation keeps the shape of the board, so it keeps room for a
      rectangle. */
  lemma {:induction false} GenerationFits(g: Grid, n: nat, a: int, b: int, w: int, h: int)
    requires Fits(g, a, b, w, h)
    ensures Fits(Generation(g, n), a, b, w, h)
  {
    var r := Generation(g, n);
    forall y | b <= y < b + h ensures a + w <= |r[y]| {
      assert |r[y]| == |g[y]|;
    }
  }

  /** To see that `s` evolves to `t`, it is enough to look at the window one
      cell wider than the rectangle holding `s`, when that window holds `t`. */
  lemma EvolvesByWindow(s: LiveSet, t: LiveSet, a: int, b: int, w: int, h: int)
    requires Within(s, a, b, w, h) && Within(t, a - 1, b - 1, w + 2, h + 2)
    requires forall x, y {:trigger Count(s, x, y)} | a - 1 <= x <= a + w && b - 1 <= y <= b + h ::
               NextState(Count(s, x, y), (x, y) in s) == ((x, y) in t)
    ensures Evolves(s, t)
  {
    forall x, y ensures NextState(Count(s, x, y), (x, y) in s) == ((x, y) in t) {
      if !(a - 1 <= x <= a + w && b - 1 <= y <= b + h) {
        assert In(s, x - 1, y - 1) == 0 && In(s, x - 1, y) == 0 && In(s, x - 1, y + 1) == 0;
        assert In(s, x, y - 1) == 0 && In(s, x, y + 1) == 0;
        assert In(s, x + 1, y - 1) == 0 && In(s, x + 1, y) == 0 && In(s, x + 1, y + 1) == 0;
        assert (x, y) !in s && (x, y) !in t;
      }
    }
  }

  /** A rectangle inside one that fits also fits. */
  lemma FitsInside(g: Grid, a: int, b: int, w: int, h: int, a': int, b': int, w': int, h': int)
    requires Fits(g, a, b, w, h)
    requires a <= a' && b <= b' && a' + w' <= a + w && b' + h' <= b + h && 0 <= h'
    ensures Fits(g, a', b', w', h')
  {
  }

  /** A set inside a rectangle is inside every rectangle holding that one. */
  lemma WithinGrow(s: LiveSet, a: int, b: int, w: int, h: int, a': int, b': int, w': int, h': int)
    requires Within(s, a, b, w, h)
    requires a' <= a && b' <= b && a + w <= a' + w' && b + h <= b' + h'
    ensures Within(s, a', b', w', h')
  {
  }

  /** A live set that evolves to itself is shown by every generation. */
  lemma {:induction false} StillForever(g: Grid, s: LiveSet, a: int, b: int, w: int, h: int, n: nat)
    requires Shows(g, s) && Evolves(s, s) && Within(s, a, b, w, h) && Fits(g, a, b, w, h)
    ensures Shows(Generation(g, n), s)
  {
    if n > 0 {
      var m := n - 1;
      StillForever(g, s, a, b, w, h, m);
      GenerationFits(g, m, a, b, w, h);
      GenerationShows(g, m, n, s, s, a, b, w, h);
    }
  }

  lemma Parity(m: nat, n: nat)
    requires n == m + 1
    ensures (n % 2 == 0) == (m % 2 == 1)
  {
  }

  /** Two live sets that evolve into each other alternate forever: even
      generations show the first, odd ones the second. */
  lemma {:induction false} AlternateForever(g: Grid, s: LiveSet, t: LiveSet, a: int, b: int, w: int, h: int, n: nat)
    requires Shows(g, s) && Evolves(s, t) && Evolves(t, s)
    requires Within(s, a, b, w, h) && Within(t, a, b, w, h) && Fits(g, a, b, w, h)
    ensures n % 2 == 0 ==> Shows(Generation(g, n), s)
    ensures n % 2 == 1 ==> Shows(Generation(g, n), t)
  {
    if n > 0 {
      var m := n - 1;
      AlternateForever(g, s, t, a, b, w, h, m);
      GenerationFits(g, m, a, b, w, h);
      Parity(m, n);
      if n % 2 == 0 {
        GenerationShows(g, m, n, t, s, a, b, w, h);
      } else {
        GenerationShows(g, m, n, s, t, a, b, w, h);
      }
    }
  }

  // ---------------------------------------------------------------------
  // Block: a still life
  // ---------------------------------------------------------------------

  /** A 2x2 square with its top left cell at (a, b). */
  function Block(a: int, b: int): LiveSet
  {
    {(a, b), (a + 1, b), (a, b + 1), (a + 1, b + 1)}
  }

  lemma BlockCell(a: int, b: int, x: int, y: int)
    requires a - 1 <= x <= a + 2 && b - 1 <= y <= b + 2
    ensures NextState(Count(Block(a, b), x, y), (x, y) in Block(a, b)) == ((x, y) in Block(a, b))
  {
  }

  lemma BlockShape(a: int, b: int)
    ensures Within(Block(a, b), a, b, 2, 2)
  {
  }

  lemma BlockEvolves(a: int, b: int)
    ensures Evolves(Block(a, b), Block(a, b))
  {
    forall x, y | a - 1 <= x <= a + 2 && b - 1 <= y <= b + 2
      ensures NextState(Count(Block(a, b), x, y), (x, y) in Block(a, b)) == ((x, y) in Block(a, b))
    {
      BlockCell(a, b, x, y);
    }
    BlockShape(a, b);
    WithinGrow(Block(a, b), a, b, 2, 2, a - 1, b - 1, 4, 4);
    EvolvesByWindow(Block(a, b), Block(a, b), a, b, 2, 2);
  }

  /** A block is unchanged after any number of generations. */
  lemma BlockIsStill(g: Grid, a: int, b: int, n: nat)
    requires Shows(g, Block(a, b))
    ensures Shows(Generation(g, n), Block(a, b))
  {
    BlockEvolves(a, b);
    BlockShape(a, b);
    assert Live(g, a + 1, b) && Live(g, a + 1, b + 1);
    StillForever(g, Block(a, b), a, b, 2, 2, n);
  }

  // ---------------------------------------------------------------------
  // Blinker: an oscillator of period 2
  // ---------------------------------------------------------------------

  /** Three cells in row `b`, centred on column `a`. */
  function Horizontal(a: int, b: int): LiveSet
  {
    {(a - 1, b), (a, b), (a + 1, b)}
  }

  /** Three cells in column `a`, centred on row `b`. */
  function Vertical(a: int, b: int): LiveSet
  {
    {(a, b - 1), (a, b), (a, b + 1)}
  }

  lemma HorizontalCell(a: int, b: int, x: int, y: int)
    requires a - 2 <= x <= a + 2 && b - 1 <= y <= b + 1
    ensures NextState(Count(Horizontal(a, b), x, y), (x, y) in Horizontal(a, b)) == ((x, y) in Vertical(a, b))
  {
  }

  lemma VerticalCell(a: int, b: int, x: int, y: int)
    requires a - 1 <= x <= a + 1 && b - 2 <= y <= b + 2
    ensures NextState(Count(Vertical(a, b), x, y), (x, y) in Vertical(a, b)) == ((x, y) in Horizontal(a, b))
  {
  }

  lemma BlinkerShape(a: int, b: int)
    ensures Within(Horizontal(a, b), a - 1, b - 1, 3, 3) && Within(Vertical(a, b), a - 1, b - 1, 3, 3)
    ensures Within(Horizontal(a, b), a - 1, b, 3, 1) && Within(Vertical(a, b), a, b - 1, 1, 3)
  {
  }

  lemma BlinkerEvolves(a: int, b: int)
    ensures Evolves(Horizontal(a, b), Vertical(a, b))
  {
    var hor, ver := Horizontal(a, b), Vertical(a, b);
    forall x, y | a - 2 <= x <= a + 2 && b - 1 <= y <= b + 1
      ensures NextState(Count(hor, x, y), (x, y) in hor) == ((x, y) in ver)
    {
      HorizontalCell(a, b, x, y);
    }
    BlinkerShape(a, b);
    WithinGrow(ver, a - 1, b - 1, 3, 3, a - 2, b - 1, 5, 3);
    EvolvesByWindow(hor, ver, a - 1, b, 3, 1);
  }

  lemma BlinkerEvolvesBack(a: int, b: int)
    ensures Evolves(Vertical(a, b), Horizontal(a, b))
  {
    var hor, ver := Horizontal(a, b), Vertical(a, b);
    forall x, y | a - 1 <= x <= a + 1 && b - 2 <= y <= b + 2
      ensures NextState(Count(ver, x, y), (x, y) in ver) == ((x, y) in hor)
    {
      VerticalCell(a, b, x, y);
    }
    BlinkerShape(a, b);
    WithinGrow(hor, a - 1, b - 1, 3, 3, a - 1, b - 2, 3, 5);
    EvolvesByWindow(ver, hor, a, b - 1, 1, 3);
  }

  /** The blinker after `n` generations: horizontal when `n` is even,
      vertical when it is odd. */
  function Blinker(a: int, b: int, n: nat): LiveSet
  {
    if n % 2 == 0 then Horizontal(a, b) else Vertical(a, b)
  }

  /** A horizontal blinker alternates with a vertical one forever, on a
      board with room for both. */
  lemma BlinkerOscillates(g: Grid, a: int, b: int, n: nat)
    requires Shows(g, Horizontal(a, b)) && Fits(g, a - 1, b - 1, 3, 3)
    ensures Shows(Generation(g, n), Blinker(a, b, n))
  {
    BlinkerEvolves(a, b);
    BlinkerEvolvesBack(a, b);
    BlinkerShape(a, b);
    AlternateForever(g, Horizontal(a, b), Vertical(a, b), a - 1, b - 1, 3, 3, n);
  }

  // ---------------------------------------------------------------------
  // Glider: a spaceship of period 4
  // ---------------------------------------------------------------------

  /** A glider travelling down and right, as usually drawn, inside the 4x4
      square whose top left corner is (a, b): its top cell is (a + 1, b). */
  function Glider(a: int, b: int): LiveSet
  {
    {(a + 1, b), (a + 2, b + 1), (a, b + 2), (a + 1, b + 2), (a + 2, b + 2)}
  }

  /** The glider one, two and three generations later. */
  function Glider1(a: int, b: int): LiveSet
  {
    {(a, b + 1), (a + 1, b + 2), (a + 1, b + 3), (a + 2, b + 1), (a + 2, b + 2)}
  }

  function Glider2(a: int, b: int): LiveSet
  {
    {(a, b + 2), (a + 1, b + 3), (a + 2, b + 1), (a + 2, b + 2), (a + 2, b + 3)}
  }

  function Glider3(a: int, b: int): LiveSet
  {
    {(a + 1, b + 1), (a + 1, b + 3), (a + 2, b + 2), (a + 2, b + 3), (a + 3, b + 2)}
  }

  lemma GliderCell0(a: int, b: int, x: int, y: int)
    requires a - 1 <= x <= a + 4 && b - 1 <= y <= b + 4
    ensures NextState(Count(Glider(a, b), x, y), (x, y) in Glider(a, b)) == ((x, y) in Glider1(a, b))
  {
  }

  lemma GliderCell1(a: int, b: int, x: int, y: int)
    requires a - 1 <= x <= a + 4 && b - 1 <= y <= b + 4
    ensures NextState(Count(Glider1(a, b), x, y), (x, y) in Glider1(a, b)) == ((x, y) in Glider2(a, b))
  {
  }

  lemma GliderCell2(a: int, b: int, x: int, y: int)
    requires a - 1 <= x <= a + 4 && b - 1 <= y <= b + 4
    ensures NextState(Count(Glider2(a, b), x, y), (x, y) in Glider2(a, b)) == ((x, y) in Glider3(a, b))
  {
  }

  lemma GliderCell3(a: int, b: int, x: int, y: int)
    requires a - 1 <= x <= a + 4 && b - 1 <= y <= b + 4
    ensures NextState(Count(Glider3(a, b), x, y), (x, y) in Glider3(a, b)) == ((x, y) in Glider(a + 1, b + 1))
  {
  }

  /** Every phase lies in the 4x4 square at (a, b). */
  lemma GliderShape(a: int, b: int)
    ensures Within(Glider(a, b), a, b, 4, 4) && Within(Glider1(a, b), a, b, 4, 4)
    ensures Within(Glider2(a, b), a, b, 4, 4) && Within(Glider3(a, b), a, b, 4, 4)
  {
  }

  /** Every phase has five live cells. */
  lemma GliderSize(a: int, b: int)
    ensures |Glider(a, b)| == 5 && |Glider1(a, b)| == 5 && |Glider2(a, b)| == 5 && |Glider3(a, b)| == 5
  {
  }

  lemma GliderWindow0(a: int, b: int)
    ensures forall x, y {:trigger Count(Glider(a, b), x, y)} | a - 1 <= x <= a + 4 && b - 1 <= y <= b + 4 ::
              NextState(Count(Glider(a, b), x, y), (x, y) in Glider(a, b)) == ((x, y) in Glider1(a, b))
  {
    forall x, y | a - 1 <= x <= a + 4 && b - 1 <= y <= b + 4
      ensures NextState(Count(Glider(a, b), x, y), (x, y) in Glider(a, b)) == ((x, y) in Glider1(a, b))
    {
      GliderCell0(a, b, x, y);
    }
  }

  /** Each phase evolves to the next, and the last one to the first, one
      cell down and one cell right. */
  lemma GliderEvolves0(a: int, b: int)
    ensures Evolves(Glider(a, b), Glider1(a, b))
  {
    var s, t := Glider(a, b), Glider1(a, b);
    GliderWindow0(a, b);
    GliderShape(a, b);
    WithinGrow(t, a, b, 4, 4, a - 1, b - 1, 6, 6);
    EvolvesByWindow(s, t, a, b, 4, 4);
  }

  lemma GliderWindow1(a: int, b: int)
    ensures forall x, y {:trigger Count(Glider1(a, b), x, y)} | a - 1 <= x <= a + 4 && b - 1 <= y <= b + 4 ::
              NextState(Count(Glider1(a, b), x, y), (x, y) in Glider1(a, b)) == ((x, y) in Glider2(a, b))
  {
    forall x, y | a - 1 <= x <= a + 4 && b - 1 <= y <= b + 4
      ensures NextState(Count(Glider1(a, b), x, y), (x, y) in Glider1(a, b)) == ((x, y) in Glider2(a, b))
    {
      GliderCell1(a, b, x, y);
    }
  }

  lemma GliderEvolves1(a: int, b: int)
    ensures Evolves(Glider1(a, b), Glider2(a, b))
  {
    var s, t := Glider1(a, b), Glider2(a, b);
    GliderWindow1(a, b);
    GliderShape(a, b);
    WithinGrow(t, a, b, 4, 4, a - 1, b - 1, 6, 6);
    EvolvesByWindow(s, t, a, b, 4, 4);
  }

  lemma GliderWindow2(a: int, b: int)
    ensures forall x, y {:trigger Count(Glider2(a, b), x, y)} | a - 1 <= x <= a + 4 && b - 1 <= y <= b + 4 ::
              NextState(Count(Glider2(a, b), x, y), (x, y) in Glider2(a, b)) == ((x, y) in Glider3(a, b))
  {
    forall x, y | a - 1 <= x <= a + 4 && b - 1 <= y <= b + 4
      ensures NextState(Count(Glider2(a, b), x, y), (x, y) in Glider2(a, b)) == ((x, y) in Glider3(a, b))
    {
      GliderCell2(a, b, x, y);
    }
  }

  lemma GliderEvolves2(a: int, b: int)
    ensures Evolves(Glider2(a, b), Glider3(a, b))
  {
    var s, t := Glider2(a, b), Glider3(a, b);
    GliderWindow2(a, b);
    GliderShape(a, b);
    WithinGrow(t, a, b, 4, 4, a - 1, b - 1, 6, 6);
    EvolvesByWindow(s, t, a, b, 4, 4);
  }

  lemma GliderWindow3(a: int, b: int)
    ensures forall x, y {:trigger Count(Glider3(a, b), x, y)} | a - 1 <= x <= a + 4 && b - 1 <= y <= b + 4 ::
              NextState(Count(Glider3(a, b), x, y), (x, y) in Glider3(a, b)) == ((x, y) in Glider(a + 1, b + 1))
  {
    forall x, y | a - 1 <= x <= a + 4 && b - 1 <= y <= b + 4
      ensures NextState(Count(Glider3(a, b), x, y), (x, y) in Glider3(a, b)) == ((x, y) in Glider(a + 1, b + 1))
    {
      GliderCell3(a, b, x, y);
    }
  }

  lemma GliderEvolves3(a: int, b: int, a2: int, b2: int)
    requires a2 == a + 1 && b2 == b + 1
    ensures Evolves(Glider3(a, b), Glider(a2, b2))
  {
    var s, t := Glider3(a, b), Glider(a2, b2);
    GliderWindow3(a, b);
    GliderShape(a, b);
    GliderShape(a2, b2);
    WithinGrow(t, a2, b2, 4, 4, a - 1, b - 1, 6, 6);
    EvolvesByWindow(s, t, a, b, 4, 4);
  }

  /** One period: four generations after generation `m` shows a glider at
      (a, b), generation `m + 4` shows it at (a + 1, b + 1). */
  lemma GliderPeriod(g: Grid, m: nat, n: nat, a: int, b: int, a2: int, b2: int)
    requires n == m + 4 && a2 == a + 1 && b2 == b + 1
    requires Shows(Generation(g, m), Glider(a, b)) && Fits(g, a, b, 5, 5)
    ensures Shows(Generation(g, n), Glider(a2, b2))
  {
    var m1, m2, m3 := m + 1, m + 2, m + 3;
    GliderEvolves0(a, b);
    GliderEvolves1(a, b);
    GliderEvolves2(a, b);
    GliderEvolves3(a, b, a2, b2);
    GliderShape(a, b);
    GliderShape(a2, b2);
    WithinGrow(Glider1(a, b), a, b, 4, 4, a, b, 5, 5);
    WithinGrow(Glider2(a, b), a, b, 4, 4, a, b, 5, 5);
    WithinGrow(Glider3(a, b), a, b, 4, 4, a, b, 5, 5);
    WithinGrow(Glider(a2, b2), a2, b2, 4, 4, a, b, 5, 5);
    GenerationFits(g, m, a, b, 5, 5);
    GenerationShows(g, m, m1, Glider(a, b), Glider1(a, b), a, b, 5, 5);
    GenerationFits(g, m1, a, b, 5, 5);
    GenerationShows(g, m1, m2, Glider1(a, b), Glider2(a, b), a, b, 5, 5);
    GenerationFits(g, m2, a, b, 5, 5);
    GenerationShows(g, m2, m3, Glider2(a, b), Glider3(a, b), a, b, 5, 5);
    GenerationFits(g, m3, a, b, 5, 5);
    GenerationShows(g, m3, n, Glider3(a, b), Glider(a2, b2), a, b, 5, 5);
  }

  /** After one generation the glider still has five live cells. */
  lemma GliderFirstStep(g: Grid, a: int, b: int)
    requires Shows(g, Glider(a, b)) && Fits(g, a, b, 4, 4)
    ensures Shows(Generation(g, 1), Glider1(a, b)) && |Glider1(a, b)| == 5
  {
    GliderEvolves0(a, b);
    GliderShape(a, b);
    GliderSize(a, b);
    GenerationShows(g, 0, 1, Glider(a, b), Glider1(a, b), a, b, 4, 4);
  }

  /** After n = 4k generations a glider drawn at (a, b) is at
      (a2, b2) = (a + k, b + k): it has moved k cells down and k cells right,
      as long as the board has room for its path. */
  lemma {:induction false} GliderTravels(g: Grid, a: int, b: int, k: nat, n: nat, a2: int, b2: int)
    requires n == 4 * k && a2 == a + k && b2 == b + k
    requires Shows(g, Glider(a, b)) && Fits(g, a, b, k + 4, k + 4)
    ensures Shows(Generation(g, n), Glider(a2, b2))
  {
    if k > 0 {
      var j, m := k - 1, n - 4;
      var x, y := a + j, b + j;
      FitsInside(g, a, b, k + 4, k + 4, a, b, j + 4, j + 4);
      GliderTravels(g, a, b, j, m, x, y);
      FitsInside(g, a, b, k + 4, k + 4, x, y, 5, 5);
      GliderPeriod(g, m, n, x, y, a2, b2);
    }
  }

  /** The glider of the classic scenario: four generations move it one cell
      down and one cell right. */
  lemma GliderGlides(g: Grid, a: int, b: int)
    requires Shows(g, Glider(a, b)) && Fits(g, a, b, 5, 5)
    ensures Shows(Generation(g, 4), Glider(a + 1, b + 1))
  {
    GliderTravels(g, a, b, 1, 4, a + 1, b + 1);
  }
}
