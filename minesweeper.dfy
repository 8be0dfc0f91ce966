/**
 * The Minesweeper game and its knowledge-based player: a board of hidden
 * mines that answers "how many mines touch this cell", sentences
 * `{cells} = count` saying how many of a set of cells are mines, and an AI
 * that keeps a list of sentences, marks cells as mines or safe, draws
 * inferences and picks its next move.
 */
module Minesweeper {
  import opened Optional

  /** A board position `(row, column)`. */
  type Cell = (int, int)

  // ---------------------------------------------------------------------
  // Sentences as values

  /** The value of a sentence: `count` of the `cells` are mines. */
  datatype Fact = Fact(cells: set<Cell>, count: int)
  {
    /** The sentence after learning that `c` is a mine. */
    function MarkMine(c: Cell): (r: Fact)
      ensures r.cells == cells - {c}
      ensures r.count == if c in cells then count - 1 else count
    {
      if c in cells then Fact(cells - {c}, count - 1) else this
    }

    /** The sentence after learning that `c` is safe. */
    function MarkSafe(c: Cell): (r: Fact)
      ensures r.cells == cells - {c} && r.count == count
    {
      if c in cells then Fact(cells - {c}, count) else this
    }
  }

  /** The sentence is true of the mine set `actual`. */
  ghost predicate TrueOf(f: Fact, actual: set<Cell>)
  {
    |f.cells * actual| == f.count
  }

  /** The in-bounds cells within one row and one column of `cell`, without `cell` itself. */
  function Neighbours(cell: Cell, height: int, width: int): (n: set<Cell>)
    ensures cell !in n
    ensures forall c | c in n :: 0 <= c.0 < height && 0 <= c.1 < width
  {
    set i, j | cell.0 - 1 <= i <= cell.0 + 1 && cell.1 - 1 <= j <= cell.1 + 1 &&
      0 <= i < height && 0 <= j < width && (i, j) != cell :: (i, j)
  }

  /** The cells of a `height` by `width` board. */
  function BoardCells(height: int, width: int): (s: set<Cell>)
    ensures forall c :: c in s <==> 0 <= c.0 < height && 0 <= c.1 < width
  {
    set i, j | 0 <= i < height && 0 <= j < width :: (i, j)
  }

  // Cardinality facts used by the soundness lemmas.

  lemma CardSplit(a: set<Cell>, b: set<Cell>)
    ensures |a| == |a * b| + |a - b|
  {
    assert a == (a * b) + (a - b);
    assert (a * b) !! (a - b);
  }

  /** Marking a mine keeps a sentence true. */
  lemma MarkMineKeepsTruth(f: Fact, c: Cell, actual: set<Cell>)
    requires TrueOf(f, actual) && c in actual
    ensures TrueOf(f.MarkMine(c), actual)
  {
    if c in f.cells {
      assert f.cells * actual == (f.cells - {c}) * actual + {c};
    }
  }

  /** Marking a safe cell keeps a sentence true. */
  lemma MarkSafeKeepsTruth(f: Fact, c: Cell, actual: set<Cell>)
    requires TrueOf(f, actual) && c !in actual
    ensures TrueOf(f.MarkSafe(c), actual)
  {
    assert (f.cells - {c}) * actual == f.cells * actual;
  }

  /** Every cell of a true sentence whose count equals its size is a mine. */
  lemma AllMines(f: Fact, actual: set<Cell>)
    requires TrueOf(f, actual) && f.count == |f.cells|
    ensures f.cells <= actual
  {
    CardSplit(f.cells, actual);
    assert f.cells - actual == {};
    forall c | c in f.cells
      ensures c in actual
    {
      assert c !in f.cells - actual;
    }
  }

  /** No cell of a true sentence whose count is 0 is a mine. */
  lemma NoMines(f: Fact, actual: set<Cell>)
    requires TrueOf(f, actual) && f.count == 0
    ensures f.cells !! actual
  {
    assert f.cells * actual == {};
    forall c | c in f.cells
      ensures c !in actual
    {
      assert c !in f.cells * actual;
    }
  }

  /** The difference of two true sentences, one inside the other, is true. */
  lemma DifferenceTrue(a: Fact, b: Fact, actual: set<Cell>)
    requires TrueOf(a, actual) && TrueOf(b, actual) && a.cells <= b.cells
    ensures TrueOf(Fact(b.cells - a.cells, b.count - a.count), actual)
  {
    var inB := b.cells * actual;
    CardSplit(inB, a.cells);
    assert inB * a.cells == a.cells * actual;
    assert inB - a.cells == (b.cells - a.cells) * actual;
  }

  /** Two different true sentences speak of different cell sets. */
  lemma TrueFactsDiffer(f: Fact, g: Fact, actual: set<Cell>)
    requires TrueOf(f, actual) && TrueOf(g, actual) && f != g
    ensures f.cells != g.cells
  {
  }

  /** The sentence built from `count` mines among the cells `n`, given the known mines and safes. */
  function Observation(n: set<Cell>, count: int, mines: set<Cell>, safes: set<Cell>): Fact
  {
    Fact(n - mines - safes, count - |n * mines|)
  }

  /**
   * The sentence the AI builds from a revealed count: the neighbours that
   * are neither known mines nor known safes, and the count less the known
   * mines among the neighbours.  It is true whenever the count is.
   */
  lemma ObservationTrue(n: set<Cell>, count: int, mines: set<Cell>, safes: set<Cell>, actual: set<Cell>)
    requires count == |n * actual| && mines <= actual && safes !! actual
    ensures TrueOf(Observation(n, count, mines, safes), actual)
  {
    var hit := n * actual;
    CardSplit(hit, mines);
    assert hit * mines == n * mines;
    assert hit - mines == (n - mines - safes) * actual;
  }

  // ---------------------------------------------------------------------
  // Sentence

  /** A logical statement `{cells} = count` about the board. */
  class Sentence {
    var cells: set<Cell>
    var count: int

    constructor (cells: set<Cell>, count: int)
      ensures this.cells == cells && this.count == count
    {
      this.cells := cells;
      this.count := count;
    }

    /** The sentence's current value. */
    function AsFact(): (f: Fact)
      reads this
      ensures f.cells == cells && f.count == count
    {
      Fact(cells, count)
    }

    /** `__eq__`: equal cells and equal count. */
    function Equals(other: Sentence): (r: bool)
      reads this, other
      ensures r <==> AsFact() == other.AsFact()
    {
      cells == other.cells && count == other.count
    }

    /**
     * `known_mines`: all the cells when the count equals their number,
     * otherwise the source raises `NotImplementedError` (None here).
     */
    function KnownMines(): (r: Option<set<Cell>>)
      reads this
      ensures r.Some? <==> count == |cells|
      ensures r.Some? ==> r.value == cells
    {
      if count == |cells| then Some(cells) else None
    }

    /**
     * `known_safes`: all the cells when the count is 0, otherwise the source
     * raises `NotImplementedError` (None here).
     */
    function KnownSafes(): (r: Option<set<Cell>>)
      reads this
      ensures r.Some? <==> count == 0
      ensures r.Some? ==> r.value == cells
    {
      if count == 0 then Some(cells) else None
    }

    /** `mark_mine`: drop `c` and count one mine fewer, if `c` is one of the cells. */
    method MarkMine(c: Cell)
      modifies this
      ensures AsFact() == old(AsFact()).MarkMine(c)
      ensures c !in cells && |cells| - count == old(|cells| - count)
    {
      if c in cells {
        cells := cells - {c};
        count := count - 1;
      }
    }

    /** `mark_safe`: drop `c`, if it is one of the cells; the count stays. */
    method MarkSafe(c: Cell)
      modifies this
      ensures AsFact() == old(AsFact()).MarkSafe(c)
      ensures c !in cells && count == old(count)
    {
      if c in cells {
        cells := cells - {c};
      }
    }
  }

  /** Known mines of a true sentence are mines. */
  lemma KnownMinesAreMines(s: Sentence, actual: set<Cell>)
    requires TrueOf(s.AsFact(), actual) && s.KnownMines().Some?
    ensures s.KnownMines().value <= actual
  {
    AllMines(s.AsFact(), actual);
  }

  /** Known safes of a true sentence are not mines. */
  lemma KnownSafesAreSafe(s: Sentence, actual: set<Cell>)
    requires TrueOf(s.AsFact(), actual) && s.KnownSafes().Some?
    ensures s.KnownSafes().value !! actual
  {
    NoMines(s.AsFact(), actual);
  }

  // ---------------------------------------------------------------------
  // The game board

  /** The game: a board with mines at given cells, and the mines flagged so far. */
  class Game {
    const height: nat
    const width: nat
    var mines: set<Cell>
    var board: seq<seq<bool>>
    var minesFound: set<Cell>

    /** The board has the game's shape and marks exactly the mines. */
    ghost predicate Valid()
      reads this
    {
      |board| == height &&
      (forall i | 0 <= i < height :: |board[i]| == width) &&
      mines <= BoardCells(height, width) &&
      forall i, j | 0 <= i < height && 0 <= j < width :: board[i][j] <==> (i, j) in mines
    }

    /**
     * `Minesweeper(height, width, mines)`: an all-False board, then the
     * mines set on it.  The random choice of mine cells is an input here.
     */
    constructor (height: nat, width: nat, mineCells: set<Cell>)
      requires mineCells <= BoardCells(height, width)
      ensures Valid()
      ensures this.height == height && this.width == width
      ensures mines == mineCells && minesFound == {}
    {
      this.height, this.width := height, width;
      var rows: seq<seq<bool>> := [];
      for i := 0 to height
        invariant |rows| == i
        invariant forall i' | 0 <= i' < i :: |rows[i']| == width
        invariant forall i', j | 0 <= i' < i && 0 <= j < width :: rows[i'][j] <==> (i', j) in mineCells
      {
        var row: seq<bool> := [];
        for j := 0 to width
          invariant |row| == j
          invariant forall j' | 0 <= j' < j :: row[j'] <==> (i, j') in mineCells
        {
          row := row + [(i, j) in mineCells];
        }
        rows := rows + [row];
      }
      board := rows;
      mines := mineCells;
      minesFound := {};
    }

    /** `nearby_mines`: the number of mines among the neighbours of `cell`. */
    method NearbyMines(cell: Cell) returns (count: nat)
      requires Valid()
      ensures count == |Neighbours(cell, height, width) * mines|
      ensures count <= 8
    {
      count := 0;
      ghost var seen: set<Cell> := {};
      ghost var visited: nat := 0;
      var lo, left := cell.0 - 1, cell.1 - 1;
      for i := lo to cell.0 + 2
        invariant forall c :: c in seen <==> c in Neighbours(cell, height, width) && c in mines && c.0 < i
        invariant count == |seen|
        invariant count <= visited
        invariant visited == 3 * (i - lo) - (if i > cell.0 then 1 else 0)
      {
        for j := left to cell.1 + 2
          invariant forall c :: c in seen <==>
            c in Neighbours(cell, height, width) && c in mines && (c.0 < i || (c.0 == i && c.1 < j))
          invariant count == |seen|
          invariant count <= visited
          invariant visited == 3 * (i - lo) + (j - left) - (if i > cell.0 || (i == cell.0 && j > cell.1) then 1 else 0)
        {
          if (i, j) == cell {
            continue;
          }
          visited := visited + 1;
          if 0 <= i < height && 0 <= j < width {
            if board[i][j] {
              assert (i, j) !in seen;
              seen := seen + {(i, j)};
              count := count + 1;
            }
          }
        }
      }
      assert seen == Neighbours(cell, height, width) * mines;
    }

    /** `won`: the flagged cells are exactly the mines. */
    function Won(): (r: bool)
      reads this
      ensures r <==> (forall c | c in mines :: c in minesFound) && (forall c | c in minesFound :: c in mines)
    {
      minesFound == mines
    }
  }

  // ---------------------------------------------------------------------
  // Knowledge bases as values

  /** The sentence the subset rule draws from `a` inside `b`. */
  function Difference(a: Fact, b: Fact): Fact
  {
    Fact(b.cells - a.cells, b.count - a.count)
  }

  /** The subset rule applies to `a` and `b`: distinct, non-empty, `a` inside `b`. */
  predicate Inferable(a: Fact, b: Fact)
  {
    a != b && a.cells != {} && b.cells != {} && a.cells <= b.cells
  }

  /** The subset rule applied to the pair `(i, j)` of `fs` gives nothing new. */
  predicate ClosedPair(fs: seq<Fact>, i: nat, j: nat)
    requires i < |fs| && j < |fs|
  {
    Inferable(fs[i], fs[j]) ==> Difference(fs[i], fs[j]) in fs
  }

  /** `fs` is closed under the subset rule. */
  predicate Closed(fs: seq<Fact>)
  {
    forall i, j | 0 <= i < |fs| && 0 <= j < |fs| :: ClosedPair(fs, i, j)
  }

  /** The distinct cell sets the sentences of `fs` talk about. */
  ghost function CellSets(fs: seq<Fact>): set<set<Cell>>
  {
    set k | 0 <= k < |fs| :: fs[k].cells
  }

  /** Every subset of `u`. */
  ghost function Subsets(u: set<Cell>): (p: set<set<Cell>>)
    ensures forall t | t <= u :: t in p
  {
    set t: set<Cell> | t <= u
  }

  lemma CardMono(a: set<set<Cell>>, b: set<set<Cell>>)
    requires a <= b
    ensures |a| <= |b|
  {
    assert b == a + (b - a);
  }

  /**
   * A knowledge base whose sentences all lie on the board talks about at
   * most as many cell sets as the board has subsets.
   */
  lemma CellSetsBounded(fs: seq<Fact>, u: set<Cell>)
    requires forall k | 0 <= k < |fs| :: fs[k].cells <= u
    ensures |CellSets(fs)| <= |Subsets(u)|
  {
    forall s | s in CellSets(fs)
      ensures s in Subsets(u)
    {
      var k :| 0 <= k < |fs| && fs[k].cells == s;
    }
    CardMono(CellSets(fs), Subsets(u));
  }

  /**
   * Adding a true sentence the knowledge base does not hold adds a cell set
   * it does not talk about, when every sentence in it is true.
   */
  lemma NewFactNewCells(fs: seq<Fact>, f: Fact, actual: set<Cell>)
    requires forall k | 0 <= k < |fs| :: TrueOf(fs[k], actual)
    requires TrueOf(f, actual) && f !in fs
    ensures |CellSets(fs + [f])| == |CellSets(fs)| + 1
  {
    forall k | 0 <= k < |fs|
      ensures fs[k].cells != f.cells
    {
      TrueFactsDiffer(fs[k], f, actual);
    }
    var fs' := fs + [f];
    forall t | t in CellSets(fs')
      ensures t in CellSets(fs) + {f.cells}
    {
      var k :| 0 <= k < |fs'| && fs'[k].cells == t;
      if k < |fs| {
        assert fs'[k] == fs[k];
      }
    }
    forall t | t in CellSets(fs)
      ensures t in CellSets(fs')
    {
      var k :| 0 <= k < |fs| && fs[k].cells == t;
      assert fs'[k] == fs[k];
    }
    assert fs'[|fs|] == f;
    assert CellSets(fs') == CellSets(fs) + {f.cells};
  }

  /** `fs` starts with `prefix`. */
  predicate Extends(fs: seq<Fact>, prefix: seq<Fact>)
  {
    |prefix| <= |fs| && fs[..|prefix|] == prefix
  }

  lemma ExtendsTransitive(fs: seq<Fact>, gs: seq<Fact>, hs: seq<Fact>)
    requires Extends(fs, gs) && Extends(gs, hs)
    ensures Extends(fs, hs)
  {
    assert fs[..|hs|] == fs[..|gs|][..|hs|];
  }

  /** Extending a list of sentences keeps every pair that was closed closed. */
  lemma ClosedPairsGrow(fs: seq<Fact>, fs': seq<Fact>)
    requires Extends(fs', fs)
    ensures forall i, j | 0 <= i < |fs| && 0 <= j < |fs| && ClosedPair(fs, i, j) :: ClosedPair(fs', i, j)
  {
    forall i, j | 0 <= i < |fs| && 0 <= j < |fs| && ClosedPair(fs, i, j)
      ensures ClosedPair(fs', i, j)
    {
      assert fs'[i] == fs[i] && fs'[j] == fs[j];
      if Inferable(fs[i], fs[j]) {
        var k :| 0 <= k < |fs| && fs[k] == Difference(fs[i], fs[j]);
        assert fs'[k] == fs[k];
      }
    }
  }

  /** `fs[k]` is what the subset rule draws from two earlier sentences of `fs`. */
  ghost predicate DerivedAt(fs: seq<Fact>, k: nat)
    requires k < |fs|
  {
    exists i, j | 0 <= i < k && 0 <= j < k :: Inferable(fs[i], fs[j]) && fs[k] == Difference(fs[i], fs[j])
  }

  /** `fs` is `prefix` followed only by sentences the subset rule draws from earlier ones. */
  ghost predicate Derived(fs: seq<Fact>, prefix: seq<Fact>)
  {
    Extends(fs, prefix) && forall k | |prefix| <= k < |fs| :: DerivedAt(fs, k)
  }

  /** Appending the difference of an inferable pair of `fs` keeps it derived from `prefix`. */
  lemma DerivedAppend(fs: seq<Fact>, prefix: seq<Fact>, i: nat, j: nat)
    requires Derived(fs, prefix) && i < |fs| && j < |fs| && Inferable(fs[i], fs[j])
    ensures Derived(fs + [Difference(fs[i], fs[j])], prefix)
  {
    var fs' := fs + [Difference(fs[i], fs[j])];
    assert fs'[..|prefix|] == fs[..|prefix|];
    forall k | |prefix| <= k < |fs'|
      ensures DerivedAt(fs', k)
    {
      if k < |fs| {
        assert DerivedAt(fs, k);
        var i', j' :| 0 <= i' < k && 0 <= j' < k && Inferable(fs[i'], fs[j'])
          && fs[k] == Difference(fs[i'], fs[j']);
        assert fs'[i'] == fs[i'] && fs'[j'] == fs[j'] && fs'[k] == fs[k];
      } else {
        assert fs'[i] == fs[i] && fs'[j] == fs[j];
      }
    }
  }

  /** A list derived from one derived from `hs` is derived from `hs`. */
  lemma DerivedTransitive(fs: seq<Fact>, gs: seq<Fact>, hs: seq<Fact>)
    requires Derived(fs, gs) && Derived(gs, hs)
    ensures Derived(fs, hs)
  {
    ExtendsTransitive(fs, gs, hs);
    forall k | |hs| <= k < |gs|
      ensures DerivedAt(fs, k)
    {
      assert DerivedAt(gs, k);
      var i, j :| 0 <= i < k && 0 <= j < k && Inferable(gs[i], gs[j]) && gs[k] == Difference(gs[i], gs[j]);
      assert fs[i] == fs[..|gs|][i] && fs[j] == fs[..|gs|][j] && fs[k] == fs[..|gs|][k];
    }
  }

  /** Known mines, known safes and sentences all hold when the mines are exactly `actual`. */
  ghost predicate Consistent(mines: set<Cell>, safes: set<Cell>, fs: seq<Fact>, actual: set<Cell>)
  {
    mines <= actual && safes !! actual && forall k | 0 <= k < |fs| :: TrueOf(fs[k], actual)
  }

  /** Every sentence of `fs` after learning that `c` is a mine. */
  function MarkMineAll(fs: seq<Fact>, c: Cell): (r: seq<Fact>)
    ensures |r| == |fs|
    ensures forall k | 0 <= k < |fs| :: r[k] == fs[k].MarkMine(c)
  {
    seq(|fs|, k requires 0 <= k < |fs| => fs[k].MarkMine(c))
  }

  /** Every sentence of `fs` after learning that `c` is safe. */
  function MarkSafeAll(fs: seq<Fact>, c: Cell): (r: seq<Fact>)
    ensures |r| == |fs|
    ensures forall k | 0 <= k < |fs| :: r[k] == fs[k].MarkSafe(c)
  {
    seq(|fs|, k requires 0 <= k < |fs| => fs[k].MarkSafe(c))
  }

  /** Recording a real mine keeps a consistent belief consistent; no sentence mentions it any more. */
  lemma MarkMineKeepsConsistent(mines: set<Cell>, safes: set<Cell>, fs: seq<Fact>, c: Cell, actual: set<Cell>)
    requires Consistent(mines, safes, fs, actual) && c in actual
    ensures Consistent(mines + {c}, safes, MarkMineAll(fs, c), actual)
    ensures forall k | 0 <= k < |fs| :: c !in MarkMineAll(fs, c)[k].cells
  {
    forall k | 0 <= k < |fs|
      ensures TrueOf(MarkMineAll(fs, c)[k], actual)
    {
      MarkMineKeepsTruth(fs[k], c, actual);
    }
  }

  /** Recording a real safe cell keeps a consistent belief consistent; no sentence mentions it any more. */
  lemma MarkSafeKeepsConsistent(mines: set<Cell>, safes: set<Cell>, fs: seq<Fact>, c: Cell, actual: set<Cell>)
    requires Consistent(mines, safes, fs, actual) && c !in actual
    ensures Consistent(mines, safes + {c}, MarkSafeAll(fs, c), actual)
    ensures forall k | 0 <= k < |fs| :: c !in MarkSafeAll(fs, c)[k].cells
  {
    forall k | 0 <= k < |fs|
      ensures TrueOf(MarkSafeAll(fs, c)[k], actual)
    {
      MarkSafeKeepsTruth(fs[k], c, actual);
    }
  }

  /** `fs` is `start` after learning that the cells of `s` are safe. */
  predicate SafesRemovedFrom(fs: seq<Fact>, start: seq<Fact>, s: set<Cell>)
  {
    |fs| == |start| &&
    forall k | 0 <= k < |start| :: fs[k] == Fact(start[k].cells - s, start[k].count)
  }

  /** `fs` is `start` after learning that the cells of `s` are mines. */
  predicate MinesRemovedFrom(fs: seq<Fact>, start: seq<Fact>, s: set<Cell>)
  {
    |fs| == |start| &&
    forall k | 0 <= k < |start| :: fs[k] == Fact(start[k].cells - s, start[k].count - |start[k].cells * s|)
  }

  /** Nothing learnt, nothing changed. */
  lemma NothingRemoved(fs: seq<Fact>)
    ensures SafesRemovedFrom(fs, fs, {}) && MinesRemovedFrom(fs, fs, {})
  {
    forall k | 0 <= k < |fs|
      ensures fs[k] == Fact(fs[k].cells - {}, fs[k].count - |fs[k].cells * {}|)
    {
      assert fs[k].cells - {} == fs[k].cells && fs[k].cells * {} == {};
    }
  }

  /** Learning that `d` is safe, then that `c` is, is learning that `d + {c}` is. */
  lemma SafesRemovedStep(fs: seq<Fact>, start: seq<Fact>, d: set<Cell>, c: Cell)
    requires SafesRemovedFrom(fs, start, d)
    ensures SafesRemovedFrom(MarkSafeAll(fs, c), start, d + {c})
  {
    forall k | 0 <= k < |fs|
      ensures MarkSafeAll(fs, c)[k] == Fact(start[k].cells - (d + {c}), start[k].count)
    {
      assert start[k].cells - d - {c} == start[k].cells - (d + {c});
    }
  }

  /** Learning that `d` holds mines, then that `c` does, is learning that `d + {c}` do. */
  lemma MinesRemovedStep(fs: seq<Fact>, start: seq<Fact>, d: set<Cell>, c: Cell)
    requires MinesRemovedFrom(fs, start, d) && c !in d
    ensures MinesRemovedFrom(MarkMineAll(fs, c), start, d + {c})
  {
    forall k | 0 <= k < |fs|
      ensures MarkMineAll(fs, c)[k] ==
        Fact(start[k].cells - (d + {c}), start[k].count - |start[k].cells * (d + {c})|)
    {
      MineStep(start[k], d, c);
    }
  }

  /** One sentence, one more mine. */
  lemma MineStep(f: Fact, d: set<Cell>, c: Cell)
    requires c !in d
    ensures Fact(f.cells - d, f.count - |f.cells * d|).MarkMine(c) ==
      Fact(f.cells - (d + {c}), f.count - |f.cells * (d + {c})|)
  {
    assert f.cells - d - {c} == f.cells - (d + {c});
    if c in f.cells {
      assert f.cells * (d + {c}) == f.cells * d + {c};
    } else {
      assert f.cells * (d + {c}) == f.cells * d;
    }
  }

  /** Learning safe cells in two rounds is learning them in one. */
  lemma SafesRemovedTwice(fs: seq<Fact>, mid: seq<Fact>, start: seq<Fact>, s: set<Cell>, t: set<Cell>)
    requires SafesRemovedFrom(mid, start, s) && SafesRemovedFrom(fs, mid, t)
    ensures SafesRemovedFrom(fs, start, s + t)
  {
    forall k | 0 <= k < |start|
      ensures fs[k] == Fact(start[k].cells - (s + t), start[k].count)
    {
      assert start[k].cells - s - t == start[k].cells - (s + t);
    }
  }

  /** Learning mines in two rounds is learning them in one. */
  lemma MinesRemovedTwice(fs: seq<Fact>, mid: seq<Fact>, start: seq<Fact>, s: set<Cell>, t: set<Cell>)
    requires MinesRemovedFrom(mid, start, s) && MinesRemovedFrom(fs, mid, t)
    ensures MinesRemovedFrom(fs, start, s + t)
  {
    forall k | 0 <= k < |start|
      ensures fs[k] == Fact(start[k].cells - (s + t), start[k].count - |start[k].cells * (s + t)|)
    {
      MineRounds(start[k].cells, s, t);
    }
  }

  /** The mines of `cells` in `s + t` are those in `s` and those left over in `t`. */
  lemma MineRounds(cells: set<Cell>, s: set<Cell>, t: set<Cell>)
    ensures cells - s - t == cells - (s + t)
    ensures |cells * (s + t)| == |cells * s| + |(cells - s) * t|
  {
    assert cells * (s + t) == cells * s + (cells - s) * t;
    assert cells * s !! (cells - s) * t;
  }

  /** Learning mines never changes how many cells of a sentence are safe. */
  lemma MinesRemovedKeepsSafeCount(fs: seq<Fact>, start: seq<Fact>, s: set<Cell>)
    requires MinesRemovedFrom(fs, start, s)
    ensures forall k | 0 <= k < |fs| :: |fs[k].cells| - fs[k].count == |start[k].cells| - start[k].count
  {
    forall k | 0 <= k < |fs|
      ensures |fs[k].cells| - fs[k].count == |start[k].cells| - start[k].count
    {
      CardSplit(start[k].cells, s);
    }
  }

  /** The cells of every sentence among the first `n` of `fs` whose count is 0. */
  function ZeroCountCells(fs: seq<Fact>, n: nat): (r: set<Cell>)
    requires n <= |fs|
    ensures forall k | 0 <= k < n && fs[k].count == 0 :: fs[k].cells <= r
  {
    if n == 0 then {}
    else ZeroCountCells(fs, n - 1) + if fs[n - 1].count == 0 then fs[n - 1].cells else {}
  }

  /** The cells of every sentence among the first `n` of `fs` whose count equals its number of cells. */
  function FullCountCells(fs: seq<Fact>, n: nat): (r: set<Cell>)
    requires n <= |fs|
    ensures forall k | 0 <= k < n && fs[k].count == |fs[k].cells| :: fs[k].cells <= r
  {
    if n == 0 then {}
    else FullCountCells(fs, n - 1) + if fs[n - 1].count == |fs[n - 1].cells| then fs[n - 1].cells else {}
  }

  /** The cells of count-0 true sentences are not mines. */
  lemma {:induction false} ZeroCountCellsAreSafe(fs: seq<Fact>, n: nat, actual: set<Cell>)
    requires n <= |fs| && forall k | 0 <= k < |fs| :: TrueOf(fs[k], actual)
    ensures ZeroCountCells(fs, n) !! actual
  {
    if n > 0 {
      ZeroCountCellsAreSafe(fs, n - 1, actual);
      if fs[n - 1].count == 0 {
        NoMines(fs[n - 1], actual);
      }
    }
  }

  /**
   * One step of the safe round.  Sentence `k` of the round's knowledge
   * `cur` adds its remaining cells to those learnt safe exactly when its
   * count is 0.
   */
  lemma SafeRoundStep(start: seq<Fact>, cur: seq<Fact>, k: nat)
    requires k < |start| && SafesRemovedFrom(cur, start, ZeroCountCells(start, k))
    ensures cur[k].count == 0 ==> ZeroCountCells(start, k) + cur[k].cells == ZeroCountCells(start, k + 1)
    ensures cur[k].count != 0 ==> ZeroCountCells(start, k) == ZeroCountCells(start, k + 1)
  {
    var z := ZeroCountCells(start, k);
    if cur[k].count == 0 {
      assert z + cur[k].cells == z + start[k].cells;
    }
  }

  /**
   * One step of the mine round.  Sentence `k` of the round's knowledge
   * `cur` adds its remaining cells to those learnt to be mines exactly when
   * its count equals its size.
   */
  lemma MineRoundStep(start: seq<Fact>, cur: seq<Fact>, k: nat)
    requires k < |start| && MinesRemovedFrom(cur, start, FullCountCells(start, k))
    ensures cur[k].count == |cur[k].cells| ==> FullCountCells(start, k) + cur[k].cells == FullCountCells(start, k + 1)
    ensures cur[k].count != |cur[k].cells| ==> FullCountCells(start, k) == FullCountCells(start, k + 1)
  {
    var m := FullCountCells(start, k);
    CardSplit(start[k].cells, m);
    if cur[k].count == |cur[k].cells| {
      assert m + cur[k].cells == m + start[k].cells;
    }
  }

  /**
   * After the cells of every count-0 sentence are learnt safe, no sentence
   * with count 0 has cells left.
   */
  lemma SafeRoundLeavesNoZero(fs: seq<Fact>, start: seq<Fact>)
    requires SafesRemovedFrom(fs, start, ZeroCountCells(start, |start|))
    ensures forall k | 0 <= k < |fs| :: fs[k].count == 0 ==> fs[k].cells == {}
  {
  }

  /**
   * After the cells of every sentence whose count equals its size are learnt
   * to be mines, no sentence whose count equals its size has cells left.
   */
  lemma MineRoundLeavesNoFull(fs: seq<Fact>, start: seq<Fact>)
    requires MinesRemovedFrom(fs, start, FullCountCells(start, |start|))
    ensures forall k | 0 <= k < |fs| :: fs[k].count == |fs[k].cells| ==> fs[k].cells == {}
  {
    MinesRemovedKeepsSafeCount(fs, start, FullCountCells(start, |start|));
  }

  // ---------------------------------------------------------------------
  // The AI player

  /** Row-major order on cells. */
  predicate RowMajorBefore(c: Cell, d: Cell)
  {
    c.0 < d.0 || (c.0 == d.0 && c.1 < d.1)
  }

  /**
   * The neighbours left in the new sentence once those outside `rest` have
   * been looked at: a cell already looked at stays only if it is neither a
   * known mine nor a known safe.
   */
  ghost function Kept(neighbors: set<Cell>, rest: set<Cell>, mines: set<Cell>, safes: set<Cell>): set<Cell>
  {
    set x | x in neighbors && (x in rest || (x !in mines && x !in safes))
  }

  /** The known mines among the neighbours already looked at. */
  ghost function MinesSeen(neighbors: set<Cell>, rest: set<Cell>, mines: set<Cell>): nat
  {
    |(neighbors - rest) * mines|
  }

  /** No neighbour already looked at is both a known mine and a known safe. */
  ghost predicate NoneBoth(neighbors: set<Cell>, rest: set<Cell>, mines: set<Cell>, safes: set<Cell>)
  {
    forall x | x in neighbors && x !in rest :: !(x in mines && x in safes)
  }

  /** Before any neighbour is looked at, all are kept and none is a mine seen. */
  lemma ExcludeStart(neighbors: set<Cell>, mines: set<Cell>, safes: set<Cell>)
    ensures Kept(neighbors, neighbors, mines, safes) == neighbors
    ensures MinesSeen(neighbors, neighbors, mines) == 0
    ensures NoneBoth(neighbors, neighbors, mines, safes)
  {
    assert neighbors - neighbors == {};
  }

  /** Looking at one more neighbour `c`. */
  lemma ExcludeStep(neighbors: set<Cell>, rest: set<Cell>, c: Cell, mines: set<Cell>, safes: set<Cell>)
    requires c in rest && rest <= neighbors
    ensures Kept(neighbors, rest - {c}, mines, safes) ==
      Kept(neighbors, rest, mines, safes) - (if c in mines || c in safes then {c} else {})
    ensures MinesSeen(neighbors, rest - {c}, mines) == MinesSeen(neighbors, rest, mines) + (if c in mines then 1 else 0)
    ensures NoneBoth(neighbors, rest - {c}, mines, safes) <==> NoneBoth(neighbors, rest, mines, safes) && !(c in mines && c in safes)
  {
    KeptStep(neighbors, rest, c, mines, safes);
    MinesSeenStep(neighbors, rest, c, mines);
  }

  lemma KeptStep(neighbors: set<Cell>, rest: set<Cell>, c: Cell, mines: set<Cell>, safes: set<Cell>)
    requires c in rest && rest <= neighbors
    ensures Kept(neighbors, rest - {c}, mines, safes) ==
      Kept(neighbors, rest, mines, safes) - (if c in mines || c in safes then {c} else {})
  {
    var after, before := Kept(neighbors, rest - {c}, mines, safes), Kept(neighbors, rest, mines, safes);
    var gone: set<Cell> := if c in mines || c in safes then {c} else {};
    forall x
      ensures x in after <==> x in before - gone
    {
    }
  }

  lemma MinesSeenStep(neighbors: set<Cell>, rest: set<Cell>, c: Cell, mines: set<Cell>)
    requires c in rest && rest <= neighbors
    ensures MinesSeen(neighbors, rest - {c}, mines) == MinesSeen(neighbors, rest, mines) + (if c in mines then 1 else 0)
  {
    var seen := neighbors - rest;
    assert neighbors - (rest - {c}) == seen + {c};
    if c in mines {
      assert (seen + {c}) * mines == seen * mines + {c};
    } else {
      assert (seen + {c}) * mines == seen * mines;
    }
  }

  /** Once every neighbour is looked at. */
  lemma ExcludeEnd(neighbors: set<Cell>, mines: set<Cell>, safes: set<Cell>)
    ensures Kept(neighbors, {}, mines, safes) == neighbors - mines - safes
    ensures MinesSeen(neighbors, {}, mines) == |neighbors * mines|
    ensures NoneBoth(neighbors, {}, mines, safes) <==> neighbors * mines * safes == {}
  {
    assert neighbors - {} == neighbors;
    if !NoneBoth(neighbors, {}, mines, safes) {
      var x :| x in neighbors && x in mines && x in safes;
      assert x in neighbors * mines * safes;
    }
  }

  /**
   * The player: moves made, known mines and safes, and the list of
   * sentences it knows, held as sentence values.
   */
  class MinesweeperAI {
    const height: nat
    const width: nat
    var movesMade: set<Cell>
    var mines: set<Cell>
    var safes: set<Cell>
    var knowledge: seq<Fact>

    /** Every sentence lies on the board and speaks only of cells not yet known to be mines or safe. */
    ghost predicate Valid()
      reads this
    {
      forall k | 0 <= k < |knowledge| ::
        knowledge[k].cells <= BoardCells(height, width) &&
        knowledge[k].cells !! mines && knowledge[k].cells !! safes
    }

    /** Everything the player believes holds when the mines are exactly `actual`. */
    ghost predicate Sound(actual: set<Cell>)
      reads this
    {
      Consistent(mines, safes, knowledge, actual)
    }

    constructor (height: nat, width: nat)
      ensures Valid()
      ensures this.height == height && this.width == width
      ensures movesMade == {} && mines == {} && safes == {} && knowledge == []
    {
      this.height, this.width := height, width;
      movesMade, mines, safes := {}, {}, {};
      knowledge := [];
    }

    /** `mark_mine`: record `c` as a mine and remove it from every sentence. */
    method MarkMine(c: Cell)
      requires Valid()
      modifies this
      ensures Valid()
      ensures mines == old(mines) + {c} && safes == old(safes) && movesMade == old(movesMade)
      ensures knowledge == MarkMineAll(old(knowledge), c)
    {
      mines := mines + {c};
      var updated := knowledge;
      for k := 0 to |updated|
        invariant |updated| == |knowledge|
        invariant forall k' | 0 <= k' < k :: updated[k'] == knowledge[k'].MarkMine(c)
        invariant forall k' | k <= k' < |updated| :: updated[k'] == knowledge[k']
      {
        updated := updated[k := updated[k].MarkMine(c)];
      }
      knowledge := updated;
    }

    /** `mark_safe`: record `c` as safe and remove it from every sentence. */
    method MarkSafe(c: Cell)
      requires Valid()
      modifies this
      ensures Valid()
      ensures safes == old(safes) + {c} && mines == old(mines) && movesMade == old(movesMade)
      ensures knowledge == MarkSafeAll(old(knowledge), c)
    {
      safes := safes + {c};
      var updated := knowledge;
      for k := 0 to |updated|
        invariant |updated| == |knowledge|
        invariant forall k' | 0 <= k' < k :: updated[k'] == knowledge[k'].MarkSafe(c)
        invariant forall k' | k <= k' < |updated| :: updated[k'] == knowledge[k']
      {
        updated := updated[k := updated[k].MarkSafe(c)];
      }
      knowledge := updated;
    }

    /** The in-bounds cells of the 3 by 3 block around `cell`, without `cell`. */
    method NeighbourCells(cell: Cell) returns (neighbors: set<Cell>)
      ensures neighbors == Neighbours(cell, height, width)
    {
      neighbors := {};
      for i := cell.0 - 1 to cell.0 + 2
        invariant forall c :: c in neighbors <==>
          cell.0 - 1 <= c.0 < i && cell.1 - 1 <= c.1 <= cell.1 + 1 && 0 <= c.0 < height && 0 <= c.1 < width
      {
        for j := cell.1 - 1 to cell.1 + 2
          invariant forall c :: c in neighbors <==>
            (cell.0 - 1 <= c.0 < i || (c.0 == i && cell.1 - 1 <= c.1 < j)) &&
            cell.1 - 1 <= c.1 <= cell.1 + 1 && 0 <= c.0 < height && 0 <= c.1 < width
        {
          if i >= 0 && i < height && j >= 0 && j < width {
            neighbors := neighbors + {(i, j)};
          }
        }
      }
      if cell in neighbors {
        neighbors := neighbors - {cell};
      }
      assert neighbors == Neighbours(cell, height, width);
    }

    /**
     * Drop the known mines and known safes from `neighbors`, counting one
     * mine fewer for each known mine.  Fails where the source raises
     * `KeyError`: a cell that is both a known mine and a known safe is
     * removed twice.
     */
    method ExcludeKnown(neighbors: set<Cell>, count: int) returns (ok: bool, cells: set<Cell>, remaining: int)
      ensures ok <==> neighbors * mines * safes == {}
      ensures ok ==> cells == neighbors - mines - safes && remaining == count - |neighbors * mines|
    {
      cells, remaining := neighbors, count;
      var neighborsCopy := neighbors;
      ExcludeStart(neighbors, mines, safes);
      while neighborsCopy != {}
        invariant neighborsCopy <= neighbors
        invariant cells == Kept(neighbors, neighborsCopy, mines, safes)
        invariant remaining == count - MinesSeen(neighbors, neighborsCopy, mines)
        invariant NoneBoth(neighbors, neighborsCopy, mines, safes)
        decreases neighborsCopy
      {
        var c :| c in neighborsCopy;
        ExcludeStep(neighbors, neighborsCopy, c, mines, safes);
        if c in mines {
          cells := cells - {c};
          remaining := remaining - 1;
        }
        if c in safes {
          if c !in cells {
            ExcludeEnd(neighbors, mines, safes);
            return false, cells, remaining;
          }
          cells := cells - {c};
        }
        neighborsCopy := neighborsCopy - {c};
      }
      ExcludeEnd(neighbors, mines, safes);
      ok := true;
    }

    /**
     * Steps 1 to 3 of `add_knowledge`: record the move, mark `cell` safe and
     * append the sentence about its neighbours that are neither known mines
     * nor known safes.  Returns false where the source raises `KeyError`.
     */
    method RecordObservation(cell: Cell, count: int) returns (ok: bool)
      requires Valid()
      modifies this
      ensures Valid()
      ensures movesMade == old(movesMade) + {cell} && safes == old(safes) + {cell} && mines == old(mines)
      ensures ok <==> Neighbours(cell, height, width) * mines * safes == {}
      ensures !ok ==> knowledge == MarkSafeAll(old(knowledge), cell)
      ensures ok ==> (knowledge ==
        MarkSafeAll(old(knowledge), cell) + [Observation(Neighbours(cell, height, width), count, mines, safes)])
    {
      movesMade := movesMade + {cell};
      MarkSafe(cell);
      var neighbors := NeighbourCells(cell);
      var cells, remaining;
      ok, cells, remaining := ExcludeKnown(neighbors, count);
      if ok {
        knowledge := knowledge + [Fact(cells, remaining)];
      }
    }

    /** Mark every cell of `cs` safe, one at a time, in any order. */
    method MarkAllSafe(cs: set<Cell>, ghost actual: set<Cell>)
      requires Valid() && Sound(actual) && cs !! actual
      modifies this
      ensures Valid() && Sound(actual)
      ensures safes == old(safes) + cs && mines == old(mines) && movesMade == old(movesMade)
      ensures SafesRemovedFrom(knowledge, old(knowledge), cs)
    {
      var rest := cs;
      NothingRemoved(knowledge);
      assert cs - rest == {};
      while rest != {}
        invariant rest <= cs
        invariant Valid() && Sound(actual)
        invariant forall c :: c in safes <==> c in old(safes) || c in cs - rest
        invariant mines == old(mines) && movesMade == old(movesMade)
        invariant SafesRemovedFrom(knowledge, old(knowledge), cs - rest)
        decreases rest
      {
        var c :| c in rest;
        ghost var done := cs - rest;
        MarkSafeKeepsConsistent(mines, safes, knowledge, c, actual);
        SafesRemovedStep(knowledge, old(knowledge), done, c);
        MarkSafe(c);
        rest := rest - {c};
        assert cs - rest == done + {c};
      }
      assert cs - rest == cs;
    }

    /** Mark every cell of `cs` a mine, one at a time, in any order. */
    method MarkAllMines(cs: set<Cell>, ghost actual: set<Cell>)
      requires Valid() && Sound(actual) && cs <= actual
      modifies this
      ensures Valid() && Sound(actual)
      ensures mines == old(mines) + cs && safes == old(safes) && movesMade == old(movesMade)
      ensures MinesRemovedFrom(knowledge, old(knowledge), cs)
    {
      var rest := cs;
      NothingRemoved(knowledge);
      assert cs - rest == {};
      while rest != {}
        invariant rest <= cs
        invariant Valid() && Sound(actual)
        invariant forall c :: c in mines <==> c in old(mines) || c in cs - rest
        invariant safes == old(safes) && movesMade == old(movesMade)
        invariant MinesRemovedFrom(knowledge, old(knowledge), cs - rest)
        decreases rest
      {
        var c :| c in rest;
        ghost var done := cs - rest;
        MarkMineKeepsConsistent(mines, safes, knowledge, c, actual);
        MinesRemovedStep(knowledge, old(knowledge), done, c);
        MarkMine(c);
        rest := rest - {c};
        assert cs - rest == done + {c};
      }
      assert cs - rest == cs;
    }

    /**
     * Step 4 of `add_knowledge`, first half: the cells of every sentence
     * whose count is 0 are marked safe.  Marking safe cells changes no
     * count, so the sentences concerned are those with count 0 at the start.
     */
    method InferSafes(ghost actual: set<Cell>)
      requires Valid() && Sound(actual)
      modifies this
      ensures Valid() && Sound(actual)
      ensures mines == old(mines) && movesMade == old(movesMade)
      ensures safes == old(safes) + ZeroCountCells(old(knowledge), |old(knowledge)|)
      ensures SafesRemovedFrom(knowledge, old(knowledge), ZeroCountCells(old(knowledge), |old(knowledge)|))
    {
      ghost var start := knowledge;
      NothingRemoved(start);
      assert ZeroCountCells(start, 0) == {};
      for k := 0 to |knowledge|
        invariant Valid() && Sound(actual)
        invariant mines == old(mines) && movesMade == old(movesMade)
        invariant forall c :: c in safes <==> c in old(safes) || c in ZeroCountCells(start, k)
        invariant SafesRemovedFrom(knowledge, start, ZeroCountCells(start, k))
      {
        InferSafesAt(k, start, old(safes), actual);
      }
    }

    /** One sentence of the safe round: the `k`-th, if its count is 0. */
    method InferSafesAt(k: nat, ghost start: seq<Fact>, ghost safes0: set<Cell>, ghost actual: set<Cell>)
      requires Valid() && Sound(actual) && k < |start|
      requires forall c :: c in safes <==> c in safes0 || c in ZeroCountCells(start, k)
      requires SafesRemovedFrom(knowledge, start, ZeroCountCells(start, k))
      modifies this
      ensures Valid() && Sound(actual)
      ensures mines == old(mines) && movesMade == old(movesMade)
      ensures forall c :: c in safes <==> c in safes0 || c in ZeroCountCells(start, k + 1)
      ensures SafesRemovedFrom(knowledge, start, ZeroCountCells(start, k + 1))
    {
      SafeRoundStep(start, knowledge, k);
      if knowledge[k].count == 0 {
        ghost var before := knowledge;
        var cells := knowledge[k].cells;
        NoMines(knowledge[k], actual);
        MarkAllSafe(cells, actual);
        SafesRemovedTwice(knowledge, before, start, ZeroCountCells(start, k), cells);
      }
    }

    /**
     * Step 4 of `add_knowledge`, second half: the cells of every sentence
     * whose count equals its size are marked mines.  Marking mines keeps
     * each sentence's size less its count, so the sentences concerned are
     * those whose count equals their size at the start.
     */
    method InferMines(ghost actual: set<Cell>)
      requires Valid() && Sound(actual)
      modifies this
      ensures Valid() && Sound(actual)
      ensures safes == old(safes) && movesMade == old(movesMade)
      ensures mines == old(mines) + FullCountCells(old(knowledge), |old(knowledge)|)
      ensures MinesRemovedFrom(knowledge, old(knowledge), FullCountCells(old(knowledge), |old(knowledge)|))
    {
      ghost var start := knowledge;
      NothingRemoved(start);
      assert FullCountCells(start, 0) == {};
      for k := 0 to |knowledge|
        invariant Valid() && Sound(actual)
        invariant safes == old(safes) && movesMade == old(movesMade)
        invariant forall c :: c in mines <==> c in old(mines) || c in FullCountCells(start, k)
        invariant MinesRemovedFrom(knowledge, start, FullCountCells(start, k))
      {
        InferMinesAt(k, start, old(mines), actual);
      }
    }

    /** One sentence of the mine round: the `k`-th, if its count equals its size. */
    method InferMinesAt(k: nat, ghost start: seq<Fact>, ghost mines0: set<Cell>, ghost actual: set<Cell>)
      requires Valid() && Sound(actual) && k < |start|
      requires forall c :: c in mines <==> c in mines0 || c in FullCountCells(start, k)
      requires MinesRemovedFrom(knowledge, start, FullCountCells(start, k))
      modifies this
      ensures Valid() && Sound(actual)
      ensures safes == old(safes) && movesMade == old(movesMade)
      ensures forall c :: c in mines <==> c in mines0 || c in FullCountCells(start, k + 1)
      ensures MinesRemovedFrom(knowledge, start, FullCountCells(start, k + 1))
    {
      MineRoundStep(start, knowledge, k);
      if knowledge[k].count == |knowledge[k].cells| {
        ghost var before := knowledge;
        var cells := knowledge[k].cells;
        AllMines(knowledge[k], actual);
        MarkAllMines(cells, actual);
        MinesRemovedTwice(knowledge, before, start, FullCountCells(start, k), cells);
      }
    }

    /**
     * Append `f` to the knowledge unless an equal sentence is already there
     * (the source's `sentence not in self.knowledge`).
     */
    method AppendIfNew(f: Fact, ghost actual: set<Cell>)
      requires Valid() && Sound(actual) && TrueOf(f, actual)
      requires f.cells <= BoardCells(height, width) && f.cells !! mines && f.cells !! safes
      modifies this
      ensures Valid() && Sound(actual)
      ensures mines == old(mines) && safes == old(safes) && movesMade == old(movesMade)
      ensures knowledge == if f in old(knowledge) then old(knowledge) else old(knowledge) + [f]
      ensures |CellSets(knowledge)| - |knowledge| == old(|CellSets(knowledge)| - |knowledge|)
    {
      if f !in knowledge {
        NewFactNewCells(knowledge, f, actual);
        knowledge := knowledge + [f];
      }
    }

    /**
     * One step of the subset rule, for `knowledge[a]` and `knowledge[b]`:
     * skip equal or empty sentences; otherwise, when one's cells lie inside
     * the other's, append their difference unless an equal sentence is
     * already known.
     */
    method ConsiderPair(a: nat, b: nat, ghost actual: set<Cell>)
      requires Valid() && Sound(actual) && a < |knowledge| && b < |knowledge|
      modifies this
      ensures Valid() && Sound(actual)
      ensures mines == old(mines) && safes == old(safes) && movesMade == old(movesMade)
      ensures Derived(knowledge, old(knowledge))
      ensures |CellSets(knowledge)| - |knowledge| == old(|CellSets(knowledge)| - |knowledge|)
      ensures ClosedPair(knowledge, a, b) && ClosedPair(knowledge, b, a)
      ensures knowledge == old(knowledge) ||
        exists i, j | 0 <= i < |old(knowledge)| && 0 <= j < |old(knowledge)| ::
          Inferable(old(knowledge)[i], old(knowledge)[j]) &&
          knowledge == old(knowledge) + [Difference(old(knowledge)[i], old(knowledge)[j])]
    {
      var sentenceA, sentenceB := knowledge[a], knowledge[b];
      if sentenceA == sentenceB {
      } else if |sentenceA.cells| == 0 {
      } else if |sentenceB.cells| == 0 {
      } else if sentenceA.cells <= sentenceB.cells {
        TrueFactsDiffer(sentenceA, sentenceB, actual);
        DifferenceTrue(sentenceA, sentenceB, actual);
        DerivedAppend(knowledge, knowledge, a, b);
        AppendIfNew(Difference(sentenceA, sentenceB), actual);
      } else if sentenceB.cells <= sentenceA.cells {
        DifferenceTrue(sentenceB, sentenceA, actual);
        DerivedAppend(knowledge, knowledge, b, a);
        AppendIfNew(Difference(sentenceB, sentenceA), actual);
      }
    }

    /**
     * The inner loop of step 5: the subset rule for `knowledge[a]` and every
     * sentence, including the ones appended on the way.
     */
    method ConsiderAllWith(a: nat, ghost actual: set<Cell>)
      requires Valid() && Sound(actual) && a < |knowledge|
      modifies this
      ensures Valid() && Sound(actual)
      ensures mines == old(mines) && safes == old(safes) && movesMade == old(movesMade)
      ensures Derived(knowledge, old(knowledge))
      ensures |CellSets(knowledge)| - |knowledge| == old(|CellSets(knowledge)| - |knowledge|)
      ensures forall j | 0 <= j < |knowledge| :: ClosedPair(knowledge, a, j) && ClosedPair(knowledge, j, a)
    {
      ghost var board := BoardCells(height, width);
      ghost var bound := |Subsets(board)|;
      ghost var spare := |CellSets(knowledge)| - |knowledge|;
      CellSetsBounded(knowledge, board);
      var b := 0;
      while b < |knowledge|
        invariant 0 <= b <= |knowledge| && a < |knowledge|
        invariant Valid() && Sound(actual)
        invariant mines == old(mines) && safes == old(safes) && movesMade == old(movesMade)
        invariant Derived(knowledge, old(knowledge))
        invariant |CellSets(knowledge)| <= bound && |CellSets(knowledge)| - |knowledge| == spare
        invariant forall j | 0 <= j < b :: ClosedPair(knowledge, a, j) && ClosedPair(knowledge, j, a)
        decreases bound - spare - b
      {
        ghost var before := knowledge;
        ConsiderPair(a, b, actual);
        ClosedPairsGrow(before, knowledge);
        DerivedTransitive(knowledge, before, old(knowledge));
        CellSetsBounded(knowledge, board);
        b := b + 1;
      }
    }

    /**
     * Step 5 of `add_knowledge`: the subset rule over every pair of
     * sentences.  Both loops also visit the sentences appended on the way,
     * and when they finish the knowledge is closed under the rule.
     */
    method InferSubsets(ghost actual: set<Cell>)
      requires Valid() && Sound(actual)
      modifies this
      ensures Valid() && Sound(actual)
      ensures mines == old(mines) && safes == old(safes) && movesMade == old(movesMade)
      ensures Derived(knowledge, old(knowledge))
      ensures Closed(knowledge)
    {
      ghost var board := BoardCells(height, width);
      ghost var bound := |Subsets(board)|;
      ghost var spare := |CellSets(knowledge)| - |knowledge|;
      CellSetsBounded(knowledge, board);
      var a := 0;
      while a < |knowledge|
        invariant 0 <= a <= |knowledge|
        invariant Valid() && Sound(actual)
        invariant mines == old(mines) && safes == old(safes) && movesMade == old(movesMade)
        invariant Derived(knowledge, old(knowledge))
        invariant |CellSets(knowledge)| <= bound && |CellSets(knowledge)| - |knowledge| == spare
        invariant forall i, j | 0 <= i < a && 0 <= j < a :: ClosedPair(knowledge, i, j)
        decreases bound - spare - a
      {
        ghost var before := knowledge;
        ConsiderAllWith(a, actual);
        ClosedPairsGrow(before, knowledge);
        DerivedTransitive(knowledge, before, old(knowledge));
        CellSetsBounded(knowledge, board);
        a := a + 1;
      }
    }

    /**
     * `add_knowledge(cell, count)`: the game revealed that the safe `cell`
     * has `count` mines around it.  Step by step, as the source does it:
     * the move is recorded, `cell` is marked safe and the observation
     * sentence appended (`recorded`); the cells of every count-0 sentence
     * become safes (`afterSafes`); the cells of every sentence then full
     * become mines (`afterMines`); finally sentences are appended until
     * the knowledge is closed under the subset rule.  When the player's
     * beliefs and the revealed count hold of some mine placement `actual`,
     * they still hold of it afterwards.
     */
    method AddKnowledge(cell: Cell, count: int, ghost actual: set<Cell>)
      returns (ghost recorded: seq<Fact>, ghost afterSafes: seq<Fact>, ghost afterMines: seq<Fact>)
      requires Valid() && Sound(actual)
      requires cell !in actual && count == |Neighbours(cell, height, width) * actual|
      modifies this
      ensures Valid() && Sound(actual)
      ensures movesMade == old(movesMade) + {cell}
      ensures recorded == MarkSafeAll(old(knowledge), cell) +
        [Observation(Neighbours(cell, height, width), count, old(mines), old(safes) + {cell})]
      ensures safes == old(safes) + {cell} + ZeroCountCells(recorded, |recorded|)
      ensures SafesRemovedFrom(afterSafes, recorded, ZeroCountCells(recorded, |recorded|))
      ensures mines == old(mines) + FullCountCells(afterSafes, |afterSafes|)
      ensures MinesRemovedFrom(afterMines, afterSafes, FullCountCells(afterSafes, |afterSafes|))
      ensures Derived(knowledge, afterMines) && |knowledge| > |old(knowledge)|
      ensures Closed(knowledge)
    {
      ghost var n := Neighbours(cell, height, width);
      MarkSafeKeepsConsistent(mines, safes, knowledge, cell, actual);
      ObservationTrue(n, count, mines, safes + {cell}, actual);
      var ok := RecordObservation(cell, count);
      // Known mines are mines and known safes are not, so no neighbour is
      // both and the `remove` of the source's exclusion step cannot fail.
      assert n * mines * safes <= actual * (safes - actual);
      assert ok;
      recorded := knowledge;
      InferSafes(actual);
      afterSafes := knowledge;
      InferMines(actual);
      afterMines := knowledge;
      InferSubsets(actual);
    }

    /** The cell `c` is on the board, known safe and not yet played. */
    predicate SafeCandidate(c: Cell)
      reads this
    {
      0 <= c.0 < height && 0 <= c.1 < width && c !in movesMade && c in safes
    }

    /** The cell `c` is on the board, not played and not known to be a mine. */
    predicate OpenCandidate(c: Cell)
      reads this
    {
      0 <= c.0 < height && 0 <= c.1 < width && c !in movesMade && c !in mines
    }

    /** `make_safe_move`: the first known-safe unplayed cell in row-major order, if any. */
    method MakeSafeMove() returns (move: Option<Cell>)
      ensures move.None? ==> forall c :: !SafeCandidate(c)
      ensures move.Some? ==> SafeCandidate(move.value)
      ensures move.Some? ==> forall c | RowMajorBefore(c, move.value) :: !SafeCandidate(c)
    {
      for i := 0 to height
        invariant forall c: Cell | c.0 < i :: !SafeCandidate(c)
      {
        for j := 0 to width
          invariant forall c: Cell | c.0 < i || (c.0 == i && c.1 < j) :: !SafeCandidate(c)
        {
          if (i, j) !in movesMade {
            if (i, j) in safes {
              return Some((i, j));
            }
          }
        }
      }
      return None;
    }

    /**
     * `make_random_move`: despite its name, the first unplayed cell in
     * row-major order that is not a known mine, if any.
     */
    method MakeRandomMove() returns (move: Option<Cell>)
      ensures move.None? ==> forall c :: !OpenCandidate(c)
      ensures move.Some? ==> OpenCandidate(move.value)
      ensures move.Some? ==> forall c | RowMajorBefore(c, move.value) :: !OpenCandidate(c)
    {
      for i := 0 to height
        invariant forall c: Cell | c.0 < i :: !OpenCandidate(c)
      {
        for j := 0 to width
          invariant forall c: Cell | c.0 < i || (c.0 == i && c.1 < j) :: !OpenCandidate(c)
        {
          if (i, j) !in movesMade {
            if (i, j) !in mines {
              return Some((i, j));
            }
          }
        }
      }
      return None;
    }
  }
}
