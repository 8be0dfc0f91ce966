/**
 * The crossword generator's constraint solver
 * (week3/crossword/crossword/generate.py, class `CrosswordCreator`).
 *
 * A crossword is a grid with slots ("variables"), each a run of cells
 * across or down, and a vocabulary.  The solver keeps, for every variable,
 * a domain of candidate words and narrows the domains: by length (node
 * consistency) and by the letters two crossing variables must share (arc
 * consistency).  It then searches depth first for a complete assignment.
 *
 * The `Crossword` and `Variable` classes live in a module of the program
 * that is not part of this model; here they are values with the interface
 * the solver uses: the variables, the words, the overlap of two variables
 * and the neighbours of a variable.
 */
module Generate {
  import opened Optional

  datatype Direction = Across | Down

  /** A slot of the grid: its first cell `(i, j)`, its direction and its length. */
  datatype Variable = Variable(i: nat, j: nat, direction: Direction, length: nat)

  /** The grid cell that holds letter `k` of a word placed in `v`. */
  function Pos(v: Variable, k: int): (int, int)
  {
    (v.i + (if v.direction == Down then k else 0), v.j + (if v.direction == Across then k else 0))
  }

  /**
   * The structure of a puzzle.  `overlaps[(v1, v2)] == (k1, k2)` says that
   * letter `k1` of `v1` and letter `k2` of `v2` share a grid cell; a pair
   * of variables that do not cross has no entry here, where the puzzle
   * module may hold `None` for it.
   */
  datatype Crossword = Crossword(
    height: nat, width: nat,
    variables: set<Variable>,
    words: set<string>,
    overlaps: map<(Variable, Variable), (nat, nat)>)
  {
    /**
     * Every slot lies on the grid and the overlaps are exactly the shared
     * cells of two distinct variables, as the structure loader computes them.
     */
    ghost predicate WellFormed()
    {
      OnGrid() && OverlapsAreCrossings() && CrossingsAreOverlaps()
    }

    ghost predicate OnGrid()
    {
      forall v, k | v in variables && 0 <= k < v.length ::
        0 <= Pos(v, k).0 < height && 0 <= Pos(v, k).1 < width
    }

    /** Each overlap names two distinct variables and a cell they share. */
    ghost predicate OverlapsAreCrossings()
    {
      forall p | p in overlaps ::
        p.0 in variables && p.1 in variables && p.0 != p.1 &&
        overlaps[p].0 < p.0.length && overlaps[p].1 < p.1.length &&
        Pos(p.0, overlaps[p].0) == Pos(p.1, overlaps[p].1)
    }

    /** Each cell two distinct variables share is their overlap. */
    ghost predicate CrossingsAreOverlaps()
    {
      forall v1, v2, k1, k2 {:trigger Pos(v1, k1), Pos(v2, k2)} |
        v1 in variables && v2 in variables && v1 != v2 &&
        0 <= k1 < v1.length && 0 <= k2 < v2.length && Pos(v1, k1) == Pos(v2, k2) ::
        (v1, v2) in overlaps && overlaps[(v1, v2)] == (k1, k2)
    }

    /**
     * `crossword.overlaps[v1, v2]`: in a well-formed puzzle, the letter
     * positions at which two distinct variables share a cell, and None
     * when they share none.
     */
    function Overlap(v1: Variable, v2: Variable): (r: Option<(nat, nat)>)
      ensures WellFormed() && r.Some? ==>
        v1 in variables && v2 in variables && v1 != v2 &&
        r.value.0 < v1.length && r.value.1 < v2.length && Pos(v1, r.value.0) == Pos(v2, r.value.1)
      ensures WellFormed() && v1 in variables && v2 in variables && v1 != v2 ==>
        forall k1, k2 {:trigger Pos(v1, k1), Pos(v2, k2)} |
          0 <= k1 < v1.length && 0 <= k2 < v2.length && Pos(v1, k1) == Pos(v2, k2) :: r == Some((k1, k2))
    {
      assert WellFormed() ==> OverlapsAreCrossings() && CrossingsAreOverlaps();
      if (v1, v2) in overlaps then Some(overlaps[(v1, v2)]) else None
    }

    /**
     * `crossword.neighbors(v)`: in a well-formed puzzle, the other
     * variables that share a cell with `v`.
     */
    function Neighbors(v: Variable): (r: set<Variable>)
      ensures WellFormed() ==> forall w :: w in r <==> w in variables && w != v && v in variables && Cross(v, w)
    {
      assert WellFormed() ==> OverlapsAreCrossings() && CrossingsAreOverlaps();
      set w | w in variables && (v, w) in overlaps
    }
  }

  /** Some letter of `v1` and some letter of `v2` fall on the same grid cell. */
  ghost predicate Cross(v1: Variable, v2: Variable)
  {
    exists k1, k2 | 0 <= k1 < v1.length && 0 <= k2 < v2.length :: Pos(v1, k1) == Pos(v2, k2)
  }

  /** Crossing is symmetric, with the two letter positions swapped. */
  lemma OverlapSymmetric(c: Crossword, x: Variable, y: Variable)
    requires c.WellFormed() && (x, y) in c.overlaps
    ensures (y, x) in c.overlaps && c.overlaps[(y, x)] == (c.overlaps[(x, y)].1, c.overlaps[(x, y)].0)
  {
    var (i, j) := c.overlaps[(x, y)];
    assert c.OverlapsAreCrossings();
    assert x in c.variables && y in c.variables && x != y && i < x.length && j < y.length;
    assert Pos(y, j) == Pos(x, i);
    assert c.CrossingsAreOverlaps();
  }

  /** A variable never crosses itself, and it crosses each of its neighbours back. */
  lemma NeighborsSymmetric(c: Crossword, x: Variable, y: Variable)
    requires c.WellFormed()
    ensures x !in c.Neighbors(x)
    ensures y in c.Neighbors(x) ==> x in c.Neighbors(y)
  {
    if y in c.Neighbors(x) {
      OverlapSymmetric(c, x, y);
    }
  }

  // ---------------------------------------------------------------------
  // Domains

  /** `self.domains`: the candidate words of each variable. */
  type Domains = map<Variable, set<string>>

  /** Letter `i` of `w` and letter `j` of `v` exist and are the same. */
  predicate Agrees(w: string, i: nat, v: string, j: nat)
  {
    i < |w| && j < |v| && w[i] == v[j]
  }

  /** Some word of `dy` has at position `j` the letter `w` has at position `i`. */
  ghost predicate Supported(w: string, i: nat, dy: set<string>, j: nat)
  {
    exists v | v in dy :: Agrees(w, i, v, j)
  }

  /**
   * What `revise(x, y)` leaves in the domain of `x`: where `x` crosses `y`,
   * the words with a partner in the domain of `y`; elsewhere all of them.
   */
  ghost function RevisedDomain(c: Crossword, d: Domains, x: Variable, y: Variable): set<string>
    requires x in d && y in d
  {
    if (x, y) in c.overlaps then
      set w | w in d[x] && Supported(w, c.overlaps[(x, y)].0, d[y], c.overlaps[(x, y)].1)
    else d[x]
  }

  /** Arc `(x, y)` is consistent: every word of `x` has a partner in `y` where they cross. */
  ghost predicate ArcConsistent(c: Crossword, d: Domains, x: Variable, y: Variable)
    requires x in d && y in d
  {
    (x, y) in c.overlaps ==>
      forall w | w in d[x] :: Supported(w, c.overlaps[(x, y)].0, d[y], c.overlaps[(x, y)].1)
  }

  /** Every arc of the puzzle is consistent. */
  ghost predicate AllArcsConsistent(c: Crossword, d: Domains)
    requires c.variables <= d.Keys && c.WellFormed()
  {
    forall x, y | (x, y) in c.overlaps :: ArcConsistent(c, d, x, y)
  }

  /** The letters `revise` compares exist wherever it compares them. */
  ghost predicate Indexable(c: Crossword, d: Domains)
    requires c.variables <= d.Keys && c.WellFormed()
  {
    forall x, y, w | (x, y) in c.overlaps && w in d[x] :: c.overlaps[(x, y)].0 < |w|
  }

  /** After `revise(x, y)` the arc `(x, y)` is consistent. */
  lemma RevisedIsArcConsistent(c: Crossword, d: Domains, x: Variable, y: Variable)
    requires c.WellFormed() && x in d && y in d
    ensures ArcConsistent(c, d[x := RevisedDomain(c, d, x, y)], x, y)
  {
  }

  /** Revising twice removes nothing more. */
  lemma ReviseIdempotent(c: Crossword, d: Domains, x: Variable, y: Variable)
    requires c.WellFormed() && x in d && y in d
    ensures RevisedDomain(c, d[x := RevisedDomain(c, d, x, y)], x, y) == RevisedDomain(c, d, x, y)
  {
  }

  /**
   * Revising `x` against `y` keeps the arc `(y, x)` consistent: a word
   * removed from `x` had no partner in `y`, so it was no word's partner.
   */
  lemma ReviseKeepsReverseArc(c: Crossword, d: Domains, x: Variable, y: Variable)
    requires c.WellFormed() && x in d && y in d && ArcConsistent(c, d, y, x)
    ensures ArcConsistent(c, d[x := RevisedDomain(c, d, x, y)], y, x)
  {
    if (y, x) in c.overlaps {
      OverlapSymmetric(c, y, x);
      var (j, i) := c.overlaps[(y, x)];
      var d' := d[x := RevisedDomain(c, d, x, y)];
      forall v | v in d[y]
        ensures Supported(v, j, d'[x], i)
      {
        var w :| w in d[x] && Agrees(v, j, w, i);
        assert Agrees(w, i, v, j);
        assert w in d'[x];
      }
    }
  }

  /** A consistent arc stays consistent when its first domain shrinks and its second stays. */
  lemma ArcConsistentShrink(c: Crossword, d: Domains, d': Domains, x: Variable, y: Variable)
    requires x in d && y in d && x in d' && y in d'
    requires ArcConsistent(c, d, x, y) && d'[x] <= d[x] && d'[y] == d[y]
    ensures ArcConsistent(c, d', x, y)
  {
  }

  /** Shrinking one domain keeps the letters `revise` compares in range and every domain within `d0`. */
  lemma ShrinkOne(c: Crossword, d0: Domains, d: Domains, x: Variable, s: set<string>)
    requires c.WellFormed() && c.variables <= d.Keys && x in d && s <= d[x]
    requires Indexable(c, d) && forall v | v in d :: v in d0 && d[v] <= d0[v]
    ensures Indexable(c, d[x := s]) && forall v | v in d[x := s] :: d[x := s][v] <= d0[v]
  {
  }

  /** The (variable, word) pairs of all domains; it shrinks whenever a domain does. */
  ghost function Pairs(d: Domains): set<(Variable, string)>
  {
    set v, w | v in d && w in d[v] :: (v, w)
  }

  lemma PairsShrink(d: Domains, x: Variable, s: set<string>)
    requires x in d && s < d[x]
    ensures Pairs(d[x := s]) < Pairs(d)
  {
    var w :| w in d[x] && w !in s;
    assert (x, w) in Pairs(d) - Pairs(d[x := s]);
  }

  /** `enforce_node_consistency`'s result: every domain keeps only the words of its variable's length. */
  ghost function NodeConsistentDomains(d: Domains): (r: Domains)
    ensures r.Keys == d.Keys
    ensures forall v | v in r :: r[v] <= d[v] && forall w | w in r[v] :: |w| == v.length
  {
    map v | v in d :: set w | w in d[v] && |w| == v.length
  }

  /** Node consistency is reached in one pass: a second pass changes nothing. */
  lemma NodeConsistencyIdempotent(d: Domains)
    ensures NodeConsistentDomains(NodeConsistentDomains(d)) == NodeConsistentDomains(d)
  {
    var once := NodeConsistentDomains(d);
    var twice := NodeConsistentDomains(once);
    forall v | v in once
      ensures twice[v] == once[v]
    {
      assert forall w :: w in twice[v] <==> w in once[v];
    }
  }

  /** Node-consistent domains can be revised without an index error. */
  lemma NodeConsistentIndexable(c: Crossword, d: Domains)
    requires c.WellFormed() && c.variables <= d.Keys
    requires forall v, w | v in d && w in d[v] :: |w| == v.length
    ensures Indexable(c, d)
  {
  }

  // ---------------------------------------------------------------------
  // Assignments

  /**
   * The assignment `backtrack` builds: a variable maps to a word, or to
   * `None` once a word for it has been tried and failed (the source writes
   * `None` rather than deleting the key).
   */
  type Assignment = map<Variable, Option<string>>

  /** `assignment_complete`: every variable holds a vocabulary word. */
  predicate Complete(c: Crossword, a: Assignment)
  {
    forall v | v in c.variables :: v in a && a[v].Some? && a[v].value in c.words
  }

  /**
   * What `consistent` promises in its doc-comment: every word has its
   * variable's length, no word is used twice, and crossing words agree on
   * the shared letter.
   */
  ghost predicate Consistent(c: Crossword, a: map<Variable, string>)
  {
    (forall v | v in a :: |a[v]| == v.length) &&
    (forall v1, v2 | v1 in a && v2 in a && v1 != v2 :: a[v1] != a[v2]) &&
    (forall v1, v2 | v1 in a && v2 in a && (v1, v2) in c.overlaps ::
      Agrees(a[v1], c.overlaps[(v1, v2)].0, a[v2], c.overlaps[(v1, v2)].1))
  }

  /**
   * What `consistent` computes (lines 182-197): the same length and
   * repetition tests, but line 195 returns False when the crossing letters
   * are the SAME, the opposite of the doc-comment.
   */
  ghost predicate ConsistentAsWritten(c: Crossword, a: map<Variable, string>)
  {
    (forall v | v in a :: |a[v]| == v.length) &&
    (forall v1, v2 | v1 in a && v2 in a && v1 != v2 :: a[v1] != a[v2]) &&
    (forall v1, v2 | v1 in a && v2 in a && (v1, v2) in c.overlaps ::
      !Agrees(a[v1], c.overlaps[(v1, v2)].0, a[v2], c.overlaps[(v1, v2)].1))
  }

  /**
   * As written, `consistent` rejects every assignment that fills two
   * crossing variables correctly, so it accepts no solution of a puzzle
   * with a crossing.
   */
  lemma ConsistentAsWrittenRejectsCrossings(c: Crossword, a: map<Variable, string>, x: Variable, y: Variable)
    requires Consistent(c, a) && x in a && y in a && (x, y) in c.overlaps
    ensures !ConsistentAsWritten(c, a)
  {
    assert Agrees(a[x], c.overlaps[(x, y)].0, a[y], c.overlaps[(x, y)].1);
  }

  /**
   * A revision never removes the word a solution gives `x`: in a
   * consistent assignment drawn from the domains, that word has the word
   * of `y` as its partner.
   */
  lemma ReviseKeepsSolutions(c: Crossword, d: Domains, x: Variable, y: Variable, a: map<Variable, string>)
    requires x in d && y in d && x in a && y in a
    requires Consistent(c, a) && a[x] in d[x] && a[y] in d[y]
    ensures a[x] in RevisedDomain(c, d, x, y)
  {
    if (x, y) in c.overlaps {
      assert Agrees(a[x], c.overlaps[(x, y)].0, a[y], c.overlaps[(x, y)].1);
    }
  }

  // ---------------------------------------------------------------------
  // The letter grid

  /** The letters the words of the variables `keys` of `a` place in grid cell `(r, col)`. */
  ghost function WrittenBy(a: map<Variable, string>, keys: set<Variable>, r: int, col: int): set<char>
  {
    set v, k | v in keys && v in a && 0 <= k < |a[v]| && Pos(v, k) == (r, col) :: a[v][k]
  }

  /** The letters the words of `a` place in grid cell `(r, col)`. */
  ghost function Written(a: map<Variable, string>, r: int, col: int): set<char>
  {
    WrittenBy(a, a.Keys, r, col)
  }

  /**
   * In a consistent assignment of well-formed variables every cell holds
   * one letter: two words that cover the same cell cross there and agree.
   */
  lemma {:induction false} ConsistentGridExact(c: Crossword, a: map<Variable, string>, v: Variable, k: nat)
    requires c.WellFormed() && a.Keys <= c.variables && Consistent(c, a)
    requires v in a && k < |a[v]|
    ensures Written(a, Pos(v, k).0, Pos(v, k).1) == {a[v][k]}
  {
    var (r, col) := Pos(v, k);
    forall ch | ch in Written(a, r, col)
      ensures ch == a[v][k]
    {
      var v2, k2 :| v2 in a && 0 <= k2 < |a[v2]| && Pos(v2, k2) == (r, col) && a[v2][k2] == ch;
      if v2 != v {
        assert (v, v2) in c.overlaps && c.overlaps[(v, v2)] == (k, k2);
        assert Agrees(a[v], k, a[v2], k2);
      }
    }
    assert a[v][k] in Written(a, r, col);
  }

  /** The grid of a consistent assignment shows every letter of every word. */
  lemma ConsistentGrid(c: Crossword, a: map<Variable, string>, g: seq<seq<Option<char>>>)
    requires c.WellFormed() && a.Keys <= c.variables && Consistent(c, a)
    requires GridShows(a, a.Keys, c.height, c.width, g)
    ensures forall v, k | v in a && 0 <= k < |a[v]| :: g[Pos(v, k).0][Pos(v, k).1] == Some(a[v][k])
  {
    forall v, k | v in a && 0 <= k < |a[v]|
      ensures g[Pos(v, k).0][Pos(v, k).1] == Some(a[v][k])
    {
      ConsistentGridExact(c, a, v, k);
      var (r, col) := Pos(v, k);
      assert c.OnGrid();
      assert 0 <= r < c.height && 0 <= col < c.width;
      assert WrittenBy(a, a.Keys, r, col) == {a[v][k]};
    }
  }

  /** A subset is no larger than its superset, and as large only when it is the whole superset. */
  lemma {:induction false} SubsetSize<T>(s: set<T>, t: set<T>)
    requires s <= t
    ensures |s| <= |t|
    ensures |s| == |t| ==> s == t
  {
    if s != {} {
      var e :| e in s;
      SubsetSize(s - {e}, t - {e});
    } else if t != {} {
      var e :| e in t;
      assert e !in s;
    }
  }

  /** No element of `s` occurs twice. */
  ghost predicate Distinct<T>(s: seq<T>)
  {
    forall i, j | 0 <= i < j < |s| :: s[i] != s[j]
  }

  /** A sequence without repetitions holding exactly the elements of `t` is an ordering of `t`. */
  lemma {:induction false} DistinctMultiset<T>(s: seq<T>, t: set<T>)
    requires Distinct(s) && forall x :: x in s <==> x in t
    ensures multiset(s) == multiset(t)
  {
    if s != [] {
      var init, last := s[..|s| - 1], s[|s| - 1];
      assert s == init + [last];
      assert last !in init;
      assert forall x :: x in init <==> x in t - {last};
      DistinctMultiset(init, t - {last});
      assert t == (t - {last}) + {last};
    } else {
      assert t == {};
    }
  }

  /**
   * The count `revise` makes for one word `w` of `x`: how many words of the
   * domain of `y` disagree with it where the two cross.  Every one of them
   * does exactly when `w` has no partner.
   */
  method CountDisagreeing(w: string, i: nat, dy: set<string>, j: nat) returns (count: nat)
    requires dy != {} ==> i < |w| && forall v | v in dy :: j < |v|
    ensures count <= |dy|
    ensures count == |dy| <==> !Supported(w, i, dy, j)
  {
    count := 0;
    var rest := dy;
    ghost var disagreeing: set<string> := {};
    while rest != {}
      invariant rest <= dy
      invariant disagreeing <= dy - rest
      invariant forall v | v in dy - rest :: v in disagreeing <==> !Agrees(w, i, v, j)
      invariant count == |disagreeing|
      decreases rest
    {
      var v :| v in rest;
      if w[i] != v[j] {
        disagreeing := disagreeing + {v};
        count := count + 1;
      }
      rest := rest - {v};
    }
    SubsetSize(disagreeing, dy);
    if count != |dy| {
      assert disagreeing != dy;
      ghost var v :| v in dy && v !in disagreeing;
      assert Agrees(w, i, v, j);
    }
  }

  /**
   * The arcs AC-3 must make consistent: every arc when it starts from all
   * of them, otherwise the arcs it is given and those already consistent.
   */
  ghost predicate StartsQueued(c: Crossword, arcs: Option<seq<(Variable, Variable)>>, d0: Domains, x: Variable, y: Variable)
    requires x in d0 && y in d0
  {
    arcs.None? || (x, y) in arcs.value || ArcConsistent(c, d0, x, y)
  }

  /** Every arc of `queue` joins two variables of the puzzle. */
  ghost predicate ArcsBetween(c: Crossword, queue: seq<(Variable, Variable)>)
  {
    forall p | p in queue :: p.0 in c.variables && p.1 in c.variables
  }

  /** AC-3's worklist invariant: each arc it must make consistent is still queued or already consistent. */
  ghost predicate QueueInvariant(c: Crossword, arcs: Option<seq<(Variable, Variable)>>, d0: Domains, d: Domains,
                                 queue: seq<(Variable, Variable)>, k: nat)
    requires c.WellFormed() && c.variables <= d0.Keys && c.variables <= d.Keys && k <= |queue|
  {
    forall x, y | (x, y) in c.overlaps && StartsQueued(c, arcs, d0, x, y) ::
      (x, y) in queue[k..] || ArcConsistent(c, d, x, y)
  }

  /**
   * One step of AC-3 keeps the worklist invariant: arc `queue[k] == (x, y)`
   * is revised and, if that shrank the domain of `x`, every arc `(z, x)`
   * with `z` a neighbour of `x` other than `y` is queued.
   */
  lemma QueueInvariantStep(c: Crossword, arcs: Option<seq<(Variable, Variable)>>, d0: Domains,
                           before: Domains, after: Domains,
                           queue: seq<(Variable, Variable)>, queue': seq<(Variable, Variable)>, k: nat)
    requires c.WellFormed() && c.variables <= d0.Keys && before.Keys == after.Keys == c.variables
    requires k < |queue| && queue[k].0 in before && queue[k].1 in before
    requires after == before[queue[k].0 := RevisedDomain(c, before, queue[k].0, queue[k].1)]
    requires |queue| <= |queue'| && queue'[..|queue|] == queue
    requires after[queue[k].0] != before[queue[k].0] ==>
      forall z | z in c.Neighbors(queue[k].0) && z != queue[k].1 :: (z, queue[k].0) in queue'[|queue|..]
    requires QueueInvariant(c, arcs, d0, before, queue, k)
    ensures QueueInvariant(c, arcs, d0, after, queue', k + 1)
  {
    var (x, y) := queue[k];
    forall a, b | (a, b) in c.overlaps && StartsQueued(c, arcs, d0, a, b)
      ensures (a, b) in queue'[k + 1..] || ArcConsistent(c, after, a, b)
    {
      if (a, b) == (x, y) {
        RevisedIsArcConsistent(c, before, x, y);
      } else if (a, b) in queue[k..] {
        var n :| k <= n < |queue| && queue[n] == (a, b);
        assert queue'[n] == (a, b);
      } else if b != x {
        ArcConsistentShrink(c, before, after, a, b);
      } else if a == y {
        ReviseKeepsReverseArc(c, before, x, y);
      } else if after[x] != before[x] {
        OverlapSymmetric(c, a, x);
        assert a in c.Neighbors(x);
        var n :| |queue| <= n < |queue'| && queue'[n] == (a, x);
      } else {
        assert after == before;
      }
    }
  }

  // ---------------------------------------------------------------------
  // Ordering the values of a variable

  /**
   * The number `order_domain_values` computes for the word `w` of `v`: how
   * many neighbours of `v` still have `w` in their domain.
   */
  ghost function RuledOut(c: Crossword, d: Domains, v: Variable, w: string): nat
  {
    |set n | n in c.Neighbors(v) && n in d && w in d[n]|
  }

  /** The inner loop of `order_domain_values`: count the neighbours of `v` whose domain holds `w`. */
  method CountRuledOut(c: Crossword, d: Domains, v: Variable, w: string) returns (count: nat)
    requires c.Neighbors(v) <= d.Keys
    ensures count == RuledOut(c, d, v, w)
  {
    count := 0;
    ghost var holding: set<Variable> := {};
    var rest := c.Neighbors(v);
    while rest != {}
      invariant rest <= c.Neighbors(v)
      invariant forall n :: n in holding <==> n in c.Neighbors(v) && n !in rest && w in d[n]
      invariant count == |holding|
      decreases rest
    {
      var n :| n in rest;
      if w in d[n] {
        holding := holding + {n};
        count := count + 1;
      }
      rest := rest - {n};
    }
    assert holding == set n | n in c.Neighbors(v) && n in d && w in d[n];
  }

  /**
   * The dict `order_domain_values` fills: the words of the domain of `v`
   * in the order they are visited (`order`) and the count of each.
   */
  method RuledOutCounts(c: Crossword, d: Domains, v: Variable) returns (order: seq<string>, counts: map<string, nat>)
    requires v in d && c.Neighbors(v) <= d.Keys
    ensures Distinct(order) && forall w :: w in order <==> w in d[v]
    ensures forall i | 0 <= i < |order| :: order[i] in counts
    ensures forall w | w in counts :: counts[w] == RuledOut(c, d, v, w)
  {
    counts := map[];
    order := [];
    var rest := d[v];
    while rest != {}
      invariant rest <= d[v]
      invariant forall w :: w in order <==> w in d[v] && w !in rest
      invariant Distinct(order)
      invariant forall i | 0 <= i < |order| :: order[i] in counts
      invariant forall w | w in counts :: counts[w] == RuledOut(c, d, v, w)
      decreases rest
    {
      var w :| w in rest;
      var count := CountRuledOut(c, d, v, w);
      counts := counts[w := count];
      order := order + [w];
      rest := rest - {w};
    }
  }

  /**
   * Sorted by the counts of the dict, an ordering of the domain of `v` is
   * sorted by how many neighbours each word rules out, the first word
   * ruling out the fewest.
   */
  lemma SortedByRuledOut(c: Crossword, d: Domains, v: Variable, values: seq<string>, counts: map<string, nat>)
    requires v in d && multiset(values) == multiset(d[v]) && SortedByCount(values, counts)
    requires forall w | w in counts :: counts[w] == RuledOut(c, d, v, w)
    ensures forall i, j | 0 <= i < j < |values| :: RuledOut(c, d, v, values[i]) <= RuledOut(c, d, v, values[j])
    ensures values != [] ==> forall w | w in d[v] :: RuledOut(c, d, v, values[0]) <= RuledOut(c, d, v, w)
  {
    forall w | w in d[v] && values != []
      ensures RuledOut(c, d, v, values[0]) <= RuledOut(c, d, v, w)
    {
      assert w in multiset(values);
      var n :| 0 <= n < |values| && values[n] == w;
      if n > 0 {
        assert counts[values[0]] <= counts[values[n]];
      }
    }
  }

  /** Every word of `s` has a count, and the counts never decrease along `s`. */
  ghost predicate SortedByCount(s: seq<string>, count: map<string, nat>)
  {
    (forall i | 0 <= i < |s| :: s[i] in count) &&
    forall i, j | 0 <= i < j < |s| :: count[s[i]] <= count[s[j]]
  }

  /**
   * Insert `w` into `s` after the last word whose count is not larger
   * than the count of `w`, as a stable sort places a later element.
   */
  function InsertByCount(s: seq<string>, w: string, count: map<string, nat>): (r: seq<string>)
    requires w in count && forall i | 0 <= i < |s| :: s[i] in count
    ensures |r| == |s| + 1
    ensures forall i | 0 <= i < |r| :: r[i] == w || r[i] in s
    ensures multiset(r) == multiset(s) + multiset{w}
  {
    if s == [] then [w]
    else if count[s[|s| - 1]] <= count[w] then s + [w]
    else
      var init, last := s[..|s| - 1], s[|s| - 1];
      assert s == init + [last];
      InsertByCount(init, w, count) + [last]
  }

  /** Inserting into a sorted sequence keeps it sorted. */
  lemma {:induction false} InsertSorted(s: seq<string>, w: string, count: map<string, nat>)
    requires w in count && SortedByCount(s, count)
    ensures SortedByCount(InsertByCount(s, w, count), count)
  {
    if s == [] {
    } else if count[s[|s| - 1]] <= count[w] {
      AppendSorted(s, w, count);
    } else {
      var init, last := s[..|s| - 1], s[|s| - 1];
      var front := InsertByCount(init, w, count);
      InsertSorted(init, w, count);
      assert forall i | 0 <= i < |front| :: count[front[i]] <= count[last];
      AppendSorted(front, last, count);
    }
  }

  /** A word whose count bounds every count of a sorted sequence can follow it. */
  lemma AppendSorted(s: seq<string>, last: string, count: map<string, nat>)
    requires SortedByCount(s, count) && last in count
    requires forall i | 0 <= i < |s| :: count[s[i]] <= count[last]
    ensures SortedByCount(s + [last], count)
  {
  }

  /** `sorted(words, key=count)`: Python's stable sort, as insertion sort. */
  function SortByCount(words: seq<string>, count: map<string, nat>): (r: seq<string>)
    requires forall w | w in words :: w in count
    ensures multiset(r) == multiset(words)
    ensures SortedByCount(r, count)
  {
    if words == [] then []
    else
      assert words == words[..|words| - 1] + [words[|words| - 1]];
      var sorted := SortByCount(words[..|words| - 1], count);
      InsertSorted(sorted, words[|words| - 1], count);
      InsertByCount(sorted, words[|words| - 1], count)
  }

  // ---------------------------------------------------------------------
  // Search

  /** Every key holds a vocabulary word: no failed attempt is recorded as `None`. */
  predicate AllWords(c: Crossword, a: Assignment)
  {
    forall v | v in a :: a[v].Some? && a[v].value in c.words
  }

  /**
   * `a'` is `a` grown by the search: the keys of `a` keep their entries
   * and each new key is a variable holding `None` or a word of its domain.
   */
  ghost predicate Extends(c: Crossword, d: Domains, a: Assignment, a': Assignment)
  {
    a.Keys <= a'.Keys && (forall v | v in a :: a'[v] == a[v]) &&
    forall v | v in a' && v !in a :: v in c.variables && v in d && (a'[v].Some? ==> a'[v].value in d[v])
  }

  lemma ExtendsTransitive(c: Crossword, d: Domains, a: Assignment, b: Assignment, e: Assignment)
    requires Extends(c, d, a, b) && Extends(c, d, b, e)
    ensures Extends(c, d, a, e)
  {
  }

  /** Writing an unassigned variable of the puzzle keeps an extension one. */
  lemma ExtendsWrite(c: Crossword, d: Domains, a: Assignment, a': Assignment, x: Variable, value: Option<string>)
    requires Extends(c, d, a, a') && x !in a && x in c.variables && x in d
    requires value.Some? ==> value.value in d[x]
    ensures Extends(c, d, a, a'[x := value])
  {
  }

  /** Some unassigned variable has no word left: the search fails at once. */
  ghost predicate DeadEnd(c: Crossword, d: Domains, a: Assignment)
  {
    exists v | v in c.variables && v !in a :: v in d && d[v] == {}
  }

  /** Every key holds a word and every unassigned variable has a word left: the search succeeds. */
  ghost predicate Open(c: Crossword, d: Domains, a: Assignment)
  {
    AllWords(c, a) && forall v | v in c.variables && v !in a :: v in d && d[v] != {}
  }

  /** Giving an unassigned variable a word keeps the search open. */
  lemma OpenWrite(c: Crossword, d: Domains, a: Assignment, x: Variable, w: string)
    requires Open(c, d, a) && w in c.words
    ensures Open(c, d, a[x := Some(w)])
  {
  }

  /**
   * How `backtrack` ends: it returns the (complete) assignment, it returns
   * None, or `select_unassigned_variable` raises IndexError because every
   * variable is a key although some holds `None`.
   */
  datatype Search = Solved | Failed | Stuck

  // ---------------------------------------------------------------------
  // Filling the letter grid

  /**
   * The letter index at which `v` covers cell `(r, col)`, or -1 when the
   * cell is not on the line `v` lies on.
   */
  function LineIndex(v: Variable, r: int, col: int): (k: int)
    ensures k >= 0 ==> Pos(v, k) == (r, col)
    ensures forall k' | k' >= 0 && Pos(v, k') == (r, col) :: k' == k
  {
    if v.direction == Down then
      (if col == v.j && r >= v.i then r - v.i else -1)
    else
      (if r == v.i && col >= v.j then col - v.j else -1)
  }

  /** `g` is a `h` by `w` grid. */
  ghost predicate Grid<T>(g: seq<seq<T>>, h: nat, w: nat)
  {
    |g| == h && forall r | 0 <= r < h :: |g[r]| == w
  }

  /**
   * The grid holds what the words of the variables `keys` write: a cell
   * is empty exactly when no word covers it, and otherwise holds one of
   * the letters written there.
   */
  ghost predicate GridShows(a: map<Variable, string>, keys: set<Variable>, h: nat, w: nat, g: seq<seq<Option<char>>>)
  {
    Grid(g, h, w) &&
    forall r, col | 0 <= r < h && 0 <= col < w ::
      (g[r][col].None? <==> WrittenBy(a, keys, r, col) == {}) &&
      (g[r][col].Some? ==> g[r][col].value in WrittenBy(a, keys, r, col))
  }

  /** `g` is `before` with the first `k` letters of `word` written along `v`. */
  ghost predicate LineWritten(v: Variable, word: string, k: nat, before: seq<seq<Option<char>>>, g: seq<seq<Option<char>>>)
    requires k <= |word|
  {
    |g| == |before| && (forall r | 0 <= r < |g| :: |g[r]| == |before[r]|) &&
    forall r, col | 0 <= r < |g| && 0 <= col < |g[r]| ::
      g[r][col] == if 0 <= LineIndex(v, r, col) < k then Some(word[LineIndex(v, r, col)]) else before[r][col]
  }

  /** Writing the word of one more variable extends what the grid shows by that word. */
  lemma GridStep(a: map<Variable, string>, keys: set<Variable>, h: nat, w: nat, v: Variable,
                 before: seq<seq<Option<char>>>, after: seq<seq<Option<char>>>)
    requires v in a && GridShows(a, keys, h, w, before)
    requires LineWritten(v, a[v], |a[v]|, before, after)
    ensures GridShows(a, keys + {v}, h, w, after)
  {
    forall r, col | 0 <= r < h && 0 <= col < w
      ensures (after[r][col].None? <==> WrittenBy(a, keys + {v}, r, col) == {}) &&
              (after[r][col].Some? ==> after[r][col].value in WrittenBy(a, keys + {v}, r, col))
    {
      var t := LineIndex(v, r, col);
      if 0 <= t < |a[v]| {
        assert a[v][t] in WrittenBy(a, keys + {v}, r, col);
      } else {
        assert WrittenBy(a, keys + {v}, r, col) == WrittenBy(a, keys, r, col);
      }
    }
  }

  // ---------------------------------------------------------------------
  // The solver

  class CrosswordCreator {
    const crossword: Crossword
    /** `self.domains`: each variable's candidate words. */
    var domains: Domains

    /**
     * The puzzle is well formed, every variable and nothing else has a
     * domain, and domains hold vocabulary words only.
     */
    ghost predicate Valid()
      reads this
    {
      crossword.WellFormed() && domains.Keys == crossword.variables &&
      forall v | v in domains :: domains[v] <= crossword.words
    }

    /** `__init__`: every variable starts with the whole vocabulary. */
    constructor (crossword: Crossword)
      requires crossword.WellFormed()
      ensures Valid()
      ensures this.crossword == crossword
      ensures domains == map v | v in crossword.variables :: crossword.words
    {
      this.crossword := crossword;
      domains := map v | v in crossword.variables :: crossword.words;
    }

    /**
     * `enforce_node_consistency`: drop from each domain the words whose
     * length is not the variable's.
     */
    method EnforceNodeConsistency()
      requires Valid()
      modifies this
      ensures Valid()
      ensures domains == NodeConsistentDomains(old(domains))
    {
      var variables := domains.Keys;
      while variables != {}
        invariant variables <= domains.Keys == old(domains).Keys
        invariant forall v | v in domains && v in variables :: domains[v] == old(domains)[v]
        invariant forall v | v in domains && v !in variables :: domains[v] == NodeConsistentDomains(old(domains))[v]
        decreases variables
      {
        var variable :| variable in variables;
        var length := variable.length;
        var copy := domains[variable];
        var kept := domains[variable];
        while copy != {}
          modifies {}
          invariant copy <= domains[variable]
          invariant forall w :: w in kept <==> w in domains[variable] && (w in copy || |w| == length)
          decreases copy
        {
          var word :| word in copy;
          if |word| != length {
            kept := kept - {word};
          }
          copy := copy - {word};
        }
        domains := domains[variable := kept];
        variables := variables - {variable};
      }
    }

    /**
     * `revise(x, y)`: remove from the domain of `x` every word that no word
     * of the domain of `y` agrees with where `x` crosses `y`; report whether
     * anything was removed.  The source scans the keys of the overlap table
     * for `(x, y)`, which finds at most this one entry.
     */
    method Revise(x: Variable, y: Variable) returns (revised: bool)
      requires Valid() && x in domains && y in domains
      requires (x, y) in crossword.overlaps && domains[x] != {} && domains[y] != {} ==>
        (forall w | w in domains[x] :: crossword.overlaps[(x, y)].0 < |w|) &&
        (forall v | v in domains[y] :: crossword.overlaps[(x, y)].1 < |v|)
      modifies this
      ensures Valid()
      ensures domains == old(domains)[x := RevisedDomain(crossword, old(domains), x, y)]
      ensures revised <==> domains[x] != old(domains)[x]
    {
      revised := false;
      var domainsx := domains[x];
      var domainsy := domains[y];
      var kept := domainsx;
      if (x, y) in crossword.overlaps {
        var (i, j) := crossword.overlaps[(x, y)];
        var rest := domainsx;
        while rest != {}
          modifies {}
          invariant rest <= domainsx
          invariant forall w :: w in kept <==> w in domainsx && (w in rest || Supported(w, i, domainsy, j))
          invariant revised <==> kept != domainsx
          decreases rest
        {
          var valueX :| valueX in rest;
          var count := CountDisagreeing(valueX, i, domainsy, j);
          if count == |domainsy| {
            kept := kept - {valueX};
            revised := true;
          }
          rest := rest - {valueX};
        }
      }
      assert kept == RevisedDomain(crossword, old(domains), x, y);
      domains := domains[x := kept];
    }

    /** The ordered pairs of crossing variables, in some order. */
    method AllArcs() returns (arcs: seq<(Variable, Variable)>)
      ensures forall p :: p in arcs <==> p in crossword.overlaps
    {
      arcs := [];
      var rest := crossword.overlaps.Keys;
      while rest != {}
        invariant rest <= crossword.overlaps.Keys
        invariant forall p :: p in arcs <==> p in crossword.overlaps && p !in rest
        decreases rest
      {
        var p :| p in rest;
        arcs := arcs + [p];
        rest := rest - {p};
      }
    }

    /**
     * `ac3` as its doc-comment describes it: revise arcs from a worklist,
     * starting from every arc or from `arcs`; whenever the domain of `x`
     * shrinks, queue the arcs `(z, x)` of its other neighbours, and stop
     * with False as soon as a domain is empty.
     *
     * The source's body differs (see `AC3AsWritten`):
     *  - lines 149-151 build the initial list from pairs of WORDS, not of variables;
     *  - when `arcs` is None that list is never processed, so the call returns True at once;
     *  - line 154 calls `revised`, a name that is not defined, in place of `self.revise`;
     *  - line 162 queues `(x, neighbor)`; it is the arcs `(neighbor, x)` a smaller
     *    domain of `x` can break, and those are queued here.
     */
    method AC3(arcs: Option<seq<(Variable, Variable)>>) returns (r: bool)
      requires Valid() && Indexable(crossword, domains)
      requires arcs.Some? ==> ArcsBetween(crossword, arcs.value)
      modifies this
      ensures Valid() && Indexable(crossword, domains)
      ensures forall v | v in domains :: domains[v] <= old(domains)[v]
      ensures !r ==> exists v | v in domains :: domains[v] == {}
      ensures r ==> forall x, y | (x, y) in crossword.overlaps && StartsQueued(crossword, arcs, old(domains), x, y) ::
        ArcConsistent(crossword, domains, x, y)
    {
      var queue: seq<(Variable, Variable)>;
      if arcs.None? {
        queue := AllArcs();
      } else {
        queue := arcs.value;
      }
      ghost var d0 := domains;
      var k := 0;
      while k < |queue|
        invariant k <= |queue|
        invariant Valid() && Indexable(crossword, domains)
        invariant ArcsBetween(crossword, queue)
        invariant forall v | v in domains :: domains[v] <= d0[v]
        invariant QueueInvariant(crossword, arcs, d0, domains, queue, k)
        decreases Pairs(domains), |queue| - k
      {
        var emptied;
        emptied, queue := AC3Step(arcs, d0, queue, k);
        if emptied {
          return false;
        }
        k := k + 1;
      }
      r := true;
    }

    /**
     * One turn of AC-3's worklist loop: revise the arc `queue[k]`, stop if
     * that emptied a domain, and queue the arcs the smaller domain may break.
     */
    method AC3Step(ghost arcs: Option<seq<(Variable, Variable)>>, ghost d0: Domains,
                   queue: seq<(Variable, Variable)>, k: nat)
      returns (emptied: bool, queue': seq<(Variable, Variable)>)
      requires Valid() && Indexable(crossword, domains) && d0.Keys == crossword.variables
      requires k < |queue| && ArcsBetween(crossword, queue)
      requires forall v | v in domains :: domains[v] <= d0[v]
      requires QueueInvariant(crossword, arcs, d0, domains, queue, k)
      modifies this
      ensures Valid() && Indexable(crossword, domains)
      ensures forall v | v in domains :: domains[v] <= d0[v]
      ensures emptied ==> exists v | v in domains :: domains[v] == {}
      ensures !emptied ==> k < |queue'| && ArcsBetween(crossword, queue')
      ensures !emptied ==> QueueInvariant(crossword, arcs, d0, domains, queue', k + 1)
      ensures Pairs(domains) < old(Pairs(domains)) || (Pairs(domains) == old(Pairs(domains)) && queue' == queue)
    {
      var (x, y) := queue[k];
      ghost var before := domains;
      if (x, y) in crossword.overlaps {
        OverlapSymmetric(crossword, x, y);
      }
      var changed := Revise(x, y);
      ShrinkOne(crossword, d0, before, x, domains[x]);
      emptied := false;
      queue' := queue;
      if !changed {
        assert domains == before;
      } else {
        PairsShrink(before, x, domains[x]);
        if |domains[x]| == 0 {
          emptied := true;
          return;
        }
        queue' := QueueNeighborArcs(queue, x, y);
      }
      QueueInvariantStep(crossword, arcs, d0, before, domains, queue, queue', k);
    }

    /** Queue the arc `(neighbor, x)` of every neighbour of `x` other than `y`. */
    method QueueNeighborArcs(queue: seq<(Variable, Variable)>, x: Variable, y: Variable)
      returns (queue': seq<(Variable, Variable)>)
      requires x in crossword.variables && ArcsBetween(crossword, queue)
      ensures ArcsBetween(crossword, queue')
      ensures |queue| <= |queue'| && queue'[..|queue|] == queue
      ensures forall z | z in crossword.Neighbors(x) && z != y :: (z, x) in queue'[|queue|..]
      ensures forall p | p in queue'[|queue|..] :: p.0 in crossword.Neighbors(x) && p.0 != y && p.1 == x
    {
      queue' := queue;
      var neighbors := crossword.Neighbors(x);
      while neighbors != {}
        invariant neighbors <= crossword.Neighbors(x)
        invariant ArcsBetween(crossword, queue')
        invariant |queue| <= |queue'| && queue'[..|queue|] == queue
        invariant forall z | z in crossword.Neighbors(x) && z !in neighbors && z != y :: (z, x) in queue'[|queue|..]
        invariant forall p | p in queue'[|queue|..] :: p.0 in crossword.Neighbors(x) && p.0 != y && p.1 == x
        decreases neighbors
      {
        var neighbor :| neighbor in neighbors;
        if neighbor != y {
          ghost var added := queue'[|queue|..];
          queue' := queue' + [(neighbor, x)];
          assert queue'[|queue|..] == added + [(neighbor, x)];
        }
        neighbors := neighbors - {neighbor};
      }
    }

    /**
     * `ac3` as written: with no arcs it builds a list of word pairs, never
     * reads it and returns True; with a non-empty list it stops at the
     * first arc on the undefined name `revised` (`None` here).  It never
     * changes a domain.
     */
    method AC3AsWritten(arcs: Option<seq<(Variable, Variable)>>) returns (r: Option<bool>)
      ensures r.None? <==> arcs.Some? && arcs.value != []
      ensures r.Some? ==> r.value
    {
      if arcs.None? {
        r := Some(true);
      } else if arcs.value != [] {
        r := None;
      } else {
        r := Some(true);
      }
    }

    /**
     * `assignment_complete`: False at the first variable that has no key or
     * whose value is not a vocabulary word (a `None` value is not a word).
     */
    method AssignmentComplete(a: Assignment) returns (r: bool)
      ensures r <==> Complete(crossword, a)
    {
      var rest := crossword.variables;
      while rest != {}
        invariant rest <= crossword.variables
        invariant forall v | v in crossword.variables && v !in rest :: v in a && a[v].Some? && a[v].value in crossword.words
        decreases rest
      {
        var v :| v in rest;
        if v !in a || a[v].None? || a[v].value !in crossword.words {
          return false;
        }
        rest := rest - {v};
      }
      return true;
    }

    /**
     * `consistent`, as its doc-comment states it: every word fits its
     * variable, no word is used twice and crossing words share the letter
     * where they cross.  Line 195 of the source returns False when the
     * crossing letters are equal instead (see `ConsistentAsWritten`), and
     * line 192 calls `overlaps` as a function although it is a dictionary.
     */
    method IsConsistent(a: map<Variable, string>) returns (r: bool)
      requires Valid()
      ensures r <==> Consistent(crossword, a)
    {
      assert crossword.OverlapsAreCrossings();
      var outer := a.Keys;
      while outer != {}
        invariant outer <= a.Keys
        invariant forall v | v in a && v !in outer :: |a[v]| == v.length
        invariant forall v1, v2 | v1 in a && v1 !in outer && v2 in a :: PairFits(a, v1, v2)
        decreases outer
      {
        var v1 :| v1 in outer;
        if |a[v1]| != v1.length {
          return false;
        }
        var inner := a.Keys;
        while inner != {}
          invariant inner <= a.Keys
          invariant forall v2 | v2 in a && v2 !in inner :: PairFits(a, v1, v2)
          decreases inner
        {
          var v2 :| v2 in inner;
          if v1 != v2 {
            if a[v1] == a[v2] {
              return false;
            }
            var overlap := crossword.Overlap(v1, v2);
            if overlap.Some? && !Agrees(a[v1], overlap.value.0, a[v2], overlap.value.1) {
              return false;
            }
          }
          inner := inner - {v2};
        }
        outer := outer - {v1};
      }
      return true;
    }

    /** The words of two distinct variables differ and agree where the variables cross. */
    ghost predicate PairFits(a: map<Variable, string>, v1: Variable, v2: Variable)
      requires v1 in a && v2 in a
      reads this
    {
      v1 != v2 ==>
        a[v1] != a[v2] &&
        ((v1, v2) in crossword.overlaps ==>
          Agrees(a[v1], crossword.overlaps[(v1, v2)].0, a[v2], crossword.overlaps[(v1, v2)].1))
    }

    /**
     * `select_unassigned_variable`: an unassigned variable with the fewest
     * words left.  The source sorts the unassigned variables by domain size
     * and keeps the head of that stable sort: the first variable, in the
     * order the set of unassigned variables is visited, whose domain is
     * smallest, which is what the scan here picks.  The tie-break on degree
     * has no effect: line 243 binds `varibale` but line 244 reads `variable`,
     * the last variable of the previous loop, so every degree is the same,
     * and the removals of lines 256-258 only drop entries behind the head.
     * With every variable already a key the source fails on
     * `unassigned_list[0]`; here the result is None.
     */
    method SelectUnassignedVariable(a: Assignment) returns (r: Option<Variable>)
      requires Valid()
      ensures r.None? <==> crossword.variables <= a.Keys
      ensures r.Some? ==> r.value in crossword.variables && r.value !in a
      ensures r.Some? ==> forall v | v in crossword.variables && v !in a :: |domains[r.value]| <= |domains[v]|
    {
      var unassigned := crossword.variables - a.Keys;
      var fewest := |crossword.words| + 1;
      r := None;
      while unassigned != {}
        invariant unassigned <= crossword.variables - a.Keys
        invariant r.None? ==> unassigned == crossword.variables - a.Keys && fewest == |crossword.words| + 1
        invariant r.Some? ==> r.value in crossword.variables && r.value !in a && fewest == |domains[r.value]|
        invariant forall v | v in crossword.variables && v !in a && v !in unassigned :: fewest <= |domains[v]|
        decreases unassigned
      {
        var variable :| variable in unassigned;
        SubsetSize(domains[variable], crossword.words);
        if |domains[variable]| < fewest {
          r := Some(variable);
          fewest := |domains[variable]|;
        }
        unassigned := unassigned - {variable};
      }
      if r.None? {
        assert crossword.variables - a.Keys == {};
        forall v | v in crossword.variables
          ensures v in a.Keys
        {
          assert v !in crossword.variables - a.Keys;
        }
      }
    }

    /**
     * `order_domain_values`: the words of the domain of `v`, each once,
     * those that the fewest neighbours still hold first.  The source skips
     * a word that is a key of `assignment`; the keys are variables, never
     * words, so it skips none and `a` plays no part.
     */
    method OrderDomainValues(v: Variable, a: Assignment) returns (values: seq<string>)
      requires Valid() && v in crossword.variables
      ensures multiset(values) == multiset(domains[v])
      ensures forall i, j | 0 <= i < j < |values| ::
        RuledOut(crossword, domains, v, values[i]) <= RuledOut(crossword, domains, v, values[j])
      ensures values != [] ==> forall w | w in domains[v] ::
        RuledOut(crossword, domains, v, values[0]) <= RuledOut(crossword, domains, v, w)
    {
      var order, counts := RuledOutCounts(crossword, domains, v);
      DistinctMultiset(order, domains[v]);
      values := SortByCount(order, counts);
      SortedByRuledOut(crossword, domains, v, values, counts);
    }

    /**
     * `backtrack`, as written: it tries the words of an unassigned variable
     * in order and recurses, writing `None` back (not deleting the key)
     * after a word fails.  It never calls `consistent`, so crossings play
     * no part.  The assignment dict is shared by every level of the
     * recursion; `a'` is its content when this call ends.
     */
    method Backtrack(a: Assignment) returns (r: Search, a': Assignment)
      requires Valid()
      ensures Extends(crossword, domains, a, a')
      ensures r.Solved? <==> Complete(crossword, a')
      ensures r.Stuck? ==> crossword.variables <= a'.Keys
      ensures DeadEnd(crossword, domains, a) ==> r.Failed? && a' == a
      ensures Open(crossword, domains, a) ==> r.Solved?
      decreases crossword.variables - a.Keys
    {
      if Complete(crossword, a) {
        return Solved, a;
      }
      var choice := SelectUnassignedVariable(a);
      if choice.None? {
        return Stuck, a;
      }
      var variable := choice.value;
      var values := OrderDomainValues(variable, a);
      if DeadEnd(crossword, domains, a) {
        ghost var e :| e in crossword.variables && e !in a && domains[e] == {};
        assert |domains[variable]| == 0;
      }
      a' := a;
      for n := 0 to |values|
        invariant Extends(crossword, domains, a, a')
        invariant n == 0 ==> a' == a
        invariant n > 0 ==> variable in a' && a'[variable] == None
        invariant n > 0 ==> !Open(crossword, domains, a)
      {
        assert values[n] in multiset(values);
        ghost var before := a';
        ExtendsWrite(crossword, domains, a, a', variable, Some(values[n]));
        var next := a'[variable := Some(values[n])];
        assert variable in crossword.variables - a.Keys;
        assert crossword.variables - next.Keys < crossword.variables - a.Keys;
        if n == 0 && Open(crossword, domains, a) {
          OpenWrite(crossword, domains, a, variable, values[n]);
        }
        var result;
        result, a' := Backtrack(next);
        ExtendsTransitive(crossword, domains, a, next, a');
        if result != Failed {
          return result, a';
        }
        ExtendsWrite(crossword, domains, a, a', variable, None);
        a' := a'[variable := None];
      }
      r := Failed;
    }

    /**
     * `solve`: node consistency, then `ac3()` (which, as written, returns
     * at once when given no arcs), then the search from the empty
     * assignment.  As the search never looks at crossings, it succeeds
     * exactly when no domain is empty after node consistency.
     */
    method Solve() returns (r: Search, a: Assignment)
      requires Valid()
      modifies this
      ensures Valid() && domains == NodeConsistentDomains(old(domains))
      ensures r != Stuck
      ensures r.Solved? <==> forall v | v in crossword.variables :: domains[v] != {}
      ensures r.Solved? ==> a.Keys == crossword.variables
      ensures r.Solved? ==> forall v | v in a :: a[v].Some? && a[v].value in domains[v] && |a[v].value| == v.length
    {
      EnforceNodeConsistency();
      var arcConsistent := AC3AsWritten(None);
      r, a := Backtrack(map[]);
    }

    /**
     * `letter_grid`: a `height` by `width` grid, filled word by word with
     * the letters of the assignment; a cell no word covers stays empty.
     * Where two words disagree on a cell the one written last wins.
     */
    method LetterGrid(a: map<Variable, string>) returns (letters: seq<seq<Option<char>>>)
      requires forall v, k | v in a && 0 <= k < |a[v]| ::
        Pos(v, k).0 < crossword.height && Pos(v, k).1 < crossword.width
      ensures GridShows(a, a.Keys, crossword.height, crossword.width, letters)
      ensures crossword.WellFormed() && a.Keys <= crossword.variables && Consistent(crossword, a) ==>
        forall v, k | v in a && 0 <= k < |a[v]| :: letters[Pos(v, k).0][Pos(v, k).1] == Some(a[v][k])
    {
      letters := seq(crossword.height, _ => seq(crossword.width, _ => None));
      var rest := a.Keys;
      ghost var done: set<Variable> := {};
      while rest != {}
        invariant rest <= a.Keys && done == a.Keys - rest
        invariant GridShows(a, done, crossword.height, crossword.width, letters)
        decreases rest
      {
        var variable :| variable in rest;
        var word := a[variable];
        ghost var before := letters;
        for k := 0 to |word|
          invariant LineWritten(variable, word, k, before, letters)
        {
          var (i, j) := Pos(variable, k);
          letters := letters[i := letters[i][j := Some(word[k])]];
        }
        GridStep(a, done, crossword.height, crossword.width, variable, before, letters);
        done := done + {variable};
        rest := rest - {variable};
      }
      if crossword.WellFormed() && a.Keys <= crossword.variables && Consistent(crossword, a) {
        ConsistentGrid(crossword, a, letters);
      }
    }
  }
}
