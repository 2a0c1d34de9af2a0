/**
 * `SimpleGuessOrderingByTuple` (src/guess_ordering.rs): when propagation
 * stalls, the solver branches on one cell. The ordering lists candidate
 * counts by priority; the first count some cell has picks the qualifying
 * cells, one of them is chosen, and one guess is made per candidate left in
 * it.
 */
module GuessOrdering {
  import opened Squares
  import opened BoxUtil
  import opened Puzzle
  import opened RowMajor

  /** A guess: (row, column, value). */
  type Guess = (int, int, Digit)

  /**
   * The cells having the first count of `ordering[t..]` that some cell has,
   * in row-major order; empty when no cell has any of those counts.
   */
  function QualifyingFrom(g: Grid, ordering: seq<nat>, t: nat): (r: seq<Coord>)
    requires IsGrid(g) && t <= |ordering|
    ensures AllOnGrid(r)
    decreases |ordering| - t
  {
    if t == |ordering| then []
    else
      var nodes := CellsWhere(g, HasCount(ordering[t]));
      if |nodes| != 0 then nodes else QualifyingFrom(g, ordering, t + 1)
  }

  /** The qualifying cells of the whole ordering. */
  function QualifyingNodes(g: Grid, ordering: seq<nat>): (r: seq<Coord>)
    requires IsGrid(g)
    ensures AllOnGrid(r)
  {
    QualifyingFrom(g, ordering, 0)
  }

  /** One guess at `x` per value, in the order given. */
  function GuessesAt(x: Coord, values: seq<Digit>): (r: seq<Guess>)
    ensures |r| == |values|
    ensures forall k :: 0 <= k < |r| ==> r[k] == (x.0, x.1, values[k])
  {
    seq(|values|, k requires 0 <= k < |values| => (x.0, x.1, values[k]))
  }

  /** The guessed values, in order. */
  function ValuesOf(guesses: seq<Guess>): (r: seq<Digit>)
    ensures |r| == |guesses|
    ensures forall k :: 0 <= k < |r| ==> r[k] == guesses[k].2
  {
    seq(|guesses|, k requires 0 <= k < |guesses| => guesses[k].2)
  }

  /** `guess_list` with randomization off: the first qualifying cell, its candidates ascending. */
  function FirstGuesses(g: Grid, ordering: seq<nat>): seq<Guess>
    requires IsGrid(g)
  {
    var nodes := QualifyingNodes(g, ordering);
    if |nodes| == 0 then [] else GuessesAt(nodes[0], Cell(g, nodes[0]).ValuesRemaining())
  }

  /**
   * `randomize_values`: repeatedly removes an element at an arbitrary index
   * of a copy and appends it. The random index is a nondeterministic choice.
   */
  method RandomizeValues<T(==)>(numberList: seq<T>) returns (randomized: seq<T>)
    ensures |randomized| == |numberList|
    ensures multiset(randomized) == multiset(numberList)
  {
    randomized := [];
    var copy := numberList;
    while |copy| > 0
      invariant |randomized| + |copy| == |numberList|
      invariant multiset(randomized) + multiset(copy) == multiset(numberList)
    {
      var index :| 0 <= index < |copy|;
      var element := copy[index];
      assert copy == copy[..index] + [element] + copy[index + 1..];
      copy := copy[..index] + copy[index + 1..];
      randomized := randomized + [element];
    }
  }

  class SimpleGuessOrderingByTuple {
    var orderingVector: seq<nat>

    /** `new`: the eight entries of the tuple, in order. */
    constructor (t: (nat, nat, nat, nat, nat, nat, nat, nat))
      ensures orderingVector == [t.0, t.1, t.2, t.3, t.4, t.5, t.6, t.7]
    {
      orderingVector := [t.0, t.1, t.2, t.3, t.4, t.5, t.6, t.7];
    }

    /** The struct literal `clone` builds around its copied vector. */
    constructor FromVector(v: seq<nat>)
      ensures orderingVector == v
    {
      orderingVector := v;
    }

    /** `clone`: a fresh ordering whose vector is pushed element by element. */
    method Clone() returns (c: SimpleGuessOrderingByTuple)
      ensures fresh(c) && c.orderingVector == orderingVector
    {
      var v: seq<nat> := [];
      for k := 0 to |orderingVector|
        invariant v == orderingVector[..k]
      {
        v := v + [orderingVector[k]];
      }
      assert v == orderingVector;
      c := new SimpleGuessOrderingByTuple.FromVector(v);
    }

    /**
     * `guess_list`: the guesses for one cell. With `randomize` off they are
     * `FirstGuesses`; with it on, the cell is any qualifying cell and its
     * candidates come in any order. Either way `chosen` is the cell every
     * guess names and the guessed values are exactly its candidates. The
     * puzzle is only read.
     */
    method GuessList(p: SudokuPuzzle, randomize: bool) returns (guesses: seq<Guess>, ghost chosen: Coord)
      requires p.Valid()
      ensures var nodes := QualifyingNodes(p.rows, orderingVector);
        && (|nodes| == 0 ==> guesses == [])
        && (|nodes| > 0 ==>
              && chosen in nodes
              && guesses == GuessesAt(chosen, ValuesOf(guesses))
              && multiset(ValuesOf(guesses)) == multiset(Cell(p.rows, chosen).ValuesRemaining()))
        && (!randomize ==> guesses == FirstGuesses(p.rows, orderingVector))
    {
      guesses := [];
      chosen := (1, 1);
      var nodes: seq<Coord> := [];
      var t := 0;
      while t < |orderingVector|
        invariant 0 <= t <= |orderingVector|
        invariant nodes == [] && QualifyingFrom(p.rows, orderingVector, t) == QualifyingNodes(p.rows, orderingVector)
      {
        nodes := CellsOfCount(p, orderingVector[t]);
        if |nodes| != 0 {
          break;
        }
        t := t + 1;
      }
      assert nodes == QualifyingNodes(p.rows, orderingVector);
      if |nodes| > 0 {
        var chosenNode := nodes[0];
        if randomize {
          var chosenNodeIndex :| 0 <= chosenNodeIndex < |nodes|;
          chosenNode := nodes[chosenNodeIndex];
        }
        chosen := chosenNode;
        var square := p.GetSquare(chosenNode.0, chosenNode.1);
        var values := square.ValuesRemaining();
        if randomize {
          values := RandomizeValues(values);
        }
        guesses := PushGuesses(chosenNode, values);
        assert ValuesOf(guesses) == values;
      }
    }
  }

  /** The loop of `guess_list` pushing one (row, column, value) triple per value. */
  method PushGuesses(x: Coord, values: seq<Digit>) returns (guesses: seq<Guess>)
    ensures guesses == GuessesAt(x, values)
  {
    guesses := [];
    for k := 0 to |values|
      invariant guesses == GuessesAt(x, values[..k])
    {
      assert GuessesAt(x, values[..k + 1]) == GuessesAt(x, values[..k]) + [(x.0, x.1, values[k])];
      guesses := guesses + [(x.0, x.1, values[k])];
    }
    assert values[..|values|] == values;
  }

  /** The nested `1..=9` loops of `guess_list` for one degree: the cells with that many candidates, row-major. */
  method CellsOfCount(p: SudokuPuzzle, degree: nat) returns (found: seq<Coord>)
    requires p.Valid()
    ensures found == CellsWhere(p.rows, HasCount(degree))
  {
    ghost var marks := MarksOf(p.rows, HasCount(degree));
    found := [];
    var i := 1;
    while i <= 9
      invariant 1 <= i <= 10
      invariant found == CollectedRows(marks, i - 1)
    {
      CollectedRowBounds(marks, i);
      found := CellsOfCountRow(p, degree, i, found);
      i := i + 1;
    }
  }

  /** The inner loop of `CellsOfCount`: row `i`'s cells with that many candidates join the list. */
  method CellsOfCountRow(p: SudokuPuzzle, degree: nat, i: int, prior: seq<Coord>) returns (found: seq<Coord>)
    requires p.Valid() && InRange(i)
    requires prior == Collected(MarksOf(p.rows, HasCount(degree)), i, 1)
    ensures found == Collected(MarksOf(p.rows, HasCount(degree)), i, 10)
  {
    found := prior;
    var j := 1;
    while j <= 9
      invariant 1 <= j <= 10
      invariant found == Collected(MarksOf(p.rows, HasCount(degree)), i, j)
    {
      var square := p.GetSquare(i, j);
      CollectedNext(p.rows, HasCount(degree), i, j);
      if square.CountRemaining() == degree {
        found := found + [(i, j)];
      }
      j := j + 1;
    }
  }

  // ---------------------------------------------------------------------
  // Properties.
  // ---------------------------------------------------------------------

  /** No cell has any count of `ordering[t..]`. */
  ghost predicate NoneFrom(g: Grid, ordering: seq<nat>, t: nat)
    requires IsGrid(g)
  {
    forall u, x :: t <= u < |ordering| && OnGrid(x) ==> Cell(g, x).CountRemaining() != ordering[u]
  }

  /**
   * The qualifying cells come from the first count `ordering[d]` (at or
   * after `t`) that some cell has: they are exactly the cells with that
   * count, in row-major order, and no cell has an earlier count. They are
   * empty exactly when no cell has any count of the ordering.
   */
  lemma {:induction false} QualifyingFromSpec(g: Grid, ordering: seq<nat>, t: nat) returns (d: nat)
    requires IsGrid(g) && t <= |ordering|
    ensures |QualifyingFrom(g, ordering, t)| == 0 <==> NoneFrom(g, ordering, t)
    ensures |QualifyingFrom(g, ordering, t)| > 0 ==>
      && t <= d < |ordering|
      && (forall y :: y in QualifyingFrom(g, ordering, t) <==> OnGrid(y) && Cell(g, y).CountRemaining() == ordering[d])
      && (forall u, x :: t <= u < d && OnGrid(x) ==> Cell(g, x).CountRemaining() != ordering[u])
      && Sorted(QualifyingFrom(g, ordering, t))
    decreases |ordering| - t
  {
    if t == |ordering| {
      return t;
    }
    var nodes := CellsWhere(g, HasCount(ordering[t]));
    CellsWhereSpec(g, HasCount(ordering[t]));
    if |nodes| != 0 {
      assert nodes[0] in nodes;
      d := t;
    } else {
      d := QualifyingFromSpec(g, ordering, t + 1);
    }
  }

  /**
   * With randomization off, `guess_list` names the first qualifying cell in
   * row-major order, once per candidate, candidates ascending; it is empty
   * exactly when no cell's count appears in the ordering.
   */
  lemma FirstGuessesSpec(g: Grid, ordering: seq<nat>)
    requires IsGrid(g)
    ensures var nodes, r := QualifyingNodes(g, ordering), FirstGuesses(g, ordering);
      && (|nodes| == 0 <==> NoneFrom(g, ordering, 0))
      && (|nodes| == 0 ==> r == [])
      && (|nodes| > 0 ==>
            && (forall y :: y in nodes ==> nodes[0] == y || RowMajorBefore(nodes[0], y))
            && (forall k :: 0 <= k < |r| ==> r[k].0 == nodes[0].0 && r[k].1 == nodes[0].1)
            && (forall i, j :: 0 <= i < j < |r| ==> r[i].2 < r[j].2)
            && (forall v: Digit :: v in ValuesOf(r) <==> Cell(g, nodes[0]).IsPossible(v))
            && |r| == Cell(g, nodes[0]).CountRemaining())
  {
    var nodes := QualifyingNodes(g, ordering);
    var d := QualifyingFromSpec(g, ordering, 0);
    if |nodes| > 0 {
      forall y | y in nodes ensures nodes[0] == y || RowMajorBefore(nodes[0], y) {
        var k :| 0 <= k < |nodes| && nodes[k] == y;
      }
      var vs := Cell(g, nodes[0]).ValuesRemaining();
      CountIsLength(Cell(g, nodes[0]));
      assert ValuesOf(FirstGuesses(g, ordering)) == vs;
    }
  }

  /** In either mode the guessed values are the chosen cell's candidates: each value is guessed iff it is possible there. */
  lemma GuessedValues(g: Grid, x: Coord, guesses: seq<Guess>)
    requires IsGrid(g) && OnGrid(x)
    requires multiset(ValuesOf(guesses)) == multiset(Cell(g, x).ValuesRemaining())
    ensures forall v: Digit :: v in ValuesOf(guesses) <==> Cell(g, x).IsPossible(v)
    ensures forall i, j :: 0 <= i < j < |guesses| ==> guesses[i].2 != guesses[j].2
  {
    var vs := Cell(g, x).ValuesRemaining();
    forall v: Digit ensures v in ValuesOf(guesses) <==> Cell(g, x).IsPossible(v) {
      assert v in ValuesOf(guesses) <==> v in multiset(ValuesOf(guesses));
      assert v in vs <==> v in multiset(vs);
    }
    forall i, j | 0 <= i < j < |guesses| ensures guesses[i].2 != guesses[j].2 {
      var ws := ValuesOf(guesses);
      if ws[i] == ws[j] {
        TwiceInMultiset(ws, i, j);
        OnceInAscending(vs, ws[i]);
        assert false;
      }
    }
  }

  /** A value at two indices occurs at least twice. */
  lemma TwiceInMultiset(ws: seq<Digit>, i: int, j: int)
    requires 0 <= i < j < |ws| && ws[i] == ws[j]
    ensures multiset(ws)[ws[i]] >= 2
  {
    assert ws == ws[..i] + [ws[i]] + ws[i + 1..j] + [ws[j]] + ws[j + 1..];
  }

  /** A strictly ascending list holds each value at most once. */
  lemma {:induction false} OnceInAscending(vs: seq<Digit>, v: Digit)
    requires forall i, j :: 0 <= i < j < |vs| ==> vs[i] < vs[j]
    ensures multiset(vs)[v] <= 1
  {
    if |vs| > 0 {
      var init := vs[..|vs| - 1];
      OnceInAscending(init, v);
      assert vs == init + [vs[|vs| - 1]];
      assert v in init ==> v != vs[|vs| - 1] by {
        if v in init {
          var k :| 0 <= k < |init| && init[k] == v;
          assert vs[k] == v;
        }
      }
    }
  }
}
