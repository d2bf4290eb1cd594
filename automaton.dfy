/**
 * The elementary cellular automaton: the row of generation 0 (`start`), the
 * rule applied to every cell with wrap-around neighbours (`generate`), the
 * injections done before each step, and the history of all rows
 * (`wholeSystem`).
 *
 * The first half gives the run as pure functions of its parameters; the
 * class `CellularAutomata` is the source's object, whose methods update its
 * fields in place and are proved to keep them equal to those functions.
 */
module Automaton {
  import opened RuleTable
  import opened Injection
  import opened WrapAround
  import opened Wrappers

  /**
   * What a run depends on: the parsed rule table, the row width and height
   * in cells, the injection pairs and how many of them schedule injections.
   */
  datatype Params = Params(rules: string, width: nat, height: nat, injection: seq<Pair>, points: nat)

  predicate WellFormed(p: Params) {
    p.width >= 1 && IsTable(p.rules) && p.points <= |p.injection|
  }

  /** The number of live cells in a row. */
  function Population(row: seq<Bit>): nat {
    if row == [] then 0 else Population(row[..|row| - 1]) + row[|row| - 1]
  }

  /** Generation 0: every cell dead except the centre one, at index width / 2. */
  function SeedRow(width: nat): (row: seq<Bit>)
    ensures |row| == width
  {
    seq(width, i => if i == width / 2 then 1 else 0)
  }

  lemma {:induction false} SeedPrefixPopulation(width: nat, j: nat)
    requires j <= width
    ensures Population(SeedRow(width)[..j]) == if j > width / 2 then 1 else 0
  {
    if j > 0 {
      SeedPrefixPopulation(width, j - 1);
      assert SeedRow(width)[..j][..j - 1] == SeedRow(width)[..j - 1];
    }
  }

  /** A seeded row of positive width has exactly one live cell, the centre one. */
  lemma SeedRowOneLiveCell(width: nat)
    requires width >= 1
    ensures SeedRow(width)[width / 2] == 1
    ensures Population(SeedRow(width)) == 1
  {
    SeedPrefixPopulation(width, width);
    assert SeedRow(width)[..width] == SeedRow(width);
  }

  /** The cell at position n of a ring-shaped row, wrapped with `modulo`. */
  function CellAt(row: seq<Bit>, n: int): Bit
    requires |row| > 0
  {
    row[Modulo(n, |row|)]
  }

  /**
   * The neighbourhood of cell i on a ring, left neighbour (i - 1) mod W,
   * the cell, right neighbour (i + 1) mod W, read as the base-2 number
   * "left centre right".
   */
  function Neighbourhood(row: seq<Bit>, i: nat): (n: nat)
    requires i < |row|
    ensures n < 8
  {
    4 * (row[(i - 1) % |row|] as int) + 2 * (row[i] as int) + (row[(i + 1) % |row|] as int)
  }

  /** Cell i of the next row, by the source's table lookup. */
  function NextCell(table: string, row: seq<Bit>, i: nat): Bit
    requires IsTable(table) && i < |row|
  {
    ExecuteRules(table, CellAt(row, i - 1), row[i], CellAt(row, i + 1))
  }

  /** The first n cells of the next row, left to right. */
  function NextCells(table: string, row: seq<Bit>, n: nat): (cells: seq<Bit>)
    requires IsTable(table) && n <= |row|
    ensures |cells| == n
  {
    if n == 0 then [] else NextCells(table, row, n - 1) + [NextCell(table, row, n - 1)]
  }

  /** One step of the rule: the next cell of every position of the row. */
  function NextRow(table: string, row: seq<Bit>): (next: seq<Bit>)
    requires IsTable(table)
    ensures |next| == |row|
  {
    NextCells(table, row, |row|)
  }

  lemma {:induction false} NextCellsIndex(table: string, row: seq<Bit>, n: nat, i: nat)
    requires IsTable(table) && i < n <= |row|
    ensures NextCells(table, row, n)[i] == NextCell(table, row, i)
  {
    if i < n - 1 {
      NextCellsIndex(table, row, n - 1, i);
    }
  }

  /**
   * Cell i of the next row is the table's answer for the cells at
   * (i - 1) mod W, i and (i + 1) mod W of this row.
   */
  lemma NextRowCells(table: string, row: seq<Bit>)
    requires IsTable(table)
    ensures forall i :: 0 <= i < |row| ==> NextRow(table, row)[i] == NextCell(table, row, i)
  {
    forall i | 0 <= i < |row|
      ensures NextRow(table, row)[i] == NextCell(table, row, i)
    {
      NextCellsIndex(table, row, |row|, i);
    }
  }

  /**
   * The textbook elementary automaton on a ring: cell i becomes bit number
   * 4 * left + 2 * centre + right of the rule number.
   */
  function WolframStep(rule: nat, row: seq<Bit>): (next: seq<Bit>)
    ensures |next| == |row|
  {
    seq(|row|, i requires 0 <= i < |row| =>
      BitOf(rule, Neighbourhood(row, i)))
  }

  /** Stepping with the parsed table of a rule 0..255 is the textbook step of that rule. */
  lemma NextRowIsWolframStep(rule: nat, row: seq<Bit>)
    requires rule <= 255
    ensures IsTable(ParseRule(rule))
    ensures NextRow(ParseRule(rule), row) == WolframStep(rule, row)
  {
    ParseRuleRoundTrip(rule);
    NextRowCells(ParseRule(rule), row);
    forall i | 0 <= i < |row|
      ensures NextRow(ParseRule(rule), row)[i] == WolframStep(rule, row)[i]
    {
      WolframCell(rule, row, i);
    }
  }

  /** One cell of the step above: the table lookup is bit `Neighbourhood(row, i)` of the rule. */
  lemma WolframCell(rule: nat, row: seq<Bit>, i: nat)
    requires rule <= 255 && i < |row|
    ensures IsTable(ParseRule(rule))
    ensures NextCell(ParseRule(rule), row, i) == BitOf(rule, Neighbourhood(row, i))
  {
    ParseRuleRoundTrip(rule);
    var a, c := CellAt(row, i - 1), CellAt(row, i + 1);
    assert a == row[(i - 1) % |row|] && c == row[(i + 1) % |row|];
    ExecuteRulesWolfram(rule, a, row[i], c);
  }

  /** The pairs used before generation g: every pair whose trigger lies in 1..g-1. */
  function InjectedBefore(p: Params, g: nat): nat
    requires WellFormed(p)
  {
    FiredBetween(p.injection, p.points, p.height, 1, g)
  }

  /** The injections done at generation g: the pairs that trigger at g. */
  function InjectedAt(p: Params, g: nat): nat
    requires WellFormed(p)
  {
    FiredBetween(p.injection, p.points, p.height, g, g + 1)
  }

  /** The injections up to generation g use pairs that exist. */
  lemma InjectionsInRange(p: Params, g: nat)
    requires WellFormed(p) && g >= 1
    ensures InjectedBefore(p, g) + InjectedAt(p, g) == InjectedBefore(p, g + 1)
    ensures InjectedBefore(p, g + 1) <= |p.injection|
  {
    FiredSplit(p.injection, p.points, p.height, 1, g, g + 1);
  }

  /**
   * The step of generation g from the row before it: the injections of
   * generation g, then the rule applied to every cell.
   */
  function Step(p: Params, g: nat, prev: seq<Bit>): (row: seq<Bit>)
    requires WellFormed(p) && g >= 1 && |prev| == p.width
    ensures |row| == p.width
  {
    InjectionsInRange(p, g);
    NextRow(p.rules, Injected(prev, p.injection, InjectedBefore(p, g), InjectedAt(p, g)))
  }

  /**
   * The row recorded for generation g: the seed for 0, and for g >= 1 the
   * step of generation g from row g - 1.
   */
  function Row(p: Params, g: nat): (row: seq<Bit>)
    requires WellFormed(p)
    ensures |row| == p.width
  {
    if g == 0 then SeedRow(p.width) else Step(p, g, Row(p, g - 1))
  }

  lemma RowStep(p: Params, g: nat)
    requires WellFormed(p) && g >= 1
    ensures Row(p, g) == Step(p, g, Row(p, g - 1))
  {
  }

  /** The first n rows, one per generation, in order: what `wholeSystem` holds. */
  function History(p: Params, n: nat): (h: seq<seq<Bit>>)
    requires WellFormed(p)
    ensures |h| == n
  {
    if n == 0 then [] else History(p, n - 1) + [Row(p, n - 1)]
  }

  /** Row g of the history is the row of generation g. */
  lemma {:induction false} HistoryRows(p: Params, n: nat)
    requires WellFormed(p)
    ensures forall g :: 0 <= g < n ==> History(p, n)[g] == Row(p, g)
  {
    forall g | 0 <= g < n
      ensures History(p, n)[g] == Row(p, g)
    {
      HistoryRow(p, n, g);
    }
  }

  lemma {:induction false} HistoryRow(p: Params, n: nat, g: nat)
    requires WellFormed(p) && g < n
    ensures History(p, n)[g] == Row(p, g)
  {
    if g < n - 1 {
      HistoryRow(p, n - 1, g);
    }
  }

  /** A longer run starts with the rows of a shorter one: history is append-only. */
  lemma HistoryPrefix(p: Params, m: nat, n: nat)
    requires WellFormed(p) && m <= n
    ensures History(p, n)[..m] == History(p, m)
  {
    forall g | 0 <= g < m
      ensures History(p, n)[g] == History(p, m)[g]
    {
      HistoryRow(p, n, g);
      HistoryRow(p, m, g);
    }
  }

  /**
   * The state of an automaton between steps, as values: the history holds
   * the rows of generations 0..generation-1, the current row is the last of
   * them and the counter has counted the injections done so far.
   */
  ghost predicate Consistent(p: Params, generation: nat, counter: nat, history: seq<seq<Bit>>, row: seq<Bit>) {
    WellFormed(p) && generation >= 1 && |row| == p.width &&
    counter == InjectedBefore(p, generation) &&
    history == History(p, generation) && row == Row(p, generation - 1)
  }

  /**
   * One call of `generate` in values: injecting the current row and stepping
   * the result gives the row of the current generation, and recording it
   * keeps the state consistent one generation on.
   */
  lemma Advance(p: Params, g: nat, history: seq<seq<Bit>>, row: seq<Bit>, injected: seq<Bit>, next: seq<Bit>)
    requires WellFormed(p) && Consistent(p, g, InjectedBefore(p, g), history, row)
    requires InjectedBefore(p, g) + InjectedAt(p, g) <= |p.injection|
    requires injected == Injected(row, p.injection, InjectedBefore(p, g), InjectedAt(p, g))
    requires next == NextRow(p.rules, injected)
    ensures next == Row(p, g)
    ensures Consistent(p, g + 1, InjectedBefore(p, g + 1), history + [next], next)
  {
    RowStep(p, g);
  }

  /** Bit 4a + 2b + c of 204 (binary 11001100) is b. */
  lemma Rule204Bit(a: Bit, b: Bit, c: Bit)
    ensures BitOf(204, 4 * a + 2 * b + c) == b
  {
    assert BitOf(204, 0) == 0 && BitOf(204, 1) == 0 && BitOf(204, 2) == 1 && BitOf(204, 3) == 1;
    assert BitOf(204, 4) == 0 && BitOf(204, 5) == 0 && BitOf(204, 6) == 1 && BitOf(204, 7) == 1;
  }

  /** Under rule 204 (table "11001100") each cell keeps its own state. */
  lemma Rule204Cell(row: seq<Bit>, i: nat)
    requires i < |row|
    ensures IsTable(ParseRule(204))
    ensures NextCell(ParseRule(204), row, i) == row[i]
  {
    ExecuteRulesWolfram(204, CellAt(row, i - 1), row[i], CellAt(row, i + 1));
    Rule204Bit(CellAt(row, i - 1), row[i], CellAt(row, i + 1));
  }

  /** Rule 204 copies every row. */
  lemma Rule204Identity(row: seq<Bit>)
    ensures IsTable(ParseRule(204))
    ensures NextRow(ParseRule(204), row) == row
  {
    NextRowCells(ParseRule(204), row);
    forall i | 0 <= i < |row|
      ensures NextRow(ParseRule(204), row)[i] == row[i]
    {
      Rule204Cell(row, i);
    }
  }

  /**
   * A step without injections from a row the table keeps cell by cell
   * repeats that row. (Stated cell by cell: an equation between a row and
   * its own successor sends the solver round the ring without end.)
   */
  lemma StepFixed(p: Params, g: nat, row: seq<Bit>)
    requires WellFormed(p) && g >= 1 && |row| == p.width && InjectedAt(p, g) == 0
    requires forall i :: 0 <= i < p.width ==> NextCell(p.rules, row, i) == row[i]
    ensures forall i :: 0 <= i < p.width ==> Step(p, g, row)[i] == row[i]
  {
    NextRowCells(p.rules, row);
  }

  /** With rule 204 and no injection points, every generation repeats the one before. */
  lemma Rule204Repeats(p: Params, g: nat)
    requires WellFormed(p) && p.rules == ParseRule(204) && p.points == 0 && g >= 1
    ensures Row(p, g) == Row(p, g - 1)
  {
    var prev := Row(p, g - 1);
    forall i | 0 <= i < p.width
      ensures NextCell(p.rules, prev, i) == prev[i]
    {
      Rule204Cell(prev, i);
    }
    FiredNone(p.injection, 0, p.height, g);
    StepFixed(p, g, prev);
    RowStep(p, g);
  }

  /**
   * The automaton object. Its width and height are fixed at construction;
   * `init` parses the rule, stores the injection pairs and seeds
   * generation 0; `generate` does one step and `generateAll` steps until
   * the generation counter reaches the height.
   */
  class CellularAutomata {
    var rules: string
    var cells: array<Bit>
    var generation: nat
    const width: nat
    const height: nat
    var injection: seq<Pair>
    var injectionPoints: nat
    var injectionCounter: nat
    var wholeSystem: seq<seq<Bit>>

    /** The parameters the run depends on. */
    function Parameters(): Params
      reads this
    {
      Params(rules, width, height, injection, injectionPoints)
    }

    /**
     * After `init` and between steps: the history holds one row per
     * generation so far, the current row is the last of them, and the
     * injection counter has counted every pair that triggered at
     * generations 1..generation-1.
     */
    ghost predicate Valid()
      reads this, cells
    {
      Consistent(Parameters(), generation, injectionCounter, wholeSystem, cells[..])
    }

    /** The part of `Valid` that an injection keeps: shapes and the counter. */
    ghost predicate Ready()
      reads this
    {
      WellFormed(Parameters()) &&
      generation >= 1 &&
      cells.Length == width &&
      injectionCounter == InjectedBefore(Parameters(), generation)
    }

    /** The canvas-derived width and height are taken as whole numbers of cells. */
    constructor (width: nat, height: nat)
      ensures this.width == width && this.height == height
      ensures rules == [] && cells.Length == 0 && generation == 0
      ensures injection == [] && injectionPoints == 0 && injectionCounter == 0
      ensures wholeSystem == []
    {
      this.width := width;
      this.height := height;
      rules := [];
      cells := new Bit[0];
      generation := 0;
      injection := [];
      injectionPoints := 0;
      injectionCounter := 0;
      wholeSystem := [];
    }

    /**
     * `init`: the points count must not exceed the pairs, since the source
     * reads `injection[i]` for every i below it.
     */
    method Init(rule: nat, injection: seq<Pair>, injectionPoints: nat)
      requires width >= 1 && injectionPoints <= |injection|
      requires generation == 0 && wholeSystem == [] && injectionCounter == 0
      modifies this
      ensures Valid() && fresh(cells)
      ensures Parameters() == Params(ParseRule(rule), width, height, injection, injectionPoints)
      ensures generation == 1 && wholeSystem == [SeedRow(width)] && cells[..] == SeedRow(width)
    {
      SetRule(rule);
      ApplyBlockInjection(injection, injectionPoints);
      Start();
      ParseRuleRoundTrip(rule);
      FiredNone(injection, injectionPoints, height, 1);
    }

    method SetRule(rule: nat)
      modifies this`rules
      ensures rules == ParseRule(rule)
    {
      rules := ParseRule(rule);
    }

    method ApplyBlockInjection(injection: seq<Pair>, injectionPoints: nat)
      modifies this`injection, this`injectionPoints
      ensures this.injection == injection && this.injectionPoints == injectionPoints
    {
      this.injection := injection;
      this.injectionPoints := injectionPoints;
    }

    /** `start`: generation 0 is all dead but the centre cell, and it is recorded. */
    method Start()
      requires width >= 1 && generation == 0 && wholeSystem == []
      modifies this
      ensures fresh(cells) && cells[..] == SeedRow(width)
      ensures wholeSystem == [SeedRow(width)] && generation == 1
      ensures rules == old(rules) && injection == old(injection)
      ensures injectionPoints == old(injectionPoints) && injectionCounter == old(injectionCounter)
    {
      cells := new Bit[width];
      var row: seq<Bit> := [];
      for i := 0 to width
        modifies cells
        invariant row == seq(i, _ => 0)
        invariant cells[..i] == row
      {
        cells[i] := 0;
        row := row + [0];
      }
      var center := cells.Length / 2;
      cells[center] := 1;
      row := row[center := 1];
      assert row == SeedRow(width);
      assert cells[..] == row;
      wholeSystem := wholeSystem + [row];
      generation := generation + 1;
    }

    /** `injectSeed`: the next pair's column becomes alive and the counter moves on. */
    method InjectSeed()
      requires cells.Length == width >= 1 && injectionCounter < |injection|
      modifies this`injectionCounter, cells
      ensures cells[..] == InjectSeedRow(old(cells[..]), injection[old(injectionCounter)])
      ensures injectionCounter == old(injectionCounter) + 1
    {
      var idx := injection[injectionCounter].y % width;
      cells[idx] := 1;
      injectionCounter := injectionCounter + 1;
    }

    /**
     * `checkInjection`: one injection for each of the first `injectionPoints`
     * pairs, in ascending order, whose trigger is the current generation.
     */
    method CheckInjection()
      requires Ready()
      modifies this`injectionCounter, cells
      ensures old(injectionCounter) + InjectedAt(Parameters(), generation) <= |injection|
      ensures injectionCounter == InjectedBefore(Parameters(), generation + 1)
      ensures cells[..] == Injected(old(cells[..]), injection, old(injectionCounter), InjectedAt(Parameters(), generation))
    {
      InjectionsInRange(Parameters(), generation);
      ghost var row, from := cells[..], injectionCounter;
      ghost var at := FiredBetween(injection, injectionPoints, height, generation, generation + 1);
      assert from + at <= |injection|;
      var i := 0;
      while i < injectionPoints
        invariant 0 <= i <= injectionPoints
        invariant FiredBetween(injection, i, height, generation, generation + 1) <= at
        invariant injectionCounter == from + FiredBetween(injection, i, height, generation, generation + 1)
        invariant cells[..] == Injected(row, injection, from, FiredBetween(injection, i, height, generation, generation + 1))
      {
        FiredMonotone(injection, i + 1, injectionPoints, height, generation, generation + 1);
        CheckPair(i, row, from);
        i := i + 1;
      }
    }

    /**
     * One pass of the loop of `checkInjection`: pair i injects a seed when
     * its trigger is the current generation, and does nothing otherwise.
     */
    method CheckPair(i: nat, ghost row: seq<Bit>, ghost from: nat)
      requires cells.Length == width == |row| >= 1 && i < |injection|
      requires from + FiredBetween(injection, i + 1, height, generation, generation + 1) <= |injection|
      requires injectionCounter == from + FiredBetween(injection, i, height, generation, generation + 1)
      requires cells[..] == Injected(row, injection, from, FiredBetween(injection, i, height, generation, generation + 1))
      modifies this`injectionCounter, cells
      ensures injectionCounter == from + FiredBetween(injection, i + 1, height, generation, generation + 1)
      ensures cells[..] == Injected(row, injection, from, FiredBetween(injection, i + 1, height, generation, generation + 1))
    {
      FiredNext(injection, i, height, generation);
      if GetInjectionPoint(injection[i], height) == Some(generation) {
        InjectSeed();
      }
    }

    /**
     * `generate`: inject, compute the next row from the injected one, record
     * it as the row of the current generation and move to the next.
     */
    method Generate()
      requires Valid()
      modifies this`injectionCounter, this`wholeSystem, this`generation, cells
      ensures Valid()
      ensures Parameters() == old(Parameters()) && cells == old(cells)
      ensures generation == old(generation) + 1
      ensures wholeSystem == old(wholeSystem) + [Row(Parameters(), old(generation))]
    {
      ghost var p, g, history, row := Parameters(), generation, wholeSystem, cells[..];
      CheckInjection();
      ghost var injected := cells[..];
      var next := NeighbourhoodPass(rules, cells);
      Advance(p, g, history, row, injected, next);
      Record(next);
    }

    /**
     * The second loop of `generate`: the new row becomes the cells and the
     * history row of the current generation, and the generation moves on.
     */
    method Record(next: seq<Bit>)
      requires cells.Length == |next|
      modifies this`wholeSystem, this`generation, cells
      ensures cells[..] == next
      ensures wholeSystem == old(wholeSystem) + [next]
      ensures generation == old(generation) + 1
    {
      var row: seq<Bit> := [];
      var i := 0;
      while i < cells.Length
        modifies cells
        invariant 0 <= i <= cells.Length && |row| == i
        invariant forall j :: 0 <= j < i ==> row[j] == next[j] && cells[j] == next[j]
      {
        cells[i] := next[i];
        row := row + [next[i]];
        i := i + 1;
      }
      assert row == next;
      assert cells[..] == next;
      wholeSystem := wholeSystem + [row];
      generation := generation + 1;
    }

    /**
     * `isComplete`: the generation counter has reached the height, that is,
     * the history holds at least `height` rows.
     */
    predicate IsComplete()
      reads this, cells
      ensures Valid() ==> (IsComplete() <==> |wholeSystem| >= height)
    {
      generation >= height
    }

    /** `generateAll`: step until complete; history only grows. */
    method GenerateAll()
      requires Valid()
      modifies this, cells
      ensures Valid() && IsComplete()
      ensures Parameters() == old(Parameters()) && cells == old(cells)
      ensures generation == if old(generation) < height then height else old(generation)
      ensures wholeSystem[..old(generation)] == old(wholeSystem)
    {
      while !IsComplete()
        invariant Valid()
        invariant Parameters() == old(Parameters()) && cells == old(cells)
        invariant old(generation) <= generation
        invariant old(generation) < height ==> generation <= height
        invariant old(generation) >= height ==> generation == old(generation)
        decreases height - generation
      {
        Generate();
      }
      HistoryPrefix(Parameters(), old(generation), generation);
    }
  }

  /**
   * The first loop of `generate`: the rule applied to every cell of the
   * current row, reading the neighbours through `modulo`.
   */
  method NeighbourhoodPass(rules: string, cells: array<Bit>) returns (next: seq<Bit>)
    requires IsTable(rules)
    ensures next == NextRow(rules, cells[..])
  {
    next := [];
    var dim := cells.Length;
    var i := 0;
    while i < dim
      invariant 0 <= i <= dim && next == NextCells(rules, cells[..], i)
    {
      var l := cells[Modulo(i - 1, dim)];
      var c := cells[i];
      var r := cells[Modulo(i + 1, dim)];
      next := next + [ExecuteRules(rules, l, c, r)];
      i := i + 1;
    }
  }

  /**
   * The simulation part of the drawing routine: build the automaton, `init`
   * it and run `generateAll`; the result is the recorded history.
   */
  method Simulate(rule: nat, width: nat, height: nat, injection: seq<Pair>, injectionPoints: nat)
    returns (history: seq<seq<Bit>>)
    requires width >= 1 && injectionPoints <= |injection|
    ensures |history| == if height >= 1 then height else 1
    ensures forall g :: 0 <= g < |history| ==> |history[g]| == width
    ensures history[0] == SeedRow(width)
    ensures history == History(Params(ParseRule(rule), width, height, injection, injectionPoints), |history|)
  {
    var ca := new CellularAutomata(width, height);
    ca.Init(rule, injection, injectionPoints);
    ca.GenerateAll();
    history := ca.wholeSystem;
    HistoryRows(ca.Parameters(), |history|);
  }
}
