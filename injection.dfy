/**
 * Seed injection: block transactions give (x, y) pairs; pair i schedules an
 * injection at generation `x mod height` (`getInjectionPoint`), and each
 * injection forces one cell alive at column `y mod width` of the pair the
 * running counter points at (`injectSeed`).
 *
 * The pairs hold the source's `parseInt(x * 255, 10)` and
 * `parseInt(y * 255, 10)` as naturals.
 */
module Injection {
  import opened Wrappers
  import opened RuleTable

  datatype Pair = Pair(x: nat, y: nat)

  /**
   * `getInjectionPoint`: the generation a pair triggers at. With a height of
   * zero the source computes `x % 0`, which is NaN and equals no generation.
   */
  function GetInjectionPoint(p: Pair, height: nat): (g: Option<nat>)
    ensures g.Some? <==> height > 0
    ensures g.Some? ==> g.value < height && p.x == (p.x / height) * height + g.value
  {
    if height == 0 then None else Some(p.x % height)
  }

  /** The trigger of pair `p` lies in the generations lo..hi-1. */
  predicate TriggersIn(p: Pair, height: nat, lo: nat, hi: nat) {
    var g := GetInjectionPoint(p, height);
    g.Some? && lo <= g.value < hi
  }

  /** How many of the first `n` pairs trigger in the generations lo..hi-1. */
  function FiredBetween(pairs: seq<Pair>, n: nat, height: nat, lo: nat, hi: nat): (count: nat)
    requires n <= |pairs|
    ensures count <= n
  {
    if n == 0 then 0
    else FiredBetween(pairs, n - 1, height, lo, hi) + (if TriggersIn(pairs[n - 1], height, lo, hi) then 1 else 0)
  }

  /** Counting over adjacent windows of generations adds up. */
  lemma {:induction false} FiredSplit(pairs: seq<Pair>, n: nat, height: nat, lo: nat, mid: nat, hi: nat)
    requires n <= |pairs| && lo <= mid <= hi
    ensures FiredBetween(pairs, n, height, lo, mid) + FiredBetween(pairs, n, height, mid, hi)
         == FiredBetween(pairs, n, height, lo, hi)
  {
    if n > 0 {
      FiredSplit(pairs, n - 1, height, lo, mid, hi);
    }
  }

  /** An empty window of generations holds no trigger. */
  lemma {:induction false} FiredNone(pairs: seq<Pair>, n: nat, height: nat, g: nat)
    requires n <= |pairs|
    ensures FiredBetween(pairs, n, height, g, g) == 0
  {
    if n > 0 {
      FiredNone(pairs, n - 1, height, g);
    }
  }

  /** Pair i adds one to the count of generation g exactly when it triggers at g. */
  lemma FiredNext(pairs: seq<Pair>, i: nat, height: nat, g: nat)
    requires i < |pairs|
    ensures FiredBetween(pairs, i + 1, height, g, g + 1)
         == FiredBetween(pairs, i, height, g, g + 1) + (if GetInjectionPoint(pairs[i], height) == Some(g) then 1 else 0)
  {
  }

  /** Looking at more pairs never lowers the count. */
  lemma {:induction false} FiredMonotone(pairs: seq<Pair>, m: nat, n: nat, height: nat, lo: nat, hi: nat)
    requires m <= n <= |pairs|
    ensures FiredBetween(pairs, m, height, lo, hi) <= FiredBetween(pairs, n, height, lo, hi)
    decreases n - m
  {
    if m < n {
      FiredMonotone(pairs, m, n - 1, height, lo, hi);
    }
  }

  /** With a positive height every pair triggers at exactly one generation below the height. */
  lemma {:induction false} FiredWholeRange(pairs: seq<Pair>, n: nat, height: nat)
    requires n <= |pairs|
    ensures FiredBetween(pairs, n, height, 0, height) == (if height > 0 then n else 0)
  {
    if n > 0 {
      FiredWholeRange(pairs, n - 1, height);
    }
  }

  /**
   * Over a run that reaches generation `height`, the injections done from
   * generation 1 on are all the pairs except those whose trigger is
   * generation 0: those never fire.
   */
  lemma InjectionsOverRun(pairs: seq<Pair>, n: nat, height: nat)
    requires n <= |pairs| && height > 0
    ensures FiredBetween(pairs, n, height, 1, height) == n - FiredBetween(pairs, n, height, 0, 1)
  {
    FiredWholeRange(pairs, n, height);
    FiredSplit(pairs, n, height, 0, 1, height);
  }

  /** `injectSeed` on a row: the cell at `y mod width` of pair `p` becomes alive. */
  function InjectSeedRow(row: seq<Bit>, p: Pair): (r: seq<Bit>)
    requires |row| > 0
    ensures |r| == |row| && r[p.y % |row|] == 1
  {
    row[p.y % |row| := 1]
  }

  /** `n` injections in a row, using the pairs from index `from` on, in order. */
  function Injected(row: seq<Bit>, pairs: seq<Pair>, from: nat, n: nat): (r: seq<Bit>)
    requires |row| > 0 && from + n <= |pairs|
    ensures |r| == |row|
  {
    if n == 0 then row else InjectSeedRow(Injected(row, pairs, from, n - 1), pairs[from + n - 1])
  }

  /** Column `i` is the target of one of the pairs from..from+n-1. */
  predicate Targeted(pairs: seq<Pair>, from: nat, n: nat, width: nat, i: nat)
    requires from + n <= |pairs| && width > 0
  {
    exists j :: from <= j < from + n && pairs[j].y % width == i
  }

  /**
   * After the injections a cell is alive exactly when it was alive before or
   * one of the used pairs targets it: no cell is ever cleared, and nothing
   * else is set.
   */
  lemma {:induction false} InjectedCells(row: seq<Bit>, pairs: seq<Pair>, from: nat, n: nat, i: nat)
    requires |row| > 0 && from + n <= |pairs| && i < |row|
    ensures Injected(row, pairs, from, n)[i] == 1 <==> row[i] == 1 || Targeted(pairs, from, n, |row|, i)
  {
    if n > 0 {
      InjectedCells(row, pairs, from, n - 1, i);
      var j := from + n - 1;
      if pairs[j].y % |row| == i {
        assert Targeted(pairs, from, n, |row|, i);
      } else if Targeted(pairs, from, n, |row|, i) {
        var k :| from <= k < from + n && pairs[k].y % |row| == i;
        assert Targeted(pairs, from, n - 1, |row|, i);
      }
    }
  }
}
