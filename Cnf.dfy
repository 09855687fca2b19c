/**
 * The inputs the encoder receives from the rest of the solver: variables,
 * literals, the component (the sub-problem's variables) and a view of the
 * clause-occurrence index.
 */
module Cnf {

  /**
   * A literal is `2 * var + polarity`; the polarity bit is set for the
   * negative literal, so `lit >> 1` is the variable and `lit & 1` the sign.
   */
  function MakeLitFalse(v: nat): (l: nat)
    ensures l / 2 == v && l % 2 == 1
  {
    2 * v + 1
  }

  function MakeLitTrue(v: nat): (l: nat)
    ensures l / 2 == v && l % 2 == 0
  {
    2 * v
  }

  /** Strictly ascending. */
  predicate Ascending(s: seq<int>)
  {
    forall i, j :: 0 <= i < j < |s| ==> s[i] < s[j]
  }

  /**
   * A component: a non-empty, strictly increasing list of positive variable
   * ids, each one an unsigned 32-bit value.
   */
  predicate ValidComponent(component: seq<int>)
  {
    |component| > 0 && component[0] >= 1 && Ascending(component)
    && component[|component| - 1] < 0x1_0000_0000
  }

  /** The last (largest) variable of a component: `component.back()`. */
  function Back(component: seq<int>): (v: int)
    requires ValidComponent(component)
    ensures forall i :: 0 <= i < |component| ==> 1 <= component[i] <= v
  {
    var v := component[|component| - 1];
    assert forall i :: 0 <= i < |component| ==> component[0] <= component[i];
    v
  }

  /**
   * What the encoder reads of the solver's state: for each literal the
   * clause ids that contain it (`getVecIdxClause`), whether each clause is
   * still kept (`isKeptClause`), whether each variable is assigned
   * (`varIsAssigned`), each clause's current live size (`getCurrentSize`)
   * and the size of the longest clause (`getMaxSizeClause`).
   */
  datatype OccurrenceIndex = OccurrenceIndex(
    occ: seq<seq<int>>,
    kept: seq<bool>,
    isAssigned: seq<bool>,
    currentSize: seq<nat>,
    maxSizeClause: nat)
  {
    /** Number of clauses of the formula (`m_nbClauseCnf`). */
    function NbClause(): nat { |kept| }

    /**
     * Every clause id in range, no clause twice in one list, every literal
     * of every variable has a list.
     */
    predicate Valid()
    {
      |currentSize| == |kept|
      && |occ| == 2 * |isAssigned|
      && (forall l, k :: 0 <= l < |occ| && 0 <= k < |occ[l]| ==> 0 <= occ[l][k] < |kept|)
      && (forall l, k, k' :: 0 <= l < |occ| && 0 <= k < k' < |occ[l]| ==> occ[l][k] != occ[l][k'])
      && (forall c :: 0 <= c < |kept| ==> Size(c, |isAssigned|) <= maxSizeClause)
    }

    /** Whether clause c holds literal l, i.e. appears in the list of l. */
    predicate Holds(l: nat, c: int)
    {
      l < |occ| && c in occ[l]
    }

    /**
     * Number of literals of the variables below m that clause c holds: for
     * m = |isAssigned| the size of c.
     */
    function Size(c: int, m: nat): nat
      requires 2 * m <= |occ|
    {
      if m == 0 then 0
      else Size(c, m - 1) + (if c in occ[2 * (m - 1)] then 1 else 0)
           + (if c in occ[2 * (m - 1) + 1] then 1 else 0)
    }

    /** Number of literals of the variables of `vars` that clause c holds. */
    function SizeOver(c: int, vars: seq<int>): nat
      requires forall i :: 0 <= i < |vars| ==> 0 <= vars[i] && 2 * vars[i] + 1 < |occ|
    {
      if |vars| == 0 then 0
      else SizeOver(c, vars[..|vars| - 1])
           + (if c in occ[2 * vars[|vars| - 1]] then 1 else 0)
           + (if c in occ[2 * vars[|vars| - 1] + 1] then 1 else 0)
    }

    /** Counting over a strictly increasing list of variables counts no more than over all of them. */
    lemma {:induction false} SizeOverBound(c: int, vars: seq<int>, m: nat)
      requires 2 * m <= |occ|
      requires Ascending(vars)
      requires forall i :: 0 <= i < |vars| ==> 0 <= vars[i] < m
      ensures SizeOver(c, vars) <= Size(c, m)
    {
      if |vars| > 0 {
        var v := vars[|vars| - 1];
        var init := vars[..|vars| - 1];
        SizeOverBound(c, init, v);
        SizeMonotone(c, v + 1, m);
      }
    }

    lemma {:induction false} SizeMonotone(c: int, m: nat, m': nat)
      requires m <= m' && 2 * m' <= |occ|
      ensures Size(c, m) <= Size(c, m')
      decreases m' - m
    {
      if m < m' {
        SizeMonotone(c, m, m' - 1);
      }
    }

    /** Number of kept clauses among the first k entries of list l. */
    function KeptCount(l: nat, k: nat): (n: nat)
      requires l < |occ| && k <= |occ[l]|
      requires forall j :: 0 <= j < |occ[l]| ==> 0 <= occ[l][j] < |kept|
      ensures n <= k
    {
      if k == 0 then 0 else KeptCount(l, k - 1) + (if kept[occ[l][k - 1]] then 1 else 0)
    }

    /** The component's variables all belong to the formula. */
    predicate Covers(component: seq<int>)
    {
      forall i :: 0 <= i < |component| ==> 0 <= component[i] && 2 * component[i] + 1 < |occ|
    }
  }
}
