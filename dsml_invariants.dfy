/**
 * The invariant every statement parser keeps on the parser record, and the
 * counting argument that links dsml_validate_dsm to the guard of
 * machine_init: in a record where no two transitions share a (from-state,
 * input) pair, every pair is covered exactly when there are
 * |states| * |inputs| transitions.
 */
module DsmlInvariants {
  import opened Types
  import opened Dsml

  // ---------------------------------------------------------------------
  // The invariant
  // ---------------------------------------------------------------------

  /** No two transitions leave the same state on the same input. */
  predicate Deterministic(d: Dsm)
  {
    forall k, l :: 0 <= k < l < |d.trans| ==>
      d.trans[k].fromState != d.trans[l].fromState || d.trans[k].input != d.trans[l].input
  }

  /** At most one state carries the entry flag. */
  predicate AtMostOneEntry(d: Dsm)
  {
    forall i, j :: 0 <= i < j < |d.states| ==> !(d.states[i].isEntry && d.states[j].isEntry)
  }

  /** Every declared name went through dsml_validate_symbol and is not empty. */
  predicate NamesValid(d: Dsm)
  {
    && (forall i :: 0 <= i < |d.states| ==> d.states[i].symbol != [] && ValidateSymbol(d.states[i].symbol))
    && (forall i :: 0 <= i < |d.inputs| ==> d.inputs[i] != [] && ValidateSymbol(d.inputs[i]))
    && (forall i :: 0 <= i < |d.outputs| ==> d.outputs[i] != [] && ValidateSymbol(d.outputs[i]))
  }

  /**
   * What holds of the parser record after any sequence of statements,
   * whatever their outcome: references in range, names unique within each
   * category and valid, determinism, at most one entry state, and an entry
   * state only once the entry flag is set.
   */
  predicate WellFormed(d: Dsm)
  {
    && TransInRange(d)
    && Distinct(StateNames(d.states)) && Distinct(d.inputs) && Distinct(d.outputs)
    && NamesValid(d)
    && Deterministic(d)
    && AtMostOneEntry(d)
    && (forall i :: 0 <= i < |d.states| && d.states[i].isEntry ==> d.hasEntry)
  }

  /** The entry flag is set exactly when an entry state was declared. */
  predicate EntryDeclared(d: Dsm)
  {
    d.hasEntry <==> exists i :: 0 <= i < |d.states| && d.states[i].isEntry
  }

  // ---------------------------------------------------------------------
  // Look-up by name is look-up by index when names are unique
  // ---------------------------------------------------------------------

  lemma StateNameInjective(d: Dsm, i: nat, j: nat)
    requires Distinct(StateNames(d.states)) && i < |d.states| && j < |d.states|
    requires d.states[i].symbol == d.states[j].symbol
    ensures i == j
  {
    var names := StateNames(d.states);
    assert names[i] == names[j];
  }

  /** With unique names a transition matches by name exactly when its indices match. */
  lemma TransMatchesByIndex(d: Dsm, k: nat, i: nat, j: nat)
    requires TransInRange(d) && Distinct(StateNames(d.states)) && Distinct(d.inputs)
    requires k < |d.trans| && i < |d.states| && j < |d.inputs|
    ensures TransMatches(d, k, d.states[i].symbol, d.inputs[j])
            <==> d.trans[k].fromState == i && d.trans[k].input == j
  {
    if TransMatches(d, k, d.states[i].symbol, d.inputs[j]) {
      StateNameInjective(d, d.trans[k].fromState, i);
      var a := d.trans[k].input;
      assert d.inputs[a] == d.inputs[j];
    }
  }

  /** dsml_get_trans finds a transition for the pair (i, j) exactly when one has those indices. */
  lemma CoveredByIndex(d: Dsm, i: nat, j: nat)
    requires TransInRange(d) && Distinct(StateNames(d.states)) && Distinct(d.inputs)
    requires i < |d.states| && j < |d.inputs|
    ensures Covered(d, i, j) <==> exists k :: 0 <= k < |d.trans| && d.trans[k].fromState == i && d.trans[k].input == j
  {
    if Covered(d, i, j) {
      var k :| 0 <= k < |d.trans| && TransMatches(d, k, d.states[i].symbol, d.inputs[j]);
      TransMatchesByIndex(d, k, i, j);
    }
    if exists k :: 0 <= k < |d.trans| && d.trans[k].fromState == i && d.trans[k].input == j {
      var k :| 0 <= k < |d.trans| && d.trans[k].fromState == i && d.trans[k].input == j;
      TransMatchesByIndex(d, k, i, j);
    }
  }

  // ---------------------------------------------------------------------
  // Counting
  // ---------------------------------------------------------------------

  /** The (from-state, input) pairs the transitions use. */
  ghost function Pairs(ts: seq<Trans>): set<(nat, nat)>
  {
    set k | 0 <= k < |ts| :: (ts[k].fromState, ts[k].input)
  }

  ghost function Row(i: nat, n: nat): set<(nat, nat)>
  {
    set j: nat | j < n :: (i, j)
  }

  /** All pairs of a state below `s` and an input below `n`. */
  ghost function Grid(s: nat, n: nat): set<(nat, nat)>
  {
    if s == 0 then {} else Grid(s - 1, n) + Row(s - 1, n)
  }

  lemma {:induction false} GridMembers(s: nat, n: nat)
    ensures forall p :: p in Grid(s, n) <==> p.0 < s && p.1 < n
  {
    if s > 0 { GridMembers(s - 1, n); }
  }

  lemma {:induction false} RowSize(i: nat, n: nat)
    ensures |Row(i, n)| == n
  {
    if n > 0 {
      RowSize(i, n - 1);
      assert Row(i, n) == Row(i, n - 1) + {(i, n - 1)};
    }
  }

  lemma {:induction false} GridSize(s: nat, n: nat)
    ensures |Grid(s, n)| == s * n
  {
    if s > 0 {
      var g, r := Grid(s - 1, n), Row(s - 1, n);
      assert Grid(s, n) == g + r;
      GridDisjoint(s - 1, n);
      DisjointUnionSize(g, r);
      GridSize(s - 1, n);
      RowSize(s - 1, n);
      MulStep(s, n);
    }
  }

  lemma GridDisjoint(s: nat, n: nat)
    ensures forall p :: p in Grid(s, n) ==> p !in Row(s, n)
  {
    GridMembers(s, n);
  }

  lemma MulStep(s: nat, n: nat)
    requires s > 0
    ensures s * n == (s - 1) * n + n
  {
  }

  lemma DisjointUnionSize<T>(a: set<T>, b: set<T>)
    requires forall x :: x in a ==> x !in b
    ensures |a + b| == |a| + |b|
  {
    assert a * b == {};
  }

  /** Pairwise different pairs: as many pairs as transitions. */
  lemma {:induction false} PairsSize(ts: seq<Trans>)
    requires forall k, l :: 0 <= k < l < |ts| ==> ts[k].fromState != ts[l].fromState || ts[k].input != ts[l].input
    ensures |Pairs(ts)| == |ts|
  {
    if ts != [] {
      var n := |ts| - 1;
      var front := ts[..n];
      PairsSize(front);
      assert Pairs(ts) == Pairs(front) + {(ts[n].fromState, ts[n].input)};
      assert (ts[n].fromState, ts[n].input) !in Pairs(front);
    }
  }

  lemma SubsetSize<T>(a: set<T>, b: set<T>)
    requires a <= b
    ensures |a| <= |b|
    ensures |a| == |b| ==> a == b
  {
    assert b == a + (b - a);
    assert a * (b - a) == {};
    if a != b {
      var x :| x in b - a;
    }
  }

  /**
   * Under the invariant, dsml_validate_dsm's coverage check passes exactly when
   * there are |states| * |inputs| transitions.
   */
  lemma CompleteIffFull(d: Dsm)
    requires WellFormed(d)
    ensures Complete(d) <==> |d.trans| == |d.states| * |d.inputs|
  {
    var P, G := Pairs(d.trans), Grid(|d.states|, |d.inputs|);
    PairsInGrid(d);
    SubsetSize(P, G);
    if Complete(d) {
      CompleteCoversGrid(d);
      SubsetSize(G, P);
    }
    if |d.trans| == |d.states| * |d.inputs| {
      GridCoveredComplete(d);
    }
  }

  /** Every transition's pair lies in the grid, and there are as many pairs as transitions. */
  lemma PairsInGrid(d: Dsm)
    requires WellFormed(d)
    ensures Pairs(d.trans) <= Grid(|d.states|, |d.inputs|)
    ensures |Pairs(d.trans)| == |d.trans|
    ensures |Grid(|d.states|, |d.inputs|)| == |d.states| * |d.inputs|
  {
    PairsSize(d.trans);
    GridSize(|d.states|, |d.inputs|);
    GridMembers(|d.states|, |d.inputs|);
    forall p | p in Pairs(d.trans) ensures p in Grid(|d.states|, |d.inputs|) {
      var k :| 0 <= k < |d.trans| && p == (d.trans[k].fromState, d.trans[k].input);
      assert TransRefsOk(d, d.trans[k]);
    }
  }

  /** A complete record has a transition for every pair of the grid. */
  lemma CompleteCoversGrid(d: Dsm)
    requires WellFormed(d) && Complete(d)
    ensures Grid(|d.states|, |d.inputs|) <= Pairs(d.trans)
  {
    GridMembers(|d.states|, |d.inputs|);
    forall p | p in Grid(|d.states|, |d.inputs|) ensures p in Pairs(d.trans) {
      var (i, j) := p;
      assert Covered(d, i, j);
      CoveredByIndex(d, i, j);
      var k :| 0 <= k < |d.trans| && d.trans[k].fromState == i && d.trans[k].input == j;
    }
  }

  /** |states| * |inputs| transitions, pairwise different, cover every pair. */
  lemma GridCoveredComplete(d: Dsm)
    requires WellFormed(d) && |d.trans| == |d.states| * |d.inputs|
    ensures Complete(d)
  {
    var P, G := Pairs(d.trans), Grid(|d.states|, |d.inputs|);
    PairsInGrid(d);
    SubsetSize(P, G);
    GridMembers(|d.states|, |d.inputs|);
    forall i, j | 0 <= i < |d.states| && 0 <= j < |d.inputs| ensures Covered(d, i, j) {
      assert (i, j) in G;
      var k :| 0 <= k < |d.trans| && (i, j) == (d.trans[k].fromState, d.trans[k].input);
      CoveredByIndex(d, i, j);
    }
  }

  /** The indices below `n`. */
  ghost function Range(n: nat): set<nat>
  {
    if n == 0 then {} else Range(n - 1) + {n - 1}
  }

  lemma {:induction false} RangeFacts(n: nat)
    ensures |Range(n)| == n
    ensures forall i: nat :: i in Range(n) <==> i < n
  {
    if n > 0 { RangeFacts(n - 1); }
  }

  /** A sequence of pairwise different indices below `n` has at most `n` entries. */
  lemma DistinctBelow(s: seq<nat>, n: nat)
    requires Distinct(s) && forall k :: 0 <= k < |s| ==> s[k] < n
    ensures |s| <= n
  {
    var e := set k | 0 <= k < |s| :: s[k];
    DistinctSize(s);
    RangeFacts(n);
    SubsetSize(e, Range(n));
  }

  lemma {:induction false} DistinctSize(s: seq<nat>)
    requires Distinct(s)
    ensures |set k | 0 <= k < |s| :: s[k]| == |s|
  {
    if s != [] {
      var n := |s| - 1;
      DistinctSize(s[..n]);
      assert (set k | 0 <= k < |s| :: s[k]) == (set k | 0 <= k < n :: s[..n][k]) + {s[n]};
      assert s[n] !in (set k | 0 <= k < n :: s[..n][k]);
    }
  }
}
