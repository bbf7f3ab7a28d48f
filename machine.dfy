/**
 * machine_init of src/machine.c: a validated parser record lowered into a
 * machine whose states each own a transition table indexed by input. The
 * machine refers to its states and outputs by index where the C code keeps
 * pointers.
 */
module MachineCompiler {
  import opened Types
  import opened Dsml
  import opened DsmlInvariants
  import opened DsmlParser

  datatype MachineStatus = MachineSuccess | MachineNullParam | MachineInvalParser

  /** struct machine_trans: the next state and the output, as indices into the machine's lists. */
  datatype MachineTrans = MachineTrans(nextState: nat, output: Option<nat>)

  /** struct machine_state; `transTable` has one cell per input. */
  datatype MachineState = MachineState(symbol: string, transTable: array<MachineTrans>, isFinal: bool)

  /** struct machine_instance; the list sizes are the lengths of the arrays. */
  class MachineInstance {
    var inputList: array<string>
    var stateList: array<MachineState>
    var outputList: array<string>
    var entryState: nat

    /** An instance before machine_init: empty lists. */
    constructor ()
      ensures inputList.Length == 0 && stateList.Length == 0 && outputList.Length == 0
      ensures entryState == 0
    {
      inputList := new string[0];
      stateList := new MachineState[0];
      outputList := new string[0];
      entryState := 0;
    }
  }

  /** What machine_init demands of the parser before it lowers it. */
  predicate Guard(d: Dsm)
  {
    d.hasEntry && |d.inputs| != 0 && |d.states| != 0 && |d.trans| == |d.states| * |d.inputs|
  }

  /**
   * The cell for input `j` of state `i`: where the transition that
   * dsml_get_trans finds for the pair's names leads, and what it emits.
   */
  function Cell(d: Dsm, i: nat, j: nat): (c: MachineTrans)
    requires WellFormed(d) && Guard(d) && i < |d.states| && j < |d.inputs|
    ensures c.nextState < |d.states|
    ensures c.output.Some? ==> c.output.value < |d.outputs|
  {
    CompleteIffFull(d);
    assert Covered(d, i, j);
    var t := d.trans[GetTrans(d, d.states[i].symbol, d.inputs[j]).value];
    MachineTrans(t.toState, t.output)
  }

  // ---------------------------------------------------------------------
  // Properties of the lowering
  // ---------------------------------------------------------------------

  /**
   * Under the parser invariant, a record passes machine_init's guard exactly
   * when it passes dsml_validate_dsm.
   */
  lemma GuardIffValid(d: Dsm)
    requires WellFormed(d)
    ensures Guard(d) <==> ValidateDsm(d) == Success
  {
    CompleteIffFull(d);
  }

  /** Every cell describes the one transition that leaves state `i` on input `j`. */
  lemma CellIsTransition(d: Dsm, i: nat, j: nat, k: nat)
    requires WellFormed(d) && Guard(d) && i < |d.states| && j < |d.inputs|
    requires k < |d.trans| && d.trans[k].fromState == i && d.trans[k].input == j
    ensures Cell(d, i, j) == MachineTrans(d.trans[k].toState, d.trans[k].output)
  {
    CompleteIffFull(d);
    assert Covered(d, i, j);
    var g := GetTrans(d, d.states[i].symbol, d.inputs[j]).value;
    TransMatchesByIndex(d, g, i, j);
    assert g == k;
  }

  /** Such a transition exists for every cell of a record that passes the guard. */
  lemma CellHasTransition(d: Dsm, i: nat, j: nat)
    requires WellFormed(d) && Guard(d) && i < |d.states| && j < |d.inputs|
    ensures exists k :: 0 <= k < |d.trans| && d.trans[k].fromState == i && d.trans[k].input == j
                        && Cell(d, i, j) == MachineTrans(d.trans[k].toState, d.trans[k].output)
  {
    CompleteIffFull(d);
    assert Covered(d, i, j);
    CoveredByIndex(d, i, j);
    var k :| 0 <= k < |d.trans| && d.trans[k].fromState == i && d.trans[k].input == j;
    CellIsTransition(d, i, j, k);
  }

  // ---------------------------------------------------------------------
  // machine_init
  // ---------------------------------------------------------------------

  /** The strcmp search of machine_init over a list of names. */
  method FindName(names: array<string>, symbol: string) returns (r: Option<nat>)
    ensures r == IndexOf(names[..], symbol, 0)
  {
    var k := 0;
    while k < names.Length
      invariant k <= names.Length
      invariant IndexOf(names[..], symbol, 0) == IndexOf(names[..], symbol, k)
    {
      if names[k] == symbol {
        return Some(k);
      }
      k := k + 1;
    }
    return None;
  }

  /** The strcmp search of machine_init over the machine's states. */
  method FindState(states: array<MachineState>, symbol: string) returns (r: Option<nat>)
    ensures r.Some? ==> r.value < states.Length && states[r.value].symbol == symbol
                        && forall k :: 0 <= k < r.value ==> states[k].symbol != symbol
    ensures r.None? ==> forall k :: 0 <= k < states.Length ==> states[k].symbol != symbol
  {
    var k := 0;
    while k < states.Length
      invariant k <= states.Length
      invariant forall l :: 0 <= l < k ==> states[l].symbol != symbol
    {
      if states[k].symbol == symbol {
        return Some(k);
      }
      k := k + 1;
    }
    return None;
  }

  /** The copying loops of machine_init for the input and output names. */
  method CopyNames(names: seq<string>) returns (list: array<string>)
    ensures fresh(list) && list[..] == names
  {
    list := new string[|names|];
    var i := 0;
    while i < |names|
      invariant i <= |names|
      invariant list[..i] == names[..i]
    {
      list[i] := names[i];
      i := i + 1;
    }
  }

  /**
   * The state loop of machine_init: each state gets its name, its final
   * flag and a fresh table of `inputCount` cells; the entry state is the
   * one with the entry flag, and stays `entry0` when there is none.
   */
  method CopyStates(states: seq<State>, inputCount: nat, entry0: nat)
    returns (list: array<MachineState>, entry: nat)
    requires forall i, j :: 0 <= i < j < |states| ==> !(states[i].isEntry && states[j].isEntry)
    ensures fresh(list) && list.Length == |states|
    ensures forall i :: 0 <= i < |states| ==>
              && list[i].symbol == states[i].symbol && list[i].isFinal == states[i].isFinal
              && fresh(list[i].transTable) && list[i].transTable.Length == inputCount
    ensures forall i, j :: 0 <= i < j < |states| ==> list[i].transTable != list[j].transTable
    ensures forall i :: 0 <= i < |states| && states[i].isEntry ==> entry == i
    ensures (forall i :: 0 <= i < |states| ==> !states[i].isEntry) ==> entry == entry0
  {
    list := new MachineState[|states|];
    entry := entry0;
    var i := 0;
    while i < |states|
      invariant i <= |states|
      invariant forall k :: 0 <= k < i ==>
                  && list[k].symbol == states[k].symbol && list[k].isFinal == states[k].isFinal
                  && fresh(list[k].transTable) && list[k].transTable.Length == inputCount
      invariant forall k, l :: 0 <= k < l < i ==> list[k].transTable != list[l].transTable
      invariant forall k :: 0 <= k < i && states[k].isEntry ==> entry == k
      invariant (forall k :: 0 <= k < i ==> !states[k].isEntry) ==> entry == entry0
    {
      var table := new MachineTrans[inputCount];
      list[i] := MachineState(states[i].symbol, table, states[i].isFinal);
      if states[i].isEntry {
        entry := i;
      }
      i := i + 1;
    }
  }

  /** No two states share a transition table. */
  ghost predicate TablesApart(states: array<MachineState>)
    reads states
  {
    forall i, j :: 0 <= i < j < states.Length ==> states[i].transTable != states[j].transTable
  }

  /**
   * The inner loop of machine_init for state `i`: cell `j` of its table
   * names the next state and the output of the transition for input `j`.
   */
  method ConnectState(d: Dsm, i: nat, states: array<MachineState>, inputs: array<string>,
                      outputs: array<string>)
    requires WellFormed(d) && Guard(d) && i < |d.states|
    requires states.Length == |d.states| && inputs[..] == d.inputs && outputs[..] == d.outputs
    requires forall k :: 0 <= k < states.Length ==> states[k].symbol == d.states[k].symbol
    requires states[i].transTable.Length == |d.inputs|
    modifies states[i].transTable
    ensures forall j :: 0 <= j < |d.inputs| ==> states[i].transTable[j] == Cell(d, i, j)
  {
    var table := states[i].transTable;
    var j := 0;
    while j < inputs.Length
      invariant j <= inputs.Length
      invariant forall l :: 0 <= l < j ==> table[l] == Cell(d, i, l)
    {
      var cell := ComputeCell(d, i, j, states, inputs, outputs);
      table[j] := cell;
      j := j + 1;
    }
  }

  /**
   * One cell of the inner loop of machine_init: the transition for state `i`
   * and input `j`, its next state and output found by name.
   */
  method ComputeCell(d: Dsm, i: nat, j: nat, states: array<MachineState>, inputs: array<string>,
                     outputs: array<string>) returns (cell: MachineTrans)
    requires WellFormed(d) && Guard(d) && i < |d.states| && j < |d.inputs|
    requires states.Length == |d.states| && inputs[..] == d.inputs && outputs[..] == d.outputs
    requires forall k :: 0 <= k < states.Length ==> states[k].symbol == d.states[k].symbol
    ensures cell == Cell(d, i, j)
  {
    CompleteIffFull(d);
    var stateSymbol := states[i].symbol;
    var inputSymbol := inputs[j];
    assert Covered(d, i, j);
    var t := d.trans[GetTrans(d, stateSymbol, inputSymbol).value];
    assert TransRefsOk(d, t);
    var next := FindState(states, d.states[t.toState].symbol);
    StateNameInjective(d, next.value, t.toState);
    var output: Option<nat> := None;
    if t.output.Some? {
      output := FindName(outputs, d.outputs[t.output.value]);
      assert outputs[..][output.value] == outputs[t.output.value];
    }
    cell := MachineTrans(next.value, output);
  }

  /** The outer connecting loop of machine_init, one state at a time. */
  method ConnectStates(d: Dsm, states: array<MachineState>, inputs: array<string>, outputs: array<string>)
    requires WellFormed(d) && Guard(d)
    requires states.Length == |d.states| && inputs[..] == d.inputs && outputs[..] == d.outputs
    requires forall k :: 0 <= k < states.Length ==>
               states[k].symbol == d.states[k].symbol && states[k].transTable.Length == |d.inputs|
    requires TablesApart(states)
    modifies set k | 0 <= k < states.Length :: states[k].transTable
    ensures forall i, j :: 0 <= i < |d.states| && 0 <= j < |d.inputs| ==> states[i].transTable[j] == Cell(d, i, j)
  {
    var i := 0;
    while i < states.Length
      invariant i <= states.Length
      invariant forall k, j :: 0 <= k < i && 0 <= j < |d.inputs| ==> states[k].transTable[j] == Cell(d, k, j)
    {
      ConnectState(d, i, states, inputs, outputs);
      i := i + 1;
    }
  }

  /**
   * machine_init. A null argument gives NULL_PARAM; a parser that fails the
   * guard gives INVAL_PARSER and leaves the machine as it was; otherwise the
   * machine holds the parser's inputs, states and outputs in declaration
   * order, the entry state, and one table cell per (state, input) pair.
   */
  method MachineInit(machine: MachineInstance?, parser: Parser?) returns (status: MachineStatus)
    requires parser != null ==> WellFormed(parser.View())
    modifies machine
    ensures machine == null || parser == null ==> status == MachineNullParam
    ensures machine != null && parser != null ==>
              status == if Guard(parser.View()) then MachineSuccess else MachineInvalParser
    ensures status != MachineSuccess ==> machine == null || unchanged(machine)
    ensures status == MachineSuccess ==>
              && machine != null && parser != null && Guard(parser.View())
              && fresh(machine.inputList) && fresh(machine.stateList) && fresh(machine.outputList)
              && machine.inputList[..] == parser.inputs
              && machine.outputList[..] == parser.outputs
              && machine.stateList.Length == |parser.states|
              && (forall i :: 0 <= i < |parser.states| ==> fresh(machine.stateList[i].transTable))
              && TablesApart(machine.stateList)
              && (forall i :: 0 <= i < |parser.states| ==>
                    && machine.stateList[i].symbol == parser.states[i].symbol
                    && machine.stateList[i].isFinal == parser.states[i].isFinal
                    && machine.stateList[i].transTable.Length == |parser.inputs|)
              && (forall i, j :: 0 <= i < |parser.states| && 0 <= j < |parser.inputs| ==>
                    machine.stateList[i].transTable[j] == Cell(parser.View(), i, j))
              && (forall i :: 0 <= i < |parser.states| && parser.states[i].isEntry ==> machine.entryState == i)
              && ((forall i :: 0 <= i < |parser.states| ==> !parser.states[i].isEntry) ==>
                    machine.entryState == old(machine.entryState))
  {
    if machine == null || parser == null {
      return MachineNullParam;
    }
    if !parser.hasEntry || |parser.inputs| == 0 || |parser.states| == 0
       || |parser.trans| != |parser.states| * |parser.inputs| {
      return MachineInvalParser;
    }
    Lower(machine, parser.View());
    return MachineSuccess;
  }

  /** The copying and connecting part of machine_init, for a record that passed the guard. */
  method Lower(machine: MachineInstance, d: Dsm)
    requires WellFormed(d) && Guard(d)
    modifies machine
    ensures fresh(machine.inputList) && fresh(machine.stateList) && fresh(machine.outputList)
    ensures machine.inputList[..] == d.inputs && machine.outputList[..] == d.outputs
    ensures machine.stateList.Length == |d.states|
    ensures forall i :: 0 <= i < |d.states| ==> fresh(machine.stateList[i].transTable)
    ensures TablesApart(machine.stateList)
    ensures forall i :: 0 <= i < |d.states| ==>
              && machine.stateList[i].symbol == d.states[i].symbol
              && machine.stateList[i].isFinal == d.states[i].isFinal
              && machine.stateList[i].transTable.Length == |d.inputs|
    ensures forall i, j :: 0 <= i < |d.states| && 0 <= j < |d.inputs| ==>
              machine.stateList[i].transTable[j] == Cell(d, i, j)
    ensures forall i :: 0 <= i < |d.states| && d.states[i].isEntry ==> machine.entryState == i
    ensures (forall i :: 0 <= i < |d.states| ==> !d.states[i].isEntry) ==> machine.entryState == old(machine.entryState)
  {
    var inputs := CopyNames(d.inputs);
    var states, entry := CopyStates(d.states, |d.inputs|, machine.entryState);
    var outputs := CopyNames(d.outputs);
    ConnectStates(d, states, inputs, outputs);
    machine.inputList, machine.stateList, machine.outputList := inputs, states, outputs;
    machine.entryState := entry;
  }
}
