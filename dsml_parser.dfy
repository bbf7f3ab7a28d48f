/**
 * The parser record of src/dsml.c as an object whose lists grow in place,
 * and the statement parsers as methods over it. Each method is proved to
 * leave the record and return the status that the functional model in
 * module Dsml prescribes, so every property proved there about the
 * functions holds of the methods.
 */
module DsmlParser {
  import opened Types
  import opened CType
  import opened Dsml
  import opened DsmlInvariants
  import Util

  // ---------------------------------------------------------------------
  // List capacities
  // ---------------------------------------------------------------------

  /**
   * A list's capacity starts at INIT_CAP and grows by CAP_INCR exactly when
   * the list is full, so it never falls below the size and is never a whole
   * increment ahead of it.
   */
  predicate CapacityOk(size: nat, cap: nat)
  {
    && size <= cap
    && InitCap <= cap && (cap - InitCap) % CapIncr == 0
    && (cap > InitCap ==> cap - CapIncr < size)
  }

  /** The capacity after one append to a list of `size` entries and capacity `cap`. */
  function Grown(size: nat, cap: nat): (c: nat)
    requires CapacityOk(size, cap)
    ensures CapacityOk(size + 1, c)
    ensures c == cap || (size == cap && c == cap + CapIncr)
  {
    if size == cap then cap + CapIncr else cap
  }

  // ---------------------------------------------------------------------
  // dsml_trim_symbol
  // ---------------------------------------------------------------------

  const Nul: char := '\0'

  /**
   * Copies `symbol` without its leading and trailing white space into
   * `buffer`, NUL-terminated; `len` is the length of what was copied. The
   * buffer's length plays the part of buffer_size.
   */
  method TrimSymbol(symbol: string, buffer: array<char>) returns (status: Status, len: nat)
    modifies buffer
    ensures symbol == [] ==> status == EmptySymbol
    ensures symbol != [] && |symbol| >= buffer.Length ==> status == InvalParam
    ensures symbol != [] && |symbol| < buffer.Length ==> status == Success
    ensures status != Success ==> buffer[..] == old(buffer[..])
    ensures status == Success ==>
              && len < buffer.Length
              && buffer[..len] == Trimmed(symbol)
              && buffer[len] == Nul
              && buffer[len + 1..] == old(buffer[len + 1..])
  {
    if |symbol| == 0 {
      return EmptySymbol, 0;
    }
    if buffer.Length == 0 {
      return InvalParam, 0;
    }
    if |symbol| >= buffer.Length {
      return InvalParam, 0;
    }
    var front := SkipLeading(symbol);
    TrimmedSlice(symbol);
    len := 0;
    if front < |symbol| {
      var back := SkipTrailing(symbol, front);
      len := CopyRange(symbol, front, back, buffer);
    }
    Terminate(buffer, len);
    return Success, len;
  }

  /** Trimmed(s) in terms of the two scans of dsml_trim_symbol. */
  lemma TrimmedSlice(s: string)
    ensures LeadingSpaces(s) == |s| ==> Trimmed(s) == []
    ensures LeadingSpaces(s) < |s| ==> Trimmed(s) == s[LeadingSpaces(s)..|s| - TrailingSpaces(s)]
  {
  }

  /** The NUL that dsml_trim_symbol writes after the copied symbol. */
  method Terminate(buffer: array<char>, len: nat)
    requires len < buffer.Length
    modifies buffer
    ensures buffer[..len] == old(buffer[..len])
    ensures buffer[len] == Nul
    ensures buffer[len + 1..] == old(buffer[len + 1..])
  {
    buffer[len] := Nul;
  }

  /** The forward scan of dsml_trim_symbol over leading white space. */
  method SkipLeading(symbol: string) returns (front: nat)
    ensures front == LeadingSpaces(symbol)
  {
    front := 0;
    while front < |symbol| && IsSpaceChar(symbol[front])
      invariant front <= |symbol|
      invariant forall i :: 0 <= i < front ==> IsSpaceChar(symbol[i])
    {
      front := front + 1;
    }
  }

  /** The backward scan of dsml_trim_symbol over trailing white space, stopping before `front`. */
  method SkipTrailing(symbol: string, front: nat) returns (back: nat)
    requires front < |symbol| && !IsSpaceChar(symbol[front])
    ensures front < back <= |symbol|
    ensures back == |symbol| - TrailingSpaces(symbol)
  {
    back := |symbol|;
    while back - 1 != front && IsSpaceChar(symbol[back - 1])
      invariant front < back <= |symbol|
      invariant forall i :: back <= i < |symbol| ==> IsSpaceChar(symbol[i])
    {
      back := back - 1;
    }
    assert back == |symbol| - TrailingSpaces(symbol) by {
      var t := TrailingSpaces(symbol);
      assert t < |symbol| - front;
    }
  }

  /** The do-while copy of dsml_trim_symbol: `symbol[from..to]`, at least one character, to the front of `buffer`. */
  method CopyRange(symbol: string, from: nat, to: nat, buffer: array<char>) returns (len: nat)
    requires from < to <= |symbol| && to - from < buffer.Length
    modifies buffer
    ensures len == to - from
    ensures buffer[..len] == symbol[from..to]
    ensures buffer[len + 1..] == old(buffer[len + 1..])
  {
    var front := from;
    len := 0;
    buffer[len] := symbol[front];
    len, front := len + 1, front + 1;
    while front != to
      invariant from < front <= to && len == front - from
      invariant buffer[..len] == symbol[from..front]
      invariant buffer[len..] == old(buffer[len..])
    {
      buffer[len] := symbol[front];
      len, front := len + 1, front + 1;
    }
    assert buffer[len + 1..] == buffer[len..][1..];
  }

  // ---------------------------------------------------------------------
  // The parser record
  // ---------------------------------------------------------------------

  /** struct dsml_parser: four lists with their capacities and the entry flag. */
  class Parser {
    var states: seq<State>
    var stateCap: nat
    var inputs: seq<string>
    var inputCap: nat
    var outputs: seq<string>
    var outputCap: nat
    var trans: seq<Trans>
    var transCap: nat
    var hasEntry: bool

    /** The record's contents, without the capacities. */
    function View(): Dsm
      reads this
    {
      Dsm(states, inputs, outputs, trans, hasEntry)
    }

    ghost predicate Valid()
      reads this
    {
      && CapacityOk(|states|, stateCap) && CapacityOk(|inputs|, inputCap)
      && CapacityOk(|outputs|, outputCap) && CapacityOk(|trans|, transCap)
      && TransInRange(View())
    }

    /** dsml_parser_init: empty lists of capacity INIT_CAP and no entry state. */
    constructor ()
      ensures Valid() && View() == InitialDsm
      ensures stateCap == InitCap && inputCap == InitCap && outputCap == InitCap && transCap == InitCap
    {
      states, stateCap := [], InitCap;
      inputs, inputCap := [], InitCap;
      outputs, outputCap := [], InitCap;
      trans, transCap := [], InitCap;
      hasEntry := false;
    }

    /** dsml_add_state; the other lists and capacities stay as they are. */
    method AddState(symbol: string, isFinal: bool, isEntry: bool)
      requires Valid()
      modifies this
      ensures Valid()
      ensures View() == Dsml.AddState(old(View()), symbol, isFinal, isEntry)
      ensures stateCap == Grown(old(|states|), old(stateCap))
      ensures inputCap == old(inputCap) && outputCap == old(outputCap) && transCap == old(transCap)
    {
      if |states| == stateCap {
        stateCap := stateCap + CapIncr;
      }
      states := states + [State(symbol, isEntry, isFinal)];
      assert forall k :: 0 <= k < |trans| ==> TransRefsOk(old(View()), trans[k]);
    }

    /** dsml_add_input. */
    method AddInput(symbol: string)
      requires Valid()
      modifies this
      ensures Valid()
      ensures View() == Dsml.AddInput(old(View()), symbol)
      ensures inputCap == Grown(old(|inputs|), old(inputCap))
      ensures stateCap == old(stateCap) && outputCap == old(outputCap) && transCap == old(transCap)
    {
      if |inputs| == inputCap {
        inputCap := inputCap + CapIncr;
      }
      inputs := inputs + [symbol];
      assert forall k :: 0 <= k < |trans| ==> TransRefsOk(old(View()), trans[k]);
    }

    /** dsml_add_output. */
    method AddOutput(symbol: string)
      requires Valid()
      modifies this
      ensures Valid()
      ensures View() == Dsml.AddOutput(old(View()), symbol)
      ensures outputCap == Grown(old(|outputs|), old(outputCap))
      ensures stateCap == old(stateCap) && inputCap == old(inputCap) && transCap == old(transCap)
    {
      if |outputs| == outputCap {
        outputCap := outputCap + CapIncr;
      }
      outputs := outputs + [symbol];
      assert forall k :: 0 <= k < |trans| ==> TransRefsOk(old(View()), trans[k]);
    }

    /** dsml_add_trans, for a transition whose references are in range. */
    method AddTrans(t: Trans)
      requires Valid() && TransRefsOk(View(), t)
      modifies this
      ensures Valid()
      ensures View() == Dsml.AddTrans(old(View()), t)
      ensures transCap == Grown(old(|trans|), old(transCap))
      ensures stateCap == old(stateCap) && inputCap == old(inputCap) && outputCap == old(outputCap)
    {
      if |trans| == transCap {
        transCap := transCap + CapIncr;
      }
      trans := trans + [t];
    }

    /**
     * One line of the driver loop of dsml_parse_script: blank and comment
     * lines are skipped, a keyword alone or an unknown keyword is an error,
     * and anything else goes to the statement parser the keyword names.
     */
    method ParseLine(line: string) returns (error: Option<LineError>)
      requires Valid()
      modifies this
      ensures Valid()
      ensures Dsml.ParseLine(old(View()), line) == if error.Some? then Err(error.value) else Ok(View())
    {
      if Util.IsBlank(Some(line)) || |line| == 0 {
        return None;
      }
      if IsComment(line) {
        return None;
      }
      var (keyword, payload) := SplitStatement(line);
      if payload.None? {
        return Some(ExpectedExpression);
      }
      ghost var spec := Dsml.ParseLine(View(), line);
      var status: Status;
      match ParseLexemeKeyword(keyword) {
      case LexemeState =>
        assert spec == Outcome(Dsml.ParseState(View(), payload.value));
        status := ParseState(payload.value);
      case LexemeInput =>
        assert spec == Outcome(Dsml.ParseIo(View(), payload.value, true));
        status := ParseIo(payload.value, true);
      case LexemeOutput =>
        assert spec == Outcome(Dsml.ParseIo(View(), payload.value, false));
        status := ParseIo(payload.value, false);
      case LexemeTrans =>
        assert spec == Outcome(Dsml.ParseTrans(View(), payload.value));
        status := ParseTrans(payload.value);
      case LexemeUndef =>
        return Some(UnknownKeyword);
      }
      var outcome := Outcome(Step(View(), status));
      assert spec == outcome;
      return if outcome.Err? then Some(outcome.error) else None;
    }

    /**
     * dsml_parse_state. The token sequence stands for the strtok walk over
     * the payload, `next` for its position.
     */
    method ParseState(payload: string) returns (status: Status)
      requires Valid()
      modifies this
      ensures Valid()
      ensures Step(View(), status) == Dsml.ParseState(old(View()), payload)
      ensures inputCap == old(inputCap) && outputCap == old(outputCap) && transCap == old(transCap)
    {
      if |payload| == 0 {
        return EmptySymbol;
      }
      var toks := Tokens(payload, SymbolDelim);
      if toks == [] {
        return EmptySymbol;
      }
      ghost var spec := Dsml.ParseState(View(), payload);
      var isFinal, isEntry := false, false;
      var next := 0;
      // the modifiers: at most two rounds
      while next < 2 && next < |toks|
        invariant next <= 2 && next <= |toks|
        invariant Valid() && states == old(states)
        invariant inputCap == old(inputCap) && outputCap == old(outputCap) && transCap == old(transCap)
        invariant spec == ParseModifiers(View(), toks[next..], isFinal, isEntry, next)
      {
        assert toks[next..][1..] == toks[next + 1..];
        if toks[next] == Keywords[FinalKeywordIndex] {
          if isFinal {
            return RedefKeyword;
          }
          isFinal := true;
        } else if toks[next] == Keywords[EntryKeywordIndex] {
          if isEntry {
            return RedefKeyword;
          }
          if hasEntry {
            return MultEntry;
          }
          isEntry := true;
          hasEntry := true;
        } else {
          break;
        }
        next := next + 1;
      }
      assert spec == Dsml.AddStateSymbols(View(), toks[next..], isFinal, isEntry, 0);
      status := AddStateSymbols(toks[next..], isFinal, isEntry);
    }

    /** The symbol loop of dsml_parse_state, over the tokens after the modifiers. */
    method AddStateSymbols(toks: seq<string>, isFinal: bool, isEntry: bool) returns (status: Status)
      requires Valid()
      modifies this
      ensures Valid()
      ensures Step(View(), status) == Dsml.AddStateSymbols(old(View()), toks, isFinal, isEntry, 0)
      ensures inputCap == old(inputCap) && outputCap == old(outputCap) && transCap == old(transCap)
    {
      ghost var spec := Dsml.AddStateSymbols(View(), toks, isFinal, isEntry, 0);
      var next := 0;
      var count := 0;
      while next < |toks|
        invariant next <= |toks| && count == next
        invariant Valid()
        invariant inputCap == old(inputCap) && outputCap == old(outputCap) && transCap == old(transCap)
        invariant spec == Dsml.AddStateSymbols(View(), toks[next..], isFinal, isEntry, count)
      {
        ghost var before := View();
        StateSymbolsAt(before, toks, next, isFinal, isEntry, count);
        count := count + 1;
        if isEntry && count > 1 {
          return MultEntry;
        }
        if !ValidateSymbol(toks[next]) {
          return InvalSymbol;
        }
        if SymbolExists(View(), toks[next], LexemeState) {
          return RedefSymbol;
        }
        AddState(toks[next], isFinal, isEntry);
        next := next + 1;
      }
      StateSymbolsAt(View(), toks, next, isFinal, isEntry, count);
      if count == 0 {
        return EmptySymbol;
      }
      return Success;
    }

    /** dsml_parse_io: `input` statements when `isInput`, `output` statements otherwise. */
    method ParseIo(payload: string, isInput: bool) returns (status: Status)
      requires Valid()
      modifies this
      ensures Valid()
      ensures Step(View(), status) == Dsml.ParseIo(old(View()), payload, isInput)
      ensures stateCap == old(stateCap) && transCap == old(transCap)
      ensures isInput ==> outputCap == old(outputCap)
      ensures !isInput ==> inputCap == old(inputCap)
    {
      if |payload| == 0 {
        return EmptySymbol;
      }
      var toks := Tokens(payload, SymbolDelim);
      if toks == [] {
        return EmptySymbol;
      }
      ghost var spec := Dsml.ParseIo(View(), payload, isInput);
      var lexemeType := if isInput then LexemeInput else LexemeOutput;
      var next := 0;
      while next < |toks|
        invariant next <= |toks|
        invariant Valid()
        invariant stateCap == old(stateCap) && transCap == old(transCap)
        invariant isInput ==> outputCap == old(outputCap)
        invariant !isInput ==> inputCap == old(inputCap)
        invariant spec == AddIoSymbols(View(), toks[next..], isInput)
      {
        assert toks[next..][1..] == toks[next + 1..];
        if !ValidateSymbol(toks[next]) {
          return InvalSymbol;
        }
        if SymbolExists(View(), toks[next], lexemeType) {
          return RedefSymbol;
        }
        if isInput {
          AddInput(toks[next]);
        } else {
          AddOutput(toks[next]);
        }
        next := next + 1;
      }
      return Success;
    }

    /**
     * dsml_parse_trans: `from : in+ : to : out|-`. Every field is trimmed into
     * one buffer of MAX_STRING_LEN + 1 characters; the transitions are
     * appended only once every field has passed.
     */
    method ParseTrans(payload: string) returns (status: Status)
      requires Valid()
      modifies this
      ensures Valid()
      ensures Step(View(), status) == Dsml.ParseTrans(old(View()), payload)
      ensures stateCap == old(stateCap) && inputCap == old(inputCap) && outputCap == old(outputCap)
    {
      if |payload| == 0 {
        return InvalParam;
      }
      var d := View();
      assert Names(d, LexemeState) == StateNames(states) && Names(d, LexemeOutput) == outputs;
      var fields := Tokens(payload, TransDelim);
      var buffer := new char[MaxStringLen + 1];
      var len: nat;
      // from-state
      if |fields| == 0 {
        return InvalParamNum;
      }
      status, len := TrimSymbol(fields[0], buffer);
      if status != Success {
        return;
      }
      var fromState := GetEntity(d, buffer[..len], LexemeState);
      assert fromState == GetEntity(d, Trimmed(fields[0]), LexemeState);
      if fromState.None? {
        return UndefSymbol;
      }
      var from := fromState.value;
      // input symbols
      if |fields| == 1 || (|fields| == 2 && payload[|payload| - 1] != TransDelim) {
        return InvalParamNum;
      }
      var error, ins, count := ResolveInputs(from, Tokens(fields[1], SymbolDelim));
      if error.Some? {
        return error.value;
      }
      if count == 0 {
        return EmptySymbol;
      }
      assert forall k :: 0 <= k < count ==> ins[k] < |inputs| by {
        forall k | 0 <= k < count ensures ins[k] < |inputs| {
          assert ins[..count][k] == ins[k];
        }
      }
      status := ParseTransTarget(fields, from, ins, count, buffer);
    }

    /**
     * The to-state and output fields of dsml_parse_trans, then one new
     * transition per resolved input.
     */
    method ParseTransTarget(fields: seq<string>, from: nat, ins: array<nat>, count: nat, buffer: array<char>)
      returns (status: Status)
      requires Valid() && from < |states| && count <= ins.Length && buffer.Length == MaxStringLen + 1
      requires forall k :: 0 <= k < count ==> ins[k] < |inputs|
      requires forall k :: 0 <= k < |fields| ==> fields[k] != []
      modifies this, buffer
      ensures Valid() && stateCap == old(stateCap) && inputCap == old(inputCap) && outputCap == old(outputCap)
      ensures Step(View(), status) == Dsml.ParseTransTarget(old(View()), fields, from, old(ins[..count]))
    {
      var d := View();
      ghost var resolved := ins[..count];
      assert Names(d, LexemeState) == StateNames(states) && Names(d, LexemeOutput) == outputs;
      var len: nat;
      // to-state
      if |fields| < 3 {
        return InvalParamNum;
      }
      status, len := TrimSymbol(fields[2], buffer);
      if status != Success {
        return;
      }
      var toState := GetEntity(d, buffer[..len], LexemeState);
      if toState.None? {
        return UndefSymbol;
      }
      var to := toState.value;
      // output, or `-` for none
      if |fields| < 4 {
        return InvalParamNum;
      }
      status, len := TrimSymbol(fields[3], buffer);
      if status != Success {
        return;
      }
      var output: Option<nat> := None;
      if buffer[..len] != EmptyOutputSymbol {
        output := GetEntity(d, buffer[..len], LexemeOutput);
        if output.None? {
          return UndefSymbol;
        }
      }
      AppendTransitions(from, ins, count, to, output);
      return Success;
    }

    /** The last loop of dsml_parse_trans: one transition per resolved input. */
    method AppendTransitions(from: nat, ins: array<nat>, count: nat, to: nat, output: Option<nat>)
      requires Valid() && from < |states| && to < |states| && count <= ins.Length
      requires forall k :: 0 <= k < count ==> ins[k] < |inputs|
      requires output.Some? ==> output.value < |outputs|
      modifies this
      ensures Valid() && stateCap == old(stateCap) && inputCap == old(inputCap) && outputCap == old(outputCap)
      ensures View() == Dsml.AppendTransitions(old(View()), from, ins[..count], to, output)
    {
      ghost var d := View();
      ghost var taken := ins[..count];
      var i := 0;
      while i < count
        invariant i <= count
        invariant Valid() && stateCap == old(stateCap) && inputCap == old(inputCap) && outputCap == old(outputCap)
        invariant View() == d.(trans := d.trans + NewTransitions(from, taken[..i], to, output))
      {
        AddTrans(Trans(from, to, ins[i], output));
        assert taken[..i + 1] == taken[..i] + [ins[i]];
        i := i + 1;
      }
      assert taken[..count] == taken;
    }

    /** The inner loop of dsml_parse_trans's input pass: is `symbol` the name of an input already taken? */
    method NameTaken(taken: seq<nat>, symbol: string) returns (found: bool)
      requires forall m :: 0 <= m < |taken| ==> taken[m] < |inputs|
      ensures found <==> exists m :: 0 <= m < |taken| && inputs[taken[m]] == symbol
    {
      var i := 0;
      while i < |taken|
        invariant i <= |taken|
        invariant forall m :: 0 <= m < i ==> inputs[taken[m]] != symbol
      {
        if inputs[taken[i]] == symbol {
          return true;
        }
        i := i + 1;
      }
      return false;
    }

    /**
     * The input loop of dsml_parse_trans: resolves each input symbol into
     * `ins`, an array with room for every declared input, rejecting an
     * undeclared input, one already taken by this statement (compared by
     * name, as the C code does) and one that already has a transition from
     * state `from`.
     */
    method ResolveInputs(from: nat, syms: seq<string>) returns (error: Option<Status>, ins: array<nat>, count: nat)
      requires Valid() && from < |states|
      ensures fresh(ins) && ins.Length == |inputs| && count <= ins.Length
      ensures Dsml.ResolveInputs(View(), from, syms, [])
              == if error.Some? then Err(error.value) else Ok(ins[..count])
    {
      var d := View();
      assert Names(d, LexemeInput) == inputs;
      ins := new nat[|inputs|];
      count := 0;
      ghost var taken: seq<nat> := [];
      while count < |syms|
        invariant count <= |syms| && count <= ins.Length && taken == ins[..count]
        invariant forall m :: 0 <= m < count ==> taken[m] < |inputs| && GetEntity(d, inputs[taken[m]], LexemeInput) == Some(taken[m])
        invariant Distinct(taken)
        invariant Dsml.ResolveInputs(d, from, syms, []) == Dsml.ResolveInputs(d, from, syms[count..], taken)
      {
        SuffixStep(syms, count);
        ResolveInputsRejects(d, from, syms[count..], taken);
        var input := GetEntity(d, syms[count], LexemeInput);
        if input.None? {
          return Some(UndefSymbol), ins, count;
        }
        var j := input.value;
        var dup := NameTaken(ins[..count], syms[count]);
        TakenByName(d, taken, syms[count], j);
        if dup {
          return Some(RedefSymbol), ins, count;
        }
        if GetTrans(d, states[from].symbol, syms[count]).Some? {
          return Some(IndetermTrans), ins, count;
        }
        ResolveInputsTake(d, from, syms[count..], taken, j);
        ins[count] := j;
        taken := taken + [j];
        count := count + 1;
      }
      return None, ins, count;
    }
  }

  // ---------------------------------------------------------------------
  // dsml_parse_script, over the script's lines
  // ---------------------------------------------------------------------

  /**
   * The driver loop: skips blank and comment lines, hands every other line
   * to the parser its keyword names and stops at the first failing line;
   * at the end of the script the record is validated. A parser is returned
   * only when the script is accepted.
   */
  method ParseScript(lines: seq<string>) returns (parser: Parser?, result: ScriptResult)
    ensures result == Dsml.ParseScript(lines)
    ensures parser != null <==> result.Parsed?
    ensures parser != null ==> fresh(parser) && parser.Valid() && parser.View() == result.dsm
  {
    var p := new Parser();
    var lineCount := 0;
    while lineCount < |lines|
      invariant lineCount <= |lines|
      invariant fresh(p) && p.Valid()
      invariant ParseLines(InitialDsm, lines, 0) == ParseLines(p.View(), lines[lineCount..], lineCount)
    {
      var line := lines[lineCount];
      ParseLinesAt(p.View(), lines, lineCount);
      var error := p.ParseLine(line);
      lineCount := lineCount + 1;
      if error.Some? {
        return null, LineFailed(lineCount, error.value);
      }
    }
    ParseLinesAt(p.View(), lines, lineCount);
    var status := ValidateDsm(p.View());
    if status == Success {
      return p, Parsed(p.View());
    }
    return null, Invalid(status);
  }

  /** The driver's loop at line `n`: its end, or one more line. */
  lemma ParseLinesAt(d: Dsm, lines: seq<string>, n: nat)
    requires TransInRange(d) && n <= |lines|
    ensures n == |lines| ==> ParseLines(d, lines[n..], n) == Ok(d)
    ensures n < |lines| ==>
              ParseLines(d, lines[n..], n)
              == match Dsml.ParseLine(d, lines[n])
                 case Err(e) => Err((n + 1, e))
                 case Ok(d') => ParseLines(d', lines[n + 1..], n + 1)
  {
    if n < |lines| {
      SuffixStep(lines, n);
    } else {
      assert lines[n..] == [];
    }
  }

  /** The symbol loop of dsml_parse_state at word `next`: its end, or one more round. */
  lemma StateSymbolsAt(d: Dsm, toks: seq<string>, next: nat, isFinal: bool, isEntry: bool, count: nat)
    requires next <= |toks|
    ensures next == |toks| ==>
              AddStateSymbols(d, toks[next..], isFinal, isEntry, count) == Step(d, if count == 0 then EmptySymbol else Success)
    ensures next < |toks| ==>
              AddStateSymbols(d, toks[next..], isFinal, isEntry, count)
              == if isEntry && count + 1 > 1 then Step(d, MultEntry)
                 else if !ValidateSymbol(toks[next]) then Step(d, InvalSymbol)
                 else if SymbolExists(d, toks[next], LexemeState) then Step(d, RedefSymbol)
                 else AddStateSymbols(Dsml.AddState(d, toks[next], isFinal, isEntry), toks[next + 1..], isFinal, isEntry, count + 1)
  {
    if next < |toks| {
      SuffixStep(toks, next);
      AddStateSymbolsUnfold(d, toks[next..], isFinal, isEntry, count);
    } else {
      assert toks[next..] == [];
    }
  }

  lemma SuffixStep<T>(s: seq<T>, k: nat)
    requires k < |s|
    ensures s[k..][0] == s[k] && s[k..][1..] == s[k + 1..]
  {
  }

  /** The three ways the input pass stops at the next symbol. */
  lemma ResolveInputsRejects(d: Dsm, from: nat, syms: seq<string>, acc: seq<nat>)
    requires TransInRange(d) && from < |d.states| && syms != []
    ensures GetEntity(d, syms[0], LexemeInput).None? ==> Dsml.ResolveInputs(d, from, syms, acc) == Err(UndefSymbol)
    ensures GetEntity(d, syms[0], LexemeInput).Some? && GetEntity(d, syms[0], LexemeInput).value in acc
            ==> Dsml.ResolveInputs(d, from, syms, acc) == Err(RedefSymbol)
    ensures GetEntity(d, syms[0], LexemeInput).Some? && GetEntity(d, syms[0], LexemeInput).value !in acc
            && GetTrans(d, d.states[from].symbol, syms[0]).Some?
            ==> Dsml.ResolveInputs(d, from, syms, acc) == Err(IndetermTrans)
  {
  }

  /**
   * Comparing names, as the C code does, is comparing indices: among inputs
   * resolved to their first occurrence, `name` (resolved to `j`) was taken
   * exactly when `j` was. Taking `j` keeps the taken indices distinct.
   */
  lemma TakenByName(d: Dsm, taken: seq<nat>, name: string, j: nat)
    requires forall m :: 0 <= m < |taken| ==> taken[m] < |d.inputs| && GetEntity(d, d.inputs[taken[m]], LexemeInput) == Some(taken[m])
    requires Distinct(taken) && GetEntity(d, name, LexemeInput) == Some(j)
    ensures j in taken <==> exists m :: 0 <= m < |taken| && d.inputs[taken[m]] == name
    ensures j !in taken ==>
              && Distinct(taken + [j]) && |taken| + 1 <= |d.inputs|
              && forall m :: 0 <= m < |taken + [j]| ==>
                   (taken + [j])[m] < |d.inputs| && GetEntity(d, d.inputs[(taken + [j])[m]], LexemeInput) == Some((taken + [j])[m])
  {
    assert Names(d, LexemeInput) == d.inputs;
    if j in taken {
      var m :| 0 <= m < |taken| && taken[m] == j;
      assert d.inputs[taken[m]] == name;
    }
    if exists m :: 0 <= m < |taken| && d.inputs[taken[m]] == name {
      var m :| 0 <= m < |taken| && d.inputs[taken[m]] == name;
      assert taken[m] == j;
    }
    if j !in taken {
      var t := taken + [j];
      assert forall m :: 0 <= m < |t| ==> t[m] < |d.inputs|;
      DistinctBelow(t, |d.inputs|);
    }
  }

  /** One input taken by the input loop of dsml_parse_trans. */
  lemma ResolveInputsTake(d: Dsm, from: nat, syms: seq<string>, acc: seq<nat>, j: nat)
    requires TransInRange(d) && from < |d.states| && syms != []
    requires GetEntity(d, syms[0], LexemeInput) == Some(j) && j !in acc
    requires GetTrans(d, d.states[from].symbol, syms[0]).None?
    ensures Dsml.ResolveInputs(d, from, syms, acc) == Dsml.ResolveInputs(d, from, syms[1..], acc + [j])
  {
  }
}
