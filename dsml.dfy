/**
 * The Determined State Machine Language (DSML) front end of src/dsml.c, as
 * functions over a value `Dsm` that holds what the C parser record holds:
 * the declared states, inputs, outputs and transitions, and the flag saying
 * whether an entry state was declared. Entities refer to each other by their
 * index in these lists. The statement parsers return the record they leave
 * behind together with their status, also on failure, because the C code
 * does not undo what it has already appended.
 */
module Dsml {
  import opened Types
  import opened CType
  import Util

  // ---------------------------------------------------------------------
  // Constants (inc/dsml.h)
  // ---------------------------------------------------------------------

  /** The reserved words; none of them may be used as a symbol. */
  const Keywords: seq<string> := ["state", "final", "entry", "input", "output", "trans"]
  const KeywordsNum: nat := 6

  const StateKeywordIndex: nat := 0
  const FinalKeywordIndex: nat := 1
  const EntryKeywordIndex: nat := 2
  const InputKeywordIndex: nat := 3
  const OutputKeywordIndex: nat := 4
  const TransKeywordIndex: nat := 5

  const SymbolDelim: char := ' '
  const TransDelim: char := ':'
  const EmptyOutputSymbol: string := "-"

  const InitCap: nat := 5
  const CapIncr: nat := 5
  const MaxStringLen: nat := 255

  // ---------------------------------------------------------------------
  // Data model (inc/dsml.h)
  // ---------------------------------------------------------------------

  datatype LexemeType = LexemeState | LexemeInput | LexemeOutput | LexemeTrans | LexemeUndef

  datatype Status =
    | Success
    | NullParam
    | InvalParam
    | EmptySymbol
    | InvalSymbol
    | UndefSymbol
    | RedefSymbol
    | UndefKeyword
    | RedefKeyword
    | InvalParamNum
    | InvalSymbolNum
    | NoEntry
    | MultEntry
    | EmptyDsm
    | StaticDsm
    | IndetermTrans
    | UndefError

  datatype State = State(symbol: string, isEntry: bool, isFinal: bool)

  /** A transition; states, the input and the output are indices into the record's lists. */
  datatype Trans = Trans(fromState: nat, toState: nat, input: nat, output: Option<nat>)

  /** The parser record without its capacities. */
  datatype Dsm = Dsm(states: seq<State>, inputs: seq<string>, outputs: seq<string>,
                     trans: seq<Trans>, hasEntry: bool)

  /** What a statement parser leaves behind and the status it returns. */
  datatype Step = Step(dsm: Dsm, status: Status)

  /** The record right after dsml_parser_init. */
  const InitialDsm: Dsm := Dsm([], [], [], [], false)

  predicate IsEntityType(t: LexemeType)
  {
    t == LexemeState || t == LexemeInput || t == LexemeOutput
  }

  predicate Distinct<T(==)>(s: seq<T>)
  {
    forall i, j :: 0 <= i < j < |s| ==> s[i] != s[j]
  }

  function StateNames(states: seq<State>): (r: seq<string>)
    ensures |r| == |states|
    ensures forall i :: 0 <= i < |states| ==> r[i] == states[i].symbol
  {
    seq(|states|, i requires 0 <= i < |states| => states[i].symbol)
  }

  /** The names of one category of entities, in declaration order. */
  function Names(d: Dsm, t: LexemeType): seq<string>
    requires IsEntityType(t)
  {
    if t == LexemeState then StateNames(d.states)
    else if t == LexemeInput then d.inputs
    else d.outputs
  }

  predicate TransRefsOk(d: Dsm, t: Trans)
  {
    && t.fromState < |d.states|
    && t.toState < |d.states|
    && t.input < |d.inputs|
    && (t.output.Some? ==> t.output.value < |d.outputs|)
  }

  /** Every transition refers to declared entities (the C pointers are never dangling). */
  predicate TransInRange(d: Dsm)
  {
    forall k :: 0 <= k < |d.trans| ==> TransRefsOk(d, d.trans[k])
  }

  // ---------------------------------------------------------------------
  // Tokenising: strtok
  // ---------------------------------------------------------------------

  /** The length of the run of characters other than `d` at the front of `s`. */
  function WordLength(s: string, d: char): (n: nat)
    ensures n <= |s|
    ensures forall i :: 0 <= i < n ==> s[i] != d
    ensures n < |s| ==> s[n] == d
  {
    if s == [] || s[0] == d then 0 else 1 + WordLength(s[1..], d)
  }

  /** The length of the run of `d` at the front of `s`. */
  function LeadingDelims(s: string, d: char): (n: nat)
    ensures n <= |s|
    ensures forall i :: 0 <= i < n ==> s[i] == d
    ensures n < |s| ==> s[n] != d
  {
    if s == [] || s[0] != d then 0 else 1 + LeadingDelims(s[1..], d)
  }

  /**
   * The successive tokens strtok returns for `s` and the single delimiter `d`:
   * runs of delimiters separate tokens and no token is empty.
   */
  function Tokens(s: string, d: char): (r: seq<string>)
    ensures forall k :: 0 <= k < |r| ==> r[k] != [] && d !in r[k]
    decreases |s|
  {
    if s == [] then []
    else if s[0] == d then Tokens(s[1..], d)
    else
      var n := WordLength(s, d);
      assert forall i :: 0 <= i < n ==> s[..n][i] != d;
      [s[..n]] + Tokens(s[n..], d)
  }

  // ---------------------------------------------------------------------
  // Support functions
  // ---------------------------------------------------------------------

  function LeadingSpaces(s: string): (n: nat)
    ensures n <= |s|
    ensures forall i :: 0 <= i < n ==> IsSpaceChar(s[i])
    ensures n < |s| ==> !IsSpaceChar(s[n])
  {
    if s == [] || !IsSpaceChar(s[0]) then 0 else 1 + LeadingSpaces(s[1..])
  }

  function TrailingSpaces(s: string): (n: nat)
    ensures n <= |s|
    ensures forall i :: |s| - n <= i < |s| ==> IsSpaceChar(s[i])
    ensures n < |s| ==> !IsSpaceChar(s[|s| - 1 - n])
  {
    if s == [] || !IsSpaceChar(s[|s| - 1]) then 0 else 1 + TrailingSpaces(s[..|s| - 1])
  }

  /**
   * What dsml_trim_symbol writes into its buffer when it succeeds: `s` without
   * its leading and trailing white space, empty when `s` is all white space.
   */
  function Trimmed(s: string): (r: string)
    ensures r == [] <==> forall i :: 0 <= i < |s| ==> IsSpaceChar(s[i])
    ensures r != [] ==> !IsSpaceChar(r[0]) && !IsSpaceChar(r[|r| - 1])
    ensures exists a, b :: 0 <= a <= b <= |s| && r == s[a..b]
                           && (forall i :: 0 <= i < a ==> IsSpaceChar(s[i]))
                           && (forall i :: b <= i < |s| ==> IsSpaceChar(s[i]))
  {
    var a := LeadingSpaces(s);
    if a == |s| then
      assert s[0..0] == [];
      []
    else
      var b := |s| - TrailingSpaces(s);
      assert !IsSpaceChar(s[a]);
      s[a..b]
  }

  /** The alphanumeric scan of dsml_validate_symbol from index `i`. */
  function AlnumFrom(s: string, i: nat): (r: bool)
    requires i <= |s|
    ensures r <==> forall k :: i <= k < |s| ==> IsAlnumChar(s[k])
    decreases |s| - i
  {
    if i == |s| then true
    else if !IsAlnumChar(s[i]) then false
    else AlnumFrom(s, i + 1)
  }

  /** The keyword scan of dsml_validate_symbol from table entry `i`. */
  function NotKeywordFrom(s: string, i: nat): (r: bool)
    requires i <= KeywordsNum
    ensures r <==> forall k :: i <= k < KeywordsNum ==> s != Keywords[k]
    decreases KeywordsNum - i
  {
    if i == KeywordsNum then true
    else if s == Keywords[i] then false
    else NotKeywordFrom(s, i + 1)
  }

  /**
   * dsml_validate_symbol: every character is alphanumeric and the symbol is
   * none of the reserved words. The empty string passes.
   */
  function ValidateSymbol(symbol: string): (r: bool)
    ensures r <==> (forall i :: 0 <= i < |symbol| ==> IsAlnumChar(symbol[i])) && symbol !in Keywords
  {
    AlnumFrom(symbol, 0) && NotKeywordFrom(symbol, 0)
  }

  /**
   * dsml_is_comment: a line is a comment when its first character other than
   * white space is '#'. The line is trimmed into a buffer of MAX_STRING_LEN
   * characters; a line too long for it leaves the zeroed buffer, and no comment.
   */
  function IsComment(str: string): (r: bool)
    ensures r <==> |str| < MaxStringLen
                   && exists i :: 0 <= i < |str| && str[i] == '#'
                                  && forall k :: 0 <= k < i ==> IsSpaceChar(str[k])
  {
    if |str| == 0 then false
    else if |str| >= MaxStringLen then false
    else
      var t := Trimmed(str);
      var a := LeadingSpaces(str);
      assert t != [] ==> t[0] == str[a];
      t != [] && t[0] == '#'
  }

  /** dsml_parse_lexeme_keyword: statement keywords only; every other word is UNDEF. */
  function ParseLexemeKeyword(str: string): (r: LexemeType)
    ensures r == LexemeState <==> str == "state"
    ensures r == LexemeInput <==> str == "input"
    ensures r == LexemeOutput <==> str == "output"
    ensures r == LexemeTrans <==> str == "trans"
    ensures r == LexemeUndef <==> str !in {"state", "input", "output", "trans"}
  {
    if str == Keywords[StateKeywordIndex] then LexemeState
    else if str == Keywords[InputKeywordIndex] then LexemeInput
    else if str == Keywords[OutputKeywordIndex] then LexemeOutput
    else if str == Keywords[TransKeywordIndex] then LexemeTrans
    else LexemeUndef
  }

  // ---------------------------------------------------------------------
  // Look-ups
  // ---------------------------------------------------------------------

  /** The first index at or after `from` where `names` holds `symbol`. */
  function IndexOf(names: seq<string>, symbol: string, from: nat): (r: Option<nat>)
    requires from <= |names|
    ensures r.Some? ==> from <= r.value < |names| && names[r.value] == symbol
                        && forall k :: from <= k < r.value ==> names[k] != symbol
    ensures r.None? ==> forall k :: from <= k < |names| ==> names[k] != symbol
    decreases |names| - from
  {
    if from == |names| then None
    else if names[from] == symbol then Some(from)
    else IndexOf(names, symbol, from + 1)
  }

  /** dsml_symbol_exists: a linear search of one category. */
  function SymbolExists(d: Dsm, symbol: string, t: LexemeType): (r: bool)
    requires IsEntityType(t)
    ensures r <==> symbol in Names(d, t)
  {
    IndexOf(Names(d, t), symbol, 0).Some?
  }

  /** dsml_get_entity: the first entity of the category with that name, if any. */
  function GetEntity(d: Dsm, symbol: string, t: LexemeType): (r: Option<nat>)
    requires IsEntityType(t)
    ensures r.Some? <==> symbol in Names(d, t)
    ensures r.Some? ==> r.value < |Names(d, t)| && Names(d, t)[r.value] == symbol
                        && forall k :: 0 <= k < r.value ==> Names(d, t)[k] != symbol
  {
    IndexOf(Names(d, t), symbol, 0)
  }

  /** Transition `k` goes from a state named `fromSymbol` on an input named `inputSymbol`. */
  predicate TransMatches(d: Dsm, k: nat, fromSymbol: string, inputSymbol: string)
    requires TransInRange(d) && k < |d.trans|
  {
    d.states[d.trans[k].fromState].symbol == fromSymbol && d.inputs[d.trans[k].input] == inputSymbol
  }

  function FindTrans(d: Dsm, fromSymbol: string, inputSymbol: string, from: nat): (r: Option<nat>)
    requires TransInRange(d) && from <= |d.trans|
    ensures r.Some? ==> from <= r.value < |d.trans| && TransMatches(d, r.value, fromSymbol, inputSymbol)
                        && forall k :: from <= k < r.value ==> !TransMatches(d, k, fromSymbol, inputSymbol)
    ensures r.None? ==> forall k :: from <= k < |d.trans| ==> !TransMatches(d, k, fromSymbol, inputSymbol)
    decreases |d.trans| - from
  {
    if from == |d.trans| then None
    else if TransMatches(d, from, fromSymbol, inputSymbol) then Some(from)
    else FindTrans(d, fromSymbol, inputSymbol, from + 1)
  }

  /** dsml_get_trans: the first transition matching the from-state and input names. */
  function GetTrans(d: Dsm, fromSymbol: string, inputSymbol: string): (r: Option<nat>)
    requires TransInRange(d)
    ensures r.Some? <==> exists k :: 0 <= k < |d.trans| && TransMatches(d, k, fromSymbol, inputSymbol)
    ensures r.Some? ==> r.value < |d.trans| && TransMatches(d, r.value, fromSymbol, inputSymbol)
                        && forall k :: 0 <= k < r.value ==> !TransMatches(d, k, fromSymbol, inputSymbol)
  {
    FindTrans(d, fromSymbol, inputSymbol, 0)
  }

  // ---------------------------------------------------------------------
  // Appending (the effect of dsml_add_*)
  // ---------------------------------------------------------------------

  function AddState(d: Dsm, symbol: string, isFinal: bool, isEntry: bool): Dsm
  {
    d.(states := d.states + [State(symbol, isEntry, isFinal)])
  }

  function AddInput(d: Dsm, symbol: string): Dsm
  {
    d.(inputs := d.inputs + [symbol])
  }

  function AddOutput(d: Dsm, symbol: string): Dsm
  {
    d.(outputs := d.outputs + [symbol])
  }

  function AddTrans(d: Dsm, t: Trans): Dsm
  {
    d.(trans := d.trans + [t])
  }

  // ---------------------------------------------------------------------
  // dsml_parse_state: state [final] [entry] sym+
  // ---------------------------------------------------------------------

  /** The states one statement declares for `symbols`, all with the statement's flags. */
  function DeclaredStates(symbols: seq<string>, isFinal: bool, isEntry: bool): (r: seq<State>)
    ensures |r| == |symbols|
    ensures forall k :: 0 <= k < |r| ==> r[k] == State(symbols[k], isEntry, isFinal)
  {
    seq(|symbols|, k requires 0 <= k < |symbols| => State(symbols[k], isEntry, isFinal))
  }

  function ParseState(d: Dsm, payload: string): (r: Step)
    ensures r.dsm.inputs == d.inputs && r.dsm.outputs == d.outputs && r.dsm.trans == d.trans
    ensures |d.states| <= |r.dsm.states| && r.dsm.states[..|d.states|] == d.states
    ensures d.hasEntry ==> r.dsm.hasEntry
  {
    if |payload| == 0 then Step(d, EmptySymbol)
    else
      var toks := Tokens(payload, SymbolDelim);
      if toks == [] then Step(d, EmptySymbol)
      else ParseModifiers(d, toks, false, false, 0)
  }

  /**
   * The modifier loop: at most two rounds, each taking one `final` or `entry`.
   * `entry` sets the record's entry flag as soon as it is read.
   */
  function ParseModifiers(d: Dsm, toks: seq<string>, isFinal: bool, isEntry: bool, round: nat): (r: Step)
    requires round <= 2
    ensures r.dsm.inputs == d.inputs && r.dsm.outputs == d.outputs && r.dsm.trans == d.trans
    ensures |d.states| <= |r.dsm.states| && r.dsm.states[..|d.states|] == d.states
    ensures d.hasEntry ==> r.dsm.hasEntry
    decreases 2 - round
  {
    if toks == [] || round == 2 then AddStateSymbols(d, toks, isFinal, isEntry, 0)
    else if toks[0] == Keywords[FinalKeywordIndex] then
      if isFinal then Step(d, RedefKeyword)
      else ParseModifiers(d, toks[1..], true, isEntry, round + 1)
    else if toks[0] == Keywords[EntryKeywordIndex] then
      if isEntry then Step(d, RedefKeyword)
      else if d.hasEntry then Step(d, MultEntry)
      else ParseModifiers(d.(hasEntry := true), toks[1..], isFinal, true, round + 1)
    else AddStateSymbols(d, toks, isFinal, isEntry, 0)
  }

  /**
   * The symbol loop; `count` symbols were taken before `toks`. Each symbol is
   * checked and appended in turn, so a failure keeps the states already added.
   */
  function AddStateSymbols(d: Dsm, toks: seq<string>, isFinal: bool, isEntry: bool, count: nat): (r: Step)
    ensures r.dsm.inputs == d.inputs && r.dsm.outputs == d.outputs && r.dsm.trans == d.trans
    ensures r.dsm.hasEntry == d.hasEntry
    ensures |d.states| <= |r.dsm.states| <= |d.states| + |toks|
    ensures r.dsm.states[..|d.states|] == d.states
    ensures forall k :: |d.states| <= k < |r.dsm.states| ==> r.dsm.states[k] == State(toks[k - |d.states|], isEntry, isFinal)
    ensures r.status == Success <==> |r.dsm.states| == |d.states| + |toks| && count + |toks| > 0
    decreases |toks|, 1
  {
    if toks == [] then Step(d, if count == 0 then EmptySymbol else Success)
    else if isEntry && count + 1 > 1 then Step(d, MultEntry)
    else if !ValidateSymbol(toks[0]) then Step(d, InvalSymbol)
    else if SymbolExists(d, toks[0], LexemeState) then Step(d, RedefSymbol)
    else AddFirstState(d, toks, isFinal, isEntry, count)
  }

  /** One round of the symbol loop. */
  lemma AddStateSymbolsUnfold(d: Dsm, toks: seq<string>, isFinal: bool, isEntry: bool, count: nat)
    requires toks != []
    ensures AddStateSymbols(d, toks, isFinal, isEntry, count)
            == if isEntry && count + 1 > 1 then Step(d, MultEntry)
               else if !ValidateSymbol(toks[0]) then Step(d, InvalSymbol)
               else if SymbolExists(d, toks[0], LexemeState) then Step(d, RedefSymbol)
               else AddStateSymbols(AddState(d, toks[0], isFinal, isEntry), toks[1..], isFinal, isEntry, count + 1)
  {
  }

  /** The symbol loop past an accepted symbol: append it, then go on with the rest. */
  function AddFirstState(d: Dsm, toks: seq<string>, isFinal: bool, isEntry: bool, count: nat): (r: Step)
    requires toks != []
    ensures r.dsm.inputs == d.inputs && r.dsm.outputs == d.outputs && r.dsm.trans == d.trans
    ensures r.dsm.hasEntry == d.hasEntry
    ensures |d.states| <= |r.dsm.states| <= |d.states| + |toks|
    ensures r.dsm.states[..|d.states|] == d.states
    ensures forall k :: |d.states| <= k < |r.dsm.states| ==> r.dsm.states[k] == State(toks[k - |d.states|], isEntry, isFinal)
    ensures r.status == Success <==> |r.dsm.states| == |d.states| + |toks| && count + |toks| > 0
    decreases |toks|, 0
  {
    var d' := AddState(d, toks[0], isFinal, isEntry);
    var r := AddStateSymbols(d', toks[1..], isFinal, isEntry, count + 1);
    StatesStep(d.states, d'.states, r.dsm.states, toks, isFinal, isEntry);
    r
  }

  /** One append of the symbol loop, lifted from the remaining tokens to all of them. */
  lemma StatesStep(before: seq<State>, mid: seq<State>, res: seq<State>, toks: seq<string>,
                   isFinal: bool, isEntry: bool)
    requires toks != [] && mid == before + [State(toks[0], isEntry, isFinal)]
    requires |mid| <= |res| <= |before| + |toks| && res[..|mid|] == mid
    requires forall k :: |mid| <= k < |res| ==> res[k] == State(toks[1..][k - |mid|], isEntry, isFinal)
    ensures res[..|before|] == before
    ensures forall k :: |before| <= k < |res| ==> res[k] == State(toks[k - |before|], isEntry, isFinal)
  {
    assert res[..|before|] == res[..|mid|][..|before|];
    forall k | |before| <= k < |res|
      ensures res[k] == State(toks[k - |before|], isEntry, isFinal)
    {
      if k == |before| {
        assert res[k] == res[..|mid|][k];
      } else {
        assert toks[k - |before|] == toks[1..][k - |mid|];
      }
    }
  }

  // ---------------------------------------------------------------------
  // dsml_parse_io: input sym+ | output sym+
  // ---------------------------------------------------------------------

  /** The list a `input` (true) or `output` (false) statement declares into. */
  function IoList(d: Dsm, isInput: bool): seq<string>
  {
    if isInput then d.inputs else d.outputs
  }

  function ParseIo(d: Dsm, payload: string, isInput: bool): (r: Step)
    ensures r.dsm.states == d.states && r.dsm.trans == d.trans && r.dsm.hasEntry == d.hasEntry
    ensures IoList(r.dsm, !isInput) == IoList(d, !isInput)
    ensures |IoList(d, isInput)| <= |IoList(r.dsm, isInput)|
    ensures IoList(r.dsm, isInput)[..|IoList(d, isInput)|] == IoList(d, isInput)
  {
    if |payload| == 0 then Step(d, EmptySymbol)
    else
      var toks := Tokens(payload, SymbolDelim);
      if toks == [] then Step(d, EmptySymbol)
      else AddIoSymbols(d, toks, isInput)
  }

  /** The symbol loop of dsml_parse_io: each symbol is checked, then appended. */
  function AddIoSymbols(d: Dsm, toks: seq<string>, isInput: bool): (r: Step)
    ensures r.dsm.states == d.states && r.dsm.trans == d.trans && r.dsm.hasEntry == d.hasEntry
    ensures IoList(r.dsm, !isInput) == IoList(d, !isInput)
    ensures |IoList(d, isInput)| <= |IoList(r.dsm, isInput)| <= |IoList(d, isInput)| + |toks|
    ensures IoList(r.dsm, isInput)
            == IoList(d, isInput) + toks[..|IoList(r.dsm, isInput)| - |IoList(d, isInput)|]
    ensures r.status == Success <==> |IoList(r.dsm, isInput)| == |IoList(d, isInput)| + |toks|
    decreases |toks|
  {
    if toks == [] then Step(d, Success)
    else if !ValidateSymbol(toks[0]) then Step(d, InvalSymbol)
    else if SymbolExists(d, toks[0], if isInput then LexemeInput else LexemeOutput) then Step(d, RedefSymbol)
    else
      var d' := if isInput then AddInput(d, toks[0]) else AddOutput(d, toks[0]);
      var r := AddIoSymbols(d', toks[1..], isInput);
      NamesStep(IoList(d, isInput), IoList(r.dsm, isInput), toks);
      r
  }

  /** One append of the io symbol loop, lifted from the remaining tokens to all of them. */
  lemma NamesStep(before: seq<string>, res: seq<string>, toks: seq<string>)
    requires toks != [] && |before| + 1 <= |res| <= |before| + |toks|
    requires res == before + [toks[0]] + toks[1..][..|res| - |before| - 1]
    ensures res == before + toks[..|res| - |before|]
  {
    var n := |res| - |before|;
    assert toks[..n] == [toks[0]] + toks[1..][..n - 1];
  }

  // ---------------------------------------------------------------------
  // dsml_parse_trans: from : in+ : to : out|-
  // ---------------------------------------------------------------------

  /**
   * The input loop of dsml_parse_trans: resolves each input symbol in turn,
   * `acc` holding the inputs already taken by this statement. An input equal
   * by name to one in `acc` has the same index, since look-up returns the
   * first match.
   */
  function ResolveInputs(d: Dsm, from: nat, symbols: seq<string>, acc: seq<nat>): (r: Result<seq<nat>, Status>)
    requires TransInRange(d) && from < |d.states|
    ensures r.Err? ==> r.error in {UndefSymbol, RedefSymbol, IndetermTrans}
    ensures r.Ok? ==> |r.value| == |acc| + |symbols| && r.value[..|acc|] == acc
    ensures r.Ok? ==> forall k :: |acc| <= k < |r.value| ==>
                        r.value[k] < |d.inputs| && d.inputs[r.value[k]] == symbols[k - |acc|]
    decreases |symbols|
  {
    if symbols == [] then Ok(acc)
    else match GetEntity(d, symbols[0], LexemeInput)
      case None => Err(UndefSymbol)
      case Some(j) =>
        if j in acc then Err(RedefSymbol)
        else if GetTrans(d, d.states[from].symbol, symbols[0]).Some? then Err(IndetermTrans)
        else
          var acc' := acc + [j];
          var r := ResolveInputs(d, from, symbols[1..], acc');
          assert r.Ok? ==> r.value[..|acc|] == acc && r.value[|acc|] == j by {
            if r.Ok? {
              assert r.value[..|acc'|] == acc';
              assert r.value[..|acc|] == acc'[..|acc|];
            }
          }
          assert Names(d, LexemeInput) == d.inputs;
          r
  }

  /** The transitions one statement creates, one per input, sharing from, to and output. */
  function NewTransitions(from: nat, ins: seq<nat>, to: nat, output: Option<nat>): (r: seq<Trans>)
    ensures |r| == |ins|
    ensures forall k :: 0 <= k < |ins| ==> r[k] == Trans(from, to, ins[k], output)
  {
    seq(|ins|, k requires 0 <= k < |ins| => Trans(from, to, ins[k], output))
  }

  /** The record with one statement's transitions appended. */
  function AppendTransitions(d: Dsm, from: nat, ins: seq<nat>, to: nat, output: Option<nat>): (r: Dsm)
    requires TransInRange(d) && from < |d.states| && to < |d.states|
    requires forall k :: 0 <= k < |ins| ==> ins[k] < |d.inputs|
    requires output.Some? ==> output.value < |d.outputs|
    ensures r.states == d.states && r.inputs == d.inputs && r.outputs == d.outputs && r.hasEntry == d.hasEntry
    ensures r.trans == d.trans + NewTransitions(from, ins, to, output)
    ensures TransInRange(r)
  {
    var r := d.(trans := d.trans + NewTransitions(from, ins, to, output));
    assert forall k :: |d.trans| <= k < |r.trans| ==> r.trans[k] == Trans(from, to, ins[k - |d.trans|], output);
    r
  }

  function ParseTrans(d: Dsm, payload: string): (r: Step)
    requires TransInRange(d)
    ensures r.dsm.states == d.states && r.dsm.inputs == d.inputs && r.dsm.outputs == d.outputs
    ensures r.dsm.hasEntry == d.hasEntry
    ensures r.status != Success ==> r.dsm == d
    ensures |d.trans| <= |r.dsm.trans| && r.dsm.trans[..|d.trans|] == d.trans
    ensures TransInRange(r.dsm)
  {
    if |payload| == 0 then Step(d, InvalParam)
    else
      var fields := Tokens(payload, TransDelim);
      if |fields| == 0 then Step(d, InvalParamNum)
      // each field is trimmed into a buffer of MAX_STRING_LEN + 1 characters
      else if |fields[0]| > MaxStringLen then Step(d, InvalParam)
      else match GetEntity(d, Trimmed(fields[0]), LexemeState)
        case None => Step(d, UndefSymbol)
        case Some(from) =>
          // no second field, or the second field ends the payload
          if |fields| == 1 || (|fields| == 2 && payload[|payload| - 1] != TransDelim) then Step(d, InvalParamNum)
          else match ResolveInputs(d, from, Tokens(fields[1], SymbolDelim), [])
            case Err(e) => Step(d, e)
            case Ok(ins) =>
              if |ins| == 0 then Step(d, EmptySymbol)
              else ParseTransTarget(d, fields, from, ins)
  }

  /** The to-state and output fields of dsml_parse_trans, once the inputs are resolved. */
  function ParseTransTarget(d: Dsm, fields: seq<string>, from: nat, ins: seq<nat>): (r: Step)
    requires TransInRange(d) && from < |d.states| && forall k :: 0 <= k < |ins| ==> ins[k] < |d.inputs|
    ensures r.dsm.states == d.states && r.dsm.inputs == d.inputs && r.dsm.outputs == d.outputs
    ensures r.dsm.hasEntry == d.hasEntry
    ensures r.status != Success ==> r.dsm == d
    ensures |d.trans| <= |r.dsm.trans| && r.dsm.trans[..|d.trans|] == d.trans
    ensures TransInRange(r.dsm)
  {
    if |fields| < 3 then Step(d, InvalParamNum)
    else if |fields[2]| > MaxStringLen then Step(d, InvalParam)
    else match GetEntity(d, Trimmed(fields[2]), LexemeState)
      case None => Step(d, UndefSymbol)
      case Some(to) =>
        if |fields| < 4 then Step(d, InvalParamNum)
        else if |fields[3]| > MaxStringLen then Step(d, InvalParam)
        else
          var out := Trimmed(fields[3]);
          if out == EmptyOutputSymbol then
            Step(AppendTransitions(d, from, ins, to, None), Success)
          else match GetEntity(d, out, LexemeOutput)
            case None => Step(d, UndefSymbol)
            case Some(o) =>
              Step(AppendTransitions(d, from, ins, to, Some(o)), Success)
  }

  // ---------------------------------------------------------------------
  // dsml_validate_dsm
  // ---------------------------------------------------------------------

  /** Some transition leaves state `i` on input `j` (looked up by name, as the C code does). */
  predicate Covered(d: Dsm, i: nat, j: nat)
    requires TransInRange(d) && i < |d.states| && j < |d.inputs|
  {
    GetTrans(d, d.states[i].symbol, d.inputs[j]).Some?
  }

  /** Every (state, input) pair has a transition. */
  predicate Complete(d: Dsm)
    requires TransInRange(d)
  {
    forall i, j :: 0 <= i < |d.states| && 0 <= j < |d.inputs| ==> Covered(d, i, j)
  }

  /** (i, j) comes no later than (i', j') in state-then-input order. */
  predicate PairLe(i: nat, j: nat, i': nat, j': nat)
  {
    i < i' || (i == i' && j <= j')
  }

  /**
   * The coverage scan of dsml_validate_dsm from the pair (i, j): the first
   * pair without a transition, in state-declaration then input-declaration order.
   */
  function FirstUncovered(d: Dsm, i: nat, j: nat): (r: Option<(nat, nat)>)
    requires TransInRange(d) && i <= |d.states| && j <= |d.inputs|
    ensures r.None? <==> forall i', j' :: 0 <= i' < |d.states| && 0 <= j' < |d.inputs| && PairLe(i, j, i', j')
                                       ==> Covered(d, i', j')
    ensures r.Some? ==> && r.value.0 < |d.states| && r.value.1 < |d.inputs|
                        && PairLe(i, j, r.value.0, r.value.1)
                        && !Covered(d, r.value.0, r.value.1)
                        && forall i', j' :: 0 <= i' < |d.states| && 0 <= j' < |d.inputs|
                                            && PairLe(i, j, i', j') && PairLe(i', j', r.value.0, r.value.1)
                                            && (i', j') != r.value
                                            ==> Covered(d, i', j')
    decreases |d.states| - i, |d.inputs| - j
  {
    if i == |d.states| then None
    else if j == |d.inputs| then FirstUncovered(d, i + 1, 0)
    else if !Covered(d, i, j) then Some((i, j))
    else FirstUncovered(d, i, j + 1)
  }

  /** dsml_validate_dsm: the global checks, in their fixed order. */
  function ValidateDsm(d: Dsm): (r: Status)
    requires TransInRange(d)
    ensures r == EmptyDsm <==> |d.states| == 0
    ensures r == NoEntry <==> |d.states| > 0 && !d.hasEntry
    ensures r == StaticDsm <==> |d.states| > 0 && d.hasEntry && |d.inputs| == 0
    ensures r == IndetermTrans <==> |d.states| > 0 && d.hasEntry && |d.inputs| > 0 && !Complete(d)
    ensures r == Success <==> |d.states| > 0 && d.hasEntry && |d.inputs| > 0 && Complete(d)
    ensures r in {Success, EmptyDsm, NoEntry, StaticDsm, IndetermTrans}
  {
    if |d.states| == 0 then EmptyDsm
    else if !d.hasEntry then NoEntry
    else if |d.inputs| == 0 then StaticDsm
    else if FirstUncovered(d, 0, 0).Some? then IndetermTrans
    else Success
  }

  // ---------------------------------------------------------------------
  // The line loop of dsml_parse_script
  // ---------------------------------------------------------------------

  datatype LineError = ExpectedExpression | UnknownKeyword | StatementFailed(status: Status)

  datatype ScriptResult =
    | Parsed(dsm: Dsm)
    | LineFailed(line: nat, error: LineError)
    | Invalid(status: Status)

  /**
   * Splits a non-blank line into its keyword (the first token) and the payload
   * handed to the statement parser; no payload when the line is the keyword
   * alone. The payload starts one character past the keyword's length counted
   * from the start of the line, so for a line with leading spaces it is a piece
   * of the keyword's own tail.
   */
  function SplitStatement(line: string): (r: (string, Option<string>))
    requires !Util.IsBlank(Some(line))
    ensures Tokens(line, SymbolDelim) != [] && r.0 == Tokens(line, SymbolDelim)[0]
    ensures r.1.None? <==> line == r.0
    ensures line[0] != SymbolDelim && r.1.Some? ==> line == r.0 + [SymbolDelim] + r.1.value
  {
    var k := LeadingDelims(line, SymbolDelim);
    WordAfterDelims(line);
    var e := k + WordLength(line[k..], SymbolDelim);
    var keyword := line[k..e];
    TokensSkip(line, k);
    TokensFirst(line[k..], SymbolDelim);
    if |keyword| == |line| then (keyword, None)
    else if k == 0 then
      SplitAtDelim(line, e);
      (keyword, Some(line[e + 1..]))
    else (keyword, Some(line[e - k + 1..e]))
  }

  /** A line that is not blank has a character after its leading delimiters. */
  lemma WordAfterDelims(line: string)
    requires !Util.IsBlank(Some(line))
    ensures LeadingDelims(line, SymbolDelim) < |line|
  {
    var w :| 0 <= w < |line| && !IsBlankChar(line[w]);
    assert line[w] != SymbolDelim;
  }

  /** The first token of a string that starts with a word is that word. */
  lemma TokensFirst(s: string, d: char)
    requires s != [] && s[0] != d
    ensures Tokens(s, d) != [] && Tokens(s, d)[0] == s[..WordLength(s, d)]
  {
  }

  lemma SplitAtDelim(line: string, e: nat)
    requires e < |line| && line[e] == SymbolDelim
    ensures line == line[..e] + [SymbolDelim] + line[e + 1..]
  {
  }

  lemma {:induction false} TokensSkip(s: string, k: nat)
    requires k <= |s| && forall i :: 0 <= i < k ==> s[i] == SymbolDelim
    ensures Tokens(s, SymbolDelim) == Tokens(s[k..], SymbolDelim)
    decreases k
  {
    if k > 0 {
      assert s[1..][k - 1..] == s[k..];
      TokensSkip(s[1..], k - 1);
    }
  }

  function Outcome(s: Step): Result<Dsm, LineError>
  {
    if s.status == Success then Ok(s.dsm) else Err(StatementFailed(s.status))
  }

  /** One line of the script: skipped, dispatched to a statement parser, or an error. */
  function ParseLine(d: Dsm, line: string): (r: Result<Dsm, LineError>)
    requires TransInRange(d)
    ensures r.Ok? ==> TransInRange(r.value)
  {
    if Util.IsBlank(Some(line)) || |line| == 0 then Ok(d)
    else if IsComment(line) then Ok(d)
    else
      var (keyword, payload) := SplitStatement(line);
      if payload.None? then Err(ExpectedExpression)
      else match ParseLexemeKeyword(keyword)
        case LexemeState => Outcome(ParseState(d, payload.value))
        case LexemeInput => Outcome(ParseIo(d, payload.value, true))
        case LexemeOutput => Outcome(ParseIo(d, payload.value, false))
        case LexemeTrans => Outcome(ParseTrans(d, payload.value))
        case LexemeUndef => Err(UnknownKeyword)
  }

  /** The lines after the first `count`, stopping at the first failing line (numbered from 1). */
  function ParseLines(d: Dsm, lines: seq<string>, count: nat): (r: Result<Dsm, (nat, LineError)>)
    requires TransInRange(d)
    ensures r.Ok? ==> TransInRange(r.value)
    ensures r.Err? ==> count < r.error.0 <= count + |lines|
    decreases |lines|
  {
    if lines == [] then Ok(d)
    else match ParseLine(d, lines[0])
      case Err(e) => Err((count + 1, e))
      case Ok(d') => ParseLines(d', lines[1..], count + 1)
  }

  /** dsml_parse_script over the script's lines, without the file handling. */
  function ParseScript(lines: seq<string>): (r: ScriptResult)
    ensures r.Parsed? ==> TransInRange(r.dsm) && ValidateDsm(r.dsm) == Success
    ensures r.Invalid? ==> r.status in {EmptyDsm, NoEntry, StaticDsm, IndetermTrans}
  {
    match ParseLines(InitialDsm, lines, 0)
    case Err((n, e)) => LineFailed(n, e)
    case Ok(d) =>
      var status := ValidateDsm(d);
      if status == Success then Parsed(d) else Invalid(status)
  }
}
