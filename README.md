# DSML compiler core in Dafny

DSML is a small language that describes deterministic state machines. A
script is a sequence of lines. Each line is blank, a comment (`#`), or a
statement:

- `state [final] [entry] S1 S2 ...` declares states;
- `input I1 I2 ...` and `output O1 O2 ...` declare inputs and outputs;
- `trans FROM : I1 I2 ... : TO : OUT` declares one transition per listed
  input, where `OUT` is `-` when the transition emits nothing.

The parser builds one record of all declarations and checks it as a whole.
`machine_init` then lowers a valid record into a machine: each state owns a
transition table with one cell per input.

The model has a functional half and an imperative half.

- **The functional half** (`Dsml`) describes every statement parser as a
  function. Each function takes the parser record (a `Dsm` value) and gives
  the new record and the status (`Step`). Entities are referred to by index.
- **The imperative half** holds the parts that change state in place, in the
  source's own form:
  - `DsmlParser.Parser` is a class whose lists grow in place, with their
    capacities. Its statement parsers are methods with the source's `strtok`
    loops and trimming buffer.
  - `DsmlParser.ParseScript` is the driver's line loop.
  - `MachineCompiler.MachineInit` fills freshly allocated arrays and
    transition tables in nested loops.

Each method is proved to produce exactly the record and status of its
function. So every lemma about the functions holds of the methods.

Files and modules:

| file | module | contents |
|---|---|---|
| types.dfy | `Types` | `Option`, `Result` |
| ctype.dfy | `CType` | ASCII `isalnum`, `isspace`, `isblank` |
| util.dfy | `Util` | `is_blank` |
| dsml.dfy | `Dsml` | constants, records, `strtok` as `Tokens`, trimming, symbol checks, look-ups, statement parsers, validation, line driver |
| dsml_invariants.dfy | `DsmlInvariants` | the parser invariant `WellFormed`, and the counting argument behind the machine guard |
| dsml_lemmas.dfy | `DsmlLemmas` | success, effect and error conditions of every statement parser; preservation of the invariant; properties of the driver |
| dsml_parser.dfy | `DsmlParser` | the `Parser` class and its methods, `dsml_trim_symbol`, the driver method |
| machine.dfy | `MachineCompiler` | the machine, `machine_init` and the properties of its tables |

## Model

| member | source | states |
|---|---|---|
| Util.IsBlank | src/util.c:7-21 | A null string is not blank. The empty string is blank. Otherwise a string is blank exactly when every character is a space or a tab, and any other character makes it non-blank. |
| Dsml.ValidateSymbol | src/dsml.c:612-634 | A symbol is valid exactly when all its characters are ASCII alphanumeric and it is none of the six keywords. |
| Dsml.IsComment | src/dsml.c:823-836 | A line is a comment exactly when it is shorter than the 255-character trimming buffer and its first non-white-space character is `#`. |
| Dsml.ParseLexemeKeyword | src/dsml.c:199-219 | Each of `state`, `input`, `output` and `trans` gives its own lexeme type. Every other word is undefined. |
| Dsml.Tokens | src/dsml.c:236-304 | `strtok` splitting: every token is non-empty and contains no delimiter. |
| DsmlLemmas.TokensJoin | src/dsml.c:236-304 | Joining non-empty, delimiter-free words with the delimiter and splitting the result gives the words back. |
| DsmlLemmas.TokensCollapse | src/dsml.c:236-304 | A run of delimiters acts as one: doubling a delimiter anywhere in the string leaves the tokens unchanged. |
| Dsml.Trimmed | src/dsml.c:636-679 | The result is a slice of the input with only white space outside it, and it neither starts nor ends with white space. It is empty exactly when the input is all white space. |
| DsmlLemmas.TrimmedIdempotent | src/dsml.c:636-679 | Trimming twice gives the same result as trimming once. |
| DsmlParser.TrimSymbol | src/dsml.c:636-679 | Empty input gives EMPTY_SYMBOL. Input at least as long as the buffer gives INVAL_PARAM and leaves the buffer untouched. Otherwise the buffer starts with the trimmed symbol and a NUL, and the rest of the buffer is unchanged. |
| DsmlParser.SkipLeading | src/dsml.c:656-659 | The forward scan stops at the first character that is not white space, or at the end: its index is `LeadingSpaces(symbol)`. |
| DsmlParser.SkipTrailing | src/dsml.c:665-668 | From a front character that is not white space, the backward scan stops right after the last character that is not white space: `back` is the length minus `TrailingSpaces(symbol)`, and it lies past `front`. |
| DsmlParser.CopyRange | src/dsml.c:670-673 | The do-while copy puts `symbol[from..to]` at the front of the buffer, with `len` equal to `to - from`. The buffer from `len + 1` on is unchanged. |
| DsmlParser.Terminate | src/dsml.c:677 | Writes the NUL at `len` and leaves every other cell of the buffer unchanged. |
| Dsml.IndexOf | src/dsml.c:681-761 | The first index holding the name, or none when no index does. |
| Dsml.SymbolExists | src/dsml.c:681-720 | True exactly when the name is declared in the category. |
| Dsml.GetEntity | src/dsml.c:722-761 | Finds an entity exactly when the name is declared. The result is the first entity with that name. |
| Dsml.GetTrans | src/dsml.c:763-778 | Finds a transition exactly when one matches the from-state and input names. The result is the first match. |
| Dsml.FindTrans | src/dsml.c:768-775 | The scan from index `from`: a result is a matching transition with no match between `from` and it, and no result means no transition from `from` on matches. |
| DsmlInvariants.TransMatchesByIndex | src/dsml.c:763-778 | With unique names, a transition matches by name exactly when its state and input indices match. |
| DsmlParser.Grown | src/dsml.c:543-561 | A capacity grows by CAP_INCR exactly when the list is full. It stays at least the size and starts at INIT_CAP. |
| DsmlParser.Parser.constructor | src/dsml.c:125-150 | Empty lists, each of capacity INIT_CAP, and no entry state. |
| DsmlParser.Parser.AddState | src/dsml.c:543-561 | Appends the state and grows the capacity only when the list is full. The other lists and capacities are unchanged. |
| DsmlParser.Parser.AddInput | src/dsml.c:563-578 | Appends the input and grows its capacity only when the list is full. |
| DsmlParser.Parser.AddOutput | src/dsml.c:580-595 | Appends the output and grows its capacity only when the list is full. |
| DsmlParser.Parser.AddTrans | src/dsml.c:597-610 | Appends the transition and grows its capacity only when the list is full. |
| Dsml.ParseState | src/dsml.c:221-314 | Only the state list and the entry flag can change. The existing states are kept and the new ones come after them. |
| Dsml.ParseModifiers | src/dsml.c:244-279 | The modifier loop changes only the state list and the entry flag. Inputs, outputs and transitions are kept, the existing states stay in front, and an entry flag already set stays set. |
| DsmlParser.Parser.ParseState | src/dsml.c:221-314 | The modifier loop and the symbol loop leave exactly the record and status of `Dsml.ParseState`. |
| DsmlParser.Parser.AddStateSymbols | src/dsml.c:281-308 | The symbol loop leaves exactly the record and status of `Dsml.AddStateSymbols`. |
| Dsml.AddStateSymbols | src/dsml.c:281-308 | The new states are the accepted prefix of the symbols, with the statement's flags. Success means every symbol was added and at least one was named. |
| DsmlLemmas.ParseStateHeader | src/dsml.c:236-279 | No symbol gives EMPTY_SYMBOL. A second `entry` in a parser that already has one gives MULT_ENTRY. A repeated modifier gives REDEF_KEYWORD. Otherwise the symbols after the modifiers are added with the modifiers' flags. |
| DsmlLemmas.SymbolsOkIff | src/dsml.c:284-300 | Every symbol passes the loop's checks exactly when: an entry statement names at most one state, every symbol is valid and not yet a state, and no symbol repeats. |
| DsmlLemmas.ParseStateSucceeds | src/dsml.c:221-314 | `state` succeeds exactly when its tokens form an acceptable statement. |
| DsmlLemmas.ParseStateEffect | src/dsml.c:221-314 | On success, the states named after the modifiers are appended in order with the modifiers' flags, and the entry flag is set if `entry` was given. |
| DsmlLemmas.ParseStateSymbolFails | src/dsml.c:284-300 | The first symbol that fails the checks decides the status: MULT_ENTRY, then INVAL_SYMBOL, then REDEF_SYMBOL. The symbols before it stay declared. |
| DsmlLemmas.AddStateSymbolsSucceeds | src/dsml.c:284-308 | The symbol loop succeeds exactly when at least one symbol is named and each passes the checks. |
| DsmlLemmas.AddStateSymbolsEffect | src/dsml.c:284-304 | On success, the symbol loop appends one state per symbol, in order. |
| DsmlLemmas.AddStateSymbolsFails | src/dsml.c:284-304 | At the first rejected symbol, the status follows the order of the checks, and the states before it are kept. |
| Dsml.ParseIo | src/dsml.c:316-370 | Only the named list grows, and its old entries are kept. |
| DsmlParser.Parser.ParseIo | src/dsml.c:316-370 | The symbol loop leaves exactly the record and status of `Dsml.ParseIo`. |
| Dsml.AddIoSymbols | src/dsml.c:339-364 | The list gains the accepted prefix of the symbols. Success means every symbol was added. |
| DsmlLemmas.ParseIoSucceeds | src/dsml.c:316-370 | `input`/`output` succeeds exactly when at least one symbol is named, all are valid and new to that list, and none repeats. On success the symbols are appended in order. No symbol gives EMPTY_SYMBOL. |
| DsmlLemmas.ParseIoSymbolFails | src/dsml.c:339-360 | The first rejected symbol gives INVAL_SYMBOL or REDEF_SYMBOL. The symbols before it stay declared. |
| DsmlLemmas.AddIoSymbolsSucceeds | src/dsml.c:339-364 | The loop succeeds exactly when every symbol passes both checks. |
| DsmlLemmas.AddIoSymbolsFails | src/dsml.c:339-360 | At the first rejected symbol, the status and the kept prefix are as the checks' order prescribes. |
| Dsml.ParseTrans | src/dsml.c:372-541 | Only the transition list can change, and only by appending. A failing statement changes nothing. |
| Dsml.ParseTransTarget | src/dsml.c:470-534 | Same frame as `ParseTrans` for the to-state, output and append stage. |
| Dsml.ResolveInputs | src/dsml.c:426-463 | The only errors are UNDEF_SYMBOL, REDEF_SYMBOL and INDETERM_TRANS. On success each listed input is resolved to its index, in order. |
| Dsml.AppendTransitions | src/dsml.c:521-534 | Appends one transition per resolved input with the same from-state, to-state and output, in order. |
| DsmlParser.Parser.ParseTrans | src/dsml.c:372-469 | Trimming the from-state, the field-count check and the input loop leave exactly the record and status of `Dsml.ParseTrans`. |
| DsmlParser.Parser.ParseTransTarget | src/dsml.c:470-534 | Trimming the to-state and the output, and appending, leave exactly the record and status of `Dsml.ParseTransTarget`. |
| DsmlParser.Parser.NameTaken | src/dsml.c:438-444 | True exactly when an input already taken by the statement has the name. |
| DsmlParser.Parser.ResolveInputs | src/dsml.c:415-463 | The input loop fills the `inputs` array with exactly the result of `Dsml.ResolveInputs`, or returns its error. |
| DsmlParser.Parser.AppendTransitions | src/dsml.c:521-534 | The creation loop appends exactly the transitions of `Dsml.AppendTransitions`. |
| DsmlLemmas.ResolveInputsSucceeds | src/dsml.c:430-456 | The input loop succeeds exactly when every input is declared, not repeated and has no transition yet from that state. The resolved indices are distinct. |
| DsmlLemmas.ResolveInputsFails | src/dsml.c:430-451 | At the first rejected input, the error is UNDEF_SYMBOL, then REDEF_SYMBOL, then INDETERM_TRANS, in the order of the checks. |
| DsmlLemmas.ParseTransSucceeds | src/dsml.c:372-541 | `trans` succeeds exactly when: the from-state is declared, each input passes the loop's checks, the to-state is declared, and the output is `-` or declared. |
| DsmlLemmas.ParseTransEffect | src/dsml.c:521-534 | On success, one transition per listed input is appended, in order, each between the named states. Its output is none exactly when the fourth field is `-`. |
| DsmlLemmas.ParseTransFieldErrors | src/dsml.c:377-424 | The from-state's errors: an empty payload, no field, an over-long field, an undeclared state, and a second field that ends the payload. |
| DsmlLemmas.ParseTransInputFails | src/dsml.c:430-451 | The first rejected input decides the status, and the record is unchanged. |
| DsmlLemmas.ParseTransLaterErrors | src/dsml.c:460-519 | The errors after the input loop: no input, missing fields, over-long fields, an undeclared to-state and an undeclared output. |
| DsmlLemmas.ParseTransIgnoresExtraFields | src/dsml.c:494-519 | Fields after the fourth do not affect the outcome. |
| DsmlLemmas.ParseTransInputBound | src/dsml.c:415-453 | A successful statement lists no more inputs than are declared, so the `inputs` array of `input_list_size` entries cannot overflow. |
| DsmlLemmas.AddStateSymbolsPreserves | src/dsml.c:284-304 | The symbol loop keeps the parser invariant. |
| DsmlLemmas.ParseStatePreserves | src/dsml.c:221-314 | `state` keeps the parser invariant on every outcome. On success it keeps "entry flag iff entry state". |
| DsmlLemmas.AddIoSymbolsPreserves | src/dsml.c:339-360 | The io symbol loop keeps the parser invariant. |
| DsmlLemmas.ParseIoPreserves | src/dsml.c:316-370 | `input`/`output` keeps the parser invariant and "entry flag iff entry state". |
| DsmlLemmas.ParseTransPreserves | src/dsml.c:372-541 | `trans` keeps the parser invariant: transitions stay deterministic because of the INDETERM_TRANS and REDEF_SYMBOL checks. |
| DsmlLemmas.ParseLinePreserves | src/dsml.c:34-95 | A line that does not fail keeps the parser invariant and "entry flag iff entry state". |
| DsmlLemmas.ParseLinesPreserves | src/dsml.c:34-96 | Every line prefix that does not fail keeps the parser invariant. |
| DsmlLemmas.ParseLinesAppend | src/dsml.c:34-96 | The line loop over two pieces of a script is the loop over the first, then the loop over the second from the first's record. It stops at the first failing line and numbers lines across both pieces. |
| Dsml.SplitStatement | src/dsml.c:53-63 | The keyword is the first token. There is no payload exactly when the line is the keyword alone. For a line without leading blanks the payload is what follows the keyword and one delimiter. |
| DsmlParser.Parser.ParseLine | src/dsml.c:44-95 | Blank and comment lines, keyword dispatch and the error cases leave exactly the record and outcome of `Dsml.ParseLine`. |
| Dsml.ParseLines | src/dsml.c:34-96 | A failing line's number lies within the lines read. |
| Dsml.ValidateDsm | src/dsml.c:780-821 | The checks apply in a fixed order: no state gives EMPTY_DSM, no entry gives NO_ENTRY, no input gives STATIC_DSM, an uncovered (state, input) pair gives INDETERM_TRANS, otherwise SUCCESS. Each status holds exactly under its condition. |
| Dsml.FirstUncovered | src/dsml.c:800-811 | The scan finds the first pair without a transition in state-then-input order, or proves that every pair is covered. |
| Dsml.ParseScript | src/dsml.c:10-123 | A parsed script passes validation. An invalid one fails with one of the validation statuses. |
| DsmlParser.ParseScript | src/dsml.c:10-123 | The line loop and the final validation give exactly `Dsml.ParseScript`. A parser is returned exactly when the script parsed, and it holds the parsed record. |
| DsmlLemmas.ParseScriptParsed | src/dsml.c:10-123 | A parsed script's record satisfies the parser invariant and has an entry state, at least one state and one input, and exactly states × inputs transitions. |
| DsmlInvariants.CompleteIffFull | src/dsml.c:800-811 | Under the parser invariant, every (state, input) pair is covered exactly when there are states × inputs transitions. |
| DsmlInvariants.CoveredByIndex | src/dsml.c:763-778 | Under unique names, a pair is covered exactly when some transition has its state and input indices. |
| MachineCompiler.GuardIffValid | src/machine.c:13-19 | Under the parser invariant, a record passes machine_init's guard exactly when it passes `dsml_validate_dsm`. |
| MachineCompiler.Cell | src/machine.c:52-82 | A cell's next state is a declared state, and its output, if any, is a declared output. |
| MachineCompiler.CellIsTransition | src/machine.c:52-82 | A cell holds the to-state and output of the transition that leaves its state on its input. |
| MachineCompiler.CellHasTransition | src/machine.c:52-82 | For a record that passes the guard, every cell has such a transition. |
| MachineCompiler.FindName | src/machine.c:76-80 | The output-name search finds the first index holding the name. |
| MachineCompiler.FindState | src/machine.c:64-69 | The state-name search finds the first machine state with the name, or reports there is none. |
| MachineCompiler.CopyNames | src/machine.c:25-29 | A fresh array holding the names in declaration order. |
| MachineCompiler.CopyStates | src/machine.c:31-44 | Fresh machine states with the parser states' names and final flags, each with its own fresh table of one cell per input. The entry state is the index of the state with the entry flag. |
| MachineCompiler.ConnectState | src/machine.c:58-83 | Cell `j` of state `i` is `Cell(d, i, j)`. |
| MachineCompiler.ComputeCell | src/machine.c:59-81 | The cell computed for state `i` and input `j` is `Cell(d, i, j)`. |
| MachineCompiler.ConnectStates | src/machine.c:52-84 | Every cell of every state's table is `Cell(d, i, j)`. |
| MachineCompiler.MachineInit | src/machine.c:8-87 | A null argument gives NULL_PARAM. A parser that fails the guard gives INVAL_PARSER and leaves the machine unchanged. Otherwise: inputs and outputs are copied in order; state `i` has parser state `i`'s name and final flag and a freshly allocated table of its own, with one cell per input; every cell is `Cell`; and the entry state is the state with the entry flag. |
| MachineCompiler.Lower | src/machine.c:21-84 | For a record that passed the guard: fresh input, state and output arrays holding the record's names in order; each state has a fresh table not shared with any other state; every cell is `Cell`; and the entry state is the state with the entry flag. |

## Left out

- File handling in `dsml_parse_script` (`fopen`, `fgets`, `feof`, `ferror`, `fclose`) is left out. The driver works on a sequence of lines that have already been read and have had their newline removed.
- `fgets` also splits lines longer than MAX_STRING_LEN, and that splitting is left out.
- Lines are taken to contain no NUL character. The C code sees a line only up to its first NUL, because `strlen`, `strtok` and `strcmp` stop there. The model reads the whole line, so on `input A\0B` it rejects the symbol `A\0B` with INVAL_SYMBOL, where the C code declares `A`.
- All printing is left out: the diagnostics of the driver and of `dsml_validate_dsm`, `dsml_parser_print`, and the `dsml_status_message` table. A failing line is returned as its number and error instead.
- Memory management is left out: `malloc`, `realloc`, `free`, the `strdup` copies, `dsml_parser_free` and `machine_free`. The entries of the parser's growing lists are Dafny sequences; their capacities are modelled exactly.
- Null pointers are modelled only where a caller can pass them and a result depends on them: `is_blank(NULL)` (an `Option`) and `machine_init` (nullable references). The other functions' NULL_PARAM branches cannot be reached from the driver and are left out.
- The locale-dependent `isalnum`, `isspace` and `isblank` are modelled as their ASCII classes.
- Sizes are unbounded integers. `size_t` overflow of `state_list_size * input_list_size` and of the capacities is not modelled.
- References between entities are indices into the record's lists, not pointers. Because names are unique within each category, look-up by name equals look-up by index. `DsmlInvariants.TransMatchesByIndex` proves this.
- `machine_init` is modelled with its intended behaviour, not with the five defects in src/machine.c:
  - line 49 copies the output record, not its name;
  - line 58 compares the loop counter with a pointer;
  - line 59 takes input `i` for cell `j`;
  - line 71 dereferences a missing output;
  - line 78 stores the parser's string rather than the machine's copy.
- MachineCompiler.MachineInit: requires the parser invariant `WellFormed`. Every record built by the statement parsers keeps it (`DsmlLemmas.ParseLinePreserves`). Without it, `dsml_get_trans` could find no transition for a pair that passed the guard, and the C code would dereference NULL.
- Machine states: the tables are arrays, but a state's name and final flag are values. A `machine_state` struct is never changed after the state loop.
- Where no state has the entry flag, `entry_state` keeps its old value, as the C code leaves the field untouched.
- `dsml_parse_trans` frees `inputs` uninitialised on its early exits. This is memory handling and is not modelled.
