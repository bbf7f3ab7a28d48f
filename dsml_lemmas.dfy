/**
 * Properties of the statement parsers of src/dsml.c: for each statement, when
 * it succeeds and what it appends, which status each kind of error yields,
 * and that every statement keeps the invariant `WellFormed`, whatever its
 * outcome. The line driver then never leaves the invariant, and a script it
 * accepts passes the guard of machine_init.
 */
module DsmlLemmas {
  import opened Types
  import opened Dsml
  import opened DsmlInvariants

  // ---------------------------------------------------------------------
  // Helpers about names
  // ---------------------------------------------------------------------

  lemma StateNamesAppend(states: seq<State>, s: State)
    ensures StateNames(states + [s]) == StateNames(states) + [s.symbol]
  {
  }

  lemma StateNamesConcat(a: seq<State>, b: seq<State>)
    ensures StateNames(a + b) == StateNames(a) + StateNames(b)
  {
  }

  lemma SliceOfSuffix<T>(s: seq<T>, h: nat, i: nat)
    requires h + i <= |s|
    ensures s[h..][..i] == s[h..h + i]
  {
  }

  lemma SplitFirst<T>(s: seq<T>, k: nat)
    requires 0 < k <= |s|
    ensures s[..k] == [s[0]] + s[1..][..k - 1]
  {
  }

  // ---------------------------------------------------------------------
  // strtok
  // ---------------------------------------------------------------------

  /** The words joined back with single delimiters. */
  function Join(words: seq<string>, d: char): (r: string)
    ensures |words| == 0 ==> r == []
  {
    if words == [] then []
    else if |words| == 1 then words[0]
    else words[0] + [d] + Join(words[1..], d)
  }

  /** strtok splitting undoes joining words that are non-empty and free of the delimiter. */
  lemma {:induction false} TokensJoin(words: seq<string>, d: char)
    requires forall k :: 0 <= k < |words| ==> words[k] != [] && d !in words[k]
    ensures Tokens(Join(words, d), d) == words
    decreases |words|
  {
    if words != [] {
      var w := words[0];
      var rest := if |words| == 1 then [] else [d] + Join(words[1..], d);
      var s := w + rest;
      assert Join(words, d) == s;
      assert WordLength(s, d) == |w| by { WordLengthPrefix(w, rest, d); }
      assert s[..|w|] == w;
      if |words| == 1 {
        assert s[|w|..] == [];
      } else {
        assert s[|w|..] == [d] + Join(words[1..], d);
        assert Tokens(s[|w|..], d) == Tokens(Join(words[1..], d), d) by {
          assert s[|w|..][1..] == Join(words[1..], d);
        }
        TokensJoin(words[1..], d);
      }
    }
  }

  /** A run of delimiters counts as one: doubling a delimiter does not change the tokens. */
  lemma {:induction false} TokensCollapse(a: string, b: string, d: char)
    ensures Tokens(a + [d, d] + b, d) == Tokens(a + [d] + b, d)
    decreases |a|
  {
    var s, t := a + [d, d] + b, a + [d] + b;
    if a == [] {
      assert s[1..] == t;
    } else if a[0] == d {
      assert s[1..] == a[1..] + [d, d] + b && t[1..] == a[1..] + [d] + b;
      TokensCollapse(a[1..], b, d);
    } else {
      var n := WordLength(a, d);
      WordLengthBefore(a, [d, d] + b, d);
      WordLengthBefore(a, [d] + b, d);
      assert s == a + ([d, d] + b) && t == a + ([d] + b);
      assert s[..n] == t[..n];
      assert s[n..] == a[n..] + [d, d] + b && t[n..] == a[n..] + [d] + b;
      TokensCollapse(a[n..], b, d);
    }
  }

  /** The first word of `a + x` ends inside `a` when `x` starts with the delimiter. */
  lemma {:induction false} WordLengthBefore(a: string, x: string, d: char)
    requires x != [] && x[0] == d
    ensures WordLength(a + x, d) == WordLength(a, d)
    decreases |a|
  {
    if a == [] {
      assert a + x == x;
    } else if a[0] != d {
      assert (a + x)[1..] == a[1..] + x;
      WordLengthBefore(a[1..], x, d);
    }
  }

  lemma {:induction false} WordLengthPrefix(w: string, rest: string, d: char)
    requires d !in w && (rest == [] || rest[0] == d)
    ensures WordLength(w + rest, d) == |w|
    decreases |w|
  {
    if w != [] {
      assert (w + rest)[1..] == w[1..] + rest;
      WordLengthPrefix(w[1..], rest, d);
    } else {
      assert w + rest == rest;
    }
  }

  // ---------------------------------------------------------------------
  // dsml_trim_symbol
  // ---------------------------------------------------------------------

  /** Trimming a trimmed string changes nothing. */
  lemma TrimmedIdempotent(s: string)
    ensures Trimmed(Trimmed(s)) == Trimmed(s)
  {
    var t := Trimmed(s);
    if t != [] {
      assert LeadingSpaces(t) == 0;
      assert TrailingSpaces(t) == 0;
      assert t[0..|t|] == t;
    }
  }

  // ---------------------------------------------------------------------
  // dsml_parse_state
  // ---------------------------------------------------------------------

  predicate IsModifier(w: string)
  {
    w == Keywords[FinalKeywordIndex] || w == Keywords[EntryKeywordIndex]
  }

  /** How many modifier words at the front of a state statement the modifier loop reads. */
  function HeaderLength(toks: seq<string>): (h: nat)
    ensures h <= 2 && h <= |toks|
    ensures forall k :: 0 <= k < h ==> IsModifier(toks[k])
    ensures h < 2 && h < |toks| ==> !IsModifier(toks[h])
  {
    if |toks| > 0 && IsModifier(toks[0]) then
      if |toks| > 1 && IsModifier(toks[1]) then 2 else 1
    else 0
  }

  /** Symbol `k` of a state statement passes the symbol loop. */
  predicate StateSymbolOk(d: Dsm, syms: seq<string>, k: nat, isEntry: bool, count: nat)
    requires k < |syms|
  {
    && !(isEntry && count + k >= 1)
    && ValidateSymbol(syms[k])
    && syms[k] !in StateNames(d.states)
    && syms[k] !in syms[..k]
  }

  /** Past the first symbol, the symbol loop sees the record with that symbol's state appended. */
  lemma StateSymbolOkShift(d: Dsm, syms: seq<string>, isFinal: bool, isEntry: bool, count: nat, m: nat)
    requires m + 1 < |syms|
    ensures StateSymbolOk(d, syms, m + 1, isEntry, count)
            <==> StateSymbolOk(AddState(d, syms[0], isFinal, isEntry), syms[1..], m, isEntry, count + 1)
  {
    StateNamesAppend(d.states, State(syms[0], isEntry, isFinal));
    SplitFirst(syms, m + 1);
  }

  /** The first `n` symbols pass exactly when the first passes and the next `n - 1` pass on the record it extends. */
  lemma StateSymbolsOkShift(d: Dsm, syms: seq<string>, isFinal: bool, isEntry: bool, count: nat, n: nat,
                            d': Dsm, tail: seq<string>, next: nat)
    requires 0 < n <= |syms| && StateSymbolOk(d, syms, 0, isEntry, count)
    requires d' == AddState(d, syms[0], isFinal, isEntry) && tail == syms[1..] && next == count + 1
    ensures (forall k :: 0 <= k < n ==> StateSymbolOk(d, syms, k, isEntry, count))
            <==> (forall m :: 0 <= m < n - 1 ==> StateSymbolOk(d', tail, m, isEntry, next))
  {
    if forall m :: 0 <= m < n - 1 ==> StateSymbolOk(d', tail, m, isEntry, next) {
      forall k | 0 <= k < n ensures StateSymbolOk(d, syms, k, isEntry, count) {
        if k > 0 { StateSymbolOkShift(d, syms, isFinal, isEntry, count, k - 1); }
      }
    }
    if forall k :: 0 <= k < n ==> StateSymbolOk(d, syms, k, isEntry, count) {
      forall m | 0 <= m < n - 1 ensures StateSymbolOk(d', tail, m, isEntry, next) {
        StateSymbolOkShift(d, syms, isFinal, isEntry, count, m);
      }
    }
  }

  lemma DeclaredStatesCons(syms: seq<string>, isFinal: bool, isEntry: bool)
    requires syms != []
    ensures DeclaredStates(syms, isFinal, isEntry)
            == [State(syms[0], isEntry, isFinal)] + DeclaredStates(syms[1..], isFinal, isEntry)
  {
  }

  lemma DeclaredStatesShift(d: Dsm, syms: seq<string>, isFinal: bool, isEntry: bool, i: nat)
    requires 0 < i <= |syms|
    ensures d.states + DeclaredStates(syms[..i], isFinal, isEntry)
            == AddState(d, syms[0], isFinal, isEntry).states + DeclaredStates(syms[1..][..i - 1], isFinal, isEntry)
  {
    var n := |d.states|;
    var lhs := d.states + DeclaredStates(syms[..i], isFinal, isEntry);
    var rhs := AddState(d, syms[0], isFinal, isEntry).states + DeclaredStates(syms[1..][..i - 1], isFinal, isEntry);
    assert |lhs| == |rhs|;
    forall k | 0 <= k < |lhs| ensures lhs[k] == rhs[k] {
      if k > n { assert syms[1..][..i - 1][k - n - 1] == syms[k - n]; }
    }
  }

  /** One round of the symbol loop on a symbol that passes. */
  lemma AddStateSymbolsStep(d: Dsm, syms: seq<string>, isFinal: bool, isEntry: bool, count: nat)
    requires syms != [] && StateSymbolOk(d, syms, 0, isEntry, count)
    ensures AddStateSymbols(d, syms, isFinal, isEntry, count)
            == AddStateSymbols(AddState(d, syms[0], isFinal, isEntry), syms[1..], isFinal, isEntry, count + 1)
  {
    AddStateSymbolsUnfold(d, syms, isFinal, isEntry, count);
    assert Names(d, LexemeState) == StateNames(d.states);
  }

  /** A symbol that does not pass stops the loop at once. */
  lemma AddStateSymbolsStop(d: Dsm, syms: seq<string>, isFinal: bool, isEntry: bool, count: nat)
    requires syms != [] && !StateSymbolOk(d, syms, 0, isEntry, count)
    ensures AddStateSymbols(d, syms, isFinal, isEntry, count)
            == Step(d, if isEntry && count >= 1 then MultEntry
                       else if !ValidateSymbol(syms[0]) then InvalSymbol
                       else RedefSymbol)
  {
    AddStateSymbolsUnfold(d, syms, isFinal, isEntry, count);
    assert Names(d, LexemeState) == StateNames(d.states);
  }

  /**
   * The symbol loop succeeds exactly when there is at least one symbol and
   * every symbol is valid, new and alone if the state is the entry state.
   */
  lemma {:induction false} AddStateSymbolsSucceeds(d: Dsm, syms: seq<string>, isFinal: bool, isEntry: bool, count: nat)
    ensures AddStateSymbols(d, syms, isFinal, isEntry, count).status == Success
            <==> count + |syms| > 0 && forall k :: 0 <= k < |syms| ==> StateSymbolOk(d, syms, k, isEntry, count)
    decreases |syms|
  {
    if syms == [] {
    } else if !StateSymbolOk(d, syms, 0, isEntry, count) {
      AddStateSymbolsStop(d, syms, isFinal, isEntry, count);
    } else {
      var d' := AddState(d, syms[0], isFinal, isEntry);
      var tail := syms[1..];
      var next := count + 1;
      AddStateSymbolsSucceeds(d', tail, isFinal, isEntry, next);
      AddStateSymbolsSucceedsStep(d, syms, isFinal, isEntry, count, d', tail, next);
    }
  }

  /** The inductive step of AddStateSymbolsSucceeds. */
  lemma AddStateSymbolsSucceedsStep(d: Dsm, syms: seq<string>, isFinal: bool, isEntry: bool, count: nat,
                                    d': Dsm, tail: seq<string>, next: nat)
    requires syms != [] && StateSymbolOk(d, syms, 0, isEntry, count)
    requires d' == AddState(d, syms[0], isFinal, isEntry) && tail == syms[1..] && next == count + 1
    requires AddStateSymbols(d', tail, isFinal, isEntry, next).status == Success
             <==> next + |tail| > 0 && forall m :: 0 <= m < |tail| ==> StateSymbolOk(d', tail, m, isEntry, next)
    ensures AddStateSymbols(d, syms, isFinal, isEntry, count).status == Success
            <==> count + |syms| > 0 && forall k :: 0 <= k < |syms| ==> StateSymbolOk(d, syms, k, isEntry, count)
  {
    AddStateSymbolsStep(d, syms, isFinal, isEntry, count);
    StateSymbolsOkShift(d, syms, isFinal, isEntry, count, |syms|, d', tail, next);
  }

  /** On success the symbol loop has appended one state per symbol, in order, with the statement's flags. */
  lemma AddStateSymbolsEffect(d: Dsm, syms: seq<string>, isFinal: bool, isEntry: bool, count: nat)
    requires AddStateSymbols(d, syms, isFinal, isEntry, count).status == Success
    ensures AddStateSymbols(d, syms, isFinal, isEntry, count).dsm
            == d.(states := d.states + DeclaredStates(syms, isFinal, isEntry))
  {
    var r := AddStateSymbols(d, syms, isFinal, isEntry, count);
    assert r.dsm.states == d.states + DeclaredStates(syms, isFinal, isEntry);
  }

  /**
   * The symbol loop stops at the first symbol that does not pass, with
   * MULT_ENTRY for a second symbol of an entry state, INVAL_SYMBOL for an
   * invalid one and REDEF_SYMBOL for one already declared; the states of the
   * symbols before it stay appended.
   */
  lemma {:induction false} AddStateSymbolsFails(d: Dsm, syms: seq<string>, isFinal: bool, isEntry: bool, count: nat, i: nat)
    requires i < |syms| && forall k :: 0 <= k < i ==> StateSymbolOk(d, syms, k, isEntry, count)
    requires !StateSymbolOk(d, syms, i, isEntry, count)
    ensures AddStateSymbols(d, syms, isFinal, isEntry, count).status
            == if isEntry && count + i >= 1 then MultEntry
               else if !ValidateSymbol(syms[i]) then InvalSymbol
               else RedefSymbol
    ensures AddStateSymbols(d, syms, isFinal, isEntry, count).dsm
            == d.(states := d.states + DeclaredStates(syms[..i], isFinal, isEntry))
    decreases i
  {
    if i == 0 {
      AddStateSymbolsStop(d, syms, isFinal, isEntry, count);
      assert syms[..0] == [];
      assert d.states + DeclaredStates([], isFinal, isEntry) == d.states;
    } else {
      var d' := AddState(d, syms[0], isFinal, isEntry);
      AddStateSymbolsFailsShift(d, syms, isFinal, isEntry, count, i, d', syms[1..], count + 1);
      AddStateSymbolsFails(d', syms[1..], isFinal, isEntry, count + 1, i - 1);
      AddStateSymbolsFailsStep(d, syms, isFinal, isEntry, count, i);
    }
  }

  /** Past the first symbol, the failing symbol is still the first that does not pass. */
  lemma AddStateSymbolsFailsShift(d: Dsm, syms: seq<string>, isFinal: bool, isEntry: bool, count: nat, i: nat,
                                  d': Dsm, tail: seq<string>, next: nat)
    requires 0 < i < |syms| && forall k :: 0 <= k < i ==> StateSymbolOk(d, syms, k, isEntry, count)
    requires !StateSymbolOk(d, syms, i, isEntry, count)
    requires d' == AddState(d, syms[0], isFinal, isEntry) && tail == syms[1..] && next == count + 1
    ensures StateSymbolOk(d, syms, 0, isEntry, count)
    ensures forall m :: 0 <= m < i - 1 ==> StateSymbolOk(d', tail, m, isEntry, next)
    ensures !StateSymbolOk(d', tail, i - 1, isEntry, next)
  {
    assert StateSymbolOk(d, syms, 0, isEntry, count);
    StateSymbolsOkShift(d, syms, isFinal, isEntry, count, i, d', tail, next);
    StateSymbolOkShift(d, syms, isFinal, isEntry, count, i - 1);
  }

  /** The inductive step of AddStateSymbolsFails. */
  lemma AddStateSymbolsFailsStep(d: Dsm, syms: seq<string>, isFinal: bool, isEntry: bool, count: nat, i: nat)
    requires 0 < i < |syms| && StateSymbolOk(d, syms, 0, isEntry, count)
    requires AddStateSymbols(AddState(d, syms[0], isFinal, isEntry), syms[1..], isFinal, isEntry, count + 1).status
             == if isEntry && count + 1 + (i - 1) >= 1 then MultEntry
                else if !ValidateSymbol(syms[1..][i - 1]) then InvalSymbol
                else RedefSymbol
    requires AddStateSymbols(AddState(d, syms[0], isFinal, isEntry), syms[1..], isFinal, isEntry, count + 1).dsm
             == AddState(d, syms[0], isFinal, isEntry).(states := AddState(d, syms[0], isFinal, isEntry).states
                                                        + DeclaredStates(syms[1..][..i - 1], isFinal, isEntry))
    ensures AddStateSymbols(d, syms, isFinal, isEntry, count).status
            == if isEntry && count + i >= 1 then MultEntry
               else if !ValidateSymbol(syms[i]) then InvalSymbol
               else RedefSymbol
    ensures AddStateSymbols(d, syms, isFinal, isEntry, count).dsm
            == d.(states := d.states + DeclaredStates(syms[..i], isFinal, isEntry))
  {
    AddStateSymbolsStep(d, syms, isFinal, isEntry, count);
    assert syms[1..][i - 1] == syms[i];
    DeclaredStatesShift(d, syms, isFinal, isEntry, i);
  }

  // ---------------------------------------------------------------------
  // dsml_parse_state: the modifier loop and the whole statement
  // ---------------------------------------------------------------------

  /**
   * The modifier loop. It stops the statement with MULT_ENTRY when `entry`
   * is read while an entry state exists, and with REDEF_KEYWORD when a
   * modifier repeats (the entry flag set by a first `entry` stays set);
   * otherwise the symbol loop runs on the words after the modifiers, with the
   * entry flag already set when `entry` was among them. No words at all give
   * EMPTY_SYMBOL.
   */
  lemma ParseStateHeader(d: Dsm, payload: string)
    ensures var toks := Tokens(payload, SymbolDelim);
            toks == [] ==> ParseState(d, payload) == Step(d, EmptySymbol)
    ensures var toks := Tokens(payload, SymbolDelim);
            var mods := toks[..HeaderLength(toks)];
            "entry" in mods && d.hasEntry && (Distinct(mods) || toks[0] == "entry")
            ==> ParseState(d, payload) == Step(d, MultEntry)
    ensures var toks := Tokens(payload, SymbolDelim);
            var mods := toks[..HeaderLength(toks)];
            !Distinct(mods) && !(toks[0] == "entry" && d.hasEntry)
            ==> ParseState(d, payload) == Step(d.(hasEntry := d.hasEntry || "entry" in mods), RedefKeyword)
    ensures var toks := Tokens(payload, SymbolDelim);
            var h := HeaderLength(toks);
            var mods := toks[..h];
            toks != [] && Distinct(mods) && !("entry" in mods && d.hasEntry)
            ==> ParseState(d, payload)
                == AddStateSymbols(d.(hasEntry := d.hasEntry || "entry" in mods), toks[h..],
                                   "final" in mods, "entry" in mods, 0)
  {
    var toks := Tokens(payload, SymbolDelim);
    if toks != [] {
      assert ParseState(d, payload) == ParseModifiers(d, toks, false, false, 0);
      ModifiersOutcome(d, toks);
      assert HeaderOutcome(d, toks, ParseState(d, payload));
    }
  }

  /** What ParseStateHeader says of the modifier loop's outcome `r` on `toks`. */
  predicate HeaderOutcome(d: Dsm, toks: seq<string>, r: Step)
    requires toks != []
  {
    var h := HeaderLength(toks);
    var mods := toks[..h];
    && ("entry" in mods && d.hasEntry && (Distinct(mods) || toks[0] == "entry") ==> r == Step(d, MultEntry))
    && (!Distinct(mods) && !(toks[0] == "entry" && d.hasEntry)
        ==> r == Step(d.(hasEntry := d.hasEntry || "entry" in mods), RedefKeyword))
    && (Distinct(mods) && !("entry" in mods && d.hasEntry)
        ==> r == AddStateSymbols(d.(hasEntry := d.hasEntry || "entry" in mods), toks[h..],
                                 "final" in mods, "entry" in mods, 0))
  }

  /** Once the modifiers pass, the statement is the symbol loop on the words after them. */
  lemma ParseStateBody(d: Dsm, payload: string)
    requires var toks := Tokens(payload, SymbolDelim);
             var mods := toks[..HeaderLength(toks)];
             toks != [] && Distinct(mods) && !("entry" in mods && d.hasEntry)
    ensures var toks := Tokens(payload, SymbolDelim);
            var h := HeaderLength(toks);
            var mods := toks[..h];
            ParseState(d, payload)
            == AddStateSymbols(d.(hasEntry := d.hasEntry || "entry" in mods), toks[h..],
                               "final" in mods, "entry" in mods, 0)
  {
    ParseStateHeader(d, payload);
  }

  /** The modifier loop from its first round, by the number of modifier words it reads. */
  lemma ModifiersOutcome(d: Dsm, toks: seq<string>)
    requires toks != []
    ensures HeaderOutcome(d, toks, ParseModifiers(d, toks, false, false, 0))
  {
    var h := HeaderLength(toks);
    if h == 0 {
      assert toks[..0] == [] && toks[0..] == toks;
    } else {
      ModifiersFirst(d, toks);
      var d1 := if toks[0] == "entry" then d.(hasEntry := true) else d;
      ModifiersSecond(d1, toks[1..], toks[0] == "final", toks[0] == "entry");
      if h == 1 {
        ModifiersOne(d, toks, ParseModifiers(d, toks, false, false, 0));
      } else {
        ModifiersTwo(d, toks, ParseModifiers(d, toks, false, false, 0));
      }
    }
  }

  lemma ModifiersOne(d: Dsm, toks: seq<string>, r: Step)
    requires toks != [] && HeaderLength(toks) == 1
    requires r == if toks[0] == "final" then AddStateSymbols(d, toks[1..], true, false, 0)
                  else if d.hasEntry then Step(d, MultEntry)
                  else AddStateSymbols(d.(hasEntry := true), toks[1..], false, true, 0)
    ensures HeaderOutcome(d, toks, r)
  {
    var mods := toks[..1];
    assert mods == [toks[0]] && Distinct(mods);
    if toks[0] == "final" {
      assert "entry" !in mods && "final" in mods;
      assert d.(hasEntry := d.hasEntry || false) == d;
    } else {
      assert "entry" in mods && "final" !in mods;
    }
  }

  lemma ModifiersTwo(d: Dsm, toks: seq<string>, r: Step)
    requires |toks| >= 2 && HeaderLength(toks) == 2
    requires r == if toks[0] == "final" then
                    (if toks[1] == "final" then Step(d, RedefKeyword)
                     else if d.hasEntry then Step(d, MultEntry)
                     else AddStateSymbols(d.(hasEntry := true), toks[2..], true, true, 0))
                  else if d.hasEntry then Step(d, MultEntry)
                  else if toks[1] == "entry" then Step(d.(hasEntry := true), RedefKeyword)
                  else AddStateSymbols(d.(hasEntry := true), toks[2..], true, true, 0)
    ensures HeaderOutcome(d, toks, r)
  {
    var mods := toks[..2];
    assert mods == [toks[0], toks[1]];
    assert Distinct(mods) <==> toks[0] != toks[1];
  }

  /** The first round of the modifier loop on a modifier word. */
  lemma ModifiersFirst(d: Dsm, toks: seq<string>)
    requires toks != [] && IsModifier(toks[0])
    ensures ParseModifiers(d, toks, false, false, 0)
            == if toks[0] == "final" then ParseModifiers(d, toks[1..], true, false, 1)
               else if d.hasEntry then Step(d, MultEntry)
               else ParseModifiers(d.(hasEntry := true), toks[1..], false, true, 1)
  {
  }

  /** The second round of the modifier loop; the loop ends after it whatever follows. */
  lemma ModifiersSecond(d: Dsm, toks: seq<string>, isFinal: bool, isEntry: bool)
    ensures ParseModifiers(d, toks, isFinal, isEntry, 1)
            == if toks == [] || !IsModifier(toks[0]) then AddStateSymbols(d, toks, isFinal, isEntry, 0)
               else if toks[0] == "final" then
                 (if isFinal then Step(d, RedefKeyword) else AddStateSymbols(d, toks[1..], true, isEntry, 0))
               else if isEntry then Step(d, RedefKeyword)
               else if d.hasEntry then Step(d, MultEntry)
               else AddStateSymbols(d.(hasEntry := true), toks[1..], isFinal, true, 0)
  {
  }

  /**
   * A state statement that dsml_parse_state accepts: distinct modifiers, no
   * `entry` once an entry state exists, at least one symbol, a single symbol
   * for an entry state, and symbols that are valid, pairwise different and
   * not yet declared as states.
   */
  predicate StateStatementOk(d: Dsm, toks: seq<string>)
  {
    var h := HeaderLength(toks);
    var mods := toks[..h];
    && Distinct(mods)
    && !("entry" in mods && d.hasEntry)
    && h < |toks|
    && ("entry" in mods ==> |toks| == h + 1)
    && (forall k :: h <= k < |toks| ==> ValidateSymbol(toks[k]) && toks[k] !in StateNames(d.states))
    && Distinct(toks[h..])
  }

  /** The symbol loop's per-symbol checks, said of the symbol list as a whole. */
  lemma SymbolsOkIff(d: Dsm, syms: seq<string>, isEntry: bool)
    ensures (forall k :: 0 <= k < |syms| ==> StateSymbolOk(d, syms, k, isEntry, 0))
            <==> && (isEntry ==> |syms| <= 1)
                 && (forall k :: 0 <= k < |syms| ==> ValidateSymbol(syms[k]) && syms[k] !in StateNames(d.states))
                 && Distinct(syms)
  {
    var each := forall k :: 0 <= k < |syms| ==> StateSymbolOk(d, syms, k, isEntry, 0);
    var whole := && (isEntry ==> |syms| <= 1)
                 && (forall k :: 0 <= k < |syms| ==> ValidateSymbol(syms[k]) && syms[k] !in StateNames(d.states))
                 && Distinct(syms);
    if each {
      forall i, j | 0 <= i < j < |syms| ensures syms[i] != syms[j] {
        assert StateSymbolOk(d, syms, j, isEntry, 0);
        assert syms[i] == syms[..j][i];
      }
      forall k | 0 <= k < |syms| ensures ValidateSymbol(syms[k]) && syms[k] !in StateNames(d.states) {
        assert StateSymbolOk(d, syms, k, isEntry, 0);
      }
      assert |syms| > 1 ==> StateSymbolOk(d, syms, 1, isEntry, 0);
      assert whole;
    }
    if whole {
      forall k | 0 <= k < |syms| ensures StateSymbolOk(d, syms, k, isEntry, 0) {
        assert forall i :: 0 <= i < k ==> syms[..k][i] == syms[i];
        assert isEntry ==> k == 0;
      }
      assert each;
    }
  }

  /** dsml_parse_state succeeds exactly on an accepted statement. */
  lemma ParseStateSucceeds(d: Dsm, payload: string)
    ensures ParseState(d, payload).status == Success <==> StateStatementOk(d, Tokens(payload, SymbolDelim))
  {
    var toks := Tokens(payload, SymbolDelim);
    var h := HeaderLength(toks);
    var mods := toks[..h];
    ParseStateHeader(d, payload);
    if toks != [] && Distinct(mods) && !("entry" in mods && d.hasEntry) {
      var isEntry := "entry" in mods;
      var d1 := d.(hasEntry := d.hasEntry || isEntry);
      var syms := toks[h..];
      AddStateSymbolsSucceeds(d1, syms, "final" in mods, isEntry, 0);
      SymbolsOkIff(d1, syms, isEntry);
      SymbolsOfStatement(d, toks, h);
    }
  }

  lemma SymbolsOfStatement(d: Dsm, toks: seq<string>, h: nat)
    requires h <= |toks|
    ensures (forall k :: 0 <= k < |toks[h..]| ==> ValidateSymbol(toks[h..][k]) && toks[h..][k] !in StateNames(d.states))
            <==> (forall k :: h <= k < |toks| ==> ValidateSymbol(toks[k]) && toks[k] !in StateNames(d.states))
  {
    var syms := toks[h..];
    if forall k :: 0 <= k < |syms| ==> ValidateSymbol(syms[k]) && syms[k] !in StateNames(d.states) {
      forall k | h <= k < |toks| ensures ValidateSymbol(toks[k]) && toks[k] !in StateNames(d.states) {
        assert toks[k] == syms[k - h];
      }
    }
  }

  /**
   * A successful state statement appends one state per symbol, in order, all
   * with the statement's final and entry flags, and sets the entry flag for
   * an entry state.
   */
  lemma ParseStateEffect(d: Dsm, payload: string)
    requires ParseState(d, payload).status == Success
    ensures var toks := Tokens(payload, SymbolDelim);
            var h := HeaderLength(toks);
            var mods := toks[..h];
            ParseState(d, payload).dsm
            == d.(states := d.states + DeclaredStates(toks[h..], "final" in mods, "entry" in mods),
                  hasEntry := d.hasEntry || "entry" in mods)
  {
    var toks := Tokens(payload, SymbolDelim);
    var h := HeaderLength(toks);
    var mods := toks[..h];
    ParseStateHeader(d, payload);
    ParseStateSucceeds(d, payload);
    var isEntry := "entry" in mods;
    var d1 := d.(hasEntry := d.hasEntry || isEntry);
    AddStateSymbolsEffect(d1, toks[h..], "final" in mods, isEntry, 0);
  }

  /**
   * After well-formed modifiers, the statement stops at the first symbol that
   * does not pass the symbol loop, keeping the states of the symbols before it.
   */
  lemma ParseStateSymbolFails(d: Dsm, payload: string, i: nat)
    requires var toks := Tokens(payload, SymbolDelim);
             var h := HeaderLength(toks);
             var mods := toks[..h];
             && Distinct(mods) && !("entry" in mods && d.hasEntry)
             && h + i < |toks|
             && (forall k :: 0 <= k < i ==> StateSymbolOk(d, toks[h..], k, "entry" in mods, 0))
             && !StateSymbolOk(d, toks[h..], i, "entry" in mods, 0)
    ensures var toks := Tokens(payload, SymbolDelim);
            var h := HeaderLength(toks);
            var mods := toks[..h];
            && ParseState(d, payload).status
               == (if "entry" in mods && i >= 1 then MultEntry
                   else if !ValidateSymbol(toks[h + i]) then InvalSymbol
                   else RedefSymbol)
            && ParseState(d, payload).dsm
               == d.(states := d.states + DeclaredStates(toks[h..h + i], "final" in mods, "entry" in mods),
                     hasEntry := d.hasEntry || "entry" in mods)
  {
    var toks := Tokens(payload, SymbolDelim);
    var h := HeaderLength(toks);
    var mods := toks[..h];
    var syms := toks[h..];
    ParseStateBody(d, payload);
    AddStateSymbolsFailsFlagged(d, syms, "final" in mods, "entry" in mods, i, d.hasEntry || "entry" in mods);
    assert syms[i] == toks[h + i];
    SliceOfSuffix(toks, h, i);
  }

  /** AddStateSymbolsFails on a record whose entry flag the modifier loop has set (the flag does not affect the symbols). */
  lemma AddStateSymbolsFailsFlagged(d: Dsm, syms: seq<string>, isFinal: bool, isEntry: bool, i: nat, flag: bool)
    requires i < |syms| && forall k :: 0 <= k < i ==> StateSymbolOk(d, syms, k, isEntry, 0)
    requires !StateSymbolOk(d, syms, i, isEntry, 0)
    ensures AddStateSymbols(d.(hasEntry := flag), syms, isFinal, isEntry, 0).status
            == if isEntry && i >= 1 then MultEntry
               else if !ValidateSymbol(syms[i]) then InvalSymbol
               else RedefSymbol
    ensures AddStateSymbols(d.(hasEntry := flag), syms, isFinal, isEntry, 0).dsm
            == d.(states := d.states + DeclaredStates(syms[..i], isFinal, isEntry), hasEntry := flag)
  {
    var d1 := d.(hasEntry := flag);
    forall k | 0 <= k <= i ensures StateSymbolOk(d1, syms, k, isEntry, 0) == StateSymbolOk(d, syms, k, isEntry, 0) {
    }
    AddStateSymbolsFails(d1, syms, isFinal, isEntry, 0, i);
  }

  // ---------------------------------------------------------------------
  // dsml_parse_io
  // ---------------------------------------------------------------------

  /** Symbol `k` of an input or output statement passes the symbol loop. */
  predicate IoSymbolOk(d: Dsm, syms: seq<string>, k: nat, isInput: bool)
    requires k < |syms|
  {
    && ValidateSymbol(syms[k])
    && syms[k] !in IoList(d, isInput)
    && syms[k] !in syms[..k]
  }

  function AddIo(d: Dsm, symbol: string, isInput: bool): Dsm
  {
    if isInput then AddInput(d, symbol) else AddOutput(d, symbol)
  }

  lemma AddIoSymbolsStep(d: Dsm, syms: seq<string>, isInput: bool)
    requires syms != [] && IoSymbolOk(d, syms, 0, isInput)
    ensures AddIoSymbols(d, syms, isInput) == AddIoSymbols(AddIo(d, syms[0], isInput), syms[1..], isInput)
  {
  }

  lemma AddIoSymbolsStop(d: Dsm, syms: seq<string>, isInput: bool)
    requires syms != [] && !IoSymbolOk(d, syms, 0, isInput)
    ensures AddIoSymbols(d, syms, isInput) == Step(d, if !ValidateSymbol(syms[0]) then InvalSymbol else RedefSymbol)
  {
  }

  lemma IoSymbolOkShift(d: Dsm, syms: seq<string>, isInput: bool, m: nat)
    requires m + 1 < |syms|
    ensures IoSymbolOk(d, syms, m + 1, isInput) <==> IoSymbolOk(AddIo(d, syms[0], isInput), syms[1..], m, isInput)
  {
    SplitFirst(syms, m + 1);
  }

  /** The symbol loop of dsml_parse_io succeeds exactly when every symbol is valid, new in its list and not repeated. */
  lemma {:induction false} AddIoSymbolsSucceeds(d: Dsm, syms: seq<string>, isInput: bool)
    ensures AddIoSymbols(d, syms, isInput).status == Success
            <==> forall k :: 0 <= k < |syms| ==> IoSymbolOk(d, syms, k, isInput)
    decreases |syms|
  {
    if syms == [] {
    } else if !IoSymbolOk(d, syms, 0, isInput) {
      AddIoSymbolsStop(d, syms, isInput);
    } else {
      var d' := AddIo(d, syms[0], isInput);
      var tail := syms[1..];
      AddIoSymbolsSucceeds(d', tail, isInput);
      AddIoSymbolsStep(d, syms, isInput);
      IoSymbolsOkShift(d, syms, isInput, |syms|, d', tail);
    }
  }

  /** The first `n` symbols pass exactly when the first passes and the next `n - 1` pass on the list it extends. */
  lemma IoSymbolsOkShift(d: Dsm, syms: seq<string>, isInput: bool, n: nat, d': Dsm, tail: seq<string>)
    requires 0 < n <= |syms| && IoSymbolOk(d, syms, 0, isInput)
    requires d' == AddIo(d, syms[0], isInput) && tail == syms[1..]
    ensures (forall k :: 0 <= k < n ==> IoSymbolOk(d, syms, k, isInput))
            <==> (forall m :: 0 <= m < n - 1 ==> IoSymbolOk(d', tail, m, isInput))
  {
    if forall m :: 0 <= m < n - 1 ==> IoSymbolOk(d', tail, m, isInput) {
      forall k | 0 <= k < n ensures IoSymbolOk(d, syms, k, isInput) {
        if k > 0 { IoSymbolOkShift(d, syms, isInput, k - 1); }
      }
    }
    if forall k :: 0 <= k < n ==> IoSymbolOk(d, syms, k, isInput) {
      forall m | 0 <= m < n - 1 ensures IoSymbolOk(d', tail, m, isInput) {
        IoSymbolOkShift(d, syms, isInput, m);
      }
    }
  }

  /**
   * The symbol loop of dsml_parse_io stops at the first symbol that does not
   * pass: INVAL_SYMBOL when invalid, REDEF_SYMBOL when already in the same
   * list; the symbols before it stay appended.
   */
  lemma {:induction false} AddIoSymbolsFails(d: Dsm, syms: seq<string>, isInput: bool, i: nat)
    requires i < |syms| && forall k :: 0 <= k < i ==> IoSymbolOk(d, syms, k, isInput)
    requires !IoSymbolOk(d, syms, i, isInput)
    ensures AddIoSymbols(d, syms, isInput).status == if !ValidateSymbol(syms[i]) then InvalSymbol else RedefSymbol
    ensures IoList(AddIoSymbols(d, syms, isInput).dsm, isInput) == IoList(d, isInput) + syms[..i]
    decreases i
  {
    if i == 0 {
      AddIoSymbolsStop(d, syms, isInput);
    } else {
      var d' := AddIo(d, syms[0], isInput);
      var tail := syms[1..];
      AddIoSymbolsFailsShift(d, syms, isInput, i, d', tail);
      AddIoSymbolsFails(d', tail, isInput, i - 1);
      AddIoSymbolsFailsStep(d, syms, isInput, i, d', tail);
    }
  }

  /** Past the first symbol, the failing symbol is still the first that does not pass. */
  lemma AddIoSymbolsFailsShift(d: Dsm, syms: seq<string>, isInput: bool, i: nat, d': Dsm, tail: seq<string>)
    requires 0 < i < |syms| && forall k :: 0 <= k < i ==> IoSymbolOk(d, syms, k, isInput)
    requires !IoSymbolOk(d, syms, i, isInput)
    requires d' == AddIo(d, syms[0], isInput) && tail == syms[1..]
    ensures IoSymbolOk(d, syms, 0, isInput)
    ensures forall m :: 0 <= m < i - 1 ==> IoSymbolOk(d', tail, m, isInput)
    ensures !IoSymbolOk(d', tail, i - 1, isInput)
  {
    assert IoSymbolOk(d, syms, 0, isInput);
    IoSymbolsOkShift(d, syms, isInput, i, d', tail);
    IoSymbolOkShift(d, syms, isInput, i - 1);
  }

  /** The inductive step of AddIoSymbolsFails. */
  lemma AddIoSymbolsFailsStep(d: Dsm, syms: seq<string>, isInput: bool, i: nat, d': Dsm, tail: seq<string>)
    requires 0 < i < |syms| && IoSymbolOk(d, syms, 0, isInput)
    requires d' == AddIo(d, syms[0], isInput) && tail == syms[1..]
    requires AddIoSymbols(d', tail, isInput).status == if !ValidateSymbol(tail[i - 1]) then InvalSymbol else RedefSymbol
    requires IoList(AddIoSymbols(d', tail, isInput).dsm, isInput) == IoList(d', isInput) + tail[..i - 1]
    ensures AddIoSymbols(d, syms, isInput).status == if !ValidateSymbol(syms[i]) then InvalSymbol else RedefSymbol
    ensures IoList(AddIoSymbols(d, syms, isInput).dsm, isInput) == IoList(d, isInput) + syms[..i]
  {
    AddIoSymbolsStep(d, syms, isInput);
    assert tail[i - 1] == syms[i];
    SplitFirst(syms, i);
    assert IoList(d', isInput) == IoList(d, isInput) + [syms[0]];
  }

  /**
   * dsml_parse_io succeeds exactly when there is at least one symbol and every
   * symbol is valid, pairwise different and not yet in the chosen list (the
   * other list does not matter); only the chosen list then grows, by the
   * symbols in order.
   */
  lemma ParseIoSucceeds(d: Dsm, payload: string, isInput: bool)
    ensures var syms := Tokens(payload, SymbolDelim);
            ParseIo(d, payload, isInput).status == Success
            <==> && syms != []
                 && (forall k :: 0 <= k < |syms| ==> ValidateSymbol(syms[k]) && syms[k] !in IoList(d, isInput))
                 && Distinct(syms)
    ensures Tokens(payload, SymbolDelim) == [] ==> ParseIo(d, payload, isInput) == Step(d, EmptySymbol)
    ensures ParseIo(d, payload, isInput).status == Success
            ==> ParseIo(d, payload, isInput).dsm
                == if isInput then d.(inputs := d.inputs + Tokens(payload, SymbolDelim))
                   else d.(outputs := d.outputs + Tokens(payload, SymbolDelim))
  {
    var syms := Tokens(payload, SymbolDelim);
    if syms != [] {
      assert |payload| > 0;
      AddIoSymbolsSucceeds(d, syms, isInput);
      IoSymbolsOkIff(d, syms, isInput);
      if AddIoSymbols(d, syms, isInput).status == Success {
        AddIoSymbolsAll(d, syms, isInput);
      }
    }
  }

  /** Every symbol passes exactly when all are valid, new in their list and pairwise different. */
  lemma IoSymbolsOkIff(d: Dsm, syms: seq<string>, isInput: bool)
    ensures (forall k :: 0 <= k < |syms| ==> IoSymbolOk(d, syms, k, isInput))
            <==> && (forall k :: 0 <= k < |syms| ==> ValidateSymbol(syms[k]) && syms[k] !in IoList(d, isInput))
                 && Distinct(syms)
  {
    if forall k :: 0 <= k < |syms| ==> IoSymbolOk(d, syms, k, isInput) {
      forall i, j | 0 <= i < j < |syms| ensures syms[i] != syms[j] {
        assert IoSymbolOk(d, syms, j, isInput);
        assert syms[i] == syms[..j][i];
      }
      forall k | 0 <= k < |syms| ensures ValidateSymbol(syms[k]) && syms[k] !in IoList(d, isInput) {
        assert IoSymbolOk(d, syms, k, isInput);
      }
    }
    if (forall k :: 0 <= k < |syms| ==> ValidateSymbol(syms[k]) && syms[k] !in IoList(d, isInput)) && Distinct(syms) {
      forall k | 0 <= k < |syms| ensures IoSymbolOk(d, syms, k, isInput) {
        assert forall i :: 0 <= i < k ==> syms[..k][i] == syms[i];
      }
    }
  }

  /** A symbol loop that succeeds appends every symbol to the chosen list and changes nothing else. */
  lemma AddIoSymbolsAll(d: Dsm, syms: seq<string>, isInput: bool)
    requires AddIoSymbols(d, syms, isInput).status == Success
    ensures AddIoSymbols(d, syms, isInput).dsm
            == if isInput then d.(inputs := d.inputs + syms) else d.(outputs := d.outputs + syms)
  {
    var r := AddIoSymbols(d, syms, isInput).dsm;
    assert syms[..|syms|] == syms;
    assert IoList(r, isInput) == IoList(d, isInput) + syms;
  }

  /** The first symbol of an input or output statement that does not pass decides its error. */
  lemma ParseIoSymbolFails(d: Dsm, payload: string, isInput: bool, i: nat)
    requires var syms := Tokens(payload, SymbolDelim);
             && i < |syms| && (forall k :: 0 <= k < i ==> IoSymbolOk(d, syms, k, isInput))
             && !IoSymbolOk(d, syms, i, isInput)
    ensures var syms := Tokens(payload, SymbolDelim);
            && ParseIo(d, payload, isInput).status == (if !ValidateSymbol(syms[i]) then InvalSymbol else RedefSymbol)
            && IoList(ParseIo(d, payload, isInput).dsm, isInput) == IoList(d, isInput) + syms[..i]
  {
    var syms := Tokens(payload, SymbolDelim);
    assert |payload| > 0;
    AddIoSymbolsFails(d, syms, isInput, i);
  }

  // ---------------------------------------------------------------------
  // dsml_parse_trans: the input loop
  // ---------------------------------------------------------------------

  /** Each index in `acc` is the first input carrying its name, as dsml_get_entity returns it. */
  predicate FirstIndices(d: Dsm, acc: seq<nat>)
  {
    forall k :: 0 <= k < |acc| ==> acc[k] < |d.inputs| && GetEntity(d, d.inputs[acc[k]], LexemeInput) == Some(acc[k])
  }

  function InputNames(d: Dsm, acc: seq<nat>): (r: seq<string>)
    requires forall k :: 0 <= k < |acc| ==> acc[k] < |d.inputs|
    ensures |r| == |acc| && forall k :: 0 <= k < |acc| ==> r[k] == d.inputs[acc[k]]
  {
    seq(|acc|, k requires 0 <= k < |acc| => d.inputs[acc[k]])
  }

  /**
   * Input symbol `k` passes the input loop: it is a declared input, not one
   * already taken (`used` are the names taken before the symbols), not
   * repeated, and no transition leaves the from-state on it yet.
   */
  predicate InputOk(d: Dsm, from: nat, syms: seq<string>, k: nat, used: seq<string>)
    requires TransInRange(d) && from < |d.states| && k < |syms|
  {
    && syms[k] in d.inputs
    && syms[k] !in used
    && syms[k] !in syms[..k]
    && GetTrans(d, d.states[from].symbol, syms[k]).None?
  }

  lemma ResolveInputsStep(d: Dsm, from: nat, syms: seq<string>, acc: seq<nat>)
    requires TransInRange(d) && from < |d.states| && syms != [] && FirstIndices(d, acc)
    requires InputOk(d, from, syms, 0, InputNames(d, acc))
    ensures GetEntity(d, syms[0], LexemeInput).Some?
    ensures var j := GetEntity(d, syms[0], LexemeInput).value;
            && ResolveInputs(d, from, syms, acc) == ResolveInputs(d, from, syms[1..], acc + [j])
            && FirstIndices(d, acc + [j])
            && InputNames(d, acc + [j]) == InputNames(d, acc) + [syms[0]]
  {
    var j := GetEntity(d, syms[0], LexemeInput).value;
    assert Names(d, LexemeInput) == d.inputs;
    assert j !in acc by {
      forall k | 0 <= k < |acc| ensures acc[k] != j {
        assert InputNames(d, acc)[k] == d.inputs[acc[k]];
      }
    }
  }

  lemma ResolveInputsStop(d: Dsm, from: nat, syms: seq<string>, acc: seq<nat>)
    requires TransInRange(d) && from < |d.states| && syms != [] && FirstIndices(d, acc)
    requires !InputOk(d, from, syms, 0, InputNames(d, acc))
    ensures ResolveInputs(d, from, syms, acc)
            == Err(if syms[0] !in d.inputs then UndefSymbol
                   else if syms[0] in InputNames(d, acc) then RedefSymbol
                   else IndetermTrans)
  {
    assert Names(d, LexemeInput) == d.inputs;
    if syms[0] in d.inputs {
      var j := GetEntity(d, syms[0], LexemeInput).value;
      if syms[0] in InputNames(d, acc) {
        var k :| 0 <= k < |acc| && InputNames(d, acc)[k] == syms[0];
        assert acc[k] == j;
      } else {
        assert j !in acc by {
          forall k | 0 <= k < |acc| ensures acc[k] != j {
            assert InputNames(d, acc)[k] == d.inputs[acc[k]];
          }
        }
      }
    }
  }

  lemma InputOkShift(d: Dsm, from: nat, syms: seq<string>, used: seq<string>, m: nat)
    requires TransInRange(d) && from < |d.states| && m + 1 < |syms|
    ensures InputOk(d, from, syms, m + 1, used) <==> InputOk(d, from, syms[1..], m, used + [syms[0]])
  {
    SplitFirst(syms, m + 1);
  }

  /**
   * The input loop succeeds exactly when every symbol passes; the indices it
   * collects are then the first inputs with those names, pairwise different.
   */
  lemma {:induction false} ResolveInputsSucceeds(d: Dsm, from: nat, syms: seq<string>, acc: seq<nat>)
    requires TransInRange(d) && from < |d.states| && FirstIndices(d, acc)
    ensures ResolveInputs(d, from, syms, acc).Ok?
            <==> forall k :: 0 <= k < |syms| ==> InputOk(d, from, syms, k, InputNames(d, acc))
    ensures ResolveInputs(d, from, syms, acc).Ok? ==> FirstIndices(d, ResolveInputs(d, from, syms, acc).value)
    ensures ResolveInputs(d, from, syms, acc).Ok? && Distinct(acc) ==> Distinct(ResolveInputs(d, from, syms, acc).value)
    decreases |syms|
  {
    var used := InputNames(d, acc);
    if syms == [] {
    } else if !InputOk(d, from, syms, 0, used) {
      ResolveInputsStop(d, from, syms, acc);
    } else {
      var tail := syms[1..];
      var acc' := ResolveInputsShift(d, from, syms, acc, tail);
      ResolveInputsSucceeds(d, from, tail, acc');
    }
  }

  /** Past a first symbol that passes, taken: the same outcome, and every symbol passes exactly when the rest do. */
  lemma ResolveInputsShift(d: Dsm, from: nat, syms: seq<string>, acc: seq<nat>, tail: seq<string>)
    returns (acc': seq<nat>)
    requires TransInRange(d) && from < |d.states| && FirstIndices(d, acc)
    requires syms != [] && InputOk(d, from, syms, 0, InputNames(d, acc)) && tail == syms[1..]
    ensures FirstIndices(d, acc')
    ensures ResolveInputs(d, from, syms, acc) == ResolveInputs(d, from, tail, acc')
    ensures (forall k :: 0 <= k < |syms| ==> InputOk(d, from, syms, k, InputNames(d, acc)))
            <==> (forall m :: 0 <= m < |tail| ==> InputOk(d, from, tail, m, InputNames(d, acc')))
    ensures Distinct(acc) ==> Distinct(acc')
  {
    var used := InputNames(d, acc);
    ResolveInputsStep(d, from, syms, acc);
    var j := GetEntity(d, syms[0], LexemeInput).value;
    acc' := acc + [j];
    var used' := InputNames(d, acc');
    if forall m :: 0 <= m < |tail| ==> InputOk(d, from, tail, m, used') {
      forall k | 0 <= k < |syms| ensures InputOk(d, from, syms, k, used) {
        if k > 0 { InputOkShift(d, from, syms, used, k - 1); }
      }
    }
    if forall k :: 0 <= k < |syms| ==> InputOk(d, from, syms, k, used) {
      forall m | 0 <= m < |tail| ensures InputOk(d, from, tail, m, used') {
        InputOkShift(d, from, syms, used, m);
      }
    }
    if Distinct(acc) {
      assert j !in acc by {
        forall k | 0 <= k < |acc| ensures acc[k] != j {
          assert used[k] == d.inputs[acc[k]];
        }
      }
      assert Distinct(acc');
    }
  }

  lemma RepeatShift(syms: seq<string>, used: seq<string>, i: nat)
    requires 0 < i < |syms|
    ensures syms[1..][i - 1] == syms[i]
    ensures (syms[i] in used + [syms[0]] || syms[i] in syms[1..][..i - 1]) <==> (syms[i] in used || syms[i] in syms[..i])
  {
    SplitFirst(syms, i);
  }

  /**
   * The input loop stops at the first symbol that does not pass: UNDEF_SYMBOL
   * for an undeclared input, REDEF_SYMBOL for one already listed, and
   * INDETERM_TRANS when the from-state already has a transition on it.
   */
  lemma {:induction false} ResolveInputsFails(d: Dsm, from: nat, syms: seq<string>, acc: seq<nat>, i: nat)
    requires TransInRange(d) && from < |d.states| && FirstIndices(d, acc)
    requires i < |syms| && forall k :: 0 <= k < i ==> InputOk(d, from, syms, k, InputNames(d, acc))
    requires !InputOk(d, from, syms, i, InputNames(d, acc))
    ensures ResolveInputs(d, from, syms, acc)
            == Err(if syms[i] !in d.inputs then UndefSymbol
                   else if syms[i] in InputNames(d, acc) || syms[i] in syms[..i] then RedefSymbol
                   else IndetermTrans)
    decreases i
  {
    if i == 0 {
      ResolveInputsStop(d, from, syms, acc);
    } else {
      var tail := syms[1..];
      var acc' := ResolveInputsFailsShift(d, from, syms, acc, i, tail);
      ResolveInputsFails(d, from, tail, acc', i - 1);
    }
  }

  /** Past the first symbol, taken, the failing symbol is still the first that does not pass. */
  lemma ResolveInputsFailsShift(d: Dsm, from: nat, syms: seq<string>, acc: seq<nat>, i: nat, tail: seq<string>)
    returns (acc': seq<nat>)
    requires TransInRange(d) && from < |d.states| && FirstIndices(d, acc)
    requires 0 < i < |syms| && forall k :: 0 <= k < i ==> InputOk(d, from, syms, k, InputNames(d, acc))
    requires !InputOk(d, from, syms, i, InputNames(d, acc))
    requires tail == syms[1..]
    ensures FirstIndices(d, acc')
    ensures ResolveInputs(d, from, syms, acc) == ResolveInputs(d, from, tail, acc')
    ensures forall m :: 0 <= m < i - 1 ==> InputOk(d, from, tail, m, InputNames(d, acc'))
    ensures !InputOk(d, from, tail, i - 1, InputNames(d, acc'))
    ensures tail[i - 1] == syms[i]
    ensures (syms[i] in InputNames(d, acc') || syms[i] in tail[..i - 1])
            <==> (syms[i] in InputNames(d, acc) || syms[i] in syms[..i])
  {
    var used := InputNames(d, acc);
    assert InputOk(d, from, syms, 0, used);
    ResolveInputsStep(d, from, syms, acc);
    var j := GetEntity(d, syms[0], LexemeInput).value;
    acc' := acc + [j];
    forall m | 0 <= m < i - 1 ensures InputOk(d, from, tail, m, InputNames(d, acc')) {
      InputOkShift(d, from, syms, used, m);
    }
    InputOkShift(d, from, syms, used, i - 1);
    RepeatShift(syms, used, i);
  }

  // ---------------------------------------------------------------------
  // dsml_parse_trans: the whole statement
  // ---------------------------------------------------------------------

  /** A state field: it fits the trimming buffer and, trimmed, names a declared state. */
  predicate StateField(d: Dsm, field: string)
  {
    |field| <= MaxStringLen && Trimmed(field) in StateNames(d.states)
  }

  /** The input symbols of a transition statement that dsml_parse_trans accepts. */
  predicate InputsOk(d: Dsm, fromSymbol: string, syms: seq<string>)
    requires TransInRange(d)
  {
    && syms != []
    && Distinct(syms)
    && forall k :: 0 <= k < |syms| ==> syms[k] in d.inputs && GetTrans(d, fromSymbol, syms[k]).None?
  }

  /**
   * A transition statement that dsml_parse_trans accepts: four fields at
   * least, declared from- and to-states, declared inputs that are pairwise
   * different and have no transition from that state yet, and `-` or a
   * declared output.
   */
  predicate TransStatementOk(d: Dsm, payload: string)
    requires TransInRange(d)
  {
    var f := Tokens(payload, TransDelim);
    && |f| >= 4
    && StateField(d, f[0]) && StateField(d, f[2])
    && |f[3]| <= MaxStringLen && (Trimmed(f[3]) == EmptyOutputSymbol || Trimmed(f[3]) in d.outputs)
    && InputsOk(d, Trimmed(f[0]), Tokens(f[1], SymbolDelim))
  }

  /** The input loop, started with nothing taken, succeeds exactly on accepted input symbols. */
  lemma ResolveInputsFromStart(d: Dsm, from: nat, syms: seq<string>)
    requires TransInRange(d) && from < |d.states|
    ensures ResolveInputs(d, from, syms, []).Ok? <==> (syms == [] || InputsOk(d, d.states[from].symbol, syms))
    ensures ResolveInputs(d, from, syms, []).Ok? ==> Distinct(ResolveInputs(d, from, syms, []).value)
  {
    assert InputNames(d, []) == [];
    ResolveInputsSucceeds(d, from, syms, []);
    var each := forall k :: 0 <= k < |syms| ==> InputOk(d, from, syms, k, []);
    if each {
      forall i, j | 0 <= i < j < |syms| ensures syms[i] != syms[j] {
        assert InputOk(d, from, syms, j, []);
        assert syms[i] == syms[..j][i];
      }
      forall k | 0 <= k < |syms| ensures syms[k] in d.inputs && GetTrans(d, d.states[from].symbol, syms[k]).None? {
        assert InputOk(d, from, syms, k, []);
      }
    }
    if InputsOk(d, d.states[from].symbol, syms) {
      forall k | 0 <= k < |syms| ensures InputOk(d, from, syms, k, []) {
        assert forall i :: 0 <= i < k ==> syms[..k][i] == syms[i];
      }
    }
  }

  /** dsml_parse_trans succeeds exactly on an accepted statement. */
  lemma ParseTransSucceeds(d: Dsm, payload: string)
    requires TransInRange(d)
    ensures ParseTrans(d, payload).status == Success <==> TransStatementOk(d, payload)
  {
    var f := Tokens(payload, TransDelim);
    if |f| >= 4 && StateField(d, f[0]) {
      assert |payload| > 0;
      assert Names(d, LexemeState) == StateNames(d.states);
      var from := GetEntity(d, Trimmed(f[0]), LexemeState).value;
      assert d.states[from].symbol == Trimmed(f[0]);
      var syms := Tokens(f[1], SymbolDelim);
      ResolveInputsFromStart(d, from, syms);
      match ResolveInputs(d, from, syms, [])
      case Err(_) =>
      case Ok(ins) => ParseTransTargetSucceeds(d, f, from, ins);
    }
  }

  /** The second half of dsml_parse_trans succeeds exactly when the to-state and the output fields are accepted. */
  lemma ParseTransTargetSucceeds(d: Dsm, fields: seq<string>, from: nat, ins: seq<nat>)
    requires TransInRange(d) && from < |d.states| && forall k :: 0 <= k < |ins| ==> ins[k] < |d.inputs|
    ensures ParseTransTarget(d, fields, from, ins).status == Success
            <==> && |fields| >= 4 && StateField(d, fields[2]) && |fields[3]| <= MaxStringLen
                 && (Trimmed(fields[3]) == EmptyOutputSymbol || Trimmed(fields[3]) in d.outputs)
  {
    assert Names(d, LexemeState) == StateNames(d.states);
    assert Names(d, LexemeOutput) == d.outputs;
  }

  /**
   * A successful transition statement appends one transition per input
   * symbol, in order: each leaves the state named by the first field on that
   * input, enters the state named by the third field, and has no output when
   * the fourth field is `-`, otherwise the output it names.
   */
  lemma ParseTransEffect(d: Dsm, payload: string)
    requires TransInRange(d) && ParseTrans(d, payload).status == Success
    ensures var f := Tokens(payload, TransDelim);
            var syms := Tokens(f[1], SymbolDelim);
            var r := ParseTrans(d, payload).dsm;
            && |f| >= 4
            && |r.trans| == |d.trans| + |syms|
            && forall k :: 0 <= k < |syms| ==>
                 NamedTransition(d, r.trans[|d.trans| + k], Trimmed(f[0]), syms[k], Trimmed(f[2]), Trimmed(f[3]))
  {
    var f := Tokens(payload, TransDelim);
    var syms := Tokens(f[1], SymbolDelim);
    var r := ParseTrans(d, payload).dsm;
    var from, ins, to, out := ParseTransShape(d, payload);
    TransFieldsAppended(d, f, syms, r, from, ins, to, out);
    assert |f| >= 4 && |r.trans| == |d.trans| + |syms|;
  }

  /** The transitions appended for fields `f` whose look-ups succeeded, described by the names in the fields. */
  lemma TransFieldsAppended(d: Dsm, f: seq<string>, syms: seq<string>, r: Dsm,
                            from: nat, ins: seq<nat>, to: nat, out: Option<nat>)
    requires TransInRange(d) && |f| >= 4
    requires GetEntity(d, Trimmed(f[0]), LexemeState) == Some(from)
    requires GetEntity(d, Trimmed(f[2]), LexemeState) == Some(to)
    requires out == if Trimmed(f[3]) == EmptyOutputSymbol then None else GetEntity(d, Trimmed(f[3]), LexemeOutput)
    requires Trimmed(f[3]) != EmptyOutputSymbol ==> out.Some?
    requires ResolveInputs(d, from, syms, []) == Ok(ins)
    requires r == AppendTransitions(d, from, ins, to, out)
    ensures && |r.trans| == |d.trans| + |syms|
            && forall k :: 0 <= k < |syms| ==>
                 NamedTransition(d, r.trans[|d.trans| + k], Trimmed(f[0]), syms[k], Trimmed(f[2]), Trimmed(f[3]))
  {
    EntityFacts(d, Trimmed(f[0]));
    EntityFacts(d, Trimmed(f[2]));
    EntityFacts(d, Trimmed(f[3]));
    AppendTransitionsNamed(d, from, ins, to, out, Trimmed(f[0]), syms, Trimmed(f[2]), Trimmed(f[3]));
  }

  /** A state or output found by name has that name. */
  lemma EntityFacts(d: Dsm, name: string)
    ensures GetEntity(d, name, LexemeState).Some? ==>
              GetEntity(d, name, LexemeState).value < |d.states| && d.states[GetEntity(d, name, LexemeState).value].symbol == name
    ensures GetEntity(d, name, LexemeOutput).Some? ==>
              GetEntity(d, name, LexemeOutput).value < |d.outputs| && d.outputs[GetEntity(d, name, LexemeOutput).value] == name
  {
    assert Names(d, LexemeState) == StateNames(d.states);
    assert Names(d, LexemeOutput) == d.outputs;
  }

  /** What a successful transition statement has looked up, and the transitions it appends. */
  lemma ParseTransShape(d: Dsm, payload: string) returns (from: nat, ins: seq<nat>, to: nat, out: Option<nat>)
    requires TransInRange(d) && ParseTrans(d, payload).status == Success
    ensures var f := Tokens(payload, TransDelim);
            && |f| >= 4
            && GetEntity(d, Trimmed(f[0]), LexemeState) == Some(from)
            && GetEntity(d, Trimmed(f[2]), LexemeState) == Some(to)
            && out == (if Trimmed(f[3]) == EmptyOutputSymbol then None else GetEntity(d, Trimmed(f[3]), LexemeOutput))
            && (Trimmed(f[3]) != EmptyOutputSymbol ==> out.Some?)
            && ResolveInputs(d, from, Tokens(f[1], SymbolDelim), []) == Ok(ins)
            && from < |d.states| && to < |d.states| && (out.Some? ==> out.value < |d.outputs|)
            && (forall k :: 0 <= k < |ins| ==> ins[k] < |d.inputs|)
            && ParseTrans(d, payload).dsm == AppendTransitions(d, from, ins, to, out)
  {
    var f := Tokens(payload, TransDelim);
    from := GetEntity(d, Trimmed(f[0]), LexemeState).value;
    ins := ResolveInputs(d, from, Tokens(f[1], SymbolDelim), []).value;
    to := GetEntity(d, Trimmed(f[2]), LexemeState).value;
    out := if Trimmed(f[3]) == EmptyOutputSymbol then None else GetEntity(d, Trimmed(f[3]), LexemeOutput);
  }

  /**
   * Transition `t` leaves the state named `fromName` on the input named
   * `input` and enters the state named `toName`; it has no output when
   * `outName` is `-`, otherwise the output named `outName`.
   */
  predicate NamedTransition(d: Dsm, t: Trans, fromName: string, input: string, toName: string, outName: string)
  {
    && t.fromState < |d.states| && d.states[t.fromState].symbol == fromName
    && t.input < |d.inputs| && d.inputs[t.input] == input
    && t.toState < |d.states| && d.states[t.toState].symbol == toName
    && (t.output.None? <==> outName == EmptyOutputSymbol)
    && (t.output.Some? ==> t.output.value < |d.outputs| && d.outputs[t.output.value] == outName)
  }

  /** The transitions AppendTransitions adds, described by the names of their states, inputs and output. */
  lemma AppendTransitionsNamed(d: Dsm, from: nat, ins: seq<nat>, to: nat, out: Option<nat>,
                               fromName: string, syms: seq<string>, toName: string, outName: string)
    requires TransInRange(d) && from < |d.states| && to < |d.states|
    requires |ins| == |syms| && forall k :: 0 <= k < |ins| ==> ins[k] < |d.inputs| && d.inputs[ins[k]] == syms[k]
    requires out.Some? ==> out.value < |d.outputs|
    requires d.states[from].symbol == fromName && d.states[to].symbol == toName
    requires (out.None? <==> outName == EmptyOutputSymbol) && (out.Some? ==> d.outputs[out.value] == outName)
    ensures var r := AppendTransitions(d, from, ins, to, out);
            && |r.trans| == |d.trans| + |syms|
            && forall k :: 0 <= k < |syms| ==>
                 NamedTransition(d, r.trans[|d.trans| + k], fromName, syms[k], toName, outName)
  {
    var r := AppendTransitions(d, from, ins, to, out);
    forall k | 0 <= k < |syms| ensures r.trans[|d.trans| + k] == Trans(from, to, ins[k], out) {
      assert r.trans[|d.trans| + k] == NewTransitions(from, ins, to, out)[k];
    }
  }

  /**
   * The errors about the fields, in the order dsml_parse_trans meets them: an
   * empty statement, no field, a from-state field too long for the buffer or
   * naming no state, and a second field that is missing or ends the statement.
   */
  lemma ParseTransFieldErrors(d: Dsm, payload: string)
    requires TransInRange(d)
    ensures |payload| == 0 ==> ParseTrans(d, payload) == Step(d, InvalParam)
    ensures var f := Tokens(payload, TransDelim);
            |payload| > 0 && f == [] ==> ParseTrans(d, payload) == Step(d, InvalParamNum)
    ensures var f := Tokens(payload, TransDelim);
            f != [] && |f[0]| > MaxStringLen ==> ParseTrans(d, payload) == Step(d, InvalParam)
    ensures var f := Tokens(payload, TransDelim);
            f != [] && |f[0]| <= MaxStringLen && Trimmed(f[0]) !in StateNames(d.states)
            ==> ParseTrans(d, payload) == Step(d, UndefSymbol)
    ensures var f := Tokens(payload, TransDelim);
            f != [] && StateField(d, f[0]) && (|f| == 1 || (|f| == 2 && payload[|payload| - 1] != TransDelim))
            ==> ParseTrans(d, payload) == Step(d, InvalParamNum)
  {
    assert Names(d, LexemeState) == StateNames(d.states);
  }

  /** The statement reaches its input loop: a declared from-state and a second field that does not end it. */
  predicate ReachesInputs(d: Dsm, payload: string)
  {
    var f := Tokens(payload, TransDelim);
    && |f| >= 2 && StateField(d, f[0])
    && !(|f| == 2 && payload[|payload| - 1] != TransDelim)
  }

  /**
   * The first input symbol that does not pass decides the error:
   * UNDEF_SYMBOL when undeclared, REDEF_SYMBOL when listed before in the
   * statement, INDETERM_TRANS when the from-state already has a transition on it.
   */
  lemma ParseTransInputFails(d: Dsm, payload: string, i: nat)
    requires TransInRange(d) && ReachesInputs(d, payload)
    requires var f := Tokens(payload, TransDelim);
             var syms := Tokens(f[1], SymbolDelim);
             && i < |syms|
             && (forall k :: 0 <= k < i ==> syms[k] in d.inputs && syms[k] !in syms[..k]
                                             && GetTrans(d, Trimmed(f[0]), syms[k]).None?)
             && !(syms[i] in d.inputs && syms[i] !in syms[..i] && GetTrans(d, Trimmed(f[0]), syms[i]).None?)
    ensures var f := Tokens(payload, TransDelim);
            var syms := Tokens(f[1], SymbolDelim);
            ParseTrans(d, payload)
            == Step(d, if syms[i] !in d.inputs then UndefSymbol
                       else if syms[i] in syms[..i] then RedefSymbol
                       else IndetermTrans)
  {
    var f := Tokens(payload, TransDelim);
    var syms := Tokens(f[1], SymbolDelim);
    assert |payload| > 0;
    assert Names(d, LexemeState) == StateNames(d.states);
    var from := GetEntity(d, Trimmed(f[0]), LexemeState).value;
    assert d.states[from].symbol == Trimmed(f[0]);
    assert InputNames(d, []) == [];
    forall k | 0 <= k < i ensures InputOk(d, from, syms, k, []) {
    }
    ResolveInputsFails(d, from, syms, [], i);
  }

  /**
   * The errors after the input loop, in order: no input symbol, a missing
   * third field, a to-state field too long or naming no state, a missing
   * fourth field, an output field too long, or naming no output when it is
   * not `-`.
   */
  lemma ParseTransLaterErrors(d: Dsm, payload: string)
    requires TransInRange(d) && ReachesInputs(d, payload)
    ensures var f := Tokens(payload, TransDelim);
            Tokens(f[1], SymbolDelim) == [] ==> ParseTrans(d, payload) == Step(d, EmptySymbol)
    ensures var f := Tokens(payload, TransDelim);
            InputsOk(d, Trimmed(f[0]), Tokens(f[1], SymbolDelim)) && |f| == 2
            ==> ParseTrans(d, payload) == Step(d, InvalParamNum)
    ensures var f := Tokens(payload, TransDelim);
            InputsOk(d, Trimmed(f[0]), Tokens(f[1], SymbolDelim)) && |f| >= 3 && !StateField(d, f[2])
            ==> ParseTrans(d, payload) == Step(d, if |f[2]| > MaxStringLen then InvalParam else UndefSymbol)
    ensures var f := Tokens(payload, TransDelim);
            InputsOk(d, Trimmed(f[0]), Tokens(f[1], SymbolDelim)) && |f| == 3 && StateField(d, f[2])
            ==> ParseTrans(d, payload) == Step(d, InvalParamNum)
    ensures var f := Tokens(payload, TransDelim);
            InputsOk(d, Trimmed(f[0]), Tokens(f[1], SymbolDelim)) && |f| >= 4 && StateField(d, f[2])
            && |f[3]| > MaxStringLen
            ==> ParseTrans(d, payload) == Step(d, InvalParam)
    ensures var f := Tokens(payload, TransDelim);
            InputsOk(d, Trimmed(f[0]), Tokens(f[1], SymbolDelim)) && |f| >= 4 && StateField(d, f[2])
            && |f[3]| <= MaxStringLen && Trimmed(f[3]) != EmptyOutputSymbol && Trimmed(f[3]) !in d.outputs
            ==> ParseTrans(d, payload) == Step(d, UndefSymbol)
  {
    var f := Tokens(payload, TransDelim);
    var syms := Tokens(f[1], SymbolDelim);
    assert |payload| > 0;
    assert Names(d, LexemeState) == StateNames(d.states);
    assert Names(d, LexemeOutput) == d.outputs;
    var from := GetEntity(d, Trimmed(f[0]), LexemeState).value;
    assert d.states[from].symbol == Trimmed(f[0]);
    ResolveInputsFromStart(d, from, syms);
  }

  /** Nothing after the fourth field is looked at. */
  lemma ParseTransIgnoresExtraFields(d: Dsm, p: string, q: string)
    requires TransInRange(d)
    requires |Tokens(p, TransDelim)| >= 4 && |Tokens(q, TransDelim)| >= 4
    requires Tokens(p, TransDelim)[..4] == Tokens(q, TransDelim)[..4]
    ensures ParseTrans(d, p) == ParseTrans(d, q)
  {
    var fp, fq := Tokens(p, TransDelim), Tokens(q, TransDelim);
    assert |p| > 0 && |q| > 0;
    assert fp[0] == fp[..4][0] == fq[0];
    assert fp[1] == fp[..4][1] == fq[1];
    assert fp[2] == fp[..4][2] == fq[2];
    assert fp[3] == fp[..4][3] == fq[3];
    assert Names(d, LexemeState) == StateNames(d.states);
    var from := GetEntity(d, Trimmed(fp[0]), LexemeState);
    if from.Some? {
      var r := ResolveInputs(d, from.value, Tokens(fp[1], SymbolDelim), []);
      if r.Ok? {
        TargetIgnoresExtraFields(d, fp, fq, from.value, r.value);
      }
    }
  }

  lemma TargetIgnoresExtraFields(d: Dsm, fp: seq<string>, fq: seq<string>, from: nat, ins: seq<nat>)
    requires TransInRange(d) && from < |d.states| && forall k :: 0 <= k < |ins| ==> ins[k] < |d.inputs|
    requires |fp| >= 4 && |fq| >= 4 && fp[2] == fq[2] && fp[3] == fq[3]
    ensures ParseTransTarget(d, fp, from, ins) == ParseTransTarget(d, fq, from, ins)
  {
  }

  /**
   * The input array of dsml_parse_trans has one slot per declared input: a
   * successful statement never lists more inputs than are declared.
   */
  lemma ParseTransInputBound(d: Dsm, payload: string)
    requires TransInRange(d) && ParseTrans(d, payload).status == Success
    ensures var f := Tokens(payload, TransDelim);
            |f| >= 2 && |Tokens(f[1], SymbolDelim)| <= |d.inputs|
  {
    var f := Tokens(payload, TransDelim);
    var syms := Tokens(f[1], SymbolDelim);
    ParseTransSucceeds(d, payload);
    assert |payload| > 0;
    assert Names(d, LexemeState) == StateNames(d.states);
    var from := GetEntity(d, Trimmed(f[0]), LexemeState).value;
    assert d.states[from].symbol == Trimmed(f[0]);
    ResolveInputsFromStart(d, from, syms);
    var ins := ResolveInputs(d, from, syms, []).value;
    DistinctBelow(ins, |d.inputs|);
  }

  // ---------------------------------------------------------------------
  // Every statement keeps the invariant
  // ---------------------------------------------------------------------

  lemma AddStatePreserves(d: Dsm, symbol: string, isFinal: bool, isEntry: bool)
    requires WellFormed(d) && symbol != [] && ValidateSymbol(symbol) && symbol !in StateNames(d.states)
    requires isEntry ==> d.hasEntry && forall i :: 0 <= i < |d.states| ==> !d.states[i].isEntry
    ensures WellFormed(AddState(d, symbol, isFinal, isEntry))
  {
    var d' := AddState(d, symbol, isFinal, isEntry);
    StateNamesAppend(d.states, State(symbol, isEntry, isFinal));
    assert forall k :: 0 <= k < |d.trans| ==> TransRefsOk(d, d.trans[k]);
    assert forall i :: 0 <= i < |d.states| ==> d'.states[i] == d.states[i];
  }

  lemma {:induction false} AddStateSymbolsPreserves(d: Dsm, syms: seq<string>, isFinal: bool, isEntry: bool, count: nat)
    requires WellFormed(d) && forall k :: 0 <= k < |syms| ==> syms[k] != []
    requires isEntry ==> d.hasEntry
    requires isEntry && count == 0 ==> forall i :: 0 <= i < |d.states| ==> !d.states[i].isEntry
    ensures WellFormed(AddStateSymbols(d, syms, isFinal, isEntry, count).dsm)
    decreases |syms|
  {
    if syms != [] {
      if StateSymbolOk(d, syms, 0, isEntry, count) {
        AddStateSymbolsStep(d, syms, isFinal, isEntry, count);
        assert syms[0] != [];
        AddStatePreserves(d, syms[0], isFinal, isEntry);
        var d', rest, next := AddState(d, syms[0], isFinal, isEntry), syms[1..], count + 1;
        assert forall k :: 0 <= k < |rest| ==> rest[k] == syms[k + 1];
        AddStateSymbolsPreserves(d', rest, isFinal, isEntry, next);
        assert AddStateSymbols(d, syms, isFinal, isEntry, count) == AddStateSymbols(d', rest, isFinal, isEntry, next);
      } else {
        AddStateSymbolsStop(d, syms, isFinal, isEntry, count);
      }
    }
  }

  /**
   * dsml_parse_state keeps the invariant whatever its outcome; when it
   * succeeds, the entry flag is still set exactly when an entry state exists.
   */
  lemma ParseStatePreserves(d: Dsm, payload: string)
    requires WellFormed(d)
    ensures WellFormed(ParseState(d, payload).dsm)
    ensures ParseState(d, payload).status == Success && EntryDeclared(d) ==> EntryDeclared(ParseState(d, payload).dsm)
  {
    var toks := Tokens(payload, SymbolDelim);
    var h := HeaderLength(toks);
    var mods := toks[..h];
    var isEntry := "entry" in mods;
    ParseStateHeader(d, payload);
    if toks != [] && Distinct(mods) && !(isEntry && d.hasEntry) {
      StateSymbolsPreserve(d, toks[h..], "final" in mods, isEntry);
    } else if toks != [] && !Distinct(mods) && !(toks[0] == "entry" && d.hasEntry) {
      assert WellFormed(d.(hasEntry := d.hasEntry || isEntry));
    }
  }

  /** The symbol loop of a state statement, entered once the modifiers passed, keeps both invariants. */
  lemma StateSymbolsPreserve(d: Dsm, syms: seq<string>, isFinal: bool, isEntry: bool)
    requires WellFormed(d) && forall k :: 0 <= k < |syms| ==> syms[k] != []
    requires !(isEntry && d.hasEntry)
    ensures var r := AddStateSymbols(d.(hasEntry := d.hasEntry || isEntry), syms, isFinal, isEntry, 0);
            && WellFormed(r.dsm)
            && (r.status == Success && EntryDeclared(d) ==> EntryDeclared(r.dsm))
  {
    var d1 := d.(hasEntry := d.hasEntry || isEntry);
    assert isEntry ==> forall i :: 0 <= i < |d.states| ==> !d.states[i].isEntry;
    AddStateSymbolsPreserves(d1, syms, isFinal, isEntry, 0);
    if AddStateSymbols(d1, syms, isFinal, isEntry, 0).status == Success && EntryDeclared(d) {
      AddStateSymbolsSucceeds(d1, syms, isFinal, isEntry, 0);
      AddStateSymbolsEffect(d1, syms, isFinal, isEntry, 0);
      EntryAppend(d, DeclaredStates(syms, isFinal, isEntry), isEntry);
    }
  }

  /** Appending states that all carry the entry flag `isEntry`, at least one when it is set, keeps "entry flag iff entry state". */
  lemma EntryAppend(d: Dsm, added: seq<State>, isEntry: bool)
    requires EntryDeclared(d)
    requires forall k :: 0 <= k < |added| ==> added[k].isEntry == isEntry
    requires isEntry ==> added != []
    ensures EntryDeclared(d.(states := d.states + added, hasEntry := d.hasEntry || isEntry))
  {
    var r := d.(states := d.states + added, hasEntry := d.hasEntry || isEntry);
    assert forall i :: 0 <= i < |d.states| ==> r.states[i] == d.states[i];
    assert forall k :: 0 <= k < |added| ==> r.states[|d.states| + k] == added[k];
    if isEntry {
      assert r.states[|d.states|].isEntry;
    }
  }

  lemma AddIoPreserves(d: Dsm, symbol: string, isInput: bool)
    requires WellFormed(d) && symbol != [] && ValidateSymbol(symbol) && symbol !in IoList(d, isInput)
    ensures WellFormed(AddIo(d, symbol, isInput))
  {
    var d' := AddIo(d, symbol, isInput);
    assert forall k :: 0 <= k < |d.trans| ==> TransRefsOk(d, d.trans[k]);
  }

  lemma {:induction false} AddIoSymbolsPreserves(d: Dsm, syms: seq<string>, isInput: bool)
    requires WellFormed(d) && forall k :: 0 <= k < |syms| ==> syms[k] != []
    ensures WellFormed(AddIoSymbols(d, syms, isInput).dsm)
    decreases |syms|
  {
    if syms != [] {
      if IoSymbolOk(d, syms, 0, isInput) {
        AddIoSymbolsStep(d, syms, isInput);
        AddIoPreserves(d, syms[0], isInput);
        AddIoSymbolsPreserves(AddIo(d, syms[0], isInput), syms[1..], isInput);
      } else {
        AddIoSymbolsStop(d, syms, isInput);
      }
    }
  }

  /** dsml_parse_io keeps the invariant whatever its outcome, and leaves the entry information alone. */
  lemma ParseIoPreserves(d: Dsm, payload: string, isInput: bool)
    requires WellFormed(d)
    ensures WellFormed(ParseIo(d, payload, isInput).dsm)
    ensures EntryDeclared(d) ==> EntryDeclared(ParseIo(d, payload, isInput).dsm)
  {
    var toks := Tokens(payload, SymbolDelim);
    if |payload| > 0 && toks != [] {
      AddIoSymbolsPreserves(d, toks, isInput);
    }
  }

  /**
   * Appending transitions from one state on pairwise different inputs, none
   * of which has a transition from that state yet, keeps determinism.
   */
  lemma AppendKeepsDeterminism(d: Dsm, r: Dsm, fromSymbol: string, syms: seq<string>)
    requires TransInRange(d) && TransInRange(r) && Deterministic(d)
    requires r.states == d.states && r.inputs == d.inputs
    requires |r.trans| == |d.trans| + |syms| && r.trans[..|d.trans|] == d.trans
    requires Distinct(syms) && forall k :: 0 <= k < |syms| ==> GetTrans(d, fromSymbol, syms[k]).None?
    requires forall k :: 0 <= k < |syms| ==>
               d.states[r.trans[|d.trans| + k].fromState].symbol == fromSymbol
               && d.inputs[r.trans[|d.trans| + k].input] == syms[k]
    ensures Deterministic(r)
  {
    var n := |d.trans|;
    forall a, b | 0 <= a < b < |r.trans|
      ensures r.trans[a].fromState != r.trans[b].fromState || r.trans[a].input != r.trans[b].input
    {
      if b < n {
        assert r.trans[a] == d.trans[a] && r.trans[b] == d.trans[b];
      } else {
        var kb := b - n;
        var tb := r.trans[n + kb];
        assert d.inputs[tb.input] == syms[kb];
        if a < n {
          assert r.trans[a] == d.trans[a];
          assert !TransMatches(d, a, fromSymbol, syms[kb]);
        } else {
          var ka := a - n;
          var ta := r.trans[n + ka];
          assert d.inputs[ta.input] == syms[ka];
          assert syms[ka] != syms[kb];
        }
      }
    }
  }

  /** A record with the same declarations and deterministic transitions in range is well formed too. */
  lemma SameDeclarations(d: Dsm, r: Dsm)
    requires WellFormed(d) && TransInRange(r) && Deterministic(r)
    requires r.states == d.states && r.inputs == d.inputs && r.outputs == d.outputs && r.hasEntry == d.hasEntry
    ensures WellFormed(r) && (EntryDeclared(d) ==> EntryDeclared(r))
  {
  }

  /**
   * dsml_parse_trans keeps the invariant whatever its outcome: in particular
   * no two transitions ever share a (from-state, input) pair.
   */
  lemma ParseTransPreserves(d: Dsm, payload: string)
    requires WellFormed(d)
    ensures WellFormed(ParseTrans(d, payload).dsm)
    ensures EntryDeclared(d) ==> EntryDeclared(ParseTrans(d, payload).dsm)
  {
    var r := ParseTrans(d, payload).dsm;
    if ParseTrans(d, payload).status == Success {
      var f := Tokens(payload, TransDelim);
      var syms := Tokens(f[1], SymbolDelim);
      ParseTransSucceeds(d, payload);
      ParseTransEffect(d, payload);
      AppendKeepsDeterminism(d, r, Trimmed(f[0]), syms);
      SameDeclarations(d, r);
    } else {
      assert r == d;
    }
  }

  // ---------------------------------------------------------------------
  // The driver
  // ---------------------------------------------------------------------

  /** One accepted line keeps the invariant and the entry information. */
  lemma ParseLinePreserves(d: Dsm, line: string)
    requires WellFormed(d)
    ensures ParseLine(d, line).Ok? ==> WellFormed(ParseLine(d, line).value)
    ensures ParseLine(d, line).Ok? && EntryDeclared(d) ==> EntryDeclared(ParseLine(d, line).value)
  {
    if !(Util.IsBlank(Some(line)) || |line| == 0) && !IsComment(line) {
      var (keyword, payload) := SplitStatement(line);
      if payload.Some? {
        match ParseLexemeKeyword(keyword)
        case LexemeState => ParseStatePreserves(d, payload.value);
        case LexemeInput => ParseIoPreserves(d, payload.value, true);
        case LexemeOutput => ParseIoPreserves(d, payload.value, false);
        case LexemeTrans => ParseTransPreserves(d, payload.value);
        case LexemeUndef =>
      }
    }
  }

  lemma {:induction false} ParseLinesPreserves(d: Dsm, lines: seq<string>, count: nat)
    requires WellFormed(d)
    ensures ParseLines(d, lines, count).Ok? ==> WellFormed(ParseLines(d, lines, count).value)
    ensures ParseLines(d, lines, count).Ok? && EntryDeclared(d) ==> EntryDeclared(ParseLines(d, lines, count).value)
    decreases |lines|
  {
    if lines != [] {
      ParseLinePreserves(d, lines[0]);
      if ParseLine(d, lines[0]).Ok? {
        ParseLinesPreserves(ParseLine(d, lines[0]).value, lines[1..], count + 1);
      }
    }
  }

  /**
   * The script is read line after line: parsing `a + b` is parsing `a`, then
   * parsing `b` from where `a` left off, and a failure in `a` is final.
   */
  lemma {:induction false} ParseLinesAppend(d: Dsm, a: seq<string>, b: seq<string>, count: nat)
    requires TransInRange(d)
    ensures ParseLines(d, a + b, count)
            == match ParseLines(d, a, count)
               case Err(e) => Err(e)
               case Ok(d') => ParseLines(d', b, count + |a|)
    decreases |a|
  {
    if a != [] {
      ConsAppend(a, b);
      ParseLinesCons(d, a + b, count);
      ParseLinesCons(d, a, count);
      match ParseLine(d, a[0])
      case Err(_) =>
      case Ok(d') => ParseLinesAppend(d', a[1..], b, count + 1);
    } else {
      assert a + b == b;
    }
  }

  lemma ConsAppend<T>(a: seq<T>, b: seq<T>)
    requires a != []
    ensures (a + b)[0] == a[0] && (a + b)[1..] == a[1..] + b
  {
  }

  /** One line of the driver's loop. */
  lemma ParseLinesCons(d: Dsm, lines: seq<string>, count: nat)
    requires TransInRange(d) && lines != []
    ensures ParseLines(d, lines, count)
            == match ParseLine(d, lines[0])
               case Err(e) => Err((count + 1, e))
               case Ok(d') => ParseLines(d', lines[1..], count + 1)
  {
  }

  /**
   * A script dsml_parse_script accepts yields a well-formed record with
   * exactly one entry state, at least one state and one input, and one
   * transition for every (state, input) pair.
   */
  lemma ParseScriptParsed(lines: seq<string>)
    ensures ParseScript(lines).Parsed? ==>
              var d := ParseScript(lines).dsm;
              && WellFormed(d) && EntryDeclared(d) && d.hasEntry
              && |d.states| > 0 && |d.inputs| > 0
              && |d.trans| == |d.states| * |d.inputs|
  {
    if ParseScript(lines).Parsed? {
      ParseLinesPreserves(InitialDsm, lines, 0);
      var d := ParseScript(lines).dsm;
      CompleteIffFull(d);
    }
  }
}
