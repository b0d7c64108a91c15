/** The two passes as functions of the parsed lines seen so far. `firstPass`
    binds every label to the ROM address of the next instruction;
    `secondPass` resolves references, allocates variables from RAM 16 upward
    and emits one 16-bit word per A- or C-command. Both are defined on a prefix
    of the lines, one line at a time, which is how the parser's loops run
    them. */
module Passes {
  import opened Wrappers
  import opened Numerals
  import opened Commands
  import opened Code

  /** Whether a line takes a word of ROM: A- and C-commands do, labels and
      comments do not. */
  predicate TakesWord(line: Line)
  {
    line.ALine? || line.CLine?
  }

  /** The number of instructions among `lines`. */
  function RomCount(lines: seq<Line>): nat
  {
    if lines == [] then 0
    else RomCount(lines[..|lines| - 1]) + (if TakesWord(lines[|lines| - 1]) then 1 else 0)
  }

  lemma {:induction false} RomCountBound(lines: seq<Line>)
    ensures RomCount(lines) <= |lines|
  {
    if lines != [] {
      RomCountBound(lines[..|lines| - 1]);
    }
  }

  /** The state of the first pass: the symbol table and the ROM counter `line`. */
  datatype FirstState = FirstState(table: map<string, nat>, line: nat)

  /** One iteration of `firstPass`. */
  function FirstStep(s: FirstState, line: Line): FirstState
  {
    match line
    case ALine(_) => s.(line := s.line + 1)
    case CLine(_) => s.(line := s.line + 1)
    case LLine(name) => s.(table := s.table[name := s.line])
    case CommentLine => s
  }

  /** `firstPass` over `lines`, from state `s`. */
  function FirstPassOf(lines: seq<Line>, s: FirstState): FirstState
  {
    if lines == [] then s else FirstStep(FirstPassOf(lines[..|lines| - 1], s), lines[|lines| - 1])
  }

  /** The ROM counter advances once per instruction and for nothing else. */
  lemma {:induction false} FirstPassCountsInstructions(lines: seq<Line>, s: FirstState)
    ensures FirstPassOf(lines, s).line == s.line + RomCount(lines)
  {
    if lines != [] {
      FirstPassCountsInstructions(lines[..|lines| - 1], s);
    }
  }

  /** A label is bound to the ROM address of the instruction after it: the
      number of instructions before it. When a name is declared twice, the
      last declaration wins. */
  lemma {:induction false} FirstPassBindsLabel(lines: seq<Line>, s: FirstState, i: nat)
    requires i < |lines| && lines[i].LLine?
    requires forall k :: i < k < |lines| ==> lines[k] != lines[i]
    ensures var t := FirstPassOf(lines, s).table;
      lines[i].name in t && t[lines[i].name] == s.line + RomCount(lines[..i])
  {
    var init := lines[..|lines| - 1];
    if i == |lines| - 1 {
      FirstPassCountsInstructions(init, s);
      assert init == lines[..i];
    } else {
      assert init[..i] == lines[..i] && init[i] == lines[i];
      FirstPassBindsLabel(init, s, i);
    }
  }

  /** A name that no line declares as a label keeps the binding it had. */
  lemma {:induction false} FirstPassKeepsOthers(lines: seq<Line>, s: FirstState, name: string)
    requires LLine(name) !in lines
    ensures var t := FirstPassOf(lines, s).table;
      (name in t <==> name in s.table) && (name in t ==> t[name] == s.table[name])
  {
    if lines != [] {
      var init := lines[..|lines| - 1];
      FirstPassKeepsOthers(init, s, name);
    }
  }

  /** What a reference resolves to, with the table and allocator after it. */
  datatype Resolution = Resolution(value: nat, table: map<string, nat>, next: nat)

  /** `var_symbol` as evidently intended: a decimal numeral is its own value;
      a bound symbol yields its address; a new symbol is bound to the next free
      RAM address, which then advances by one. */
  function Resolve(table: map<string, nat>, next: nat, symbol: string): Resolution
  {
    if IsDecimal(symbol) then Resolution(DecimalValue(symbol), table, next)
    else if symbol in table then Resolution(table[symbol], table, next)
    else Resolution(next, table[symbol := next], next + 1)
  }

  /** `var_symbol` as written: its test for a number never holds for the
      string it tests, so a numeral is treated as a variable name. */
  function ResolveAsWritten(table: map<string, nat>, next: nat, symbol: string): Resolution
  {
    if symbol in table then Resolution(table[symbol], table, next)
    else Resolution(next, table[symbol := next], next + 1)
  }

  /** The written resolution differs from the intended one only on numerals. */
  lemma ResolveAsWrittenAgreesOnNames(table: map<string, nat>, next: nat, symbol: string)
    requires !IsDecimal(symbol)
    ensures ResolveAsWritten(table, next, symbol) == Resolve(table, next, symbol)
  {
  }

  /** `@2` as written: with no binding for the name `2`, the constant 2
      becomes a variable at RAM 16; the intended resolution gives 2. */
  lemma NumeralBecomesVariableAsWritten(table: map<string, nat>)
    requires "2" !in table
    ensures ResolveAsWritten(table, 16, "2").value == 16
    ensures Resolve(table, 16, "2").value == 2
  {
    assert IsDecimal("2");
    assert DecimalValue("2") == DecimalValue([]) * 10 + 2;
  }

  /** The value a reference has under `table`: a numeral's own value, else the
      bound address. */
  function SymbolValue(table: map<string, nat>, symbol: string): Option<nat>
  {
    if IsDecimal(symbol) then Some(DecimalValue(symbol))
    else if symbol in table then Some(table[symbol])
    else None
  }

  /** Resolution yields the reference's value under the new table, binds only
      the referenced name, changes no existing binding, and moves the
      allocator by one exactly when it binds a new name, which then gets the
      old allocator value. */
  lemma ResolveBindsAndAllocates(table: map<string, nat>, next: nat, symbol: string)
    ensures var r := Resolve(table, next, symbol);
      && SymbolValue(r.table, symbol) == Some(r.value)
      && (forall x :: x in table ==> x in r.table && r.table[x] == table[x])
      && (forall x :: x in r.table && x !in table ==> x == symbol)
      && (if !IsDecimal(symbol) && symbol !in table
          then r.value == next && r.next == next + 1
          else r.next == next && r.table == table)
  {
  }

  /** The word of an A-command: `0` and the value in binary, padded with zeros
      to 15 bits. From 2^15 on the pad count is negative and the padding
      fails, so there is no word. */
  function AddressWord(value: nat): (r: Option<string>)
    ensures r.Some? <==> value < 32768
    ensures r.Some? ==> |r.value| == 16 && IsBits(r.value) && r.value[0] == '0' && BitsValue(r.value) == value
  {
    var b := ToBinary(value);
    Pow2Word();
    BinaryFits(value, 15);
    if |b| > 15 then None
    else
      ZerosPrefix(16 - |b|, b);
      BinaryRoundTrip(value);
      ZerosCons(15 - |b|);
      Some("0" + Zeros(15 - |b|) + b)
  }

  /** Why a program has no translation, and at which line. */
  datatype AsmError = UnknownMnemonic(at: nat) | AddressOutOfRange(at: nat, value: nat)

  /** The state of the second pass: the symbol table, the allocator
      `nextRAMAddr` and the words emitted so far. */
  datatype SecondState = SecondState(table: map<string, nat>, next: nat, words: seq<string>)

  /** One iteration of `secondPass` on the line at index `at`. */
  function SecondStep(s: SecondState, line: Line, at: nat): Result<SecondState, AsmError>
  {
    match line
    case ALine(symbol) =>
      var r := Resolve(s.table, s.next, symbol);
      (match AddressWord(r.value)
       case None => Failure(AddressOutOfRange(at, r.value))
       case Some(w) => Success(SecondState(r.table, r.next, s.words + [w])))
    case CLine(f) =>
      (match TranslateCCommand(f.comp, f.dest, f.jump)
       case None => Failure(UnknownMnemonic(at))
       case Some(w) => Success(s.(words := s.words + [w])))
    case LLine(_) => Success(s)
    case CommentLine => Success(s)
  }

  /** `secondPass` over `lines`, from state `s`, stopping at the first line
      that has no translation. */
  function SecondPassOf(lines: seq<Line>, s: SecondState): Result<SecondState, AsmError>
  {
    if lines == [] then Success(s)
    else
      match SecondPassOf(lines[..|lines| - 1], s)
      case Failure(e) => Failure(e)
      case Success(t) => SecondStep(t, lines[|lines| - 1], |lines| - 1)
  }

  /** The second pass emits one 16-bit word per instruction, after the words
      it started with, and never changes a binding that existed before it. */
  lemma {:induction false} SecondPassEmitsOneWordPerInstruction(lines: seq<Line>, s: SecondState)
    requires SecondPassOf(lines, s).Success?
    ensures var t := SecondPassOf(lines, s).value;
      && |t.words| == |s.words| + RomCount(lines)
      && t.words[..|s.words|] == s.words
      && (forall k :: |s.words| <= k < |t.words| ==> |t.words[k]| == 16 && IsBits(t.words[k]))
      && (forall x :: x in s.table ==> x in t.table && t.table[x] == s.table[x])
  {
    if lines != [] {
      var init := lines[..|lines| - 1];
      SecondPassEmitsOneWordPerInstruction(init, s);
      var p := SecondPassOf(init, s).value;
      if lines[|lines| - 1].ALine? {
        ResolveBindsAndAllocates(p.table, p.next, lines[|lines| - 1].symbol);
      }
      var t := SecondPassOf(lines, s).value;
      assert t.words[..|p.words|] == p.words;
    }
  }

  /** The reference a line makes to a named symbol: an A-command whose
      address is not a numeral. */
  function ReferenceOf(line: Line): Option<string>
  {
    if line.ALine? && !IsDecimal(line.symbol) then Some(line.symbol) else None
  }

  /** The variables a program introduces: the names it references that are
      not bound in `table`, each once, in order of first reference. */
  function NewVariables(lines: seq<Line>, table: map<string, nat>): seq<string>
  {
    if lines == [] then []
    else
      var vs := NewVariables(lines[..|lines| - 1], table);
      match ReferenceOf(lines[|lines| - 1])
      case Some(x) => if x !in table && x !in vs then vs + [x] else vs
      case None => vs
  }

  /** New variables are names, never numerals. */
  lemma {:induction false} NewVariablesAreNames(lines: seq<Line>, table: map<string, nat>)
    ensures forall x :: x in NewVariables(lines, table) ==> !IsDecimal(x)
  {
    if lines != [] {
      NewVariablesAreNames(lines[..|lines| - 1], table);
    }
  }

  /** The bindings of consecutive addresses from `base` to `vs`, in order. */
  function Allocation(vs: seq<string>, base: nat): map<string, nat>
  {
    if vs == [] then map[] else Allocation(vs[..|vs| - 1], base)[vs[|vs| - 1] := base + |vs| - 1]
  }

  predicate Distinct(vs: seq<string>)
  {
    forall i, j :: 0 <= i < j < |vs| ==> vs[i] != vs[j]
  }

  /** The new variables are distinct, none of them was bound before, and every
      name referenced is bound before or among them. */
  lemma {:induction false} NewVariablesFresh(lines: seq<Line>, table: map<string, nat>)
    ensures var vs := NewVariables(lines, table);
      && Distinct(vs)
      && (forall x :: x in vs ==> x !in table)
      && (forall k :: 0 <= k < |lines| && ReferenceOf(lines[k]).Some? ==>
            ReferenceOf(lines[k]).value in table || ReferenceOf(lines[k]).value in vs)
  {
    if lines != [] {
      var init := lines[..|lines| - 1];
      NewVariablesFresh(init, table);
      forall k | 0 <= k < |lines| - 1 ensures lines[k] == init[k] { }
    }
  }

  /** The allocation binds exactly the names it is given. */
  lemma {:induction false} AllocationKeys(vs: seq<string>, base: nat)
    ensures forall x :: x in Allocation(vs, base) <==> x in vs
  {
    if vs != [] {
      var init := vs[..|vs| - 1];
      AllocationKeys(init, base);
      assert vs == init + [vs[|vs| - 1]];
    }
  }

  /** For distinct names, the k-th of them is bound to `base + k`. */
  lemma {:induction false} AllocationAt(vs: seq<string>, base: nat)
    requires Distinct(vs)
    ensures forall k :: 0 <= k < |vs| ==> vs[k] in Allocation(vs, base) && Allocation(vs, base)[vs[k]] == base + k
  {
    if vs != [] {
      var init := vs[..|vs| - 1];
      AllocationAt(init, base);
      forall k | 0 <= k < |vs| ensures vs[k] in Allocation(vs, base) && Allocation(vs, base)[vs[k]] == base + k {
        if k < |vs| - 1 {
          assert vs[k] == init[k];
        }
      }
    }
  }

  /** Variables are allocated consecutive addresses from the allocator's
      starting value, in order of first reference, and the allocator ends
      one past the last of them. */
  lemma {:induction false} SecondPassAllocatesVariables(lines: seq<Line>, s: SecondState)
    requires SecondPassOf(lines, s).Success?
    ensures var t := SecondPassOf(lines, s).value;
      var vs := NewVariables(lines, s.table);
      && t.table == s.table + Allocation(vs, s.next)
      && t.next == s.next + |vs|
  {
    if lines != [] {
      var init := lines[..|lines| - 1];
      var last := lines[|lines| - 1];
      SecondPassAllocatesVariables(init, s);
      var p := SecondPassOf(init, s).value;
      var t := SecondPassOf(lines, s).value;
      assert SecondStep(p, last, |lines| - 1) == Success(t);
      SecondStepState(p, last, |lines| - 1);
      var vs := NewVariables(init, s.table);
      NewVariablesFresh(init, s.table);
      NewVariablesStep(lines, s.table);
      if last.ALine? {
        ResolveExtendsAllocation(s.table, vs, s.next, last.symbol);
      }
    }
  }

  lemma NewVariablesStep(lines: seq<Line>, table: map<string, nat>)
    requires lines != []
    ensures var vs := NewVariables(lines[..|lines| - 1], table);
      var last := lines[|lines| - 1];
      NewVariables(lines, table) ==
        if last.ALine? && !IsDecimal(last.symbol) && last.symbol !in table && last.symbol !in vs
        then vs + [last.symbol] else vs
  {
  }

  /** The table and allocator after one successful step: those of the
      resolution for an A-command, unchanged otherwise. */
  lemma SecondStepState(p: SecondState, line: Line, at: nat)
    requires SecondStep(p, line, at).Success?
    ensures var t := SecondStep(p, line, at).value;
      if line.ALine?
      then t.table == Resolve(p.table, p.next, line.symbol).table && t.next == Resolve(p.table, p.next, line.symbol).next
      else t.table == p.table && t.next == p.next
  {
  }

  /** Resolving a reference against a table extended by an allocation either
      leaves both alone or extends the allocation by that name. */
  lemma ResolveExtendsAllocation(base: map<string, nat>, vs: seq<string>, n0: nat, symbol: string)
    requires forall x :: x in vs ==> x !in base
    ensures var r := Resolve(base + Allocation(vs, n0), n0 + |vs|, symbol);
      var vs' := if !IsDecimal(symbol) && symbol !in base && symbol !in vs then vs + [symbol] else vs;
      r.table == base + Allocation(vs', n0) && r.next == n0 + |vs'|
  {
    AllocationKeys(vs, n0);
    if !IsDecimal(symbol) && symbol !in base && symbol !in vs {
      var vs' := vs + [symbol];
      assert vs'[..|vs'| - 1] == vs;
      UpdateUnion(base, Allocation(vs, n0), symbol, n0 + |vs|);
    }
  }

  lemma UpdateUnion(a: map<string, nat>, b: map<string, nat>, k: string, v: nat)
    ensures (a + b)[k := v] == a + b[k := v]
  {
  }

  /** The word a line contributes when the symbol table is `table`: `None`
      for a line with no translation, and for labels and comments, which
      contribute none. */
  function WordOf(line: Line, table: map<string, nat>): Option<string>
  {
    match line
    case ALine(symbol) =>
      (match SymbolValue(table, symbol)
       case Some(v) => AddressWord(v)
       case None => None)
    case CLine(f) => TranslateCCommand(f.comp, f.dest, f.jump)
    case _ => None
  }

  /** The words of a program whose symbols are bound as in `table`, if every
      instruction has one. */
  function Emitted(lines: seq<Line>, table: map<string, nat>): Option<seq<string>>
  {
    if lines == [] then Some([])
    else
      match Emitted(lines[..|lines| - 1], table)
      case None => None
      case Some(ws) =>
        if TakesWord(lines[|lines| - 1]) then
          match WordOf(lines[|lines| - 1], table)
          case None => None
          case Some(w) => Some(ws + [w])
        else Some(ws)
  }

  /** Only the bindings of the names a program references matter to its words. */
  lemma {:induction false} EmittedDependsOnReferences(lines: seq<Line>, a: map<string, nat>, b: map<string, nat>)
    requires forall k :: 0 <= k < |lines| && ReferenceOf(lines[k]).Some? ==>
      ReferenceOf(lines[k]).value in a && ReferenceOf(lines[k]).value in b
      && a[ReferenceOf(lines[k]).value] == b[ReferenceOf(lines[k]).value]
    ensures Emitted(lines, a) == Emitted(lines, b)
  {
    if lines != [] {
      var init := lines[..|lines| - 1];
      forall k | 0 <= k < |init| ensures init[k] == lines[k] { }
      EmittedDependsOnReferences(init, a, b);
      assert ReferenceOf(lines[|lines| - 1]) == ReferenceOf(lines[|lines| - 1]);
    }
  }

  /** Every word the second pass emits is the translation of its line under
      the final symbol table: an A-command's word encodes the final value of
      its symbol, a C-command's word encodes its fields. */
  lemma {:induction false} SecondPassEmitsTranslations(lines: seq<Line>, s: SecondState)
    requires SecondPassOf(lines, s).Success?
    ensures var t := SecondPassOf(lines, s).value;
      && |s.words| <= |t.words|
      && Emitted(lines, t.table) == Some(t.words[|s.words|..])
      && forall k :: 0 <= k < |lines| && ReferenceOf(lines[k]).Some? ==> ReferenceOf(lines[k]).value in t.table
  {
    SecondPassEmitsOneWordPerInstruction(lines, s);
    if lines != [] {
      var init := lines[..|lines| - 1];
      var last := lines[|lines| - 1];
      SecondPassEmitsTranslations(init, s);
      var p := SecondPassOf(init, s).value;
      var t := SecondPassOf(lines, s).value;
      SecondPassEmitsOneWordPerInstruction([last], p);
      assert [last][..0] == [];
      assert SecondPassOf([last], p) == SecondStep(p, last, 0);
      if last.ALine? {
        ResolveBindsAndAllocates(p.table, p.next, last.symbol);
      }
      forall k | 0 <= k < |init| ensures init[k] == lines[k] { }
      EmittedDependsOnReferences(init, p.table, t.table);
      assert t.words[|s.words|..] == p.words[|s.words|..] + t.words[|p.words|..];
    }
  }

  /** The word of the instruction at line `j` sits at the position given by
      the number of instructions before it. */
  lemma {:induction false} EmittedAt(lines: seq<Line>, table: map<string, nat>, j: nat)
    requires Emitted(lines, table).Some?
    requires j < |lines| && TakesWord(lines[j])
    ensures var ws := Emitted(lines, table).value;
      |ws| == RomCount(lines) && RomCount(lines[..j]) < |ws|
      && WordOf(lines[j], table) == Some(ws[RomCount(lines[..j])])
  {
    var init := lines[..|lines| - 1];
    EmittedLength(lines, table);
    if j < |lines| - 1 {
      assert init[..j] == lines[..j] && init[j] == lines[j];
      EmittedAt(init, table, j);
    } else {
      assert init == lines[..j];
      EmittedLength(init, table);
    }
  }

  lemma {:induction false} EmittedLength(lines: seq<Line>, table: map<string, nat>)
    requires Emitted(lines, table).Some?
    ensures |Emitted(lines, table).value| == RomCount(lines)
  {
    if lines != [] {
      EmittedLength(lines[..|lines| - 1], table);
    }
  }

  /** A failing second pass names the first line that has no translation:
      every line before it passes, and the step on that line fails with this
      error. The line is a C-command with a mnemonic missing from the tables,
      or an A-command whose reference resolves, in the state the lines before
      it leave, to a value that does not fit in 15 bits. */
  lemma {:induction false} SecondPassFailureLocated(lines: seq<Line>, s: SecondState)
    requires SecondPassOf(lines, s).Failure?
    ensures var e := SecondPassOf(lines, s).error;
      && e.at < |lines|
      && SecondPassOf(lines[..e.at], s).Success?
      && var p := SecondPassOf(lines[..e.at], s).value;
      && SecondStep(p, lines[e.at], e.at) == Failure(e)
      && (e.UnknownMnemonic? ==>
            lines[e.at].CLine? && TranslateCCommand(lines[e.at].fields.comp, lines[e.at].fields.dest, lines[e.at].fields.jump).None?)
      && (e.AddressOutOfRange? ==>
            lines[e.at].ALine? && e.value == Resolve(p.table, p.next, lines[e.at].symbol).value && e.value >= 32768)
  {
    var init := lines[..|lines| - 1];
    if SecondPassOf(init, s).Failure? {
      SecondPassFailureLocated(init, s);
      var e := SecondPassOf(init, s).error;
      assert init[e.at] == lines[e.at];
      assert init[..e.at] == lines[..e.at];
    } else {
      assert lines[..|lines| - 1] == init;
    }
  }

  /** A line that has no translation in any state makes the whole pass fail:
      a C-command with an unknown mnemonic, or a numeral of 2^15 or more. */
  lemma {:induction false} SecondPassRejectsUntranslatable(lines: seq<Line>, s: SecondState, j: nat)
    requires j < |lines|
    requires (lines[j].CLine? && TranslateCCommand(lines[j].fields.comp, lines[j].fields.dest, lines[j].fields.jump).None?)
      || (lines[j].ALine? && IsDecimal(lines[j].symbol) && DecimalValue(lines[j].symbol) >= 32768)
    ensures SecondPassOf(lines, s).Failure?
  {
    var init := lines[..|lines| - 1];
    if j < |lines| - 1 {
      assert init[j] == lines[j];
      SecondPassRejectsUntranslatable(init, s, j);
    }
  }
}
