/** The translation of a whole program, as `main` runs it after reading the
    file: load the predefined symbols, run the first pass from ROM address 0,
    then the second pass with variables allocated from RAM 16. The theorems
    here say what the emitted words are, line by line, and when there are
    none. */
module Assembly {
  import opened Wrappers
  import opened Numerals
  import opened Commands
  import opened Code
  import opened SymbolTables
  import opened Passes

  /** The first RAM address given to a variable: `nextRAMAddr`'s initial value. */
  const FirstVariableAddress: nat := 16

  /** The symbol table after the first pass: the predefined symbols, with every
      label bound to its ROM address. */
  function LabelTable(lines: seq<Line>): map<string, nat>
  {
    FirstPassOf(lines, FirstState(PreDefinedSymbols, 0)).table
  }

  /** The symbol table after the second pass: the labels and predefined
      symbols, and the program's new variables from RAM 16 on. */
  function FinalTable(lines: seq<Line>): map<string, nat>
  {
    var labels := LabelTable(lines);
    labels + Allocation(NewVariables(lines, labels), FirstVariableAddress)
  }

  /** The words of the program `texts`, given as the line split gives them,
      or the first line that has no translation. */
  function AssembleOf(texts: seq<string>): Result<seq<string>, AsmError>
  {
    AssembleLines(ParseAll(texts))
  }

  /** Both passes over the parsed lines of a program. */
  function AssembleLines(lines: seq<Line>): Result<seq<string>, AsmError>
  {
    match SecondPassOf(lines, SecondState(LabelTable(lines), FirstVariableAddress, []))
    case Success(t) => Success(t.words)
    case Failure(e) => Failure(e)
  }

  /** The output is exactly the translation of every instruction under the
      final symbol table, one 16-bit word per instruction, in source order. */
  lemma AssembleTranslates(lines: seq<Line>)
    requires AssembleLines(lines).Success?
    ensures var ws := AssembleLines(lines).value;
      && Emitted(lines, FinalTable(lines)) == Some(ws)
      && |ws| == RomCount(lines)
      && forall k :: 0 <= k < |ws| ==> |ws[k]| == 16 && IsBits(ws[k])
  {
    var s := SecondState(LabelTable(lines), FirstVariableAddress, []);
    SecondPassEmitsOneWordPerInstruction(lines, s);
    SecondPassEmitsTranslations(lines, s);
    SecondPassAllocatesVariables(lines, s);
    var t := SecondPassOf(lines, s).value;
    assert t.words[0..] == t.words;
  }

  /** The word of the instruction on line `j`: its position in the output is
      the number of instructions before it. */
  lemma WordOfLine(lines: seq<Line>, j: nat)
    requires AssembleLines(lines).Success?
    requires j < |lines| && TakesWord(lines[j])
    ensures var ws := AssembleLines(lines).value;
      RomCount(lines[..j]) < |ws| && WordOf(lines[j], FinalTable(lines)) == Some(ws[RomCount(lines[..j])])
  {
    AssembleTranslates(lines);
    EmittedAt(lines, FinalTable(lines), j);
  }

  /** A C-command's word is the encoding of its three fields. */
  lemma CCommandWord(lines: seq<Line>, j: nat)
    requires AssembleLines(lines).Success?
    requires j < |lines| && lines[j].CLine?
    ensures var f := lines[j].fields;
      var ws := AssembleLines(lines).value;
      RomCount(lines[..j]) < |ws| && TranslateCCommand(f.comp, f.dest, f.jump) == Some(ws[RomCount(lines[..j])])
  {
    WordOfLine(lines, j);
  }

  /** An A-command's word is `0` followed by the 15-bit value of its symbol
      under the final table. */
  lemma ACommandWord(lines: seq<Line>, j: nat)
    requires AssembleLines(lines).Success?
    requires j < |lines| && lines[j].ALine?
    ensures var ws := AssembleLines(lines).value;
      var v := SymbolValue(FinalTable(lines), lines[j].symbol);
      && RomCount(lines[..j]) < |ws|
      && v.Some? && v.value < 32768
      && var w := ws[RomCount(lines[..j])];
      |w| == 16 && IsBits(w) && w[0] == '0' && BitsValue(w) == v.value
  {
    WordOfLine(lines, j);
  }

  /** `@n` for a numeral n assembles to n itself. */
  lemma ConstantWord(lines: seq<Line>, j: nat)
    requires AssembleLines(lines).Success?
    requires j < |lines| && lines[j].ALine? && IsDecimal(lines[j].symbol)
    ensures var ws := AssembleLines(lines).value;
      RomCount(lines[..j]) < |ws| && IsBits(ws[RomCount(lines[..j])]) && BitsValue(ws[RomCount(lines[..j])]) == DecimalValue(lines[j].symbol)
  {
    ACommandWord(lines, j);
  }

  /** A reference to a label assembles to the ROM address of the instruction
      after its last declaration: the number of instructions before it. */
  lemma LabelReferenceWord(lines: seq<Line>, i: nat, j: nat)
    requires AssembleLines(lines).Success?
    requires i < |lines| && j < |lines|
    requires lines[i].LLine? && lines[j] == ALine(lines[i].name)
    requires !IsDecimal(lines[i].name)
    requires forall k :: i < k < |lines| ==> lines[k] != lines[i]
    ensures var ws := AssembleLines(lines).value;
      RomCount(lines[..j]) < |ws| && IsBits(ws[RomCount(lines[..j])]) && BitsValue(ws[RomCount(lines[..j])]) == RomCount(lines[..i])
  {
    ACommandWord(lines, j);
    LabelValue(lines, i);
  }

  /** The final value of a label is the number of instructions before its
      last declaration. */
  lemma LabelValue(lines: seq<Line>, i: nat)
    requires i < |lines| && lines[i].LLine? && !IsDecimal(lines[i].name)
    requires forall k :: i < k < |lines| ==> lines[k] != lines[i]
    ensures SymbolValue(FinalTable(lines), lines[i].name) == Some(RomCount(lines[..i]))
  {
    FirstPassBindsLabel(lines, FirstState(PreDefinedSymbols, 0), i);
    LabelTableWins(lines, lines[i].name);
  }

  /** A name bound by the first pass is never a new variable, so the final
      table keeps its binding. */
  lemma LabelTableWins(lines: seq<Line>, name: string)
    requires name in LabelTable(lines)
    ensures name in FinalTable(lines) && FinalTable(lines)[name] == LabelTable(lines)[name]
  {
    var labels := LabelTable(lines);
    var vs := NewVariables(lines, labels);
    NewVariablesFresh(lines, labels);
    AllocationKeys(vs, FirstVariableAddress);
  }

  /** A predefined symbol that no label redeclares assembles to its
      predefined address. */
  lemma PreDefinedReferenceWord(lines: seq<Line>, j: nat)
    requires AssembleLines(lines).Success?
    requires j < |lines| && lines[j].ALine?
    requires lines[j].symbol in PreDefinedSymbols
    requires LLine(lines[j].symbol) !in lines
    ensures var ws := AssembleLines(lines).value;
      RomCount(lines[..j]) < |ws| && IsBits(ws[RomCount(lines[..j])]) && BitsValue(ws[RomCount(lines[..j])]) == PreDefinedSymbols[lines[j].symbol]
  {
    var name := lines[j].symbol;
    ACommandWord(lines, j);
    PreDefinedNamesAreNotNumerals(name);
    FirstPassKeepsOthers(lines, FirstState(PreDefinedSymbols, 0), name);
    LabelTableWins(lines, name);
  }

  /** No predefined name is a numeral: each starts with a letter. */
  lemma PreDefinedNamesAreNotNumerals(name: string)
    requires name in PreDefinedSymbols
    ensures !IsDecimal(name)
  {
    assert name in PreDefinedSymbolsAsWritten;
    assert name[0] == 'S' || name[0] == 'L' || name[0] == 'A' || name[0] == 'T' || name[0] == 'K' || name[0] == 'R';
  }

  /** The k-th new variable, in order of first reference, assembles to RAM
      address 16 + k. */
  lemma VariableWord(lines: seq<Line>, j: nat, k: nat)
    requires AssembleLines(lines).Success?
    requires j < |lines| && lines[j].ALine?
    requires k < |NewVariables(lines, LabelTable(lines))| && NewVariables(lines, LabelTable(lines))[k] == lines[j].symbol
    ensures var ws := AssembleLines(lines).value;
      RomCount(lines[..j]) < |ws| && IsBits(ws[RomCount(lines[..j])]) && BitsValue(ws[RomCount(lines[..j])]) == FirstVariableAddress + k
  {
    ACommandWord(lines, j);
    VariableValue(lines, k);
  }

  /** The final value of the k-th new variable is 16 + k. */
  lemma VariableValue(lines: seq<Line>, k: nat)
    requires k < |NewVariables(lines, LabelTable(lines))|
    ensures SymbolValue(FinalTable(lines), NewVariables(lines, LabelTable(lines))[k]) == Some(FirstVariableAddress + k)
  {
    var labels := LabelTable(lines);
    var vs := NewVariables(lines, labels);
    NewVariablesFresh(lines, labels);
    AllocationAt(vs, FirstVariableAddress);
    assert vs[k] in vs;
    NewVariablesAreNames(lines, labels);
  }

  /** A program without a translation names its first offending line: the
      lines before it pass, and it is a C-command with a mnemonic missing from
      the tables, or an A-command whose reference resolves, after those lines,
      to a value that needs more than 15 bits. */
  lemma AssembleFailureLocated(lines: seq<Line>)
    requires AssembleLines(lines).Failure?
    ensures var e := AssembleLines(lines).error;
      var s := SecondState(LabelTable(lines), FirstVariableAddress, []);
      && e.at < |lines|
      && SecondPassOf(lines[..e.at], s).Success?
      && var p := SecondPassOf(lines[..e.at], s).value;
      && (e.UnknownMnemonic? ==>
            lines[e.at].CLine? && TranslateCCommand(lines[e.at].fields.comp, lines[e.at].fields.dest, lines[e.at].fields.jump).None?)
      && (e.AddressOutOfRange? ==>
            lines[e.at].ALine? && e.value == Resolve(p.table, p.next, lines[e.at].symbol).value && e.value >= 32768)
  {
    SecondPassFailureLocated(lines, SecondState(LabelTable(lines), FirstVariableAddress, []));
  }

  /** Every value in the predefined table fits in 15 bits. */
  lemma PreDefinedBelow()
    ensures forall x :: x in PreDefinedSymbols ==> PreDefinedSymbols[x] <= 24576
  {
    assert forall x :: x in PreDefinedSymbolsAsWritten ==> PreDefinedSymbolsAsWritten[x] <= 24576;
  }

  /** The first pass binds only addresses up to the ROM counter it reaches. */
  lemma {:induction false} FirstPassBelow(lines: seq<Line>, s: FirstState, bound: nat)
    requires forall x :: x in s.table ==> s.table[x] <= bound
    requires s.line + |lines| <= bound
    ensures forall x :: x in FirstPassOf(lines, s).table ==> FirstPassOf(lines, s).table[x] <= bound
  {
    if lines != [] {
      var init := lines[..|lines| - 1];
      FirstPassBelow(init, s, bound);
      FirstPassCountsInstructions(init, s);
      RomCountBound(init);
    }
  }

  /** A second pass whose table and allocator stay within 15 bits, over lines
      whose mnemonics are all known and whose numerals all fit, succeeds. */
  lemma {:induction false} SecondPassSucceeds(lines: seq<Line>, s: SecondState)
    requires forall x :: x in s.table ==> s.table[x] < 32768
    requires s.next + |lines| <= 32768
    requires forall k :: 0 <= k < |lines| && lines[k].CLine? ==>
      TranslateCCommand(lines[k].fields.comp, lines[k].fields.dest, lines[k].fields.jump).Some?
    requires forall k :: 0 <= k < |lines| && lines[k].ALine? && IsDecimal(lines[k].symbol) ==>
      DecimalValue(lines[k].symbol) < 32768
    ensures SecondPassOf(lines, s).Success?
    ensures var t := SecondPassOf(lines, s).value;
      (forall x :: x in t.table ==> t.table[x] < 32768) && t.next <= s.next + |lines|
  {
    if lines != [] {
      var init := lines[..|lines| - 1];
      var last := lines[|lines| - 1];
      forall k | 0 <= k < |init| ensures init[k] == lines[k] { }
      SecondPassSucceeds(init, s);
      var p := SecondPassOf(init, s).value;
      if last.ALine? {
        ResolveBindsAndAllocates(p.table, p.next, last.symbol);
      }
    }
  }

  /** A program of at most 32752 lines whose C-commands all use known
      mnemonics and whose numerals all fit in 15 bits has a translation.
      Together with `AssembleFailureLocated`, these are the only ways to
      fail. */
  lemma AssembleSucceeds(lines: seq<Line>)
    requires |lines| <= 32768 - FirstVariableAddress
    requires forall k :: 0 <= k < |lines| && lines[k].CLine? ==>
        TranslateCCommand(lines[k].fields.comp, lines[k].fields.dest, lines[k].fields.jump).Some?
    requires forall k :: 0 <= k < |lines| && lines[k].ALine? && IsDecimal(lines[k].symbol) ==>
        DecimalValue(lines[k].symbol) < 32768
    ensures AssembleLines(lines).Success?
  {
    PreDefinedBelow();
    FirstPassBelow(lines, FirstState(PreDefinedSymbols, 0), 32767);
    SecondPassSucceeds(lines, SecondState(LabelTable(lines), FirstVariableAddress, []));
  }
}
