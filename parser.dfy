/** The parser object that drives both passes. It walks its list of commands
    with the cursor `current`, counts instructions in `line` during the first
    pass and hands out variable addresses from `nextRAMAddr` during the second;
    the symbol table it fills is the one loaded with the predefined symbols.
    Each loop is proved to compute the pass functions of `Passes` over the
    parsed lines, so the theorems proved there are about what these methods do. */
module Parsers {
  import opened Wrappers
  import opened Numerals
  import opened Commands
  import opened Code
  import opened SymbolTables
  import opened Passes
  import opened Assembly

  class Parser {
    /** The source's lines, as the line split of the trimmed source gives them. */
    const commands: seq<string>
    /** The table shared with `loadPreDefinedSymbols` (a global in the source). */
    const symbolTable: SymbolTable
    /** The ROM address of the next instruction, during the first pass. */
    var line: nat
    /** The index of the command being read. */
    var current: nat
    /** The RAM address the next new variable gets. */
    var nextRAMAddr: nat

    constructor(commands: seq<string>, symbolTable: SymbolTable)
      ensures this.commands == commands && this.symbolTable == symbolTable
      ensures line == 0 && current == 0 && nextRAMAddr == FirstVariableAddress
    {
      this.commands := commands;
      this.symbolTable := symbolTable;
      line := 0;
      current := 0;
      nextRAMAddr := FirstVariableAddress;
    }

    predicate HasMoreCommands()
      reads this
    {
      current < |commands|
    }

    /** The parsed lines from index `from` to the end (none past the end). */
    ghost function Rest(from: nat): seq<Line>
    {
      if from <= |commands| then ParseAll(commands)[from..] else []
    }

    /** Moves the cursor to the next command. */
    method Advance()
      modifies this`current
      ensures current == old(current) + 1
    {
      current := current + 1;
    }

    /** `var_symbol`: the reference of the current A-command, resolved against
        the table; a new name is bound to `nextRAMAddr`, which then moves on. */
    method VarSymbol() returns (address: nat)
      requires HasMoreCommands()
      modifies symbolTable, this`nextRAMAddr
      ensures var r := Resolve(old(symbolTable.symTable), old(nextRAMAddr), AddressSymbol(CurrentCommand(commands[current])));
        && address == r.value && symbolTable.symTable == r.table && nextRAMAddr == r.next
    {
      var symbol := AddressSymbol(CurrentCommand(commands[current]));
      if IsDecimal(symbol) {
        return DecimalValue(symbol);
      }
      if !symbolTable.Contains(symbol) {
        symbolTable.AddEntry(symbol, nextRAMAddr);
        nextRAMAddr := nextRAMAddr + 1;
      }
      address := symbolTable.GetAddress(symbol).value;
    }

    /** One iteration of `firstPass` on the current command: an instruction
        moves the ROM counter on, a label is bound to it. */
    method FirstPassStep()
      requires HasMoreCommands()
      modifies this`line, symbolTable
      ensures FirstState(symbolTable.symTable, line)
        == FirstStep(FirstState(old(symbolTable.symTable), old(line)), ParseAll(commands)[current])
    {
      ghost var before := FirstState(symbolTable.symTable, line);
      var command := CurrentCommand(commands[current]);
      match CommandTypeOf(command) {
        case ACommand =>
          line := line + 1;
        case CCommand =>
          line := line + 1;
        case LCommand =>
          symbolTable.AddEntry(LabelSymbol(command), line);
        case Comment =>
      }
      ParseAllAt(commands, current);
      ClassifyByType(command);
    }

    /** `firstPass`: from the cursor to the end, counts instructions and binds
        every label to the count reached at its declaration. The cursor never
        passes the end of the commands: it starts at 0 and moves only while
        there are more commands. */
    method FirstPass()
      requires current <= |commands|
      modifies this`line, this`current, symbolTable
      ensures FirstState(symbolTable.symTable, line)
        == FirstPassOf(Rest(old(current)), FirstState(old(symbolTable.symTable), old(line)))
      ensures current == |commands|
    {
      ghost var c0 := current;
      ghost var todo := Rest(c0);
      ghost var s0 := FirstState(symbolTable.symTable, line);
      while HasMoreCommands()
        invariant c0 <= current <= |commands|
        invariant FirstState(symbolTable.symTable, line) == FirstPassOf(todo[..current - c0], s0)
        decreases |commands| - current
      {
        assert todo[current - c0] == ParseAll(commands)[current];
        FirstPassStep();
        FirstPassPrefix(todo, current - c0, s0);
        Advance();
      }
      assert todo[..current - c0] == todo;
    }

    /** The `A_COMMAND` case of `secondPass`: resolves the reference of the
        current command and adds its word, if the value has one. */
    method AddressInstruction(words: seq<string>) returns (r: Result<seq<string>, AsmError>)
      requires HasMoreCommands()
      modifies this`nextRAMAddr, symbolTable
      ensures var p := SecondStep(SecondState(old(symbolTable.symTable), old(nextRAMAddr), words), ALine(AddressSymbol(CurrentCommand(commands[current]))), current);
        && (p.Success? <==> r.Success?)
        && (p.Success? ==>
              r.value == p.value.words && symbolTable.symTable == p.value.table && nextRAMAddr == p.value.next)
        && (p.Failure? ==> r.error == p.error)
    {
      var value := VarSymbol();
      match AddressWord(value) {
        case None =>
          r := Failure(AddressOutOfRange(current, value));
        case Some(w) =>
          r := Success(words + [w]);
      }
    }

    /** One iteration of `secondPass` on the current command, given the words
        emitted so far: an A-command resolves its reference and adds its word,
        a C-command adds its translation, anything else adds nothing. */
    method SecondPassStep(words: seq<string>) returns (r: Result<seq<string>, AsmError>)
      requires HasMoreCommands()
      modifies this`nextRAMAddr, symbolTable
      ensures var p := SecondStep(SecondState(old(symbolTable.symTable), old(nextRAMAddr), words), Parse(commands[current]), current);
        && (p.Success? <==> r.Success?)
        && (p.Success? ==>
              r.value == p.value.words && symbolTable.symTable == p.value.table && nextRAMAddr == p.value.next)
        && (p.Failure? ==> r.error == p.error)
    {
      var command := CurrentCommand(commands[current]);
      ClassifyByType(command);
      match CommandTypeOf(command) {
        case ACommand =>
          r := AddressInstruction(words);
        case CCommand =>
          var f := Fields(command);
          match TranslateCCommand(f.comp, f.dest, f.jump) {
            case None =>
              r := Failure(UnknownMnemonic(current));
            case Some(w) =>
              r := Success(words + [w]);
          }
        case LCommand =>
          r := Success(words);
        case Comment =>
          r := Success(words);
      }
    }

    /** `secondPass`: from the first command to the end, resolves references,
        allocates variables and emits one word per instruction. It stops at the
        first command with no word; on success the table and the allocator are
        left as the pass leaves them. */
    method SecondPass() returns (r: Result<seq<string>, AsmError>)
      modifies this`current, this`nextRAMAddr, symbolTable
      ensures var p := SecondPassOf(ParseAll(commands), SecondState(old(symbolTable.symTable), old(nextRAMAddr), []));
        && (p.Success? <==> r.Success?)
        && (p.Success? ==>
              r.value == p.value.words && symbolTable.symTable == p.value.table && nextRAMAddr == p.value.next)
        && (p.Failure? ==> r.error == p.error)
    {
      ghost var lines := ParseAll(commands);
      ghost var s0 := SecondState(symbolTable.symTable, nextRAMAddr, []);
      var binaryInst: seq<string> := [];
      current := 0;
      while HasMoreCommands()
        invariant current <= |commands|
        invariant SecondPassOf(lines[..current], s0) == Success(SecondState(symbolTable.symTable, nextRAMAddr, binaryInst))
        decreases |commands| - current
      {
        SecondPassSlice(lines, current, s0);
        ParseAllAt(commands, current);
        var step := SecondPassStep(binaryInst);
        if step.Failure? {
          r := Failure(step.error);
          SecondPassFailurePersists(lines, current + 1, s0);
          return;
        }
        binaryInst := step.value;
        Advance();
      }
      assert lines[..current] == lines;
      r := Success(binaryInst);
    }
  }

  /** What a command parses to, by its type. */
  lemma ClassifyByType(command: string)
    ensures CommandTypeOf(command) == ACommand ==> Classify(command) == ALine(AddressSymbol(command))
    ensures CommandTypeOf(command) == LCommand ==> Classify(command) == LLine(LabelSymbol(command))
    ensures CommandTypeOf(command) == CCommand ==> Classify(command) == CLine(Fields(command))
    ensures CommandTypeOf(command) == Comment ==> Classify(command) == CommentLine
  {
  }

  /** One more line for the first pass is one more step. */
  lemma FirstPassPrefix(lines: seq<Line>, k: nat, s0: FirstState)
    requires k < |lines|
    ensures FirstPassOf(lines[..k + 1], s0) == FirstStep(FirstPassOf(lines[..k], s0), lines[k])
  {
    assert lines[..k + 1][..k] == lines[..k];
  }

  /** One more line for the second pass is one more step, unless it has
      already failed. */
  lemma SecondPassSlice(lines: seq<Line>, current: nat, s0: SecondState)
    requires current < |lines|
    ensures SecondPassOf(lines[..current + 1], s0) == match SecondPassOf(lines[..current], s0)
      case Failure(e) => Failure(e)
      case Success(t) => SecondStep(t, lines[current], current)
  {
    assert lines[..current + 1][..current] == lines[..current];
  }

  /** Once the second pass fails on a prefix, it fails the same way on the
      whole program. */
  lemma {:induction false} SecondPassFailurePersists(lines: seq<Line>, n: nat, s: SecondState)
    requires n <= |lines|
    requires SecondPassOf(lines[..n], s).Failure?
    ensures SecondPassOf(lines, s) == SecondPassOf(lines[..n], s)
    decreases |lines| - n
  {
    if n < |lines| {
      var m := |lines| - 1;
      assert lines[..m][..n] == lines[..n];
      SecondPassFailurePersists(lines[..m], n, s);
    } else {
      assert lines[..n] == lines;
    }
  }

  /** `main` after reading the file: load the predefined symbols into a fresh
      table, build the parser, run both passes. The result is the assembly of
      the program's lines. */
  method Assemble(texts: seq<string>) returns (r: Result<seq<string>, AsmError>)
    ensures r == AssembleOf(texts)
  {
    var table := new SymbolTable();
    LoadPreDefinedSymbols(table);
    assert table.symTable == PreDefinedSymbols;
    var parser := new Parser(texts, table);
    parser.FirstPass();
    assert ParseAll(texts)[0..] == ParseAll(texts);
    r := parser.SecondPass();
  }
}
