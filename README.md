# Hack assembler, modelled in Dafny

This project models `assembler.js`, a two-pass assembler for the Hack computer. The assembler turns an assembly program into one 16-bit binary word per instruction, and it runs in four stages:

- The symbol table is loaded with the predefined symbols: `SP`, `LCL`, `ARG`, `THIS`, `THAT`, `R0`..`R15`, `SCREEN` and `KBD`.
- The first pass counts instructions and binds every label `(xxx)` to the ROM address of the instruction that follows it.
- The second pass resolves every `@xxx`. A decimal constant stands for itself, and a bound symbol stands for its address. A new name becomes a variable at the next free RAM address, counting up from 16.
- The second pass also encodes every C-command `dest=comp;jump` through the three mnemonic tables.

The model follows the source's own structure, one module per part:

- `SymbolTables`: the mutable `SymbolTable` class (`addEntry`, `contains`, `getAddress`) and `loadPreDefinedSymbols`, which is a loop over the predefined pairs.
- `Code`: the destination, computation and jump tables, and the C-instruction encoding (`dest`, `comp`, `jmp`, `translateCCommand`).
- `Commands`: what the parser does to one line. This covers `currentCommand`, `commandType`, `label_symbol`, the reference that `var_symbol` reads, and `fields`. Each is a pure function of the line. `Text` and `Numerals` supply JavaScript's `trim`, `indexOf`, `slice`, `split`, `parseInt` and `toString(2)`.
- `Passes`: one iteration of each pass as a function, and each pass as a fold over the parsed lines. The theorems about labels, variables and emitted words are stated on these functions.
- `Parsers`: the `Parser` class, with its cursor `current`, ROM counter `line` and allocator `nextRAMAddr`. Its methods `FirstPass`, `SecondPass`, `VarSymbol` and `Advance` are imperative methods, and `FirstPass` and `SecondPass` are loops. Each method is proved to compute the corresponding function of `Passes`. `Assemble` is `main` without the file I/O.
- `Assembly`: the whole translation of a program. It states which word each instruction gets, when there is no translation at all, and when there always is one.
- `HackAlu`: a reference semantics for the Hack ALU on 16-bit words. The computation table is checked against it, code by code.

## Model

| member | source | states |
|---|---|---|
| SymbolTables.SymbolTable.constructor | assembler.js:19-21 | a new table has no bindings |
| SymbolTables.SymbolTable.AddEntry | assembler.js:24-26 | binds the symbol to the address, replacing an earlier binding; every other symbol keeps its lookup result |
| SymbolTables.SymbolTable.GetAddress | assembler.js:28-34 | a lookup finds an address exactly when `contains` holds for the symbol |
| SymbolTables.LoadPreDefinedSymbols | assembler.js:38-68 | after the loop the table is the old table with every predefined pair added; the order of insertion does not matter, because the names are distinct |
| SymbolTables.PreDefinedAsWrittenBindsR6To5 | assembler.js:53-54 | in the table as written, `R6` gets the same address as `R5`, namely 5, not 6 |
| SymbolTables.PreDefinedAddresses | assembler.js:40-64 | the corrected table binds `SP`..`THAT` to 0..4, `SCREEN` to 16384, `KBD` to 24576, and every `Rk` to k for k < 16 |
| SymbolTables.RegisterAddress | assembler.js:48-63 | `Rk` is bound to k for each k below 16 |
| SymbolTables.PreDefinedDiffersOnlyAtR6 | assembler.js:40-64 | the corrected table has the same names as the written one, and every name except `R6` keeps its address |
| Code.Dest | assembler.js:106-108 | a destination is encoded exactly when the table has it, and then as 3 bits |
| Code.Comp | assembler.js:110-112 | a computation is encoded exactly when the table has it, and then as 7 bits |
| Code.Jmp | assembler.js:114-116 | a jump is encoded exactly when the table has it, and then as 3 bits |
| Code.TranslateCCommand | assembler.js:118-120 | a word exists exactly when all three mnemonics are known; it is 16 bits: `111`, then the comp, dest and jump codes in their fields |
| Code.TranslateCCommandAsWritten | assembler.js:118-120 | `translateCCommand` as written: `111` followed by the three codes, where a missing mnemonic contributes the empty string (defined, not contracted; see `IncompleteCompTableGivesShortWord`) |
| Code.IncompleteCompTableGivesShortWord | assembler.js:85-92 | with the six-entry table, `D=D+A` gives a 9-character word; the complete table gives `1110000010010000` |
| Code.CompTableExtendsAsWritten | assembler.js:85-92 | the complete table keeps each of the source's six codes unchanged |
| Code.CompCodesComputeMnemonics | assembler.js:85-92 | a mnemonic is in the table exactly when it has a meaning; its 7-bit code makes the Hack ALU compute that meaning for every D, A and M |
| Code.DestBitsFlagRegisters | assembler.js:74-83 | the three destination bits flag A, D and M, each exactly when the mnemonic names that register |
| Code.JumpBitsSelectOutcomes | assembler.js:94-103 | a jump is taken exactly when the bit for the sign of the output (negative, zero, positive) is set |
| Text.Trim | assembler.js:254 | the trimmed string is no longer than the input |
| Text.TrimIsTrimmed | assembler.js:254 | a trimmed string neither starts nor ends with whitespace |
| Text.TrimTrimmed | assembler.js:259 | trimming a string with no blank at either end changes nothing, so trimming is idempotent |
| Text.TrimEmpty | assembler.js:254 | a line trims to nothing exactly when it is all whitespace |
| Text.TrimStartDrops | assembler.js:254 | the leading trim keeps a suffix and drops only whitespace |
| Text.TrimEndDrops | assembler.js:259 | the trailing trim keeps a prefix and drops only whitespace |
| Text.IndexOf | assembler.js:255 | `indexOf`: a found position holds the pattern and no earlier position does; `None` (-1) means no position does |
| Text.IndexOfChar | assembler.js:211 | for one character, `indexOf` finds a position exactly when the character occurs, and it is the first one |
| Text.Slice | assembler.js:234 | `slice(a, b)` has length b - a, or 0 when a > b |
| Text.Split | assembler.js:214 | `split` gives at least one piece, and no piece holds the separator |
| Text.JoinSplit | assembler.js:225 | joining the pieces of a split with the separator gives back the string |
| Text.SplitJoin | assembler.js:214 | splitting pieces joined by a separator that none of them holds gives back the pieces |
| Text.SplitAtFirst | assembler.js:225 | the first piece is the text before the first separator, and the rest is the split of what follows it |
| Numerals.DecimalRoundTrip | assembler.js:169 | `parseInt` of the decimal numeral of n is n |
| Numerals.ToBinary | assembler.js:169 | `toString(2)` gives a non-empty string of bits with no leading zero |
| Numerals.BinaryRoundTrip | assembler.js:169 | the binary numeral of n has value n |
| Numerals.BinaryFits | assembler.js:169-170 | n's binary numeral has at most k digits exactly when n < 2^k |
| Numerals.ZerosPrefix | assembler.js:171-172 | leading zeros do not change a binary value |
| Commands.CurrentCommand | assembler.js:253-260 | `currentCommand`: trims the line, cuts an inline `//` comment that does not start the line, and trims again (defined, not contracted; its properties are the four rows below) |
| Commands.CurrentCommandIsClean | assembler.js:253-260 | the cleaned command is trimmed, and it is either a whole-line comment or holds no `//` |
| Commands.CurrentCommandIdempotent | assembler.js:253-260 | cleaning a cleaned command changes nothing |
| Commands.CurrentCommandOfPlainLine | assembler.js:253-260 | a line with no blank at either end and no `//` is its own command |
| Commands.InlineCommentStripped | assembler.js:255-259 | an inline `//` comment, and the blanks before it, are cut off and leave the command |
| Commands.CommandTypeOf | assembler.js:267-278 | `commandType`: `@` first gives an A-command, `(` a label, `//` a comment, anything else a C-command, tested in that order (defined, not contracted) |
| Commands.LabelSymbol | assembler.js:204-206 | `label_symbol`, `slice(1, -1)`: the text between the first and the last character, empty for a command shorter than two (defined, not contracted) |
| Commands.AddressSymbol | assembler.js:192 | the reference `var_symbol` reads, `slice(1)`: everything after the first character (defined, not contracted) |
| Commands.Fields | assembler.js:210-243 | `fields` with the full form corrected: without `=`, split on `;`; with `=` but no `;`, split on `=`; with both, dest before `=`, comp up to `;`, jump after it (defined; its contract is in the FieldsOf* rows and `ParseRender`) |
| Commands.FieldsAsWritten | assembler.js:210-243 | `fields` as written: the first two cases as in `Fields`, and `None` for the full form, which throws (defined; see `FieldsAsWrittenFailsOnFullForm`) |
| Commands.FieldsAsWrittenFailsOnFullForm | assembler.js:210-243 | the written `fields` fails exactly on commands holding both `=` and `;`; on all others it agrees with the corrected split |
| Commands.FullFormFieldsThrowsAsWritten | assembler.js:233-242 | the written `fields` fails on `D=M;JGT`; the corrected split gives dest `D`, comp `M`, jump `JGT` |
| Commands.FieldsOfComp | assembler.js:213-220 | `comp` alone gives no destination and no jump |
| Commands.FieldsOfCompJump | assembler.js:213-220 | `comp;jump` gives no destination, the computation and the jump |
| Commands.FieldsOfDestComp | assembler.js:222-231 | `dest=comp` gives the destination, the computation and no jump |
| Commands.FieldsOfDestCompJump | assembler.js:233-242 | `dest=comp;jump` gives all three fields |
| Commands.ParseRender | assembler.js:204-243 | for every well-formed instruction's text: cleaning leaves it alone, `commandType` names its kind, and the symbol, label or fields come back unchanged |
| Commands.ParseInstruction | assembler.js:267-278 | parsing the text of a well-formed instruction gives back that instruction |
| Commands.Classify | assembler.js:141-153 | what each pass reads from a cleaned command after `commandType`: the reference, the label, the fields, or nothing for a comment (defined, not contracted) |
| Commands.Parse | assembler.js:253-278 | a line as the passes read it: `currentCommand`, then the classification (defined; see `ParseInstruction`) |
| Commands.ParseAll | assembler.js:245-254 | one parsed line per line of text |
| Commands.ParseAllAt | assembler.js:253-254 | the k-th parsed line is the k-th text line, parsed |
| Commands.ParseAllPrefix | assembler.js:253-254 | parsing a prefix of the text gives the same prefix of the parsed lines |
| Passes.FirstPassCountsInstructions | assembler.js:139-158 | the ROM counter advances once per A- or C-command and for nothing else |
| Passes.FirstPassBindsLabel | assembler.js:149-151 | a label is bound to the number of instructions before its last declaration |
| Passes.FirstPassKeepsOthers | assembler.js:139-158 | a name that no line declares as a label keeps the binding it had, or stays unbound |
| Passes.FirstStep | assembler.js:141-154 | one `firstPass` iteration: an A- or C-command moves the ROM counter on, a label is bound to it, a comment changes nothing (defined, not contracted) |
| Passes.FirstPassOf | assembler.js:139-158 | `firstPass` as a fold of `FirstStep` over the lines (defined; its contract is in the three rows above) |
| Passes.ResolveAsWrittenAgreesOnNames | assembler.js:191-201 | for a reference that is not a numeral, the written and the corrected `var_symbol` agree |
| Passes.NumeralBecomesVariableAsWritten | assembler.js:193-195 | as written, `@2` becomes a variable at RAM 16; corrected, it is the constant 2 |
| Passes.ResolveBindsAndAllocates | assembler.js:196-200 | resolution yields the reference's value under the new table and changes no existing binding; a new name gets `nextRAMAddr`, which then moves on by exactly one, and nothing else moves it |
| Passes.Resolve | assembler.js:191-201 | `var_symbol` corrected: a numeral is its own value, a bound name its address, a new name gets `nextRAMAddr`, which moves on by one (defined; see `ResolveBindsAndAllocates`) |
| Passes.ResolveAsWritten | assembler.js:191-201 | `var_symbol` as written: a numeral is looked up and allocated like any name (defined; see `ResolveAsWrittenAgreesOnNames`) |
| Passes.AddressWord | assembler.js:168-172 | an A-word exists exactly for values below 2^15; it is 16 bits, starts with `0`, and has the value |
| Passes.SecondPassEmitsOneWordPerInstruction | assembler.js:160-183 | the second pass appends one 16-bit word per instruction to the words it started with, and keeps every existing binding |
| Passes.NewVariablesAreNames | assembler.js:193-197 | a new variable is never a numeral |
| Passes.NewVariablesFresh | assembler.js:196-199 | the new variables are distinct and unbound before; every referenced name is bound before or is among them |
| Passes.AllocationAt | assembler.js:196-199 | the k-th of distinct new variables is bound to base + k |
| Passes.SecondPassAllocatesVariables | assembler.js:196-199 | the final table is the old one plus the new variables at consecutive addresses from the allocator's start, in order of first reference; the allocator ends one past the last |
| Passes.EmittedDependsOnReferences | assembler.js:164-183 | only the bindings of the names a program references affect its words |
| Passes.SecondPassEmitsTranslations | assembler.js:164-183 | every emitted word is its line's translation under the final table, and every referenced name ends up bound |
| Passes.EmittedAt | assembler.js:164-183 | an instruction's word sits at the index given by the number of instructions before it |
| Passes.SecondPassFailureLocated | assembler.js:164-183 | a failing pass names the first line with no word: the lines before it pass and the step on it gives the error; it is a C-command with an unknown mnemonic, or an A-command whose reference resolves after those lines to a value of at least 2^15, the value the error carries |
| Passes.SecondPassRejectsUntranslatable | assembler.js:164-183 | a C-command with an unknown mnemonic, or a numeral of at least 2^15, makes the pass fail |
| Passes.SecondStep | assembler.js:165-180 | one `secondPass` iteration: an A-command resolves its reference and adds its word, a C-command adds its translation, others add nothing; no word is a failure at that line (defined, not contracted) |
| Passes.SecondPassOf | assembler.js:160-186 | `secondPass` as a fold of `SecondStep` that stops at the first failure (defined; its contract is in the SecondPass* rows) |
| Assembly.AssembleTranslates | assembler.js:281-293 | the output is exactly the translation of each instruction under the final table, one 16-bit word per instruction, in source order |
| Assembly.WordOfLine | assembler.js:164-183 | the word of the instruction on line j is at the index given by the number of instructions before it |
| Assembly.CCommandWord | assembler.js:174-177 | a C-command's word is the encoding of its three fields |
| Assembly.ACommandWord | assembler.js:167-172 | an A-command's word is `0` followed by the 15-bit value of its symbol under the final table |
| Assembly.ConstantWord | assembler.js:168-172 | `@n` assembles to n |
| Assembly.LabelReferenceWord | assembler.js:149-172 | a reference to a label assembles to the number of instructions before the label's last declaration |
| Assembly.LabelValue | assembler.js:139-158 | a label's final value is the number of instructions before its last declaration |
| Assembly.LabelTableWins | assembler.js:196-200 | a name bound by the first pass never becomes a variable, and keeps its binding |
| Assembly.PreDefinedReferenceWord | assembler.js:288-291 | a predefined symbol that no label redeclares assembles to its predefined address |
| Assembly.PreDefinedNamesAreNotNumerals | assembler.js:40-64 | no predefined name is a decimal numeral |
| Assembly.VariableWord | assembler.js:196-200 | the k-th new variable, in order of first reference, assembles to 16 + k |
| Assembly.VariableValue | assembler.js:196-200 | the k-th new variable's final value is 16 + k |
| Assembly.AssembleFailureLocated | assembler.js:281-293 | a program with no translation names its first offending line: the lines before it pass the second pass, and it is a C-command with an unknown mnemonic or an A-command whose reference resolves, after those lines, to a value of at least 2^15, the value the error carries |
| Assembly.PreDefinedBelow | assembler.js:40-64 | every predefined address is at most 24576 |
| Assembly.FirstPassBelow | assembler.js:139-158 | the first pass binds no address above the ROM counter it can reach |
| Assembly.SecondPassSucceeds | assembler.js:160-183 | with every binding and the allocator within 15 bits, known mnemonics and numerals that fit, the pass succeeds and keeps everything within 15 bits |
| Assembly.AssembleSucceeds | assembler.js:281-293 | a program of at most 32752 lines whose mnemonics are known and whose numerals fit in 15 bits has a translation |
| Assembly.AssembleLines | assembler.js:288-291 | both passes over the parsed lines: the first from the predefined table and ROM address 0, the second from that table with variables from RAM 16 (defined; the Assembly rows above are its contract) |
| Assembly.AssembleOf | assembler.js:281-293 | the assembly of a program's text lines: `AssembleLines` of their parse (defined; `Parsers.Assemble` computes it) |
| Parsers.Parser.constructor | assembler.js:128-136 | the parser starts at command 0, ROM address 0, with variables from RAM 16 |
| Parsers.Parser.HasMoreCommands | assembler.js:249-251 | the cursor is before the end of the commands (defined, not contracted) |
| Parsers.Parser.Advance | assembler.js:262-265 | the cursor moves on by one |
| Parsers.Parser.VarSymbol | assembler.js:191-201 | the table and the allocator become those of the resolution of the current reference, and its value is returned |
| Parsers.Parser.FirstPassStep | assembler.js:141-154 | one iteration changes the table and the ROM counter as one step of the first pass over the current parsed line |
| Parsers.Parser.FirstPass | assembler.js:139-158 | the loop leaves the table and the ROM counter as the first pass over the remaining lines does, and the cursor at the end |
| Parsers.Parser.AddressInstruction | assembler.js:167-173 | the `A_COMMAND` case: succeeds exactly when the pass step does, with the same words, table and allocator, or with the same error |
| Parsers.Parser.SecondPassStep | assembler.js:165-180 | one iteration: succeeds exactly when the pass step on the current line does, with the same words, table and allocator, or with the same error |
| Parsers.Parser.SecondPass | assembler.js:160-186 | from command 0 to the end: succeeds exactly when the second pass does, with its words, table and allocator, or with its first error |
| Parsers.SecondPassFailurePersists | assembler.js:164-183 | once the second pass fails on a prefix, it fails the same way on the whole program |
| Parsers.Assemble | assembler.js:281-293 | loading the predefined symbols into a fresh table, then running both passes, gives the assembly of the program's lines |

## Left out

- Reading the input file, printing the words, and the commented-out file write. `Assemble` takes the program's lines and returns its words.
- The source splits the trimmed text with the regular expression `/[\r\n]+/`; that split is not part of this model. The parser takes the resulting lines as its `commands`.
- `trim` removes every Unicode whitespace character. The model treats only blank, tab, CR and LF as whitespace.
- The `tokens` field and `getCommands` are not modelled. The field is never read, and `getCommands` is only the line split above.
- The source keeps the symbol table in a global variable. The model holds it in a `const` field of the parser that points to the shared `SymbolTable` object, and `loadPreDefinedSymbols` receives it as a parameter.
- `Object.entries` fixes the order in which the predefined pairs are added. `LoadPreDefinedSymbols` takes them in any order, which gives the same table because the names are distinct.
- A C-command with neither `=` nor `;` gets the jump `undefined` in the source, and its lookup yields an empty code. The model treats it like `null` and encodes it as `000`.
- Code.TranslateCCommand: where a mnemonic is missing from a table, the source emits a short word, because `join` turns `undefined` into an empty string. The model gives no word and reports `UnknownMnemonic` with the line.
- Passes.AddressWord: for values of 2^15 or more, the source's `"0".repeat` throws on a negative count. The model reports `AddressOutOfRange` with the line.
- Parsers.Parser.SecondPass: the model stops at the first line with no word. The source either goes on with a short word or stops with an exception.
- Parsers.Parser.FirstPass: requires the cursor not to be past the end of the commands. The source keeps this invariant: the cursor starts at 0 and moves only while there are more commands.
- The symbol table and the three code tables are plain JavaScript objects, so a name inherited from `Object.prototype` (`valueOf`, `toString`, `constructor`, `__proto__`) is found before any `addEntry`. In the source, `@valueOf` allocates nothing and emits a word built from `NaN`, and a C-command whose comp is `constructor` gets a function's text as its code. The model's tables are maps holding only the added names: `@valueOf` becomes a new variable, and `constructor` is an unknown mnemonic.
- A line holding only blanks or tabs survives the line split, cleans to the empty command and is classified as a C-command with the empty comp. The source emits the 6-character word `111000` for it. In the model the empty comp is an unknown mnemonic, so such a line makes the whole program fail with `UnknownMnemonic` at that line.
- The theorems in `Passes` and `Assembly` are stated over parsed lines. `Commands.ParseRender` and `Commands.ParseInstruction` connect them to instruction text.

## Findings

| source | as written | input that shows it | evidently intended | confidence | as-written member | corrected member |
|---|---|---|---|---|---|---|
| assembler.js:193-195 | `typeof symbol === "number"` never holds for the string from `slice(1)`, so a constant is treated as a variable name | `@2` with no symbol `2`: gets RAM 16, not 2 | a decimal constant stands for its own value | high, not executed | Passes.NumeralBecomesVariableAsWritten | Passes.ResolveBindsAndAllocates |
| assembler.js:233-242 | the full form assigns the undeclared `comp`, `dest`, `jmpt` and returns the undeclared `jmp`, which throws in a class body's strict mode | `D=M;JGT` | dest before `=`, comp between `=` and `;`, jump after `;` | high, not executed | Commands.FullFormFieldsThrowsAsWritten | Commands.FieldsOfDestCompJump |
| assembler.js:85-92 | the computation table has 6 of the 28 Hack mnemonics, so a missing one is encoded as an empty string | `D=D+A`: a 9-character word | the full table of 28 codes | high, not executed | Code.IncompleteCompTableGivesShortWord | Code.CompCodesComputeMnemonics |
| assembler.js:54 | `R6` is bound to 5 | `@R6` addresses RAM 5, the same word as `@R5` | `R6` is RAM 6, like every other `Rk` | high, not executed | SymbolTables.PreDefinedAsWrittenBindsR6To5 | SymbolTables.PreDefinedAddresses |
