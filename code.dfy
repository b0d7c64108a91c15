/** `Code`: the three mnemonic tables of the Hack C-instruction and the rule
    that composes a C-instruction word from them. An absent destination or
    jump is the explicit key `None` (JavaScript's `null` key). */
module Code {
  import opened Wrappers
  import opened Numerals
  import opened HackAlu

  const DestTable: map<Option<string>, string> := map[
    None := "000", Some("M") := "001", Some("D") := "010", Some("MD") := "011",
    Some("A") := "100", Some("AM") := "101", Some("AD") := "110", Some("AMD") := "111"
  ]

  const JumpTable: map<Option<string>, string> := map[
    None := "000", Some("JGT") := "001", Some("JEQ") := "010", Some("JGE") := "011",
    Some("JLT") := "100", Some("JNE") := "101", Some("JLE") := "110", Some("JMP") := "111"
  ]

  /** The computation table as the source has it: six of the 28 mnemonics. */
  const CompTableAsWritten: map<string, string> := map[
    "M" := "1110000", "D" := "0001100", "-D" := "0001111",
    "D-M" := "1010011", "D+1" := "0011111", "0" := "0101010"
  ]

  /** The complete computation table of the Hack architecture: the `a` bit
      (A or M as second operand) followed by the six ALU control bits. */
  const CompTable: map<string, string> := map[
    "0" := "0101010", "1" := "0111111", "-1" := "0111010",
    "D" := "0001100", "A" := "0110000", "!D" := "0001101", "!A" := "0110001",
    "-D" := "0001111", "-A" := "0110011", "D+1" := "0011111", "A+1" := "0110111",
    "D-1" := "0001110", "A-1" := "0110010", "D+A" := "0000010", "D-A" := "0010011",
    "A-D" := "0000111", "D&A" := "0000000", "D|A" := "0010101",
    "M" := "1110000", "!M" := "1110001", "-M" := "1110011", "M+1" := "1110111",
    "M-1" := "1110010", "D+M" := "1000010", "D-M" := "1010011", "M-D" := "1000111",
    "D&M" := "1000000", "D|M" := "1010101"
  ]

  function Dest(mnemonic: Option<string>): (r: Option<string>)
    ensures r.Some? <==> mnemonic in DestTable
    ensures r.Some? ==> |r.value| == 3 && IsBits(r.value)
  {
    if mnemonic in DestTable then Some(DestTable[mnemonic]) else None
  }

  function Comp(mnemonic: string): (r: Option<string>)
    ensures r.Some? <==> mnemonic in CompTable
    ensures r.Some? ==> |r.value| == 7 && IsBits(r.value)
  {
    if mnemonic in CompTable then Some(CompTable[mnemonic]) else None
  }

  function Jmp(mnemonic: Option<string>): (r: Option<string>)
    ensures r.Some? <==> mnemonic in JumpTable
    ensures r.Some? ==> |r.value| == 3 && IsBits(r.value)
  {
    if mnemonic in JumpTable then Some(JumpTable[mnemonic]) else None
  }

  /** The C-instruction word: `111`, then the computation, destination and jump
      codes. It exists exactly when all three mnemonics are known, and then it
      is 16 bits with each code in its field. */
  function TranslateCCommand(comp: string, dest: Option<string>, jmp: Option<string>): (r: Option<string>)
    ensures r.Some? <==> comp in CompTable && dest in DestTable && jmp in JumpTable
    ensures r.Some? ==> |r.value| == 16 && IsBits(r.value) && r.value[..3] == "111"
    ensures r.Some? ==> r.value[3..10] == CompTable[comp]
    ensures r.Some? ==> r.value[10..13] == DestTable[dest] && r.value[13..] == JumpTable[jmp]
  {
    match (Comp(comp), Dest(dest), Jmp(jmp))
    case (Some(c), Some(d), Some(j)) => Some("111" + c + d + j)
    case _ => None
  }

  /** `translateCCommand` as written: a mnemonic missing from its table looks up
      `undefined`, which `Array.prototype.join` turns into the empty string. */
  function TranslateCCommandAsWritten(comp: string, dest: Option<string>, jmp: Option<string>): string
  {
    "111"
    + (if comp in CompTableAsWritten then CompTableAsWritten[comp] else "")
    + (if dest in DestTable then DestTable[dest] else "")
    + (if jmp in JumpTable then JumpTable[jmp] else "")
  }

  /** The source's table lacks `D+A`, so `D=D+A` assembles to a 9-character
      word; the complete table encodes it as a 16-bit word. */
  lemma IncompleteCompTableGivesShortWord()
    ensures |TranslateCCommandAsWritten("D+A", Some("D"), None)| == 9
    ensures TranslateCCommand("D+A", Some("D"), None) == Some("1110000010010000")
  {
    assert Comp("D+A") == Some("0000010") && Dest(Some("D")) == Some("010") && Jmp(None) == Some("000");
    assert "111" + "0000010" + "010" + "000" == "1110000010010000";
  }

  /** The complete table keeps each of the source's six codes. */
  lemma CompTableExtendsAsWritten()
    ensures forall m :: m in CompTableAsWritten ==> m in CompTable && CompTable[m] == CompTableAsWritten[m]
  {
  }

  /** Each destination bit flags one register: the first A, the second D and
      the third M; no destination writes none of them. */
  lemma DestBitsFlagRegisters(dest: Option<string>)
    requires dest in DestTable
    ensures var code := DestTable[dest]; var regs := if dest.Some? then dest.value else "";
      && (code[0] == '1' <==> 'A' in regs)
      && (code[1] == '1' <==> 'D' in regs)
      && (code[2] == '1' <==> 'M' in regs)
  {
  }

  /** When a jump mnemonic transfers control, as a function of the ALU output. */
  predicate JumpTaken(jmp: Option<string>, out: int)
  {
    match jmp
    case None => false
    case Some(m) =>
      (m == "JGT" && out > 0) || (m == "JEQ" && out == 0) || (m == "JGE" && out >= 0) ||
      (m == "JLT" && out < 0) || (m == "JNE" && out != 0) || (m == "JLE" && out <= 0) ||
      m == "JMP"
  }

  /** Each jump bit enables one outcome of the comparison with zero: the first
      "negative", the second "zero", the third "positive". */
  lemma JumpBitsSelectOutcomes(jmp: Option<string>, out: int)
    requires jmp in JumpTable
    ensures var code := JumpTable[jmp];
      JumpTaken(jmp, out) <==>
        (out < 0 && code[0] == '1') || (out == 0 && code[1] == '1') || (out > 0 && code[2] == '1')
  {
  }

  /** What a computation code makes the CPU compute from D, A and M: the `a`
      bit picks A or M as the ALU's second operand, the other six drive the ALU. */
  function Execute(code: string, d: Word, a: Word, m: Word): Word
    requires |code| == 7
  {
    Alu(code[1] == '1', code[2] == '1', code[3] == '1', code[4] == '1', code[5] == '1', code[6] == '1',
        d, if code[0] == '1' then m else a)
  }

  /** What each computation mnemonic means, on 16-bit two's-complement words. */
  function CompMeaning(mnemonic: string, d: Word, a: Word, m: Word): Option<Word>
  {
    match mnemonic
    case "0" => Some(0)
    case "1" => Some(1)
    case "-1" => Some(Sub(0, 1))
    case "D" => Some(d)
    case "A" => Some(a)
    case "M" => Some(m)
    case "!D" => Some(Not(d))
    case "!A" => Some(Not(a))
    case "!M" => Some(Not(m))
    case "-D" => Some(Sub(0, d))
    case "-A" => Some(Sub(0, a))
    case "-M" => Some(Sub(0, m))
    case "D+1" => Some(Add(d, 1))
    case "A+1" => Some(Add(a, 1))
    case "M+1" => Some(Add(m, 1))
    case "D-1" => Some(Sub(d, 1))
    case "A-1" => Some(Sub(a, 1))
    case "M-1" => Some(Sub(m, 1))
    case "D+A" => Some(Add(d, a))
    case "D+M" => Some(Add(d, m))
    case "D-A" => Some(Sub(d, a))
    case "D-M" => Some(Sub(d, m))
    case "A-D" => Some(Sub(a, d))
    case "M-D" => Some(Sub(m, d))
    case "D&A" => Some(And(d, a))
    case "D&M" => Some(And(d, m))
    case "D|A" => Some(Or(d, a))
    case "D|M" => Some(Or(d, m))
    case _ => None
  }

  /** The table is the architecture's: every code in it makes the ALU compute
      what its mnemonic says, and it holds every mnemonic that has a meaning. */
  lemma CompCodesComputeMnemonics(mnemonic: string, d: Word, a: Word, m: Word)
    ensures mnemonic in CompTable <==> CompMeaning(mnemonic, d, a, m).Some?
    ensures mnemonic in CompTable ==>
      |CompTable[mnemonic]| == 7 && Execute(CompTable[mnemonic], d, a, m) == CompMeaning(mnemonic, d, a, m).value
  {
    if mnemonic == "0" {
      ComputesZero(mnemonic, d, a, m);
    } else if mnemonic == "1" {
      ComputesOne(mnemonic, d, a, m);
    } else if mnemonic == "-1" {
      ComputesMinusOne(mnemonic, d, a, m);
    } else if mnemonic == "D" {
      ComputesD(mnemonic, d, a, m);
    } else if mnemonic == "A" {
      ComputesA(mnemonic, d, a, m);
    } else if mnemonic == "M" {
      ComputesM(mnemonic, d, a, m);
    } else if mnemonic == "!D" {
      ComputesNotD(mnemonic, d, a, m);
    } else if mnemonic == "!A" {
      ComputesNotA(mnemonic, d, a, m);
    } else if mnemonic == "!M" {
      ComputesNotM(mnemonic, d, a, m);
    } else if mnemonic == "-D" {
      ComputesNegD(mnemonic, d, a, m);
    } else if mnemonic == "-A" {
      ComputesNegA(mnemonic, d, a, m);
    } else if mnemonic == "-M" {
      ComputesNegM(mnemonic, d, a, m);
    } else if mnemonic == "D+1" {
      ComputesIncD(mnemonic, d, a, m);
    } else if mnemonic == "A+1" {
      ComputesIncA(mnemonic, d, a, m);
    } else if mnemonic == "M+1" {
      ComputesIncM(mnemonic, d, a, m);
    } else if mnemonic == "D-1" {
      ComputesDecD(mnemonic, d, a, m);
    } else if mnemonic == "A-1" {
      ComputesDecA(mnemonic, d, a, m);
    } else if mnemonic == "M-1" {
      ComputesDecM(mnemonic, d, a, m);
    } else if mnemonic == "D+A" {
      ComputesDPlusA(mnemonic, d, a, m);
    } else if mnemonic == "D+M" {
      ComputesDPlusM(mnemonic, d, a, m);
    } else if mnemonic == "D-A" {
      ComputesDMinusA(mnemonic, d, a, m);
    } else if mnemonic == "D-M" {
      ComputesDMinusM(mnemonic, d, a, m);
    } else if mnemonic == "A-D" {
      ComputesAMinusD(mnemonic, d, a, m);
    } else if mnemonic == "M-D" {
      ComputesMMinusD(mnemonic, d, a, m);
    } else if mnemonic == "D&A" {
      ComputesDAndA(mnemonic, d, a, m);
    } else if mnemonic == "D&M" {
      ComputesDAndM(mnemonic, d, a, m);
    } else if mnemonic == "D|A" {
      ComputesDOrA(mnemonic, d, a, m);
    } else if mnemonic == "D|M" {
      ComputesDOrM(mnemonic, d, a, m);
    }
  }

  /** The code of `0`. */
  lemma ComputesZero(mnemonic: string, d: Word, a: Word, m: Word)
    requires mnemonic == "0"
    ensures mnemonic in CompTable && |CompTable[mnemonic]| == 7
    ensures CompMeaning(mnemonic, d, a, m) == Some(0)
    ensures Execute(CompTable[mnemonic], d, a, m) == 0
  {
    assert CompTable["0"] == "0101010";
  }

  /** The code of `1`. */
  lemma ComputesOne(mnemonic: string, d: Word, a: Word, m: Word)
    requires mnemonic == "1"
    ensures mnemonic in CompTable && |CompTable[mnemonic]| == 7
    ensures CompMeaning(mnemonic, d, a, m) == Some(1)
    ensures Execute(CompTable[mnemonic], d, a, m) == 1
  {
    assert CompTable["1"] == "0111111";
  }

  /** The code of `-1`. */
  lemma ComputesMinusOne(mnemonic: string, d: Word, a: Word, m: Word)
    requires mnemonic == "-1"
    ensures mnemonic in CompTable && |CompTable[mnemonic]| == 7
    ensures CompMeaning(mnemonic, d, a, m) == Some(Sub(0, 1))
    ensures Execute(CompTable[mnemonic], d, a, m) == Sub(0, 1)
  {
    assert CompTable["-1"] == "0111010";
  }

  /** The code of `D`. */
  lemma ComputesD(mnemonic: string, d: Word, a: Word, m: Word)
    requires mnemonic == "D"
    ensures mnemonic in CompTable && |CompTable[mnemonic]| == 7
    ensures CompMeaning(mnemonic, d, a, m) == Some(d)
    ensures Execute(CompTable[mnemonic], d, a, m) == d
  {
    assert CompTable["D"] == "0001100";
    AndWithOnes(d);
  }

  /** The code of `A`. */
  lemma ComputesA(mnemonic: string, d: Word, a: Word, m: Word)
    requires mnemonic == "A"
    ensures mnemonic in CompTable && |CompTable[mnemonic]| == 7
    ensures CompMeaning(mnemonic, d, a, m) == Some(a)
    ensures Execute(CompTable[mnemonic], d, a, m) == a
  {
    assert CompTable["A"] == "0110000";
    AndWithOnes(a);
  }

  /** The code of `M`. */
  lemma ComputesM(mnemonic: string, d: Word, a: Word, m: Word)
    requires mnemonic == "M"
    ensures mnemonic in CompTable && |CompTable[mnemonic]| == 7
    ensures CompMeaning(mnemonic, d, a, m) == Some(m)
    ensures Execute(CompTable[mnemonic], d, a, m) == m
  {
    assert CompTable["M"] == "1110000";
    AndWithOnes(m);
  }

  /** The code of `!D`. */
  lemma ComputesNotD(mnemonic: string, d: Word, a: Word, m: Word)
    requires mnemonic == "!D"
    ensures mnemonic in CompTable && |CompTable[mnemonic]| == 7
    ensures CompMeaning(mnemonic, d, a, m) == Some(Not(d))
    ensures Execute(CompTable[mnemonic], d, a, m) == Not(d)
  {
    assert CompTable["!D"] == "0001101";
    AndWithOnes(d);
  }

  /** The code of `!A`. */
  lemma ComputesNotA(mnemonic: string, d: Word, a: Word, m: Word)
    requires mnemonic == "!A"
    ensures mnemonic in CompTable && |CompTable[mnemonic]| == 7
    ensures CompMeaning(mnemonic, d, a, m) == Some(Not(a))
    ensures Execute(CompTable[mnemonic], d, a, m) == Not(a)
  {
    assert CompTable["!A"] == "0110001";
    AndWithOnes(a);
  }

  /** The code of `!M`. */
  lemma ComputesNotM(mnemonic: string, d: Word, a: Word, m: Word)
    requires mnemonic == "!M"
    ensures mnemonic in CompTable && |CompTable[mnemonic]| == 7
    ensures CompMeaning(mnemonic, d, a, m) == Some(Not(m))
    ensures Execute(CompTable[mnemonic], d, a, m) == Not(m)
  {
    assert CompTable["!M"] == "1110001";
    AndWithOnes(m);
  }

  /** The code of `-D`. */
  lemma ComputesNegD(mnemonic: string, d: Word, a: Word, m: Word)
    requires mnemonic == "-D"
    ensures mnemonic in CompTable && |CompTable[mnemonic]| == 7
    ensures CompMeaning(mnemonic, d, a, m) == Some(Sub(0, d))
    ensures Execute(CompTable[mnemonic], d, a, m) == Sub(0, d)
  {
    assert CompTable["-D"] == "0001111";
  }

  /** The code of `-A`. */
  lemma ComputesNegA(mnemonic: string, d: Word, a: Word, m: Word)
    requires mnemonic == "-A"
    ensures mnemonic in CompTable && |CompTable[mnemonic]| == 7
    ensures CompMeaning(mnemonic, d, a, m) == Some(Sub(0, a))
    ensures Execute(CompTable[mnemonic], d, a, m) == Sub(0, a)
  {
    assert CompTable["-A"] == "0110011";
  }

  /** The code of `-M`. */
  lemma ComputesNegM(mnemonic: string, d: Word, a: Word, m: Word)
    requires mnemonic == "-M"
    ensures mnemonic in CompTable && |CompTable[mnemonic]| == 7
    ensures CompMeaning(mnemonic, d, a, m) == Some(Sub(0, m))
    ensures Execute(CompTable[mnemonic], d, a, m) == Sub(0, m)
  {
    assert CompTable["-M"] == "1110011";
  }

  /** The code of `D+1`. */
  lemma ComputesIncD(mnemonic: string, d: Word, a: Word, m: Word)
    requires mnemonic == "D+1"
    ensures mnemonic in CompTable && |CompTable[mnemonic]| == 7
    ensures CompMeaning(mnemonic, d, a, m) == Some(Add(d, 1))
    ensures Execute(CompTable[mnemonic], d, a, m) == Add(d, 1)
  {
    assert CompTable["D+1"] == "0011111";
  }

  /** The code of `A+1`. */
  lemma ComputesIncA(mnemonic: string, d: Word, a: Word, m: Word)
    requires mnemonic == "A+1"
    ensures mnemonic in CompTable && |CompTable[mnemonic]| == 7
    ensures CompMeaning(mnemonic, d, a, m) == Some(Add(a, 1))
    ensures Execute(CompTable[mnemonic], d, a, m) == Add(a, 1)
  {
    assert CompTable["A+1"] == "0110111";
  }

  /** The code of `M+1`. */
  lemma ComputesIncM(mnemonic: string, d: Word, a: Word, m: Word)
    requires mnemonic == "M+1"
    ensures mnemonic in CompTable && |CompTable[mnemonic]| == 7
    ensures CompMeaning(mnemonic, d, a, m) == Some(Add(m, 1))
    ensures Execute(CompTable[mnemonic], d, a, m) == Add(m, 1)
  {
    assert CompTable["M+1"] == "1110111";
  }

  /** The code of `D-1`. */
  lemma ComputesDecD(mnemonic: string, d: Word, a: Word, m: Word)
    requires mnemonic == "D-1"
    ensures mnemonic in CompTable && |CompTable[mnemonic]| == 7
    ensures CompMeaning(mnemonic, d, a, m) == Some(Sub(d, 1))
    ensures Execute(CompTable[mnemonic], d, a, m) == Sub(d, 1)
  {
    assert CompTable["D-1"] == "0001110";
  }

  /** The code of `A-1`. */
  lemma ComputesDecA(mnemonic: string, d: Word, a: Word, m: Word)
    requires mnemonic == "A-1"
    ensures mnemonic in CompTable && |CompTable[mnemonic]| == 7
    ensures CompMeaning(mnemonic, d, a, m) == Some(Sub(a, 1))
    ensures Execute(CompTable[mnemonic], d, a, m) == Sub(a, 1)
  {
    assert CompTable["A-1"] == "0110010";
  }

  /** The code of `M-1`. */
  lemma ComputesDecM(mnemonic: string, d: Word, a: Word, m: Word)
    requires mnemonic == "M-1"
    ensures mnemonic in CompTable && |CompTable[mnemonic]| == 7
    ensures CompMeaning(mnemonic, d, a, m) == Some(Sub(m, 1))
    ensures Execute(CompTable[mnemonic], d, a, m) == Sub(m, 1)
  {
    assert CompTable["M-1"] == "1110010";
  }

  /** The code of `D+A`. */
  lemma ComputesDPlusA(mnemonic: string, d: Word, a: Word, m: Word)
    requires mnemonic == "D+A"
    ensures mnemonic in CompTable && |CompTable[mnemonic]| == 7
    ensures CompMeaning(mnemonic, d, a, m) == Some(Add(d, a))
    ensures Execute(CompTable[mnemonic], d, a, m) == Add(d, a)
  {
    assert CompTable["D+A"] == "0000010";
  }

  /** The code of `D+M`. */
  lemma ComputesDPlusM(mnemonic: string, d: Word, a: Word, m: Word)
    requires mnemonic == "D+M"
    ensures mnemonic in CompTable && |CompTable[mnemonic]| == 7
    ensures CompMeaning(mnemonic, d, a, m) == Some(Add(d, m))
    ensures Execute(CompTable[mnemonic], d, a, m) == Add(d, m)
  {
    assert CompTable["D+M"] == "1000010";
  }

  /** The code of `D-A`. */
  lemma ComputesDMinusA(mnemonic: string, d: Word, a: Word, m: Word)
    requires mnemonic == "D-A"
    ensures mnemonic in CompTable && |CompTable[mnemonic]| == 7
    ensures CompMeaning(mnemonic, d, a, m) == Some(Sub(d, a))
    ensures Execute(CompTable[mnemonic], d, a, m) == Sub(d, a)
  {
    assert CompTable["D-A"] == "0010011";
  }

  /** The code of `D-M`. */
  lemma ComputesDMinusM(mnemonic: string, d: Word, a: Word, m: Word)
    requires mnemonic == "D-M"
    ensures mnemonic in CompTable && |CompTable[mnemonic]| == 7
    ensures CompMeaning(mnemonic, d, a, m) == Some(Sub(d, m))
    ensures Execute(CompTable[mnemonic], d, a, m) == Sub(d, m)
  {
    assert CompTable["D-M"] == "1010011";
  }

  /** The code of `A-D`. */
  lemma ComputesAMinusD(mnemonic: string, d: Word, a: Word, m: Word)
    requires mnemonic == "A-D"
    ensures mnemonic in CompTable && |CompTable[mnemonic]| == 7
    ensures CompMeaning(mnemonic, d, a, m) == Some(Sub(a, d))
    ensures Execute(CompTable[mnemonic], d, a, m) == Sub(a, d)
  {
    assert CompTable["A-D"] == "0000111";
  }

  /** The code of `M-D`. */
  lemma ComputesMMinusD(mnemonic: string, d: Word, a: Word, m: Word)
    requires mnemonic == "M-D"
    ensures mnemonic in CompTable && |CompTable[mnemonic]| == 7
    ensures CompMeaning(mnemonic, d, a, m) == Some(Sub(m, d))
    ensures Execute(CompTable[mnemonic], d, a, m) == Sub(m, d)
  {
    assert CompTable["M-D"] == "1000111";
  }

  /** The code of `D&A`. */
  lemma ComputesDAndA(mnemonic: string, d: Word, a: Word, m: Word)
    requires mnemonic == "D&A"
    ensures mnemonic in CompTable && |CompTable[mnemonic]| == 7
    ensures CompMeaning(mnemonic, d, a, m) == Some(And(d, a))
    ensures Execute(CompTable[mnemonic], d, a, m) == And(d, a)
  {
    assert CompTable["D&A"] == "0000000";
    Pow2Word();
  }

  /** The code of `D&M`. */
  lemma ComputesDAndM(mnemonic: string, d: Word, a: Word, m: Word)
    requires mnemonic == "D&M"
    ensures mnemonic in CompTable && |CompTable[mnemonic]| == 7
    ensures CompMeaning(mnemonic, d, a, m) == Some(And(d, m))
    ensures Execute(CompTable[mnemonic], d, a, m) == And(d, m)
  {
    assert CompTable["D&M"] == "1000000";
    Pow2Word();
  }

  /** The code of `D|A`. */
  lemma ComputesDOrA(mnemonic: string, d: Word, a: Word, m: Word)
    requires mnemonic == "D|A"
    ensures mnemonic in CompTable && |CompTable[mnemonic]| == 7
    ensures CompMeaning(mnemonic, d, a, m) == Some(Or(d, a))
    ensures Execute(CompTable[mnemonic], d, a, m) == Or(d, a)
  {
    assert CompTable["D|A"] == "0010101";
    Pow2Word();
    OrByDeMorgan(d, a);
  }

  /** The code of `D|M`. */
  lemma ComputesDOrM(mnemonic: string, d: Word, a: Word, m: Word)
    requires mnemonic == "D|M"
    ensures mnemonic in CompTable && |CompTable[mnemonic]| == 7
    ensures CompMeaning(mnemonic, d, a, m) == Some(Or(d, m))
    ensures Execute(CompTable[mnemonic], d, a, m) == Or(d, m)
  {
    assert CompTable["D|M"] == "1010101";
    Pow2Word();
    OrByDeMorgan(d, m);
  }
}
