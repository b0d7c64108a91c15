/** What the parser does to one source line: clean it (`currentCommand`),
    classify it (`commandType`) and take its fields apart (`label_symbol`, the
    address read by `var_symbol`, `fields`). All of them are pure functions of
    the line. */
module Commands {
  import opened Wrappers
  import opened Text

  datatype CommandType = ACommand | CCommand | LCommand | Comment

  /** The three mnemonic fields of a C-command; an absent destination or jump
      is `None`, JavaScript's `null`. */
  datatype CFields = CFields(dest: Option<string>, comp: string, jump: Option<string>)

  /** `currentCommand`: trim the line, cut an inline `//` comment (one that does
      not start the line) and trim again. */
  function CurrentCommand(line: string): string
  {
    var t := Trim(line);
    match IndexOf(t, "//")
    case None => t
    case Some(i) => if i == 0 then t else Trim(t[..i])
  }

  /** The command is trimmed, and it is either a whole-line comment or free of
      `//`. */
  lemma CurrentCommandIsClean(line: string)
    ensures var r := CurrentCommand(line);
      IsTrimmed(r) && (StartsWith(r, "//") || IndexOf(r, "//").None?)
  {
    var t := Trim(line);
    TrimIsTrimmed(line);
    match IndexOf(t, "//")
    case None =>
    case Some(i) =>
      TrimIsTrimmed(t[..i]);
      if i == 0 {
        assert t[..2] == "//";
      } else {
        NoOccurrenceBefore(t, "//", i);
        TrimIsSlice(t[..i]);
        NoOccurrenceInSlice(t[..i], "//", |t[..i]| - |TrimStart(t[..i])|, |t[..i]| - |TrimStart(t[..i])| + |Trim(t[..i])|);
      }
  }

  /** The part of `s` before the first occurrence of `p` holds no occurrence. */
  lemma NoOccurrenceBefore(s: string, p: string, i: nat)
    requires p != [] && IndexOf(s, p) == Some(i)
    ensures IndexOf(s[..i], p).None?
  {
    forall j | 0 <= j <= i && OccursAt(s[..i], p, j) ensures false {
      assert s[..i][j..j + |p|] == s[j..j + |p|];
      assert OccursAt(s, p, j);
    }
  }

  /** A piece of a string without occurrences of `p` has none either. */
  lemma NoOccurrenceInSlice(s: string, p: string, a: nat, b: nat)
    requires a <= b <= |s|
    requires IndexOf(s, p).None?
    ensures IndexOf(s[a..b], p).None?
  {
    var r := IndexOf(s[a..b], p);
    if r.Some? {
      var j := r.value;
      var u := s[a..b];
      forall m | 0 <= m < |p| ensures s[a + j + m] == p[m] {
        assert u[j..j + |p|][m] == u[j + m];
        assert u[j + m] == s[a + j + m];
      }
      assert s[a + j..a + j + |p|] == p;
      assert OccursAt(s, p, a + j);
    }
  }

  /** `Trim(s)` is the piece of `s` that starts where the leading blanks end. */
  lemma TrimIsSlice(s: string)
    ensures var k := |s| - |TrimStart(s)|;
      k + |Trim(s)| <= |s| && Trim(s) == s[k..k + |Trim(s)|]
  {
    TrimStartDrops(s);
    TrimEndDrops(TrimStart(s));
  }

  /** Cleaning a clean command changes nothing. */
  lemma CurrentCommandIdempotent(line: string)
    ensures CurrentCommand(CurrentCommand(line)) == CurrentCommand(line)
  {
    var r := CurrentCommand(line);
    CurrentCommandIsClean(line);
    TrimTrimmed(r);
    if StartsWith(r, "//") {
      assert OccursAt(r, "//", 0);
    }
  }

  /** A line without surrounding blanks and without `//` is its own command. */
  lemma CurrentCommandOfPlainLine(line: string)
    requires IsTrimmed(line) && IndexOf(line, "//").None?
    ensures CurrentCommand(line) == line
  {
    TrimTrimmed(line);
  }

  /** An inline comment after a command, with or without blanks before it, is
      cut off together with those blanks. */
  lemma InlineCommentStripped(code: string, gap: string, comment: string)
    requires code != [] && IsTrimmed(code) && IndexOf(code, "//").None?
    requires code[|code| - 1] != '/' && AllSpace(gap)
    ensures CurrentCommand(code + gap + "//" + comment) == code
  {
    var line := code + gap + "//" + comment;
    var k := |code| + |gap|;
    assert line[0] == code[0];
    assert TrimStart(line) == line;
    assert line[k + 1] == '/';
    TrimEndKeeps(line, k + 1);
    TrimEndDrops(line);
    var t := Trim(line);
    assert t == line[..|t|] && |t| > k + 1;
    assert OccursAt(t, "//", k) by {
      assert t[k..k + 2] == line[k..k + 2] == "//";
    }
    forall j | 0 <= j < k && OccursAt(t, "//", j) ensures false {
      assert t[j] == '/' && t[j + 1] == '/' by {
        assert t[j..j + 2][0] == t[j] && t[j..j + 2][1] == t[j + 1];
      }
      if j + 1 < |code| {
        assert code[j..j + 2] == t[j..j + 2];
        assert OccursAt(code, "//", j);
      }
    }
    assert IndexOf(t, "//") == Some(k) by {
      var r := IndexOf(t, "//");
    }
    assert t[..k] == code + gap;
    TrimEndSpaces(code, gap);
    assert TrimStart(code + gap) == code + gap by {
      assert (code + gap)[0] == code[0];
    }
  }

  /** `TrimEnd` keeps every character up to a non-blank one. */
  lemma {:induction false} TrimEndKeeps(s: string, k: nat)
    requires k < |s| && !IsSpace(s[k])
    ensures |TrimEnd(s)| > k
  {
    if IsSpace(s[|s| - 1]) {
      TrimEndKeeps(s[..|s| - 1], k);
    }
  }

  /** Trailing blanks after a command that does not end in a blank are exactly
      what `TrimEnd` removes. */
  lemma {:induction false} TrimEndSpaces(code: string, gap: string)
    requires code != [] && !IsSpace(code[|code| - 1]) && AllSpace(gap)
    ensures TrimEnd(code + gap) == code
  {
    if gap == [] {
      assert code + gap == code;
    } else {
      assert (code + gap)[..|code + gap| - 1] == code + gap[..|gap| - 1];
      TrimEndSpaces(code, gap[..|gap| - 1]);
    }
  }

  /** `commandType`: classification by the first characters alone. */
  function CommandTypeOf(command: string): CommandType
  {
    if StartsWith(command, "@") then ACommand
    else if StartsWith(command, "(") then LCommand
    else if StartsWith(command, "//") then Comment
    else CCommand
  }

  /** `label_symbol`: `slice(1, -1)`, the text between the first and the last
      character. */
  function LabelSymbol(command: string): string
  {
    if |command| >= 2 then command[1..|command| - 1] else []
  }

  /** The reference `var_symbol` reads: `slice(1)`, everything after the `@`. */
  function AddressSymbol(command: string): string
  {
    if |command| >= 1 then command[1..] else []
  }

  /** `fields`, with the full form `dest=comp;jump` split as evidently intended:
      the destination before the first `=`, the computation between it and the
      first `;`, the jump after that. Without `=` there is no destination and
      the command splits on `;`; with `=` but no `;` there is no jump and it
      splits on `=`. */
  function Fields(command: string): CFields
  {
    match IndexOf(command, "=")
    case None =>
      var parts := Split(command, ';');
      CFields(None, parts[0], if |parts| > 1 then Some(parts[1]) else None)
    case Some(eq) =>
      match IndexOf(command, ";")
      case None =>
        var parts := Split(command, '=');
        CFields(Some(parts[0]), if |parts| > 1 then parts[1] else [], None)
      case Some(sc) =>
        var jump := Split(command, ';');
        CFields(Some(Split(command, '=')[0]), Slice(command, eq + 1, sc), if |jump| > 1 then Some(jump[1]) else None)
  }

  /** `fields` as written: in the full form it assigns the undeclared names
      `comp`, `dest` and `jmpt`, which throws in the strict-mode code of a
      class body; `None` stands for that exception. */
  function FieldsAsWritten(command: string): Option<CFields>
  {
    match IndexOf(command, "=")
    case None =>
      var parts := Split(command, ';');
      Some(CFields(None, parts[0], if |parts| > 1 then Some(parts[1]) else None))
    case Some(_) =>
      match IndexOf(command, ";")
      case None =>
        var parts := Split(command, '=');
        Some(CFields(Some(parts[0]), if |parts| > 1 then parts[1] else [], None))
      case Some(_) => None
  }

  /** The written `fields` fails exactly on the commands that have both a
      destination and a jump, and agrees with the intended split elsewhere. */
  lemma FieldsAsWrittenFailsOnFullForm(command: string)
    ensures FieldsAsWritten(command).None? <==> '=' in command && ';' in command
    ensures FieldsAsWritten(command).Some? ==> FieldsAsWritten(command).value == Fields(command)
  {
    IndexOfChar(command, '=');
    IndexOfChar(command, ';');
  }

  /** A character that may appear inside a symbol or a mnemonic: no blank and
      none of the characters that carry meaning in a line (`/ = ; @ ( )`). */
  predicate IsFieldChar(c: char)
  {
    !IsSpace(c) && c != '/' && c != '=' && c != ';' && c != '@' && c != '(' && c != ')'
  }

  predicate IsField(s: string)
  {
    forall c :: c in s ==> IsFieldChar(c)
  }

  /** One instruction of an assembly program, before it is written as text. */
  datatype Instruction =
    | AInstruction(symbol: string)
    | LInstruction(name: string)
    | CInstruction(dest: Option<string>, comp: string, jump: Option<string>)

  predicate WellFormed(i: Instruction)
  {
    match i
    case AInstruction(s) => IsField(s)
    case LInstruction(l) => IsField(l)
    case CInstruction(d, c, j) => (d.Some? ==> IsField(d.value)) && IsField(c) && (j.Some? ==> IsField(j.value))
  }

  /** The source text of an instruction: `@x`, `(x)` or `dest=comp;jump`. */
  function Render(i: Instruction): string
  {
    match i
    case AInstruction(s) => "@" + s
    case LInstruction(l) => "(" + l + ")"
    case CInstruction(d, c, j) =>
      (if d.Some? then d.value + "=" else "") + c + (if j.Some? then ";" + j.value else "")
  }

  /** Text without blanks and without `/` is a command as it stands. */
  lemma PlainTextIsCommand(s: string)
    requires forall c :: c in s ==> !IsSpace(c) && c != '/'
    ensures CurrentCommand(s) == s
  {
    if s != [] {
      assert s[0] in s && s[|s| - 1] in s;
    }
    assert IsTrimmed(s);
    forall i | 0 <= i < |s| ensures s[i] != '/' {
      assert s[i] in s;
    }
    assert IndexOf(s, "//").None?;
    CurrentCommandOfPlainLine(s);
  }

  /** The position of the first `c` in a string that holds no `c` before `i`. */
  lemma IndexOfFirst(s: string, c: char, i: nat)
    requires i < |s| && s[i] == c && c !in s[..i]
    ensures IndexOf(s, [c]) == Some(i)
  {
    IndexOfChar(s, c);
  }

  /** The parser reads back every well-formed instruction it is given: cleaning
      leaves its text alone, the classification names its kind, and the symbol,
      the label or the three fields come back unchanged. */
  lemma ParseRender(i: Instruction)
    requires WellFormed(i)
    ensures CurrentCommand(Render(i)) == Render(i)
    ensures i.AInstruction? ==> CommandTypeOf(Render(i)) == ACommand && AddressSymbol(Render(i)) == i.symbol
    ensures i.LInstruction? ==> CommandTypeOf(Render(i)) == LCommand && LabelSymbol(Render(i)) == i.name
    ensures i.CInstruction? ==> CommandTypeOf(Render(i)) == CCommand && Fields(Render(i)) == CFields(i.dest, i.comp, i.jump)
  {
    match i
    case AInstruction(s) =>
      var r := Render(i);
      assert r[..1] == "@";
      PlainTextIsCommand(r);
    case LInstruction(l) =>
      var r := Render(i);
      assert r[..1] == "(";
      PlainTextIsCommand(r);
    case CInstruction(d, c, j) =>
      ParseRenderC(d, c, j);
  }

  lemma ParseRenderC(d: Option<string>, c: string, j: Option<string>)
    requires WellFormed(CInstruction(d, c, j))
    ensures var r := Render(CInstruction(d, c, j));
      CurrentCommand(r) == r && CommandTypeOf(r) == CCommand && Fields(r) == CFields(d, c, j)
  {
    var r := Render(CInstruction(d, c, j));
    RenderCIsPlain(d, c, j);
    PlainTextIsCommand(r);
    PlainTextIsCCommand(r);
    FieldsOfRenderC(d, c, j);
  }

  lemma FieldsOfRenderC(d: Option<string>, c: string, j: Option<string>)
    requires WellFormed(CInstruction(d, c, j))
    ensures Fields(Render(CInstruction(d, c, j))) == CFields(d, c, j)
  {
    var r := Render(CInstruction(d, c, j));
    if d.None? && j.None? {
      assert r == c;
      FieldsOfComp(c);
    } else if d.None? {
      assert r == c + ";" + j.value;
      FieldsOfCompJump(c, j.value);
    } else if j.None? {
      assert r == d.value + "=" + c;
      FieldsOfDestComp(d.value, c);
    } else {
      assert r == d.value + "=" + c + ";" + j.value;
      FieldsOfDestCompJump(d.value, c, j.value);
    }
  }

  lemma RenderCIsPlain(d: Option<string>, c: string, j: Option<string>)
    requires WellFormed(CInstruction(d, c, j))
    ensures forall x :: x in Render(CInstruction(d, c, j)) ==> !IsSpace(x) && x != '/' && x != '@' && x != '('
  {
    var front := if d.Some? then d.value + "=" else "";
    var back := if j.Some? then ";" + j.value else "";
    assert Render(CInstruction(d, c, j)) == front + c + back;
  }

  lemma PlainTextIsCCommand(r: string)
    requires forall x :: x in r ==> x != '/' && x != '@' && x != '('
    ensures CommandTypeOf(r) == CCommand
  {
    if r != [] {
      assert r[0] in r;
      assert r[..1] == [r[0]];
      if |r| >= 2 {
        assert r[..2][0] == r[0];
      }
    }
  }

  lemma FieldsOfComp(c: string)
    requires IsField(c)
    ensures Fields(c) == CFields(None, c, None)
  {
    assert '=' !in c && ';' !in c;
    IndexOfChar(c, '=');
    SplitNone(c, ';');
  }

  lemma FieldsOfCompJump(c: string, j: string)
    requires IsField(c) && IsField(j)
    ensures Fields(c + ";" + j) == CFields(None, c, Some(j))
  {
    var r := c + ";" + j;
    assert '=' !in c && ';' !in c && '=' !in j && ';' !in j;
    assert '=' !in r;
    IndexOfChar(r, '=');
    SplitAfter(c, ';', j);
    SplitNone(j, ';');
  }

  lemma FieldsOfDestComp(d: string, c: string)
    requires IsField(d) && IsField(c)
    ensures Fields(d + "=" + c) == CFields(Some(d), c, None)
  {
    var r := d + "=" + c;
    assert '=' !in d && ';' !in d && '=' !in c && ';' !in c;
    assert ';' !in r;
    IndexOfChar(r, ';');
    assert r[..|d|] == d;
    IndexOfFirst(r, '=', |d|);
    SplitAfter(d, '=', c);
    SplitNone(c, '=');
  }

  lemma FieldsOfDestCompJump(d: string, c: string, j: string)
    requires IsField(d) && IsField(c) && IsField(j)
    ensures Fields(d + "=" + c + ";" + j) == CFields(Some(d), c, Some(j))
  {
    var r := d + "=" + c + ";" + j;
    assert '=' !in d && ';' !in d && ';' !in c && ';' !in j;
    assert r == d + ['='] + (c + [';'] + j);
    assert r[..|d|] == d;
    IndexOfFirst(r, '=', |d|);
    var e := d + ['='] + c;
    assert r == e + [';'] + j;
    assert ';' !in e;
    assert r[..|e|] == e;
    IndexOfFirst(r, ';', |e|);
    SplitAfter(d, '=', c + [';'] + j);
    SplitAfter(e, ';', j);
    SplitNone(j, ';');
    assert r[|d| + 1..|e|] == c;
  }

  /** A source line as the passes see it: the cleaned command, classified,
      with the part of it that the pass for its kind reads. */
  datatype Line =
    | ALine(symbol: string)
    | LLine(name: string)
    | CLine(fields: CFields)
    | CommentLine

  /** What one iteration of either pass reads from a cleaned command: its
      `commandType`, and then `var_symbol`'s symbol, `label_symbol` or
      `fields` according to that type. */
  function Classify(command: string): Line
  {
    match CommandTypeOf(command)
    case ACommand => ALine(AddressSymbol(command))
    case LCommand => LLine(LabelSymbol(command))
    case CCommand => CLine(Fields(command))
    case Comment => CommentLine
  }

  /** A source line as the passes read it: cleaned by `currentCommand`, then
      classified. */
  function Parse(text: string): Line
  {
    Classify(CurrentCommand(text))
  }

  /** Each line of a program, parsed. */
  function ParseAll(texts: seq<string>): (lines: seq<Line>)
    ensures |lines| == |texts|
  {
    if texts == [] then [] else ParseAll(texts[..|texts| - 1]) + [Parse(texts[|texts| - 1])]
  }

  /** Line `k` of the parsed program is line `k` of the text, parsed. */
  lemma {:induction false} ParseAllAt(texts: seq<string>, k: nat)
    requires k < |texts|
    ensures ParseAll(texts)[k] == Parse(texts[k])
  {
    if k < |texts| - 1 {
      var init := texts[..|texts| - 1];
      ParseAllAt(init, k);
    }
  }

  /** Parsing a prefix of the text gives the same prefix of the parsed lines. */
  lemma ParseAllPrefix(texts: seq<string>, n: nat)
    requires n <= |texts|
    ensures ParseAll(texts)[..n] == ParseAll(texts[..n])
  {
    forall k | 0 <= k < n
      ensures ParseAll(texts)[k] == ParseAll(texts[..n])[k]
    {
      ParseAllAt(texts, k);
      ParseAllAt(texts[..n], k);
    }
  }

  /** Parsing a well-formed instruction's text gives back that instruction. */
  lemma ParseInstruction(i: Instruction)
    requires WellFormed(i)
    ensures Parse(Render(i)) == match i
      case AInstruction(s) => ALine(s)
      case LInstruction(l) => LLine(l)
      case CInstruction(d, c, j) => CLine(CFields(d, c, j))
  {
    ParseRender(i);
  }

  /** The command that the written `fields` cannot split, and what the
      intended split gives for it. */
  lemma FullFormFieldsThrowsAsWritten()
    ensures FieldsAsWritten("D=M;JGT").None?
    ensures Fields("D=M;JGT") == CFields(Some("D"), "M", Some("JGT"))
  {
    var i := CInstruction(Some("D"), "M", Some("JGT"));
    assert Render(i) == "D=M;JGT";
    ParseRender(i);
    FieldsAsWrittenFailsOnFullForm("D=M;JGT");
    assert "D=M;JGT"[1] == '=' && "D=M;JGT"[3] == ';';
  }
}
