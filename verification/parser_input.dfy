/** The line classifier and table look-ups of parserInput.c. */
module ParserInput {
  import opened CLib
  import opened StringExtension
  import opened Constants
  import opened Datatypes

  datatype LineType = BlankLine | CommentLine | OrderLine | CmdLine | InvalidLine

  /** isCommentLine: the first character that is not white space is ';'. */
  function IsCommentLine(line: string): (r: Boolean)
    ensures r == True <==> exists k :: 0 <= k < |line| && AllSpace(line[..k]) && line[k] == ';'
  {
    var t := SkipSpaces(line);
    var lead := |line| - |t|;
    if |t| > 0 && t[0] == ';' then
      assert line[lead] == ';';
      True
    else
      False
  }

  /** isDirectiveInArray: the first word of the trimmed line, or the second
      one when the first ends in ':', is one of `arr`. The line must not be
      blank: the source reads the last character of the first word, which a
      blank line does not have. */
  function IsDirectiveInArray(line: string, arr: seq<string>): (r: Boolean)
    requires IsEmptyLine(line) == False
  {
    var t := Trim(line);
    var first := StrSep(Some(t), {' '});
    var found := first.token.value;
    if found[|found| - 1] == ':' then
      var second := StrSep(first.rest, {' '});
      if second.token.None? then False else FindInArray(second.token.value, arr)
    else FindInArray(found, arr)
  }

  /** The directive names isOrderLine recognises, ".dd" included. */
  const OrderNames: seq<string> := [".dd", ".dw", ".db", ".dh", ".asciz", ".entry", ".extern"]

  function IsOrderLine(line: string): Boolean
    requires IsEmptyLine(line) == False
  {
    IsDirectiveInArray(line, OrderNames)
  }

  function IsCmdLine(line: string): Boolean
    requires IsEmptyLine(line) == False
  {
    IsDirectiveInArray(line, CommandsTable)
  }

  /** getLineType, written with C's `!` on the Boolean enumeration (whose
      `true` is 0): each `!isX(line)` test holds exactly when isX says true. */
  function GetLineType(line: string): (r: LineType)
    ensures r == BlankLine <==> IsEmptyLine(line) == True
    ensures r == CommentLine <==> IsEmptyLine(line) == False && IsCommentLine(line) == True
    ensures r == OrderLine <==>
      IsEmptyLine(line) == False && IsCommentLine(line) == False && IsOrderLine(line) == True
    ensures r == CmdLine <==>
      IsEmptyLine(line) == False && IsCommentLine(line) == False && IsOrderLine(line) == False
      && IsCmdLine(line) == True
  {
    if CNot(IsEmptyLine(line).Value()) != 0 then BlankLine
    else if CNot(IsCommentLine(line).Value()) != 0 then CommentLine
    else if CNot(IsOrderLine(line).Value()) != 0 then OrderLine
    else if CNot(IsCmdLine(line).Value()) != 0 then CmdLine
    else InvalidLine
  }

  /** The directive test on a trimmed line whose first cut is known. */
  lemma DirectiveOfCut(line: string, found: string, rest: Option<string>, arr: seq<string>)
    requires IsEmptyLine(line) == False && Trim(line) == line
    requires StrSep(Some(line), {' '}) == Sep(Some(found), rest)
    requires |found| > 0
    ensures found[|found| - 1] == ':' ==>
      var second := StrSep(rest, {' '});
      (IsDirectiveInArray(line, arr) == True <==> second.token.Some? && second.token.value in arr)
    ensures found[|found| - 1] != ':' ==> (IsDirectiveInArray(line, arr) == True <==> found in arr)
  {
    var first := StrSep(Some(Trim(line)), {' '});
    assert first.token.value == found;
    assert first.rest == rest;
  }

  lemma DirectiveWithLabel(lbl: string, cmd: string, params: Option<string>, arr: seq<string>)
    requires Spellable(Some(lbl), cmd, params)
    requires Trim(SpellLine(Some(lbl), cmd, params)) == SpellLine(Some(lbl), cmd, params)
    requires IsEmptyLine(SpellLine(Some(lbl), cmd, params)) == False
    ensures IsDirectiveInArray(SpellLine(Some(lbl), cmd, params), arr) == True <==> cmd in arr
  {
    var line := SpellLine(Some(lbl), cmd, params);
    var head := lbl + ":";
    var tail := SpellCommand(cmd, params);
    NoSpaceNotIn(lbl);
    assert ' ' !in head;
    assert line == head + [' '] + tail;
    StrSepAt(head, ' ', tail);
    SplitCommand(cmd, params);
    DirectiveOfCut(line, head, Some(tail), arr);
  }

  lemma DirectiveWithoutLabel(line: string, cmd: string, params: Option<string>, arr: seq<string>)
    requires Spellable(None, cmd, params)
    requires line == SpellCommand(cmd, params)
    requires Trim(line) == line && IsEmptyLine(line) == False
    ensures IsDirectiveInArray(line, arr) == True <==> cmd in arr
  {
    SplitCommand(cmd, params);
    DirectiveOfCut(line, cmd, params, arr);
  }

  /** The directive test sees the mnemonic of a well-formed line. */
  lemma DirectiveOfSpelledLine(line: string, lbl: Option<string>, cmd: string, params: Option<string>, arr: seq<string>)
    requires Spellable(lbl, cmd, params) && line == SpellLine(lbl, cmd, params)
    ensures IsEmptyLine(line) == False
    ensures IsDirectiveInArray(line, arr) == True <==> cmd in arr
  {
    CommandPartsOfSpelledLine(lbl, cmd, params);
    SpelledLineTrimmed(lbl, cmd, params);
    if lbl.Some? {
      DirectiveWithLabel(lbl.value, cmd, params, arr);
    } else {
      assert line == SpellCommand(cmd, params);
      DirectiveWithoutLabel(line, cmd, params, arr);
    }
  }

  /** A well-formed line has no white space at either end. */
  lemma SpelledLineTrimmed(lbl: Option<string>, cmd: string, params: Option<string>)
    requires Spellable(lbl, cmd, params)
    ensures Trim(SpellLine(lbl, cmd, params)) == SpellLine(lbl, cmd, params)
  {
    var line := SpellLine(lbl, cmd, params);
    var tail := SpellCommand(cmd, params);
    assert tail[0] == cmd[0];
    assert !IsSpace(line[0]);
    assert !IsSpace(line[|line| - 1]) by {
      if params.Some? {
        assert line[|line| - 1] == params.value[|params.value| - 1];
      } else {
        assert line[|line| - 1] == cmd[|cmd| - 1];
      }
    }
    TrimNoSpaceEnds(line);
  }

  /** A line starting with a character other than white space and ';' is
      not a comment. */
  lemma NotCommentLine(line: string)
    requires |line| > 0 && !IsSpace(line[0]) && line[0] != ';'
    ensures IsCommentLine(line) == False
  {
  }

  lemma SpelledLineStart(line: string, lbl: Option<string>, cmd: string, params: Option<string>)
    requires Spellable(lbl, cmd, params) && line == SpellLine(lbl, cmd, params)
    ensures |line| > 0 && line[0] == if lbl.Some? then lbl.value[0] else cmd[0]
  {
    if lbl.Some? {
      assert line[0] == lbl.value[0];
    } else {
      assert line == SpellCommand(cmd, params);
    }
  }

  lemma MnemonicsAreNotDirectives()
    ensures forall x :: x in CommandsTable ==> x !in OrderNames
  {
    assert forall i :: 0 <= i < |OrderNames| ==> OrderNames[i][0] == '.';
    assert forall i :: 0 <= i < |CommandsTable| ==> CommandsTable[i][0] != '.';
  }

  /** A well-formed line whose mnemonic is a machine instruction is a
      command line, one whose mnemonic is a directive is an order line
      (unless it starts with ';', which makes it a comment). */
  lemma LineTypeOfSpelledLine(line: string, lbl: Option<string>, cmd: string, params: Option<string>)
    requires Spellable(lbl, cmd, params) && line == SpellLine(lbl, cmd, params)
    requires (if lbl.Some? then lbl.value[0] else cmd[0]) != ';'
    ensures cmd in CommandsTable ==> GetLineType(line) == CmdLine
    ensures cmd in OrderNames ==> GetLineType(line) == OrderLine
    ensures cmd !in CommandsTable && cmd !in OrderNames ==> GetLineType(line) == InvalidLine
  {
    DirectiveOfSpelledLine(line, lbl, cmd, params, CommandsTable);
    DirectiveOfSpelledLine(line, lbl, cmd, params, OrderNames);
    SpelledLineStart(line, lbl, cmd, params);
    NotCommentLine(line);
    MnemonicsAreNotDirectives();
  }

  /** A line that is exactly the spelling of the parts getCommandParts
      reads from it, with a mnemonic and not starting with ';'. */
  predicate WellSpelled(line: string) {
    && |line| > 0
    && CommandParts(line).Some?
    && CommandParts(line).value.cmdName.Some?
    && var p := CommandParts(line).value;
       && Spellable(p.labelName, p.cmdName.value, p.params)
       && line == SpellLine(p.labelName, p.cmdName.value, p.params)
       && line[0] != ';'
  }

  /** On a well-spelled line the line tests read its mnemonic: it is not
      blank, not a comment, already trimmed, and a command or order line
      exactly when its mnemonic is a machine instruction or a directive. */
  lemma WellSpelledTests(line: string)
    ensures WellSpelled(line) ==>
      var cmd := CommandParts(line).value.cmdName.value;
      && IsEmptyLine(line) == False
      && IsCommentLine(line) == False
      && Trim(line) == line
      && (IsCmdLine(line) == True <==> cmd in CommandsTable)
      && (IsOrderLine(line) == True <==> cmd in OrderNames)
  {
    if WellSpelled(line) {
      var p := CommandParts(line).value;
      var lbl, cmd, params := p.labelName, p.cmdName.value, p.params;
      DirectiveOfSpelledLine(line, lbl, cmd, params, CommandsTable);
      DirectiveOfSpelledLine(line, lbl, cmd, params, OrderNames);
      SpelledLineTrimmed(lbl, cmd, params);
      NotCommentLine(line);
    }
  }

  /** getRegisterIndexFromParam: atoi of everything after the first
      character. An empty parameter has no such text and the source's
      behaviour is undefined (None). */
  function RegisterIndex(param: string): Option<int> {
    if |param| == 0 then None else Some(Atol(param[1..]))
  }

  /** isParamRegister: the index read is 1..31. */
  function IsParamRegister(param: string): (r: Boolean)
    ensures r == True <==> RegisterIndex(param).Some? && 0 < RegisterIndex(param).value < 32
  {
    var reg := RegisterIndex(param);
    if reg.Some? && reg.value < 32 && reg.value > 0 then True else False
  }

  /** The index of each register spelling is its number, and every register
      except $0 counts as a register operand. */
  lemma RegisterIndexOfName(i: nat)
    requires i < 32
    ensures RegisterIndex(RegisterNames[i]) == Some(i)
    ensures IsParamRegister(RegisterNames[i]) == True <==> i != 0
  {
    RegisterNamesAreDecimal();
    var s := RegisterNames[i];
    assert s[1..] == DecimalString(i);
    assert IntString(i) == DecimalString(i);
    AtolIntString(i);
  }

  /** Only the text after the first character is read, so a label such as
      "L5" reads as register 5. */
  lemma LabelReadsAsRegister()
    ensures RegisterIndex("L5") == Some(5)
    ensures IsParamRegister("L5") == True
  {
    assert "L5"[1..] == DecimalString(5);
    assert IntString(5) == DecimalString(5);
    AtolIntString(5);
  }

  /** getIndexOfCommand: the position of the mnemonic in the table; -1 (None)
      when it is not there. */
  function IndexOfCommand(command: string): (r: Option<nat>)
    ensures r.None? <==> command !in CommandsTable
    ensures r.Some? ==> r.value < |CommandsTable| && CommandsTable[r.value] == command
    ensures r.Some? ==> forall j :: 0 <= j < r.value ==> CommandsTable[j] != command
  {
    IndexFrom(command, 0)
  }

  function IndexFrom(command: string, i: nat): (r: Option<nat>)
    requires i <= |CommandsTable|
    requires forall j :: 0 <= j < i ==> CommandsTable[j] != command
    ensures r.None? <==> command !in CommandsTable
    ensures r.Some? ==> i <= r.value < |CommandsTable| && CommandsTable[r.value] == command
    ensures r.Some? ==> forall j :: 0 <= j < r.value ==> CommandsTable[j] != command
    decreases |CommandsTable| - i
  {
    if i == |CommandsTable| then None
    else if CommandsTable[i] == command then Some(i)
    else IndexFrom(command, i + 1)
  }

  /** The 27 mnemonics are distinct. */
  lemma CommandsDistinct()
    ensures forall i, j :: 0 <= i < j < |CommandsTable| ==> CommandsTable[i] != CommandsTable[j]
  {
  }

  /** getIndexOfCommand inverts the table. */
  lemma IndexOfEachCommand(i: nat)
    requires i < |CommandsTable|
    ensures IndexOfCommand(CommandsTable[i]) == Some(i)
  {
    CommandsDistinct();
  }

  /** getItemByCommand: arr[index]; an unknown mnemonic (index -1) or an
      index past the end of `arr` reads outside the array (None). */
  function ItemByCommand(arr: seq<int>, command: string): (r: Option<int>)
    ensures r.Some? <==> IndexOfCommand(command).Some? && IndexOfCommand(command).value < |arr|
    ensures r.Some? ==> r.value == arr[IndexOfCommand(command).value]
  {
    match IndexOfCommand(command)
    case None => None
    case Some(k) => if k < |arr| then Some(arr[k]) else None
  }

  function OpcodeByCommand(command: string): Option<int> {
    ItemByCommand(Opcodes, command)
  }

  function FunctByCommand(command: string): Option<int> {
    ItemByCommand(Functs, command)
  }

  /** Every mnemonic has its table opcode. */
  lemma OpcodeOfCommand(i: nat)
    requires i < |CommandsTable|
    ensures OpcodeByCommand(CommandsTable[i]) == Some(Opcodes[i])
  {
    IndexOfEachCommand(i);
    assert |Opcodes| == |CommandsTable|;
  }

  /** Every mnemonic has its table opcode; exactly the R mnemonics have a funct. */
  lemma OpcodeAndFunctOfCommand(i: nat)
    requires i < |CommandsTable|
    ensures OpcodeByCommand(CommandsTable[i]) == Some(Opcodes[i])
    ensures FunctByCommand(CommandsTable[i]).Some? <==> i < 8
    ensures i < 8 ==> FunctByCommand(CommandsTable[i]) == Some(Functs[i])
  {
    IndexOfEachCommand(i);
    OpcodeTable();
    FunctTable();
  }

  /** getDataSizeByOrderName: .db and .asciz store bytes, .dh half-words,
      .dw words; anything else is -1 (None). */
  function DataSizeByOrderName(cmdName: string): (r: Option<DataSize>)
    ensures r == Some(Byte) <==> cmdName == ".db" || cmdName == ".asciz"
    ensures r == Some(HalfWord) <==> cmdName == ".dh"
    ensures r == Some(FullWord) <==> cmdName == ".dw"
    ensures r.None? <==> cmdName !in {".db", ".asciz", ".dh", ".dw"}
  {
    if cmdName == ".db" || cmdName == ".asciz" then Some(Byte)
    else if cmdName == ".dh" then Some(HalfWord)
    else if cmdName == ".dw" then Some(FullWord)
    else None
  }

  /** getNumOfParamData. For .asciz it is the operand length less the two
      quotes (a size_t difference cast to int, so "" gives -2); otherwise 0
      with no operands and one more than the number of commas. None where
      the source dereferences NULL: a blank line, a label with no mnemonic,
      or .asciz with no operand. */
  function NumOfParamData(command: string): (r: Option<int>)
    ensures CommandParts(command).None? ==> r.None?
    ensures CommandParts(command).Some? && CommandParts(command).value.cmdName.Some?
      && CommandParts(command).value.cmdName.value != ".asciz"
      ==> r.Some? && r.value >= 0
  {
    match CommandParts(command)
    case None => None
    case Some(parts) =>
      if parts.cmdName.None? then None
      else if parts.cmdName.value == ".asciz" then
        if parts.params.None? then None else Some(|parts.params.value| - 2)
      else if parts.params.None? then Some(0)
      else Some(|Fields(parts.params.value, ',')|)
  }

  /** The count of comma-separated operands written out is their number. */
  lemma NumOfParamDataOfList(lbl: Option<string>, cmd: string, items: seq<string>)
    requires |items| >= 1 && cmd != ".asciz"
    requires forall i :: 0 <= i < |items| ==> ',' !in items[i]
    requires Spellable(lbl, cmd, Some(Join(items, ',')))
    ensures NumOfParamData(SpellLine(lbl, cmd, Some(Join(items, ',')))) == Some(|items|)
  {
    CommandPartsOfSpelledLine(lbl, cmd, Some(Join(items, ',')));
    FieldsOfJoin(items, ',');
  }

  /** The .asciz count is the length of the quoted text. */
  lemma NumOfParamDataOfString(lbl: Option<string>, text: string)
    requires Spellable(lbl, ".asciz", Some("\"" + text + "\""))
    ensures NumOfParamData(SpellLine(lbl, ".asciz", Some("\"" + text + "\""))) == Some(|text|)
  {
    CommandPartsOfSpelledLine(lbl, ".asciz", Some("\"" + text + "\""));
  }

  /** isLabelExists: some label in the table has that name. */
  function IsLabelExists(labels: seq<Label>, name: string): (r: Boolean)
    ensures r == True <==> exists j :: 0 <= j < |labels| && labels[j].symbol == name
    ensures r == True <==> FirstLabel(labels, name) < |labels|
  {
    if |labels| == 0 then False
    else if labels[0].symbol == name then True
    else
      var r := IsLabelExists(labels[1..], name);
      assert r == True ==> exists j :: 0 <= j < |labels| && labels[j].symbol == name by {
        if r == True {
          var j :| 0 <= j < |labels| - 1 && labels[1..][j].symbol == name;
          assert labels[j + 1].symbol == name;
        }
      }
      r
  }
}
