/** The records and enumerations of Datatypes.h and the list operations of
    Datatypes.c. The C linked lists are sequences here; appending a node at
    the tail (addNewLabel, addNewCommand, addNewDataItem, addNewError) is
    `xs + [x]` in the passes of the Assembler module. */
module Datatypes {
  import opened CLib
  import opened StringExtension
  import opened Constants

  datatype OrderType = Db | Dw | Dh | Asciz | Entry | External

  datatype CmdSubtype = RArithmetic | RMove | IArithmetic | IBranch | JJump | JLabel | Stop

  /** The instruction format; getCmdTypeByCommandName's -1 is None. */
  datatype CmdType = RFormat | IFormat | JFormat

  datatype ErrorType =
    | RegisterName
    | CommandName
    | DirectiveName
    | NumberOfParameters
    | WrongParameters
    | WrongSyntax
    | ValueOutOfRange
    | NotAPrintedSymbol
    | LabelExternAndInternal
    | MissingComma
    | MultipleCommas
    | LabelSyntax
    | Valid
    | LabelDoesntExist
    | MissingParam
    | ExtraneousParam
    | MemoryAllocation
    | MissingQuotations
    | EmptyLabel
    | LabelWithInvalidLine

  /** The program's own Boolean enumeration, whose first member `true` has
      the integer value 0 and `false` has 1. */
  datatype Boolean = True | False {
    function Value(): (v: int)
      ensures v == 0 <==> this == True
      ensures v == 0 || v == 1
    {
      if this == True then 0 else 1
    }
  }

  function ToBoolean(b: bool): (r: Boolean)
    ensures r == True <==> b
  {
    if b then True else False
  }

  /** C's logical negation on an integer. */
  function CNot(v: int): (r: int)
    ensures r == 1 <==> v == 0
    ensures r == 0 || r == 1
  {
    if v == 0 then 1 else 0
  }

  datatype Attributes = Attributes(isCode: bool, isData: bool, isEntry: bool, isExternal: bool)

  const NoAttributes := Attributes(false, false, false, false)

  datatype Label = Label(symbol: string, value: int, attr: Attributes, appearances: seq<int>)

  datatype LineParts = LineParts(labelName: Option<string>, cmdName: Option<string>, params: Option<string>)

  datatype Error = Error(lineNumber: int, message: string)

  /** The three bit-field layouts: R = opcode 6, rs 5, rt 5, rd 5, funct 5,
      unused 6; I = opcode 6, rs 5, rt 5, signed immed 16; J = opcode 6,
      reg 1, address 25. */
  datatype Word =
    | RWord(opcode: int, rs: int, rt: int, rd: int, funct: int, unused: int)
    | IWord(opcode: int, rs: int, rt: int, immed: int)
    | JWord(opcode: int, reg: int, address: int)

  /** The field widths of each layout, in declaration order. */
  function FieldWidths(w: Word): seq<nat> {
    match w
    case RWord(_, _, _, _, _, _) => [6, 5, 5, 5, 5, 6]
    case IWord(_, _, _, _) => [6, 5, 5, 16]
    case JWord(_, _, _) => [6, 1, 25]
  }

  /** The field values of a word, in declaration order. */
  function FieldValues(w: Word): (vs: seq<int>)
    ensures |vs| == |FieldWidths(w)|
  {
    match w
    case RWord(op, rs, rt, rd, funct, unused) => [op, rs, rt, rd, funct, unused]
    case IWord(op, rs, rt, immed) => [op, rs, rt, immed]
    case JWord(op, reg, address) => [op, reg, address]
  }

  /** Every field holds what its bit-field can store (immed is signed). */
  predicate WordFits(w: Word) {
    match w
    case RWord(op, rs, rt, rd, funct, unused) =>
      0 <= op < 64 && 0 <= rs < 32 && 0 <= rt < 32 && 0 <= rd < 32 && 0 <= funct < 32 && 0 <= unused < 64
    case IWord(op, rs, rt, immed) =>
      0 <= op < 64 && 0 <= rs < 32 && 0 <= rt < 32 && -32768 <= immed < 32768
    case JWord(op, reg, address) =>
      0 <= op < 64 && 0 <= reg < 2 && 0 <= address < Pow2(25)
  }

  datatype Command = Command(address: int, bits: Option<Word>, cmdType: Option<CmdType>, line: string)

  /** DataSize: the width of a data item in bytes, which is also the step of
      the data counter. */
  datatype DataSize = Byte | HalfWord | FullWord {
    function Bytes(): (n: nat)
      ensures n == 1 || n == 2 || n == 4
    {
      match this
      case Byte => 1
      case HalfWord => 2
      case FullWord => 4
    }
  }

  /** A data item; its value is a signed 32-bit bit-field. */
  datatype DataItem = DataItem(address: int, value: int, size: DataSize)

  /** isEmptyLine: only white space. */
  function IsEmptyLine(line: string): (r: Boolean)
    ensures r == True <==> AllSpace(line)
  {
    if |line| == 0 then True
    else if IsSpace(line[0]) then IsEmptyLine(line[1..])
    else False
  }

  /** findInArray / isCommandInArray: exact string membership. */
  function FindInArray(name: string, arr: seq<string>): (r: Boolean)
    ensures r == True <==> name in arr
  {
    if |arr| == 0 then False
    else if arr[0] == name then True
    else FindInArray(name, arr[1..])
  }

  /** The three local tables of getCmdTypeByCommandName. */
  const RCommands: seq<string> := ["add", "sub", "and", "or", "nor", "move", "mvhi", "mvlo"]
  const ICommands: seq<string> := ["addi", "subi", "andi", "ori", "nori", "bne", "beq", "blt",
                                   "bgt", "lb", "sb", "sw", "lw", "lh", "sh"]
  const JCommands: seq<string> := ["jmp", "la", "call", "stop"]

  /** The local tables hold exactly the R, I and J sub-families of the
      mnemonic table. */
  lemma FormatTablesMatchFamilies()
    ensures RCommands == RACmd + RMCmd
    ensures forall x :: x in ICommands <==> x in IACmd || x in IBCmd
    ensures JCommands == JJCmd + JCmd + SCmd
  {
  }

  lemma FormatTablesMembership(name: string)
    ensures name in RCommands <==> name in RACmd || name in RMCmd
    ensures name in ICommands <==> name in IACmd || name in IBCmd
    ensures name in JCommands <==> name in JJCmd || name in JCmd || name in SCmd
    ensures name in CommandsTable <==> name in RCommands || name in ICommands || name in JCommands
    ensures !(name in RCommands && name in ICommands)
    ensures !(name in RCommands && name in JCommands)
    ensures !(name in ICommands && name in JCommands)
  {
    FormatTablesMatchFamilies();
    RIDisjoint(name);
    RJDisjoint(name);
    IJDisjoint(name);
  }

  lemma RIDisjoint(name: string)
    ensures !(name in RCommands && name in ICommands)
  {
  }

  lemma RJDisjoint(name: string)
    ensures !(name in RCommands && name in JCommands)
  {
  }

  lemma IJDisjoint(name: string)
    ensures !(name in ICommands && name in JCommands)
  {
  }

  /** getCmdTypeByCommandName: the R, I and J tables in that order; -1 otherwise. */
  function CmdTypeByCommandName(name: string): (r: Option<CmdType>)
    ensures r == Some(RFormat) <==> name in RACmd || name in RMCmd
    ensures r == Some(IFormat) <==> name in IACmd || name in IBCmd
    ensures r == Some(JFormat) <==> name in JJCmd || name in JCmd || name in SCmd
    ensures r.None? <==> name !in CommandsTable
  {
    FormatTablesMembership(name);
    if FindInArray(name, RCommands) == True then Some(RFormat)
    else if FindInArray(name, ICommands) == True then Some(IFormat)
    else if FindInArray(name, JCommands) == True then Some(JFormat)
    else None
  }

  /** getCommandParts. A blank line has no parts (NULL). Otherwise the line is
      trimmed and cut at single spaces: if the first token ends in ':' it is
      the label (without the ':') and the next token is the mnemonic; the
      text after that, up to any '\r' or '\n', is the operand text. Each piece
      is trimmed, and a piece that is not there is NULL. */
  function CommandParts(command: string): (r: Option<LineParts>)
    ensures r.None? <==> IsEmptyLine(command) == True
    ensures r.Some? && r.value.cmdName.None? ==> r.value.params.None? && r.value.labelName.Some?
  {
    if IsEmptyLine(command) == True then None
    else Some(PartsOfTrimmed(Trim(command)))
  }

  function PartsOfTrimmed(line: string): (r: LineParts)
    ensures r.cmdName.None? ==> r.params.None? && r.labelName.Some?
  {
    var first := StrSep(Some(line), {' '});
    var found := Trim(first.token.value);
    if |found| > 0 && found[|found| - 1] == ':' then
      var second := StrSep(first.rest, {' '});
      LineParts(Some(found[..|found| - 1]), TrimOpt(second.token), OperandText(second.rest))
    else
      LineParts(None, Some(found), OperandText(first.rest))
  }

  /** The operand text: what is left of the line, up to a line break, trimmed. */
  function OperandText(rest: Option<string>): Option<string> {
    TrimOpt(StrSep(rest, {'\r', '\n'}).token)
  }

  /** A line spelled from its parts, the way a programmer writes it. */
  function SpellLine(lbl: Option<string>, cmd: string, params: Option<string>): string {
    (if lbl.Some? then lbl.value + ":" + " " else "") + SpellCommand(cmd, params)
  }

  function SpellCommand(cmd: string, params: Option<string>): string {
    cmd + (if params.Some? then " " + params.value else "")
  }

  predicate NoSpace(s: string) {
    forall i :: 0 <= i < |s| ==> !IsSpace(s[i])
  }

  /** Well-formed operand text: no white space at its ends, no line break. */
  predicate SpellableOperands(params: Option<string>) {
    params.Some? ==>
      && |params.value| > 0
      && !IsSpace(params.value[0]) && !IsSpace(params.value[|params.value| - 1])
      && '\r' !in params.value && '\n' !in params.value
  }

  /** Well-formed parts: a label and a mnemonic without white space, the
      mnemonic not ending in ':', and well-formed operand text. */
  predicate Spellable(lbl: Option<string>, cmd: string, params: Option<string>) {
    && (lbl.Some? ==> |lbl.value| > 0 && NoSpace(lbl.value))
    && |cmd| > 0 && NoSpace(cmd) && cmd[|cmd| - 1] != ':'
    && SpellableOperands(params)
  }

  lemma NoSpaceNotIn(s: string)
    requires NoSpace(s)
    ensures ' ' !in s
  {
    assert forall i :: 0 <= i < |s| ==> s[i] != ' ';
  }

  lemma OperandTextOf(params: Option<string>)
    requires SpellableOperands(params)
    ensures OperandText(params) == params
  {
    if params.Some? {
      StrSepNone(params.value, {'\r', '\n'});
      TrimNoSpaceEnds(params.value);
    }
  }

  /** The mnemonic is cut off at the first space and the rest is the operand text. */
  lemma SplitCommand(cmd: string, params: Option<string>)
    requires |cmd| > 0 && NoSpace(cmd)
    ensures StrSep(Some(SpellCommand(cmd, params)), {' '}) == Sep(Some(cmd), params)
  {
    NoSpaceNotIn(cmd);
    if params.Some? {
      assert SpellCommand(cmd, params) == cmd + [' '] + params.value;
      StrSepAt(cmd, ' ', params.value);
    } else {
      assert SpellCommand(cmd, params) == cmd;
      StrSepNone(cmd, {' '});
    }
  }

  lemma PartsWithLabel(lbl: string, cmd: string, params: Option<string>)
    requires Spellable(Some(lbl), cmd, params)
    ensures PartsOfTrimmed(SpellLine(Some(lbl), cmd, params)) == LineParts(Some(lbl), Some(cmd), params)
  {
    var head := lbl + ":";
    var tail := SpellCommand(cmd, params);
    NoSpaceNotIn(lbl);
    assert ' ' !in head;
    assert SpellLine(Some(lbl), cmd, params) == head + [' '] + tail;
    StrSepAt(head, ' ', tail);
    TrimNoSpaceEnds(head);
    assert head[..|head| - 1] == lbl;
    SplitCommand(cmd, params);
    TrimNoSpaceEnds(cmd);
    OperandTextOf(params);
  }

  lemma PartsWithoutLabel(cmd: string, params: Option<string>)
    requires Spellable(None, cmd, params)
    ensures PartsOfTrimmed(SpellLine(None, cmd, params)) == LineParts(None, Some(cmd), params)
  {
    assert SpellLine(None, cmd, params) == SpellCommand(cmd, params);
    SplitCommand(cmd, params);
    TrimNoSpaceEnds(cmd);
    OperandTextOf(params);
  }

  /** getCommandParts takes apart what SpellLine puts together. */
  lemma CommandPartsOfSpelledLine(lbl: Option<string>, cmd: string, params: Option<string>)
    requires Spellable(lbl, cmd, params)
    ensures CommandParts(SpellLine(lbl, cmd, params)) == Some(LineParts(lbl, Some(cmd), params))
  {
    var line := SpellLine(lbl, cmd, params);
    var tail := SpellCommand(cmd, params);
    assert tail[0] == cmd[0];
    assert !IsSpace(line[0]);
    assert !IsSpace(line[|line| - 1]) by {
      if params.Some? {
        assert line[|line| - 1] == params.value[|params.value| - 1];
      } else {
        assert line[|line| - 1] == cmd[|cmd| - 1];
      }
    }
    assert IsEmptyLine(line) == False;
    TrimNoSpaceEnds(line);
    if lbl.Some? {
      PartsWithLabel(lbl.value, cmd, params);
    } else {
      PartsWithoutLabel(cmd, params);
    }
  }

  /** The position of the first label named `name`; |labels| when there is none. */
  function FirstLabel(labels: seq<Label>, name: string): (k: nat)
    ensures k <= |labels|
    ensures forall j :: 0 <= j < k ==> labels[j].symbol != name
    ensures k < |labels| ==> labels[k].symbol == name
  {
    if |labels| == 0 || labels[0].symbol == name then 0 else 1 + FirstLabel(labels[1..], name)
  }

  /** markLabelAsEntry: sets isEntry on the first label with that name only;
      nothing else changes, and an unknown name changes nothing. */
  function MarkLabelAsEntry(labels: seq<Label>, name: string): (r: seq<Label>)
    ensures |r| == |labels|
    ensures var k := FirstLabel(labels, name);
      forall j :: 0 <= j < |labels| && j != k ==> r[j] == labels[j]
    ensures var k := FirstLabel(labels, name);
      k < |labels| ==> r[k] == labels[k].(attr := labels[k].attr.(isEntry := true))
  {
    if |labels| == 0 then []
    else if labels[0].symbol == name then [labels[0].(attr := labels[0].attr.(isEntry := true))] + labels[1..]
    else [labels[0]] + MarkLabelAsEntry(labels[1..], name)
  }

  /** updateDataLabels: every data label moves up by ICF; the others stay. */
  function UpdateDataLabels(labels: seq<Label>, icf: int): (r: seq<Label>)
    ensures |r| == |labels|
    ensures forall j :: 0 <= j < |labels| ==>
      r[j] == if labels[j].attr.isData then labels[j].(value := labels[j].value + icf) else labels[j]
  {
    if |labels| == 0 then []
    else
      var head := if labels[0].attr.isData then labels[0].(value := labels[0].value + icf) else labels[0];
      [head] + UpdateDataLabels(labels[1..], icf)
  }

  /** addLabelAppearance: appends the address to the first label with that
      name; a no-op when there is none. */
  function AddLabelAppearance(labels: seq<Label>, name: string, address: int): (r: seq<Label>)
    ensures |r| == |labels|
    ensures var k := FirstLabel(labels, name);
      forall j :: 0 <= j < |labels| && j != k ==> r[j] == labels[j]
    ensures var k := FirstLabel(labels, name);
      k < |labels| ==> r[k] == labels[k].(appearances := labels[k].appearances + [address])
  {
    if |labels| == 0 then []
    else if labels[0].symbol == name then
      [labels[0].(appearances := labels[0].appearances + [address])] + labels[1..]
    else [labels[0]] + AddLabelAppearance(labels[1..], name, address)
  }

  /** Whether a command refers to `name` as an external use site: the first
      strSplit token of la/call/jmp, or the third of a branch. None when the
      source's behaviour is undefined (strSplit aborts, or a token is missing). */
  function RefersTo(c: Command, name: string): Option<bool> {
    match CommandParts(c.line)
    case None => None
    case Some(parts) =>
      if parts.params.None? then Some(false)
      else if parts.cmdName.None? then None
      else
        match StrSplit(parts.params.value, ',')
        case None => None
        case Some(arr) =>
          var cmd := parts.cmdName.value;
          if FindInArray(cmd, JCmd) == True || FindInArray(cmd, JJCmd) == True then
            if |arr| < 1 then None else Some(arr[0] == name)
          else if FindInArray(cmd, IBCmd) == True then
            if |arr| < 3 then None else Some(arr[2] == name)
          else Some(false)
  }

  /** The addresses of the commands that refer to `name`, in list order. */
  function UseSites(commands: seq<Command>, name: string): Option<seq<int>> {
    if |commands| == 0 then Some([])
    else
      match RefersTo(commands[0], name)
      case None => None
      case Some(b) =>
        match UseSites(commands[1..], name)
        case None => None
        case Some(rest) => Some((if b then [commands[0].address] else []) + rest)
  }

  /** updateLabelAppearances: walks the command list and calls
      addLabelAppearance for every command that refers to `name`. */
  function UpdateLabelAppearances(commands: seq<Command>, labels: seq<Label>, name: string): Option<seq<Label>> {
    if |commands| == 0 then Some(labels)
    else
      match RefersTo(commands[0], name)
      case None => None
      case Some(b) =>
        var labels' := if b then AddLabelAppearance(labels, name, commands[0].address) else labels;
        UpdateLabelAppearances(commands[1..], labels', name)
  }

  /** The first label named `name` gains all of `addresses` at the end of its
      appearances; every other label is unchanged. */
  function AppendAppearances(labels: seq<Label>, name: string, addresses: seq<int>): seq<Label> {
    var k := FirstLabel(labels, name);
    if k < |labels| then labels[k := labels[k].(appearances := labels[k].appearances + addresses)]
    else labels
  }

  lemma AddThenAppend(labels: seq<Label>, name: string, a: int, rest: seq<int>)
    ensures AppendAppearances(AddLabelAppearance(labels, name, a), name, rest)
         == AppendAppearances(labels, name, [a] + rest)
  {
    var l1 := AddLabelAppearance(labels, name, a);
    var k := FirstLabel(labels, name);
    assert FirstLabel(l1, name) == k by {
      FirstLabelFrame(labels, l1, name);
    }
    if k < |labels| {
      assert labels[k].appearances + [a] + rest == labels[k].appearances + ([a] + rest);
    }
  }

  /** Two label lists with the same symbols position by position have the
      same first match. */
  lemma {:induction false} FirstLabelFrame(a: seq<Label>, b: seq<Label>, name: string)
    requires |a| == |b|
    requires forall j :: 0 <= j < |a| ==> a[j].symbol == b[j].symbol
    ensures FirstLabel(a, name) == FirstLabel(b, name)
  {
    if |a| > 0 && a[0].symbol != name {
      FirstLabelFrame(a[1..], b[1..], name);
    }
  }

  lemma AppendNothing(labels: seq<Label>, name: string)
    ensures AppendAppearances(labels, name, []) == labels
  {
    var k := FirstLabel(labels, name);
    if k < |labels| {
      assert labels[k].appearances + [] == labels[k].appearances;
    }
  }

  /** Walking the commands one by one gives the same table as appending all
      of the command list's use sites at once. */
  lemma {:induction false} UpdateLabelAppearancesAppends(commands: seq<Command>, labels: seq<Label>, name: string)
    ensures UpdateLabelAppearances(commands, labels, name).Some? <==> UseSites(commands, name).Some?
    ensures UseSites(commands, name).Some? ==>
      UpdateLabelAppearances(commands, labels, name).value
        == AppendAppearances(labels, name, UseSites(commands, name).value)
  {
    if |commands| == 0 {
      AppendNothing(labels, name);
    } else {
      var rf := RefersTo(commands[0], name);
      if rf.Some? {
        var b := rf.value;
        var a := commands[0].address;
        var labels' := if b then AddLabelAppearance(labels, name, a) else labels;
        assert UpdateLabelAppearances(commands, labels, name) == UpdateLabelAppearances(commands[1..], labels', name);
        UpdateLabelAppearancesAppends(commands[1..], labels', name);
        var rest := UseSites(commands[1..], name);
        if rest.Some? {
          assert UseSites(commands, name) == Some((if b then [a] else []) + rest.value);
          if b {
            AddThenAppend(labels, name, a, rest.value);
          } else {
            assert [] + rest.value == rest.value;
          }
        }
      }
    }
  }

  /** updateExternalAppearancesLabels: for each external label, in table
      order, collect its use sites. Only appearance lists change; in a
      table where no other label shares an external label's name, every
      external label gains exactly its use sites, in command order, and
      every other label is as it was.
      None when some external label's use sites are undefined. */
  function UpdateExternalAppearancesLabels(commands: seq<Command>, labels: seq<Label>): (r: Option<seq<Label>>)
    ensures r.Some? ==> SameExceptAppearances(labels, r.value)
    ensures ExternalsUnique(labels) ==> (r.Some? <==> UsesDefined(commands, labels, 0))
    ensures ExternalsUnique(labels) && r.Some? ==> AppearancesUpdated(commands, labels, r.value, 0)
  {
    var r := ExternalAppearancesFrom(commands, labels, 0);
    if ExternalsUnique(labels) then ExternalAppearancesExact(commands, labels, 0); r else r
  }

  function ExternalAppearancesFrom(commands: seq<Command>, labels: seq<Label>, i: nat): (r: Option<seq<Label>>)
    requires i <= |labels|
    ensures r.Some? ==> SameExceptAppearances(labels, r.value)
    decreases |labels| - i
  {
    if i == |labels| then Some(labels)
    else if labels[i].attr.isExternal then
      match UpdateLabelAppearances(commands, labels, labels[i].symbol)
      case None => None
      case Some(labels') =>
        UpdateLabelAppearancesAppends(commands, labels, labels[i].symbol);
        AppendKeepsShape(labels, labels[i].symbol, UseSites(commands, labels[i].symbol).value);
        var r := ExternalAppearancesFrom(commands, labels', i + 1);
        if r.Some? then
          SameExceptAppearancesTrans(labels, labels', r.value);
          r
        else r
    else ExternalAppearancesFrom(commands, labels, i + 1)
  }

  /** No label shares the name of an external label. Labels that are not
      external may share names with each other. */
  predicate ExternalsUnique(labels: seq<Label>) {
    forall j, k :: 0 <= j < |labels| && 0 <= k < |labels| && j != k && labels[j].attr.isExternal ==>
      labels[j].symbol != labels[k].symbol
  }

  /** Every external label from position i on has defined use sites. */
  predicate UsesDefined(commands: seq<Command>, labels: seq<Label>, i: nat) {
    forall j :: i <= j < |labels| && labels[j].attr.isExternal ==> UseSites(commands, labels[j].symbol).Some?
  }

  /** The label as it is after the update: an external label from position
      i on with its use sites appended. */
  function Updated(commands: seq<Command>, l: Label, external: bool): Label {
    if external && UseSites(commands, l.symbol).Some?
    then l.(appearances := l.appearances + UseSites(commands, l.symbol).value)
    else l
  }

  predicate AppearancesUpdated(commands: seq<Command>, before: seq<Label>, after: seq<Label>, i: nat) {
    |after| == |before| &&
    forall j :: 0 <= j < |before| ==> after[j] == Updated(commands, before[j], i <= j && before[j].attr.isExternal)
  }

  /** The first label named like external label i is label i itself. */
  lemma FirstLabelOfExternal(labels: seq<Label>, i: nat)
    requires i < |labels| && ExternalsUnique(labels) && labels[i].attr.isExternal
    ensures FirstLabel(labels, labels[i].symbol) == i
  {
  }

  /** The walk from position i, stated label by label. */
  lemma {:induction false} ExternalAppearancesExact(commands: seq<Command>, labels: seq<Label>, i: nat)
    requires i <= |labels| && ExternalsUnique(labels)
    ensures ExternalAppearancesFrom(commands, labels, i).Some? <==> UsesDefined(commands, labels, i)
    ensures ExternalAppearancesFrom(commands, labels, i).Some? ==>
      AppearancesUpdated(commands, labels, ExternalAppearancesFrom(commands, labels, i).value, i)
    decreases |labels| - i, 1
  {
    if i == |labels| {
    } else if labels[i].attr.isExternal {
      var name := labels[i].symbol;
      UpdateLabelAppearancesAppends(commands, labels, name);
      if UseSites(commands, name).Some? {
        var labels' := AppendAppearances(labels, name, UseSites(commands, name).value);
        FirstLabelOfExternal(labels, i);
        assert labels' == labels[i := Updated(commands, labels[i], true)];
        ExternalStep(commands, labels, labels', i);
      } else {
        assert !UsesDefined(commands, labels, i);
      }
    } else {
      ExternalAppearancesExact(commands, labels, i + 1);
      assert UsesDefined(commands, labels, i) <==> UsesDefined(commands, labels, i + 1);
    }
  }

  /** One external label updated at position i; the rest of the walk. */
  lemma {:induction false} ExternalStep(commands: seq<Command>, labels: seq<Label>, labels': seq<Label>, i: nat)
    requires i < |labels| && ExternalsUnique(labels) && labels[i].attr.isExternal
    requires UseSites(commands, labels[i].symbol).Some?
    requires labels' == labels[i := Updated(commands, labels[i], true)]
    requires UpdateLabelAppearances(commands, labels, labels[i].symbol) == Some(labels')
    ensures ExternalAppearancesFrom(commands, labels, i).Some? <==> UsesDefined(commands, labels, i)
    ensures ExternalAppearancesFrom(commands, labels, i).Some? ==>
      AppearancesUpdated(commands, labels, ExternalAppearancesFrom(commands, labels, i).value, i)
    decreases |labels| - i, 0
  {
    assert ExternalsUnique(labels');
    ExternalAppearancesExact(commands, labels', i + 1);
    var r := ExternalAppearancesFrom(commands, labels', i + 1);
    assert ExternalAppearancesFrom(commands, labels, i) == r;
    assert UsesDefined(commands, labels, i) <==> UsesDefined(commands, labels', i + 1);
    if r.Some? {
      forall j | 0 <= j < |labels|
        ensures r.value[j] == Updated(commands, labels[j], i <= j && labels[j].attr.isExternal)
      {
        if j == i {
          assert r.value[j] == labels'[j];
        }
      }
    }
  }

  /** Only the appearance lists differ. */
  predicate SameExceptAppearances(a: seq<Label>, b: seq<Label>) {
    |a| == |b| &&
    forall j :: 0 <= j < |a| ==>
      a[j].symbol == b[j].symbol && a[j].value == b[j].value && a[j].attr == b[j].attr
  }

  lemma SameExceptAppearancesTrans(a: seq<Label>, b: seq<Label>, c: seq<Label>)
    requires SameExceptAppearances(a, b) && SameExceptAppearances(b, c)
    ensures SameExceptAppearances(a, c)
  {
  }

  lemma AppendKeepsShape(labels: seq<Label>, name: string, addresses: seq<int>)
    ensures SameExceptAppearances(labels, AppendAppearances(labels, name, addresses))
  {
  }
}
