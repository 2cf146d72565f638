/** The per-line checks of validation.c. Each check returns the first error
    it meets, in the order the source tests them. Where the source would
    dereference NULL, read past the token array or abort in strSplit, the
    result is None. */
module Validation {
  import opened CLib
  import opened StringExtension
  import opened Constants
  import opened Datatypes
  import opened ParserInput

  /** checkOrderName: one of the six directives (".dd" is not one). */
  function CheckOrderName(order: string): (r: ErrorType)
    ensures r == Valid <==> order in Directives
    ensures r == Valid || r == DirectiveName
  {
    if FindInArray(order, Directives) == True then Valid else DirectiveName
  }

  /** checkRegisterName: "$0" to "$31", written exactly so. */
  function CheckRegisterName(reg: string): (r: ErrorType)
    ensures r == Valid <==> reg in RegisterNames
    ensures r == Valid || r == RegisterName
  {
    if FindInArray(reg, RegisterNames) == True then Valid else RegisterName
  }

  /** checkCommandName: one of the 27 mnemonics. */
  function CheckCommandName(commandName: string): (r: ErrorType)
    ensures r == Valid <==> commandName in CommandsTable
    ensures r == Valid || r == CommandName
  {
    if FindInArray(commandName, CommandsTable) == True then Valid else CommandName
  }

  /** sortCmd: the sub-family of a mnemonic; anything unknown falls to stop. */
  function SortCmd(commandName: string): (r: CmdSubtype)
    ensures commandName in RACmd <==> r == RArithmetic
    ensures commandName in RMCmd <==> r == RMove
    ensures commandName in IACmd <==> r == IArithmetic
    ensures commandName in IBCmd <==> r == IBranch
    ensures commandName in JJCmd <==> r == JJump
    ensures commandName in JCmd <==> r == JLabel
    ensures r == Stop <==> commandName in SCmd || commandName !in CommandsTable
  {
    FamilyMembership(commandName);
    if FindInArray(commandName, RACmd) == True then RArithmetic
    else if FindInArray(commandName, RMCmd) == True then RMove
    else if FindInArray(commandName, IACmd) == True then IArithmetic
    else if FindInArray(commandName, IBCmd) == True then IBranch
    else if FindInArray(commandName, JJCmd) == True then JJump
    else if FindInArray(commandName, JCmd) == True then JLabel
    else Stop
  }

  /** A mnemonic is in exactly one sub-family. */
  lemma FamilyMembership(name: string)
    ensures name in CommandsTable <==>
      name in RACmd || name in RMCmd || name in IACmd || name in IBCmd || name in JJCmd || name in JCmd || name in SCmd
    ensures name in RACmd ==> name !in RMCmd && name !in IACmd && name !in IBCmd && name !in JJCmd && name !in JCmd && name !in SCmd
    ensures name in RMCmd ==> name !in IACmd && name !in IBCmd && name !in JJCmd && name !in JCmd && name !in SCmd
    ensures name in IACmd ==> name !in IBCmd && name !in JJCmd && name !in JCmd && name !in SCmd
    ensures name in IBCmd ==> name !in JJCmd && name !in JCmd && name !in SCmd
    ensures name in JJCmd ==> name !in JCmd && name !in SCmd
    ensures name in JCmd ==> name !in SCmd
  {
  }

  /** The instruction format of each sub-family. */
  function FormatOf(t: CmdSubtype): CmdType {
    match t
    case RArithmetic => RFormat
    case RMove => RFormat
    case IArithmetic => IFormat
    case IBranch => IFormat
    case _ => JFormat
  }

  /** The validator's sub-family and the encoder's format agree on every mnemonic. */
  lemma SortCmdAgreesWithFormat(name: string)
    requires name in CommandsTable
    ensures CmdTypeByCommandName(name) == Some(FormatOf(SortCmd(name)))
  {
    FamilyCovers(name);
    RArithmeticAgrees(name);
    RMoveAgrees(name);
    IArithmeticAgrees(name);
    IBranchAgrees(name);
    JJumpAgrees(name);
    JLabelAgrees(name);
    StopAgrees(name);
    FamiliesAgree(name, SortCmd(name), CmdTypeByCommandName(name));
  }

  /** The seven sub-family facts together, for a sub-family t and a format f. */
  lemma FamiliesAgree(name: string, t: CmdSubtype, f: Option<CmdType>)
    requires name in RACmd || name in RMCmd || name in IACmd || name in IBCmd || name in JJCmd || name in JCmd || name in SCmd
    requires name in RACmd ==> t == RArithmetic && f == Some(RFormat)
    requires name in RMCmd ==> t == RMove && f == Some(RFormat)
    requires name in IACmd ==> t == IArithmetic && f == Some(IFormat)
    requires name in IBCmd ==> t == IBranch && f == Some(IFormat)
    requires name in JJCmd ==> t == JJump && f == Some(JFormat)
    requires name in JCmd ==> t == JLabel && f == Some(JFormat)
    requires name in SCmd ==> t == Stop && f == Some(JFormat)
    ensures f == Some(FormatOf(t))
  {
  }

  /** Every mnemonic is in one of the sub-families. */
  lemma FamilyCovers(name: string)
    requires name in CommandsTable
    ensures name in RACmd || name in RMCmd || name in IACmd || name in IBCmd || name in JJCmd || name in JCmd || name in SCmd
  {
  }

  /** A mnemonic of one sub-family: its sub-family and its format. */
  lemma RArithmeticAgrees(name: string)
    ensures name in RACmd ==> SortCmd(name) == RArithmetic && CmdTypeByCommandName(name) == Some(RFormat)
  {
    if name in RACmd {
      assert SortCmd(name) == RArithmetic;
      assert CmdTypeByCommandName(name) == Some(RFormat);
    }
  }

  lemma RMoveAgrees(name: string)
    ensures name in RMCmd ==> SortCmd(name) == RMove && CmdTypeByCommandName(name) == Some(RFormat)
  {
    if name in RMCmd {
      assert SortCmd(name) == RMove;
      assert CmdTypeByCommandName(name) == Some(RFormat);
    }
  }

  lemma IArithmeticAgrees(name: string)
    ensures name in IACmd ==> SortCmd(name) == IArithmetic && CmdTypeByCommandName(name) == Some(IFormat)
  {
    if name in IACmd {
      assert SortCmd(name) == IArithmetic;
      assert CmdTypeByCommandName(name) == Some(IFormat);
    }
  }

  lemma IBranchAgrees(name: string)
    ensures name in IBCmd ==> SortCmd(name) == IBranch && CmdTypeByCommandName(name) == Some(IFormat)
  {
    if name in IBCmd {
      assert SortCmd(name) == IBranch;
      assert CmdTypeByCommandName(name) == Some(IFormat);
    }
  }

  lemma JJumpAgrees(name: string)
    ensures name in JJCmd ==> SortCmd(name) == JJump && CmdTypeByCommandName(name) == Some(JFormat)
  {
    if name in JJCmd {
      assert SortCmd(name) == JJump;
      assert CmdTypeByCommandName(name) == Some(JFormat);
    }
  }

  lemma JLabelAgrees(name: string)
    ensures name in JCmd ==> SortCmd(name) == JLabel && CmdTypeByCommandName(name) == Some(JFormat)
  {
    if name in JCmd {
      assert SortCmd(name) == JLabel;
      assert CmdTypeByCommandName(name) == Some(JFormat);
    }
  }

  lemma StopAgrees(name: string)
    ensures name in SCmd ==> SortCmd(name) == Stop && CmdTypeByCommandName(name) == Some(JFormat)
  {
    if name in SCmd {
      assert SortCmd(name) == Stop;
      assert CmdTypeByCommandName(name) == Some(JFormat);
    }
  }

  /** sortOrder: the directive's kind; anything unknown (".dd" included)
      falls to extern. */
  function SortOrder(orderName: string): (r: OrderType)
    ensures r == Db <==> orderName == ".db"
    ensures r == Dh <==> orderName == ".dh"
    ensures r == Dw <==> orderName == ".dw"
    ensures r == Asciz <==> orderName == ".asciz"
    ensures r == Entry <==> orderName == ".entry"
    ensures r == External <==> orderName !in {".db", ".dh", ".dw", ".asciz", ".entry"}
  {
    if orderName == ".db" then Db
    else if orderName == ".dh" then Dh
    else if orderName == ".dw" then Dw
    else if orderName == ".asciz" then Asciz
    else if orderName == ".entry" then Entry
    else External
  }

  /** How many operands each sub-family takes. */
  function Arity(t: CmdSubtype): nat {
    match t
    case RArithmetic => 3
    case IArithmetic => 3
    case IBranch => 3
    case RMove => 2
    case JJump => 1
    case JLabel => 1
    case Stop => 0
  }

  /** checkParamNum: compares the operand count of the line with the
      sub-family's arity. The count must exist: the source dereferences
      NULL otherwise. */
  function CheckParamNum(command: string, t: CmdSubtype): (r: ErrorType)
    requires NumOfParamData(command).Some?
    ensures var n := NumOfParamData(command).value;
      && (r == Valid <==> n == Arity(t))
      && (t != Stop ==> (r == MissingParam <==> n < Arity(t)))
      && (r == ExtraneousParam <==> n != Arity(t) && (n > Arity(t) || t == Stop))
      && (r == Valid || r == MissingParam || r == ExtraneousParam)
  {
    CountCheck(NumOfParamData(command).value, t)
  }

  /** The comparison inside checkParamNum, on the operand count. stop
      has only the "too many" outcome. */
  function CountCheck(check: int, t: CmdSubtype): (r: ErrorType)
    ensures r == Valid <==> check == Arity(t)
    ensures t != Stop ==> (r == MissingParam <==> check < Arity(t))
    ensures r == ExtraneousParam <==> check != Arity(t) && (check > Arity(t) || t == Stop)
    ensures r == Valid || r == MissingParam || r == ExtraneousParam
  {
    match t
    case Stop => if check == 0 then Valid else ExtraneousParam
    case _ =>
      var arity := Arity(t);
      if check == arity then Valid
      else if check < arity then MissingParam
      else ExtraneousParam
  }

  /** The range of the signed 16-bit immediate field. */
  predicate ImmediateFits(v: int) {
    -32768 <= v < 32768
  }

  /** A value is in the immediate range exactly when storing it in the
      16-bit field keeps it. */
  lemma ImmediateFitsField(v: int)
    ensures ImmediateFits(v) <==> Signed(v, 16) == v
  {
    assert Pow2(15) == 32768;
  }

  /** checkParamValue: atol of the text fits the signed 16-bit immediate. */
  function CheckParamValue(param: string): (r: Boolean)
    ensures r == True <==> ImmediateFits(Atol(param))
  {
    var check := Atol(param);
    if -32768 > check || check > 32768 - 1 then False else True
  }

  /** checkCommas: each comma-separated field, trimmed, must be non-empty
      (else multiple_commas) and hold no white space (else missing_comma);
      the first bad field decides. */
  function CheckCommas(params: string): (r: ErrorType)
    ensures r == Valid <==> AllClean(Fields(params, ','))
    ensures r == Valid || r == MultipleCommas || r == MissingComma
  {
    FirstFieldError(Fields(params, ','))
  }

  predicate AllClean(fields: seq<string>) {
    forall i :: 0 <= i < |fields| ==> FieldIsClean(fields[i])
  }

  /** A field that needs no comma before or after it. */
  predicate FieldIsClean(f: string) {
    Trim(f) != "" && NoSpace(Trim(f))
  }

  function FieldError(f: string): (r: ErrorType)
    ensures r == Valid <==> FieldIsClean(f)
  {
    var t := Trim(f);
    if t == "" then MultipleCommas
    else if exists i :: 0 <= i < |t| && IsSpace(t[i]) then MissingComma
    else Valid
  }

  function FirstFieldError(fields: seq<string>): (r: ErrorType)
    ensures r == Valid <==> AllClean(fields)
    ensures r == Valid || r == MultipleCommas || r == MissingComma
  {
    if |fields| == 0 then Valid
    else if FieldError(fields[0]) != Valid then FieldError(fields[0])
    else
      var r := FirstFieldError(fields[1..]);
      assert r == Valid <==> AllClean(fields) by {
        if r == Valid {
          forall i | 0 <= i < |fields|
            ensures FieldIsClean(fields[i])
          {
            if i > 0 {
              assert fields[i] == fields[1..][i - 1];
            }
          }
        }
      }
      r
  }

  /** Operands written one per comma with nothing else between are clean. */
  lemma CommasOfJoin(items: seq<string>)
    requires |items| >= 1
    requires forall i :: 0 <= i < |items| ==> |items[i]| > 0 && NoSpace(items[i]) && ',' !in items[i]
    ensures CheckCommas(Join(items, ',')) == Valid
  {
    FieldsOfJoin(items, ',');
    forall i | 0 <= i < |items|
      ensures FieldIsClean(items[i])
    {
      TrimNoSpaceEnds(items[i]);
    }
  }

  /** The i-th operand token, trimmed. */
  function Operand(arr: seq<string>, i: nat): string
    requires i < |arr|
  {
    Trim(arr[i])
  }

  predicate IsRegister(arr: seq<string>, i: nat)
    requires i < |arr|
  {
    Operand(arr, i) in RegisterNames
  }

  predicate IsImmediate(arr: seq<string>, i: nat)
    requires i < |arr|
  {
    ImmediateFits(Atol(Operand(arr, i)))
  }

  /** Some label in the table is named by the i-th operand. */
  predicate IsKnownLabel(labels: seq<Label>, arr: seq<string>, i: nat)
    requires i < |arr|
  {
    FirstLabel(labels, Operand(arr, i)) < |labels|
  }

  /** The operand shapes each sub-family accepts. */
  predicate OperandsFit(labels: seq<Label>, t: CmdSubtype, arr: seq<string>)
    requires |arr| >= Arity(t)
  {
    match t
    case RArithmetic => IsRegister(arr, 0) && IsRegister(arr, 1) && IsRegister(arr, 2)
    case RMove => IsRegister(arr, 0) && IsRegister(arr, 1)
    case IArithmetic => IsRegister(arr, 0) && IsImmediate(arr, 1) && IsRegister(arr, 2)
    case IBranch => IsRegister(arr, 0) && IsImmediate(arr, 1) && IsKnownLabel(labels, arr, 2)
    case JJump => IsRegister(arr, 0) || IsKnownLabel(labels, arr, 0)
    case JLabel => IsKnownLabel(labels, arr, 0)
    case Stop => false
  }

  /** Tests on the i-th token, as the source's `&&` and `||` chains evaluate
      them left to right; reading past the tokens is None. */
  function RegisterTest(arr: seq<string>, i: nat): (r: Option<bool>)
    ensures i < |arr| ==> r == Some(IsRegister(arr, i))
    ensures i >= |arr| ==> r.None?
  {
    if i < |arr| then Some(CheckRegisterName(Trim(arr[i])) == Valid) else None
  }

  function ValueTest(arr: seq<string>, i: nat): (r: Option<bool>)
    ensures i < |arr| ==> r == Some(IsImmediate(arr, i))
    ensures i >= |arr| ==> r.None?
  {
    if i < |arr| then Some(CheckParamValue(Trim(arr[i])) == True) else None
  }

  function LabelTest(labels: seq<Label>, arr: seq<string>, i: nat): (r: Option<bool>)
    ensures i < |arr| ==> r == Some(IsKnownLabel(labels, arr, i))
    ensures i >= |arr| ==> r.None?
  {
    if i < |arr| then Some(IsLabelExists(labels, Trim(arr[i])) == True) else None
  }

  /** validateParameters for add/sub/and/or/nor: three registers. */
  function ValidateRArithmetic(arr: seq<string>): (r: Option<ErrorType>)
    ensures r == Some(Valid) ==> |arr| >= 3
    ensures |arr| >= 3 ==> r == Some(if OperandsFit([], RArithmetic, arr) then Valid else RegisterName)
    ensures r.Some? ==> r.value == Valid || r.value == RegisterName
  {
    var r0, r1, r2 := RegisterTest(arr, 0), RegisterTest(arr, 1), RegisterTest(arr, 2);
    if r0.None? then None
    else if !r0.value then Some(RegisterName)
    else if r1.None? then None
    else if !r1.value then Some(RegisterName)
    else if r2.None? then None
    else if !r2.value then Some(RegisterName)
    else Some(Valid)
  }

  /** validateParameters for move/mvhi/mvlo: two registers. */
  function ValidateRMove(arr: seq<string>): (r: Option<ErrorType>)
    ensures r == Some(Valid) ==> |arr| >= 2
    ensures |arr| >= 2 ==> r == Some(if OperandsFit([], RMove, arr) then Valid else RegisterName)
    ensures r.Some? ==> r.value == Valid || r.value == RegisterName
  {
    var r0, r1 := RegisterTest(arr, 0), RegisterTest(arr, 1);
    if r0.None? then None
    else if !r0.value then Some(RegisterName)
    else if r1.None? then None
    else if !r1.value then Some(RegisterName)
    else Some(Valid)
  }

  /** validateParameters for the arithmetic and memory I commands: register,
      immediate, register; a bad register is reported before a bad value. */
  function ValidateIArithmetic(arr: seq<string>): (r: Option<ErrorType>)
    ensures r == Some(Valid) ==> |arr| >= 3
    ensures |arr| >= 3 ==> r.Some?
    ensures |arr| >= 3 ==> (r == Some(Valid) <==> OperandsFit([], IArithmetic, arr))
    ensures r.Some? ==> r.value == Valid || r.value == RegisterName || r.value == ValueOutOfRange
    ensures |arr| >= 3 && !OperandsFit([], IArithmetic, arr) ==>
      r == Some(if IsRegister(arr, 0) && IsRegister(arr, 2) then ValueOutOfRange else RegisterName)
  {
    // The source tests all three together, then the two registers, then
    // the value; a test that reads a missing token crashes (None) at the
    // point the source first evaluates it.
    var r0, v1, r2 := RegisterTest(arr, 0), ValueTest(arr, 1), RegisterTest(arr, 2);
    if r0.None? then None
    else if !r0.value then Some(RegisterName)
    else if v1.None? || r2.None? then None
    else if !r2.value then Some(RegisterName)
    else if !v1.value then Some(ValueOutOfRange)
    else Some(Valid)
  }

  /** validateParameters for the branches: register, immediate, known
      label, reported in that order. */
  function ValidateIBranch(labels: seq<Label>, arr: seq<string>): (r: Option<ErrorType>)
    ensures r == Some(Valid) ==> |arr| >= 3
    ensures |arr| >= 3 ==> r.Some?
    ensures |arr| >= 3 ==> (r == Some(Valid) <==> OperandsFit(labels, IBranch, arr))
    ensures r.Some? ==> ShapeVerdict(r.value) && r.value != WrongParameters
    ensures |arr| >= 3 && !OperandsFit(labels, IBranch, arr) ==>
      r == Some(if !IsRegister(arr, 0) then RegisterName
                else if !IsImmediate(arr, 1) then ValueOutOfRange
                else LabelDoesntExist)
  {
    BranchVerdict(RegisterTest(arr, 0), ValueTest(arr, 1), LabelTest(labels, arr, 2))
  }

  /** The branch operand tests, all three together and then each in turn: a
      test that reads a missing token crashes (None) at the point the source
      first evaluates it. */
  function BranchVerdict(r0: Option<bool>, v1: Option<bool>, l2: Option<bool>): (r: Option<ErrorType>)
    ensures r == Some(Valid) <==> r0 == Some(true) && v1 == Some(true) && l2 == Some(true)
    ensures r0.Some? && v1.Some? && l2.Some? ==>
      r == Some(if !r0.value then RegisterName else if !v1.value then ValueOutOfRange
                else if !l2.value then LabelDoesntExist else Valid)
    ensures r.Some? ==> r.value in {Valid, RegisterName, ValueOutOfRange, LabelDoesntExist}
  {
    if r0.None? then None
    else if !r0.value then Some(RegisterName)
    else if v1.None? then None
    else if !v1.value then Some(ValueOutOfRange)
    else if l2.None? then None
    else if l2.value then Some(Valid)
    else Some(LabelDoesntExist)
  }

  /** validateParameters for jmp: a register or a known label. */
  function ValidateJJump(labels: seq<Label>, arr: seq<string>): (r: Option<ErrorType>)
    ensures r == Some(Valid) ==> |arr| >= 1
    ensures |arr| >= 1 ==> r == Some(if OperandsFit(labels, JJump, arr) then Valid else WrongParameters)
    ensures r.Some? ==> r.value == Valid || r.value == WrongParameters
  {
    var r0, l0 := RegisterTest(arr, 0), LabelTest(labels, arr, 0);
    if r0.None? then None
    else
      assert l0.Some? && OperandsFit(labels, JJump, arr) == (r0.value || l0.value);
      if r0.value || l0.value then Some(Valid) else Some(WrongParameters)
  }

  /** validateParameters for la/call: a known label. */
  function ValidateJLabel(labels: seq<Label>, arr: seq<string>): (r: Option<ErrorType>)
    ensures r == Some(Valid) ==> |arr| >= 1
    ensures |arr| >= 1 ==> r == Some(if OperandsFit(labels, JLabel, arr) then Valid else LabelDoesntExist)
    ensures r.Some? ==> r.value == Valid || r.value == LabelDoesntExist
  {
    var l0 := LabelTest(labels, arr, 0);
    if l0.None? then None else if l0.value then Some(Valid) else Some(LabelDoesntExist)
  }

  /** The verdicts the operand-shape tests can give. */
  predicate ShapeVerdict(e: ErrorType) {
    e == Valid || e == RegisterName || e == ValueOutOfRange || e == LabelDoesntExist || e == WrongParameters
  }

  /** validateParameters: dispatch on the sub-family; stop has no operand
      shape at all (wrong_parameters). With as many tokens as the arity
      the result is defined, and valid exactly when the operands fit. */
  function ValidateParameters(labels: seq<Label>, t: CmdSubtype, arr: seq<string>): (r: Option<ErrorType>)
    ensures r == Some(Valid) ==> |arr| >= Arity(t)
    ensures |arr| >= Arity(t) ==> r.Some?
    ensures |arr| >= Arity(t) ==> (r == Some(Valid) <==> OperandsFit(labels, t, arr))
    ensures t == Stop ==> r == Some(WrongParameters)
    ensures r.Some? ==> ShapeVerdict(r.value)
  {
    match t
    case RArithmetic => ValidateRArithmetic(arr)
    case RMove => ValidateRMove(arr)
    case IArithmetic => ValidateIArithmetic(arr)
    case IBranch => ValidateIBranch(labels, arr)
    case JJump => ValidateJJump(labels, arr)
    case JLabel => ValidateJLabel(labels, arr)
    case Stop => Some(WrongParameters)
  }

  /** checkParamStandard: split the operands at commas and check them;
      strSplit's abort is None. */
  function CheckParamStandard(parameters: string, labels: seq<Label>, t: CmdSubtype): (r: Option<ErrorType>)
    ensures r == Some(Valid) <==>
      StrSplit(parameters, ',').Some? && |StrSplit(parameters, ',').value| >= Arity(t) &&
      OperandsFit(labels, t, StrSplit(parameters, ',').value)
    ensures r.Some? ==> ShapeVerdict(r.value)
  {
    match StrSplit(parameters, ',')
    case None => None
    case Some(arr) => ValidateParameters(labels, t, arr)
  }

  /** A legal label: 1 to 31 letters and digits starting with a letter, and
      not a mnemonic. */
  predicate LegalLabel(l: string) {
    && 1 <= |l| <= 31
    && IsAlpha(l[0])
    && (forall i :: 0 <= i < |l| ==> IsAlnum(l[i]))
    && l !in CommandsTable
  }

  /** checkLabelName. Register and directive names are refused too, but they
      start with '$' and '.', which the first-letter test already refuses. */
  function CheckLabelName(lbl: Option<string>): (r: ErrorType)
    ensures r == Valid <==> lbl.None? || LegalLabel(lbl.value)
    ensures r == Valid || r == LabelSyntax
  {
    match lbl
    case None => Valid
    case Some(l) =>
      if |l| > 31 then LabelSyntax
      else if |l| == 0 || !IsAlpha(l[0]) then LabelSyntax
      else LetterLabel(l)
  }

  /** checkLabelName on a short name starting with a letter: the reserved
      names, then the characters. */
  function LetterLabel(l: string): (r: ErrorType)
    requires 1 <= |l| <= 31 && IsAlpha(l[0])
    ensures r == Valid <==> LegalLabel(l)
    ensures r == Valid || r == LabelSyntax
  {
    if IsReservedName(l) then LabelSyntax
    else LabelCharacters(l)
  }

  /** The last test of checkLabelName: every character after the first is
      a letter or a digit. */
  function LabelCharacters(l: string): (r: ErrorType)
    requires |l| > 0 && IsAlpha(l[0])
    ensures r == Valid <==> forall i :: 0 <= i < |l| ==> IsAlnum(l[i])
    ensures r == Valid || r == LabelSyntax
  {
    if exists i :: 1 <= i < |l| && !IsAlnum(l[i]) then LabelSyntax
    else Valid
  }

  /** The register, mnemonic and directive tests of checkLabelName: on a
      name starting with a letter only the mnemonics can match. */
  function IsReservedName(l: string): (r: bool)
    requires |l| > 0 && IsAlpha(l[0])
    ensures r <==> l in CommandsTable
  {
    ReservedNamesAreNotLetters(l);
    CheckRegisterName(l) == Valid || CheckCommandName(l) == Valid || CheckOrderName(l) == Valid
  }

  /** Register names start with '$' and directives with '.'. */
  lemma ReservedNamesAreNotLetters(l: string)
    requires |l| > 0 && IsAlpha(l[0])
    ensures l !in RegisterNames && l !in Directives
  {
    assert forall i :: 0 <= i < |RegisterNames| ==> RegisterNames[i][0] == '$';
    assert forall i :: 0 <= i < |Directives| ==> Directives[i][0] == '.';
  }

  /** checkAsciz: the trimmed operand must start and end with '"' and every
      character before the last must be printable. A NULL operand is
      number_of_parameters. */
  function CheckAsciz(ascizStr: Option<string>): (r: ErrorType)
    ensures ascizStr.None? <==> r == NumberOfParameters
    ensures r == Valid || r == NumberOfParameters || r == MissingQuotations || r == NotAPrintedSymbol
  {
    match ascizStr
    case None => NumberOfParameters
    case Some(a) =>
      var s := Trim(a);
      if |s| == 0 || s[0] != '"' || s[|s| - 1] != '"' then MissingQuotations
      else if !AllPrint(s[..|s| - 1]) then NotAPrintedSymbol
      else Valid
  }

  predicate AllPrint(s: string) {
    forall i :: 0 <= i < |s| ==> IsPrint(s[i])
  }

  /** A quoted string of printable characters passes. */
  lemma AscizOfQuotedText(text: string)
    ensures CheckAsciz(Some("\"" + text + "\"")) == Valid <==> AllPrint(text)
  {
    var q := "\"" + text + "\"";
    assert q[0] == '"' && q[|q| - 1] == '"';
    TrimNoSpaceEnds(q);
    AscizOfTrimmed(q);
    assert q[..|q| - 1] == "\"" + text;
    AllPrintQuoted(text);
  }

  lemma AscizOfTrimmed(a: string)
    requires Trim(a) == a && |a| > 0 && a[0] == '"' && a[|a| - 1] == '"'
    ensures CheckAsciz(Some(a)) == Valid <==> AllPrint(a[..|a| - 1])
  {
  }

  lemma AllPrintQuoted(text: string)
    ensures AllPrint("\"" + text) <==> AllPrint(text)
  {
    var s := "\"" + text;
    assert forall i :: 0 <= i < |text| ==> s[i + 1] == text[i];
    if AllPrint(text) {
      forall i | 0 <= i < |s|
        ensures IsPrint(s[i])
      {
        if i > 0 {
          assert s[i] == text[i - 1];
        }
      }
    }
  }

  /** Only the characters before the last are inspected, so a lone '"'
      passes as well. */
  lemma AscizLoneQuote()
    ensures CheckAsciz(Some("\"")) == Valid
  {
    TrimNoSpaceEnds("\"");
  }

  /** checkOrderParamValue exactly as written: .dw accepts [-2^31, 2^31),
      but .db accepts only [-128, 127) and .dh only [-32768, 32767), because
      the upper bound is compared with `<` against DB_MAX - 1 and DH_MAX - 1.
      Any other kind is out of range. */
  function CheckOrderParamValueAsWritten(param: string, t: OrderType): (r: ErrorType)
    ensures r == Valid || r == ValueOutOfRange
    ensures r == Valid <==> DataFitsAsWritten(Atol(param), t)
    ensures t == Db ==> (r == Valid <==> -128 <= Atol(param) < 127)
    ensures t == Dh ==> (r == Valid <==> -32768 <= Atol(param) < 32767)
    ensures t == Dw ==> (r == Valid <==> -2147483648 <= Atol(param) < 2147483648)
  {
    ValueVerdictAsWritten(Atol(param), t)
  }

  /** The range test of checkOrderParamValue as written, on the value atol
      gives. */
  function ValueVerdictAsWritten(check: int, t: OrderType): (r: ErrorType)
    ensures r == Valid || r == ValueOutOfRange
    ensures r == Valid <==> DataFitsAsWritten(check, t)
    ensures t == Db ==> (r == Valid <==> -128 <= check < 127)
    ensures t == Dh ==> (r == Valid <==> -32768 <= check < 32767)
    ensures t == Dw ==> (r == Valid <==> -2147483648 <= check < 2147483648)
  {
    match t
    case Dw => if -2147483648 <= check && check < 2147483648 then Valid else ValueOutOfRange
    case Db => if -128 <= check && check < 128 - 1 then Valid else ValueOutOfRange
    case Dh => if -32768 <= check && check < 32768 - 1 then Valid else ValueOutOfRange
    case _ => ValueOutOfRange
  }

  lemma AtolOf127()
    ensures Atol("127") == 127
  {
    assert DecimalString(127) == DecimalString(12) + [DigitChar(7)];
    assert DecimalString(12) == DecimalString(1) + [DigitChar(2)];
    assert IntString(127) == "127";
    AtolIntString(127);
  }

  lemma AtolOf32767()
    ensures Atol("32767") == 32767
  {
    assert IntString(32767) == "32767" by { DecimalOf32767(); }
    AtolIntString(32767);
  }

  lemma DecimalOf32767()
    ensures DecimalString(32767) == "32767"
  {
    assert DecimalString(3276) == "3276" by { DecimalOf3276(); }
    assert DecimalString(32767) == DecimalString(3276) + [DigitChar(7)];
  }

  lemma DecimalOf3276()
    ensures DecimalString(3276) == "3276"
  {
    assert DecimalString(327) == "327" by { DecimalOf327(); }
    assert DecimalString(3276) == DecimalString(327) + [DigitChar(6)];
  }

  lemma DecimalOf327()
    ensures DecimalString(327) == "327"
  {
    assert DecimalString(32) == DecimalString(3) + [DigitChar(2)];
    assert DecimalString(327) == DecimalString(32) + [DigitChar(7)];
  }

  /** The largest byte and half-word are refused although they fit. */
  lemma AsWrittenRefusesLargestValues()
    ensures CheckOrderParamValueAsWritten("127", Db) == ValueOutOfRange
    ensures CheckOrderParamValueAsWritten("32767", Dh) == ValueOutOfRange
    ensures DataFits(127, Db) && DataFits(32767, Dh)
  {
    AtolOf127();
    AtolOf32767();
  }

  /** The ranges checkOrderParamValue accepts as written: the signed range
      of the item size without its largest value for .db and .dh. */
  predicate DataFitsAsWritten(v: int, t: OrderType) {
    DataFits(v, t) && !(t == Db && v == 127) && !(t == Dh && v == 32767)
  }

  /** The signed range of each data directive's item size. */
  predicate DataFits(v: int, t: OrderType) {
    match t
    case Db => -128 <= v < 128
    case Dh => -32768 <= v < 32768
    case Dw => -2147483648 <= v < 2147483648
    case _ => false
  }

  /** The item size of each data directive, in bytes (1 for the others). */
  function OrderBytes(t: OrderType): nat {
    match t
    case Dh => 2
    case Dw => 4
    case _ => 1
  }

  /** A value is in range exactly when the item's bytes hold it. */
  lemma DataFitsItem(v: int, t: OrderType)
    ensures DataFits(v, t) <==> t in {Db, Dh, Dw} && Signed(v, 8 * OrderBytes(t)) == v
  {
    Pow2Values();
  }

  /** checkOrderParamValue with the full signed range of each size. This is
      the check the rest of the model uses. */
  function CheckOrderParamValue(param: string, t: OrderType): (r: ErrorType)
    ensures r == Valid || r == ValueOutOfRange
    ensures r == Valid <==> DataFits(Atol(param), t)
  {
    var check := Atol(param);
    match t
    case Dw => if -2147483648 <= check && check < 2147483648 then Valid else ValueOutOfRange
    case Db => if -128 <= check && check < 128 then Valid else ValueOutOfRange
    case Dh => if -32768 <= check && check < 32768 then Valid else ValueOutOfRange
    case _ => ValueOutOfRange
  }

  /** The two checks differ only at the top of the .db and .dh ranges. */
  lemma AsWrittenDiffersOnlyAtTop(param: string, t: OrderType)
    ensures CheckOrderParamValueAsWritten(param, t) != CheckOrderParamValue(param, t) <==>
      (t == Db && Atol(param) == 127) || (t == Dh && Atol(param) == 32767)
  {
  }

  /** validateCommand: a line whose trimmed text starts with ':' has an empty
      label; otherwise the checks of runCommandValidation. None where the
      line has no mnemonic (sortCmd reads it). */
  function ValidateCommand(command: string, labels: seq<Label>): (r: Option<ErrorType>)
    ensures r.Some? ==> CommandParts(command).Some? && CommandParts(command).value.cmdName.Some?
    ensures r.Some? && command[0] == ':' ==> r == Some(EmptyLabel)
    ensures r.Some? && command[0] != ':' ==>
      var p := CommandParts(command).value;
      && (r == Some(LabelSyntax) <==> p.labelName.Some? && !LegalLabel(p.labelName.value))
      && (r == Some(CommandName) <==>
            (p.labelName.None? || LegalLabel(p.labelName.value)) && p.cmdName.value !in CommandsTable)
      && (r == Some(Valid) <==>
            && (p.labelName.None? || LegalLabel(p.labelName.value))
            && p.cmdName.value in CommandsTable
            && (p.params.Some? ==> OperandsValid(command, labels, SortCmd(p.cmdName.value), p.params.value)))
  {
    match CommandParts(command)
    case None => None
    case Some(parts) =>
      if parts.cmdName.None? then None
      else
        var t := SortCmd(parts.cmdName.value);
        if command[0] == ':' then Some(EmptyLabel)
        else RunCommandValidation(command, labels, t, parts.cmdName.value, parts.labelName, parts.params)
  }

  /** runCommandValidation: label syntax, mnemonic, and then, when there are
      operands, the operand checks. */
  function RunCommandValidation(command: string, labels: seq<Label>, t: CmdSubtype, cmdName: string,
                                lbl: Option<string>, params: Option<string>): (r: Option<ErrorType>)
    ensures r == Some(LabelSyntax) <==> lbl.Some? && !LegalLabel(lbl.value)
    ensures r == Some(CommandName) <==> (lbl.None? || LegalLabel(lbl.value)) && cmdName !in CommandsTable
    ensures r == Some(Valid) <==>
      (lbl.None? || LegalLabel(lbl.value)) && cmdName in CommandsTable &&
      (params.Some? ==> OperandsValid(command, labels, t, params.value))
  {
    var check := CheckNames(lbl, cmdName);
    if check != Valid then Some(check)
    else
      if params.None? then Some(Valid)
      else
        OperandsNeverNameErrors(command, labels, t, params.value);
        CheckOperands(command, labels, t, params.value)
  }

  /** The first two checks of runCommandValidation: the label, then the
      mnemonic. */
  function CheckNames(lbl: Option<string>, cmdName: string): (r: ErrorType)
    ensures r == LabelSyntax <==> lbl.Some? && !LegalLabel(lbl.value)
    ensures r == CommandName <==> (lbl.None? || LegalLabel(lbl.value)) && cmdName !in CommandsTable
    ensures r == Valid || r == LabelSyntax || r == CommandName
  {
    var check := CheckLabelName(lbl);
    if check != Valid then check else CheckCommandName(cmdName)
  }

  /** The operand checks never report a label or mnemonic error. */
  lemma OperandsNeverNameErrors(command: string, labels: seq<Label>, t: CmdSubtype, params: string)
    ensures CheckOperands(command, labels, t, params) != Some(LabelSyntax)
    ensures CheckOperands(command, labels, t, params) != Some(CommandName)
  {
  }

  /** What the operand checks demand of a line with operands: clean commas,
      as many operands as the arity, and operands of the right shapes. */
  predicate OperandsValid(command: string, labels: seq<Label>, t: CmdSubtype, params: string) {
    && AllClean(Fields(params, ','))
    && NumOfParamData(command) == Some(Arity(t))
    && StrSplit(params, ',').Some?
    && |StrSplit(params, ',').value| >= Arity(t)
    && OperandsFit(labels, t, StrSplit(params, ',').value)
  }

  /** The operand part of runCommandValidation: commas, then count, then
      shapes, each stopping at its first error. */
  function CheckOperands(command: string, labels: seq<Label>, t: CmdSubtype, params: string): (r: Option<ErrorType>)
    ensures r == Some(Valid) <==> OperandsValid(command, labels, t, params)
    ensures r.Some? && !AllClean(Fields(params, ',')) ==> r.value == MultipleCommas || r.value == MissingComma
    ensures r.Some? ==>
      (ShapeVerdict(r.value) || r.value == MultipleCommas || r.value == MissingComma ||
       r.value == MissingParam || r.value == ExtraneousParam)
  {
    var check := CheckCommas(params);
    if check != Valid then Some(check)
    else if NumOfParamData(command).None? then None
    else
      var check := CheckParamNum(command, t);
      if check != Valid then Some(check)
      else CheckParamStandard(params, labels, t)
  }

  /** validateOrder exactly as written. The operand count is computed
      before anything else, so a line it cannot count (an .asciz without
      operands) is None, as is an operand list strSplit aborts on. A
      directive without operands is valid and its label is not checked.
      strSplit tokenises the operand text in place, and the later checks
      read that same text: they see only the residue up to the first comma
      (after any leading commas). */
  function ValidateOrderAsWritten(order: string, labels: seq<Label>): (r: Option<ErrorType>)
    ensures r.Some? ==> NumOfParamData(order).Some? && CommandParts(order).value.cmdName.Some?
    ensures r.Some? && order[0] == ':' ==> r == Some(EmptyLabel)
    ensures r.Some? && order[0] != ':' && CommandParts(order).value.params.None? ==> r == Some(Valid)
  {
    OrderChecks(order, labels, true)
  }

  /** validateOrder with the operand checks reading the whole operand text,
      as they evidently mean to. This is the version the rest of the model
      uses. With the commas checked on the whole text, the value loop never
      runs past the tokens: the line is undefined only where the count or
      strSplit is. */
  function ValidateOrder(order: string, labels: seq<Label>): (r: Option<ErrorType>)
    ensures r.Some? ==> NumOfParamData(order).Some? && CommandParts(order).value.cmdName.Some?
    ensures r.Some? && order[0] == ':' ==> r == Some(EmptyLabel)
    ensures r.Some? && order[0] != ':' && CommandParts(order).value.params.None? ==> r == Some(Valid)
    ensures r.None? ==>
      || NumOfParamData(order).None?
      || (var p := CommandParts(order).value.params; p.Some? && StrSplit(p.value, ',').None?)
  {
    OrderChecksDefined(order, labels);
    OrderChecks(order, labels, false)
  }

  /** Reading the whole operand text, the checks are undefined only where
      the count or strSplit is. */
  lemma OrderChecksDefined(order: string, labels: seq<Label>)
    ensures OrderChecks(order, labels, false).None? ==>
      || NumOfParamData(order).None?
      || (var p := CommandParts(order).value.params; p.Some? && StrSplit(p.value, ',').None?)
  {
    if OrderChecks(order, labels, false).None? && NumOfParamData(order).Some? && order[0] != ':' {
      var parts := CommandParts(order).value;
      var params := parts.params.value;
      if StrSplit(params, ',').Some? {
        var t := SortOrder(parts.cmdName.value);
        var paramStr := StrSplit(params, ',').value;
        var n := NumOfParamData(order).value;
        assert RunOrderValidation(labels, n, t, paramStr, parts.cmdName.value, parts.labelName, params, false).None?;
        CleanOperandsSplit(params);
      }
    }
  }

  /** The parts, count, split and residue of ".db 1,2,". */
  lemma TrailingCommaLine(order: string, params: string)
    requires order == ".db 1,2," && params == "1,2,"
    ensures CommandParts(order) == Some(LineParts(None, Some(".db"), Some(params)))
    ensures Fields(params, ',') == ["1", "2", ""]
    ensures NumOfParamData(order) == Some(3)
    ensures StrSplit(params, ',') == Some(["1", "2"])
    ensures SplitResidue(params, ',') == "1"
  {
    TrailingCommaParts(order, params);
    TrailingCommaFields(params);
    TrailingCommaSplit(params);
    TrailingCommaResidue(params);
  }

  lemma TrailingCommaParts(order: string, params: string)
    requires order == ".db 1,2," && params == "1,2,"
    ensures CommandParts(order) == Some(LineParts(None, Some(".db"), Some(params)))
  {
    assert order == SpellLine(None, ".db", Some(params));
    assert Spellable(None, ".db", Some(params));
    CommandPartsOfSpelledLine(None, ".db", Some(params));
  }

  lemma TrailingCommaFields(params: string)
    requires params == "1,2,"
    ensures Fields(params, ',') == ["1", "2", ""]
  {
    assert params == Join(["1", "2", ""], ',');
    FieldsOfJoin(["1", "2", ""], ',');
  }

  lemma TrailingCommaSplit(params: string)
    requires params == "1,2,"
    ensures StrSplit(params, ',') == Some(["1", "2"])
  {
    TrailingCommaFields(params);
    assert NonEmpty(["1", "2", ""]) == ["1", "2"];
    assert params[|params| - 1] == ',';
    assert SplitSlots(params, ',') == 3;
  }

  lemma TrailingCommaResidue(params: string)
    requires params == "1,2,"
    ensures SplitResidue(params, ',') == "1"
  {
    assert params[0] != ',' && params[1] == ',';
    assert Span(params, {','}) == 1;
  }

  lemma ValueOneAndTwo()
    ensures Atol(Trim("1")) == 1 && Atol(Trim("2")) == 2
  {
    TrimNoSpaceEnds("1");
    TrimNoSpaceEnds("2");
    assert IntString(1) == "1" && IntString(2) == "2";
    AtolIntString(1);
    AtolIntString(2);
  }

  /** A data line ending in a comma: as written the comma check sees only
      "1", passes, and the value loop reads a third value that is not there
      (atol of NULL); read whole, the empty last operand is reported. */
  lemma TrailingCommaAsWritten()
    ensures ValidateOrderAsWritten(".db 1,2,", []) == None
    ensures ValidateOrder(".db 1,2,", []) == Some(MultipleCommas)
  {
    TrailingCommaOutcomes(".db 1,2,", "1,2,");
  }

  lemma TrailingCommaOutcomes(order: string, params: string)
    requires order == ".db 1,2," && params == "1,2,"
    ensures ValidateOrderAsWritten(order, []) == None
    ensures ValidateOrder(order, []) == Some(MultipleCommas)
  {
    TrailingCommaLine(order, params);
    var paramStr := ["1", "2"];
    var residue := SplitResidue(params, ',');
    assert order[0] == '.';
    assert SortOrder(".db") == Db && ".db" in Directives;
    OrderChecksOfOperands(order, [], true, None, ".db", params, 3, paramStr);
    OrderChecksOfOperands(order, [], false, None, ".db", params, 3, paramStr);
    DataLineChecks([], 3, Db, paramStr, ".db", None, residue, true);
    DataLineChecks([], 3, Db, paramStr, ".db", None, params, false);
    ResidueDataOutcome(paramStr, residue);
    WholeDataOutcome(paramStr, params);
  }

  /** A data directive with a single clean operand: the split, the residue
      and the whole text are all that operand, so the two readings differ
      only in the range of the value check. */
  lemma SingleOperandLine(order: string, cmd: string, p: string)
    requires cmd in {".db", ".dh", ".dw"} && Spellable(None, cmd, Some(p)) && order == SpellLine(None, cmd, Some(p))
    requires NoSpace(p) && ',' !in p
    ensures ValidateOrderAsWritten(order, []) == Some(CheckOrderParamValueAsWritten(p, SortOrder(cmd)))
    ensures ValidateOrder(order, []) == Some(CheckOrderParamValue(p, SortOrder(cmd)))
  {
    SingleOperandFacts(order, cmd, p);
    SingleOperandChecks(order, cmd, p, true);
    SingleOperandChecks(order, cmd, p, false);
  }

  /** Either reading of validateOrder on a one-operand data line. */
  lemma SingleOperandChecks(order: string, cmd: string, p: string, w: bool)
    requires cmd in {".db", ".dh", ".dw"}
    requires CommandParts(order) == Some(LineParts(None, Some(cmd), Some(p)))
    requires NumOfParamData(order) == Some(1) && order[0] != ':'
    requires StrSplit(p, ',') == Some([p]) && SplitResidue(p, ',') == p
    requires CheckCommas(p) == Valid && Trim(p) == p
    ensures OrderChecks(order, [], w) == Some(ValueCheck(p, SortOrder(cmd), w))
  {
    var t := SortOrder(cmd);
    assert t in {Db, Dh, Dw} && cmd in Directives;
    OrderChecksOfOperands(order, [], w, None, cmd, p, 1, [p]);
    DataLineChecks([], 1, t, [p], cmd, None, p, w);
    SingleValueOutcome(p, t, w);
  }

  /** The parts, count, split, residue and commas of a one-operand data line. */
  lemma SingleOperandFacts(order: string, cmd: string, p: string)
    requires cmd in {".db", ".dh", ".dw"} && Spellable(None, cmd, Some(p)) && order == SpellLine(None, cmd, Some(p))
    requires NoSpace(p) && ',' !in p
    ensures CommandParts(order) == Some(LineParts(None, Some(cmd), Some(p)))
    ensures NumOfParamData(order) == Some(1) && order[0] != ':'
    ensures StrSplit(p, ',') == Some([p]) && SplitResidue(p, ',') == p
    ensures CheckCommas(p) == Valid && Trim(p) == p
  {
    CommandPartsOfSpelledLine(None, cmd, Some(p));
    SingleItemFields(p);
    assert cmd != ".asciz" && cmd[0] == '.';
    assert order[0] == cmd[0];
  }

  lemma SingleItemJoin(p: string)
    ensures Join([p], ',') == p
  {
  }

  lemma SingleItemFields(p: string)
    requires |p| > 0 && NoSpace(p) && ',' !in p
    ensures Fields(p, ',') == [p] && StrSplit(p, ',') == Some([p]) && SplitResidue(p, ',') == p
    ensures CheckCommas(p) == Valid && Trim(p) == p
  {
    SingleItemJoin(p);
    FieldsOfJoin([p], ',');
    CommasOfJoin([p]);
    CleanOperandsSplit(p);
    SplitResidueIsFirstField(p, ',');
    TrimNoSpaceEnds(p);
  }

  /** One clean operand: the commas pass and the value check decides. */
  lemma SingleValueOutcome(p: string, t: OrderType, w: bool)
    requires t in {Db, Dh, Dw} && CheckCommas(p) == Valid && Trim(p) == p
    ensures CheckDataOperands([p], t, 1, p, w) == Some(ValueCheck(p, t, w))
  {
    var arr := [p];
    assert arr[0] == p;
    var v := ValueCheck(p, t, w);
    assert CheckValues(arr, t, 1, 1, w) == Some(Valid);
    assert CheckValues(arr, t, 0, 1, w) == Some(v);
  }

  /** A byte operand reading as 127, or a half-word operand reading as
      32767 (`.db 127`, `.dh 32767`): as written checkLine reports it out of
      range, corrected it is valid. */
  lemma LargestItemsAsWritten(line: string, cmd: string, p: string)
    requires cmd in {".db", ".dh"} && Spellable(None, cmd, Some(p)) && NoSpace(p) && ',' !in p
    requires line == SpellLine(None, cmd, Some(p))
    requires Atol(p) == if cmd == ".db" then 127 else 32767
    ensures CheckLine(line, []) == Some(ValueOutOfRange)
    ensures CheckLineCorrected(line, []) == Some(Valid)
  {
    DataLineValue(line, cmd, p);
  }

  /** `127` is such a byte operand. */
  lemma LargestByteOperand()
    ensures Spellable(None, ".db", Some("127")) && NoSpace("127") && ',' !in "127" && Atol("127") == 127
  {
    assert NoSpace("127") && ',' !in "127" && SpellableOperands(Some("127")) by { CleanOperand("127"); }
    assert Atol("127") == 127 by { AtolOf127(); }
    assert Spellable(None, ".db", Some("127")) by { DataMnemonicSpellable(".db"); }
  }

  /** `32767` is such a half-word operand. */
  lemma LargestHalfOperand()
    ensures Spellable(None, ".dh", Some("32767")) && NoSpace("32767") && ',' !in "32767" && Atol("32767") == 32767
  {
    assert NoSpace("32767") && ',' !in "32767" && SpellableOperands(Some("32767")) by { CleanOperand("32767"); }
    assert Atol("32767") == 32767 by { AtolOf32767(); }
    assert Spellable(None, ".dh", Some("32767")) by { DataMnemonicSpellable(".dh"); }
  }

  lemma DataMnemonicSpellable(cmd: string)
    requires cmd in {".db", ".dh", ".dw"}
    ensures |cmd| > 0 && NoSpace(cmd) && cmd[|cmd| - 1] != ':'
  {
    assert |cmd| == 3 && cmd[0] == '.' && cmd[1] == 'd' && cmd[2] in "bhw";
    forall i | 0 <= i < |cmd|
      ensures !IsSpace(cmd[i])
    {
    }
  }

  lemma CleanOperand(p: string)
    requires |p| > 0 && AllDigits(p)
    ensures NoSpace(p) && ',' !in p && SpellableOperands(Some(p))
  {
    assert forall i :: 0 <= i < |p| ==> IsDigit(p[i]);
  }

  /** checkLine on a data directive with one clean operand is the value
      check of that operand: as written under checkLine, corrected under
      the corrected checkLine. */
  lemma DataLineValue(line: string, cmd: string, p: string)
    requires cmd in {".db", ".dh", ".dw"} && Spellable(None, cmd, Some(p)) && line == SpellLine(None, cmd, Some(p))
    requires NoSpace(p) && ',' !in p
    ensures CheckLine(line, []) == Some(CheckOrderParamValueAsWritten(p, SortOrder(cmd)))
    ensures CheckLineCorrected(line, []) == Some(CheckOrderParamValue(p, SortOrder(cmd)))
  {
    assert cmd in OrderNames && cmd[0] == '.';
    CheckLineOfSpelledLine(line, [], None, cmd, Some(p));
    SingleOperandLine(line, cmd, p);
  }

  /** `.db 1,2,`: as written checkLine is undefined (atol of the NULL
      past the tokens), corrected it reports the empty last operand. */
  lemma TrailingCommaLineChecks()
    ensures CheckLine(".db 1,2,", []) == None
    ensures CheckLineCorrected(".db 1,2,", []) == Some(MultipleCommas)
  {
    var line := ".db 1,2,";
    assert line == SpellLine(None, ".db", Some("1,2,"));
    assert Spellable(None, ".db", Some("1,2,"));
    CheckLineOfSpelledLine(line, [], None, ".db", Some("1,2,"));
    TrailingCommaAsWritten();
  }

  /** validateOrder on a line with operands that strSplit accepts comes
      down to runOrderValidation. */
  lemma OrderChecksOfOperands(order: string, labels: seq<Label>, asWritten: bool, lbl: Option<string>,
                              cmd: string, params: string, n: int, paramStr: seq<string>)
    requires CommandParts(order) == Some(LineParts(lbl, Some(cmd), Some(params)))
    requires NumOfParamData(order) == Some(n) && order[0] != ':'
    requires StrSplit(params, ',') == Some(paramStr)
    ensures OrderChecks(order, labels, asWritten) ==
      RunOrderValidation(labels, n, SortOrder(cmd), paramStr, cmd, lbl,
                         if asWritten then SplitResidue(params, ',') else params, asWritten)
  {
  }

  /** For a data directive with a legal label the checks are those of its
      operands. */
  lemma DataLineChecks(labels: seq<Label>, n: int, t: OrderType, paramStr: seq<string>, cmd: string,
                       lbl: Option<string>, text: string, asWritten: bool)
    requires t in {Db, Dh, Dw} && cmd in Directives && (lbl.None? || LegalLabel(lbl.value))
    ensures RunOrderValidation(labels, n, t, paramStr, cmd, lbl, text, asWritten) ==
      CheckDataOperands(paramStr, t, n, text, asWritten)
  {
  }

  lemma ResidueDataOutcome(paramStr: seq<string>, residue: string)
    requires paramStr == ["1", "2"] && residue == "1"
    ensures CheckDataOperands(paramStr, Db, 3, residue, true) == None
  {
    CommasOfOne(residue);
    ValuesRunOut(paramStr);
  }

  lemma CommasOfOne(x: string)
    requires x == "1"
    ensures CheckCommas(x) == Valid
  {
    FieldsOfJoin([x], ',');
    TrimNoSpaceEnds(x);
  }

  lemma ValuesRunOut(paramStr: seq<string>)
    requires paramStr == ["1", "2"]
    ensures CheckValues(paramStr, Db, 0, 3, true) == None
  {
    ValueOneAndTwo();
    assert ValueCheck(Trim(paramStr[0]), Db, true) == Valid;
    assert ValueCheck(Trim(paramStr[1]), Db, true) == Valid;
    assert CheckValues(paramStr, Db, 2, 3, true) == None;
  }

  lemma WholeDataOutcome(paramStr: seq<string>, params: string)
    requires paramStr == ["1", "2"] && params == "1,2,"
    ensures CheckDataOperands(paramStr, Db, 3, params, false) == Some(MultipleCommas)
  {
    TrailingCommaFields(params);
    CommasOfTrailing(Fields(params, ','));
  }

  lemma CommasOfTrailing(f: seq<string>)
    requires f == ["1", "2", ""]
    ensures FirstFieldError(f) == MultipleCommas
  {
    OneCleanThenEmpty(f[1..]);
    CleanDigit(f[0]);
  }

  lemma OneCleanThenEmpty(f: seq<string>)
    requires f == ["2", ""]
    ensures FirstFieldError(f) == MultipleCommas
  {
    CleanDigit(f[0]);
    TrimNoSpaceEnds(f[1]);
    assert FirstFieldError(f[1..]) == MultipleCommas;
  }

  lemma CleanDigit(x: string)
    requires |x| == 1 && IsDigit(x[0])
    ensures FieldError(x) == Valid
  {
    assert !IsSpace(x[0]);
    TrimNoSpaceEnds(x);
    assert NoSpace(x);
    assert FieldIsClean(x);
  }

  /** Clean comma-separated operands split into exactly their fields. */
  lemma CleanOperandsSplit(params: string)
    requires AllClean(Fields(params, ','))
    ensures StrSplit(params, ',') == Some(Fields(params, ','))
  {
    var f := Fields(params, ',');
    assert forall i :: 0 <= i < |f| ==> f[i] != "" by {
      forall i | 0 <= i < |f|
        ensures f[i] != ""
      {
        assert FieldIsClean(f[i]);
        if f[i] == "" {
          TrimNoSpaceEnds(f[i]);
        }
      }
    }
    StrSplitDefined(params, ',');
  }

  /** The body of validateOrder. With `asWritten` the operand checks read
      the text strSplit has cut (its first token) and the value loop uses
      checkOrderParamValue as written; without it they read the whole
      operand text and use the corrected ranges. */
  function OrderChecks(order: string, labels: seq<Label>, asWritten: bool): (r: Option<ErrorType>)
    ensures r.Some? ==> NumOfParamData(order).Some? && CommandParts(order).value.cmdName.Some?
    ensures r.Some? && order[0] == ':' ==> r == Some(EmptyLabel)
    ensures r.Some? && order[0] != ':' && CommandParts(order).value.params.None? ==> r == Some(Valid)
  {
    match CommandParts(order)
    case None => None
    case Some(parts) =>
      match NumOfParamData(order)
      case None => None
      case Some(paramNum) =>
        var t := SortOrder(parts.cmdName.value);
        if order[0] == ':' then Some(EmptyLabel)
        else if parts.params.None? then Some(Valid)
        else
          var params := parts.params.value;
          match StrSplit(params, ',')
          case None => None
          case Some(paramStr) =>
            RunOrderValidation(labels, paramNum, t, paramStr, parts.cmdName.value, parts.labelName,
                               if asWritten then SplitResidue(params, ',') else params, asWritten)
  }

  /** runOrderValidation: label syntax and directive name, then the
      operands. */
  function RunOrderValidation(labels: seq<Label>, paramNum: int, t: OrderType, paramStr: seq<string>,
                              orderName: string, lbl: Option<string>, params: string, asWritten: bool): (r: Option<ErrorType>)
    ensures r == Some(LabelSyntax) <==> lbl.Some? && !LegalLabel(lbl.value)
    ensures r == Some(DirectiveName) <==> (lbl.None? || LegalLabel(lbl.value)) && orderName !in Directives
    ensures r == Some(Valid) <==>
      (lbl.None? || LegalLabel(lbl.value)) && orderName in Directives &&
      DirectiveOperandsValid(labels, paramNum, t, paramStr, params, asWritten)
  {
    var check := CheckOrderNames(lbl, orderName);
    if check != Valid then Some(check)
    else
      DirectiveOperandsNeverNameErrors(labels, paramNum, t, paramStr, params, asWritten);
      CheckDirectiveOperands(labels, paramNum, t, paramStr, params, asWritten)
  }

  /** The first two checks of runOrderValidation: the label, then the
      directive name. */
  function CheckOrderNames(lbl: Option<string>, orderName: string): (r: ErrorType)
    ensures r == LabelSyntax <==> lbl.Some? && !LegalLabel(lbl.value)
    ensures r == DirectiveName <==> (lbl.None? || LegalLabel(lbl.value)) && orderName !in Directives
    ensures r == Valid || r == LabelSyntax || r == DirectiveName
  {
    var check := CheckLabelName(lbl);
    if check != Valid then check else CheckOrderName(orderName)
  }

  /** What each directive demands of its operands: .asciz a quoted printable
      string, .entry and .extern exactly one operand naming a known label,
      and the data directives clean commas and paramNum values in range. */
  predicate DirectiveOperandsValid(labels: seq<Label>, paramNum: int, t: OrderType, paramStr: seq<string>,
                                   params: string, asWritten: bool) {
    match t
    case Asciz => CheckAsciz(Some(params)) == Valid
    case Entry => paramNum == 1 && exists j :: 0 <= j < |labels| && labels[j].symbol == params
    case External => paramNum == 1 && exists j :: 0 <= j < |labels| && labels[j].symbol == params
    case _ => AllClean(Fields(params, ',')) && ValuesFit(paramStr, t, 0, paramNum, asWritten)
  }

  /** The operand part of runOrderValidation. */
  function CheckDirectiveOperands(labels: seq<Label>, paramNum: int, t: OrderType, paramStr: seq<string>,
                                  params: string, asWritten: bool): (r: Option<ErrorType>)
    ensures r == Some(Valid) <==> DirectiveOperandsValid(labels, paramNum, t, paramStr, params, asWritten)
    ensures t == Asciz ==> r == Some(CheckAsciz(Some(params)))
    ensures t == Entry || t == External ==> r == Some(CheckLabelOperand(labels, paramNum, params))
    ensures t in {Db, Dh, Dw} ==> r == CheckDataOperands(paramStr, t, paramNum, params, asWritten)
  {
    match t
    case Asciz => Some(CheckAsciz(Some(params)))
    case Entry => Some(CheckLabelOperand(labels, paramNum, params))
    case External => Some(CheckLabelOperand(labels, paramNum, params))
    case _ => CheckDataOperands(paramStr, t, paramNum, params, asWritten)
  }

  /** .entry and .extern: exactly one operand, naming a known label. */
  function CheckLabelOperand(labels: seq<Label>, paramNum: int, params: string): (r: ErrorType)
    ensures r == NumberOfParameters <==> paramNum != 1
    ensures r == LabelDoesntExist <==> paramNum == 1 && forall j :: 0 <= j < |labels| ==> labels[j].symbol != params
    ensures r == Valid <==> paramNum == 1 && exists j :: 0 <= j < |labels| && labels[j].symbol == params
  {
    if paramNum != 1 then NumberOfParameters
    else if IsLabelExists(labels, params) == False then LabelDoesntExist
    else Valid
  }

  /** The data directives: clean commas, then the first paramNum values in
      range. */
  function CheckDataOperands(paramStr: seq<string>, t: OrderType, paramNum: int, params: string,
                             asWritten: bool): (r: Option<ErrorType>)
    ensures r == Some(Valid) <==> AllClean(Fields(params, ',')) && ValuesFit(paramStr, t, 0, paramNum, asWritten)
    ensures r.Some? && !AllClean(Fields(params, ',')) ==> r.value == MultipleCommas || r.value == MissingComma
    ensures r.Some? && AllClean(Fields(params, ',')) ==> r.value == Valid || r.value == ValueOutOfRange
    ensures r.None? ==> AllClean(Fields(params, ',')) && |paramStr| < paramNum
  {
    var check := CheckCommas(params);
    if check != Valid then Some(check)
    else CheckValues(paramStr, t, 0, paramNum, asWritten)
  }

  /** The operand checks never report a label or directive-name error. */
  lemma DirectiveOperandsNeverNameErrors(labels: seq<Label>, paramNum: int, t: OrderType, paramStr: seq<string>,
                                         params: string, asWritten: bool)
    ensures CheckDirectiveOperands(labels, paramNum, t, paramStr, params, asWritten) != Some(LabelSyntax)
    ensures CheckDirectiveOperands(labels, paramNum, t, paramStr, params, asWritten) != Some(DirectiveName)
  {
  }

  /** Every value from index i up to n is present and in range; `asWritten`
      picks the range of checkOrderParamValue as written or as corrected. */
  predicate ValuesFit(paramStr: seq<string>, t: OrderType, i: nat, n: int, asWritten: bool) {
    EveryFrom(paramStr, item => ItemFits(item, t, asWritten), i, n)
  }

  /** One data item, as the value loop reads it: trimmed, then atol. */
  predicate ItemFits(item: string, t: OrderType, asWritten: bool) {
    FitsAs(Atol(Trim(item)), t, asWritten)
  }

  /** The accepted range of a data item, as written or as corrected. */
  predicate FitsAs(v: int, t: OrderType, asWritten: bool) {
    if asWritten then DataFitsAsWritten(v, t) else DataFits(v, t)
  }

  /** ValuesFit says: no index up to n is missing, and every item is in
      range. */
  lemma ValuesFitEvery(paramStr: seq<string>, t: OrderType, i: nat, n: int, asWritten: bool)
    ensures ValuesFit(paramStr, t, i, n, asWritten) <==>
      (i < n ==> n <= |paramStr|) && forall j :: i <= j < n ==> ItemFits(paramStr[j], t, asWritten)
  {
    EveryFromAll(paramStr, item => ItemFits(item, t, asWritten), i, n);
  }

  /** The range check the value loop applies, as written or as corrected. */
  function ValueCheck(param: string, t: OrderType, asWritten: bool): (r: ErrorType)
    ensures r == Valid || r == ValueOutOfRange
    ensures r == Valid <==> FitsAs(Atol(param), t, asWritten)
  {
    if asWritten then CheckOrderParamValueAsWritten(param, t) else CheckOrderParamValue(param, t)
  }

  /** The value loop of runOrderValidation from index i: the first value out
      of range is reported; reading past the tokens (the terminating NULL)
      is None. */
  function CheckValues(paramStr: seq<string>, t: OrderType, i: nat, n: int, asWritten: bool): (r: Option<ErrorType>)
    ensures r == Some(Valid) <==> ValuesFit(paramStr, t, i, n, asWritten)
    ensures r.Some? ==> r.value == Valid || r.value == ValueOutOfRange
    ensures r.None? ==> |paramStr| < n
    decreases n - i
  {
    if i >= n then Some(Valid)
    else if i >= |paramStr| then None
    else
      var check := ValueCheck(Trim(paramStr[i]), t, asWritten);
      if check != Valid then Some(check)
      else CheckValues(paramStr, t, i + 1, n, asWritten)
  }

  /** checkLine: blank lines and comments are valid; lines whose first
      word (after a label) is a mnemonic or a directive are validated as
      such, on the trimmed line; anything else is an empty label when the
      raw line starts with ':', a label on a line with nothing after it,
      or an unknown command name. `asWritten` picks validateOrder as
      written or as corrected. */
  function LineChecks(line: string, labels: seq<Label>, asWritten: bool): (r: Option<ErrorType>)
    ensures IsEmptyLine(line) == True ==> r == Some(Valid)
    ensures IsEmptyLine(line) == False && IsCommentLine(line) == True ==> r == Some(Valid)
    ensures IsEmptyLine(line) == False && IsCommentLine(line) == False && IsCmdLine(line) == True ==>
      r == ValidateCommand(Trim(line), labels)
    ensures (IsEmptyLine(line) == False && IsCommentLine(line) == False && IsCmdLine(line) == False
             && IsOrderLine(line) == True) ==> r == OrderChecks(Trim(line), labels, asWritten)
    ensures (IsEmptyLine(line) == False && IsCommentLine(line) == False && IsCmdLine(line) == False
             && IsOrderLine(line) == False) ==>
      r == Some(if line[0] == ':' then EmptyLabel
                else if CommandParts(line).value.labelName.Some? && CommandParts(line).value.cmdName.None?
                then LabelWithInvalidLine
                else CommandName)
    ensures WellSpelled(line) ==>
      var cmd := CommandParts(line).value.cmdName.value;
      && (cmd in CommandsTable ==> r == ValidateCommand(line, labels))
      && (cmd in OrderNames ==> r == OrderChecks(line, labels, asWritten))
      && (cmd !in CommandsTable && cmd !in OrderNames ==> r == Some(if line[0] == ':' then EmptyLabel else CommandName))
  {
    WellSpelledTests(line);
    MnemonicsAreNotDirectives();
    if IsEmptyLine(line) == True || IsCommentLine(line) == True then Some(Valid)
    else if IsCmdLine(line) == True then ValidateCommand(Trim(line), labels)
    else if IsOrderLine(line) == True then OrderChecks(Trim(line), labels, asWritten)
    else if line[0] == ':' then Some(EmptyLabel)
    else
      var parts := CommandParts(line).value;
      if parts.labelName.Some? && parts.cmdName.None? then Some(LabelWithInvalidLine)
      else Some(CommandName)
  }

  /** checkLine as written: directive lines go through validateOrder as
      written. */
  function CheckLine(line: string, labels: seq<Label>): Option<ErrorType> {
    LineChecks(line, labels, true)
  }

  /** checkLine with the corrected validateOrder. This is the version the
      rest of the model uses. */
  function CheckLineCorrected(line: string, labels: seq<Label>): Option<ErrorType> {
    LineChecks(line, labels, false)
  }

  /** A well-formed directive line is checked by validateOrder, on the line
      itself; a well-formed instruction line by validateCommand. */
  lemma CheckLineOfSpelledLine(line: string, labels: seq<Label>, lbl: Option<string>, cmd: string,
                               params: Option<string>)
    requires Spellable(lbl, cmd, params) && line == SpellLine(lbl, cmd, params)
    requires (if lbl.Some? then lbl.value[0] else cmd[0]) != ';'
    ensures cmd in CommandsTable ==>
      CheckLine(line, labels) == ValidateCommand(line, labels) &&
      CheckLineCorrected(line, labels) == ValidateCommand(line, labels)
    ensures cmd in OrderNames ==>
      CheckLine(line, labels) == ValidateOrderAsWritten(line, labels) &&
      CheckLineCorrected(line, labels) == ValidateOrder(line, labels)
  {
    LineTypeOfSpelledLine(line, lbl, cmd, params);
    DirectiveOfSpelledLine(line, lbl, cmd, params, CommandsTable);
    SpelledLineTrimmed(lbl, cmd, params);
    MnemonicsAreNotDirectives();
  }

  /** add, sub, and, or and nor written on three registers pass checkLine,
      whatever the label table: the commas are clean, there are three
      operands, and each is a register name. */
  lemma RArithmeticLineValid(line: string, labels: seq<Label>, lbl: Option<string>, k: nat, i: nat, j: nat, m: nat)
    requires k < 5 && i < 32 && j < 32 && m < 32
    requires lbl.None? || LegalLabel(lbl.value)
    requires var text := RegisterNames[i] + "," + RegisterNames[j] + "," + RegisterNames[m];
      Spellable(lbl, RACmd[k], Some(text)) && line == SpellLine(lbl, RACmd[k], Some(text))
    ensures CheckLine(line, labels) == Some(Valid)
    ensures CheckLineCorrected(line, labels) == Some(Valid)
  {
    var cmd := RACmd[k];
    var text := RegisterNames[i] + "," + RegisterNames[j] + "," + RegisterNames[m];
    RArithmeticMnemonic(k);
    SpelledLineStart(line, lbl, cmd, Some(text));
    assert IsAlpha(line[0]);
    CheckLineOfSpelledLine(line, labels, lbl, cmd, Some(text));
    CommandPartsOfSpelledLine(lbl, cmd, Some(text));
    ThreeRegisterOperands(line, labels, lbl, cmd, i, j, m);
    ValidCommandLine(line, labels, lbl, cmd, text, RArithmetic);
  }

  /** The R arithmetic mnemonics are in the table, sort as RArithmetic and
      start with a letter. */
  lemma RArithmeticMnemonic(k: nat)
    requires k < 5
    ensures RACmd[k] in CommandsTable && SortCmd(RACmd[k]) == RArithmetic
    ensures |RACmd[k]| > 0 && IsAlpha(RACmd[k][0]) && RACmd[k] != ".asciz"
  {
    assert RACmd[k] in RACmd;
    FamilyMembership(RACmd[k]);
  }

  /** validateCommand passes a line whose label is legal, whose mnemonic is
      in the table and whose operands are valid for its sub-family. */
  lemma ValidCommandLine(line: string, labels: seq<Label>, lbl: Option<string>, cmd: string, text: string,
                         t: CmdSubtype)
    requires CommandParts(line) == Some(LineParts(lbl, Some(cmd), Some(text))) && line[0] != ':'
    requires (lbl.None? || LegalLabel(lbl.value)) && cmd in CommandsTable && SortCmd(cmd) == t
    requires OperandsValid(line, labels, t, text)
    ensures ValidateCommand(line, labels) == Some(Valid)
  {
    assert RunCommandValidation(line, labels, t, cmd, lbl, Some(text)) == Some(Valid);
  }

  /** Three register names separated by single commas are valid operands
      for an R arithmetic mnemonic. */
  lemma ThreeRegisterOperands(line: string, labels: seq<Label>, lbl: Option<string>, cmd: string, i: nat, j: nat, m: nat)
    requires i < 32 && j < 32 && m < 32 && cmd != ".asciz"
    requires var text := RegisterNames[i] + "," + RegisterNames[j] + "," + RegisterNames[m];
      Spellable(lbl, cmd, Some(text)) && line == SpellLine(lbl, cmd, Some(text))
    ensures OperandsValid(line, labels, RArithmetic, RegisterNames[i] + "," + RegisterNames[j] + "," + RegisterNames[m])
  {
    var items := [RegisterNames[i], RegisterNames[j], RegisterNames[m]];
    var text := RegisterNames[i] + "," + RegisterNames[j] + "," + RegisterNames[m];
    JoinThree(RegisterNames[i], RegisterNames[j], RegisterNames[m], ',');
    RegisterNameClean(i);
    RegisterNameClean(j);
    RegisterNameClean(m);
    CommasOfJoin(items);
    NumOfParamDataOfList(lbl, cmd, items);
    FieldsOfJoin(items, ',');
    CleanOperandsSplit(text);
    assert StrSplit(text, ',') == Some(items);
  }

  /** Three items joined by a delimiter. */
  lemma JoinThree(a: string, b: string, c: string, d: char)
    ensures Join([a, b, c], d) == a + [d] + b + [d] + c
  {
    assert [a, b, c][1..] == [b, c];
    assert [b, c][1..] == [c];
    assert Join([b, c], d) == b + [d] + c;
  }

  /** A register name is a single clean operand that trims to itself. */
  lemma RegisterNameClean(i: nat)
    requires i < 32
    ensures |RegisterNames[i]| > 0 && NoSpace(RegisterNames[i]) && ',' !in RegisterNames[i]
    ensures Trim(RegisterNames[i]) == RegisterNames[i]
  {
    RegisterNamesAreDecimal();
    var d := DecimalString(i);
    var s := RegisterNames[i];
    assert s == "$" + d;
    assert forall x :: 1 <= x < |s| ==> s[x] == d[x - 1];
    assert forall x :: 0 <= x < |s| ==> s[x] == '$' || IsDigit(s[x]);
    TrimNoSpaceEnds(s);
  }

  /** getMessageErrorType: the text printed for each verdict. */
  function MessageOf(e: ErrorType): string {
    match e
    case Valid => "valid command"
    case RegisterName => "invalid register name."
    case CommandName => "invalid command name."
    case DirectiveName => "invalid order name."
    case NumberOfParameters => "command did not get correct number of parameters"
    case WrongParameters => "one or more from the parameters is not suitable to command."
    case WrongSyntax => "wrong syntax of the command."
    case ValueOutOfRange => "one of the parameters value is out of range."
    case NotAPrintedSymbol => "wrong syntax of asciz: asciz param can have only printed symbols."
    case LabelSyntax => "wrong label syntax."
    case MissingComma => "missing comma."
    case MultipleCommas => "multiple commas."
    case LabelExternAndInternal => "label cannot be both external and internal."
    case LabelDoesntExist => "label does not exists."
    case MissingParam => "missing parameter."
    case ExtraneousParam => "There are too many parameters for this command."
    case MissingQuotations => "Asciz should start and enf with quotation mark."
    case MemoryAllocation => "Allocation Error."
    case EmptyLabel => "empty label is invalid."
    case LabelWithInvalidLine => "label defined in invalid or empty line."
  }

  /** The length and next-to-last character of each message. */
  function MessageKey(e: ErrorType): (nat, char) {
    match e
    case Valid => (13, 'n')
    case RegisterName => (22, 'e')
    case CommandName => (21, 'e')
    case DirectiveName => (19, 'e')
    case NumberOfParameters => (48, 'r')
    case WrongParameters => (59, 'd')
    case WrongSyntax => (28, 'd')
    case ValueOutOfRange => (44, 'e')
    case NotAPrintedSymbol => (65, 's')
    case LabelSyntax => (19, 'x')
    case MissingComma => (14, 'a')
    case MultipleCommas => (16, 's')
    case LabelExternAndInternal => (43, 'l')
    case LabelDoesntExist => (22, 's')
    case MissingParam => (18, 'r')
    case ExtraneousParam => (47, 'd')
    case MissingQuotations => (47, 'k')
    case MemoryAllocation => (17, 'r')
    case EmptyLabel => (23, 'd')
    case LabelWithInvalidLine => (39, 'e')
  }

  lemma MessageHasKey(e: ErrorType)
    ensures |MessageOf(e)| == MessageKey(e).0 >= 2 && MessageOf(e)[|MessageOf(e)| - 2] == MessageKey(e).1
  {
    if e == Valid || e == RegisterName || e == CommandName || e == DirectiveName || e == NumberOfParameters {
      MessageHasKeyIn1(e);
    } else if e == WrongParameters || e == WrongSyntax || e == ValueOutOfRange || e == NotAPrintedSymbol || e == LabelSyntax {
      MessageHasKeyIn2(e);
    } else if e == MissingComma || e == MultipleCommas || e == LabelExternAndInternal || e == LabelDoesntExist || e == MissingParam {
      MessageHasKeyIn3(e);
    } else {
      MessageHasKeyIn4(e);
    }
  }

  lemma MessageHasKeyIn1(e: ErrorType)
    requires e == Valid || e == RegisterName || e == CommandName || e == DirectiveName || e == NumberOfParameters
    ensures |MessageOf(e)| == MessageKey(e).0 >= 2 && MessageOf(e)[|MessageOf(e)| - 2] == MessageKey(e).1
  {
    match e
    case Valid =>
    case RegisterName =>
    case CommandName =>
    case DirectiveName =>
    case NumberOfParameters =>
  }

  lemma MessageHasKeyIn2(e: ErrorType)
    requires e == WrongParameters || e == WrongSyntax || e == ValueOutOfRange || e == NotAPrintedSymbol || e == LabelSyntax
    ensures |MessageOf(e)| == MessageKey(e).0 >= 2 && MessageOf(e)[|MessageOf(e)| - 2] == MessageKey(e).1
  {
    match e
    case WrongParameters =>
    case WrongSyntax =>
    case ValueOutOfRange =>
    case NotAPrintedSymbol =>
    case LabelSyntax =>
  }

  lemma MessageHasKeyIn3(e: ErrorType)
    requires e == MissingComma || e == MultipleCommas || e == LabelExternAndInternal || e == LabelDoesntExist || e == MissingParam
    ensures |MessageOf(e)| == MessageKey(e).0 >= 2 && MessageOf(e)[|MessageOf(e)| - 2] == MessageKey(e).1
  {
    match e
    case MissingComma =>
    case MultipleCommas =>
    case LabelExternAndInternal =>
    case LabelDoesntExist =>
    case MissingParam =>
  }

  lemma MessageHasKeyIn4(e: ErrorType)
    requires e == ExtraneousParam || e == MissingQuotations || e == MemoryAllocation || e == EmptyLabel || e == LabelWithInvalidLine
    ensures |MessageOf(e)| == MessageKey(e).0 >= 2 && MessageOf(e)[|MessageOf(e)| - 2] == MessageKey(e).1
  {
    match e
    case ExtraneousParam =>
    case MissingQuotations =>
    case MemoryAllocation =>
    case EmptyLabel =>
    case LabelWithInvalidLine =>
  }

  /** The verdict with a given message key. */
  function ErrorOfKey(k: (nat, char)): Option<ErrorType> {
    if k == (13, 'n') then Some(Valid)
    else if k == (22, 'e') then Some(RegisterName)
    else if k == (21, 'e') then Some(CommandName)
    else if k == (19, 'e') then Some(DirectiveName)
    else if k == (48, 'r') then Some(NumberOfParameters)
    else if k == (59, 'd') then Some(WrongParameters)
    else if k == (28, 'd') then Some(WrongSyntax)
    else if k == (44, 'e') then Some(ValueOutOfRange)
    else if k == (65, 's') then Some(NotAPrintedSymbol)
    else if k == (19, 'x') then Some(LabelSyntax)
    else if k == (14, 'a') then Some(MissingComma)
    else if k == (16, 's') then Some(MultipleCommas)
    else if k == (43, 'l') then Some(LabelExternAndInternal)
    else if k == (22, 's') then Some(LabelDoesntExist)
    else if k == (18, 'r') then Some(MissingParam)
    else if k == (47, 'd') then Some(ExtraneousParam)
    else if k == (47, 'k') then Some(MissingQuotations)
    else if k == (17, 'r') then Some(MemoryAllocation)
    else if k == (23, 'd') then Some(EmptyLabel)
    else if k == (39, 'e') then Some(LabelWithInvalidLine)
    else None
  }

  lemma {:induction false} KeyIdentifiesError(e: ErrorType)
    ensures ErrorOfKey(MessageKey(e)) == Some(e)
  {
    match e
    case Valid =>
    case RegisterName =>
    case CommandName =>
    case DirectiveName =>
    case NumberOfParameters =>
    case WrongParameters =>
    case WrongSyntax =>
    case ValueOutOfRange =>
    case NotAPrintedSymbol =>
    case LabelSyntax =>
    case MissingComma =>
    case MultipleCommas =>
    case LabelExternAndInternal =>
    case LabelDoesntExist =>
    case MissingParam =>
    case ExtraneousParam =>
    case MissingQuotations =>
    case MemoryAllocation =>
    case EmptyLabel =>
    case LabelWithInvalidLine =>
  }

  /** Every verdict has its own message, so the message identifies it:
      the messages already differ in their length and next-to-last
      character. */
  lemma MessagesIdentifyErrors(a: ErrorType, b: ErrorType)
    ensures MessageOf(a) == MessageOf(b) ==> a == b
  {
    if MessageOf(a) == MessageOf(b) {
      assert MessageKey(a) == MessageKey(b) by {
        MessageHasKey(a);
        MessageHasKey(b);
        SameKey(MessageOf(a), MessageOf(b), MessageKey(a), MessageKey(b));
      }
      KeyIdentifiesError(a);
      KeyIdentifiesError(b);
    }
  }

  lemma SameKey(ma: string, mb: string, ka: (nat, char), kb: (nat, char))
    requires |ma| == ka.0 >= 2 && ma[|ma| - 2] == ka.1
    requires |mb| == kb.0 >= 2 && mb[|mb| - 2] == kb.1
    requires ma == mb
    ensures ka == kb
  {
  }
}
