# Two-pass assembler, modelled in Dafny

This project models the core of a two-pass assembler for a small 32-bit
machine. The machine has 27 mnemonics in three instruction formats (R, I and
J) and the data directives `.db`, `.dh`, `.dw` and `.asciz`, plus `.entry`
and `.extern`. The model follows the program's C files module by module:

- `CLib` holds the parts of the C library the program relies on: `isspace`,
  `atol`, `printf("%d")` spellings, and stores into unsigned and signed
  bit-fields.
- `StringExtension` holds `trimStr`, `myStrsep` and `strSplit`, including
  the residue `strSplit` leaves in its argument.
- `Constants` holds the tables of register names, mnemonics, opcodes,
  functs, directives and sub-families.
- `Datatypes` holds the records, the label-list updates and
  `getCommandParts`.
- `ParserInput` holds the line classifier and the table look-ups.
- `Validation` holds every per-line check, from `checkLine` down to
  `checkParamNum`, `checkCommas` and the message texts.
- `Encoding` holds the instruction encoders and the data image.
- `Files` holds the object, entry and extern file contents: bit strings,
  `cut`, bytes and rows, and the file-name helpers.
- `Assembler` holds `getLine`'s chunks, both scans of `pass1`,
  `validateFile`, `pass2`, `updateDataPictureAddress` and `main`'s gate.
  The gate encodes a file only when no error was recorded.

C pointers that may be NULL, and every behaviour the C leaves undefined (a
NULL dereference, a failed `assert` in `strSplit`, `strlen(NULL)`), are
`Option` values: `None` means the program has no defined outcome. The
program's own `Boolean` enumeration is kept with `true` = 0. Four places
where the code does something other than what it evidently means are listed
under "## Findings". Each has an as-written member and a corrected member.
The corrected members are the ones `Assemble` uses.

Where the prose description of the program and the code disagree, the model
follows the code:

- The branch immediate is described as the absolute distance to the
  target, and the code's own `if` computes that. But the subtraction is
  unsigned, so the code stores the signed difference.
  `Encoding.EncodeICmd` follows the code and stores that difference.
  `Assemble` uses the distance the `if` evidently means (Findings row 3).
- A register operand is `$0`..`$31`, but the jump mnemonics treat `$0` as
  a label name (`Encoding.JumpToRegisterZero`). They also read any operand
  whose text after the first character is 1..31 as a register, for
  example `L5` (`ParserInput.LabelReadsAsRegister`).
- The line limit is 80 characters. `getLine` returns two more than the
  visible characters of a line that ends in a line break. So a line counts
  as over the limit from 79 visible characters on (`Assembler.Overlong`).

## Model

| member | source | states |
|---|---|---|
| CLib.SignedChar | Two_pass_assembler/encoding.c:227-250 | a `char` stored into a data item is a signed byte; ASCII characters keep their code |
| CLib.SkipSpaces | Two_pass_assembler/stringExtension.c:68-90 | the suffix left after leading white space: everything skipped is white space and the rest does not start with it |
| CLib.LeadingDigits | Two_pass_assembler/validation.c:266-273 | the maximal run of decimal digits at the start of the text, as `atol` reads it |
| CLib.DecimalStringValue | Two_pass_assembler/constants.c:1-6 | the decimal spelling of a natural number reads back as that number |
| CLib.AtolIntString | Two_pass_assembler/validation.c:423-446 | `atol` reads back every integer printed in decimal, negative ones included |
| CLib.Unsigned | Two_pass_assembler/encoding.c:105-108 | a value stored into an unsigned bit-field of width w is below 2^w, congruent to the value modulo 2^w, and unchanged when it already fits |
| CLib.Signed | Two_pass_assembler/encoding.c:105-108 | a value stored into the signed 16-bit immediate lies in the signed range, has the same bits as the value, and is unchanged when it already fits |
| CLib.Pow2Values | Two_pass_assembler/files.c:15-39 | the powers of two of the machine's field widths (1, 5, 6, 8, 16, 25 and 32 bits) |
| StringExtension.Trim | Two_pass_assembler/stringExtension.c:68-90 | trimStr's result is no longer than its input and neither starts nor ends with white space |
| StringExtension.TrimShape | Two_pass_assembler/stringExtension.c:68-90 | the trimmed text is a slice of the input with only white space cut away on both sides |
| StringExtension.TrimIdempotent | Two_pass_assembler/stringExtension.c:68-90 | trimming twice is the same as trimming once |
| StringExtension.Span | Two_pass_assembler/stringExtension.c:41-57 | the length of the prefix with no delimiter, followed by a delimiter when it stops early |
| StringExtension.StrSep | Two_pass_assembler/stringExtension.c:41-57 | myStrsep: NULL stays NULL; the token holds no delimiter; the input is the token, one delimiter and the rest, or just the token when there is no delimiter |
| StringExtension.StrSepAt | Two_pass_assembler/stringExtension.c:41-57 | cutting `a` + d + `b` at d, where d is not in `a`, gives back `a` and `b` |
| StringExtension.Fields | Two_pass_assembler/stringExtension.c:102-143 | repeated myStrsep: one field more than there are delimiters, no field holds the delimiter, and joining the fields gives the text back |
| StringExtension.FieldsOfJoin | Two_pass_assembler/stringExtension.c:102-143 | splitting the join of delimiter-free pieces gives the pieces back |
| StringExtension.NonEmpty | Two_pass_assembler/stringExtension.c:102-143 | no token it returns is empty, it returns no more than it got, and a list with no empty field comes back unchanged |
| StringExtension.StrSplit | Two_pass_assembler/stringExtension.c:102-143 | strSplit is defined exactly when only the last field may be empty, and not when the text is one empty field; its tokens are non-empty, hold no delimiter, and joined with it give back the text less a final delimiter |
| StringExtension.TokensOfSplit | Two_pass_assembler/stringExtension.c:102-143 | when the slots are filled, the tokens hold no delimiter and join back to the text less a final delimiter |
| StringExtension.StrSplitDefined | Two_pass_assembler/stringExtension.c:102-143 | strSplit is defined exactly when only the last field may be empty, and a text that is one empty field is excluded |
| StringExtension.SplitResidue | Two_pass_assembler/stringExtension.c:131 | what strtok leaves in the split string is a prefix of it |
| StringExtension.SplitResidueIsFirstField | Two_pass_assembler/stringExtension.c:131 | when the text does not start with the delimiter, that residue is the first field |
| Constants.RegisterNamesAreDecimal | Two_pass_assembler/constants.c:1-6 | there are 32 register names, and register i is spelled `$` followed by i in decimal |
| Constants.OpcodeTable | Two_pass_assembler/constants.c:8-14 | 27 mnemonics: opcode 0 for the five R arithmetic mnemonics, 1 for the three moves, 10..24 in order for addi..sh, then 30, 31, 32 and 63; every opcode fits 6 bits |
| Constants.FunctTable | Two_pass_assembler/constants.c:16 | the eight functs belong to the first eight mnemonics (the R ones): 1..5, then 1..3, each fitting 5 bits |
| Constants.DirectiveTable | Two_pass_assembler/constants.c:18 | the six directives are exactly .dh, .dw, .db, .asciz, .entry and .extern |
| Constants.SubFamiliesPartitionCommands | Two_pass_assembler/constants.c:19-25 | the seven sub-families are pairwise disjoint and together are exactly the 27 mnemonics |
| Constants.JumpEntries | Two_pass_assembler/constants.c:8-14 | table positions 23..25 hold jmp, la and call with opcodes 30..32 |
| Datatypes.ToBoolean | Two_pass_assembler/Datatypes.h:43-46 | the program's `true` (value 0) stands for a holding condition |
| Datatypes.CNot | Two_pass_assembler/parserInput.c:98-109 | C's `!` is 1 exactly on 0 and otherwise 0 |
| Datatypes.DataSize.Bytes | Two_pass_assembler/Datatypes.c:126-137 | a data item is 1, 2 or 4 bytes wide |
| Datatypes.FieldValues | Two_pass_assembler/files.c:66-83 | a word has as many field values as its layout has field widths |
| Datatypes.IsEmptyLine | Two_pass_assembler/Datatypes.c:465-472 | a line is blank exactly when it is all white space |
| Datatypes.FindInArray | Two_pass_assembler/Datatypes.c:447-455 | findInArray is exact string membership |
| Datatypes.FormatTablesMembership | Two_pass_assembler/Datatypes.c:340-354 | the R, I and J tables are the R, I and J sub-families, are pairwise disjoint, and cover exactly the mnemonics |
| Datatypes.CmdTypeByCommandName | Two_pass_assembler/Datatypes.c:340-354 | each format is given exactly for its sub-families; -1 (None) exactly for a name that is no mnemonic |
| Datatypes.CommandParts | Two_pass_assembler/Datatypes.c:365-413 | getCommandParts is NULL exactly on a blank line; a line with no mnemonic has a label and no operands |
| Datatypes.CommandPartsOfSpelledLine | Two_pass_assembler/Datatypes.c:365-413 | getCommandParts takes apart what is written as `label: mnemonic operands`: it gives back that label, mnemonic and operand text |
| Datatypes.FirstLabel | Two_pass_assembler/Datatypes.c:205-214 | the list walk stops at the first label with the name, or at the end when none has it |
| Datatypes.MarkLabelAsEntry | Two_pass_assembler/Datatypes.c:205-214 | only the first label with the name gets the entry attribute; every other label is unchanged |
| Datatypes.UpdateDataLabels | Two_pass_assembler/Datatypes.c:222-232 | every data label's value grows by ICF; every other label is unchanged |
| Datatypes.AddLabelAppearance | Two_pass_assembler/Datatypes.c:241-263 | the address is appended to the first label with the name; every other label is unchanged |
| Datatypes.UpdateLabelAppearancesAppends | Two_pass_assembler/Datatypes.c:273-302 | updateLabelAppearances is defined exactly when every command's operands can be read, and then it appends to the label the addresses of the commands that use the name, in list order |
| Datatypes.UpdateExternalAppearancesLabels | Two_pass_assembler/Datatypes.c:310-318 | only appearance lists change; when no other label shares an external label's name (internal labels may repeat), the update is defined exactly when every external label's use sites are, each external label's appearances grow by exactly its use sites, and every other label is unchanged |
| Datatypes.ExternalAppearancesExact | Two_pass_assembler/Datatypes.c:310-318 | when no other label shares an external label's name, the walk from each position on updates exactly the external labels from there on, and is defined exactly when their use sites are |
| ParserInput.IsCommentLine | Two_pass_assembler/parserInput.c:11-18 | a comment line is one whose first character that is not white space is `;` |
| ParserInput.GetLineType | Two_pass_assembler/parserInput.c:98-109 | the line type is decided in order: blank, comment, directive, instruction, otherwise invalid |
| ParserInput.DirectiveOfSpelledLine | Two_pass_assembler/parserInput.c:30-60 | on a written-out line, the directive test looks at the mnemonic after an optional label |
| ParserInput.WellSpelledTests | Two_pass_assembler/parserInput.c:30-87 | a line that is the spelling of its parts is no blank or comment line, is already trimmed, and is a command or order line exactly when its mnemonic is in the mnemonic or directive table |
| ParserInput.LineTypeOfSpelledLine | Two_pass_assembler/parserInput.c:98-109 | a written-out line is an instruction line exactly for a mnemonic, a directive line for a directive name, and invalid otherwise |
| ParserInput.IsParamRegister | Two_pass_assembler/parserInput.c:281-287 | an operand counts as a register when the number read after its first character is 1..31 |
| ParserInput.RegisterIndexOfName | Two_pass_assembler/parserInput.c:119-131 | each register name reads as its own number; it counts as a register exactly when it is not `$0` |
| ParserInput.LabelReadsAsRegister | Two_pass_assembler/parserInput.c:119-131 | the label-like operand `L5` reads as register 5 |
| ParserInput.IndexOfCommand | Two_pass_assembler/parserInput.c:141-149 | the first table position holding the mnemonic; -1 (None) exactly when it is not in the table |
| ParserInput.IndexOfEachCommand | Two_pass_assembler/parserInput.c:141-149 | getIndexOfCommand inverts the mnemonic table |
| ParserInput.OpcodeAndFunctOfCommand | Two_pass_assembler/parserInput.c:174-188 | every mnemonic has its table opcode; exactly the R mnemonics have a funct, their table funct |
| ParserInput.DataSizeByOrderName | Two_pass_assembler/parserInput.c:198-207 | byte for .db and .asciz, half word for .dh, word for .dw, and no size otherwise |
| ParserInput.NumOfParamData | Two_pass_assembler/parserInput.c:217-251 | the operand count is undefined on a blank line and a non-negative count for any mnemonic but .asciz |
| ParserInput.NumOfParamDataOfList | Two_pass_assembler/parserInput.c:217-251 | for operands written one per comma, the count is the number of operands |
| ParserInput.NumOfParamDataOfString | Two_pass_assembler/parserInput.c:217-251 | for `.asciz "text"`, the count is the length of the text |
| ParserInput.IsLabelExists | Two_pass_assembler/parserInput.c:262-271 | true exactly when some label has the name |
| Validation.CheckOrderName | Two_pass_assembler/validation.c:28-33 | valid exactly for the six directives; otherwise a directive-name error |
| Validation.CheckRegisterName | Two_pass_assembler/validation.c:44-49 | valid exactly for `$0`..`$31` as written; otherwise a register-name error |
| Validation.CheckCommandName | Two_pass_assembler/validation.c:60-65 | valid exactly for the 27 mnemonics; otherwise a command-name error |
| Validation.SortCmd | Two_pass_assembler/validation.c:587-610 | each sub-family is returned exactly for its own mnemonics; stop also for every unknown name |
| Validation.FamilyMembership | Two_pass_assembler/validation.c:587-610 | every mnemonic is in exactly one sub-family |
| Validation.SortCmdAgreesWithFormat | Two_pass_assembler/validation.c:587-610 | the validator's sub-family and the encoder's format agree on every mnemonic |
| Validation.SortOrder | Two_pass_assembler/validation.c:621-636 | each directive type is returned exactly for its own name; extern for every other name |
| Validation.CheckParamNum | Two_pass_assembler/validation.c:77-126 | valid exactly when the operand count equals the sub-family's arity; too few gives missing-parameter; too many, or any operand for stop, gives extraneous-parameter |
| Validation.CheckParamValue | Two_pass_assembler/validation.c:266-273 | true exactly when atol of the text fits the signed 16-bit immediate |
| Validation.ImmediateFitsField | Two_pass_assembler/validation.c:266-273 | that range is exactly the values the signed 16-bit field stores unchanged |
| Validation.CheckCommas | Two_pass_assembler/validation.c:232-254 | valid exactly when every comma-separated field is non-empty and has no inner white space; otherwise multiple-commas or missing-comma |
| Validation.CommasOfJoin | Two_pass_assembler/validation.c:232-254 | operands written one per comma, with nothing else between them, pass the comma check |
| Validation.ValidateRArithmetic | Two_pass_assembler/validation.c:160-168 | three register operands are valid; anything else is a register-name error |
| Validation.ValidateRMove | Two_pass_assembler/validation.c:169-175 | two register operands are valid; anything else is a register-name error |
| Validation.ValidateIArithmetic | Two_pass_assembler/validation.c:176-188 | register, 16-bit value, register is valid; a bad register first, then a bad value, is reported |
| Validation.ValidateIBranch | Two_pass_assembler/validation.c:189-202 | register, value, known label is valid; otherwise the first failing test picks register-name, value-out-of-range or label-doesn't-exist |
| Validation.ValidateJJump | Two_pass_assembler/validation.c:203-210 | a register or a known label is valid; otherwise wrong-parameters |
| Validation.ValidateJLabel | Two_pass_assembler/validation.c:211-217 | a known label is valid; otherwise label-doesn't-exist |
| Validation.ValidateParameters | Two_pass_assembler/validation.c:158-221 | valid exactly when the operands have the shapes the sub-family accepts; stop always gives wrong-parameters |
| Validation.CheckParamStandard | Two_pass_assembler/validation.c:139-146 | valid exactly when strSplit is defined, gives at least the arity's operands, and those operands fit |
| Validation.CheckLabelName | Two_pass_assembler/validation.c:361-383 | no label, or a legal one (a letter, then letters or digits, at most 31 characters, not a mnemonic), is valid; otherwise label-syntax |
| Validation.ReservedNamesAreNotLetters | Two_pass_assembler/validation.c:361-383 | register and directive names never start with a letter, so only the mnemonic test can reject a letter-initial name as reserved |
| Validation.CheckAsciz | Two_pass_assembler/validation.c:395-411 | a NULL operand is exactly the number-of-parameters error; the other verdicts are missing-quotations, not-a-printed-symbol or valid |
| Validation.AscizOfQuotedText | Two_pass_assembler/validation.c:395-411 | a quoted text passes exactly when all of it is printable |
| Validation.CheckOrderParamValueAsWritten | Two_pass_assembler/validation.c:423-446 | as written: .db accepts -128..126, .dh accepts -32768..32766, .dw accepts the signed 32-bit range |
| Validation.AsWrittenRefusesLargestValues | Two_pass_assembler/validation.c:433-438 | the as-written check refuses `127` for .db and `32767` for .dh, although both fit the item |
| Validation.CheckOrderParamValue | Two_pass_assembler/validation.c:423-446 | corrected: valid exactly when the value fits the directive's signed item size |
| Validation.DataFitsItem | Two_pass_assembler/validation.c:423-446 | that range is exactly the values a 1-, 2- or 4-byte signed item stores unchanged |
| Validation.AsWrittenDiffersOnlyAtTop | Two_pass_assembler/validation.c:433-438 | the as-written and corrected checks differ only on 127 for .db and 32767 for .dh |
| Validation.ValidateCommand | Two_pass_assembler/validation.c:285-303 | an empty label comes first; then a bad label, then an unknown mnemonic; valid exactly when the label and mnemonic are legal and any operands pass |
| Validation.RunCommandValidation | Two_pass_assembler/validation.c:319-350 | label-syntax and command-name each exactly on their condition; valid exactly when names and operands pass |
| Validation.CheckOperands | Two_pass_assembler/validation.c:319-350 | valid exactly when the commas, the count and the shapes all pass; comma faults come before the other operand errors |
| Validation.OperandsNeverNameErrors | Two_pass_assembler/validation.c:319-350 | the operand checks never report a label or mnemonic error |
| Validation.ValidateOrderAsWritten | Two_pass_assembler/validation.c:458-481 | a directive line is checked against the strtok residue of its operands; an empty label comes first; no operands is valid |
| Validation.ValidateOrder | Two_pass_assembler/validation.c:458-481 | corrected: the whole operand text is checked; it is undefined only where the count or strSplit is |
| Validation.OrderChecksDefined | Two_pass_assembler/validation.c:458-481 | the corrected directive check fails to give a verdict only when the count or strSplit is undefined |
| Validation.TrailingCommaAsWritten | Two_pass_assembler/validation.c:474-476 | `.db 1,2,` has no defined verdict as written; corrected it is multiple-commas |
| Validation.SingleOperandLine | Two_pass_assembler/validation.c:458-481 | a data directive with one clean operand is decided by the value check alone, as written and corrected |
| Validation.RunOrderValidation | Two_pass_assembler/validation.c:497-540 | label-syntax and directive-name each exactly on their condition; valid exactly when names and operands pass |
| Validation.CheckDirectiveOperands | Two_pass_assembler/validation.c:497-540 | .asciz goes to checkAsciz, .entry and .extern to the one-known-label check, and the data directives to commas then values |
| Validation.CheckLabelOperand | Two_pass_assembler/validation.c:497-540 | .entry and .extern need exactly one operand, and it must name a known label |
| Validation.CheckDataOperands | Two_pass_assembler/validation.c:497-540 | valid exactly when the commas are clean and every counted value fits; undefined only when fewer tokens than the count exist |
| Validation.ValuesFitEvery | Two_pass_assembler/validation.c:497-540 | the value loop accepts exactly when each counted token, trimmed and read by atol, is in range |
| Validation.CheckValues | Two_pass_assembler/validation.c:497-540 | the value loop is valid exactly when every value fits, and undefined when it runs past the tokens |
| Validation.LineChecks | Two_pass_assembler/validation.c:552-576 | a line that is the spelling of its own parts is validated by validateCommand when its mnemonic is a machine instruction, by validateOrder when it is a directive, and otherwise gets command-name (empty-label when it starts with ':') |
| Validation.CheckLineOfSpelledLine | Two_pass_assembler/validation.c:552-576 | on a written-out line, checkLine is validateCommand for a mnemonic and validateOrder for a directive |
| Validation.LargestItemsAsWritten | Two_pass_assembler/validation.c:433-438 | `.db 127` and `.dh 32767` are value-out-of-range as written and valid corrected |
| Validation.DataLineValue | Two_pass_assembler/validation.c:552-576 | a one-operand data line is decided by the value check, as written and corrected |
| Validation.TrailingCommaLineChecks | Two_pass_assembler/validation.c:474-476 | checkLine on `.db 1,2,` is undefined as written and multiple-commas corrected |
| Validation.RArithmeticLineValid | Two_pass_assembler/validation.c:552-576 | any R arithmetic line on three register names, with or without a legal label, is valid |
| Validation.MessagesIdentifyErrors | Two_pass_assembler/validation.c:646-691 | distinct verdicts have distinct messages |
| Encoding.RWordOf | Two_pass_assembler/encoding.c:9-51 | the R word built from any operands has fields that fit their widths |
| Encoding.IWordOf | Two_pass_assembler/encoding.c:60-111 | the I word built from any operands has fields that fit their widths |
| Encoding.JWordOf | Two_pass_assembler/encoding.c:120-154 | the J word built from any operands has fields that fit their widths |
| Encoding.EncodeRCmd | Two_pass_assembler/encoding.c:9-51 | only the bits change; the result is an R word that fits, and it exists only for an R mnemonic with operand text |
| Encoding.ROpcodes | Two_pass_assembler/encoding.c:9-51 | every mnemonic with a funct has opcode 0 or 1, so encodeRCmd always reads register operands |
| Encoding.EncodeRArithmetic | Two_pass_assembler/encoding.c:9-51 | add..nor on $i,$j,$m give opcode 0, rs i, rt j, rd m, funct 1..5 |
| Encoding.EncodeRMove | Two_pass_assembler/encoding.c:9-51 | move, mvhi and mvlo on $i,$j give opcode 1, rs i, rt 0, rd j, funct 1..3 |
| Encoding.GetLabelAddress | Two_pass_assembler/encoding.c:166-175 | the value of the first label with the name, or -1 when none has it |
| Encoding.IEncoding | Two_pass_assembler/encoding.c:60-111 | only the bits change, and a changed command holds an I word that fits |
| Encoding.BranchImmediate | Two_pass_assembler/encoding.c:84-97 | as written the immediate is the signed difference target - address; corrected it is the distance |
| Encoding.EncodeIArithmetic | Two_pass_assembler/encoding.c:60-111 | addi..nori and the loads and stores on $i,v,$j give opcode k+2, rs i, rt j, immediate v |
| Encoding.EncodeIBranch | Two_pass_assembler/encoding.c:84-97 | bne..bgt on $i,$j,L give opcode 15..18, rs i, rt j and the 16-bit branch immediate; an unknown label leaves the command unencoded |
| Encoding.BackwardBranch | Two_pass_assembler/encoding.c:93-97 | `beq $1,$2,L` at 104 with L at 100 has immediate -4 as written and 4 corrected |
| Encoding.EncodeJCmd | Two_pass_assembler/encoding.c:120-154 | only the bits change, and a changed command holds a J word that fits |
| Encoding.JCmdOfOperand | Two_pass_assembler/encoding.c:120-154 | a register operand gives reg 1 and its number; a known label gives reg 0 and its address; an unknown label leaves the bits alone |
| Encoding.EncodeJStop | Two_pass_assembler/encoding.c:131-132 | stop gives opcode 63, reg 0, address 0, whatever follows it |
| Encoding.EncodeJmpRegister | Two_pass_assembler/encoding.c:133-138 | jmp $i for 1 <= i <= 31 gives opcode 30, reg 1, address i |
| Encoding.EncodeLaRegister | Two_pass_assembler/encoding.c:133-138 | la $i for 1 <= i <= 31 gives opcode 31, reg 1, address i |
| Encoding.EncodeCallRegister | Two_pass_assembler/encoding.c:133-138 | call $i for 1 <= i <= 31 gives opcode 32, reg 1, address i |
| Encoding.EncodeJLabel | Two_pass_assembler/encoding.c:139-151 | a label operand gives reg 0 and the label's address cut to 25 bits; an unknown label leaves the command unencoded |
| Encoding.JumpToRegisterZero | Two_pass_assembler/encoding.c:135-146 | `jmp $0` is encoded as a jump to a label named `$0` |
| Encoding.Allocate | Two_pass_assembler/encoding.c:184-217 | one data item per comma-separated field at consecutive addresses, each item size apart; the address ends past the last item |
| Encoding.EncodeOrder | Two_pass_assembler/encoding.c:184-217 | defined exactly for a line with a mnemonic; the data image only grows and the address never falls; no size or no operands adds nothing |
| Encoding.EncodeOrderLayout | Two_pass_assembler/encoding.c:184-217 | a data directive appends one item per operand, holding atol of the trimmed operand, at consecutive addresses |
| Encoding.EncodeChars | Two_pass_assembler/encoding.c:227-250 | one byte per character at consecutive addresses, then a 0 terminator |
| Encoding.EncodeAscizOrder | Two_pass_assembler/encoding.c:227-250 | defined exactly when there is operand text of at least two characters; the text between the ends is appended byte by byte, then a 0 |
| Encoding.PackedAppend | Two_pass_assembler/encoding.c:184-250 | two runs of data items laid back to back, the second starting where the first ends, form one run: each item at the start plus the sizes before it |
| Encoding.UniformPacked | Two_pass_assembler/encoding.c:184-217 | items of one size at start, start + size, ... lie back to back and end at start + count × size |
| Encoding.EncodeOrderPacked | Two_pass_assembler/encoding.c:184-217 | encodeOrder appends items back to back from the DC it is given, and returns the DC just past them |
| Encoding.EncodeAscizPacked | Two_pass_assembler/encoding.c:227-250 | encodeAscizOrder appends bytes back to back from the DC it is given, and returns the DC just past them |
| Files.BitField | Two_pass_assembler/files.c:15-39 | createStrFromBitField gives exactly `length` binary digits |
| Files.BitsAt | Two_pass_assembler/files.c:15-39 | character length-1-k of the string is bit k of the value |
| Files.BitFieldValue | Two_pass_assembler/files.c:15-39 | the string reads back as the value stored into the field |
| Files.BinaryConcat | Two_pass_assembler/files.c:66-83 | reading a concatenation shifts the first part past the second |
| Files.StrtolOfBits | Two_pass_assembler/files.c:242-253 | strtol in base 2 reads a whole string of binary digits |
| Files.Cut | Two_pass_assembler/files.c:242-253 | cut gives a value below 2^count, the value of the bits it copies |
| Files.WordCuts | Two_pass_assembler/files.c:85-89 | the four bytes cut from a 32-bit string, printed last part first, are the string's value least significant byte first |
| Files.HalfCuts | Two_pass_assembler/files.c:140-169 | the same for the two bytes of a 16-bit string |
| Files.WordString | Two_pass_assembler/files.c:66-83 | a word's string is 32 binary digits |
| Files.WordStringValue | Two_pass_assembler/files.c:66-83 | the 32-bit string of a word whose fields fit reads back as the word's value |
| Files.RWordString | Two_pass_assembler/files.c:67-73 | the R layout opcode, rs, rt, rd, funct, unused reads back as the word's value |
| Files.IWordString | Two_pass_assembler/files.c:74-78 | the I layout opcode, rs, rt, immed reads back as the word's value |
| Files.JWordString | Two_pass_assembler/files.c:79-83 | the J layout opcode, reg, address reads back as the word's value |
| Files.CommandString | Two_pass_assembler/files.c:66-83 | a string exists exactly for a command with no format (nothing is appended) or one whose bits are in its own format; it holds at most 32 binary digits |
| Files.CommandLine | Two_pass_assembler/files.c:84-89 | one code line per printable command, at the command's address, holding four bytes |
| Files.CommandLineValue | Two_pass_assembler/files.c:51-97 | the four printed bytes of an encoded command are its word, least significant first |
| Files.WriteCommands | Two_pass_assembler/files.c:51-97 | defined exactly when every command can be printed; one line per command, in order |
| Files.DataBytes | Two_pass_assembler/files.c:106-229 | an item prints as many bytes as it is wide |
| Files.DataBytesValue | Two_pass_assembler/files.c:106-229 | an item's bytes, least significant first, are its value stored in that width |
| Files.OrderRows | Two_pass_assembler/files.c:106-229 | the data rows are the items' bytes in one run, four to a row, starting at the first item's address |
| Files.PrintItemsBytes | Two_pass_assembler/files.c:106-229 | printing item by item is printing all their bytes in one run |
| Files.PrintBytesRows | Two_pass_assembler/files.c:106-229 | printing bytes from the start of a row gives the rows of four, and the place and address the next byte finds |
| Files.CreateObjectFile | Two_pass_assembler/files.c:266-275 | the header holds ICF - 100 and DCF - ICF; the file exists exactly when every command can be printed |
| Files.ObjectFileOfAssembly | Two_pass_assembler/files.c:266-275 | for an assembled file: code length 4 per command, a non-negative data length, code lines at 100, 104, ... |
| Files.CodeLineAddresses | Two_pass_assembler/files.c:51-97 | each code line carries its command's address |
| Files.EntryFile | Two_pass_assembler/files.c:284-304 | the entry file stays exactly when some label is an entry |
| Files.EntryLinesExact | Two_pass_assembler/files.c:284-304 | its lines are exactly the entry labels' names and values |
| Files.ExternalFile | Two_pass_assembler/files.c:313-335 | the extern file stays exactly when some label is external |
| Files.ExternLinesExact | Two_pass_assembler/files.c:313-335 | its lines are exactly the external labels' names with each of their appearance addresses |
| Files.ChangeFileName | Two_pass_assembler/files.c:347-358 | defined exactly for names of at least three characters |
| Files.IsAsFile | Two_pass_assembler/files.c:368-376 | defined exactly for names of at least three characters |
| Files.AsFileNames | Two_pass_assembler/files.c:347-376 | `stem.as` is an .as file and turns into stem + extension; a three-character extension turns back into `stem.as` |
| Files.IsAsFileExact | Two_pass_assembler/files.c:368-376 | isAsFile is true exactly on names ending in `.as` |
| Assembler.ChunkLength | Two_pass_assembler/assembler.c:130-150 | a getLine chunk runs up to and including the first line break, at most 80 characters, or to the end of the text |
| Assembler.Chunks | Two_pass_assembler/assembler.c:130-150 | every chunk has 1..80 characters |
| Assembler.ChunksCoverText | Two_pass_assembler/assembler.c:130-150 | the chunks put back together are the whole text |
| Assembler.Numbered | Two_pass_assembler/assembler.c:185-237 | the chunks a scan looks at get consecutive line numbers |
| Assembler.InitNewCommand | Two_pass_assembler/Datatypes.c:74-96 | a pending command exists exactly for a line with a mnemonic; it has the address, the line, no bits, and the mnemonic's format |
| Assembler.ScanLine | Two_pass_assembler/assembler.c:194-235 | one line of the first scan adds no error, counts one line, and never lowers DC |
| Assembler.ScanLineCommands | Two_pass_assembler/assembler.c:228-232 | an instruction line appends a pending command at IC and IC grows by 4; other lines leave both alone |
| Assembler.ScanLineLabels | Two_pass_assembler/assembler.c:204-215 | a label on a directive line is appended with DC and the data attribute, on an instruction line with IC and the code attribute; nothing else adds a label |
| Assembler.ScanLinePicture | Two_pass_assembler/assembler.c:217-227 | the data image only grows |
| Assembler.ScanLineKeepsData | Two_pass_assembler/assembler.c:217-222 | only a directive other than .extern and .entry allocates data |
| Assembler.ScanOrderData | Two_pass_assembler/assembler.c:217-227 | a directive line keeps the data image packed from 0 with DC just past its last item |
| Assembler.ScanLineData | Two_pass_assembler/assembler.c:194-235 | one line of the first scan keeps the data image packed from 0 with DC just past its last item |
| Assembler.FirstStep | Two_pass_assembler/assembler.c:185-193 | one chunk counts one line, never lowers DC, and adds the length error exactly when the chunk is over the limit |
| Assembler.FirstStepData | Two_pass_assembler/assembler.c:185-235 | one chunk keeps the data image packed from 0 with DC just past its last item |
| Assembler.FirstScanNoExternals | Two_pass_assembler/assembler.c:204-215 | the first scan defines no external label |
| Assembler.FirstScanLayout | Two_pass_assembler/assembler.c:185-237 | the first scan keeps the commands at 100, 104, ... with IC just past the last one |
| Assembler.FirstStepErrors | Two_pass_assembler/assembler.c:186-193 | a chunk adds the length error exactly when it is over the limit |
| Assembler.LengthErrorsExact | Two_pass_assembler/assembler.c:186-193 | the length errors are exactly those of the over-long numbered chunks |
| Assembler.FirstScan | Two_pass_assembler/assembler.c:185-237 | the first scan never lowers DC, keeps the data items back to back from 0 with DC the sum of their sizes, and adds to the errors exactly the length errors of its chunks, in order |
| Assembler.FirstScanAppendsErrors | Two_pass_assembler/assembler.c:185-237 | the first scan appends exactly the length errors to what was there |
| Assembler.FirstScanErrors | Two_pass_assembler/assembler.c:185-237 | the first scan's new errors are the length errors of the numbered chunks |
| Assembler.MarkOrder | Two_pass_assembler/assembler.c:258-275 | .extern of a known name records an error; of a new name it appends an external label at 0; .entry marks the label; other lines only count. Undefined exactly for .extern without operand, .entry without operand once a label exists, and an overrunning message |
| Assembler.SecondScanOfBareEntry | Two_pass_assembler/Datatypes.c:205-214 | on an empty label table a `.entry` line without operand is only counted: markLabelAsEntry walks no label |
| Assembler.MarkOrderExternalsUnique | Two_pass_assembler/assembler.c:258-273 | a directive of the second scan leaves no other label under an external label's name: .extern adds only a name the table lacks |
| Assembler.MarkOrderMarksOnly | Two_pass_assembler/assembler.c:258-273 | a directive of the second scan only sets entry marks and appends external labels |
| Assembler.MarkLine | Two_pass_assembler/assembler.c:250-276 | one line of the second scan only appends errors, only sets entry marks on existing labels, and adds only external labels |
| Assembler.MarkLineOfParts | Two_pass_assembler/assembler.c:250-256 | a label-only line is passed over uncounted; a line with a mnemonic is marked |
| Assembler.MarkLineOfBlank | Two_pass_assembler/assembler.c:250-256 | a blank line has no defined outcome as written; corrected it is counted and passed over |
| Assembler.BlankLineInSecondScan | Two_pass_assembler/assembler.c:251-252 | a lone line break stops the as-written second scan and is skipped by the corrected one |
| Assembler.SecondScanSkipsBlank | Two_pass_assembler/assembler.c:244-277 | the corrected second scan counts a blank line and moves on |
| Assembler.SecondScan | Two_pass_assembler/assembler.c:244-277 | the second scan only appends errors; every label already in the table keeps its name, value, use sites and marks except isEntry, and each label it adds is external |
| Assembler.SecondScanExternalsUnique | Two_pass_assembler/assembler.c:244-277 | the second scan keeps external names unique |
| Assembler.ScansExternalsUnique | Two_pass_assembler/assembler.c:162-277 | after both scans no other label shares an external label's name, though internal labels may repeat |
| Assembler.Pass1 | Two_pass_assembler/assembler.c:162-283 | pass1 leaves the commands at 100, 104, ... with IC past the last; the data items back to back from 0, each at the sum of the sizes before it, with DC the sum of all their sizes; and no other label under an external label's name |
| Assembler.Pass1LengthErrors | Two_pass_assembler/assembler.c:162-283 | pass1's errors start with exactly the length errors of the numbered chunks |
| Assembler.ValidateFile | Two_pass_assembler/assembler.c:329-357 | validateFile reports at most one error per chunk, each under a line number past the start, in increasing line order |
| Assembler.ValidateFileReports | Two_pass_assembler/assembler.c:329-357 | validateFile reports a numbered chunk within the limit exactly when the line check does not pass it, with that verdict's message |
| Assembler.EncodeCommand | Two_pass_assembler/assembler.c:294-301 | only the bits change; R commands get an R word; a command with no format is kept as it is; I commands get the corrected branch immediate (Findings row 3) |
| Assembler.Pass2 | Two_pass_assembler/assembler.c:291-304 | defined exactly when every command can be encoded; each command is replaced by its encoding, in place and in order, with the corrected branch immediate (Findings row 3) |
| Assembler.Pass2KeepsFrames | Two_pass_assembler/assembler.c:291-304 | pass2 keeps every command's address, format and line |
| Assembler.RArithmeticLine | Two_pass_assembler/assembler.c:291-304 | an R arithmetic line on three registers passes checkLine and is encoded to opcode 0 and funct 1..5 with those registers |
| Assembler.UpdateDataPictureAddress | Two_pass_assembler/assembler.c:312-318 | every data item moves up by ICF and keeps its value and size |
| Assembler.Assemble | Two_pass_assembler/assembler.c:35-100 | a refused file has errors; an encoded one has ICF = 100 + 4 per command, DCF >= ICF, and commands at 100, 104, ... |
| Assembler.AssembleExternalAppearances | Two_pass_assembler/assembler.c:71-79 | in an encoded file every external label gains exactly its use sites in the encoded commands, in order, and every other label is as pass1 left it |
| Assembler.FirstScanOfBareEntry | Two_pass_assembler/assembler.c:217-222 | the first scan only counts a `.entry` line |
| Assembler.AssembleOfBareEntry | Two_pass_assembler/assembler.c:35-100 | a file read as one `.entry` line without operand, accepted by checkLine, is encoded with no commands, no data and no labels |
| Assembler.EntryLine | Two_pass_assembler/validation.c:466-478 | `.entry` alone is a directive line with no label and no operand, and checkLine passes it |
| Assembler.Pass1OfBareEntry | Two_pass_assembler/assembler.c:162-283 | pass1 on one `.entry` line without operand leaves no labels, commands, data or errors, with IC = 100 |
| Assembler.EntryOnlyFile | Two_pass_assembler/assembler.c:272-273 | the file `.entry` assembles to an empty image with ICF = DCF = 100 |
| Assembler.AssembleGate | Two_pass_assembler/assembler.c:76-85 | a file is encoded only when no chunk is over the limit and every chunk passes the line check |
| Assembler.NoRejections | Two_pass_assembler/assembler.c:329-357 | an empty report means the check passes every chunk within the limit |

## Left out

- File I/O is not modelled: opening, rewinding (`fseek`) and closing the
  source file, and writing and removing the output files. A file is its
  text. The object, entry and extern files are their line contents, not the
  printf formatting of each line.
- `main`'s loop over the command-line arguments is left out. `Assemble`
  models one file. The `.as` check is `Files.IsAsFile`.
- Allocation failure, `free` and memory leaks are not modelled, nor is the
  memory-allocation verdict they lead to.
- The printed diagnostics are left out: `printErrorStruct`, and the
  `printf` calls in `encodeICmd` and `encodeJCmd` for a label that is not
  found. The model keeps the command unencoded, as the code does.
- `duplicateStr` is the identity on sequences and `freeStringArray` has
  nothing to do, so neither has a member.
- `atol` and `strtol` overflow, and locales other than "C", are not
  modelled.
- Undefined behaviour is not explored: NULL dereferences, `strSplit`'s
  failed assert and `strlen(NULL)` are all `None`.
- `Files.ChangeFileName` and `Files.IsAsFile` are `None` on names shorter
  than three characters. The C reads before the start of the string there.
- `Assembler.ValidateFile` takes the line check as a parameter.
  `Assemble` passes the corrected `checkLine`, and `Validation.CheckLine`
  is the as-written one.
- Assembler.Assemble: uses the corrected line check, branch immediate and
  second scan named under "## Findings", not the as-written ones, so it
  does not reproduce the program's output on those inputs.
- Assembler.EncodeCommand: states the layout only for R commands. The I and
  J encodings are stated per mnemonic family by the Encoding lemmas, not
  by this member. It also uses the corrected branch immediate (Findings
  row 3), not the signed difference encodeICmd stores.
- Assembler.Pass2: stores the corrected branch immediate (Findings row 3).
  For `beq $1,$2,L` at 104 with L at 100 it stores 4 where the program
  stores -4 (`Encoding.BackwardBranch`).

## Findings

| source | as written | input that shows it | evidently intended | confidence | as-written member | corrected member |
|---|---|---|---|---|---|---|
| Two_pass_assembler/validation.c:433-438 | `.db` accepts values below 127 and `.dh` values below 32767 (`check < DB_MAX - 1`) | `.db 127` and `.dh 32767` are value-out-of-range | the full signed byte and half-word ranges, up to 127 and 32767 | not executed | Validation.CheckOrderParamValueAsWritten, Validation.LargestItemsAsWritten | Validation.CheckOrderParamValue, Validation.AsWrittenDiffersOnlyAtTop |
| Two_pass_assembler/validation.c:474-476 | runOrderValidation gets the operand text after strSplit's strtok cut it at the first comma (stringExtension.c:131), so the comma and value checks see only the first operand | `.db 1,2,`: the residue `1` passes the comma check and the value loop runs past the two tokens, which is undefined | the whole operand text is checked: multiple-commas | not executed | Validation.ValidateOrderAsWritten, Validation.TrailingCommaLineChecks | Validation.ValidateOrder, Validation.OrderChecksDefined |
| Two_pass_assembler/encoding.c:93-97 | `targetAddress - command->address` is computed as unsigned long, so the `< 0` test never holds and the immediate is the signed difference | `beq $1,$2,L` at address 104 with `L` at 100 gives immediate -4 | the absolute distance the `< 0` branch computes: 4 | not executed | Encoding.EncodeICmd, Encoding.BackwardBranch | Encoding.BranchImmediate, Encoding.EncodeIBranch |
| Two_pass_assembler/assembler.c:251-252 | the second scan reads `lineParts->cmdName` without checking for NULL, and getCommandParts returns NULL on a blank line | a file holding a blank line | a blank line is counted and skipped, as in the first scan | not executed | Assembler.MarkLineOfBlank, Assembler.BlankLineInSecondScan | Assembler.SecondScanSkipsBlank, Assembler.Pass1 |
