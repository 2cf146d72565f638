/** encoding.c: the second pass turns each pending instruction into its
    32-bit word, and the first pass turns each data directive into data
    items. A command whose encoding hits undefined behaviour in the source
    (a NULL operand handed to a string function, a table read at index -1)
    is None. */
module Encoding {
  import opened CLib
  import opened StringExtension
  import opened Constants
  import opened Datatypes
  import opened ParserInput

  /** The register number of an operand slot after trimStr; reading a
      missing slot (NULL) is undefined. */
  function RegisterOf(p: Option<string>): Option<int> {
    match TrimOpt(p)
    case None => None
    case Some(q) => RegisterIndex(q)
  }

  /** The words the bit-field stores build: every unsigned field keeps its
      value modulo 2^width and the signed immediate wraps to 16 bits. */
  function RWordOf(opcode: int, rs: int, rt: int, rd: int, funct: int): (w: Word)
    ensures w.RWord? && WordFits(w)
  {
    RWord(Unsigned(opcode, 6), Unsigned(rs, 5), Unsigned(rt, 5), Unsigned(rd, 5), Unsigned(funct, 5), 0)
  }

  function IWordOf(opcode: int, rs: int, rt: int, immed: int): (w: Word)
    ensures w.IWord? && WordFits(w)
  {
    assert Pow2(15) == 32768;
    IWord(Unsigned(opcode, 6), Unsigned(rs, 5), Unsigned(rt, 5), Signed(immed, 16))
  }

  function JWordOf(opcode: int, reg: int, address: int): (w: Word)
    ensures w.JWord? && WordFits(w)
  {
    JWord(Unsigned(opcode, 6), Unsigned(reg, 1), Unsigned(address, 25))
  }

  /** Values already inside their fields are stored unchanged. */
  lemma StoredFieldsKeepSmallValues(v: int)
    ensures 0 <= v < 2 ==> Unsigned(v, 1) == v
    ensures 0 <= v < 32 ==> Unsigned(v, 5) == v
    ensures 0 <= v < 64 ==> Unsigned(v, 6) == v
    ensures 0 <= v < 0x200_0000 ==> Unsigned(v, 25) == v
    ensures -32768 <= v < 32768 ==> Signed(v, 16) == v
  {
    Pow2Values();
  }

  /** encodeRCmd. Opcode 0 (add, sub, and, or, nor) takes rs, rt and rd from
      the first operand, the second operand and the trimmed rest; opcode 1
      (move, mvhi, mvlo) takes rs from the first operand and rd from the
      trimmed rest, leaving rt 0. funct comes from the table and `unused` is
      0. None where the source is undefined: a blank line, no mnemonic, a
      mnemonic outside the opcode or funct table, or an operand slot that is
      missing. */
  function EncodeRCmd(c: Command): (r: Option<Command>)
    ensures r.Some? ==> r.value == c.(bits := r.value.bits)
    ensures r.Some? ==> r.value.bits.Some? && r.value.bits.value.RWord? && WordFits(r.value.bits.value)
    ensures r.Some? ==> (CommandParts(c.line).Some? && CommandParts(c.line).value.cmdName.Some?
      && FunctByCommand(CommandParts(c.line).value.cmdName.value).Some?
      && CommandParts(c.line).value.params.Some?)
  {
    match CommandParts(c.line)
    case None => None
    case Some(parts) =>
      if parts.cmdName.None? then None
      else
        var cmd := parts.cmdName.value;
        match (OpcodeByCommand(cmd), FunctByCommand(cmd))
        case (Some(opcode), Some(funct)) => ROpcodes(cmd); RBits(c, opcode, funct, parts.params)
        case _ => None
  }

  /** Every mnemonic with a funct (the R family) has opcode 0 or 1. */
  lemma ROpcodes(cmd: string)
    requires FunctByCommand(cmd).Some?
    ensures OpcodeByCommand(cmd).Some? && (OpcodeByCommand(cmd).value == 0 || OpcodeByCommand(cmd).value == 1)
  {
    OpcodeTable();
  }

  /** The operand half of encodeRCmd: opcode 0 reads rs,rt,rd, opcode 1
      reads rs,rd, any other opcode (stop's) no registers. */
  function RBits(c: Command, opcode: int, funct: int, params: Option<string>): (r: Option<Command>)
    ensures r.Some? ==> r.value == c.(bits := r.value.bits)
    ensures r.Some? ==> r.value.bits.Some? && r.value.bits.value.RWord? && WordFits(r.value.bits.value)
    ensures r.Some? && (opcode == 0 || opcode == 1) ==> params.Some?
  {
    var first := StrSep(params, {','});
    if opcode == 0 then
      var second := StrSep(first.rest, {','});
      match (RegisterOf(first.token), RegisterOf(second.token), RegisterOf(second.rest))
      case (Some(rs), Some(rt), Some(rd)) => Some(c.(bits := Some(RWordOf(opcode, rs, rt, rd, funct))))
      case _ => None
    else if opcode == 1 then
      match (RegisterOf(first.token), RegisterOf(first.rest))
      case (Some(rs), Some(rd)) => Some(c.(bits := Some(RWordOf(opcode, rs, 0, rd, funct))))
      case _ => None
    else Some(c.(bits := Some(RWordOf(opcode, 0, 0, 0, funct))))
  }

  /** The local table of encodeICmd that selects the branch layout. */
  const BranchCommands: seq<string> := ["beq", "bne", "blt", "bgt"]

  lemma BranchCommandsAreBranchFamily(name: string)
    ensures name in BranchCommands <==> name in IBCmd
  {
  }

  /** getLabelAddress: the value of the first label with that name (the
      same one isLabelExists and markLabelAsEntry find); -1 when there is
      none. */
  function GetLabelAddress(labels: seq<Label>, name: string): (a: int)
    ensures var k := FirstLabel(labels, name);
      a == if k < |labels| then labels[k].value else -1
  {
    if |labels| == 0 then -1
    else if labels[0].symbol == name then labels[0].value
    else GetLabelAddress(labels[1..], name)
  }

  /** getLabelAddress on a name that may be NULL: strcmp(NULL, ...) is
      undefined, which happens as soon as the table has a label. */
  function LabelAddressOf(labels: seq<Label>, name: Option<string>): Option<int> {
    match name
    case Some(n) => Some(GetLabelAddress(labels, n))
    case None => if |labels| == 0 then Some(-1) else None
  }

  /** encodeICmd. rs is the first operand. For beq, bne, blt and bgt, rt is
      the second operand and the immediate is the label's address minus the
      instruction's address: the source subtracts an unsigned long from a
      long, so the difference is unsigned, its `< 0` test never holds, and
      the signed difference is what reaches the 16-bit field. When that label
      is missing the command keeps its bits. For the other I mnemonics the
      immediate is atol of the second operand and rt is the trimmed rest.
      `asWritten` picks the branch immediate as written (the signed
      difference) or as the `< 0` test means it (the distance). */
  function IEncoding(c: Command, labels: seq<Label>, asWritten: bool): (r: Option<Command>)
    ensures r.Some? ==> r.value == c.(bits := r.value.bits)
    ensures r.Some? && r.value != c ==> r.value.bits.Some? && r.value.bits.value.IWord? && WordFits(r.value.bits.value)
  {
    match CommandParts(c.line)
    case None => None
    case Some(parts) =>
      if parts.cmdName.None? then None
      else
        var cmd := parts.cmdName.value;
        match OpcodeByCommand(cmd)
        case None => None
        case Some(opcode) =>
          var first := StrSep(parts.params, {','});
          match RegisterOf(first.token)
          case None => None
          case Some(rs) =>
            var second := StrSep(first.rest, {','});
            if FindInArray(cmd, BranchCommands) == True then
              BranchTarget(c, opcode, rs, RegisterOf(second.token), LabelAddressOf(labels, TrimOpt(second.rest)), asWritten)
            else ValueImmediate(c, opcode, rs, TrimOpt(second.token), RegisterOf(second.rest))
  }

  /** encodeICmd as written. */
  function EncodeICmd(c: Command, labels: seq<Label>): Option<Command> {
    IEncoding(c, labels, true)
  }

  /** encodeICmd with the branch immediate the distance to the label. This
      is the version the rest of the model uses. */
  function EncodeICmdCorrected(c: Command, labels: seq<Label>): Option<Command> {
    IEncoding(c, labels, false)
  }

  /** The branch immediate before it is stored. As written the difference
      is computed in unsigned long, so the test for a negative difference
      never holds and the signed difference is kept; as meant by that test
      it is the distance between the two addresses. */
  function BranchImmediate(target: int, address: int, asWritten: bool): (d: int)
    ensures asWritten ==> d == target - address
    ensures !asWritten ==> d >= 0 && (d == target - address || d == address - target)
  {
    if asWritten then target - address
    else if target - address < 0 then address - target
    else target - address
  }

  /** The branch half of encodeICmd, given rt and the label's address
      (-1 when there is no such label). */
  function BranchTarget(c: Command, opcode: int, rs: int, rt: Option<int>, target: Option<int>,
                        asWritten: bool): (r: Option<Command>)
    ensures r.Some? ==> r.value == c.(bits := r.value.bits)
    ensures r.Some? && r.value != c ==> r.value.bits.Some? && r.value.bits.value.IWord? && WordFits(r.value.bits.value)
  {
    match (rt, target)
    case (Some(t), Some(a)) =>
      if a == -1 then Some(c) else Some(c.(bits := Some(IWordOf(opcode, rs, t, BranchImmediate(a, c.address, asWritten)))))
    case _ => None
  }

  /** The other half of encodeICmd, given the immediate's text and rt. */
  function ValueImmediate(c: Command, opcode: int, rs: int, p: Option<string>, rt: Option<int>): (r: Option<Command>)
    ensures r.Some? ==> r.value == c.(bits := r.value.bits)
    ensures r.Some? && r.value != c ==> r.value.bits.Some? && r.value.bits.value.IWord? && WordFits(r.value.bits.value)
  {
    match (p, rt)
    case (Some(v), Some(t)) => Some(c.(bits := Some(IWordOf(opcode, rs, t, Atol(v)))))
    case _ => None
  }

  /** encodeJCmd. stop carries only its opcode. Otherwise a register operand
      ($1..$31, read as the number after the first character) sets reg 1 and
      the address to its number; anything else is looked up as a label, and a
      missing label leaves the command's bits as they were. */
  function EncodeJCmd(c: Command, labels: seq<Label>): (r: Option<Command>)
    ensures r.Some? ==> r.value == c.(bits := r.value.bits)
    ensures r.Some? && r.value != c ==> r.value.bits.Some? && r.value.bits.value.JWord? && WordFits(r.value.bits.value)
  {
    match CommandParts(c.line)
    case None => None
    case Some(parts) =>
      if parts.cmdName.None? then None
      else
        match OpcodeByCommand(parts.cmdName.value)
        case None => None
        case Some(opcode) => JBits(c, labels, opcode, parts.cmdName.value == "stop", TrimOpt(parts.params))
  }

  /** The fields of encodeJCmd once the opcode is known: stop, or the
      trimmed operand text, which must be there. */
  function JBits(c: Command, labels: seq<Label>, opcode: int, stop: bool, operand: Option<string>): (r: Option<Command>)
    ensures r.Some? ==> r.value == c.(bits := r.value.bits)
    ensures r.Some? && r.value != c ==> r.value.bits.Some? && r.value.bits.value.JWord? && WordFits(r.value.bits.value)
  {
    if stop then Some(c.(bits := Some(JWordOf(opcode, 0, 0))))
    else
      match operand
      case None => None
      case Some(p) =>
        match RegisterIndex(p)
        case None => None
        case Some(reg) =>
          if IsParamRegister(p) == True then Some(c.(bits := Some(JWordOf(opcode, 1, reg))))
          else
            var a := GetLabelAddress(labels, p);
            if a == -1 then Some(c) else Some(c.(bits := Some(JWordOf(opcode, 0, a))))
  }

  /** initNewDataItem stores the long into the signed 32-bit bit-field. */
  function DataValue(v: int): int {
    Signed(v, 32)
  }

  /** The value one operand becomes: atol of the trimmed text, stored. */
  function FieldValue(field: string): int {
    DataValue(Atol(Trim(field)))
  }

  /** The loop of encodeOrder, with the conversion of an operand to its value
      as a parameter: myStrsep hands out the operands one by one; each becomes
      an item at the current counter, which then moves on by the item size.
      Its result is one item per comma-separated field. */
  function Allocate(cursor: Option<string>, address: int, size: DataSize, value: string -> int): (r: (seq<DataItem>, int))
    ensures cursor.None? ==> r == ([], address)
    ensures r.1 >= address
    ensures cursor.Some? ==>
      var fs := Fields(cursor.value, ',');
      && |r.0| == |fs|
      && r.1 == address + |fs| * size.Bytes()
      && forall k :: 0 <= k < |fs| ==> r.0[k] == DataItem(address + k * size.Bytes(), value(fs[k]), size)
    decreases if cursor.Some? then |cursor.value| + 1 else 0
  {
    var sep := StrSep(cursor, {','});
    match sep.token
    case None => ([], address)
    case Some(tok) =>
      var rest := Allocate(sep.rest, address + size.Bytes(), size, value);
      FieldsStep(cursor.value, ',', tok, sep.rest);
      var gs := if sep.rest.Some? then Fields(sep.rest.value, ',') else [];
      AllocateStep(tok, gs, address, size.Bytes(), size, value, rest.0, rest.1);
      ([DataItem(address, value(tok), size)] + rest.0, rest.1)
  }

  lemma AllocateStep(tok: string, gs: seq<string>, address: int, n: int, size: DataSize,
                     value: string -> int, tail: seq<DataItem>, next: int)
    requires |tail| == |gs| && next == address + n + |gs| * n
    requires forall k :: 0 <= k < |gs| ==> tail[k] == DataItem(address + n + k * n, value(gs[k]), size)
    ensures var fs := [tok] + gs;
      var items := [DataItem(address, value(tok), size)] + tail;
      && |items| == |fs|
      && next == address + |fs| * n
      && forall k :: 0 <= k < |fs| ==> items[k] == DataItem(address + k * n, value(fs[k]), size)
  {
    var fs := [tok] + gs;
    var items := [DataItem(address, value(tok), size)] + tail;
    forall k | 1 <= k < |fs|
      ensures items[k] == DataItem(address + k * n, value(fs[k]), size)
    {
      assert items[k] == tail[k - 1] && fs[k] == gs[k - 1];
      NextSlot(address, n, k - 1);
    }
    NextSlot(address, n, |gs|);
  }

  lemma NextSlot(a: int, n: int, k: int)
    ensures a + n + k * n == a + (k + 1) * n
  {
  }

  /** encodeOrder. A directive without a data size (.entry, .extern or an
      unknown name) and a directive without operands change nothing;
      otherwise one item per comma-separated operand is appended and the
      data counter moves past them. None where the source is undefined (a
      blank line or no mnemonic). */
  function EncodeOrder(picture: seq<DataItem>, orderLine: string, address: int): (r: Option<(seq<DataItem>, int)>)
    ensures r.Some? <==> CommandParts(orderLine).Some? && CommandParts(orderLine).value.cmdName.Some?
    ensures r.Some? ==> |r.value.0| >= |picture| && r.value.0[..|picture|] == picture
    ensures r.Some? ==> r.value.1 >= address
    ensures r.Some? ==>
      var parts := CommandParts(orderLine).value;
      DataSizeByOrderName(parts.cmdName.value).None? || parts.params.None? ==> r.value == (picture, address)
  {
    match CommandParts(orderLine)
    case None => None
    case Some(parts) =>
      if parts.cmdName.None? then None
      else
        match DataSizeByOrderName(parts.cmdName.value)
        case None => Some((picture, address))
        case Some(size) =>
          var items := Allocate(parts.params, address, size, FieldValue);
          AppendItems(picture, items.0);
          Some((picture + items.0, items.1))
  }

  /** What encodeOrder appends for a data directive with operands: item k
      holds the k-th comma-separated operand at start + k * size, and the
      counter ends one size past the last item. */
  lemma EncodeOrderLayout(picture: seq<DataItem>, orderLine: string, address: int, parts: LineParts,
                          size: DataSize, text: string)
    requires CommandParts(orderLine) == Some(parts) && parts.cmdName.Some? && parts.params == Some(text)
    requires DataSizeByOrderName(parts.cmdName.value) == Some(size)
    ensures var r := EncodeOrder(picture, orderLine, address);
      var fs := Fields(text, ',');
      && r.Some?
      && |r.value.0| == |picture| + |fs|
      && r.value.1 == address + |fs| * size.Bytes()
      && forall k :: 0 <= k < |fs| ==>
           r.value.0[|picture| + k] == DataItem(address + k * size.Bytes(), FieldValue(fs[k]), size)
  {
    EncodeOrderOfData(picture, orderLine, address, parts, size, text);
    AppendAllocated(picture, text, address, size, FieldValue);
  }

  lemma EncodeOrderOfData(picture: seq<DataItem>, orderLine: string, address: int, parts: LineParts,
                          size: DataSize, text: string)
    requires CommandParts(orderLine) == Some(parts) && parts.cmdName.Some? && parts.params == Some(text)
    requires DataSizeByOrderName(parts.cmdName.value) == Some(size)
    ensures var items := Allocate(Some(text), address, size, FieldValue);
      EncodeOrder(picture, orderLine, address) == Some((picture + items.0, items.1))
  {
  }

  lemma AppendAllocated(picture: seq<DataItem>, text: string, address: int, size: DataSize, value: string -> int)
    ensures var items := Allocate(Some(text), address, size, value);
      var fs := Fields(text, ',');
      && |picture + items.0| == |picture| + |fs|
      && items.1 == address + |fs| * size.Bytes()
      && forall k :: 0 <= k < |fs| ==>
           (picture + items.0)[|picture| + k] == DataItem(address + k * size.Bytes(), value(fs[k]), size)
  {
    var items := Allocate(Some(text), address, size, value);
    AppendItems(picture, items.0);
  }

  lemma AppendItems(picture: seq<DataItem>, items: seq<DataItem>)
    ensures (picture + items)[..|picture|] == picture
    ensures items == [] ==> picture + items == picture
    ensures forall k :: 0 <= k < |items| ==> (picture + items)[|picture| + k] == items[k]
  {
  }

  /** The loop of encodeAscizOrder: one byte item per character (its value
      as a signed char) and a terminating 0, at consecutive addresses. */
  function EncodeChars(text: string, address: int): (r: (seq<DataItem>, int))
    ensures |r.0| == |text| + 1 && r.1 == address + |text| + 1
    ensures forall i :: 0 <= i < |text| ==> r.0[i] == DataItem(address + i, SignedChar(text[i]), Byte)
    ensures r.0[|text|] == DataItem(address + |text|, 0, Byte)
  {
    if |text| == 0 then ([DataItem(address, 0, Byte)], address + 1)
    else
      var rest := EncodeChars(text[1..], address + 1);
      ([DataItem(address, SignedChar(text[0]), Byte)] + rest.0, rest.1)
  }

  /** encodeAscizOrder: the operand text loses its first and last character
      (the quotes) and the rest is stored as a string. None where the source
      is undefined: a blank line, no operand text (strlen(NULL)), or operand
      text shorter than the two quotes. */
  function EncodeAscizOrder(picture: seq<DataItem>, orderLine: string, address: int): (r: Option<(seq<DataItem>, int)>)
    ensures r.Some? <==> (CommandParts(orderLine).Some? && CommandParts(orderLine).value.params.Some?
      && |CommandParts(orderLine).value.params.value| >= 2)
    ensures r.Some? ==>
      var p := CommandParts(orderLine).value.params.value;
      var text := p[1..|p| - 1];
      && |r.value.0| == |picture| + |text| + 1
      && r.value.0[..|picture|] == picture
      && r.value.1 == address + |text| + 1
      && (forall i :: 0 <= i < |text| ==> r.value.0[|picture| + i] == DataItem(address + i, SignedChar(text[i]), Byte))
      && r.value.0[|picture| + |text|] == DataItem(address + |text|, 0, Byte)
  {
    match CommandParts(orderLine)
    case None => None
    case Some(parts) =>
      match parts.params
      case None => None
      case Some(p) =>
        if |p| < 2 then None
        else
          var items := EncodeChars(p[1..|p| - 1], address);
          Some((picture + items.0, items.1))
  }

  /** The bytes a run of data items takes. */
  function SizeSum(items: seq<DataItem>): nat {
    if |items| == 0 then 0 else SizeSum(items[..|items| - 1]) + items[|items| - 1].size.Bytes()
  }

  /** Data items back to back from start: each sits at start plus the sizes
      of the items before it, and end is start plus the sizes of them all. */
  predicate Packed(items: seq<DataItem>, start: int, end: int) {
    && end == start + SizeSum(items)
    && forall k :: 0 <= k < |items| ==> items[k].address == start + SizeSum(items[..k])
  }

  lemma {:induction false} SizeSumAppend(a: seq<DataItem>, b: seq<DataItem>)
    ensures SizeSum(a + b) == SizeSum(a) + SizeSum(b)
    decreases |b|
  {
    if |b| == 0 {
      assert a + b == a;
    } else {
      var c := b[..|b| - 1];
      assert (a + b)[..|a + b| - 1] == a + c;
      SizeSumAppend(a, c);
    }
  }

  /** Two packed runs, the second starting where the first ends, make one. */
  lemma PackedAppend(a: seq<DataItem>, b: seq<DataItem>, start: int, middle: int, end: int)
    requires Packed(a, start, middle) && Packed(b, middle, end)
    ensures Packed(a + b, start, end)
  {
    SizeSumAppend(a, b);
    forall k | 0 <= k < |a + b|
      ensures (a + b)[k].address == start + SizeSum((a + b)[..k])
    {
      if k < |a| {
        assert (a + b)[..k] == a[..k];
      } else {
        assert (a + b)[..k] == a + b[..k - |a|];
        SizeSumAppend(a, b[..k - |a|]);
      }
    }
  }

  lemma {:induction false} UniformSum(items: seq<DataItem>, size: DataSize)
    requires forall k :: 0 <= k < |items| ==> items[k].size == size
    ensures SizeSum(items) == |items| * size.Bytes()
    decreases |items|
  {
    if |items| > 0 {
      UniformSum(items[..|items| - 1], size);
    }
  }

  /** Items of one size at start, start + size, ... are packed: all the
      items a data directive appends share its size. */
  lemma UniformPacked(items: seq<DataItem>, start: int, size: DataSize)
    requires forall k :: 0 <= k < |items| ==> items[k].address == start + k * size.Bytes() && items[k].size == size
    ensures Packed(items, start, start + |items| * size.Bytes())
  {
    UniformSum(items, size);
    forall k | 0 <= k < |items|
      ensures items[k].address == start + SizeSum(items[..k])
    {
      UniformSum(items[..k], size);
    }
  }

  /** encodeOrder appends a packed run of items from the counter it is given
      to the counter it returns. */
  lemma EncodeOrderPacked(picture: seq<DataItem>, orderLine: string, address: int)
    requires EncodeOrder(picture, orderLine, address).Some?
    ensures var r := EncodeOrder(picture, orderLine, address).value;
      r.0[..|picture|] == picture && Packed(r.0[|picture|..], address, r.1)
  {
    var parts := CommandParts(orderLine).value;
    if DataSizeByOrderName(parts.cmdName.value).None? || parts.params.None? {
      var r := EncodeOrder(picture, orderLine, address).value;
      assert r == (picture, address);
      assert picture[|picture|..] == [];
    } else {
      DataOrderPacked(picture, orderLine, address, parts, DataSizeByOrderName(parts.cmdName.value).value, parts.params.value);
    }
  }

  lemma DataOrderPacked(picture: seq<DataItem>, orderLine: string, address: int, parts: LineParts,
                        size: DataSize, text: string)
    requires CommandParts(orderLine) == Some(parts) && parts.cmdName.Some? && parts.params == Some(text)
    requires DataSizeByOrderName(parts.cmdName.value) == Some(size)
    ensures var r := EncodeOrder(picture, orderLine, address);
      r.Some? && r.value.0[..|picture|] == picture && Packed(r.value.0[|picture|..], address, r.value.1)
  {
    EncodeOrderLayout(picture, orderLine, address, parts, size, text);
    var r := EncodeOrder(picture, orderLine, address).value;
    FieldsPacked(picture, r.0, address, r.1, size, Fields(text, ','));
  }

  lemma FieldsPacked(picture: seq<DataItem>, full: seq<DataItem>, address: int, end: int, size: DataSize,
                     fs: seq<string>)
    requires |full| == |picture| + |fs| && end == address + |fs| * size.Bytes()
    requires forall k :: 0 <= k < |fs| ==> full[|picture| + k] == DataItem(address + k * size.Bytes(), FieldValue(fs[k]), size)
    ensures Packed(full[|picture|..], address, end)
  {
    var added := full[|picture|..];
    forall k | 0 <= k < |added|
      ensures added[k].address == address + k * size.Bytes() && added[k].size == size
    {
      assert added[k] == full[|picture| + k] == DataItem(address + k * size.Bytes(), FieldValue(fs[k]), size);
    }
    UniformPacked(added, address, size);
  }

  /** encodeAscizOrder appends a packed run of bytes from the counter it is
      given to the counter it returns. */
  lemma EncodeAscizPacked(picture: seq<DataItem>, orderLine: string, address: int)
    requires EncodeAscizOrder(picture, orderLine, address).Some?
    ensures var r := EncodeAscizOrder(picture, orderLine, address).value;
      r.0[..|picture|] == picture && Packed(r.0[|picture|..], address, r.1)
  {
    var r := EncodeAscizOrder(picture, orderLine, address).value;
    var p := CommandParts(orderLine).value.params.value;
    BytesPacked(picture, r.0, p[1..|p| - 1], address, r.1);
  }

  lemma BytesPacked(picture: seq<DataItem>, full: seq<DataItem>, text: string, address: int, end: int)
    requires |full| == |picture| + |text| + 1 && end == address + |text| + 1
    requires forall i :: 0 <= i < |text| ==> full[|picture| + i] == DataItem(address + i, SignedChar(text[i]), Byte)
    requires full[|picture| + |text|] == DataItem(address + |text|, 0, Byte)
    ensures Packed(full[|picture|..], address, end)
  {
    var added := full[|picture|..];
    forall k | 0 <= k < |added|
      ensures added[k].address == address + k * Byte.Bytes() && added[k].size == Byte
    {
      if k < |text| {
        assert added[k] == full[|picture| + k] == DataItem(address + k, SignedChar(text[k]), Byte);
      } else {
        assert added[k] == full[|picture| + |text|];
      }
    }
    UniformPacked(added, address, Byte);
  }

  /** An operand as a programmer writes it: no comma, no line break, and no
      white space at its ends. */
  predicate PlainOperand(s: string) {
    && |s| > 0 && !IsSpace(s[0]) && !IsSpace(s[|s| - 1])
    && ',' !in s && '\r' !in s && '\n' !in s
  }

  /** '$' followed by decimal digits is a plain operand. */
  lemma DollarDigitsPlain(d: string)
    requires |d| > 0 && AllDigits(d)
    ensures PlainOperand("$" + d)
  {
    var s := "$" + d;
    assert forall x :: 1 <= x < |s| ==> s[x] == d[x - 1];
    assert forall x :: 0 <= x < |s| ==> s[x] == '$' || IsDigit(s[x]);
  }

  /** A register spelling is a plain operand that reads as its own number. */
  lemma RegisterOperand(i: nat)
    requires i < 32
    ensures PlainOperand(RegisterNames[i])
    ensures RegisterOf(Some(RegisterNames[i])) == Some(i)
  {
    RegisterNamesAreDecimal();
    var s := RegisterNames[i];
    assert s == "$" + DecimalString(i);
    DollarDigitsPlain(DecimalString(i));
    RegisterIndexOfName(i);
    TrimNoSpaceEnds(s);
  }

  /** Cutting `a,rest` at its first comma. */
  lemma FirstOperand(a: string, rest: string)
    requires PlainOperand(a)
    ensures StrSep(Some(a + "," + rest), {','}) == Sep(Some(a), Some(rest))
  {
    assert a + "," + rest == a + [','] + rest;
    StrSepAt(a, ',', rest);
  }

  lemma ThreeOperands(a: string, b: string, m: string)
    ensures a + "," + b + "," + m == a + "," + (b + "," + m)
  {
  }

  /** encodeRCmd once the line is known to cut into three registers. */
  lemma RCmdOfThree(c: Command, lbl: Option<string>, cmd: string, text: string, tail: string,
                    a: string, b: string, m: string, funct: int, i: int, j: int, k: int)
    requires CommandParts(c.line) == Some(LineParts(lbl, Some(cmd), Some(text)))
    requires OpcodeByCommand(cmd) == Some(0) && FunctByCommand(cmd) == Some(funct)
    requires StrSep(Some(text), {','}) == Sep(Some(a), Some(tail))
    requires StrSep(Some(tail), {','}) == Sep(Some(b), Some(m))
    requires RegisterOf(Some(a)) == Some(i) && RegisterOf(Some(b)) == Some(j) && RegisterOf(Some(m)) == Some(k)
    ensures EncodeRCmd(c) == Some(c.(bits := Some(RWordOf(0, i, j, k, funct))))
  {
    assert EncodeRCmd(c) == RBits(c, 0, funct, Some(text));
  }

  /** encodeRCmd once the line is known to cut into two registers. */
  lemma RCmdOfTwo(c: Command, lbl: Option<string>, cmd: string, text: string,
                  a: string, m: string, funct: int, i: int, k: int)
    requires CommandParts(c.line) == Some(LineParts(lbl, Some(cmd), Some(text)))
    requires OpcodeByCommand(cmd) == Some(1) && FunctByCommand(cmd) == Some(funct)
    requires StrSep(Some(text), {','}) == Sep(Some(a), Some(m))
    requires RegisterOf(Some(a)) == Some(i) && RegisterOf(Some(m)) == Some(k)
    ensures EncodeRCmd(c) == Some(c.(bits := Some(RWordOf(1, i, 0, k, funct))))
  {
    assert EncodeRCmd(c) == RBits(c, 1, funct, Some(text));
  }

  /** Register numbers, opcodes and functs in range are stored as they are. */
  lemma RWordOfSmall(opcode: int, rs: int, rt: int, rd: int, funct: int)
    requires 0 <= opcode < 64 && 0 <= rs < 32 && 0 <= rt < 32 && 0 <= rd < 32 && 0 <= funct < 32
    ensures RWordOf(opcode, rs, rt, rd, funct) == RWord(opcode, rs, rt, rd, funct, 0)
  {
    StoredFieldsKeepSmallValues(opcode);
    StoredFieldsKeepSmallValues(rs);
    StoredFieldsKeepSmallValues(rt);
    StoredFieldsKeepSmallValues(rd);
    StoredFieldsKeepSmallValues(funct);
  }
  lemma IWordOfSmall(opcode: int, rs: int, rt: int, immed: int)
    requires 0 <= opcode < 64 && 0 <= rs < 32 && 0 <= rt < 32
    ensures IWordOf(opcode, rs, rt, immed) == IWord(opcode, rs, rt, Signed(immed, 16))
  {
    StoredFieldsKeepSmallValues(opcode);
    StoredFieldsKeepSmallValues(rs);
    StoredFieldsKeepSmallValues(rt);
  }


  /** add, sub, and, or and nor on three registers: opcode 0, the registers
      in rs, rt, rd order, and funct 1..5 in table order. */
  lemma EncodeRArithmetic(c: Command, lbl: Option<string>, k: nat, i: nat, j: nat, m: nat)
    requires k < 5 && i < 32 && j < 32 && m < 32
    requires var text := RegisterNames[i] + "," + RegisterNames[j] + "," + RegisterNames[m];
      Spellable(lbl, RACmd[k], Some(text)) && c.line == SpellLine(lbl, RACmd[k], Some(text))
    ensures EncodeRCmd(c) == Some(c.(bits := Some(RWord(0, i, j, m, k + 1, 0))))
  {
    var ri, rj, rm := RegisterNames[i], RegisterNames[j], RegisterNames[m];
    var text := ri + "," + rj + "," + rm;
    CommandPartsOfSpelledLine(lbl, RACmd[k], Some(text));
    FunctTable();
    OpcodeTable();
    assert (RACmd + RMCmd)[k] == RACmd[k] && CommandsTable[..8][k] == CommandsTable[k];
    OpcodeAndFunctOfCommand(k);
    assert OpcodeByCommand(RACmd[k]) == Some(0) && FunctByCommand(RACmd[k]) == Some(k + 1);
    RegisterOperand(i);
    RegisterOperand(j);
    RegisterOperand(m);
    ThreeOperands(ri, rj, rm);
    FirstOperand(ri, rj + "," + rm);
    FirstOperand(rj, rm);
    RCmdOfThree(c, lbl, RACmd[k], text, rj + "," + rm, ri, rj, rm, k + 1, i, j, m);
    RWordOfSmall(0, i, j, m, k + 1);
  }

  /** move, mvhi and mvlo on two registers: opcode 1, the first register in
      rs, the second in rd, rt 0, and funct 1..3 in table order. */
  lemma EncodeRMove(c: Command, lbl: Option<string>, k: nat, i: nat, j: nat)
    requires k < 3 && i < 32 && j < 32
    requires var text := RegisterNames[i] + "," + RegisterNames[j];
      Spellable(lbl, RMCmd[k], Some(text)) && c.line == SpellLine(lbl, RMCmd[k], Some(text))
    ensures EncodeRCmd(c) == Some(c.(bits := Some(RWord(1, i, 0, j, k + 1, 0))))
  {
    var ri, rj := RegisterNames[i], RegisterNames[j];
    var text := ri + "," + rj;
    CommandPartsOfSpelledLine(lbl, RMCmd[k], Some(text));
    FunctTable();
    OpcodeTable();
    assert (RACmd + RMCmd)[k + 5] == RMCmd[k] && CommandsTable[..8][k + 5] == CommandsTable[k + 5];
    OpcodeAndFunctOfCommand(k + 5);
    assert OpcodeByCommand(RMCmd[k]) == Some(1) && FunctByCommand(RMCmd[k]) == Some(k + 1);
    RegisterOperand(i);
    RegisterOperand(j);
    FirstOperand(ri, rj);
    RCmdOfTwo(c, lbl, RMCmd[k], text, ri, rj, k + 1, i, j);
    RWordOfSmall(1, i, 0, j, k + 1);
  }

  /** A decimal literal is a plain operand that atol reads back. */
  lemma IntOperand(v: int)
    ensures PlainOperand(IntString(v))
    ensures Atol(IntString(v)) == v
  {
    var s := IntString(v);
    var d := if v < 0 then DecimalString(-v) else DecimalString(v);
    assert s[|s| - 1] == d[|d| - 1];
    if v < 0 {
      assert forall x :: 1 <= x < |s| ==> s[x] == d[x - 1];
    }
    assert forall x :: 0 <= x < |s| ==> s[x] == '-' || IsDigit(s[x]);
    AtolIntString(v);
  }

  /** The mnemonics at table positions 13..16 are exactly the branches. */
  lemma BranchPositions(k: nat)
    requires k < |CommandsTable|
    ensures FindInArray(CommandsTable[k], BranchCommands) == True <==> 13 <= k < 17
  {
    BranchCommandsAreBranchFamily(CommandsTable[k]);
    assert CommandsTable[13..17] == IBCmd;
    CommandsDistinct();
    if CommandsTable[k] in IBCmd {
      var x :| 0 <= x < 4 && IBCmd[x] == CommandsTable[k];
      assert CommandsTable[13 + x] == CommandsTable[k];
    }
  }

  /** encodeICmd after its first operand, whichever half the mnemonic picks. */
  lemma ICmdOfParts(c: Command, labels: seq<Label>, lbl: Option<string>, cmd: string, text: string,
                    a: string, tail: string, opcode: int, i: int, w: bool)
    requires CommandParts(c.line) == Some(LineParts(lbl, Some(cmd), Some(text)))
    requires OpcodeByCommand(cmd) == Some(opcode)
    requires StrSep(Some(text), {','}) == Sep(Some(a), Some(tail))
    requires RegisterOf(Some(a)) == Some(i)
    ensures var second := StrSep(Some(tail), {','});
      IEncoding(c, labels, w) ==
        if FindInArray(cmd, BranchCommands) == True then
          BranchTarget(c, opcode, i, RegisterOf(second.token), LabelAddressOf(labels, TrimOpt(second.rest)), w)
        else ValueImmediate(c, opcode, i, TrimOpt(second.token), RegisterOf(second.rest))
  {
  }

  /** The branch half once rt and the label's address are known. */
  lemma BranchTargetFound(c: Command, opcode: int, i: int, j: int, t: int, w: bool)
    ensures t == -1 ==> BranchTarget(c, opcode, i, Some(j), Some(t), w) == Some(c)
    ensures t != -1 ==>
      BranchTarget(c, opcode, i, Some(j), Some(t), w) == Some(c.(bits := Some(IWordOf(opcode, i, j, BranchImmediate(t, c.address, w)))))
  {
  }

  /** encodeICmd on a line spelled with three plain operands `a,p,m` of a
      non-branch mnemonic. */
  lemma ValueOperands(c: Command, labels: seq<Label>, lbl: Option<string>, cmd: string,
                      a: string, p: string, m: string, opcode: int, i: int, j: int, w: bool)
    requires Spellable(lbl, cmd, Some(a + "," + p + "," + m)) && c.line == SpellLine(lbl, cmd, Some(a + "," + p + "," + m))
    requires OpcodeByCommand(cmd) == Some(opcode) && FindInArray(cmd, BranchCommands) == False
    requires PlainOperand(a) && PlainOperand(p) && PlainOperand(m)
    requires RegisterOf(Some(a)) == Some(i) && RegisterOf(Some(m)) == Some(j)
    ensures IEncoding(c, labels, w) == Some(c.(bits := Some(IWordOf(opcode, i, j, Atol(p)))))
  {
    CommandPartsOfSpelledLine(lbl, cmd, Some(a + "," + p + "," + m));
    TrimNoSpaceEnds(p);
    ThreeOperands(a, p, m);
    FirstOperand(a, p + "," + m);
    FirstOperand(p, m);
    ICmdOfParts(c, labels, lbl, cmd, a + "," + p + "," + m, a, p + "," + m, opcode, i, w);
    assert TrimOpt(Some(p)) == Some(p);
  }

  /** encodeICmd on a line spelled with three plain operands `a,b,name` of a
      branch mnemonic, when the label table gives `name` the address t. */
  lemma BranchOperands(c: Command, labels: seq<Label>, lbl: Option<string>, cmd: string,
                       a: string, b: string, name: string, opcode: int, i: int, j: int, t: int, w: bool)
    requires Spellable(lbl, cmd, Some(a + "," + b + "," + name)) && c.line == SpellLine(lbl, cmd, Some(a + "," + b + "," + name))
    requires OpcodeByCommand(cmd) == Some(opcode) && FindInArray(cmd, BranchCommands) == True
    requires PlainOperand(a) && PlainOperand(b) && PlainOperand(name)
    requires RegisterOf(Some(a)) == Some(i) && RegisterOf(Some(b)) == Some(j)
    requires GetLabelAddress(labels, name) == t
    requires 0 <= opcode < 64 && 0 <= i < 32 && 0 <= j < 32
    ensures IEncoding(c, labels, w) ==
      if t == -1 then Some(c) else Some(c.(bits := Some(IWord(opcode, i, j, Signed(BranchImmediate(t, c.address, w), 16)))))
  {
    CommandPartsOfSpelledLine(lbl, cmd, Some(a + "," + b + "," + name));
    TrimNoSpaceEnds(name);
    ThreeOperands(a, b, name);
    FirstOperand(a, b + "," + name);
    FirstOperand(b, name);
    ICmdOfParts(c, labels, lbl, cmd, a + "," + b + "," + name, a, b + "," + name, opcode, i, w);
    var second := StrSep(Some(b + "," + name), {','});
    assert RegisterOf(second.token) == Some(j);
    assert LabelAddressOf(labels, TrimOpt(second.rest)) == Some(t) by {
      assert TrimOpt(second.rest) == Some(name);
    }
    assert IEncoding(c, labels, w) == BranchTarget(c, opcode, i, Some(j), Some(t), w);
    BranchTargetFound(c, opcode, i, j, t, w);
    IWordOfSmall(opcode, i, j, BranchImmediate(t, c.address, w));
  }

  /** addi .. nori and the loads and stores (table positions 8..12 and
      17..22) on `a,v,m`, where a and m spell registers i and j
      (RegisterOperand: `$0`..`$31` do) and v is a decimal literal: opcode
      from the table, rs = i, rt = j and the immediate v. */
  lemma EncodeIArithmetic(c: Command, labels: seq<Label>, lbl: Option<string>, k: nat, cmd: string,
                          a: string, v: int, m: string, i: nat, j: nat, w: bool)
    requires (8 <= k < 13 || 17 <= k < 23) && cmd == CommandsTable[k]
    requires i < 32 && j < 32 && -32768 <= v < 32768
    requires PlainOperand(a) && PlainOperand(m)
    requires RegisterOf(Some(a)) == Some(i) && RegisterOf(Some(m)) == Some(j)
    requires Spellable(lbl, cmd, Some(a + "," + IntString(v) + "," + m))
    requires c.line == SpellLine(lbl, cmd, Some(a + "," + IntString(v) + "," + m))
    ensures IEncoding(c, labels, w) == Some(c.(bits := Some(IWord(k + 2, i, j, v))))
  {
    ArithmeticMnemonic(k);
    ArithmeticOperands(c, labels, lbl, cmd, a, v, m, k + 2, i, j, w);
  }

  /** ValueOperands with the decimal spelling of a 16-bit immediate. */
  lemma ArithmeticOperands(c: Command, labels: seq<Label>, lbl: Option<string>, cmd: string,
                           a: string, v: int, m: string, opcode: int, i: int, j: int, w: bool)
    requires 0 <= opcode < 64 && 0 <= i < 32 && 0 <= j < 32 && -32768 <= v < 32768
    requires Spellable(lbl, cmd, Some(a + "," + IntString(v) + "," + m))
    requires c.line == SpellLine(lbl, cmd, Some(a + "," + IntString(v) + "," + m))
    requires OpcodeByCommand(cmd) == Some(opcode) && FindInArray(cmd, BranchCommands) == False
    requires PlainOperand(a) && PlainOperand(m)
    requires RegisterOf(Some(a)) == Some(i) && RegisterOf(Some(m)) == Some(j)
    ensures IEncoding(c, labels, w) == Some(c.(bits := Some(IWord(opcode, i, j, v))))
  {
    var p := IntString(v);
    IntOperand(v);
    ValueOperands(c, labels, lbl, cmd, a, p, m, opcode, i, j, w);
    ArithmeticWord(opcode, i, j, v);
  }

  /** addi .. nori and the loads and stores: opcode k + 2, not a branch. */
  lemma ArithmeticMnemonic(k: nat)
    requires 8 <= k < 13 || 17 <= k < 23
    ensures OpcodeByCommand(CommandsTable[k]) == Some(k + 2)
    ensures FindInArray(CommandsTable[k], BranchCommands) == False
  {
    OpcodeTable();
    OpcodeAndFunctOfCommand(k);
    BranchPositions(k);
  }

  /** An immediate that fits 16 bits is stored unchanged. */
  lemma ArithmeticWord(opcode: int, i: int, j: int, v: int)
    requires 0 <= opcode < 64 && 0 <= i < 32 && 0 <= j < 32 && -32768 <= v < 32768
    ensures IWordOf(opcode, i, j, v) == IWord(opcode, i, j, v)
  {
    IWordOfSmall(opcode, i, j, v);
    StoredFieldsKeepSmallValues(v);
  }



  /** The branch mnemonics sit at table positions 13..16 with opcodes 15..18. */
  lemma BranchMnemonic(x: nat)
    requires x < 4
    ensures OpcodeByCommand(IBCmd[x]) == Some(15 + x)
    ensures FindInArray(IBCmd[x], BranchCommands) == True
  {
    assert CommandsTable[13..17] == IBCmd;
    assert IBCmd[x] == CommandsTable[13 + x];
    OpcodeTable();
    OpcodeAndFunctOfCommand(13 + x);
    BranchPositions(13 + x);
  }

  /** bne, beq, blt and bgt on `a,b,name`, where a and b spell registers i
      and j (RegisterOperand: `$0`..`$31` do) and the label table gives
      `name` the address t: opcode 15..18, rs = i, rt = j, and t minus the
      instruction's address, wrapped to 16 bits; a missing label (t = -1)
      leaves the command as it was. */
  lemma EncodeIBranch(c: Command, labels: seq<Label>, lbl: Option<string>, x: nat, cmd: string,
                      a: string, b: string, name: string, i: nat, j: nat, t: int, w: bool)
    requires x < 4 && cmd == IBCmd[x] && i < 32 && j < 32
    requires PlainOperand(a) && PlainOperand(b) && PlainOperand(name)
    requires RegisterOf(Some(a)) == Some(i) && RegisterOf(Some(b)) == Some(j)
    requires Spellable(lbl, cmd, Some(a + "," + b + "," + name))
    requires c.line == SpellLine(lbl, cmd, Some(a + "," + b + "," + name))
    requires GetLabelAddress(labels, name) == t
    ensures IEncoding(c, labels, w) ==
      if t == -1 then Some(c) else Some(c.(bits := Some(IWord(15 + x, i, j, Signed(BranchImmediate(t, c.address, w), 16)))))
  {
    BranchMnemonic(x);
    BranchOperands(c, labels, lbl, cmd, a, b, name, 15 + x, i, j, t, w);
  }

  /** beq $1,$2,L at address 104 with L at 100: as written the immediate is
      -4, corrected it is the distance 4. */
  lemma BackwardBranch(c: Command, labels: seq<Label>)
    requires c.line == "beq $1,$2,L" && c.address == 104
    requires labels == [Label("L", 100, Attributes(true, false, false, false), [])]
    ensures EncodeICmd(c, labels) == Some(c.(bits := Some(IWord(16, 1, 2, -4))))
    ensures EncodeICmdCorrected(c, labels) == Some(c.(bits := Some(IWord(16, 1, 2, 4))))
  {
    BeqSpelling();
    BeqRegisterNames();
    NamedRegister(1, "$1");
    NamedRegister(2, "$2");
    assert GetLabelAddress(labels, "L") == 100;
    EncodeIBranch(c, labels, None, 1, "beq", "$1", "$2", "L", 1, 2, 100, true);
    EncodeIBranch(c, labels, None, 1, "beq", "$1", "$2", "L", 1, 2, 100, false);
    StoredFieldsKeepSmallValues(-4);
    StoredFieldsKeepSmallValues(4);
  }

  /** `beq $1,$2,L` is the spelling of beq with operands `$1`, `$2`, `L`. */
  lemma BeqSpelling()
    ensures IBCmd[1] == "beq"
    ensures Spellable(None, "beq", Some("$1" + "," + "$2" + "," + "L"))
    ensures "beq $1,$2,L" == SpellLine(None, "beq", Some("$1" + "," + "$2" + "," + "L"))
    ensures PlainOperand("L")
  {
  }

  /** `$1` and `$2` are the names of registers 1 and 2. */
  lemma BeqRegisterNames()
    ensures RegisterNames[1] == "$1" && RegisterNames[2] == "$2"
  {
  }

  /** A register's name, as an operand, selects that register. */
  lemma NamedRegister(i: nat, name: string)
    requires i < 32 && name == RegisterNames[i]
    ensures PlainOperand(name) && RegisterOf(Some(name)) == Some(i)
  {
    RegisterOperand(i);
  }



  /** encodeJCmd once the line is known to have a mnemonic other than stop
      and the operand text p, which the label table maps to t. */
  lemma JCmdOfOperand(c: Command, labels: seq<Label>, lbl: Option<string>, cmd: string, p: string,
                      opcode: int, t: int)
    requires CommandParts(c.line) == Some(LineParts(lbl, Some(cmd), Some(p)))
    requires OpcodeByCommand(cmd) == Some(opcode) && cmd != "stop"
    requires PlainOperand(p) && GetLabelAddress(labels, p) == t
    ensures EncodeJCmd(c, labels) ==
      if IsParamRegister(p) == True then Some(c.(bits := Some(JWordOf(opcode, 1, RegisterIndex(p).value))))
      else if t == -1 then Some(c)
      else Some(c.(bits := Some(JWordOf(opcode, 0, t))))
  {
    TrimNoSpaceEnds(p);
    assert EncodeJCmd(c, labels) == JBits(c, labels, opcode, false, Some(p));
  }

  /** jmp, la and call sit at table positions 23..25 with opcodes 30..32. */
  lemma JumpMnemonic(k: nat, cmd: string)
    requires 23 <= k < 26 && cmd == CommandsTable[k]
    ensures OpcodeByCommand(cmd) == Some(k + 7) && cmd != "stop"
  {
    assert cmd != "stop" by {
      JumpEntries(k);
    }
    assert Opcodes[k] == k + 7 by {
      JumpEntries(k);
    }
    OpcodeOfCommand(k);
  }

  /** The three jump mnemonics by name. */
  lemma JumpOpcodes()
    ensures OpcodeByCommand("jmp") == Some(30) && OpcodeByCommand("la") == Some(31)
    ensures OpcodeByCommand("call") == Some(32)
  {
    JumpMnemonic(23, "jmp");
    JumpMnemonic(24, "la");
    JumpMnemonic(25, "call");
  }

  /** stop, with or without operand text: opcode 63, reg 0, address 0. */
  lemma EncodeJStop(c: Command, labels: seq<Label>, lbl: Option<string>, params: Option<string>)
    requires Spellable(lbl, "stop", params) && c.line == SpellLine(lbl, "stop", params)
    ensures EncodeJCmd(c, labels) == Some(c.(bits := Some(JWord(63, 0, 0))))
  {
    CommandPartsOfSpelledLine(lbl, "stop", params);
    OpcodeTable();
    OpcodeAndFunctOfCommand(26);
    StoredFieldsKeepSmallValues(63);
    StoredFieldsKeepSmallValues(0);
  }

  /** jmp, la or call on a register $1..$31: reg 1 and the register's number
      as the address, under the mnemonic's own opcode (30, 31, 32). */
  lemma EncodeJmpRegister(c: Command, labels: seq<Label>, lbl: Option<string>, i: nat)
    requires 1 <= i < 32
    requires Spellable(lbl, "jmp", Some(RegisterNames[i]))
    requires c.line == SpellLine(lbl, "jmp", Some(RegisterNames[i]))
    ensures EncodeJCmd(c, labels) == Some(c.(bits := Some(JWord(30, 1, i))))
  {
    JumpOpcodes();
    JumpRegister(c, labels, lbl, "jmp", 30, i, RegisterNames[i]);
  }

  lemma EncodeLaRegister(c: Command, labels: seq<Label>, lbl: Option<string>, i: nat)
    requires 1 <= i < 32
    requires Spellable(lbl, "la", Some(RegisterNames[i]))
    requires c.line == SpellLine(lbl, "la", Some(RegisterNames[i]))
    ensures EncodeJCmd(c, labels) == Some(c.(bits := Some(JWord(31, 1, i))))
  {
    JumpOpcodes();
    JumpRegister(c, labels, lbl, "la", 31, i, RegisterNames[i]);
  }

  lemma EncodeCallRegister(c: Command, labels: seq<Label>, lbl: Option<string>, i: nat)
    requires 1 <= i < 32
    requires Spellable(lbl, "call", Some(RegisterNames[i]))
    requires c.line == SpellLine(lbl, "call", Some(RegisterNames[i]))
    ensures EncodeJCmd(c, labels) == Some(c.(bits := Some(JWord(32, 1, i))))
  {
    JumpOpcodes();
    JumpRegister(c, labels, lbl, "call", 32, i, RegisterNames[i]);
  }

  /** A jump mnemonic with opcode `opcode` on register `name` = $i. */
  lemma JumpRegister(c: Command, labels: seq<Label>, lbl: Option<string>, cmd: string, opcode: int,
                     i: nat, name: string)
    requires OpcodeByCommand(cmd) == Some(opcode) && cmd != "stop" && 0 <= opcode < 64
    requires 1 <= i < 32 && name == RegisterNames[i]
    requires Spellable(lbl, cmd, Some(name)) && c.line == SpellLine(lbl, cmd, Some(name))
    ensures EncodeJCmd(c, labels) == Some(c.(bits := Some(JWord(opcode, 1, i))))
  {
    NamedRegister(i, name);
    RegisterIndexOfName(i);
    JumpOperand(c, labels, lbl, cmd, name, opcode, GetLabelAddress(labels, name));
    JWordOfSmall(opcode, 1, i);
  }

  /** JCmdOfOperand on a line spelled from a jump mnemonic and one operand. */
  lemma JumpOperand(c: Command, labels: seq<Label>, lbl: Option<string>, cmd: string, p: string,
                    opcode: int, t: int)
    requires Spellable(lbl, cmd, Some(p)) && c.line == SpellLine(lbl, cmd, Some(p))
    requires OpcodeByCommand(cmd) == Some(opcode) && cmd != "stop"
    requires PlainOperand(p) && GetLabelAddress(labels, p) == t
    ensures EncodeJCmd(c, labels) ==
      if IsParamRegister(p) == True then Some(c.(bits := Some(JWordOf(opcode, 1, RegisterIndex(p).value))))
      else if t == -1 then Some(c)
      else Some(c.(bits := Some(JWordOf(opcode, 0, t))))
  {
    CommandPartsOfSpelledLine(lbl, cmd, Some(p));
    JCmdOfOperand(c, labels, lbl, cmd, p, opcode, t);
  }

  /** A jump mnemonic (any with an opcode but stop: jmp, la, call) on an
      operand that is not a register $1..$31 (a label, or $0): it is looked
      up in the label table; a missing label leaves the command as it was,
      otherwise reg 0 and the label's address in 25 bits. */
  lemma EncodeJLabel(c: Command, labels: seq<Label>, lbl: Option<string>, cmd: string, name: string,
                         opcode: int, t: int)
    requires Spellable(lbl, cmd, Some(name)) && c.line == SpellLine(lbl, cmd, Some(name))
    requires OpcodeByCommand(cmd) == Some(opcode) && cmd != "stop" && 0 <= opcode < 64
    requires PlainOperand(name) && IsParamRegister(name) == False && GetLabelAddress(labels, name) == t
    ensures EncodeJCmd(c, labels) ==
      if t == -1 then Some(c) else Some(c.(bits := Some(JWord(opcode, 0, Unsigned(t, 25)))))
  {
    JumpOperand(c, labels, lbl, cmd, name, opcode, t);
    JWordOfAddress(opcode, t);
  }

  /** A label jump stores the opcode unchanged and the address cut to 25 bits. */
  lemma JWordOfAddress(opcode: int, t: int)
    requires 0 <= opcode < 64
    ensures JWordOf(opcode, 0, t) == JWord(opcode, 0, Unsigned(t, 25))
  {
    StoredFieldsKeepSmallValues(opcode);
    StoredFieldsKeepSmallValues(0);
  }

  /** Fields already inside their widths are stored unchanged. */
  lemma JWordOfSmall(opcode: int, reg: int, address: int)
    requires 0 <= opcode < 64 && 0 <= reg < 2 && 0 <= address < 0x200_0000
    ensures JWordOf(opcode, reg, address) == JWord(opcode, reg, address)
  {
    StoredFieldsKeepSmallValues(opcode);
    StoredFieldsKeepSmallValues(reg);
    StoredFieldsKeepSmallValues(address);
  }



  /** `jmp $0` does not name a register: $0 is looked up as a label. */
  lemma JumpToRegisterZero(c: Command, labels: seq<Label>, lbl: Option<string>, t: int)
    requires Spellable(lbl, "jmp", Some("$0")) && c.line == SpellLine(lbl, "jmp", Some("$0"))
    requires GetLabelAddress(labels, "$0") == t
    ensures EncodeJCmd(c, labels) ==
      if t == -1 then Some(c) else Some(c.(bits := Some(JWord(30, 0, Unsigned(t, 25)))))
  {
    RegisterZeroOperand();
    JumpEntry();
    JumpMnemonic(23, "jmp");
    EncodeJLabel(c, labels, lbl, "jmp", "$0", 30, t);
  }

  /** `$0` is a plain operand that does not count as a register. */
  lemma RegisterZeroOperand()
    ensures PlainOperand("$0") && IsParamRegister("$0") == False
  {
    RegisterZeroPlain();
    RegisterZeroNotRegister();
  }

  lemma RegisterZeroPlain()
    ensures PlainOperand("$0")
  {
  }

  lemma RegisterZeroNotRegister()
    ensures IsParamRegister("$0") == False
  {
    RegisterIndexOfName(0);
    assert RegisterNames[0] == "$0";
  }

  lemma JumpEntry()
    ensures CommandsTable[23] == "jmp"
  {
  }
}
