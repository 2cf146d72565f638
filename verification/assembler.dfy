/** The driver of one source file (assembler.c): the chunks getLine hands
    out, the two scans of pass1, validateFile, pass2, updateDataPictureAddress
    and main's gate that encodes a file only when no error was recorded.
    The file is given as its text; opening, rewinding and closing it, the
    output files and the error printout are not part of this module. */
module Assembler {
  import opened CLib
  import opened Constants
  import opened Datatypes
  import opened ParserInput
  import opened Validation
  import opened Encoding

  /** MAX_LINE_LENGTH, and the buffer getLine fills holds one more. */
  const MaxLineLength: int := 80
  /** The first instruction address (main's initial IC). */
  const CodeStart: int := 100

  /** The length of the next getLine chunk: up to and including the first
      line break, at most MaxLineLength characters, and what is left at the
      end of the text. */
  function ChunkLength(text: string): (k: nat)
    requires |text| > 0
    ensures 1 <= k <= |text| && k <= MaxLineLength
    ensures forall i :: 0 <= i < k - 1 ==> text[i] != '\n'
    ensures k < |text| ==> k == MaxLineLength || text[k - 1] == '\n'
  {
    if text[0] == '\n' || |text| == 1 then 1 else ChunkFrom(text, 1)
  }

  /** The chunk length once the first `i` characters are known to be no line break. */
  function ChunkFrom(text: string, i: nat): (k: nat)
    requires 1 <= i < |text| && i < MaxLineLength
    requires forall j :: 0 <= j < i ==> text[j] != '\n'
    ensures i < k <= |text| && k <= MaxLineLength
    ensures forall j :: 0 <= j < k - 1 ==> text[j] != '\n'
    ensures k < |text| ==> k == MaxLineLength || text[k - 1] == '\n'
    decreases MaxLineLength - i
  {
    if text[i] == '\n' || i + 1 == |text| || i + 1 == MaxLineLength then i + 1
    else ChunkFrom(text, i + 1)
  }

  /** The successive getLine results of a file's text. */
  function Chunks(text: string): (r: seq<string>)
    ensures forall k :: 0 <= k < |r| ==> 1 <= |r[k]| <= MaxLineLength
    decreases |text|
  {
    if |text| == 0 then []
    else
      var k := ChunkLength(text);
      [text[..k]] + Chunks(text[k..])
  }

  /** The chunks put back together are the text. */
  function Concat(chunks: seq<string>): string {
    if |chunks| == 0 then [] else chunks[0] + Concat(chunks[1..])
  }

  lemma {:induction false} ChunksCoverText(text: string)
    ensures Concat(Chunks(text)) == text
    decreases |text|
  {
    if |text| > 0 {
      var k := ChunkLength(text);
      ChunksCoverText(text[k..]);
      assert text == text[..k] + text[k..];
    }
  }

  /** getLine returns one more than the characters it stored, so a chunk
      counts as over the limit exactly when it filled the whole buffer. */
  predicate Overlong(chunk: string) {
    |chunk| + 1 > MaxLineLength
  }

  /** Both scans and validateFile drop the chunk after an overlong one
      (the rest of that line, read once more and ignored). */
  function Next(chunks: seq<string>): (r: seq<string>)
    requires |chunks| > 0
    ensures |r| < |chunks|
  {
    if Overlong(chunks[0]) && |chunks| >= 2 then chunks[2..] else chunks[1..]
  }

  /** The chunks a scan looks at, each with the line number the scan gives
      it: counting starts after `n`, and every chunk looked at counts one. */
  function Numbered(chunks: seq<string>, n: int): (r: seq<(int, string)>)
    ensures |r| <= |chunks|
    ensures forall j :: 0 <= j < |r| ==> r[j].0 == n + 1 + j
    decreases |chunks|
  {
    if |chunks| == 0 then [] else [(n + 1, chunks[0])] + Numbered(Next(chunks), n + 1)
  }

  const LengthMessage: string := "line length is over than 80. \n"

  /** What the first scan carries from chunk to chunk. */
  datatype Scan = Scan(labels: seq<Label>, commands: seq<Command>, picture: seq<DataItem>,
                       ic: int, dc: int, errors: seq<Error>, lineNumber: int)

  const NoAttributes: Attributes := Attributes(false, false, false, false)

  /** initNewCommand: the line at the given address, its format read off the
      mnemonic, no bits yet. None where the source is undefined (no parts or
      no mnemonic). */
  function InitNewCommand(line: string, address: int): (r: Option<Command>)
    ensures r.Some? <==> CommandParts(line).Some? && CommandParts(line).value.cmdName.Some?
    ensures r.Some? ==> (r.value.address == address && r.value.line == line && r.value.bits.None?
      && r.value.cmdType == CmdTypeByCommandName(CommandParts(line).value.cmdName.value))
  {
    match CommandParts(line)
    case None => None
    case Some(parts) =>
      if parts.cmdName.None? then None
      else Some(Command(address, None, CmdTypeByCommandName(parts.cmdName.value), line))
  }

  /** The label a directive or instruction line defines: at DC marked as
      data, or at IC marked as code. */
  function DefinedLabel(name: string, kind: LineType, s: Scan): Label {
    if kind == OrderLine then Label(name, s.dc, NoAttributes.(isData := true), [])
    else Label(name, s.ic, NoAttributes.(isCode := true), [])
  }

  /** One chunk of the first scan that is not over the limit. Blank, comment
      and invalid lines only count. A directive or instruction line first
      defines its label, if any; then .entry and .extern stop, .asciz and
      the other directives allocate data at DC, and an instruction records
      a pending command at IC and moves IC on by 4. */
  function ScanLine(s: Scan, line: string): (r: Option<Scan>)
    ensures r.Some? ==> r.value.lineNumber == s.lineNumber + 1 && r.value.errors == s.errors
    ensures r.Some? ==> r.value.dc >= s.dc
  {
    var n := s.(lineNumber := s.lineNumber + 1);
    var kind := GetLineType(line);
    if kind != OrderLine && kind != CmdLine then Some(n)
    else
      match CommandParts(line)
      case None => None
      case Some(parts) =>
        var t := WithLabel(n, parts.labelName, kind);
        if kind == OrderLine then
          match parts.cmdName
          case None => None
          case Some(cmd) => ScanOrder(t, line, cmd)
        else ScanCommand(t, line)
  }

  /** An instruction line adds one pending command at IC and moves IC on by
      4; no other line touches the commands or IC. */
  lemma ScanLineCommands(s: Scan, line: string)
    requires ScanLine(s, line).Some?
    ensures var r := ScanLine(s, line).value;
      if GetLineType(line) == CmdLine then
        && |r.commands| == |s.commands| + 1
        && r.commands[..|s.commands|] == s.commands
        && r.commands[|s.commands|].address == s.ic
        && r.commands[|s.commands|].line == line
        && r.commands[|s.commands|].bits.None?
        && r.ic == s.ic + 4
      else r.commands == s.commands && r.ic == s.ic
  {
  }

  /** A directive or instruction line with a label adds it at the end of
      the table: at DC marked as data, or at IC marked as code. */
  lemma ScanLineLabels(s: Scan, line: string)
    requires ScanLine(s, line).Some?
    ensures var r := ScanLine(s, line).value;
      var kind := GetLineType(line);
      if (kind == OrderLine || kind == CmdLine) && CommandParts(line).value.labelName.Some? then
        && |r.labels| == |s.labels| + 1
        && r.labels[..|s.labels|] == s.labels
        && r.labels[|s.labels|].symbol == CommandParts(line).value.labelName.value
        && r.labels[|s.labels|].value == (if kind == OrderLine then s.dc else s.ic)
        && r.labels[|s.labels|].attr == Attributes(kind == CmdLine, kind == OrderLine, false, false)
        && r.labels[|s.labels|].appearances == []
      else r.labels == s.labels
  {
  }

  /** The data image only grows. */
  lemma ScanLinePicture(s: Scan, line: string)
    requires ScanLine(s, line).Some?
    ensures var r := ScanLine(s, line).value;
      |r.picture| >= |s.picture| && r.picture[..|s.picture|] == s.picture
  {
  }

  /** Only a directive other than .extern and .entry allocates data. */
  lemma ScanLineKeepsData(s: Scan, line: string)
    requires ScanLine(s, line).Some?
    requires GetLineType(line) != OrderLine || CommandParts(line).value.cmdName.value in {".extern", ".entry"}
    ensures ScanLine(s, line).value.picture == s.picture && ScanLine(s, line).value.dc == s.dc
  {
  }

  /** The label step of a directive or instruction line. */
  function WithLabel(n: Scan, name: Option<string>, kind: LineType): (t: Scan)
    ensures t == n.(labels := t.labels)
    ensures name.None? ==> t.labels == n.labels
    ensures name.Some? ==> t.labels == n.labels + [DefinedLabel(name.value, kind, n)]
  {
    if name.Some? then n.(labels := n.labels + [DefinedLabel(name.value, kind, n)]) else n
  }

  /** The data step of a directive line: .entry and .extern allocate
      nothing, .asciz and the others append their items at DC. */
  function ScanOrder(t: Scan, line: string, cmd: string): (r: Option<Scan>)
    ensures r.Some? ==> r.value == t.(picture := r.value.picture, dc := r.value.dc)
    ensures r.Some? ==> |r.value.picture| >= |t.picture| && r.value.picture[..|t.picture|] == t.picture
    ensures r.Some? ==> r.value.dc >= t.dc
    ensures cmd in {".extern", ".entry"} ==> r == Some(t)
  {
    if cmd == ".extern" || cmd == ".entry" then Some(t)
    else
      var encoded := if cmd == ".asciz" then EncodeAscizOrder(t.picture, line, t.dc) else EncodeOrder(t.picture, line, t.dc);
      match encoded
      case None => None
      case Some(data) => Some(t.(picture := data.0, dc := data.1))
  }

  /** The command step of an instruction line: a pending command at IC. */
  function ScanCommand(t: Scan, line: string): (r: Option<Scan>)
    ensures r.Some? ==> r.value == t.(commands := r.value.commands, ic := t.ic + 4)
    ensures r.Some? ==>
      && |r.value.commands| == |t.commands| + 1
      && r.value.commands[..|t.commands|] == t.commands
      && r.value.commands[|t.commands|].address == t.ic
      && r.value.commands[|t.commands|].line == line
      && r.value.commands[|t.commands|].bits.None?
  {
    match InitNewCommand(line, t.ic)
    case None => None
    case Some(c) => Some(t.(commands := t.commands + [c], ic := t.ic + 4))
  }

  /** One chunk of the first scan: an overlong chunk is counted and
      reported, every other chunk goes to ScanLine. */
  function FirstStep(s: Scan, chunk: string): (r: Option<Scan>)
    ensures r.Some? ==> r.value.lineNumber == s.lineNumber + 1 && r.value.dc >= s.dc
    ensures r.Some? ==> r.value.errors == s.errors + (if Overlong(chunk) then [Error(s.lineNumber + 1, LengthMessage)] else [])
  {
    if Overlong(chunk) then
      Some(s.(errors := s.errors + [Error(s.lineNumber + 1, LengthMessage)], lineNumber := s.lineNumber + 1))
    else ScanLine(s, chunk)
  }

  /** The first scan of pass1: an overlong chunk is skipped with the chunk
      after it. */
  function FirstScan(s: Scan, chunks: seq<string>): (r: Option<Scan>)
    ensures r.Some? ==> r.value.dc >= s.dc
    ensures r.Some? ==> r.value.errors == s.errors + LengthErrors(chunks, s.lineNumber)
    ensures r.Some? && DataLayout(s.picture, s.dc) ==> DataLayout(r.value.picture, r.value.dc)
    decreases |chunks|
  {
    if |chunks| == 0 then Some(s)
    else
      match FirstStep(s, chunks[0])
      case None => None
      case Some(t) =>
        FirstStepData(s, chunks[0]);
        LengthErrorsUnfolds(chunks, s.lineNumber);
        var r := FirstScan(t, Next(chunks));
        if r.Some? then
          AppendInTwoSteps(s.errors, if Overlong(chunks[0]) then [Error(s.lineNumber + 1, LengthMessage)] else [],
                           LengthErrors(Next(chunks), s.lineNumber + 1), t.errors, r.value.errors);
          r
        else r
  }

  /** Instructions sit 4 bytes apart from CodeStart and IC is the next free
      address. */
  predicate CodeLayout(commands: seq<Command>, ic: int) {
    && ic == CodeStart + 4 * |commands|
    && forall k :: 0 <= k < |commands| ==> commands[k].address == CodeStart + 4 * k && commands[k].bits.None?
  }

  /** One chunk keeps the instructions laid out from CodeStart. */
  lemma FirstStepLayout(s: Scan, chunk: string)
    requires CodeLayout(s.commands, s.ic)
    requires FirstStep(s, chunk).Some?
    ensures CodeLayout(FirstStep(s, chunk).value.commands, FirstStep(s, chunk).value.ic)
  {
    if !Overlong(chunk) {
      var t := ScanLine(s, chunk).value;
      ScanLineCommands(s, chunk);
      if GetLineType(chunk) == CmdLine {
        LayoutGrows(s.commands, t.commands, s.ic);
      }
    }
  }

  /** A pending command appended at IC keeps the layout, with IC 4 further. */
  lemma LayoutGrows(a: seq<Command>, b: seq<Command>, ic: int)
    requires CodeLayout(a, ic)
    requires |b| == |a| + 1 && b[..|a|] == a && b[|a|].address == ic && b[|a|].bits.None?
    ensures CodeLayout(b, ic + 4)
  {
    forall k | 0 <= k < |b|
      ensures b[k].address == CodeStart + 4 * k && b[k].bits.None?
    {
      if k < |a| {
        assert b[k] == b[..|a|][k];
      }
    }
  }

  lemma {:induction false} FirstScanLayout(s: Scan, chunks: seq<string>)
    requires CodeLayout(s.commands, s.ic)
    requires FirstScan(s, chunks).Some?
    ensures CodeLayout(FirstScan(s, chunks).value.commands, FirstScan(s, chunks).value.ic)
    decreases |chunks|
  {
    if |chunks| > 0 {
      FirstStepLayout(s, chunks[0]);
      FirstScanLayout(FirstStep(s, chunks[0]).value, Next(chunks));
    }
  }

  /** The data image is packed from address 0 and DC is the next free
      address: every item sits at the sum of the sizes of the items before
      it, and DC is the sum of them all. */
  predicate DataLayout(picture: seq<DataItem>, dc: int) {
    Packed(picture, 0, dc)
  }

  /** Appending a packed run that starts at DC keeps the layout. */
  lemma DataLayoutGrows(picture: seq<DataItem>, dc: int, full: seq<DataItem>, end: int)
    requires DataLayout(picture, dc)
    requires |full| >= |picture| && full[..|picture|] == picture && Packed(full[|picture|..], dc, end)
    ensures DataLayout(full, end)
  {
    assert full == picture + full[|picture|..];
    PackedAppend(picture, full[|picture|..], 0, dc, end);
  }

  /** The data step of a directive line keeps the layout. */
  lemma ScanOrderData(t: Scan, line: string, cmd: string)
    requires DataLayout(t.picture, t.dc)
    requires ScanOrder(t, line, cmd).Some?
    ensures DataLayout(ScanOrder(t, line, cmd).value.picture, ScanOrder(t, line, cmd).value.dc)
  {
    if cmd != ".extern" && cmd != ".entry" {
      if cmd == ".asciz" {
        var data := EncodeAscizOrder(t.picture, line, t.dc).value;
        EncodeAscizPacked(t.picture, line, t.dc);
        DataLayoutGrows(t.picture, t.dc, data.0, data.1);
      } else {
        var data := EncodeOrder(t.picture, line, t.dc).value;
        EncodeOrderPacked(t.picture, line, t.dc);
        DataLayoutGrows(t.picture, t.dc, data.0, data.1);
      }
    }
  }

  /** One line keeps the data packed from 0 with DC past the last item. */
  lemma ScanLineData(s: Scan, line: string)
    requires DataLayout(s.picture, s.dc)
    requires ScanLine(s, line).Some?
    ensures DataLayout(ScanLine(s, line).value.picture, ScanLine(s, line).value.dc)
  {
    if GetLineType(line) == OrderLine {
      var parts := CommandParts(line).value;
      ScanLineOfOrder(s, line);
      ScanOrderData(WithLabel(s.(lineNumber := s.lineNumber + 1), parts.labelName, OrderLine), line, parts.cmdName.value);
    } else {
      ScanLineKeepsData(s, line);
    }
  }

  /** One chunk keeps the data packed from 0 with DC past the last item. */
  lemma FirstStepData(s: Scan, chunk: string)
    ensures FirstStep(s, chunk).Some? && DataLayout(s.picture, s.dc) ==>
      DataLayout(FirstStep(s, chunk).value.picture, FirstStep(s, chunk).value.dc)
  {
    if FirstStep(s, chunk).Some? && DataLayout(s.picture, s.dc) && !Overlong(chunk) {
      ScanLineData(s, chunk);
    }
  }

  /** One chunk adds a length error exactly when it is overlong. */
  lemma FirstStepErrors(s: Scan, chunk: string)
    requires FirstStep(s, chunk).Some?
    ensures FirstStep(s, chunk).value.errors ==
      s.errors + (if Overlong(chunk) then [Error(s.lineNumber + 1, LengthMessage)] else [])
  {
  }

  /** An error the first scan records for a numbered chunk. */
  predicate LengthError(entry: (int, string), e: Error) {
    Overlong(entry.1) && e == Error(entry.0, LengthMessage)
  }

  /** `added` holds exactly the length errors of the numbered chunks `nl`:
      each error belongs to an overlong chunk, and each overlong chunk has
      its error. */
  predicate LengthErrorsOf(added: seq<Error>, nl: seq<(int, string)>) {
    && (forall e :: e in added ==> exists j :: 0 <= j < |nl| && LengthError(nl[j], e))
    && (forall j :: 0 <= j < |nl| && Overlong(nl[j].1) ==> Error(nl[j].0, LengthMessage) in added)
  }

  /** The length errors of the chunks, in order: one for each overlong
      chunk, numbered as the scan counts lines. */
  function LengthErrors(chunks: seq<string>, n: int): (r: seq<Error>)
    decreases |chunks|
  {
    if |chunks| == 0 then []
    else (if Overlong(chunks[0]) then [Error(n + 1, LengthMessage)] else []) + LengthErrors(Next(chunks), n + 1)
  }

  /** LengthErrors holds exactly the errors of the overlong numbered chunks. */
  lemma {:induction false} LengthErrorsExact(chunks: seq<string>, n: int)
    ensures LengthErrorsOf(LengthErrors(chunks, n), Numbered(chunks, n))
    decreases |chunks|
  {
    if |chunks| > 0 {
      LengthErrorsExact(Next(chunks), n + 1);
      var nl := Numbered(chunks, n);
      assert nl == [(n + 1, chunks[0])] + Numbered(Next(chunks), n + 1);
      LengthErrorsStep(nl, Numbered(Next(chunks), n + 1),
        if Overlong(chunks[0]) then [Error(n + 1, LengthMessage)] else [], LengthErrors(Next(chunks), n + 1));
    }
  }

  /** The first scan appends the length errors of its chunks to the errors
      it started with, and no others. */
  lemma FirstScanAppendsErrors(s: Scan, chunks: seq<string>)
    requires FirstScan(s, chunks).Some?
    ensures FirstScan(s, chunks).value.errors == s.errors + LengthErrors(chunks, s.lineNumber)
  {
  }

  /** The length errors of the chunks: the first chunk's, then the rest's. */
  lemma LengthErrorsUnfolds(chunks: seq<string>, n: int)
    requires |chunks| > 0
    ensures LengthErrors(chunks, n) ==
      (if Overlong(chunks[0]) then [Error(n + 1, LengthMessage)] else []) + LengthErrors(Next(chunks), n + 1)
  {
  }

  /** Appending h and then l appends h + l. */
  lemma AppendInTwoSteps<T>(a: seq<T>, h: seq<T>, l: seq<T>, mid: seq<T>, r: seq<T>)
    requires mid == a + h && r == mid + l
    ensures r == a + (h + l)
  {
  }

  /** The first scan keeps the errors it started with and adds exactly one
      length error per overlong chunk, numbered as the scan counts lines. */
  lemma FirstScanErrors(s: Scan, chunks: seq<string>)
    requires FirstScan(s, chunks).Some?
    ensures var r := FirstScan(s, chunks).value;
      && |r.errors| >= |s.errors|
      && r.errors[..|s.errors|] == s.errors
      && LengthErrorsOf(r.errors[|s.errors|..], Numbered(chunks, s.lineNumber))
  {
    FirstScanAppendsErrors(s, chunks);
    LengthErrorsExact(chunks, s.lineNumber);
    var r := FirstScan(s, chunks).value;
    assert r.errors[|s.errors|..] == LengthErrors(chunks, s.lineNumber);
  }

  /** Prepending the first chunk's error, if any, to the errors of the
      remaining chunks gives the errors of all of them. */
  lemma LengthErrorsStep(nl: seq<(int, string)>, tail: seq<(int, string)>, head: seq<Error>, later: seq<Error>)
    requires |nl| > 0 && nl == [nl[0]] + tail
    requires head == if Overlong(nl[0].1) then [Error(nl[0].0, LengthMessage)] else []
    requires LengthErrorsOf(later, tail)
    ensures LengthErrorsOf(head + later, nl)
  {
    forall e | e in head + later
      ensures exists j :: 0 <= j < |nl| && LengthError(nl[j], e)
    {
      if e in later {
        var j :| 0 <= j < |tail| && LengthError(tail[j], e);
        assert nl[j + 1] == tail[j];
      } else {
        assert LengthError(nl[0], e);
      }
    }
    forall j | 0 <= j < |nl| && Overlong(nl[j].1)
      ensures Error(nl[j].0, LengthMessage) in head + later
    {
      if j == 0 {
        assert (head + later)[0] == Error(nl[0].0, LengthMessage);
      } else {
        assert nl[j] == tail[j - 1];
      }
    }
  }

  /** What the second scan carries from chunk to chunk. */
  datatype Marks = Marks(labels: seq<Label>, errors: seq<Error>, lineNumber: int)

  /** The message the second scan formats into its 100-byte buffer. */
  function ExternMessage(name: string): string {
    "The label: " + name + ", label that exist this file could not be external! \n"
  }

  /** A directive line of the second scan, counted. .extern of a name
      already in the table records an error under the current (0-based)
      count; any other .extern adds an external label at 0; .entry marks the
      first label of that name; other directives and instructions change
      nothing else. None where the source is undefined: a missing .extern
      operand (strcmp or strlen on NULL), a missing .entry operand once the
      table holds a label (strcmp on NULL) and a message that overruns its
      100-byte buffer. A .entry without operand on an empty table only
      counts the line: markLabelAsEntry walks no label. */
  function MarkOrder(m: Marks, cmd: string, params: Option<string>): (r: Option<Marks>)
    ensures r.Some? ==> r.value.lineNumber == m.lineNumber + 1
    ensures r.Some? ==> |r.value.errors| >= |m.errors| && r.value.errors[..|m.errors|] == m.errors
    ensures r.Some? && cmd == ".extern" ==> params.Some?
    ensures r.Some? && cmd == ".entry" && params.None? ==> |m.labels| == 0 && r.value == m.(lineNumber := m.lineNumber + 1)
    ensures r.Some? && cmd == ".extern" ==>
      var name := params.value;
      if exists j :: 0 <= j < |m.labels| && m.labels[j].symbol == name then
        r.value.labels == m.labels && r.value.errors == m.errors + [Error(m.lineNumber, ExternMessage(name))]
      else
        r.value.errors == m.errors && r.value.labels == m.labels + [Label(name, 0, NoAttributes.(isExternal := true), [])]
    ensures r.Some? && cmd == ".entry" && params.Some? ==>
      r.value.errors == m.errors && r.value.labels == MarkLabelAsEntry(m.labels, params.value)
    ensures cmd != ".extern" && cmd != ".entry" ==> r == Some(m.(lineNumber := m.lineNumber + 1))
    ensures cmd in {".extern", ".entry"} ==>
      (r.None? <==> ((params.None? && (cmd == ".extern" || |m.labels| > 0))
                     || (params.Some? && cmd == ".extern" && IsLabelExists(m.labels, params.value) == True
                         && |ExternMessage(params.value)| + 1 > 100)))
  {
    var next := m.lineNumber + 1;
    if cmd == ".extern" then
      match params
      case None => None
      case Some(name) =>
        if IsLabelExists(m.labels, name) == True then
          var message := ExternMessage(name);
          if |message| + 1 > 100 then None
          else Some(Marks(m.labels, m.errors + [Error(m.lineNumber, message)], next))
        else Some(Marks(m.labels + [Label(name, 0, NoAttributes.(isExternal := true), [])], m.errors, next))
    else if cmd == ".entry" then
      match params
      case None => if |m.labels| == 0 then Some(m.(lineNumber := next)) else None
      case Some(name) => Some(m.(labels := MarkLabelAsEntry(m.labels, name), lineNumber := next))
    else Some(m.(lineNumber := next))
  }

  /** b is a after marks of the second scan: the labels of a keep their
      names, values, use sites and every mark but isEntry, and each label
      added after them is external. */
  predicate MarksOnly(a: seq<Label>, b: seq<Label>) {
    && |a| <= |b|
    && (forall j :: 0 <= j < |a| ==> b[j] == a[j].(attr := a[j].attr.(isEntry := b[j].attr.isEntry)))
    && (forall j :: |a| <= j < |b| ==> b[j].attr.isExternal)
  }

  lemma MarksOnlyTrans(a: seq<Label>, b: seq<Label>, c: seq<Label>)
    requires MarksOnly(a, b) && MarksOnly(b, c)
    ensures MarksOnly(a, c)
  {
    forall j | 0 <= j < |a|
      ensures c[j] == a[j].(attr := a[j].attr.(isEntry := c[j].attr.isEntry))
    {
      assert b[j] == a[j].(attr := a[j].attr.(isEntry := b[j].attr.isEntry));
      assert c[j] == b[j].(attr := b[j].attr.(isEntry := c[j].attr.isEntry));
    }
  }

  /** A directive of the second scan only sets entry marks and appends
      external labels. */
  lemma MarkOrderMarksOnly(m: Marks, cmd: string, params: Option<string>)
    ensures MarkOrder(m, cmd, params).Some? ==> MarksOnly(m.labels, MarkOrder(m, cmd, params).value.labels)
  {
    if MarkOrder(m, cmd, params).Some? {
      var r := MarkOrder(m, cmd, params).value;
      if cmd == ".entry" && params.Some? {
        var k := FirstLabel(m.labels, params.value);
        forall j | 0 <= j < |m.labels|
          ensures r.labels[j] == m.labels[j].(attr := m.labels[j].attr.(isEntry := r.labels[j].attr.isEntry))
        {
          if j != k {
            assert r.labels[j] == m.labels[j];
          }
        }
      }
    }
  }

  /** One chunk of the second scan that is not over the limit. A line
      without a mnemonic is skipped without counting it; a line with one
      goes to MarkOrder. A blank line is undefined when `asWritten`
      (getCommandParts gives NULL and the scan dereferences it); the
      corrected scan counts it and goes on, as the first scan does. */
  function MarkLine(m: Marks, line: string, asWritten: bool): (r: Option<Marks>)
    ensures r.Some? ==> |r.value.errors| >= |m.errors| && r.value.errors[..|m.errors|] == m.errors
    ensures r.Some? ==> MarksOnly(m.labels, r.value.labels)
  {
    match CommandParts(line)
    case None => if asWritten then None else Some(m.(lineNumber := m.lineNumber + 1))
    case Some(parts) =>
      match parts.cmdName
      case None => Some(m)
      case Some(cmd) => MarkOrderMarksOnly(m, cmd, parts.params); MarkOrder(m, cmd, parts.params)
  }

  /** A line the second scan reads with a mnemonic goes through MarkOrder;
      one without is left alone. */
  lemma MarkLineOfParts(m: Marks, line: string, asWritten: bool)
    requires CommandParts(line).Some?
    ensures var parts := CommandParts(line).value;
      MarkLine(m, line, asWritten) == if parts.cmdName.None? then Some(m) else MarkOrder(m, parts.cmdName.value, parts.params)
  {
  }

  /** A line getCommandParts gives NULL for: undefined as written, counted
      and skipped when corrected. */
  lemma MarkLineOfBlank(m: Marks, line: string, asWritten: bool)
    requires CommandParts(line).None?
    ensures MarkLine(m, line, asWritten) == if asWritten then None else Some(m.(lineNumber := m.lineNumber + 1))
  {
  }

  /** The second scan of pass1 over the whole text again; an overlong chunk
      is counted and skipped with the chunk after it. */
  function SecondScan(m: Marks, chunks: seq<string>, asWritten: bool): (r: Option<Marks>)
    ensures r.Some? ==> |r.value.errors| >= |m.errors| && r.value.errors[..|m.errors|] == m.errors
    ensures r.Some? ==> MarksOnly(m.labels, r.value.labels)
    decreases |chunks|
  {
    if |chunks| == 0 then Some(m)
    else if Overlong(chunks[0]) then SecondScan(m.(lineNumber := m.lineNumber + 1), Next(chunks), asWritten)
    else
      match MarkLine(m, chunks[0], asWritten)
      case None => None
      case Some(t) =>
        var r := SecondScan(t, Next(chunks), asWritten);
        if r.Some? then MarksOnlyTrans(m.labels, t.labels, r.value.labels); r else r
  }


  /** The second scan as written is undefined on a file holding one blank
      line; the corrected one counts it and goes on. */
  lemma BlankLineInSecondScan(m: Marks)
    ensures SecondScan(m, ["\n"], true).None?
    ensures SecondScan(m, ["\n"], false) == Some(m.(lineNumber := m.lineNumber + 1))
  {
    assert IsEmptyLine("\n") == True;
    assert !Overlong("\n") && Next(["\n"]) == [];
    MarkLineOfBlank(m, "\n", true);
    MarkLineOfBlank(m, "\n", false);
  }

  /** The corrected second scan counts a blank line and moves on. */
  lemma {:induction false} SecondScanSkipsBlank(m: Marks, chunks: seq<string>)
    requires |chunks| > 0 && !Overlong(chunks[0]) && IsEmptyLine(chunks[0]) == True
    ensures SecondScan(m, chunks, false) == SecondScan(m.(lineNumber := m.lineNumber + 1), Next(chunks), false)
  {
    assert MarkLine(m, chunks[0], false) == Some(m.(lineNumber := m.lineNumber + 1));
  }

  /** No label is external: the first scan defines only code and data
      labels. */
  predicate NoExternals(labels: seq<Label>) {
    forall j :: 0 <= j < |labels| ==> !labels[j].attr.isExternal
  }

  lemma ScanLineNoExternals(s: Scan, line: string)
    requires NoExternals(s.labels)
    requires ScanLine(s, line).Some?
    ensures NoExternals(ScanLine(s, line).value.labels)
  {
    ScanLineLabels(s, line);
    var r := ScanLine(s, line).value;
    forall j | 0 <= j < |r.labels|
      ensures !r.labels[j].attr.isExternal
    {
      if j < |s.labels| && |r.labels| == |s.labels| + 1 {
        assert r.labels[j] == r.labels[..|s.labels|][j];
      }
    }
  }

  /** The first scan defines no external label, by induction over the
      chunks. */
  lemma {:induction false} FirstScanNoExternals(s: Scan, chunks: seq<string>)
    requires NoExternals(s.labels)
    requires FirstScan(s, chunks).Some?
    ensures NoExternals(FirstScan(s, chunks).value.labels)
    decreases |chunks|
  {
    if |chunks| > 0 {
      if !Overlong(chunks[0]) {
        ScanLineNoExternals(s, chunks[0]);
      }
      FirstScanNoExternals(FirstStep(s, chunks[0]).value, Next(chunks));
    }
  }

  /** A table with the same names and the same external marks keeps its
      external names unique. */
  lemma ExternalsUniqueOfSameKinds(a: seq<Label>, b: seq<Label>)
    requires ExternalsUnique(a) && |a| == |b|
    requires forall j :: 0 <= j < |a| ==> a[j].symbol == b[j].symbol && a[j].attr.isExternal == b[j].attr.isExternal
    ensures ExternalsUnique(b)
  {
  }

  /** A directive of the second scan keeps external names unique: .extern
      adds a label only under a name the table does not hold, and .entry
      touches only the entry mark. */
  lemma MarkOrderExternalsUnique(m: Marks, cmd: string, params: Option<string>)
    requires ExternalsUnique(m.labels)
    requires MarkOrder(m, cmd, params).Some?
    ensures ExternalsUnique(MarkOrder(m, cmd, params).value.labels)
  {
    var r := MarkOrder(m, cmd, params).value;
    if cmd == ".extern" {
      var name := params.value;
      if !exists j :: 0 <= j < |m.labels| && m.labels[j].symbol == name {
        var n := |m.labels|;
        assert r.labels == m.labels + [Label(name, 0, NoAttributes.(isExternal := true), [])];
        forall j, k | 0 <= j < |r.labels| && 0 <= k < |r.labels| && j != k && r.labels[j].attr.isExternal
          ensures r.labels[j].symbol != r.labels[k].symbol
        {
          if j == n {
            assert r.labels[k] == m.labels[k];
          } else if k == n {
            assert r.labels[j] == m.labels[j];
          } else {
            assert r.labels[j] == m.labels[j] && r.labels[k] == m.labels[k];
          }
        }
      }
    } else if cmd == ".entry" && params.Some? {
      var k := FirstLabel(m.labels, params.value);
      forall j | 0 <= j < |m.labels|
        ensures m.labels[j].symbol == r.labels[j].symbol && m.labels[j].attr.isExternal == r.labels[j].attr.isExternal
      {
        if j != k {
          assert r.labels[j] == m.labels[j];
        }
      }
      ExternalsUniqueOfSameKinds(m.labels, r.labels);
    }
  }

  lemma MarkLineExternalsUnique(m: Marks, line: string, asWritten: bool)
    requires ExternalsUnique(m.labels)
    requires MarkLine(m, line, asWritten).Some?
    ensures ExternalsUnique(MarkLine(m, line, asWritten).value.labels)
  {
    var parts := CommandParts(line);
    if parts.Some? && parts.value.cmdName.Some? {
      MarkOrderExternalsUnique(m, parts.value.cmdName.value, parts.value.params);
    }
  }

  /** The second scan keeps external names unique, by induction over the
      chunks. */
  lemma {:induction false} SecondScanExternalsUnique(m: Marks, chunks: seq<string>, asWritten: bool)
    requires ExternalsUnique(m.labels)
    requires SecondScan(m, chunks, asWritten).Some?
    ensures ExternalsUnique(SecondScan(m, chunks, asWritten).value.labels)
    decreases |chunks|
  {
    if |chunks| > 0 {
      var t := if Overlong(chunks[0]) then m.(lineNumber := m.lineNumber + 1) else MarkLine(m, chunks[0], asWritten).value;
      assert SecondScan(m, chunks, asWritten) == SecondScan(t, Next(chunks), asWritten) && ExternalsUnique(t.labels) by {
        if !Overlong(chunks[0]) {
          MarkLineExternalsUnique(m, chunks[0], asWritten);
        }
      }
      SecondScanExternalsUnique(t, Next(chunks), asWritten);
    }
  }

  /** After both scans no other label shares an external label's name:
      the first scan defines no external label, and the second refuses
      .extern of a name already in the table. */
  lemma ScansExternalsUnique(s: Scan, chunks: seq<string>)
    requires s.labels == [] && FirstScan(s, chunks).Some?
    requires SecondScan(Marks(FirstScan(s, chunks).value.labels, FirstScan(s, chunks).value.errors, 0), chunks, false).Some?
    ensures var t := FirstScan(s, chunks).value;
      ExternalsUnique(SecondScan(Marks(t.labels, t.errors, 0), chunks, false).value.labels)
  {
    var t := FirstScan(s, chunks).value;
    FirstScanNoExternals(s, chunks);
    assert ExternalsUnique(t.labels);
    SecondScanExternalsUnique(Marks(t.labels, t.errors, 0), chunks, false);
  }

  /** The labels, commands and data after pass1, with the final IC and DC
      and the errors both scans recorded. */
  datatype Pass1Result = Pass1Result(labels: seq<Label>, commands: seq<Command>, picture: seq<DataItem>,
                                     ic: int, dc: int, errors: seq<Error>)

  /** pass1: the two scans, then every data label moves up by the final IC.
      The second scan is the corrected one. */
  function Pass1(chunks: seq<string>): (r: Option<Pass1Result>)
    ensures r.Some? ==> CodeLayout(r.value.commands, r.value.ic) && r.value.dc >= 0
    ensures r.Some? ==> DataLayout(r.value.picture, r.value.dc)
    ensures r.Some? ==> ExternalsUnique(r.value.labels)
  {
    var start := Scan([], [], [], CodeStart, 0, [], 0);
    match FirstScan(start, chunks)
    case None => None
    case Some(s) =>
      FirstScanLayout(start, chunks);
      match SecondScan(Marks(s.labels, s.errors, 0), chunks, false)
      case None => None
      case Some(m) =>
        ScansExternalsUnique(start, chunks);
        ExternalsUniqueOfSameKinds(m.labels, UpdateDataLabels(m.labels, s.ic));
        Some(Pass1Result(UpdateDataLabels(m.labels, s.ic), s.commands, s.picture, s.ic, s.dc, m.errors))
  }

  /** A verdict validateFile records for a numbered chunk. */
  predicate Rejects(entry: (int, string), check: string -> Option<ErrorType>, e: Error) {
    && !Overlong(entry.1)
    && check(entry.1).Some?
    && check(entry.1).value != Valid
    && e == Error(entry.0, MessageOf(check(entry.1).value))
  }

  /** checkLine against a label table, as validateFile calls it. */
  function LineCheck(labels: seq<Label>): string -> Option<ErrorType> {
    (line: string) => CheckLineCorrected(line, labels)
  }

  /** validateFile: every chunk that is not over the limit goes through
      the line check (checkLine against the labels of pass1, LineCheck),
      and each verdict other than Valid is recorded with its message under
      the chunk's 1-based number. None where the check is undefined. */
  function ValidateFile(chunks: seq<string>, check: string -> Option<ErrorType>, n: int): (r: Option<seq<Error>>)
    ensures r.Some? ==> |r.value| <= |chunks|
    ensures r.Some? ==> forall k :: 0 <= k < |r.value| ==> r.value[k].lineNumber > n
    ensures r.Some? ==> forall j, k :: 0 <= j < k < |r.value| ==> r.value[j].lineNumber < r.value[k].lineNumber
    decreases |chunks|
  {
    if |chunks| == 0 then Some([])
    else if Overlong(chunks[0]) then ValidateFile(Next(chunks), check, n + 1)
    else
      match check(chunks[0])
      case None => None
      case Some(e) =>
        match ValidateFile(Next(chunks), check, n + 1)
        case None => None
        case Some(rest) => Some((if e == Valid then [] else [Error(n + 1, MessageOf(e))]) + rest)
  }

  /** Every entry of `errs` is related by `p` to an element of `nl`. */
  predicate Covered<A, B(==)>(errs: seq<B>, nl: seq<A>, p: (A, B) -> bool) {
    forall e :: e in errs ==> exists j :: 0 <= j < |nl| && p(nl[j], e)
  }

  /** Every element of `nl` that `q` selects has an entry of `errs` related
      to it by `p`. */
  predicate Reported<A, B(==)>(errs: seq<B>, nl: seq<A>, q: A -> bool, p: (A, B) -> bool) {
    forall j :: 0 <= j < |nl| && q(nl[j]) ==> exists e :: e in errs && p(nl[j], e)
  }

  /** `q` holds of every element of `nl`. */
  predicate Everywhere<A>(nl: seq<A>, q: A -> bool) {
    forall j :: 0 <= j < |nl| ==> q(nl[j])
  }

  function RejectsIn(check: string -> Option<ErrorType>): ((int, string), Error) -> bool {
    (x: (int, string), e: Error) => Rejects(x, check, e)
  }

  /** The line check is defined on a chunk within the limit. */
  function CheckedIn(check: string -> Option<ErrorType>): ((int, string)) -> bool {
    (x: (int, string)) => !Overlong(x.1) ==> check(x.1).Some?
  }

  /** The line check does not pass a chunk within the limit. */
  function RefusedIn(check: string -> Option<ErrorType>): ((int, string)) -> bool {
    (x: (int, string)) => !Overlong(x.1) && check(x.1) != Some(Valid)
  }

  /** `errs` are exactly the verdicts validateFile reports for the numbered
      chunks `nl`: each error is a rejection of one of them, the check is
      defined on every chunk within the limit, and each such chunk it does
      not pass has its error. */
  predicate RejectionsOf(errs: seq<Error>, nl: seq<(int, string)>, check: string -> Option<ErrorType>) {
    && Covered(errs, nl, RejectsIn(check))
    && Everywhere(nl, CheckedIn(check))
    && Reported(errs, nl, RefusedIn(check), RejectsIn(check))
  }

  /** validateFile reports a numbered chunk exactly when the check rejects it. */
  lemma {:induction false} ValidateFileReports(chunks: seq<string>, check: string -> Option<ErrorType>, n: int)
    requires ValidateFile(chunks, check, n).Some?
    ensures RejectionsOf(ValidateFile(chunks, check, n).value, Numbered(chunks, n), check)
    decreases |chunks|
  {
    if |chunks| > 0 {
      var nl := Numbered(chunks, n);
      var tail := Numbered(Next(chunks), n + 1);
      assert nl == [(n + 1, chunks[0])] + tail;
      ValidateFileReports(Next(chunks), check, n + 1);
      var rest := ValidateFile(Next(chunks), check, n + 1).value;
      var head := if Overlong(chunks[0]) || check(chunks[0]) == Some(Valid) then []
        else [Error(n + 1, MessageOf(check(chunks[0]).value))];
      assert ValidateFile(chunks, check, n).value == head + rest;
      RejectionsStep(nl, tail, head, rest, check);
    }
  }

  /** Prepending the first chunk's verdict, if it is reported, to the
      verdicts of the remaining chunks gives the verdicts of all of them. */
  lemma RejectionsStep(nl: seq<(int, string)>, tail: seq<(int, string)>, head: seq<Error>, rest: seq<Error>,
                       check: string -> Option<ErrorType>)
    requires |nl| > 0 && nl == [nl[0]] + tail
    requires !Overlong(nl[0].1) ==> check(nl[0].1).Some?
    requires head == if Overlong(nl[0].1) || check(nl[0].1) == Some(Valid) then []
      else [Error(nl[0].0, MessageOf(check(nl[0].1).value))]
    requires RejectionsOf(rest, tail, check)
    ensures RejectionsOf(head + rest, nl, check)
  {
    if head != [] {
      assert RejectsIn(check)(nl[0], head[0]);
    }
    PrependSound(nl, tail, head, rest, RejectsIn(check));
    PrependAll(nl, tail, CheckedIn(check));
    PrependComplete(nl, tail, head, rest, RefusedIn(check), RejectsIn(check));
  }

  /** Every entry of head + rest is related by `p` to an element of nl,
      when head's are related to its first element and rest's to the
      remaining ones. */
  lemma PrependSound<A, B>(nl: seq<A>, tail: seq<A>, head: seq<B>, rest: seq<B>, p: (A, B) -> bool)
    requires |nl| > 0 && nl == [nl[0]] + tail
    requires forall e :: e in head ==> p(nl[0], e)
    requires Covered(rest, tail, p)
    ensures Covered(head + rest, nl, p)
  {
    forall e | e in head + rest
      ensures exists j :: 0 <= j < |nl| && p(nl[j], e)
    {
      if e in rest {
        var j :| 0 <= j < |tail| && p(tail[j], e);
        assert nl[j + 1] == tail[j];
      } else {
        assert p(nl[0], e);
      }
    }
  }

  /** Every element of nl that `q` selects has an entry of head + rest
      related to it by `p`, when this holds for the first element with head
      and for the remaining ones with rest. */
  lemma PrependComplete<A, B>(nl: seq<A>, tail: seq<A>, head: seq<B>, rest: seq<B>, q: A -> bool, p: (A, B) -> bool)
    requires |nl| > 0 && nl == [nl[0]] + tail
    requires q(nl[0]) ==> exists e :: e in head && p(nl[0], e)
    requires Reported(rest, tail, q, p)
    ensures Reported(head + rest, nl, q, p)
  {
    forall j | 0 <= j < |nl| && q(nl[j])
      ensures exists e :: e in head + rest && p(nl[j], e)
    {
      if j == 0 {
        var e :| e in head && p(nl[0], e);
        assert e in head + rest;
      } else {
        assert nl[j] == tail[j - 1];
        var e :| e in rest && p(tail[j - 1], e);
        assert e in head + rest;
      }
    }
  }

  /** `q` holds of all of nl when it holds of the first element and of the
      remaining ones. */
  lemma PrependAll<A>(nl: seq<A>, tail: seq<A>, q: A -> bool)
    requires |nl| > 0 && nl == [nl[0]] + tail
    requires q(nl[0]) && Everywhere(tail, q)
    ensures Everywhere(nl, q)
  {
    forall j | 0 <= j < |nl|
      ensures q(nl[j])
    {
      if j > 0 {
        assert nl[j] == tail[j - 1];
      }
    }
  }

  /** encodeRCmd, encodeICmd or encodeJCmd by the command's format; a
      command without one is left alone. The I format uses the corrected
      branch distance. */
  function EncodeCommand(c: Command, labels: seq<Label>): (r: Option<Command>)
    ensures r.Some? ==> r.value == c.(bits := r.value.bits)
    ensures r.Some? && c.cmdType == Some(RFormat) ==> r.value.bits.Some? && r.value.bits.value.RWord?
    ensures c.cmdType.None? ==> r == Some(c)
  {
    match c.cmdType
    case Some(RFormat) => EncodeRCmd(c)
    case Some(IFormat) => EncodeICmdCorrected(c, labels)
    case Some(JFormat) => EncodeJCmd(c, labels)
    case None => Some(c)
  }

  /** pass2: every command encoded in place, in order. */
  function Pass2(commands: seq<Command>, labels: seq<Label>): (r: Option<seq<Command>>)
    ensures r.Some? <==> forall k :: 0 <= k < |commands| ==> EncodeCommand(commands[k], labels).Some?
    ensures r.Some? ==> |r.value| == |commands|
    ensures r.Some? ==> forall k :: 0 <= k < |commands| ==> r.value[k] == EncodeCommand(commands[k], labels).value
  {
    if |commands| == 0 then Some([])
    else
      match EncodeCommand(commands[0], labels)
      case None => None
      case Some(c) =>
        match Pass2(commands[1..], labels)
        case None =>
          FailureOfTail(commands, labels);
          None
        case Some(rest) => Some([c] + rest)
  }

  /** A command the tail cannot encode is one the whole list cannot. */
  lemma FailureOfTail(commands: seq<Command>, labels: seq<Label>)
    requires |commands| > 0
    requires exists k :: 0 <= k < |commands[1..]| && !EncodeCommand(commands[1..][k], labels).Some?
    ensures exists k :: 0 <= k < |commands| && !EncodeCommand(commands[k], labels).Some?
  {
    var k :| 0 <= k < |commands[1..]| && !EncodeCommand(commands[1..][k], labels).Some?;
    assert commands[1..][k] == commands[k + 1];
  }

  /** pass2 keeps every command's address, format and line; only the bits
      change. */
  lemma Pass2KeepsFrames(commands: seq<Command>, labels: seq<Label>)
    requires Pass2(commands, labels).Some?
    ensures var r := Pass2(commands, labels).value;
      forall k :: 0 <= k < |commands| ==>
        r[k].address == commands[k].address && r[k].cmdType == commands[k].cmdType && r[k].line == commands[k].line
  {
    var r := Pass2(commands, labels).value;
    forall k | 0 <= k < |commands|
      ensures r[k].address == commands[k].address && r[k].cmdType == commands[k].cmdType && r[k].line == commands[k].line
    {
      assert r[k] == EncodeCommand(commands[k], labels).value;
    }
  }

  /** An add, sub, and, or or nor line on three registers, from end to end:
      the first scan records it as an R-format command, checkLine passes
      it, and pass2 encodes it with opcode 0, the registers in rs, rt and
      rd order, and funct 1 to 5 in table order. */
  lemma RArithmeticLine(line: string, labels: seq<Label>, address: int, lbl: Option<string>,
                        k: nat, i: nat, j: nat, m: nat)
    requires k < 5 && i < 32 && j < 32 && m < 32
    requires lbl.None? || LegalLabel(lbl.value)
    requires var text := RegisterNames[i] + "," + RegisterNames[j] + "," + RegisterNames[m];
      Spellable(lbl, RACmd[k], Some(text)) && line == SpellLine(lbl, RACmd[k], Some(text))
    ensures CheckLine(line, labels) == Some(Valid) && CheckLineCorrected(line, labels) == Some(Valid)
    ensures var c := InitNewCommand(line, address);
      && c == Some(Command(address, None, Some(RFormat), line))
      && EncodeCommand(c.value, labels) == Some(c.value.(bits := Some(RWord(0, i, j, m, k + 1, 0))))
  {
    var text := RegisterNames[i] + "," + RegisterNames[j] + "," + RegisterNames[m];
    RArithmeticLineValid(line, labels, lbl, k, i, j, m);
    CommandPartsOfSpelledLine(lbl, RACmd[k], Some(text));
    assert RACmd[k] in RACmd;
    var c := Command(address, None, Some(RFormat), line);
    EncodeRArithmetic(c, lbl, k, i, j, m);
  }

  /** updateDataPictureAddress: every data item moves up by ICF. */
  function UpdateDataPictureAddress(picture: seq<DataItem>, icf: int): (r: seq<DataItem>)
    ensures |r| == |picture|
    ensures forall k :: 0 <= k < |picture| ==>
      r[k].address - icf == picture[k].address && r[k].value == picture[k].value && r[k].size == picture[k].size
  {
    if |picture| == 0 then []
    else [picture[0].(address := picture[0].address + icf)] + UpdateDataPictureAddress(picture[1..], icf)
  }

  /** What the output files are written from. */
  datatype Image = Image(commands: seq<Command>, picture: seq<DataItem>, labels: seq<Label>, icf: int, dcf: int)

  datatype Outcome = Encoded(image: Image) | Refused(errors: seq<Error>)

  /** main for one file: pass1 and validateFile; with no error recorded the
      data moves above the code, pass2 encodes the commands and the
      external labels collect their use sites; otherwise the errors are
      what is reported. */
  function Assemble(text: string): (r: Option<Outcome>)
    ensures r.Some? && r.value.Refused? ==> |r.value.errors| > 0
    ensures r.Some? && r.value.Encoded? ==>
      var image := r.value.image;
      && image.icf == CodeStart + 4 * |image.commands|
      && image.dcf >= image.icf
      && forall k :: 0 <= k < |image.commands| ==> image.commands[k].address == CodeStart + 4 * k
  {
    var chunks := Chunks(text);
    match Pass1(chunks)
    case None => None
    case Some(p) =>
      match ValidateFile(chunks, LineCheck(p.labels), 0)
      case None => None
      case Some(verdicts) =>
        var errors := p.errors + verdicts;
        if |errors| != 0 then Some(Refused(errors))
        else
          match Pass2(p.commands, p.labels)
          case None => None
          case Some(commands) =>
            Pass2KeepsFrames(p.commands, p.labels);
            match UpdateExternalAppearancesLabels(commands, p.labels)
            case None => None
            case Some(labels) =>
              Some(Encoded(Image(commands, UpdateDataPictureAddress(p.picture, p.ic), labels, p.ic, p.dc + p.ic)))
  }

  /** In an encoded file every external label has gained exactly its use
      sites in the encoded commands, in command order, and every other
      label is as pass1 left it: pass1 leaves no other label under an
      external label's name. */
  lemma AssembleExternalAppearances(text: string)
    requires Assemble(text).Some? && Assemble(text).value.Encoded?
    ensures var image := Assemble(text).value.image;
      && Pass1(Chunks(text)).Some?
      && AppearancesUpdated(image.commands, Pass1(Chunks(text)).value.labels, image.labels, 0)
  {
    var p := Pass1(Chunks(text)).value;
    var image := Assemble(text).value.image;
    assert UpdateExternalAppearancesLabels(image.commands, p.labels) == Some(image.labels);
  }

  /** pass1's errors begin with the first scan's, which are exactly the
      length errors of the chunks. */
  lemma Pass1LengthErrors(chunks: seq<string>)
    requires Pass1(chunks).Some?
    ensures var s := FirstScan(Scan([], [], [], CodeStart, 0, [], 0), chunks);
      var errors := Pass1(chunks).value.errors;
      && s.Some?
      && |errors| >= |s.value.errors| && errors[..|s.value.errors|] == s.value.errors
      && LengthErrorsOf(s.value.errors, Numbered(chunks, 0))
  {
    var start := Scan([], [], [], CodeStart, 0, [], 0);
    var s := FirstScan(start, chunks).value;
    assert SecondScan(Marks(s.labels, s.errors, 0), chunks, false).value.errors == Pass1(chunks).value.errors;
    FirstScanErrors(start, chunks);
    assert s.errors[|start.errors|..] == s.errors;
  }

  /** No length error: no chunk is over the limit. */
  lemma NoLengthErrors(nl: seq<(int, string)>)
    requires LengthErrorsOf([], nl)
    ensures forall j :: 0 <= j < |nl| ==> !Overlong(nl[j].1)
  {
  }

  /** No rejection: the check passes every chunk within the limit. */
  lemma NoRejections(nl: seq<(int, string)>, check: string -> Option<ErrorType>)
    requires RejectionsOf([], nl, check)
    ensures forall j :: 0 <= j < |nl| && !Overlong(nl[j].1) ==> check(nl[j].1) == Some(Valid)
  {
    forall j | 0 <= j < |nl| && !Overlong(nl[j].1)
      ensures check(nl[j].1) == Some(Valid)
    {
      assert CheckedIn(check)(nl[j]);
      assert !RefusedIn(check)(nl[j]);
    }
  }

  /** A file is encoded only when no chunk is over the limit and checkLine
      passes every chunk against the labels pass1 built. */
  lemma AssembleGate(text: string)
    requires Assemble(text).Some? && Assemble(text).value.Encoded?
    ensures var chunks := Chunks(text);
      var nl := Numbered(chunks, 0);
      && Pass1(chunks).Some?
      && forall j :: 0 <= j < |nl| ==>
           !Overlong(nl[j].1) && CheckLineCorrected(nl[j].1, Pass1(chunks).value.labels) == Some(Valid)
  {
    var chunks := Chunks(text);
    var nl := Numbered(chunks, 0);
    var p := Pass1(chunks).value;
    var check := LineCheck(p.labels);
    assert p.errors == [] && ValidateFile(chunks, check, 0) == Some([]);
    Pass1LengthErrors(chunks);
    ValidateFileReports(chunks, check, 0);
    NoLengthErrors(nl);
    NoRejections(nl, check);
    forall j | 0 <= j < |nl|
      ensures !Overlong(nl[j].1) && CheckLineCorrected(nl[j].1, p.labels) == Some(Valid)
    {
      assert check(nl[j].1) == Some(Valid);
    }
  }

  /** The line `.entry` alone: a directive line with no label and no
      operand, which checkLine accepts. */
  lemma EntryLine()
    ensures CommandParts(".entry") == Some(LineParts(None, Some(".entry"), None))
    ensures GetLineType(".entry") == OrderLine
    ensures CheckLineCorrected(".entry", []) == Some(Valid)
  {
    EntryLineParts();
    EntryLineType();
    EntryLineCheck();
  }

  lemma EntryLineParts()
    ensures SpellLine(None, ".entry", None) == ".entry" && Spellable(None, ".entry", None)
    ensures CommandParts(".entry") == Some(LineParts(None, Some(".entry"), None))
  {
    assert SpellLine(None, ".entry", None) == ".entry";
    CommandPartsOfSpelledLine(None, ".entry", None);
  }

  lemma EntryLineType()
    ensures GetLineType(".entry") == OrderLine
  {
    EntryLineParts();
    LineTypeOfSpelledLine(".entry", None, ".entry", None);
  }

  lemma EntryLineCheck()
    ensures CheckLineCorrected(".entry", []) == Some(Valid)
  {
    EntryLineParts();
    CheckLineOfSpelledLine(".entry", [], None, ".entry", None);
  }

  /** getLine reads `.entry` as one chunk. */
  lemma EntryChunks()
    ensures Chunks(".entry") == [".entry"]
  {
    var text := ".entry";
    assert ChunkLength(text) == 6;
    assert text[..6] == text && text[6..] == [];
  }

  /** The parts of a `.entry` line without label or operand. */
  predicate BareEntry(line: string) {
    CommandParts(line) == Some(LineParts(None, Some(".entry"), None))
  }

  /** The first scan's line step on a directive line: count it, define its
      label, then take the data step. */
  lemma ScanLineOfOrder(s: Scan, line: string)
    requires GetLineType(line) == OrderLine && CommandParts(line).Some? && CommandParts(line).value.cmdName.Some?
    ensures var parts := CommandParts(line).value;
      ScanLine(s, line) == ScanOrder(WithLabel(s.(lineNumber := s.lineNumber + 1), parts.labelName, OrderLine), line, parts.cmdName.value)
  {
  }

  /** The first scan's line step only counts a bare `.entry` line: it
      defines no label and allocates nothing. */
  lemma ScanLineOfBareEntry(s: Scan, line: string)
    requires GetLineType(line) == OrderLine && BareEntry(line)
    ensures ScanLine(s, line) == Some(s.(lineNumber := s.lineNumber + 1))
  {
    var n := s.(lineNumber := s.lineNumber + 1);
    ScanLineOfOrder(s, line);
    assert WithLabel(n, None, OrderLine) == n;
  }

  /** The first scan only counts a bare `.entry` line. */
  lemma FirstScanOfBareEntry(s: Scan, line: string)
    requires !Overlong(line) && GetLineType(line) == OrderLine && BareEntry(line)
    ensures FirstScan(s, [line]) == Some(s.(lineNumber := s.lineNumber + 1))
  {
    var n := s.(lineNumber := s.lineNumber + 1);
    ScanLineOfBareEntry(s, line);
    assert FirstStep(s, line) == Some(n);
    assert Next([line]) == [];
  }

  /** On an empty label table the second scan's line step only counts a
      bare `.entry` line: markLabelAsEntry walks no label. */
  lemma MarkLineOfBareEntry(m: Marks, line: string)
    requires BareEntry(line) && |m.labels| == 0
    ensures MarkLine(m, line, false) == Some(m.(lineNumber := m.lineNumber + 1))
  {
    MarkLineOfParts(m, line, false);
  }

  /** On an empty label table the second scan only counts a bare `.entry`
      line. */
  lemma SecondScanOfBareEntry(m: Marks, line: string)
    requires !Overlong(line) && BareEntry(line) && |m.labels| == 0
    ensures SecondScan(m, [line], false) == Some(m.(lineNumber := m.lineNumber + 1))
  {
    MarkLineOfBareEntry(m, line);
    assert Next([line]) == [];
  }

  /** Both scans of pass1 on a bare `.entry` chunk only count the line. */
  lemma Pass1OfBareEntry(line: string)
    requires !Overlong(line) && GetLineType(line) == OrderLine && BareEntry(line)
    ensures Pass1([line]) == Some(Pass1Result([], [], [], CodeStart, 0, []))
  {
    var start := Scan([], [], [], CodeStart, 0, [], 0);
    FirstScanOfBareEntry(start, line);
    SecondScanOfBareEntry(Marks([], [], 0), line);
  }

  /** A file holding only a `.entry` line without operand assembles to an
      empty image: the first scan skips the directive, the second finds no
      label to mark, and checkLine accepts a directive with no operand. */
  lemma EntryOnlyFile()
    ensures Assemble(".entry") == Some(Encoded(Image([], [], [], CodeStart, CodeStart)))
  {
    EntryChunks();
    EntryLine();
    AssembleOfBareEntry(".entry", ".entry");
  }

  /** A text read as one bare `.entry` chunk that checkLine accepts on an
      empty table assembles to an empty image. */
  lemma AssembleOfBareEntry(text: string, line: string)
    requires Chunks(text) == [line] && !Overlong(line) && GetLineType(line) == OrderLine && BareEntry(line)
    requires CheckLineCorrected(line, []) == Some(Valid)
    ensures Assemble(text) == Some(Encoded(Image([], [], [], CodeStart, CodeStart)))
  {
    Pass1OfBareEntry(line);
    ValidateOneChunk(line, LineCheck([]));
    AssembleOfEmptyPasses(text);
  }

  /** A text on which pass1 finds nothing and validateFile reports nothing
      assembles to the empty image. */
  lemma AssembleOfEmptyPasses(text: string)
    requires Pass1(Chunks(text)) == Some(Pass1Result([], [], [], CodeStart, 0, []))
    requires ValidateFile(Chunks(text), LineCheck([]), 0) == Some([])
    ensures Assemble(text) == Some(Encoded(Image([], [], [], CodeStart, CodeStart)))
  {
    EmptyTables();
  }

  /** With no commands, labels or data, pass2 and the address updates
      have nothing to do. */
  lemma EmptyTables()
    ensures Pass2([], []) == Some([])
    ensures UpdateExternalAppearancesLabels([], []) == Some([])
    ensures UpdateDataPictureAddress([], CodeStart) == []
  {
  }

  /** validateFile records nothing for one chunk the check accepts. */
  lemma ValidateOneChunk(line: string, check: string -> Option<ErrorType>)
    requires !Overlong(line) && check(line) == Some(Valid)
    ensures ValidateFile([line], check, 0) == Some([])
  {
    assert Next([line]) == [];
    assert ValidateFile([], check, 1) == Some([]);
    var none: seq<Error> := [];
    assert none + none == none;
  }
}
