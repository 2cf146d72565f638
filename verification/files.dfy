/** The output side of files.c: the '0'/'1' strings createStrFromBitField
    builds, the byte values cut reads back out of them, the lines of the
    object file, the entry and external listings, and the file-name
    helpers. No file is opened here: each writer yields the records it
    would print, in order; the hexadecimal and decimal spelling of those
    records by fprintf is not modelled. */
module Files {
  import opened CLib
  import opened Datatypes
  import opened Assembler

  // ---------------------------------------------------------------------
  // Bit strings
  // ---------------------------------------------------------------------

  predicate IsBit(c: char) {
    c == '0' || c == '1'
  }

  predicate AllBits(s: string) {
    forall i :: 0 <= i < |s| ==> IsBit(s[i])
  }

  /** The value of a string of binary digits, most significant first. */
  function BinaryValue(s: string): nat {
    if |s| == 0 then 0 else 2 * BinaryValue(s[..|s| - 1]) + (if s[|s| - 1] == '1' then 1 else 0)
  }

  /** The loop of createStrFromBitField: `length` characters, the last one
      bit 0 of u, each earlier one the next bit up. */
  function Bits(u: nat, length: nat): (s: string)
    ensures |s| == length && AllBits(s)
  {
    if length == 0 then [] else Bits(u / 2, length - 1) + [if u % 2 == 1 then '1' else '0']
  }

  /** createStrFromBitField: the item parameter is an unsigned int, so a
      negative field value arrives as its 32-bit two's complement. */
  function BitField(item: int, length: nat): (s: string)
    ensures |s| == length && AllBits(s)
  {
    Bits(Unsigned(item, 32), length)
  }

  /** Character length-1-k of the string is bit k of the unsigned item. */
  lemma {:induction false} BitsAt(u: nat, length: nat, k: nat)
    requires k < length
    ensures Bits(u, length)[length - 1 - k] == if (u / Pow2(k)) % 2 == 1 then '1' else '0'
  {
    if k > 0 {
      BitsAt(u / 2, length - 1, k - 1);
      DivDiv(u, 2, Pow2(k - 1));
    }
  }

  /** Read back, the string is the item modulo 2^length: the bits above
      the field are dropped, and for a field of at most 32 bits the 32-bit
      conversion changes nothing further. */
  lemma BitFieldValue(item: int, length: nat)
    requires length <= 32
    ensures BinaryValue(BitField(item, length)) == Unsigned(item, length)
  {
    BitsValue(Unsigned(item, 32), length);
    Pow2Add(length, 32 - length);
    ModOfMod(item, Pow2(length), Pow2(32 - length));
  }

  lemma {:induction false} BitsValue(u: nat, length: nat)
    ensures BinaryValue(Bits(u, length)) == u % Pow2(length)
  {
    if length > 0 {
      var s := Bits(u, length);
      assert s[..length - 1] == Bits(u / 2, length - 1);
      BitsValue(u / 2, length - 1);
      HalfMod(u, Pow2(length - 1));
    }
  }

  /** A binary string of n digits is below 2^n. */
  lemma {:induction false} BinaryBound(s: string)
    ensures BinaryValue(s) < Pow2(|s|)
  {
    if |s| > 0 {
      BinaryBound(s[..|s| - 1]);
    }
  }

  /** Reading a concatenation: the first part is shifted past the second. */
  lemma {:induction false} BinaryConcat(a: string, b: string)
    ensures BinaryValue(a + b) == BinaryValue(a) * Pow2(|b|) + BinaryValue(b)
    decreases |b|
  {
    if |b| == 0 {
      assert a + b == a;
    } else {
      var b' := b[..|b| - 1];
      var va, p := BinaryValue(a), Pow2(|b'|);
      assert (a + b)[..|a + b| - 1] == a + b';
      assert (a + b)[|a + b| - 1] == b[|b| - 1];
      BinaryConcat(a, b');
      assert Pow2(|b|) == 2 * p;
      MulAssociates(va, p, 2);
    }
  }

  // ---------------------------------------------------------------------
  // strtol and cut
  // ---------------------------------------------------------------------

  /** Number of leading binary digits. */
  function LeadingBits(s: string): (n: nat)
    ensures n <= |s| && AllBits(s[..n])
    ensures n < |s| ==> !IsBit(s[n])
  {
    if |s| > 0 && IsBit(s[0]) then 1 + LeadingBits(s[1..]) else 0
  }

  /** strtol(s, NULL, 2): white space, an optional sign, then the longest
      run of binary digits; no digits gives 0. */
  function StrtolBinary(s: string): int {
    var t := SkipSpaces(s);
    if |t| > 0 && (t[0] == '-' || t[0] == '+') then
      var u := t[1..];
      var v: int := BinaryValue(u[..LeadingBits(u)]);
      if t[0] == '-' then -v else v
    else
      BinaryValue(t[..LeadingBits(t)])
  }

  /** On a string of binary digits strtol reads all of it. */
  lemma StrtolOfBits(s: string)
    requires AllBits(s)
    ensures StrtolBinary(s) == BinaryValue(s)
  {
    if |s| > 0 {
      assert !IsSpace(s[0]);
      assert SkipSpaces(s) == s;
    }
    assert s[..LeadingBits(s)] == s;
  }

  /** cut(buf, begin, count): strncpy copies at most `count` characters
      from position `begin` into an 8-character part, stopping where the
      string ends, and strtol reads the part in base 2. Every caller hands
      it a 33-character buffer, so the copy stays within its first 32. */
  function Cut(buf: string, begin: nat, count: nat): (p: int)
    requires count <= 8 && begin + count <= 32
    ensures AllBits(buf) ==> 0 <= p < Pow2(count)
    ensures AllBits(buf) && begin + count <= |buf| ==> p == BinaryValue(buf[begin..begin + count])
  {
    var part := CopiedPart(buf, begin, count);
    PartValue(part, count);
    StrtolBinary(part)
  }

  /** What strncpy leaves in cut's part. */
  function CopiedPart(buf: string, begin: nat, count: nat): (part: string)
    ensures |part| <= count
    ensures AllBits(buf) ==> AllBits(part)
    ensures begin + count <= |buf| ==> part == buf[begin..begin + count]
  {
    if begin >= |buf| then "" else buf[begin..if begin + count <= |buf| then begin + count else |buf|]
  }

  lemma PartValue(part: string, count: nat)
    requires |part| <= count
    ensures AllBits(part) ==> StrtolBinary(part) == BinaryValue(part) < Pow2(count)
  {
    if AllBits(part) {
      StrtolOfBits(part);
      BinaryBound(part);
      Pow2Monotone(|part|, count);
    }
  }

  // ---------------------------------------------------------------------
  // Bytes
  // ---------------------------------------------------------------------

  predicate ByteValues(bs: seq<int>) {
    forall i :: 0 <= i < |bs| ==> 0 <= bs[i] < 256
  }

  /** The number whose bytes, least significant first, are bs. */
  function LittleEndian(bs: seq<int>): int {
    if |bs| == 0 then 0 else bs[0] + 256 * LittleEndian(bs[1..])
  }

  lemma LittleEndianFour(x0: int, x1: int, x2: int, x3: int)
    ensures LittleEndian([x0, x1, x2, x3]) == x0 + 256 * (x1 + 256 * (x2 + 256 * x3))
  {
    assert LittleEndian([x2, x3]) == x2 + 256 * x3 by { LittleEndianTwo(x2, x3); }
    assert [x1, x2, x3][1..] == [x2, x3];
    assert [x0, x1, x2, x3][1..] == [x1, x2, x3];
  }

  lemma LittleEndianTwo(x0: int, x1: int)
    ensures LittleEndian([x0, x1]) == x0 + 256 * x1
  {
    assert LittleEndian([x1]) == x1 by { assert [x1][1..] == []; }
    assert [x0, x1][1..] == [x1];
  }

  /** Four 8-character parts read as one string. */
  lemma FourParts(a: string, b: string, c: string, d: string)
    requires |a| == |b| == |c| == |d| == 8
    ensures BinaryValue(a + b + c + d) == BinaryValue(d) + 256 * (BinaryValue(c) + 256 * (BinaryValue(b) + 256 * BinaryValue(a)))
  {
    assert Pow2(8) == 256 by { Pow2Values(); }
    assert BinaryValue(a + b) == BinaryValue(a) * 256 + BinaryValue(b) by { BinaryConcat(a, b); }
    assert BinaryValue(a + b + c) == BinaryValue(a + b) * 256 + BinaryValue(c) by { BinaryConcat(a + b, c); }
    assert BinaryValue(a + b + c + d) == BinaryValue(a + b + c) * 256 + BinaryValue(d) by { BinaryConcat(a + b + c, d); }
  }

  /** Two 8-character parts read as one string. */
  lemma TwoParts(a: string, b: string)
    requires |a| == |b| == 8
    ensures BinaryValue(a + b) == BinaryValue(b) + 256 * BinaryValue(a)
  {
    assert Pow2(8) == 256 by { Pow2Values(); }
    BinaryConcat(a, b);
  }

  /** The four parts cut from a 32-character bit string, printed from the
      last to the first, are its value in base 256, low byte first. */
  lemma WordCuts(buf: string)
    requires |buf| == 32 && AllBits(buf)
    ensures LittleEndian([Cut(buf, 24, 8), Cut(buf, 16, 8), Cut(buf, 8, 8), Cut(buf, 0, 8)]) == BinaryValue(buf)
  {
    WordParts(buf, Cut(buf, 0, 8), Cut(buf, 8, 8), Cut(buf, 16, 8), Cut(buf, 24, 8));
  }

  /** Bytes holding the values of a 32-character bit string's four parts. */
  lemma WordParts(buf: string, p1: int, p2: int, p3: int, p4: int)
    requires |buf| == 32
    requires p1 == BinaryValue(buf[0..8]) && p2 == BinaryValue(buf[8..16])
    requires p3 == BinaryValue(buf[16..24]) && p4 == BinaryValue(buf[24..32])
    ensures LittleEndian([p4, p3, p2, p1]) == BinaryValue(buf)
  {
    var a, b, c, d := buf[0..8], buf[8..16], buf[16..24], buf[24..32];
    assert BinaryValue(buf) == BinaryValue(d) + 256 * (BinaryValue(c) + 256 * (BinaryValue(b) + 256 * BinaryValue(a))) by {
      assert buf == a + b + c + d;
      FourParts(a, b, c, d);
    }
    FourBytesValue(p1, p2, p3, p4, BinaryValue(buf), BinaryValue(a), BinaryValue(b), BinaryValue(c), BinaryValue(d));
  }

  /** The same for the two parts of a 16-character bit string. */
  lemma HalfCuts(buf: string)
    requires |buf| == 16 && AllBits(buf)
    ensures LittleEndian([Cut(buf, 8, 8), Cut(buf, 0, 8)]) == BinaryValue(buf)
  {
    HalfParts(buf, Cut(buf, 0, 8), Cut(buf, 8, 8));
  }

  lemma HalfParts(buf: string, p1: int, p2: int)
    requires |buf| == 16
    requires p1 == BinaryValue(buf[0..8]) && p2 == BinaryValue(buf[8..16])
    ensures LittleEndian([p2, p1]) == BinaryValue(buf)
  {
    var a, b := buf[0..8], buf[8..16];
    assert BinaryValue(buf) == BinaryValue(b) + 256 * BinaryValue(a) by {
      assert buf == a + b;
      TwoParts(a, b);
    }
    TwoBytesValue(p1, p2, BinaryValue(buf), BinaryValue(a), BinaryValue(b));
  }

  /** Bytes equal to the parts' values read back as the whole value. */
  lemma FourBytesValue(p1: int, p2: int, p3: int, p4: int, v: int, a: int, b: int, c: int, d: int)
    requires p1 == a && p2 == b && p3 == c && p4 == d
    requires v == d + 256 * (c + 256 * (b + 256 * a))
    ensures LittleEndian([p4, p3, p2, p1]) == v
  {
    LittleEndianFour(p4, p3, p2, p1);
  }

  lemma TwoBytesValue(p1: int, p2: int, v: int, a: int, b: int)
    requires p1 == a && p2 == b
    requires v == b + 256 * a
    ensures LittleEndian([p2, p1]) == v
  {
    LittleEndianTwo(p2, p1);
  }

  /** And for the one part of an 8-character bit string. */
  lemma ByteCut(buf: string)
    requires |buf| == 8 && AllBits(buf)
    ensures LittleEndian([Cut(buf, 0, 8)]) == BinaryValue(buf)
  {
    assert buf[0..8] == buf;
    assert [Cut(buf, 0, 8)][1..] == [];
  }

  // ---------------------------------------------------------------------
  // The code part of the object file
  // ---------------------------------------------------------------------

  /** The format a word's layout belongs to. */
  function LayoutOf(w: Word): CmdType {
    match w
    case RWord(_, _, _, _, _, _) => RFormat
    case IWord(_, _, _, _) => IFormat
    case JWord(_, _, _) => JFormat
  }

  /** The 32 characters writeCommandIntoObjectFile builds for a word: its
      fields in declaration order, each as wide as its bit-field. */
  function WordString(w: Word): (s: string)
    ensures |s| == 32 && AllBits(s)
  {
    match w
    case RWord(op, rs, rt, rd, funct, unused) =>
      BitField(op, 6) + BitField(rs, 5) + BitField(rt, 5) + BitField(rd, 5) + BitField(funct, 5) + BitField(unused, 6)
    case IWord(op, rs, rt, immed) =>
      BitField(op, 6) + BitField(rs, 5) + BitField(rt, 5) + BitField(immed, 16)
    case JWord(op, reg, address) =>
      BitField(op, 6) + BitField(reg, 1) + BitField(address, 25)
  }

  /** The machine word of a layout: opcode in bits 31-26, then each field
      below the one before it; the signed immediate as its 16-bit two's
      complement. */
  function WordValue(w: Word): int {
    match w
    case RWord(op, rs, rt, rd, funct, unused) =>
      op * 0x400_0000 + rs * 0x20_0000 + rt * 0x1_0000 + rd * 0x800 + funct * 0x40 + unused
    case IWord(op, rs, rt, immed) =>
      op * 0x400_0000 + rs * 0x20_0000 + rt * 0x1_0000 + Unsigned(immed, 16)
    case JWord(op, reg, address) =>
      op * 0x400_0000 + reg * 0x200_0000 + address
  }

  /** The bit string of a word whose fields fit reads back as the word. */
  lemma WordStringValue(w: Word)
    requires WordFits(w)
    ensures BinaryValue(WordString(w)) == WordValue(w)
  {
    match w
    case RWord(op, rs, rt, rd, funct, unused) => RWordString(op, rs, rt, rd, funct, unused);
    case IWord(op, rs, rt, immed) => IWordString(op, rs, rt, immed);
    case JWord(op, reg, address) => JWordString(op, reg, address);
  }

  /** A field value that fits its width is read back unchanged. */
  lemma SmallField(x: int, width: nat)
    requires width <= 32 && 0 <= x < Pow2(width)
    ensures BinaryValue(BitField(x, width)) == x
  {
    BitFieldValue(x, width);
  }

  lemma RWordString(op: int, rs: int, rt: int, rd: int, funct: int, unused: int)
    requires WordFits(RWord(op, rs, rt, rd, funct, unused))
    ensures BinaryValue(WordString(RWord(op, rs, rt, rd, funct, unused))) == WordValue(RWord(op, rs, rt, rd, funct, unused))
  {
    Pow2Values();
    var a, b, c, d, e, f := BitField(op, 6), BitField(rs, 5), BitField(rt, 5), BitField(rd, 5), BitField(funct, 5), BitField(unused, 6);
    SmallField(op, 6);
    SmallField(rs, 5);
    SmallField(rt, 5);
    SmallField(rd, 5);
    SmallField(funct, 5);
    SmallField(unused, 6);
    BinaryConcat(a, b);
    BinaryConcat(a + b, c);
    BinaryConcat(a + b + c, d);
    BinaryConcat(a + b + c + d, e);
    BinaryConcat(a + b + c + d + e, f);
  }

  lemma IWordString(op: int, rs: int, rt: int, immed: int)
    requires WordFits(IWord(op, rs, rt, immed))
    ensures BinaryValue(WordString(IWord(op, rs, rt, immed))) == WordValue(IWord(op, rs, rt, immed))
  {
    Pow2Values();
    var a, b, c, d := BitField(op, 6), BitField(rs, 5), BitField(rt, 5), BitField(immed, 16);
    SmallField(op, 6);
    SmallField(rs, 5);
    SmallField(rt, 5);
    BitFieldValue(immed, 16);
    BinaryConcat(a, b);
    BinaryConcat(a + b, c);
    BinaryConcat(a + b + c, d);
  }

  lemma JWordString(op: int, reg: int, address: int)
    requires WordFits(JWord(op, reg, address))
    ensures BinaryValue(WordString(JWord(op, reg, address))) == WordValue(JWord(op, reg, address))
  {
    Pow2Values();
    var a, b, c := BitField(op, 6), BitField(reg, 1), BitField(address, 25);
    SmallField(op, 6);
    SmallField(reg, 1);
    SmallField(address, 25);
    BinaryConcat(a, b);
    BinaryConcat(a + b, c);
  }

  /** One line of the code part: the command's address and four bytes. */
  datatype CodeLine = CodeLine(address: int, bytes: seq<int>)

  /** The string writeCommandIntoObjectFile builds, by the command's type:
      empty for a command of no known type; undefined when the bits are
      missing or of another layout. */
  function CommandString(c: Command): (r: Option<string>)
    ensures r.Some? <==> c.cmdType.None? || (c.bits.Some? && LayoutOf(c.bits.value) == c.cmdType.value)
    ensures r.Some? ==> AllBits(r.value) && |r.value| <= 32
  {
    match c.cmdType
    case None => Some("")
    case Some(t) =>
      if c.bits.Some? && LayoutOf(c.bits.value) == t then Some(WordString(c.bits.value)) else None
  }

  /** writeCommandIntoObjectFile for one command: the string cut into four
      bytes, printed from the last eight characters to the first. */
  function CommandLine(c: Command): (r: Option<CodeLine>)
    ensures r.Some? <==> CommandString(c).Some?
    ensures r.Some? ==> r.value.address == c.address && |r.value.bytes| == 4 && ByteValues(r.value.bytes)
  {
    match CommandString(c)
    case None => None
    case Some(buf) => Some(CodeLine(c.address, WordBytes(buf)))
  }

  /** p4, p3, p2 and p1: the four parts cut from a bit string, the last
      eight characters first. */
  function WordBytes(buf: string): (bs: seq<int>)
    requires AllBits(buf)
    ensures |bs| == 4 && ByteValues(bs)
  {
    Pow2Of8();
    var p1, p2, p3, p4 := Cut(buf, 0, 8), Cut(buf, 8, 8), Cut(buf, 16, 8), Cut(buf, 24, 8);
    [p4, p3, p2, p1]
  }

  /** p2 and p1: the two parts cut from a bit string, the last first. */
  function HalfBytes(buf: string): (bs: seq<int>)
    requires AllBits(buf)
    ensures |bs| == 2 && ByteValues(bs)
  {
    Pow2Of8();
    var p1, p2 := Cut(buf, 0, 8), Cut(buf, 8, 8);
    [p2, p1]
  }

  /** The four bytes of an encoded command are its machine word, least
      significant byte first. */
  lemma CommandLineValue(c: Command)
    requires c.bits.Some? && c.cmdType == Some(LayoutOf(c.bits.value)) && WordFits(c.bits.value)
    ensures CommandLine(c).Some?
    ensures LittleEndian(CommandLine(c).value.bytes) == WordValue(c.bits.value)
  {
    var buf := WordString(c.bits.value);
    assert CommandLine(c).value.bytes == WordBytes(buf) == [Cut(buf, 24, 8), Cut(buf, 16, 8), Cut(buf, 8, 8), Cut(buf, 0, 8)];
    WordCuts(buf);
    WordStringValue(c.bits.value);
  }

  /** The code part: one line per command, in order; undefined as soon as
      one command's line is. */
  function WriteCommands(commands: seq<Command>): (r: Option<seq<CodeLine>>)
    ensures r.Some? <==> forall k :: 0 <= k < |commands| ==> CommandLine(commands[k]).Some?
    ensures r.Some? ==> |r.value| == |commands|
    ensures r.Some? ==> forall k :: 0 <= k < |commands| ==> r.value[k] == CommandLine(commands[k]).value
  {
    MapAll(commands, CommandLine)
  }

  /** f applied to every element, in order; None as soon as one
      application is. */
  function MapAll<A, B>(xs: seq<A>, f: A -> Option<B>): (r: Option<seq<B>>)
    ensures r.Some? <==> forall k :: 0 <= k < |xs| ==> f(xs[k]).Some?
    ensures r.Some? ==> |r.value| == |xs|
    ensures r.Some? ==> forall k :: 0 <= k < |xs| ==> r.value[k] == f(xs[k]).value
  {
    if |xs| == 0 then Some([])
    else
      match f(xs[0])
      case None => None
      case Some(y) =>
        match MapAll(xs[1..], f)
        case None =>
          assert !f(xs[1..][FirstFailure(xs[1..], f)]).Some?;
          None
        case Some(rest) => Some([y] + rest)
  }

  /** The position of an element f fails on. */
  function FirstFailure<A, B>(xs: seq<A>, f: A -> Option<B>): (k: nat)
    requires exists k :: 0 <= k < |xs| && !f(xs[k]).Some?
    ensures k < |xs| && !f(xs[k]).Some?
  {
    if !f(xs[0]).Some? then 0
    else
      assert exists k :: 0 <= k < |xs[1..]| && !f(xs[1..][k]).Some? by {
        var k :| 0 <= k < |xs| && !f(xs[k]).Some?;
        assert xs[1..][k - 1] == xs[k];
      }
      1 + FirstFailure(xs[1..], f)
  }

  // ---------------------------------------------------------------------
  // The data part of the object file
  // ---------------------------------------------------------------------

  /** The bytes writeOrderIntoObjectFile prints for one data item: the
      value as a string of 8, 16 or 32 characters, cut into bytes and
      printed low byte first. */
  function DataBytes(item: DataItem): (bs: seq<int>)
    ensures |bs| == item.size.Bytes() && ByteValues(bs)
  {
    match item.size
    case Byte =>
      var buf := BitField(item.value, 8);
      Pow2Of8();
      var p1 := Cut(buf, 0, 8);
      [p1]
    case HalfWord => HalfBytes(BitField(item.value, 16))
    case FullWord => WordBytes(BitField(item.value, 32))
  }

  /** A data item's bytes are the low 8, 16 or 32 bits of its value, least
      significant byte first. */
  lemma DataBytesValue(item: DataItem)
    ensures LittleEndian(DataBytes(item)) == Unsigned(item.value, 8 * item.size.Bytes())
  {
    match item.size
    case Byte =>
      var buf := BitField(item.value, 8);
      assert DataBytes(item) == [Cut(buf, 0, 8)];
      ByteCut(buf);
      BitFieldValue(item.value, 8);
    case HalfWord =>
      var buf := BitField(item.value, 16);
      assert DataBytes(item) == HalfBytes(buf) == [Cut(buf, 8, 8), Cut(buf, 0, 8)];
      HalfCuts(buf);
      BitFieldValue(item.value, 16);
    case FullWord =>
      var buf := BitField(item.value, 32);
      assert DataBytes(item) == WordBytes(buf) == [Cut(buf, 24, 8), Cut(buf, 16, 8), Cut(buf, 8, 8), Cut(buf, 0, 8)];
      WordCuts(buf);
      BitFieldValue(item.value, 32);
  }


  /** What one fprintf of writeOrderIntoObjectFile prints: a byte opening
      a row (after the row's address), inside it, or closing it (followed
      by a line break). */
  datatype Printed = Opening(address: int, byte: int) | Inner(byte: int) | Closing(byte: int)

  /** The writer's state: the place of the next byte in its row (1 to 4),
      the address of the next row, and what has been printed. */
  datatype Layout = Layout(place: int, count: int, out: seq<Printed>)

  /** One byte, printed by its place in the row. */
  function PrintByte(l: Layout, b: int): (r: Layout)
    ensures 1 <= l.place <= 4 ==> r.place == l.place % 4 + 1 && |r.out| == |l.out| + 1 && r.out[..|l.out|] == l.out
  {
    if l.place == 1 then Layout(2, l.count + 4, l.out + [Opening(l.count, b)])
    else if l.place == 2 || l.place == 3 then Layout(l.place + 1, l.count, l.out + [Inner(b)])
    else if l.place == 4 then Layout(1, l.count, l.out + [Closing(b)])
    else l
  }

  function PrintBytes(l: Layout, bs: seq<int>): Layout
    decreases |bs|
  {
    if |bs| == 0 then l else PrintBytes(PrintByte(l, bs[0]), bs[1..])
  }

  function PrintItems(l: Layout, items: seq<DataItem>): Layout
    decreases |items|
  {
    if |items| == 0 then l else PrintItems(PrintBytes(l, DataBytes(items[0])), items[1..])
  }

  /** writeOrderIntoObjectFile: the rows start at the first item's address
      with the first byte at place 1. */
  function WriteOrders(items: seq<DataItem>): seq<Printed> {
    if |items| == 0 then [] else PrintItems(Layout(1, items[0].address, []), items).out
  }

  /** All the bytes of the data items, in order. */
  function AllBytes(items: seq<DataItem>): seq<int> {
    if |items| == 0 then [] else DataBytes(items[0]) + AllBytes(items[1..])
  }

  /** The reference layout: rows of four bytes at consecutive addresses
      four apart, the last row possibly short and then left open. */
  function Rows(bs: seq<int>, address: int): seq<Printed>
    decreases |bs|
  {
    if |bs| == 0 then []
    else if |bs| == 1 then [Opening(address, bs[0])]
    else if |bs| == 2 then [Opening(address, bs[0]), Inner(bs[1])]
    else if |bs| == 3 then [Opening(address, bs[0]), Inner(bs[1]), Inner(bs[2])]
    else [Opening(address, bs[0]), Inner(bs[1]), Inner(bs[2]), Closing(bs[3])] + Rows(bs[4..], address + 4)
  }

  /** The writer prints exactly the reference rows, whatever the item
      sizes: every data byte in order, a new row every four bytes, and the
      row addresses counting up by four from the first item's address. */
  lemma OrderRows(items: seq<DataItem>)
    requires |items| > 0
    ensures WriteOrders(items) == Rows(AllBytes(items), items[0].address)
  {
    var start := Layout(1, items[0].address, []);
    PrintItemsBytes(start, items);
    PrintBytesRows([], items[0].address, AllBytes(items));
  }

  /** Printing item by item is printing their bytes in one run. */
  lemma {:induction false} PrintItemsBytes(l: Layout, items: seq<DataItem>)
    ensures PrintItems(l, items) == PrintBytes(l, AllBytes(items))
    decreases |items|
  {
    if |items| > 0 {
      PrintItemsBytes(PrintBytes(l, DataBytes(items[0])), items[1..]);
      PrintBytesAppend(l, DataBytes(items[0]), AllBytes(items[1..]));
    }
  }

  lemma {:induction false} PrintBytesAppend(l: Layout, xs: seq<int>, ys: seq<int>)
    ensures PrintBytes(l, xs + ys) == PrintBytes(PrintBytes(l, xs), ys)
    decreases |xs|
  {
    if |xs| == 0 {
      assert xs + ys == ys;
    } else {
      assert (xs + ys)[1..] == xs[1..] + ys;
      PrintBytesAppend(PrintByte(l, xs[0]), xs[1..], ys);
    }
  }

  /** From the start of a row the writer prints the reference rows and
      ends at the place and address after them. */
  lemma {:induction false} PrintBytesRows(out: seq<Printed>, a: int, bs: seq<int>)
    ensures PrintBytes(Layout(1, a, out), bs) == Layout(|bs| % 4 + 1, a + 4 * ((|bs| + 3) / 4), out + Rows(bs, a))
    decreases |bs|
  {
    if |bs| >= 4 {
      var row := [Opening(a, bs[0]), Inner(bs[1]), Inner(bs[2]), Closing(bs[3])];
      assert PrintBytes(Layout(1, a, out), bs) == PrintBytes(Layout(1, a + 4, out + row), bs[4..]) by {
        FourBytes(out, a, bs);
      }
      PrintBytesRows(out + row, a + 4, bs[4..]);
      assert out + row + Rows(bs[4..], a + 4) == out + Rows(bs, a);
    } else {
      ShortRow(out, a, bs);
    }
  }

  /** A full row: four bytes from place 1 back to place 1. */
  lemma FourBytes(out: seq<Printed>, a: int, bs: seq<int>)
    requires |bs| >= 4
    ensures PrintBytes(Layout(1, a, out), bs) ==
      PrintBytes(Layout(1, a + 4, out + [Opening(a, bs[0]), Inner(bs[1]), Inner(bs[2]), Closing(bs[3])]), bs[4..])
  {
    var l1 := PrintByte(Layout(1, a, out), bs[0]);
    var l2 := PrintByte(l1, bs[1]);
    var l3 := PrintByte(l2, bs[2]);
    var l4 := PrintByte(l3, bs[3]);
    assert PrintBytes(Layout(1, a, out), bs) == PrintBytes(l4, bs[4..]) by {
      PrintStep(Layout(1, a, out), bs);
      PrintStep(l1, bs[1..]);
      PrintStep(l2, bs[2..]);
      PrintStep(l3, bs[3..]);
    }
    FullRow(out, a, bs[0], bs[1], bs[2], bs[3]);
  }

  lemma PrintStep(l: Layout, bs: seq<int>)
    requires |bs| > 0
    ensures PrintBytes(l, bs) == PrintBytes(PrintByte(l, bs[0]), bs[1..])
  {
  }

  lemma FullRow(out: seq<Printed>, a: int, b0: int, b1: int, b2: int, b3: int)
    ensures PrintByte(PrintByte(PrintByte(PrintByte(Layout(1, a, out), b0), b1), b2), b3) ==
      Layout(1, a + 4, out + [Opening(a, b0), Inner(b1), Inner(b2), Closing(b3)])
  {
    assert out + [Opening(a, b0)] + [Inner(b1)] + [Inner(b2)] + [Closing(b3)] ==
      out + [Opening(a, b0), Inner(b1), Inner(b2), Closing(b3)];
  }


  /** Fewer than four bytes: an open row, or nothing. */
  lemma ShortRow(out: seq<Printed>, a: int, bs: seq<int>)
    requires |bs| < 4
    ensures PrintBytes(Layout(1, a, out), bs) == Layout(|bs| % 4 + 1, a + 4 * ((|bs| + 3) / 4), out + Rows(bs, a))
  {
    if |bs| == 0 {
      assert out + Rows(bs, a) == out;
    } else {
      var l1 := PrintByte(Layout(1, a, out), bs[0]);
      assert PrintBytes(Layout(1, a, out), bs) == PrintBytes(l1, bs[1..]);
      if |bs| == 1 {
        assert PrintBytes(l1, bs[1..]) == l1;
      } else {
        var l2 := PrintByte(l1, bs[1]);
        assert PrintBytes(l1, bs[1..]) == PrintBytes(l2, bs[1..][1..]);
        if |bs| == 2 {
          assert PrintBytes(l2, bs[1..][1..]) == l2;
        } else {
          var l3 := PrintByte(l2, bs[2]);
          assert bs[1..][1..][0] == bs[2];
          assert PrintBytes(l2, bs[1..][1..]) == PrintBytes(l3, bs[1..][1..][1..]);
          assert PrintBytes(l3, bs[1..][1..][1..]) == l3;
        }
      }
    }
  }


  // ---------------------------------------------------------------------
  // The three files
  // ---------------------------------------------------------------------

  /** What the object file holds: the header's code and data lengths, the
      code lines and the data rows. */
  datatype ObjectFile = ObjectFile(codeLength: int, dataLength: int, code: seq<CodeLine>, data: seq<Printed>)

  /** createObjectFile: the header ICF - 100 and IDF - ICF, then the code
      part, then the data part. */
  function CreateObjectFile(image: Image): (r: Option<ObjectFile>)
    ensures r.Some? <==> WriteCommands(image.commands).Some?
    ensures r.Some? ==> r.value.codeLength + CodeStart == image.icf && r.value.dataLength + image.icf == image.dcf
  {
    match WriteCommands(image.commands)
    case None => None
    case Some(code) => Some(ObjectFile(image.icf - 100, image.dcf - image.icf, code, WriteOrders(image.picture)))
  }

  /** For an assembled file the header counts four bytes per command and
      the data counter, and the code lines carry the addresses 100, 104,
      ... in order. */
  lemma ObjectFileOfAssembly(text: string)
    requires Assemble(text).Some? && Assemble(text).value.Encoded?
    requires CreateObjectFile(Assemble(text).value.image).Some?
    ensures var image := Assemble(text).value.image;
      var f := CreateObjectFile(image).value;
      && f.codeLength == 4 * |image.commands| == 4 * |f.code|
      && f.dataLength >= 0
      && forall k :: 0 <= k < |f.code| ==> f.code[k].address == CodeStart + 4 * k
  {
    CodeLineAddresses(Assemble(text).value.image);
  }

  /** Each code line carries the address of its command. */
  lemma CodeLineAddresses(image: Image)
    requires CreateObjectFile(image).Some?
    ensures var f := CreateObjectFile(image).value;
      && |f.code| == |image.commands|
      && forall k :: 0 <= k < |f.code| ==> f.code[k].address == image.commands[k].address
  {
    var f := CreateObjectFile(image).value;
    assert f.code == WriteCommands(image.commands).value;
    forall k | 0 <= k < |f.code|
      ensures f.code[k].address == image.commands[k].address
    {
      assert f.code[k] == CommandLine(image.commands[k]).value;
    }
  }

  /** createEntryFile: the name and value of every entry label, in table
      order. */
  function EntryLines(labels: seq<Label>): seq<(string, int)> {
    if |labels| == 0 then []
    else (if labels[0].attr.isEntry then [(labels[0].symbol, labels[0].value)] else []) + EntryLines(labels[1..])
  }

  /** The entry file is removed when no label is an entry. */
  function EntryFile(labels: seq<Label>): (r: Option<seq<(string, int)>>)
    ensures r.Some? <==> exists j :: 0 <= j < |labels| && labels[j].attr.isEntry
    ensures r.Some? ==> r.value == EntryLines(labels)
  {
    EntryLinesExact(labels);
    if exists j :: 0 <= j < |labels| && labels[j].attr.isEntry then Some(EntryLines(labels)) else None
  }

  /** A line is in the entry listing exactly when an entry label has that
      name and value. */
  lemma {:induction false} EntryLinesExact(labels: seq<Label>)
    ensures forall s, v :: (s, v) in EntryLines(labels) <==>
      exists j :: 0 <= j < |labels| && labels[j].attr.isEntry && labels[j].symbol == s && labels[j].value == v
  {
    if |labels| > 0 {
      EntryLinesExact(labels[1..]);
      forall s, v
        ensures (s, v) in EntryLines(labels) <==>
          exists j :: 0 <= j < |labels| && labels[j].attr.isEntry && labels[j].symbol == s && labels[j].value == v
      {
        if (s, v) in EntryLines(labels[1..]) {
          var j :| 0 <= j < |labels[1..]| && labels[1..][j].attr.isEntry && labels[1..][j].symbol == s && labels[1..][j].value == v;
          assert labels[j + 1] == labels[1..][j];
        }
        if exists j :: 0 <= j < |labels| && labels[j].attr.isEntry && labels[j].symbol == s && labels[j].value == v {
          var j :| 0 <= j < |labels| && labels[j].attr.isEntry && labels[j].symbol == s && labels[j].value == v;
          if j > 0 {
            assert labels[1..][j - 1] == labels[j];
          }
        }
      }
    }
  }

  /** createExternalFile: for every external label, in table order, one
      line per recorded appearance. */
  function ExternLines(labels: seq<Label>): seq<(string, int)> {
    if |labels| == 0 then []
    else
      var head := if labels[0].attr.isExternal then Appearances(labels[0].symbol, labels[0].appearances) else [];
      head + ExternLines(labels[1..])
  }

  function Appearances(symbol: string, addresses: seq<int>): (r: seq<(string, int)>)
    ensures |r| == |addresses|
    ensures forall i :: 0 <= i < |r| ==> r[i] == (symbol, addresses[i])
  {
    if |addresses| == 0 then [] else [(symbol, addresses[0])] + Appearances(symbol, addresses[1..])
  }

  /** The external file is removed only when no label is external: an
      external label that is never used leaves the file in place, empty of
      its lines. */
  function ExternalFile(labels: seq<Label>): (r: Option<seq<(string, int)>>)
    ensures r.Some? <==> exists j :: 0 <= j < |labels| && labels[j].attr.isExternal
    ensures r.Some? ==> r.value == ExternLines(labels)
  {
    if exists j :: 0 <= j < |labels| && labels[j].attr.isExternal then Some(ExternLines(labels)) else None
  }

  /** A line is in the external listing exactly when an external label has
      that name and that address among its appearances. */
  lemma {:induction false} ExternLinesExact(labels: seq<Label>)
    ensures forall s, a :: (s, a) in ExternLines(labels) <==>
      exists j :: 0 <= j < |labels| && labels[j].attr.isExternal && labels[j].symbol == s && a in labels[j].appearances
  {
    if |labels| > 0 {
      ExternLinesExact(labels[1..]);
      var head := if labels[0].attr.isExternal then Appearances(labels[0].symbol, labels[0].appearances) else [];
      assert ExternLines(labels) == head + ExternLines(labels[1..]);
      forall s, a
        ensures (s, a) in ExternLines(labels) <==>
          exists j :: 0 <= j < |labels| && labels[j].attr.isExternal && labels[j].symbol == s && a in labels[j].appearances
      {
        if (s, a) in head {
          var i :| 0 <= i < |head| && head[i] == (s, a);
          assert labels[0].appearances[i] == a;
        }
        if (s, a) in ExternLines(labels[1..]) {
          var j :| 0 <= j < |labels[1..]| && labels[1..][j].attr.isExternal && labels[1..][j].symbol == s && a in labels[1..][j].appearances;
          assert labels[j + 1] == labels[1..][j];
        }
        if exists j :: 0 <= j < |labels| && labels[j].attr.isExternal && labels[j].symbol == s && a in labels[j].appearances {
          var j :| 0 <= j < |labels| && labels[j].attr.isExternal && labels[j].symbol == s && a in labels[j].appearances;
          if j > 0 {
            assert labels[1..][j - 1] == labels[j];
          } else {
            var i :| 0 <= i < |labels[0].appearances| && labels[0].appearances[i] == a;
            assert head[i] == (s, a);
          }
        }
      }
    }
  }

  // ---------------------------------------------------------------------
  // File names
  // ---------------------------------------------------------------------

  /** changeFileName: the name without its last three characters, then the
      extension. On a name shorter than three characters the length
      arithmetic wraps and the copy runs past the buffer: undefined. */
  function ChangeFileName(name: string, ext: string): (r: Option<string>)
    ensures r.Some? <==> |name| >= 3
  {
    if |name| < 3 then None else Some(name[..|name| - 3] + ext)
  }

  /** isAsFile: the last three characters are ".as". On a name shorter
      than three characters the pointer falls before the string:
      undefined. */
  function IsAsFile(filename: string): (r: Option<Boolean>)
    ensures r.Some? <==> |filename| >= 3
  {
    if |filename| < 3 then None
    else if filename[|filename| - 3..] == ".as" then Some(True) else Some(False)
  }

  /** The .as files are exactly the names that end in ".as", and the output
      files of stem.as are stem followed by each extension; changing a
      three-character extension back to ".as" restores the name. */
  lemma AsFileNames(stem: string, ext: string)
    ensures IsAsFile(stem + ".as") == Some(True)
    ensures ChangeFileName(stem + ".as", ext) == Some(stem + ext)
    ensures |ext| == 3 ==> ChangeFileName(stem + ext, ".as") == Some(stem + ".as")
  {
    assert (stem + ".as")[..|stem|] == stem;
    assert (stem + ".as")[|stem|..] == ".as";
    assert (stem + ext)[..|stem + ext| - 3] == stem <== |ext| == 3;
  }

  /** isAsFile is true exactly on the names stem + ".as". */
  lemma IsAsFileExact(filename: string)
    ensures IsAsFile(filename) == Some(True) <==> exists stem: string :: filename == stem + ".as"
  {
    if IsAsFile(filename) == Some(True) {
      var stem := filename[..|filename| - 3];
      assert filename == stem + ".as";
    }
    if exists stem: string :: filename == stem + ".as" {
      var stem: string :| filename == stem + ".as";
      AsFileNames(stem, ".ob");
    }
  }

  // ---------------------------------------------------------------------
  // Arithmetic
  // ---------------------------------------------------------------------

  /** Euclidean division is determined by its quotient-remainder pair. */
  lemma DivUnique(x: int, m: int, q: int, r: int)
    requires m > 0 && x == q * m + r && 0 <= r < m
    ensures x / m == q && x % m == r
  {
    var q0, r0 := x / m, x % m;
    assert x == q0 * m + r0;
    assert (q - q0) * m == r0 - r;
    MultipleInOpenRange(q - q0, m);
  }

  lemma HalfMod(u: nat, m: int)
    requires m > 0
    ensures 2 * ((u / 2) % m) + u % 2 == u % (2 * m)
  {
    var q := u / 2;
    assert q == (q / m) * m + q % m;
    assert u == (q / m) * (2 * m) + (2 * (q % m) + u % 2);
    DivUnique(u, 2 * m, q / m, 2 * (q % m) + u % 2);
  }

  lemma DivDiv(u: nat, a: int, b: int)
    requires a > 0 && b > 0
    ensures u / (a * b) == (u / a) / b
  {
    var q1, r1 := u / a, u % a;
    var q2, r2 := q1 / b, q1 % b;
    assert u == q1 * a + r1;
    assert q1 == q2 * b + r2;
    assert q1 * a == q2 * (a * b) + r2 * a by {
      MulDistributes(q2 * b, r2, a);
      MulAssociates(q2, b, a);
    }
    assert r2 * a + r1 < a * b by {
      MulDistributes(b - 1, 1, a);
      MulMonotone(r2, b - 1, a);
    }
    DivUnique(u, a * b, q2, r2 * a + r1);
  }

  lemma MulDistributes(x: int, y: int, z: int)
    ensures (x + y) * z == x * z + y * z
  {
  }

  lemma MulAssociates(x: int, y: int, z: int)
    ensures (x * y) * z == x * (z * y)
  {
  }

  lemma MulMonotone(x: int, y: int, z: int)
    requires x <= y && z >= 0
    ensures x * z <= y * z
  {
    MulDistributes(y - x, x, z);
  }


  lemma ModOfMod(x: int, a: int, b: int)
    requires a > 0 && b > 0
    ensures (x % (a * b)) % a == x % a
  {
    var k, r := x / (a * b), x % (a * b);
    assert x == k * (a * b) + r;
    assert r == (r / a) * a + r % a;
    assert x == (k * b + r / a) * a + r % a;
    DivUnique(x, a, k * b + r / a, r % a);
  }

  lemma {:induction false} Pow2Add(m: nat, n: nat)
    ensures Pow2(m + n) == Pow2(m) * Pow2(n)
  {
    if n > 0 {
      Pow2Add(m, n - 1);
      assert Pow2(m + n) == 2 * Pow2(m + n - 1);
    }
  }

  lemma {:induction false} Pow2Monotone(m: nat, n: nat)
    requires m <= n
    ensures Pow2(m) <= Pow2(n)
  {
    if m < n {
      Pow2Monotone(m, n - 1);
    }
  }
}
