/** The fixed tables of constants.c: register spellings, mnemonics with their
    opcodes and functs, the directive names, and the mnemonic sub-families the
    validator dispatches on. */
module Constants {
  import opened CLib

  const RegisterNames: seq<string> := [
    "$0", "$1", "$2", "$3", "$4", "$5", "$6", "$7",
    "$8", "$9", "$10", "$11", "$12", "$13", "$14",
    "$15", "$16", "$17", "$18", "$19", "$20", "$21",
    "$22", "$23", "$24", "$25", "$26", "$27", "$28",
    "$29", "$30", "$31"]

  const CommandsTable: seq<string> := [
    "add", "sub", "and", "or", "nor", "move", "mvhi", "mvlo",
    "addi", "subi", "andi", "ori", "nori", "bne", "beq", "blt",
    "bgt", "lb", "sb", "lw", "sw", "lh", "sh", "jmp", "la", "call", "stop"]

  /** opcodes[i] belongs to CommandsTable[i]. */
  const Opcodes: seq<int> := [
    0, 0, 0, 0, 0, 1, 1, 1, 10,
    11, 12, 13, 14, 15, 16, 17, 18, 19,
    20, 21, 22, 23, 24, 30, 31, 32, 63]

  /** functs[i] belongs to CommandsTable[i]; only the eight R mnemonics have one. */
  const Functs: seq<int> := [1, 2, 3, 4, 5, 1, 2, 3]

  /** The directives the validator accepts (no ".dd"). */
  const Directives: seq<string> := [".dh", ".dw", ".db", ".asciz", ".entry", ".extern"]

  const RACmd: seq<string> := ["add", "sub", "and", "or", "nor"]
  const RMCmd: seq<string> := ["move", "mvhi", "mvlo"]
  const IACmd: seq<string> := ["addi", "subi", "andi", "ori", "nori", "lb", "sb", "sw", "lw", "lh", "sh"]
  const IBCmd: seq<string> := ["bne", "beq", "blt", "bgt"]
  const JJCmd: seq<string> := ["jmp"]
  const JCmd: seq<string> := ["la", "call"]
  const SCmd: seq<string> := ["stop"]

  /** Register i is spelled '$' followed by i in decimal. */
  lemma RegisterNamesAreDecimal()
    ensures |RegisterNames| == 32
    ensures forall i :: 0 <= i < 32 ==> RegisterNames[i] == "$" + DecimalString(i)
  {
    OneDigitRegisters();
    TwoDigitRegisters();
  }

  lemma OneDigitRegisters()
    ensures forall i :: 0 <= i < 10 ==> RegisterNames[i] == "$" + DecimalString(i)
  {
    forall i | 0 <= i < 10
      ensures RegisterNames[i] == "$" + DecimalString(i)
    {
      assert DecimalString(i) == [DigitChar(i)];
    }
  }

  lemma TwoDigitRegisters()
    ensures forall i :: 10 <= i < 32 ==> RegisterNames[i] == "$" + DecimalString(i)
  {
    forall i | 10 <= i < 32
      ensures RegisterNames[i] == "$" + DecimalString(i)
    {
      TwoDigits(i);
      if i < 20 {
        TeenRegister(i);
      } else if i < 30 {
        TwentiesRegister(i);
      }
    }
  }

  lemma TwoDigits(i: nat)
    requires 10 <= i < 100
    ensures DecimalString(i) == [DigitChar(i / 10), DigitChar(i % 10)]
  {
  }

  lemma TeenRegister(i: nat)
    requires 10 <= i < 20
    ensures RegisterNames[i] == ['$', DigitChar(1), DigitChar(i - 10)]
  {
  }

  lemma TwentiesRegister(i: nat)
    requires 20 <= i < 30
    ensures RegisterNames[i] == ['$', DigitChar(2), DigitChar(i - 20)]
  {
  }

  /** The opcode table lines up with the mnemonic table and every opcode
      fits the 6-bit field. */
  lemma OpcodeTable()
    ensures |Opcodes| == |CommandsTable| == 27
    ensures forall i :: 0 <= i < 5 ==> Opcodes[i] == 0
    ensures forall i :: 5 <= i < 8 ==> Opcodes[i] == 1
    ensures forall i :: 8 <= i < 23 ==> Opcodes[i] == i + 2
    ensures Opcodes[23] == 30 && Opcodes[24] == 31 && Opcodes[25] == 32 && Opcodes[26] == 63
    ensures forall i :: 0 <= i < 27 ==> 0 <= Opcodes[i] < Pow2(6)
  {
    assert Pow2(6) == 64;
  }

  /** The funct table covers exactly the eight R mnemonics and fits 5 bits. */
  lemma FunctTable()
    ensures |Functs| == 8
    ensures CommandsTable[..8] == RACmd + RMCmd
    ensures forall i :: 0 <= i < 5 ==> Functs[i] == i + 1
    ensures forall i :: 5 <= i < 8 ==> Functs[i] == i - 4
    ensures forall i :: 0 <= i < 8 ==> 0 <= Functs[i] < Pow2(5)
  {
    assert Pow2(5) == 32;
  }

  /** The seven sub-families are pairwise disjoint and together are exactly
      the 27 mnemonics. */
  lemma SubFamiliesPartitionCommands()
    ensures |RACmd| + |RMCmd| + |IACmd| + |IBCmd| + |JJCmd| + |JCmd| + |SCmd| == 27
    ensures var families := [RACmd, RMCmd, IACmd, IBCmd, JJCmd, JCmd, SCmd];
      forall a, b :: 0 <= a < b < 7 ==> forall x :: x in families[a] ==> x !in families[b]
    ensures forall x :: x in CommandsTable <==>
      x in RACmd || x in RMCmd || x in IACmd || x in IBCmd || x in JJCmd || x in JCmd || x in SCmd
  {
  }

  lemma DirectiveTable()
    ensures forall x :: x in Directives <==>
      x == ".dh" || x == ".dw" || x == ".db" || x == ".asciz" || x == ".entry" || x == ".extern"
    ensures ".dd" !in Directives
  {
  }

  /** jmp, la and call: table positions 23..25, opcodes 30..32. */
  lemma JumpEntries(k: nat)
    requires 23 <= k < 26
    ensures Opcodes[k] == k + 7 && CommandsTable[k] in {"jmp", "la", "call"}
  {
  }
}
