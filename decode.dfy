/** The text front end: splitting a line into whitespace-separated words,
    the decimal number syntax of `usize` and `i32`, the mnemonic table,
    `parse_instruction`, the assembly of a program from its lines, and
    `parse_dimensions` ("4x4" style sizes). Every function is total; a
    parse that the machine reports by ending the process is `None` here. */
module Decode {
  import opened Int32
  import opened Isa

  datatype Option<T> = None | Some(value: T)

  /** The largest `usize` on a 64-bit target. */
  const USIZE_MAX: nat := 0xFFFF_FFFF_FFFF_FFFF

  /** Unicode White_Space, the set `split_whitespace` separates on. */
  predicate IsWhitespace(c: char) {
    var n := c as int;
    (0x09 <= n <= 0x0D) || n == 0x20 || n == 0x85 || n == 0xA0 || n == 0x1680
    || (0x2000 <= n <= 0x200A) || n == 0x2028 || n == 0x2029 || n == 0x202F
    || n == 0x205F || n == 0x3000
  }

  /** A word: non-empty and free of whitespace. */
  predicate IsWord(w: string) {
    w != [] && forall i | 0 <= i < |w| :: !IsWhitespace(w[i])
  }

  /** The length of the word at the front of s. */
  function WordLength(s: string): (n: nat)
    ensures n <= |s|
    ensures forall i | 0 <= i < n :: !IsWhitespace(s[i])
    ensures n == |s| || IsWhitespace(s[n])
  {
    if s == [] || IsWhitespace(s[0]) then 0 else 1 + WordLength(s[1..])
  }

  /** `str::split_whitespace`: the maximal non-whitespace runs of s, in order. */
  function SplitWhitespace(s: string): (words: seq<string>)
    ensures forall i | 0 <= i < |words| :: IsWord(words[i])
    decreases |s|
  {
    if s == [] then []
    else if IsWhitespace(s[0]) then SplitWhitespace(s[1..])
    else
      var n := WordLength(s);
      [s[..n]] + SplitWhitespace(s[n..])
  }

  /** Words separated by single spaces. */
  function JoinWords(words: seq<string>): string {
    if words == [] then []
    else if |words| == 1 then words[0]
    else words[0] + " " + JoinWords(words[1..])
  }

  lemma WordLengthOfWord(w: string, rest: string)
    requires IsWord(w) && (rest == [] || IsWhitespace(rest[0]))
    ensures WordLength(w + rest) == |w|
    decreases |w|
  {
    if |w| > 1 {
      assert (w + rest)[1..] == w[1..] + rest;
      WordLengthOfWord(w[1..], rest);
    }
  }

  /** Splitting words joined by spaces gives the words back. */
  lemma {:induction false} SplitJoinWords(words: seq<string>)
    requires forall i | 0 <= i < |words| :: IsWord(words[i])
    ensures SplitWhitespace(JoinWords(words)) == words
  {
    if |words| == 1 {
      var w := words[0];
      WordLengthOfWord(w, []);
      assert w + [] == w;
      assert w[|w|..] == [];
    } else if |words| > 1 {
      var w, rest := words[0], " " + JoinWords(words[1..]);
      WordLengthOfWord(w, rest);
      assert JoinWords(words) == w + rest;
      assert (w + rest)[..|w|] == w;
      assert (w + rest)[|w|..] == rest;
      assert rest[1..] == JoinWords(words[1..]);
      SplitJoinWords(words[1..]);
    }
  }

  predicate IsDigit(c: char) {
    '0' <= c <= '9'
  }

  predicate AllDigits(s: string) {
    forall i | 0 <= i < |s| :: IsDigit(s[i])
  }

  /** The value of a run of decimal digits. */
  function DigitsValue(s: string): nat
    requires AllDigits(s)
  {
    if s == [] then 0
    else DigitsValue(s[..|s| - 1]) * 10 + (s[|s| - 1] as int - '0' as int)
  }

  /** The text of `usize::from_str`: an optional `+` then one or more digits,
      whose value fits in 64 bits. A `-` is not accepted. */
  function ParseUsize(s: string): (r: Option<nat>)
    ensures r.Some? ==> r.value <= USIZE_MAX
    ensures s == [] || s == "+" || s[0] == '-' ==> r.None?
  {
    var digits := if s != [] && s[0] == '+' then s[1..] else s;
    if digits != [] && AllDigits(digits) && DigitsValue(digits) <= USIZE_MAX
    then Some(DigitsValue(digits))
    else None
  }

  /** The text of `i32::from_str`: an optional `+` or `-` then one or more
      digits, whose signed value fits in `i32`. */
  function ParseI32(s: string): (r: Option<i32>)
    ensures s == [] || s == "+" || s == "-" ==> r.None?
    ensures r.Some? && s[0] == '-' ==> r.value <= 0
    ensures r.Some? && s[0] != '-' ==> r.value >= 0
  {
    var negative := s != [] && s[0] == '-';
    var digits := if s != [] && (s[0] == '+' || s[0] == '-') then s[1..] else s;
    if digits == [] || !AllDigits(digits) then None
    else
      var v := if negative then -(DigitsValue(digits) as int) else DigitsValue(digits) as int;
      if InRange(v) then Some(v) else None
  }

  function DigitChar(d: nat): (c: char)
    requires d < 10
    ensures IsDigit(c) && c as int - '0' as int == d
  {
    ('0' as int + d) as char
  }

  /** The decimal text of n, without leading zeros. */
  function NatToString(n: nat): (s: string)
    ensures s != [] && AllDigits(s)
  {
    if n < 10 then [DigitChar(n)] else NatToString(n / 10) + [DigitChar(n % 10)]
  }

  /** The decimal text of x, with `-` for a negative value. */
  function IntToString(x: int): string {
    if x < 0 then "-" + NatToString(-x) else NatToString(x)
  }

  lemma {:induction false} DigitsOfDecimal(n: nat)
    ensures DigitsValue(NatToString(n)) == n
  {
    if n >= 10 {
      var s := NatToString(n);
      assert s[..|s| - 1] == NatToString(n / 10);
      DigitsOfDecimal(n / 10);
    }
  }

  /** Every `usize` reads back from its decimal text, with or without `+`. */
  lemma ParseUsizeOfDecimal(n: nat)
    requires n <= USIZE_MAX
    ensures ParseUsize(NatToString(n)) == Some(n)
    ensures ParseUsize("+" + NatToString(n)) == Some(n)
  {
    DigitsOfDecimal(n);
    assert ("+" + NatToString(n))[1..] == NatToString(n);
  }

  /** Every `i32` reads back from its decimal text. */
  lemma ParseI32OfDecimal(x: i32)
    ensures ParseI32(IntToString(x)) == Some(x)
  {
    var s := IntToString(x);
    if x < 0 {
      var digits := NatToString(-(x as int));
      DigitsOfDecimal(-(x as int));
      assert s == "-" + digits && s[0] == '-';
      assert s[1..] == digits;
    } else {
      DigitsOfDecimal(x);
      assert IsDigit(s[0]);
    }
  }

  /** A digit string too long for 64 bits does not parse. */
  lemma ParseUsizeRejectsLarge(n: nat)
    requires n > USIZE_MAX
    ensures ParseUsize(NatToString(n)).None?
  {
    DigitsOfDecimal(n);
  }

  /** The mnemonic table of `parse_instruction`; NOP has no entry. */
  function OpcodeOf(mnemonic: string): (r: Option<Opcode>)
  {
    match mnemonic
    case "ADD" => Some(Add)
    case "SUB" => Some(Sub)
    case "MUL" => Some(Mul)
    case "DIV" => Some(Div)
    case "STORE" => Some(Store)
    case "LOAD" => Some(Load)
    case "LI" => Some(LoadImmediate)
    case "PUSH" => Some(Push)
    case "POP" => Some(Pop)
    case "JMP" => Some(Jmp)
    case "JZ" => Some(Jz)
    case "JNZ" => Some(Jnz)
    case "MOV" => Some(Mov)
    case "JE" => Some(Je)
    case "JNE" => Some(Jne)
    case "AND" => Some(And)
    case "OR" => Some(Or)
    case "XOR" => Some(Xor)
    case "NOT" => Some(Not)
    case "SHL" => Some(Shl)
    case "SHR" => Some(Shr)
    case "CMP" => Some(Cmp)
    case "TEST" => Some(Test)
    case "B" => Some(B)
    case "BZ" => Some(Bz)
    case "BNZ" => Some(Bnz)
    case "NEG" => Some(Neg)
    case "ABS" => Some(Abs)
    case "MOD" => Some(Mod)
    case "INC" => Some(Inc)
    case "DEC" => Some(Dec)
    case "HALT" => Some(Halt)
    case _ => None
  }

  /** The upper-case name of an opcode. */
  function Mnemonic(op: Opcode): (m: string)
    ensures IsWord(m) && m[0] != '/'
  {
    match op
    case Nop => "NOP"
    case Add => "ADD"
    case Sub => "SUB"
    case Mul => "MUL"
    case Div => "DIV"
    case Store => "STORE"
    case Load => "LOAD"
    case LoadImmediate => "LI"
    case Push => "PUSH"
    case Pop => "POP"
    case Jmp => "JMP"
    case Jz => "JZ"
    case Jnz => "JNZ"
    case Mov => "MOV"
    case Je => "JE"
    case Jne => "JNE"
    case And => "AND"
    case Or => "OR"
    case Xor => "XOR"
    case Not => "NOT"
    case Shl => "SHL"
    case Shr => "SHR"
    case Cmp => "CMP"
    case Test => "TEST"
    case B => "B"
    case Bz => "BZ"
    case Bnz => "BNZ"
    case Neg => "NEG"
    case Abs => "ABS"
    case Mod => "MOD"
    case Inc => "INC"
    case Dec => "DEC"
    case Halt => "HALT"
  }

  /** Every opcode but NOP is found under its own mnemonic. */
  lemma MnemonicTable(op: Opcode)
    ensures op == Nop ==> OpcodeOf(Mnemonic(op)).None?
    ensures op != Nop ==> OpcodeOf(Mnemonic(op)) == Some(op)
  {
    if op in {Add, Sub, Mul, Div, Store, Load, LoadImmediate, Push} {
      MnemonicRowsA(op);
    } else if op in {Pop, Jmp, Jz, Jnz, Mov, Je, Jne, And} {
      MnemonicRowsB(op);
    } else if op in {Or, Xor, Not, Shl, Shr, Cmp, Test, B} {
      MnemonicRowsC(op);
    } else if op in {Bz, Bnz, Neg, Abs, Mod, Inc, Dec, Halt} {
      MnemonicRowsD(op);
    }
  }

  lemma MnemonicRowsA(op: Opcode)
    requires op in {Add, Sub, Mul, Div, Store, Load, LoadImmediate, Push}
    ensures OpcodeOf(Mnemonic(op)) == Some(op)
  {
  }

  lemma MnemonicRowsB(op: Opcode)
    requires op in {Pop, Jmp, Jz, Jnz, Mov, Je, Jne, And}
    ensures OpcodeOf(Mnemonic(op)) == Some(op)
  {
  }

  lemma MnemonicRowsC(op: Opcode)
    requires op in {Or, Xor, Not, Shl, Shr, Cmp, Test, B}
    ensures OpcodeOf(Mnemonic(op)) == Some(op)
  {
  }

  lemma MnemonicRowsD(op: Opcode)
    requires op in {Bz, Bnz, Neg, Abs, Mod, Inc, Dec, Halt}
    ensures OpcodeOf(Mnemonic(op)) == Some(op)
  {
  }

  predicate StartsWith(s: string, prefix: string) {
    |prefix| <= |s| && s[..|prefix|] == prefix
  }

  /** The instruction a blank or comment line becomes. */
  const NopInstruction := Instruction(Nop, 0, 0, 0, 0, 0)

  /** The first word marks the line as blank or a comment. The test for a
      word starting with "NOP" and a newline is part of it, although no word
      contains a newline. */
  predicate IsFiller(words: seq<string>) {
    words == [] || StartsWith(words[0], "//") || StartsWith(words[0], "NOP\n")
  }

  /** Operand i as a `usize`; a missing or unreadable operand is 0. */
  function UsizeField(words: seq<string>, i: nat): (v: nat)
    ensures v <= USIZE_MAX
  {
    if i < |words| then
      match ParseUsize(words[i])
      case Some(n) => n
      case None => 0
    else 0
  }

  /** Operand i as an `i32`; a missing or unreadable operand is 0. */
  function ImmediateField(words: seq<string>, i: nat): i32 {
    if i < |words| then
      match ParseI32(words[i])
      case Some(n) => n
      case None => 0
    else 0
  }

  /** `parse_instruction`: a blank or comment line becomes NOP, an unknown
      mnemonic gives None, and otherwise the words after the mnemonic fill
      reg1, reg2, reg3, addr and immediate in that order. */
  function ParseInstruction(line: string): (r: Option<Instruction>)
    ensures r.Some? ==>
      r.value.reg1 <= USIZE_MAX && r.value.reg2 <= USIZE_MAX &&
      r.value.reg3 <= USIZE_MAX && r.value.addr <= USIZE_MAX
  {
    var words := SplitWhitespace(line);
    if IsFiller(words) then Some(NopInstruction)
    else
      match OpcodeOf(words[0])
      case None => None
      case Some(op) =>
        Some(Instruction(op, UsizeField(words, 1), UsizeField(words, 2), UsizeField(words, 3),
                         UsizeField(words, 4), ImmediateField(words, 5)))
  }

  /** The newline test never fires: a word has no whitespace. */
  lemma NopNewlineNeverMatches(words: seq<string>)
    requires forall i | 0 <= i < |words| :: IsWord(words[i])
    ensures IsFiller(words) <==> words == [] || StartsWith(words[0], "//")
  {
    if words != [] && |words[0]| >= 4 {
      var w := words[0];
      assert !IsWhitespace(w[3]);
      assert w[..4][3] == w[3];
    }
  }

  /** ParseInstruction gives None exactly for a line whose first word is
      neither a comment marker nor a known mnemonic; the word "NOP" is such a
      word, so a line reading "NOP" is dropped. */
  lemma ParseInstructionNone(line: string)
    ensures var words := SplitWhitespace(line);
      ParseInstruction(line).None? <==>
        words != [] && !StartsWith(words[0], "//") && OpcodeOf(words[0]).None?
    ensures SplitWhitespace(line) == ["NOP"] ==> ParseInstruction(line).None?
  {
    NopNewlineNeverMatches(SplitWhitespace(line));
  }

  /** A blank line or one whose first word starts with "//" becomes NOP with
      every operand 0. */
  lemma FillerIsNop(line: string)
    requires var words := SplitWhitespace(line); words == [] || StartsWith(words[0], "//")
    ensures ParseInstruction(line) == Some(NopInstruction)
  {
  }

  /** A mnemonic alone gives every operand 0. */
  lemma BareMnemonic(op: Opcode)
    requires op != Nop
    ensures ParseInstruction(Mnemonic(op)) == Some(Instruction(op, 0, 0, 0, 0, 0))
  {
    MnemonicTable(op);
    BareName(Mnemonic(op), op);
  }

  lemma BareName(m: string, op: Opcode)
    requires IsWord(m) && m[0] != '/' && OpcodeOf(m) == Some(op)
    ensures ParseInstruction(m) == Some(Instruction(op, 0, 0, 0, 0, 0))
  {
    assert JoinWords([m]) == m;
    SplitJoinWords([m]);
    NopNewlineNeverMatches([m]);
    assert !StartsWith(m, "//") by {
      if |m| >= 2 { assert m[..2][0] == m[0]; }
    }
    ParseWords(m, [m], op);
  }

  /** The canonical text of an instruction: the mnemonic and its five
      operands in decimal. */
  function Format(instr: Instruction): string {
    JoinWords([Mnemonic(instr.opcode), NatToString(instr.reg1), NatToString(instr.reg2),
               NatToString(instr.reg3), NatToString(instr.addr), IntToString(instr.immediate)])
  }

  lemma DecimalIsWord(x: int)
    ensures IsWord(IntToString(x)) && IntToString(x)[0] != '/'
  {
    var s := NatToString(if x < 0 then -x else x);
    assert forall i | 0 <= i < |s| :: !IsWhitespace(s[i]) by {
      forall i | 0 <= i < |s| ensures !IsWhitespace(s[i]) {
        assert IsDigit(s[i]);
      }
    }
  }

  /** An instruction other than NOP with `usize` operands reads back from
      its canonical text. */
  lemma ParseFormat(instr: Instruction)
    requires instr.opcode != Nop
    requires instr.reg1 <= USIZE_MAX && instr.reg2 <= USIZE_MAX
    requires instr.reg3 <= USIZE_MAX && instr.addr <= USIZE_MAX
    ensures ParseInstruction(Format(instr)) == Some(instr)
  {
    MnemonicTable(instr.opcode);
    ParseNamedInstruction(Mnemonic(instr.opcode), instr);
  }

  /** ParseFormat for any name m that the table maps to the opcode. */
  lemma ParseNamedInstruction(m: string, instr: Instruction)
    requires IsWord(m) && m[0] != '/' && OpcodeOf(m) == Some(instr.opcode)
    requires instr.reg1 <= USIZE_MAX && instr.reg2 <= USIZE_MAX
    requires instr.reg3 <= USIZE_MAX && instr.addr <= USIZE_MAX
    ensures var words := [m, NatToString(instr.reg1), NatToString(instr.reg2),
                          NatToString(instr.reg3), NatToString(instr.addr), IntToString(instr.immediate)];
      ParseInstruction(JoinWords(words)) == Some(instr)
  {
    var words := [m, NatToString(instr.reg1), NatToString(instr.reg2),
                  NatToString(instr.reg3), NatToString(instr.addr), IntToString(instr.immediate)];
    DecimalIsWord(instr.reg1);
    DecimalIsWord(instr.reg2);
    DecimalIsWord(instr.reg3);
    DecimalIsWord(instr.addr);
    DecimalIsWord(instr.immediate);
    assert forall i | 0 <= i < |words| :: IsWord(words[i]);
    SplitJoinWords(words);
    NopNewlineNeverMatches(words);
    assert !StartsWith(m, "//") by {
      if |m| >= 2 { assert m[..2][0] == m[0]; }
    }
    assert !IsFiller(words);
    UsizeFieldOfDecimal(words, 1, instr.reg1);
    UsizeFieldOfDecimal(words, 2, instr.reg2);
    UsizeFieldOfDecimal(words, 3, instr.reg3);
    UsizeFieldOfDecimal(words, 4, instr.addr);
    ParseI32OfDecimal(instr.immediate);
    assert ImmediateField(words, 5) == instr.immediate;
    ParseWords(JoinWords(words), words, instr.opcode);
  }

  lemma UsizeFieldOfDecimal(words: seq<string>, i: nat, n: nat)
    requires i < |words| && words[i] == NatToString(n) && n <= USIZE_MAX
    ensures UsizeField(words, i) == n
  {
    ParseUsizeOfDecimal(n);
  }

  lemma ParseWords(line: string, words: seq<string>, op: Opcode)
    requires SplitWhitespace(line) == words && !IsFiller(words)
    requires OpcodeOf(words[0]) == Some(op)
    ensures ParseInstruction(line) == Some(Instruction(op, UsizeField(words, 1), UsizeField(words, 2),
      UsizeField(words, 3), UsizeField(words, 4), ImmediateField(words, 5)))
  {
  }

  /** `load_program` after the file is read: the instructions of the lines
      that parse, in order; lines with an unknown mnemonic are dropped. */
  function Assemble(lines: seq<string>): (program: seq<Instruction>)
    ensures |program| <= |lines|
  {
    if lines == [] then []
    else
      match ParseInstruction(lines[0])
      case Some(instr) => [instr] + Assemble(lines[1..])
      case None => Assemble(lines[1..])
  }

  /** When every line parses, the program has one instruction per line. */
  lemma {:induction false} AssembleEveryLine(lines: seq<string>)
    requires forall j | 0 <= j < |lines| :: ParseInstruction(lines[j]).Some?
    ensures |Assemble(lines)| == |lines|
    ensures forall j | 0 <= j < |lines| :: Assemble(lines)[j] == ParseInstruction(lines[j]).value
  {
    if lines != [] {
      AssembleEveryLine(lines[1..]);
      assert forall j | 1 <= j < |lines| :: lines[1..][j - 1] == lines[j];
    }
  }

  /** Assembly distributes over concatenation of the line lists. */
  lemma {:induction false} AssembleAppend(a: seq<string>, b: seq<string>)
    ensures Assemble(a + b) == Assemble(a) + Assemble(b)
  {
    if a != [] {
      assert (a + b)[0] == a[0];
      assert (a + b)[1..] == a[1..] + b;
      AssembleAppend(a[1..], b);
      match ParseInstruction(a[0])
      case Some(instr) =>
        assert Assemble(a + b) == [instr] + Assemble(a[1..] + b);
        assert Assemble(a) == [instr] + Assemble(a[1..]);
      case None =>
        assert Assemble(a + b) == Assemble(a[1..] + b);
    } else {
      assert a + b == b;
    }
  }

  /** The length of the part of s before the first sep. */
  function PartLength(s: string, sep: char): (n: nat)
    ensures n <= |s|
    ensures forall i | 0 <= i < n :: s[i] != sep
    ensures n == |s| || s[n] == sep
  {
    if s == [] || s[0] == sep then 0 else 1 + PartLength(s[1..], sep)
  }

  /** `str::split` on one character: the parts between separators, always
      at least one, possibly empty. */
  function SplitOn(s: string, sep: char): (parts: seq<string>)
    ensures |parts| >= 1
    ensures forall i | 0 <= i < |parts| :: sep !in parts[i]
    decreases |s|
  {
    var n := PartLength(s, sep);
    if n == |s| then [s] else [s[..n]] + SplitOn(s[n + 1..], sep)
  }

  function JoinOn(parts: seq<string>, sep: char): string
    requires |parts| >= 1
  {
    if |parts| == 1 then parts[0] else parts[0] + [sep] + JoinOn(parts[1..], sep)
  }

  lemma PartLengthOfPart(p: string, rest: string, sep: char)
    requires sep !in p && (rest == [] || rest[0] == sep)
    ensures PartLength(p + rest, sep) == |p|
    decreases |p|
  {
    if p != [] {
      assert (p + rest)[1..] == p[1..] + rest;
      PartLengthOfPart(p[1..], rest, sep);
    }
  }

  /** Splitting parts joined by sep gives the parts back. */
  lemma {:induction false} SplitJoinOn(parts: seq<string>, sep: char)
    requires |parts| >= 1 && forall i | 0 <= i < |parts| :: sep !in parts[i]
    ensures SplitOn(JoinOn(parts, sep), sep) == parts
  {
    if |parts| == 1 {
      PartLengthOfPart(parts[0], [], sep);
      assert parts[0] + [] == parts[0];
    } else {
      var p, rest := parts[0], [sep] + JoinOn(parts[1..], sep);
      assert JoinOn(parts, sep) == p + rest;
      PartLengthOfPart(p, rest, sep);
      assert (p + rest)[..|p|] == p;
      assert (p + rest)[|p| + 1..] == JoinOn(parts[1..], sep);
      SplitJoinOn(parts[1..], sep);
    }
  }

  /** The product of the sizes. */
  function Product(dims: seq<nat>): nat {
    if dims == [] then 1 else Product(dims[..|dims| - 1]) * dims[|dims| - 1]
  }

  /** `Iterator::product` over `usize`, which stops the process when a
      running product leaves 64 bits. */
  function CheckedProduct(dims: seq<nat>): (r: Option<nat>)
    ensures r.Some? ==> r.value == Product(dims) && r.value <= USIZE_MAX
  {
    if dims == [] then Some(1)
    else
      match CheckedProduct(dims[..|dims| - 1])
      case None => None
      case Some(p) =>
        if p * dims[|dims| - 1] <= USIZE_MAX then Some(p * dims[|dims| - 1]) else None
  }

  /** With no zero size, the running products never exceed the final one, so
      the product is checked exactly when it fits. */
  lemma {:induction false} CheckedProductFits(dims: seq<nat>)
    requires forall i | 0 <= i < |dims| :: dims[i] >= 1
    ensures CheckedProduct(dims).Some? <==> Product(dims) <= USIZE_MAX
  {
    if dims != [] {
      var init, last := dims[..|dims| - 1], dims[|dims| - 1];
      CheckedProductFits(init);
      MulAtLeast(last, Product(init));
    }
  }

  /** Reads every part as a `usize`; None when one does not parse. */
  function ParseParts(parts: seq<string>): (r: Option<seq<nat>>)
    ensures r.Some? ==> |r.value| == |parts|
    ensures r.Some? ==> forall i | 0 <= i < |parts| :: ParseUsize(parts[i]) == Some(r.value[i])
  {
    if parts == [] then Some([])
    else
      match ParseUsize(parts[0])
      case None => None
      case Some(d) =>
        match ParseParts(parts[1..])
        case None => None
        case Some(ds) => Some([d] + ds)
  }

  /** `parse_dimensions`: the product of the `x`-separated sizes; None where
      the machine stops with an error (a part that is not a `usize`, or a
      product that leaves 64 bits). */
  function ParseDimensions(text: string): (r: Option<nat>)
    ensures r.Some? ==> r.value <= USIZE_MAX
  {
    match ParseParts(SplitOn(text, 'x'))
    case None => None
    case Some(dims) => CheckedProduct(dims)
  }

  /** The decimal texts of the sizes. */
  function Decimals(dims: seq<nat>): (texts: seq<string>)
    ensures |texts| == |dims|
    ensures forall i | 0 <= i < |dims| :: texts[i] == NatToString(dims[i])
  {
    if dims == [] then [] else [NatToString(dims[0])] + Decimals(dims[1..])
  }

  lemma {:induction false} ParsePartsOfDecimals(dims: seq<nat>)
    requires forall i | 0 <= i < |dims| :: dims[i] <= USIZE_MAX
    ensures ParseParts(Decimals(dims)) == Some(dims)
  {
    if dims != [] {
      var texts := Decimals(dims);
      ParseUsizeOfDecimal(dims[0]);
      assert ParseUsize(texts[0]) == Some(dims[0]);
      assert texts[1..] == Decimals(dims[1..]);
      ParsePartsOfDecimals(dims[1..]);
      assert ParseParts(texts) == Some([dims[0]] + dims[1..]);
      assert dims == [dims[0]] + dims[1..];
    }
  }

  /** Nonzero sizes written as "AxBx..." in decimal parse to their product
      when that fits in 64 bits, and fail when it does not. */
  lemma ParseDimensionsOfDecimals(dims: seq<nat>)
    requires |dims| >= 1
    requires forall i | 0 <= i < |dims| :: 1 <= dims[i] <= USIZE_MAX
    ensures ParseDimensions(JoinOn(Decimals(dims), 'x')) ==
      if Product(dims) <= USIZE_MAX then Some(Product(dims)) else None
  {
    var texts := Decimals(dims);
    assert forall i | 0 <= i < |texts| :: 'x' !in texts[i];
    SplitJoinOn(texts, 'x');
    ParsePartsOfDecimals(dims);
    CheckedProductFits(dims);
  }

  /** An empty part (as in "", "4x" or "x4") makes the parse fail. */
  lemma EmptyPartRejected(text: string, i: nat)
    requires i < |SplitOn(text, 'x')| && SplitOn(text, 'x')[i] == []
    ensures ParseDimensions(text).None?
  {
  }
}
