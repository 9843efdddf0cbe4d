/** The MOV register-to-register decoder for 8086 machine code. The input is
    read in exact 2-byte chunks `100010dw mod reg r_m`; only register mode
    (`mod == 11`) is accepted, and each chunk appends the line
    `mov <x> <y>\n` (no comma) to the caller's text. Any other opcode, and any
    other mode, stops decoding with the lines of the earlier chunks already
    appended. */
module Decoder {
  import opened Registers

  /** The opcode of MOV register/memory to/from register, `100010`, as the
      top six bits of the first byte (`first >> 2`). */
  const MOV: bv8 := 0x22

  /** Every line decode appends has this many characters: "mov ", two
      register names of two letters, one space between them and a newline. */
  const LineLength: nat := 10

  /** The ways decoding can stop before the end of the input. */
  datatype DecodeError =
    | InstructionNotRecognized  // the first byte is not `100010dw`
    | NotRegisterMode           // the `mod` field of the second byte is not `11`
    | RegisterNotRecognized     // a register field above 7

  datatype Result<T> = Ok(value: T) | Err(error: DecodeError)

  /** How a call of decode ends: it runs to the end of the input, or it stops
      at the first chunk it cannot decode. */
  datatype Outcome = Completed | Panicked(error: DecodeError)

  /** What one call of decode appends to the output, line by line, and how
      it ends. */
  datatype Run = Run(lines: seq<string>, outcome: Outcome)

  /** The lines joined in order: the text decode appends. */
  function Concat(lines: seq<string>): (text: string) {
    if lines == [] then "" else lines[0] + Concat(lines[1..])
  }

  /** Number of newline characters in `s`. */
  function NewlineCount(s: string): (n: nat) {
    multiset(s)['\n']
  }

  /** The line one 2-byte chunk decodes to, or why it is refused. */
  function DecodeChunk(first: bv8, second: bv8): (r: Result<string>)
    ensures r == Err(InstructionNotRecognized) <==> first >> 2 != MOV
    ensures r == Err(NotRegisterMode) <==> first >> 2 == MOV && second & 0xC0 != 0xC0
    ensures r.Ok? <==> first >> 2 == MOV && second & 0xC0 == 0xC0
    ensures r.Ok? ==> |r.value| == LineLength && r.value[..4] == "mov " && r.value[6] == ' '
    ensures r.Ok? ==> r.value[LineLength - 1] == '\n'
  {
    var opcode := first >> 2;
    var d := ((first & 0x02) >> 1) == 1;
    var w := (first & 0x01) == 1;
    if opcode != MOV then Err(InstructionNotRecognized)
    else if second & 0xC0 != 0xC0 then Err(NotRegisterMode)
    else
      var reg1 := (second & 0x38) >> 3;
      var reg2 := second & 0x07;
      match (RegisterDecode(reg1, w), RegisterDecode(reg2, w))
      case (Some(name1), Some(name2)) =>
        var (x, y) := if !d then (name2, name1) else (name1, name2);
        LineShape(x, y);
        Ok("mov" + " " + x + " " + y + "\n")
      case _ => Err(RegisterNotRecognized)
  }

  /** A line built from two register names has the shape of a decoded line. */
  lemma LineShape(x: string, y: string)
    requires IsRegisterName(x) && IsRegisterName(y)
    ensures var line := "mov" + " " + x + " " + y + "\n";
      |line| == LineLength && line[..4] == "mov " && line[6] == ' '
      && line[LineLength - 1] == '\n'
  {
    var line := "mov" + " " + x + " " + y + "\n";
    assert line == ['m', 'o', 'v', ' ', x[0], x[1], ' ', y[0], y[1], '\n'];
  }

  /** A line built from two register names holds exactly one newline. */
  lemma LineNewlines(x: string, y: string)
    requires IsRegisterName(x) && IsRegisterName(y)
    ensures NewlineCount("mov" + " " + x + " " + y + "\n") == 1
  {
    assert x == [x[0], x[1]] && y == [y[0], y[1]];
    assert multiset(x)['\n'] == 0 && multiset(y)['\n'] == 0;
  }

  /** Every decoded line holds exactly one newline, the one that ends it. */
  lemma DecodedLineNewlines(first: bv8, second: bv8)
    requires DecodeChunk(first, second).Ok?
    ensures NewlineCount(DecodeChunk(first, second).value) == 1
  {
    var w := (first & 0x01) == 1;
    var name1 := RegisterDecode((second & 0x38) >> 3, w).value;
    var name2 := RegisterDecode(second & 0x07, w).value;
    LineNewlines(name1, name2);
    LineNewlines(name2, name1);
  }

  /** What decode appends for `bytes` and how it ends: one line per 2-byte
      chunk up to the first chunk refused; a trailing odd byte is not read. */
  function Disassemble(bytes: seq<bv8>): (r: Run)
    ensures |r.lines| <= |bytes| / 2
    decreases |bytes|
  {
    if |bytes| < 2 then Run([], Completed)
    else
      match DecodeChunk(bytes[0], bytes[1])
      case Err(e) => Run([], Panicked(e))
      case Ok(line) =>
        var rest := Disassemble(bytes[2..]);
        Run([line] + rest.lines, rest.outcome)
  }

  /** Disassembling from chunk offset `i` decodes the chunk there, then goes
      on from `i + 2`. */
  lemma DisassembleStep(bytes: seq<bv8>, i: nat)
    requires i + 2 <= |bytes|
    ensures DecodeChunk(bytes[i], bytes[i + 1]).Err? ==>
      Disassemble(bytes[i..]) == Run([], Panicked(DecodeChunk(bytes[i], bytes[i + 1]).error))
    ensures DecodeChunk(bytes[i], bytes[i + 1]).Ok? ==>
      Disassemble(bytes[i..]).outcome == Disassemble(bytes[i + 2..]).outcome &&
      Concat(Disassemble(bytes[i..]).lines)
        == DecodeChunk(bytes[i], bytes[i + 1]).value + Concat(Disassemble(bytes[i + 2..]).lines)
  {
    assert bytes[i..][0] == bytes[i] && bytes[i..][1] == bytes[i + 1];
    assert bytes[i..][2..] == bytes[i + 2..];
    var lines := Disassemble(bytes[i..]).lines;
    if DecodeChunk(bytes[i], bytes[i + 1]).Ok? {
      assert lines[1..] == Disassemble(bytes[i + 2..]).lines;
    }
  }

  /** Appending to a string keeps it as a prefix. */
  lemma PrefixOfAppend(a: string, b: string)
    ensures a <= a + b
  {
    assert (a + b)[..|a|] == a;
  }

  /** Decodes one 2-byte chunk as the loop body of decode does: the opcode
      test, the register-mode test, the two register fields, and the swap of
      the operands when `d` is clear. */
  method DecodeInstruction(first: bv8, second: bv8) returns (r: Result<string>)
    ensures r == DecodeChunk(first, second)
  {
    var opcode := first >> 2;
    var d := ((first & 0x02) >> 1) == 1;
    var w := (first & 0x01) == 1;
    if opcode != MOV {
      return Err(InstructionNotRecognized);
    }
    if second & 0xC0 != 0xC0 {
      return Err(NotRegisterMode);
    }
    var name1 := RegisterDecode((second & 0x38) >> 3, w);
    var name2 := RegisterDecode(second & 0x07, w);
    if name1.None? || name2.None? {
      return Err(RegisterNotRecognized);
    }
    var reg1, reg2 := name1.value, name2.value;
    if !d {
      reg1, reg2 := reg2, reg1;
    }
    return Ok("mov" + " " + reg1 + " " + reg2 + "\n");
  }

  /** Decodes `bytes` chunk by chunk, appending one line per chunk to
      `output`; `output'` is the caller's string afterwards. A refused chunk
      ends the call with `Panicked`, and what was appended before it stays. */
  method Decode(bytes: seq<bv8>, output: string) returns (outcome: Outcome, output': string)
    ensures output <= output'
    ensures output' == output + Concat(Disassemble(bytes).lines)
    ensures outcome == Disassemble(bytes).outcome
  {
    output' := output;
    PrefixOfAppend(output, Concat(Disassemble(bytes).lines));
    var i := 0;
    while i + 2 <= |bytes|
      invariant 0 <= i <= |bytes|
      invariant output + Concat(Disassemble(bytes).lines) == output' + Concat(Disassemble(bytes[i..]).lines)
      invariant Disassemble(bytes).outcome == Disassemble(bytes[i..]).outcome
      decreases |bytes| - i
    {
      DisassembleStep(bytes, i);
      var chunk := DecodeInstruction(bytes[i], bytes[i + 1]);
      if chunk.Err? {
        return Panicked(chunk.error), output';
      }
      output' := output' + chunk.value;
      i := i + 2;
    }
    assert Disassemble(bytes[i..]).lines == [];
    return Completed, output';
  }
}
