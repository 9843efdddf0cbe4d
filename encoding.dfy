/** The encoding that the decoder reads, written the other way round: an
    instruction `MOV r, r` given by its fields, the two bytes
    `100010dw 11 reg r_m` that encode it, and an assembler for the decoder's
    own output lines. In the 8086 encoding the `d` bit says which field names
    the destination: `reg` when set, `r_m` when clear. These are
    reference definitions the decoder is proved to invert. */
module Encoding {
  import opened Registers
  import opened Decoder
  import opened DecoderProperties

  /** A 3-bit register field. */
  type Field = f: bv8 | f <= 7

  /** A MOV register-to-register instruction, field by field. */
  datatype MovRegReg = MovRegReg(d: bool, w: bool, reg: Field, rm: Field)

  /** The field naming the register written. */
  function Destination(i: MovRegReg): (f: Field) {
    if i.d then i.reg else i.rm
  }

  /** The field naming the register read. */
  function Source(i: MovRegReg): (f: Field) {
    if i.d then i.rm else i.reg
  }

  function RegisterName(f: Field, w: bool): (name: string)
    ensures IsRegisterName(name)
  {
    RegisterDecode(f, w).value
  }

  /** The line for an instruction: destination first, then source, as the
      decoder prints them (separated by a space, no comma). */
  function Render(i: MovRegReg): (line: string) {
    "mov" + " " + RegisterName(Destination(i), i.w) + " " + RegisterName(Source(i), i.w) + "\n"
  }

  /** The two bytes encoding an instruction. */
  function Encode(i: MovRegReg): (bytes: seq<bv8>)
    ensures |bytes| == 2 && bytes[0] >> 2 == MOV && bytes[1] & 0xC0 == 0xC0
  {
    [0x88 | (if i.d then 0x02 else 0x00) | (if i.w then 0x01 else 0x00),
     0xC0 | (i.reg << 3) | i.rm]
  }

  /** The fields of a chunk. */
  function Fields(first: bv8, second: bv8): (i: MovRegReg) {
    MovRegReg((first & 0x02) >> 1 == 1, first & 0x01 == 1, (second & 0x38) >> 3, second & 0x07)
  }

  /** Encoding then splitting into fields gives the instruction back. */
  lemma FieldsEncode(i: MovRegReg)
    ensures Fields(Encode(i)[0], Encode(i)[1]) == i
  {
  }

  /** Every chunk the decoder accepts is the encoding of its own fields, so
      the accepted chunks are exactly the encodings. */
  lemma EncodeFields(first: bv8, second: bv8)
    requires DecodeChunk(first, second).Ok?
    ensures Encode(Fields(first, second)) == [first, second]
  {
  }

  /** The decoder prints destination then source, in the 8086 reading of the
      `d` bit. */
  lemma DecodeChunkMeaning(first: bv8, second: bv8)
    requires DecodeChunk(first, second).Ok?
    ensures DecodeChunk(first, second) == Ok(Render(Fields(first, second)))
  {
  }

  /** Decoding an encoded instruction prints its line. */
  lemma DecodeEncode(i: MovRegReg)
    ensures DecodeChunk(Encode(i)[0], Encode(i)[1]) == Ok(Render(i))
  {
    FieldsEncode(i);
    DecodeChunkMeaning(Encode(i)[0], Encode(i)[1]);
  }

  /** Two instructions print the same line exactly when they have the same
      width, destination and source: only the choice of `d` (which field
      carries which operand) is lost. */
  lemma RenderInjective(i: MovRegReg, j: MovRegReg)
    ensures Render(i) == Render(j) <==>
      i.w == j.w && Destination(i) == Destination(j) && Source(i) == Source(j)
  {
    if Render(i) == Render(j) {
      LineInjective(RegisterName(Destination(i), i.w), RegisterName(Source(i), i.w),
                    RegisterName(Destination(j), j.w), RegisterName(Source(j), j.w));
      RegisterDecodeInjective(Destination(i), i.w, Destination(j), j.w);
      RegisterDecodeInjective(Source(i), i.w, Source(j), j.w);
    }
  }

  /** A line determines the two register names it was built from. */
  lemma LineInjective(x1: string, y1: string, x2: string, y2: string)
    requires IsRegisterName(x1) && IsRegisterName(y1) && IsRegisterName(x2) && IsRegisterName(y2)
    requires "mov" + " " + x1 + " " + y1 + "\n" == "mov" + " " + x2 + " " + y2 + "\n"
    ensures x1 == x2 && y1 == y2
  {
    var line := "mov" + " " + x1 + " " + y1 + "\n";
    var line2 := "mov" + " " + x2 + " " + y2 + "\n";
    assert line[4..6] == x1 && line2[4..6] == x2;
    assert line[7..9] == y1 && line2[7..9] == y2;
  }

  /** The encoding an assembler picks for a line: `d` clear, so the source
      goes in `reg` and the destination in `r_m`. */
  function Canonical(i: MovRegReg): (c: MovRegReg)
    ensures !c.d && Render(c) == Render(i)
  {
    MovRegReg(false, i.w, Source(i), Destination(i))
  }

  /** Assembles one decoded line: "mov ", a destination register, a space,
      a source register of the same width, a newline. */
  function Assemble(line: string): (i: Option<MovRegReg>) {
    if |line| != LineLength || line[..4] != "mov " || line[6] != ' ' || line[9] != '\n' then None
    else
      match (ParseRegister(line[4..6]), ParseRegister(line[7..9]))
      case (Some((dst, w1)), Some((src, w2))) =>
        if w1 == w2 then Some(MovRegReg(false, w1, src, dst)) else None
      case _ => None
  }

  /** The assembler reads back every printed line, choosing the canonical
      encoding. */
  lemma AssembleRender(i: MovRegReg)
    ensures Assemble(Render(i)) == Some(Canonical(i))
  {
    var dst, src := RegisterName(Destination(i), i.w), RegisterName(Source(i), i.w);
    var line := Render(i);
    assert line == ['m', 'o', 'v', ' ', dst[0], dst[1], ' ', src[0], src[1], '\n'];
    assert line[4..6] == dst && line[7..9] == src;
    ParseRegisterDecode(Destination(i), i.w);
    ParseRegisterDecode(Source(i), i.w);
  }

  /** Whatever the assembler accepts is the line of what it returns. */
  lemma RenderAssemble(line: string)
    requires Assemble(line).Some?
    ensures Render(Assemble(line).value) == line
  {
    var i := Assemble(line).value;
    var dst, src := line[4..6], line[7..9];
    DecodeParseRegister(dst);
    DecodeParseRegister(src);
    assert RegisterName(Destination(i), i.w) == dst;
    assert RegisterName(Source(i), i.w) == src;
    assert line == line[..4] + dst + [' '] + src + ['\n'];
  }

  /** Assembles a listing of decoded lines into bytes, line by line. */
  function AssembleListing(text: string): (bytes: Option<seq<bv8>>)
    decreases |text|
  {
    if text == [] then Some([])
    else if |text| < LineLength then None
    else
      match (Assemble(text[..LineLength]), AssembleListing(text[LineLength..]))
      case (Some(i), Some(rest)) => Some(Encode(i) + rest)
      case _ => None
  }

  /** Every chunk has `d` clear: the direction an assembler picks. */
  predicate CanonicalDirection(bytes: seq<bv8>)
    decreases |bytes|
  {
    |bytes| < 2 || (bytes[0] & 0x02 == 0 && CanonicalDirection(bytes[2..]))
  }

  /** The bytes an assembler emits for the listing of `bytes`: every chunk
      re-encoded in the canonical direction; a trailing odd byte dropped. */
  function Normalize(bytes: seq<bv8>): (r: seq<bv8>)
    ensures |r| == 2 * (|bytes| / 2)
    decreases |bytes|
  {
    if |bytes| < 2 then [] else Encode(Canonical(Fields(bytes[0], bytes[1]))) + Normalize(bytes[2..])
  }

  /** The line of an accepted chunk assembles to the canonical encoding of
      the chunk's fields. */
  lemma ChunkAssembles(first: bv8, second: bv8)
    requires DecodeChunk(first, second).Ok?
    ensures Assemble(DecodeChunk(first, second).value) == Some(Canonical(Fields(first, second)))
  {
    DecodeChunkMeaning(first, second);
    AssembleRender(Fields(first, second));
  }

  /** The canonical encoding of an accepted chunk decodes to the chunk's line. */
  lemma ChunkReencodes(first: bv8, second: bv8)
    requires DecodeChunk(first, second).Ok?
    ensures Disassemble(Encode(Canonical(Fields(first, second))))
      == Run([DecodeChunk(first, second).value], Completed)
  {
    var c := Canonical(Fields(first, second));
    DecodeChunkMeaning(first, second);
    DecodeEncode(c);
    assert Encode(c)[2..] == [];
  }

  /** An accepted chunk with its `d` bit clear is its own canonical encoding. */
  lemma CanonicalChunk(first: bv8, second: bv8)
    requires DecodeChunk(first, second).Ok? && first & 0x02 == 0
    ensures Encode(Canonical(Fields(first, second))) == [first, second]
  {
    assert Canonical(Fields(first, second)) == Fields(first, second);
    EncodeFields(first, second);
  }

  /** A completed decode accepted its first chunk and completed on the rest. */
  lemma CompletedHead(bytes: seq<bv8>)
    requires |bytes| >= 2 && Disassemble(bytes).outcome == Completed
    ensures DecodeChunk(bytes[0], bytes[1]).Ok?
    ensures Disassemble(bytes[2..]).outcome == Completed
  {
  }

  /** Assembling a listing that starts with an assembled line. */
  lemma AssembleListingCons(line: string, rest: string)
    requires |line| == LineLength && Assemble(line).Some? && AssembleListing(rest).Some?
    ensures AssembleListing(line + rest) == Some(Encode(Assemble(line).value) + AssembleListing(rest).value)
  {
    var text := line + rest;
    assert text[..LineLength] == line && text[LineLength..] == rest;
  }

  /** The text of a completed decode is its first line followed by the text
      of the rest, so assembling it assembles that line first. */
  lemma ListingStep(bytes: seq<bv8>, restBytes: seq<bv8>)
    requires |bytes| >= 2 && DecodeChunk(bytes[0], bytes[1]).Ok?
    requires AssembleListing(Concat(Disassemble(bytes[2..]).lines)) == Some(restBytes)
    ensures AssembleListing(Concat(Disassemble(bytes).lines))
      == Some(Encode(Canonical(Fields(bytes[0], bytes[1]))) + restBytes)
  {
    var line := DecodeChunk(bytes[0], bytes[1]).value;
    var rest := Concat(Disassemble(bytes[2..]).lines);
    assert Concat(Disassemble(bytes).lines) == line + rest by {
      assert bytes[0..] == bytes;
      DisassembleStep(bytes, 0);
    }
    ChunkAssembles(bytes[0], bytes[1]);
    AssembleListingCons(line, rest);
  }

  /** The text of a completed decode assembles into the normalized input. */
  lemma {:induction false} ListingAssembles(bytes: seq<bv8>)
    requires Disassemble(bytes).outcome == Completed
    ensures AssembleListing(Concat(Disassemble(bytes).lines)) == Some(Normalize(bytes))
    decreases |bytes|
  {
    if |bytes| < 2 {
      assert Concat(Disassemble(bytes).lines) == [];
    } else {
      CompletedHead(bytes);
      ListingAssembles(bytes[2..]);
      ListingStep(bytes, Normalize(bytes[2..]));
    }
  }

  /** The normalized input decodes to the same lines as the input. */
  lemma {:induction false} NormalizeDecodes(bytes: seq<bv8>)
    requires Disassemble(bytes).outcome == Completed
    ensures Disassemble(Normalize(bytes)) == Disassemble(bytes)
    decreases |bytes|
  {
    if |bytes| >= 2 {
      CompletedHead(bytes);
      NormalizeDecodes(bytes[2..]);
      ChunkReencodes(bytes[0], bytes[1]);
      DisassembleAppend(Encode(Canonical(Fields(bytes[0], bytes[1]))), Normalize(bytes[2..]));
    }
  }

  /** An even-length input in the canonical direction is its own normal form. */
  lemma {:induction false} NormalizeCanonical(bytes: seq<bv8>)
    requires Disassemble(bytes).outcome == Completed
    requires |bytes| % 2 == 0 && CanonicalDirection(bytes)
    ensures Normalize(bytes) == bytes
    decreases |bytes|
  {
    if |bytes| >= 2 {
      CompletedHead(bytes);
      NormalizeCanonical(bytes[2..]);
      CanonicalChunk(bytes[0], bytes[1]);
      assert bytes == [bytes[0], bytes[1]] + bytes[2..];
    }
  }

  /** Round trip: the text of a completed decode assembles back into bytes
      that decode to the same lines. */
  lemma ListingRoundTrip(bytes: seq<bv8>)
    requires Disassemble(bytes).outcome == Completed
    ensures AssembleListing(Concat(Disassemble(bytes).lines)).Some?
    ensures Disassemble(AssembleListing(Concat(Disassemble(bytes).lines)).value) == Disassemble(bytes)
  {
    ListingAssembles(bytes);
    NormalizeDecodes(bytes);
  }

  /** Exact round trip: an even-length input in the canonical direction is
      assembled back from its listing byte for byte. */
  lemma ListingRoundTripExact(bytes: seq<bv8>)
    requires Disassemble(bytes).outcome == Completed
    requires |bytes| % 2 == 0 && CanonicalDirection(bytes)
    ensures AssembleListing(Concat(Disassemble(bytes).lines)) == Some(bytes)
  {
    ListingAssembles(bytes);
    NormalizeCanonical(bytes);
  }
}
