# 8086 MOV register-to-register decoder

This project models the decoder in `src/lib.rs`: the register table
`register_decode` and the byte-stream decoder `decode`.

`decode` walks its input in exact two-byte chunks `100010dw mod reg r_m`.
- The first byte must carry the MOV opcode `100010` in its top six bits.
- The second byte must be in register mode (`mod == 11`).
- The `reg` and `r_m` fields are looked up in the register table at width `w`.
- The two operands are swapped when `d` is clear.
- Each chunk appends the line `mov X Y\n` to the caller's string.

A chunk that fails either test aborts the call. Whatever was appended for the
earlier chunks stays in the string.

The model has four modules:

- `Registers` (`registers.dfy`): the table `RegisterDecode`, with the panic for
  a field above 7 as `None`. `ParseRegister` is an independent by-name
  inverse, used to prove the table injective and onto the sixteen names.
- `Decoder` (`decoder.dfy`):
  - `DecodeChunk` is one chunk as a pure function, returning a line or a `DecodeError`.
  - `Disassemble` is the specification of a whole call: the lines appended and the `Outcome`.
  - `DecodeInstruction` is the imperative loop body, including the in-place operand swap.
  - `Decode` is the `for` loop as a `while` loop. It takes the caller's string and returns it extended, and is proved against `Disassemble`.
- `DecoderProperties` (`properties.dfy`): what a call appends.
  - One line per chunk, line `k` coming from bytes `2k` and `2k+1`.
  - Where a call stops, and why.
  - Decoding a concatenation.
  - The trailing odd byte is ignored.
  - Ten characters and one newline per line.
  - Concrete examples.
- `Encoding` (`encoding.dfy`): reference definitions the decoder is proved to invert.
  - `Encode` builds the two bytes of an instruction from its fields.
  - `Render` prints the line the 8086 meaning of `d` calls for.
  - `Assemble` and `AssembleListing` turn the decoder's own output text back into bytes.

The code implements less than the full 8086 `MOV` and departs from the usual
Intel syntax; the model follows the code:
- The code prints no comma between the operands.
- It accepts only register mode.
- It implements no other MOV form: no memory modes, displacements, immediates or accumulator forms.

## Model

| member | source | states |
|---|---|---|
| Registers.RegisterDecode | src/lib.rs:3-24 | a name exists exactly for fields 0..7 (the source panics otherwise); it is a byte register when `w` is clear and a word register when `w` is set; it is two lower-case letters |
| Registers.ParseRegisterDecode | src/lib.rs:5-21 | every one of the sixteen table entries is read back by name as its own field and width |
| Registers.DecodeParseRegister | src/lib.rs:5-21 | every name the by-name inverse accepts is exactly the table entry for the field and width it reports |
| Registers.RegisterDecodeInjective | src/lib.rs:5-21 | two table entries are equal if and only if they have the same field and the same width, so a width never repeats a name and no byte name equals a word name |
| Registers.RegisterDecodeOnto | src/lib.rs:5-21 | every byte register is the name of some field at `w` clear, and every word register is one at `w` set |
| Registers.ByteRegisterIsHalfOfWord | src/lib.rs:5-21 | byte field `f` names a half of word field `f % 4`: the low half for 0..3 and the high half for 4..7 |
| Decoder.DecodeChunk | src/lib.rs:32-56 | a chunk is refused as not an instruction exactly when `first >> 2` is not the MOV opcode; it is refused as not register mode exactly when the opcode matches and `mod` is not `11`; otherwise it is accepted and its line is ten characters, begins with "mov ", has a space at 6 and ends in a newline |
| Decoder.DecodeInstruction | src/lib.rs:29-56 | the loop body: it computes the opcode, `d` and `w`, tests the opcode and mode, looks up both fields and swaps the operands when `d` is clear, and gives exactly the chunk's decoding |
| Decoder.LineShape | src/lib.rs:56 | a line built from two register names has the fixed ten-character shape |
| Decoder.LineNewlines | src/lib.rs:56 | a line built from two register names holds exactly one newline |
| Decoder.DecodedLineNewlines | src/lib.rs:53-56 | every accepted chunk's line holds exactly one newline |
| Decoder.Disassemble | src/lib.rs:27-58 | a call appends at most one line per complete chunk |
| Decoder.DisassembleStep | src/lib.rs:28-57 | from any chunk offset, a refused chunk ends the call there with its error; an accepted chunk appends its line and the call goes on two bytes later |
| Decoder.Decode | src/lib.rs:27-58 | the caller's string is kept as a prefix; the new string is the old one followed by the lines of the decoded chunks, in order; the outcome (completed, or stopped with a given error) is that of the specification |
| DecoderProperties.DisassembleLines | src/lib.rs:28-56 | line `k` of a call is the decoding of bytes `2k` and `2k+1` |
| DecoderProperties.DisassembleOutcome | src/lib.rs:28-52 | a call completes if and only if it appends `|bytes| / 2` lines; when it stops, the chunk right after the last line is refused with the error reported |
| DecoderProperties.DisassembleNeverRefusesRegister | src/lib.rs:42-45 | the fields are masked to three bits, so decode never fails in the register table |
| DecoderProperties.DisassembleAppend | src/lib.rs:28-57 | with `|a|` even, decoding `a + b` decodes `a`; if that stops, the result is the result for `a`; otherwise the lines of `b` follow those of `a` and the outcome is that of `b` |
| DecoderProperties.DisassembleIgnoresTrailingByte | src/lib.rs:28 | for an odd-length input the last byte changes neither the lines nor the outcome |
| DecoderProperties.DisassembleWellFormed | src/lib.rs:56 | every appended line is ten characters, ends in a newline and holds no other newline |
| DecoderProperties.ConcatWellFormed | src/lib.rs:56 | joined well-formed lines are ten characters per line with one newline per line, and line `k` occupies characters `10k` to `10k+9` |
| DecoderProperties.DisassembleCompletedText | src/lib.rs:28-57 | a completed call appends `10 * (|bytes| / 2)` characters holding `|bytes| / 2` newlines, and characters `10k` to `10k+9` are the decoding of chunk `k` |
| DecoderProperties.ExampleMovCxBx | src/lib.rs:32-56 | bytes `89 D9` give exactly "mov cx bx\n" and complete |
| DecoderProperties.ExampleStops | src/lib.rs:35-50 | the memory-mode chunk `8B 5E` stops a call after the previous chunk's line; the unknown opcode `90` stops a call before any line |
| Encoding.RegisterName | src/lib.rs:3-24 | a 3-bit field always has a register name |
| Encoding.Encode | src/lib.rs:32-39 | the encoding of an instruction is two bytes carrying the MOV opcode and register mode |
| Encoding.FieldsEncode | src/lib.rs:33-43 | splitting an encoding into `d`, `w`, `reg` and `r_m` gives back the instruction |
| Encoding.EncodeFields | src/lib.rs:32-43 | every accepted chunk is the encoding of its own fields |
| Encoding.DecodeChunkMeaning | src/lib.rs:33-56 | an accepted chunk prints its destination register, then its source, with `reg` as the destination when `d` is set and `r_m` when it is clear |
| Encoding.DecodeEncode | src/lib.rs:32-56 | decoding the encoding of any instruction prints that instruction's line |
| Encoding.RenderInjective | src/lib.rs:53-56 | two instructions print the same line if and only if they have the same width, destination and source |
| Encoding.Canonical | src/lib.rs:53-55 | the encoding with `d` clear prints the same line |
| Encoding.AssembleRender | src/lib.rs:56 | every printed line assembles back to the canonical form of its instruction |
| Encoding.RenderAssemble | src/lib.rs:56 | every line the assembler accepts is the printed line of what it returns |
| Encoding.Normalize | src/lib.rs:28 | re-encoding chunk by chunk gives two bytes per complete chunk |
| Encoding.ChunkAssembles | src/lib.rs:32-56 | the line of an accepted chunk assembles to the canonical encoding of its fields |
| Encoding.ChunkReencodes | src/lib.rs:32-56 | the canonical encoding of an accepted chunk decodes to the same single line |
| Encoding.CanonicalChunk | src/lib.rs:33-55 | an accepted chunk with `d` clear is its own canonical encoding |
| Encoding.ListingAssembles | src/lib.rs:27-58 | the text of a completed call assembles into the chunk-by-chunk canonical re-encoding of the input |
| Encoding.NormalizeDecodes | src/lib.rs:27-58 | the re-encoded input decodes to the same lines and outcome as the input |
| Encoding.NormalizeCanonical | src/lib.rs:28-55 | an even-length accepted input whose chunks all have `d` clear is its own re-encoding |
| Encoding.ListingRoundTrip | src/lib.rs:27-58 | the text of every completed call assembles into bytes that decode to the same lines |
| Encoding.ListingRoundTripExact | src/lib.rs:27-58 | the text of a completed call on an even-length input with `d` clear throughout assembles back to exactly that input |

## Left out

- The two example programs under `examples/` are left out. They embed a file with `include_bytes!`, print a `bits 16` preamble and print the text with `println!`, which is I/O with no decoding logic.
- Process abort is not modelled. A `panic!` or failed `assert_eq!` ends the call with `Outcome.Panicked` and its `DecodeError`. The caller's string up to that point is returned beside it.
- The `&mut String` parameter is not modelled as a mutable reference. It is an input string, and the call returns the string as it stands afterwards.
- `format!` and `push_str` are modelled as concatenation of character sequences.
- `Encode`, `Render`, `Assemble`, `AssembleListing`, `ParseRegister` and `Normalize` are not part of the source. They are reference definitions the decoder is proved against.
- The MOV forms the code does not implement are not modelled: memory modes, displacements, immediates and accumulator forms.
- The comma between operands is not modelled. The line is written as the code writes it, without a comma.
