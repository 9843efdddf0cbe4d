/** What decode promises about the text it appends: one line per chunk, in
    order, each chunk decoded on its own; the chunk where it stops and why;
    a trailing odd byte ignored; a register field never refused. */
module DecoderProperties {
  import opened Registers
  import opened Decoder

  /** Line `k` of a run is the decoding of chunk `k`: bytes `2k` and `2k + 1`. */
  lemma {:induction false} DisassembleLines(bytes: seq<bv8>, k: nat)
    requires k < |Disassemble(bytes).lines|
    ensures 2 * k + 1 < |bytes|
    ensures DecodeChunk(bytes[2 * k], bytes[2 * k + 1]) == Ok(Disassemble(bytes).lines[k])
    decreases |bytes|
  {
    if k > 0 {
      DisassembleLines(bytes[2..], k - 1);
    }
  }

  /** A run completes exactly when every chunk gave a line; otherwise it stops
      at the chunk right after the last line, with that chunk's error. */
  lemma {:induction false} DisassembleOutcome(bytes: seq<bv8>)
    ensures Disassemble(bytes).outcome == Completed <==> |Disassemble(bytes).lines| == |bytes| / 2
    ensures Disassemble(bytes).outcome.Panicked? ==>
      var n := |Disassemble(bytes).lines|;
      2 * n + 1 < |bytes| && DecodeChunk(bytes[2 * n], bytes[2 * n + 1]) == Err(Disassemble(bytes).outcome.error)
    decreases |bytes|
  {
    if |bytes| >= 2 && DecodeChunk(bytes[0], bytes[1]).Ok? {
      DisassembleOutcome(bytes[2..]);
    }
  }

  /** The register fields are masked to three bits, so decode never stops on
      the register-table failure. */
  lemma {:induction false} DisassembleNeverRefusesRegister(bytes: seq<bv8>)
    ensures Disassemble(bytes).outcome != Panicked(RegisterNotRecognized)
    decreases |bytes|
  {
    if |bytes| >= 2 && DecodeChunk(bytes[0], bytes[1]).Ok? {
      DisassembleNeverRefusesRegister(bytes[2..]);
    }
  }

  /** Decoding `a + b`, with `a` an even number of bytes, decodes `a` and, if
      that completes, goes on with `b` as if on its own. */
  lemma {:induction false} DisassembleAppend(a: seq<bv8>, b: seq<bv8>)
    requires |a| % 2 == 0
    ensures Disassemble(a).outcome != Completed ==> Disassemble(a + b) == Disassemble(a)
    ensures Disassemble(a).outcome == Completed ==>
      Disassemble(a + b) == Run(Disassemble(a).lines + Disassemble(b).lines, Disassemble(b).outcome)
    decreases |a|
  {
    if |a| == 0 {
      assert a + b == b;
    } else {
      assert (a + b)[0] == a[0] && (a + b)[1] == a[1];
      assert (a + b)[2..] == a[2..] + b;
      if DecodeChunk(a[0], a[1]).Ok? {
        DisassembleAppend(a[2..], b);
        if Disassemble(a).outcome == Completed {
          var line := DecodeChunk(a[0], a[1]).value;
          assert [line] + (Disassemble(a[2..]).lines + Disassemble(b).lines)
              == ([line] + Disassemble(a[2..]).lines) + Disassemble(b).lines;
        }
      }
    }
  }

  /** A trailing odd byte is never read. */
  lemma {:induction false} DisassembleIgnoresTrailingByte(bytes: seq<bv8>)
    requires |bytes| % 2 == 1
    ensures Disassemble(bytes) == Disassemble(bytes[..|bytes| - 1])
    decreases |bytes|
  {
    if |bytes| > 1 {
      var init := bytes[..|bytes| - 1];
      assert init[0] == bytes[0] && init[1] == bytes[1];
      assert init[2..] == bytes[2..][..|bytes[2..]| - 1];
      DisassembleIgnoresTrailingByte(bytes[2..]);
    }
  }

  /** Every line of a run has the decoded-line shape. */
  predicate WellFormedLines(lines: seq<string>) {
    forall k :: 0 <= k < |lines| ==>
      |lines[k]| == LineLength && lines[k][LineLength - 1] == '\n' && NewlineCount(lines[k]) == 1
  }

  lemma DisassembleWellFormed(bytes: seq<bv8>)
    ensures WellFormedLines(Disassemble(bytes).lines)
  {
    forall k | 0 <= k < |Disassemble(bytes).lines|
      ensures |Disassemble(bytes).lines[k]| == LineLength
      ensures Disassemble(bytes).lines[k][LineLength - 1] == '\n'
      ensures NewlineCount(Disassemble(bytes).lines[k]) == 1
    {
      DisassembleLines(bytes, k);
      DecodedLineNewlines(bytes[2 * k], bytes[2 * k + 1]);
    }
  }

  /** Joined lines of the decoded shape: the text is ten characters per line,
      line `k` occupies characters `10k` to `10k + 9`, and there is one newline
      per line. */
  lemma {:induction false} ConcatWellFormed(lines: seq<string>)
    requires WellFormedLines(lines)
    ensures |Concat(lines)| == LineLength * |lines|
    ensures NewlineCount(Concat(lines)) == |lines|
    ensures forall k :: 0 <= k < |lines| ==>
      Concat(lines)[LineLength * k .. LineLength * k + LineLength] == lines[k]
  {
    if lines != [] {
      ConcatWellFormed(lines[1..]);
      var text := Concat(lines);
      var rest := Concat(lines[1..]);
      assert text == lines[0] + rest;
      assert multiset(text) == multiset(lines[0]) + multiset(rest);
      forall k | 0 <= k < |lines|
        ensures text[LineLength * k .. LineLength * k + LineLength] == lines[k]
      {
        if k == 0 {
          assert text[..LineLength] == lines[0];
        } else {
          assert lines[k] == lines[1..][k - 1];
          assert text[LineLength * k .. LineLength * k + LineLength]
              == rest[LineLength * (k - 1) .. LineLength * (k - 1) + LineLength];
        }
      }
    }
  }

  /** What a completed call appends: `|bytes| / 2` lines of ten characters,
      one newline each, line `k` being the decoding of chunk `k`. */
  lemma DisassembleCompletedText(bytes: seq<bv8>)
    requires Disassemble(bytes).outcome == Completed
    ensures |Concat(Disassemble(bytes).lines)| == LineLength * (|bytes| / 2)
    ensures NewlineCount(Concat(Disassemble(bytes).lines)) == |bytes| / 2
    ensures forall k :: 0 <= k < |bytes| / 2 ==>
      DecodeChunk(bytes[2 * k], bytes[2 * k + 1])
        == Ok(Concat(Disassemble(bytes).lines)[LineLength * k .. LineLength * k + LineLength])
  {
    var lines := Disassemble(bytes).lines;
    DisassembleOutcome(bytes);
    DisassembleWellFormed(bytes);
    ConcatWellFormed(lines);
    forall k | 0 <= k < |bytes| / 2
      ensures DecodeChunk(bytes[2 * k], bytes[2 * k + 1])
        == Ok(Concat(lines)[LineLength * k .. LineLength * k + LineLength])
    {
      DisassembleLines(bytes, k);
    }
  }

  /** `89 D9` is `100010 0 1`, `11 011 001`: d clear, word width, reg = bx,
      r_m = cx, so the operands come out as `cx bx`. */
  lemma ExampleMovCxBx()
    ensures DecodeChunk(0x89, 0xD9) == Ok("mov cx bx\n")
    ensures Disassemble([0x89, 0xD9]) == Run(["mov cx bx\n"], Completed)
  {
    var bytes: seq<bv8> := [0x89, 0xD9];
    assert RegisterDecode(3, true) == Some("bx") && RegisterDecode(1, true) == Some("cx");
    assert DecodeChunk(0x89, 0xD9) == Ok("mov" + " " + "cx" + " " + "bx" + "\n");
    assert "mov" + " " + "cx" + " " + "bx" + "\n" == "mov cx bx\n";
    assert bytes[2..] == [];
  }

  /** A chunk in memory mode (`8B 5E`, `mod == 01`) stops decoding after the
      line of the chunk before it; an unknown opcode (`90`) stops it at once. */
  lemma ExampleStops()
    ensures Disassemble([0x89, 0xD9, 0x8B, 0x5E]) == Run(["mov cx bx\n"], Panicked(NotRegisterMode))
    ensures Disassemble([0x90, 0x89, 0xD9]) == Run([], Panicked(InstructionNotRecognized))
  {
    var bytes: seq<bv8> := [0x89, 0xD9, 0x8B, 0x5E];
    ExampleMovCxBx();
    assert DecodeChunk(0x8B, 0x5E) == Err(NotRegisterMode);
    assert bytes[2..] == [0x8B, 0x5E];
    assert bytes[2..][2..] == [];
    assert DecodeChunk(0x90, 0x89) == Err(InstructionNotRecognized);
  }
}
