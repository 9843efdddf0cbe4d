/** The 8086 general-register table used by the MOV register-to-register decoder.
    A register is selected by a 3-bit field (`reg` or `r_m`) together with the
    width bit `w` of the opcode byte: `w` clear selects the eight byte registers,
    `w` set the eight word registers. */
module Registers {

  datatype Option<T> = None | Some(value: T)

  /** The eight byte registers (the low and high halves of ax, cx, dx, bx). */
  const ByteRegisters: set<string> := {"al", "cl", "dl", "bl", "ah", "ch", "dh", "bh"}

  /** The eight word registers. */
  const WordRegisters: set<string> := {"ax", "cx", "dx", "bx", "sp", "bp", "si", "di"}

  /** The name of register field `reg` at width `w`. The source panics for a
      field value above 7; that failure is `None` here. */
  function RegisterDecode(reg: bv8, w: bool): (name: Option<string>)
    ensures name.Some? <==> reg <= 7
    ensures name.Some? ==> name.value in (if w then WordRegisters else ByteRegisters)
    ensures name.Some? ==> IsRegisterName(name.value)
  {
    match (reg, w)
    case (0, false) => Some("al")
    case (1, false) => Some("cl")
    case (2, false) => Some("dl")
    case (3, false) => Some("bl")
    case (4, false) => Some("ah")
    case (5, false) => Some("ch")
    case (6, false) => Some("dh")
    case (7, false) => Some("bh")
    case (0, true) => Some("ax")
    case (1, true) => Some("cx")
    case (2, true) => Some("dx")
    case (3, true) => Some("bx")
    case (4, true) => Some("sp")
    case (5, true) => Some("bp")
    case (6, true) => Some("si")
    case (7, true) => Some("di")
    case _ => None
  }

  /** The register named `name`, as its field value and width, if it is one of
      the sixteen names. A reference inverse of the table, written by name. */
  function ParseRegister(name: string): (r: Option<(bv8, bool)>)
    ensures r.Some? ==> r.value.0 <= 7
  {
    if |name| != 2 then None
    else
      match (name[0], name[1])
      case ('a', 'l') => Some((0, false))
      case ('c', 'l') => Some((1, false))
      case ('d', 'l') => Some((2, false))
      case ('b', 'l') => Some((3, false))
      case ('a', 'h') => Some((4, false))
      case ('c', 'h') => Some((5, false))
      case ('d', 'h') => Some((6, false))
      case ('b', 'h') => Some((7, false))
      case ('a', 'x') => Some((0, true))
      case ('c', 'x') => Some((1, true))
      case ('d', 'x') => Some((2, true))
      case ('b', 'x') => Some((3, true))
      case ('s', 'p') => Some((4, true))
      case ('b', 'p') => Some((5, true))
      case ('s', 'i') => Some((6, true))
      case ('d', 'i') => Some((7, true))
      case _ => None
  }

  /** A register name is two lower-case letters: it holds neither the space
      that separates operands nor the newline that ends a line. */
  predicate IsRegisterName(name: string) {
    |name| == 2 && forall i :: 0 <= i < 2 ==> 'a' <= name[i] <= 'z'
  }

  /** Every defined entry of the table is read back by ParseRegister. */
  lemma ParseRegisterDecode(reg: bv8, w: bool)
    requires reg <= 7
    ensures RegisterDecode(reg, w).Some?
    ensures IsRegisterName(RegisterDecode(reg, w).value)
    ensures ParseRegister(RegisterDecode(reg, w).value) == Some((reg, w))
  {
  }

  /** Every name ParseRegister accepts is the table entry it reports. */
  lemma DecodeParseRegister(name: string)
    requires ParseRegister(name).Some?
    ensures RegisterDecode(ParseRegister(name).value.0, ParseRegister(name).value.1) == Some(name)
  {
    assert name == [name[0], name[1]];
  }

  /** For a fixed width the table is injective, and no byte register shares
      its name with a word register. */
  lemma RegisterDecodeInjective(reg1: bv8, w1: bool, reg2: bv8, w2: bool)
    requires reg1 <= 7 && reg2 <= 7
    ensures RegisterDecode(reg1, w1) == RegisterDecode(reg2, w2) <==> reg1 == reg2 && w1 == w2
  {
    ParseRegisterDecode(reg1, w1);
    ParseRegisterDecode(reg2, w2);
  }

  /** The table covers each of the sixteen names: every byte register and every
      word register is the name of some field value. */
  lemma RegisterDecodeOnto(name: string, w: bool)
    requires name in (if w then WordRegisters else ByteRegisters)
    ensures exists reg: bv8 :: reg <= 7 && RegisterDecode(reg, w) == Some(name)
  {
    var r := ParseRegister(name);
    assert r.Some? && r.value.1 == w;
    DecodeParseRegister(name);
  }

  /** The byte register with field value `reg` is a half of the word register
      with field value `reg % 4`: the low half (`al` of `ax`) for 0..3, the
      high half (`ah` of `ax`) for 4..7. */
  lemma ByteRegisterIsHalfOfWord(reg: bv8)
    requires reg <= 7
    ensures RegisterDecode(reg, false).Some? && RegisterDecode(reg % 4, true).Some?
    ensures RegisterDecode(reg, false).value[0] == RegisterDecode(reg % 4, true).value[0]
    ensures RegisterDecode(reg % 4, true).value[1] == 'x'
    ensures RegisterDecode(reg, false).value[1] == if reg < 4 then 'l' else 'h'
  {
  }
}
