/** The instruction word as the overlaid bit-field structs see it. */
module Fields {
  import opened CIntegers

  /** A bit-field `width` bits wide whose lowest bit is bit `low` of the word. */
  function Field(inst: u32, low: nat, width: nat): nat {
    Shr(inst, low) % Pow2(width)
  }

  // utype_t ... load_t agree on the position of these fields
  function Opcode(inst: u32): nat { And(inst, 127) }
  function Rd(inst: u32): nat { And(Shr(inst, 7), 31) }
  function Sel(inst: u32): nat { Field(inst, 12, 3) }
  function Rs1(inst: u32): nat { Field(inst, 15, 5) }
  function Rs2(inst: u32): nat { Field(inst, 20, 5) }
  function Special(inst: u32): nat { Field(inst, 25, 7) }
  function Shamt(inst: u32): nat { And(Shr(inst, 20), 31) }

  predicate SignBit(inst: u32) {
    And(Shr(inst, 31), 1) != 0
  }

  /** `d |= mask` when the top bit of the word is set, seen as int32_t. */
  function SignExtended(inst: u32, d: nat, mask: nat): i32 {
    ToI32(if SignBit(inst) then Or(d, mask) else d)
  }

  // itype_t, load_t and jalr_t keep a 12-bit immediate in one piece
  function ImmI(inst: u32): i32 {
    SignExtended(inst, Field(inst, 20, 12), 0xffff_f000)
  }

  // store_t splits it in two
  function ImmS(inst: u32): i32 {
    SignExtended(inst, Or(Field(inst, 7, 5), Field(inst, 25, 7) * 0x20), 0xffff_f000)
  }

  // branch_t scatters a 13-bit displacement whose lowest bit is zero
  function ImmB(inst: u32): i32 {
    var d := Or(Or(Or(Field(inst, 8, 4) * 0x2, Field(inst, 25, 6) * 0x20),
                   Field(inst, 7, 1) * 0x800), Field(inst, 31, 1) * 0x1000);
    ToI32(if Field(inst, 31, 1) != 0 then Or(d, 0xffff_e000) else d)
  }

  // jal_t scatters a 21-bit displacement whose lowest bit is zero
  function ImmJ(inst: u32): i32 {
    SignExtended(inst,
      Or(Or(Or(Field(inst, 21, 10) * 0x2, Field(inst, 20, 1) * 0x800),
            Field(inst, 12, 8) * 0x1000), Field(inst, 31, 1) * 0x10_0000), 0xffe0_0000)
  }

  // utype_t
  function ImmU(inst: u32): nat { And(inst, 0xffff_f000) }

  type Reg = n: nat | n < 32

  /** riscv_t: every view of one word that execution uses. */
  datatype Riscv = Riscv(opcode: nat, rd: Reg, sel: nat, rs1: Reg, rs2: Reg, special: nat, shamt: nat,
                         immI: i32, immS: i32, immB: i32, immJ: i32, immU: u32,
                         ecall: bool, csrOp: nat, csr: nat)

  function Decode(inst: u32): Riscv {
    RegisterFields(inst);
    Riscv(Opcode(inst), Rd(inst), Sel(inst), Rs1(inst), Rs2(inst), Special(inst), Shamt(inst),
          ImmI(inst), ImmS(inst), ImmB(inst), ImmJ(inst), ImmU(inst),
          Shr(inst, 7) == 0, And(Shr(inst, 12), 3), Shr(inst, 20))
  }

  /** The masked register number and the rd bit-field are the same number. */
  lemma RegisterFields(inst: u32)
    ensures Rd(inst) < 32 && Rd(inst) == Field(inst, 7, 5)
    ensures Rs1(inst) < 32 && Rs2(inst) < 32 && Shamt(inst) < 32
    ensures 0 <= ImmU(inst) < TWO32
  {
    AndMask(Shr(inst, 7), 5);
    AndMask(Shr(inst, 20), 5);
    Pow2Words();
    BitwiseBound(inst, 0xffff_f000, 32);
  }
}
