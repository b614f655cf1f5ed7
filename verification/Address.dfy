/** Effective addresses: the template the controller ships, the kernel's evaluation of it, and the
    address the architecture defines for a load/store addressing mode. */
module Address {
  import opened Machine

  // perf register numbers
  const REG_LR: int := 30
  const REG_SP: int := 31
  const REG_PC: int := 32

  /** User registers at a breakpoint: x0..x30, sp, pc. */
  datatype RegFile = RegFile(x: seq<u64>, sp: u64, pc: u64)
  type Regs = r: RegFile | |r.x| == 31 witness RegFile(seq(31, _ => 0), 0, 0)

  // numbering of `enum rd_wpctl_extend_kind`
  datatype Extend = ExtNone | Lsl | Uxtw | Sxtw | Uxtx | Sxtx

  function ExtendCode(e: Extend): nat {
    match e
    case ExtNone => 0
    case Lsl => 1
    case Uxtw => 2
    case Sxtw => 3
    case Uxtx => 4
    case Sxtx => 5
  }

  /** `TargetedRdProfiler::decode_template`. */
  datatype Template = Template(
    accessSize: int, baseReg: int, baseIsSp: bool, hasImm: bool, imm: int,
    hasIndex: bool, indexReg: int, indexIs32: bool, indexIsZero: bool, extend: Extend, shift: nat)

  /** `struct rd_wpctl_decode`. */
  datatype Decode = Decode(
    accessSize: nat, baseReg: int, baseIsSp: nat, hasImm: nat, hasIndex: nat, indexIs32: nat,
    indexIsZero: nat, extend: nat, shift: nat, indexReg: int, imm: int)

  function Flag(b: bool): nat { if b then 1 else 0 }

  function ToUapi(t: Template): Decode {
    Decode(t.accessSize % U32_LIMIT, t.baseReg, Flag(t.baseIsSp), Flag(t.hasImm), Flag(t.hasIndex),
           Flag(t.indexIs32), Flag(t.indexIsZero), ExtendCode(t.extend), t.shift, t.indexReg, t.imm)
  }

  // ----- kernel side -----

  function ReadReg(regs: Regs, reg: int, isSp: bool): u64 {
    if isSp || reg == REG_SP then regs.sp
    else if 0 <= reg <= 29 then regs.x[reg]
    else if reg == REG_LR then regs.x[30]
    else if reg == REG_PC then regs.pc
    else 0
  }

  function Low32(v: u64): u64 { v % U32_LIMIT }

  /** (s64)(s32)v, as the bits of a u64. */
  function SignExtend32(v: u64): u64 {
    var low := v % U32_LIMIT;
    if low >= 0x8000_0000 then low + (U64_LIMIT - U32_LIMIT) else low
  }

  function ShiftLeft(v: u64, amount: nat): u64 { Wrap(v * Pow2(amount)) }

  /** The `switch (dec->extend)` of the kernel on the raw index value. */
  function ExtendedIndex(raw: u64, is32: bool, extend: nat, shift: nat): u64 {
    if extend == 0 then if is32 then Low32(raw) else raw
    else if extend == 1 then ShiftLeft(if is32 then Low32(raw) else raw, shift)
    else if extend == 2 then ShiftLeft(Low32(raw), shift)
    else if extend == 3 then ShiftLeft(SignExtend32(raw), shift)
    else if extend == 4 || extend == 5 then ShiftLeft(raw, shift)
    else 0
  }

  function IndexValue(d: Decode, regs: Regs): u64 {
    var raw := if d.indexIsZero != 0 then 0 else ReadReg(regs, d.indexReg, false);
    ExtendedIndex(raw, d.indexIs32 != 0, d.extend, d.shift)
  }

  /** `rd_compute_effective_address`. */
  function EffectiveAddress(d: Decode, regs: Regs): u64 {
    var base := ReadReg(regs, d.baseReg, d.baseIsSp != 0);
    var withImm := if d.hasImm != 0 then Wrap(base + d.imm) else base;
    if d.hasIndex != 0 then Wrap(withImm + IndexValue(d, regs)) else withImm
  }

  /** `rd_validate_target`. */
  predicate Validates(absPc: u64, d: Decode) {
    && absPc != 0
    && d.accessSize in {1, 2, 4, 8}
    && 0 <= d.baseReg <= REG_SP
    && (d.hasIndex != 0 && d.indexIsZero == 0 ==> 0 <= d.indexReg <= REG_LR)
    && d.extend <= 5
  }

  // ----- architecture, section C1.3.3 of the Arm Architecture Reference Manual (DDI 0487) -----

  datatype Base = BaseX(n: nat) | BaseSp
  datatype Index = IndexX(n: nat) | IndexW(n: nat) | Xzr | Wzr

  datatype ArchExtend =
    | NoExtend
    | ByLsl(amount: nat)
    | ByUxtw(opt: Option<nat>)
    | BySxtw(opt: Option<nat>)
    | BySxtx(opt: Option<nat>)

  datatype Mode =
    | BaseOnly
    | Offset(imm: int)
    | PreIndex(imm: int)
    | PostIndex(imm: int)
    | Register(index: Index, ext: ArchExtend)

  predicate Wide(index: Index) { index.IndexX? || index.Xzr? }

  function Amount(e: ArchExtend): nat {
    match e
    case NoExtend => 0
    case ByLsl(a) => a
    case ByUxtw(o) => if o.Some? then o.value else 0
    case BySxtw(o) => if o.Some? then o.value else 0
    case BySxtx(o) => if o.Some? then o.value else 0
  }

  /** Register numbers, immediates, index width and shift amount the instruction encodings allow. */
  predicate Legal(base: Base, mode: Mode) {
    && (base.BaseX? ==> base.n <= 30)
    && match mode
       case BaseOnly => true
       case Offset(imm) => -256 <= imm <= 32760
       case PreIndex(imm) => -256 <= imm <= 255
       case PostIndex(imm) => -256 <= imm <= 255
       case Register(index, ext) =>
         && (index.IndexX? || index.IndexW? ==> index.n <= 30)
         && (if Wide(index) then ext.NoExtend? || ext.ByLsl? || ext.BySxtx? else ext.ByUxtw? || ext.BySxtw?)
         && Amount(ext) <= 4
  }

  function SignedValue(v: nat, bits: nat): int
    requires bits > 0
  {
    if v >= Pow2(bits - 1) then v - Pow2(bits) else v
  }

  function ArchBase(base: Base, regs: Regs): u64
    requires base.BaseX? ==> base.n <= 30
  {
    match base
    case BaseX(n) => regs.x[n]
    case BaseSp => regs.sp
  }

  function ArchIndex(index: Index, regs: Regs): u64
    requires index.IndexX? || index.IndexW? ==> index.n <= 30
  {
    match index
    case IndexX(n) => regs.x[n]
    case IndexW(n) => regs.x[n] % U32_LIMIT
    case Xzr => 0
    case Wzr => 0
  }

  /** The offset as a mathematical integer: the index read as signed or unsigned, times 2^amount. */
  function ArchScaled(v: u64, ext: ArchExtend): int {
    var scale := Pow2(Amount(ext));
    match ext
    case NoExtend => v
    case ByLsl(_) => v * scale
    case ByUxtw(_) => v * scale
    case BySxtw(_) => SignedValue(v, 32) * scale
    case BySxtx(_) => SignedValue(v, 64) * scale
  }

  /** The address accessed. Post-index adds the immediate to the base only after the access. */
  function ArchAddress(base: Base, mode: Mode, regs: Regs): u64
    requires Legal(base, mode)
  {
    var b := ArchBase(base, regs);
    match mode
    case BaseOnly => b
    case Offset(imm) => Wrap(b + imm)
    case PreIndex(imm) => Wrap(b + imm)
    case PostIndex(_) => b
    case Register(index, ext) => Wrap(b + ArchScaled(ArchIndex(index, regs), ext))
  }

  // ----- the template of a mode -----

  function BaseReg(base: Base): int { if base.BaseX? then base.n else REG_SP }

  function IndexReg(index: Index): int {
    match index
    case IndexX(n) => n
    case IndexW(n) => n
    case Xzr => -1
    case Wzr => -1
  }

  function ExtendOf(e: ArchExtend): Extend {
    match e
    case NoExtend => ExtNone
    case ByLsl(_) => Lsl
    case ByUxtw(_) => Uxtw
    case BySxtw(_) => Sxtw
    case BySxtx(_) => Sxtx
  }

  function Compile(size: int, base: Base, mode: Mode): Template {
    var t := Template(size, BaseReg(base), base.BaseSp?, false, 0, false, -1, false, false, ExtNone, 0);
    match mode
    case BaseOnly => t
    case Offset(imm) => t.(hasImm := true, imm := imm)
    case PreIndex(imm) => t.(hasImm := true, imm := imm)
    case PostIndex(_) => t
    case Register(index, ext) =>
      t.(hasIndex := true, indexReg := IndexReg(index), indexIs32 := !Wide(index),
         indexIsZero := index.Xzr? || index.Wzr?, extend := ExtendOf(ext), shift := Amount(ext))
  }

  // ----- proofs -----

  lemma WrapDouble(a: int, b: int)
    requires Wrap(a) == Wrap(b)
    ensures Wrap(2 * a) == Wrap(2 * b)
  {
    hide Wrap, Laps;
    SameWrap(2 * a, 2 * b, 2 * (Laps(a) - Laps(b)));
  }

  lemma {:induction false} WrapTimes(a: int, b: int, amount: nat)
    requires Wrap(a) == Wrap(b)
    ensures Wrap(a * Pow2(amount)) == Wrap(b * Pow2(amount))
  {
    hide Wrap;
    if amount > 0 {
      WrapTimes(a, b, amount - 1);
      WrapDouble(a * Pow2(amount - 1), b * Pow2(amount - 1));
      DoubleLast(a, Pow2(amount - 1));
      DoubleLast(b, Pow2(amount - 1));
    }
  }

  lemma DoubleLast(a: int, p: int)
    ensures a * (2 * p) == 2 * (a * p)
  {
  }

  lemma SignedWordMatches(v: u64)
    ensures SignExtend32(v) == Wrap(SignedValue(v % U32_LIMIT, 32))
  {
    TopPowers();
  }

  lemma SignedDoubleMatches(v: u64)
    ensures v == Wrap(SignedValue(v, 64))
  {
    TopPowers();
  }

  lemma ShiftMatches(v: u64, value: int, amount: nat)
    requires v == Wrap(value)
    ensures ShiftLeft(v, amount) == Wrap(value * Pow2(amount))
  {
    WrapTimes(v, value, amount);
  }

  /** The kernel's 64-bit index arithmetic is the architectural offset modulo 2^64. */
  lemma ExtendMatches(raw: u64, wide: bool, ext: ArchExtend)
    requires if wide then ext.NoExtend? || ext.ByLsl? || ext.BySxtx? else ext.ByUxtw? || ext.BySxtw?
    ensures ExtendedIndex(raw, !wide, ExtendCode(ExtendOf(ext)), Amount(ext))
         == Wrap(ArchScaled(if wide then raw else Low32(raw), ext))
  {
    match ext
    case NoExtend =>
    case ByLsl(amount) => ShiftMatches(raw, raw, amount);
    case ByUxtw(_) => ShiftMatches(Low32(raw), Low32(raw), Amount(ext));
    case BySxtw(_) =>
      SignedWordMatches(raw);
      ShiftMatches(SignExtend32(raw), SignedValue(Low32(raw), 32), Amount(ext));
    case BySxtx(_) =>
      SignedDoubleMatches(raw);
      ShiftMatches(raw, SignedValue(raw, 64), Amount(ext));
  }

  lemma IndexMatches(size: int, base: Base, mode: Mode, regs: Regs)
    requires Legal(base, mode) && mode.Register?
    ensures IndexValue(ToUapi(Compile(size, base, mode)), regs)
         == Wrap(ArchScaled(ArchIndex(mode.index, regs), mode.ext))
  {
    var d := ToUapi(Compile(size, base, mode));
    var raw: u64 := if d.indexIsZero != 0 then 0 else ReadReg(regs, d.indexReg, false);
    ExtendMatches(raw, Wide(mode.index), mode.ext);
  }

  lemma WrapSum(a: int, b: int)
    ensures Wrap(a + Wrap(b)) == Wrap(a + b)
  {
  }

  /** The index of any template, compiled from an instruction or not, as a mathematical integer: nothing
      for the zero register, a word read as signed or unsigned or a whole register, times 2^shift. */
  function IndexMeaning(d: Decode, regs: Regs): int
    requires d.indexIsZero == 0 ==> 0 <= d.indexReg <= 30
  {
    var x := if d.indexIsZero == 0 then regs.x[d.indexReg] else 0;
    var word := x % U32_LIMIT;
    match d.extend
    case 0 => if d.indexIs32 != 0 then word else x
    case 1 => (if d.indexIs32 != 0 then word else x) * Pow2(d.shift)
    case 2 => word * Pow2(d.shift)
    case 3 => (if word < 0x8000_0000 then word else word - U32_LIMIT) * Pow2(d.shift)
    case _ => x * Pow2(d.shift)
  }

  /** Whatever user space sends, a template the kernel validated names registers that exist: its address
      is base plus immediate plus index, modulo 2^64. */
  lemma ValidatedAddress(absPc: u64, d: Decode, regs: Regs)
    requires Validates(absPc, d)
    ensures var base := if d.baseIsSp != 0 || d.baseReg == 31 then regs.sp else regs.x[d.baseReg];
            var imm := if d.hasImm != 0 then d.imm else 0;
            EffectiveAddress(d, regs) == Wrap(base + imm + if d.hasIndex != 0 then IndexMeaning(d, regs) else 0)
  {
    hide IndexValue, IndexMeaning, Wrap;
    var base: u64 := ReadReg(regs, d.baseReg, d.baseIsSp != 0);
    var withImm := base + if d.hasImm != 0 then d.imm else 0;
    if d.hasIndex != 0 {
      ValidatedIndex(d, regs);
      WrapSum(withImm, IndexMeaning(d, regs));
      WrapTwice(withImm, IndexValue(d, regs));
    }
  }

  lemma ValidatedIndex(d: Decode, regs: Regs)
    requires d.extend <= 5 && (d.indexIsZero == 0 ==> 0 <= d.indexReg <= 30)
    ensures IndexValue(d, regs) == Wrap(IndexMeaning(d, regs))
  {
    hide Pow2, Wrap;
    var x: u64 := if d.indexIsZero == 0 then regs.x[d.indexReg] else 0;
    if d.extend == 3 {
      SignedWord(x);
      ShiftMatches(SignExtend32(x), if Low32(x) < 0x8000_0000 then Low32(x) else Low32(x) - U32_LIMIT, d.shift);
    }
  }

  lemma SignedWord(v: u64)
    ensures SignExtend32(v) == Wrap(if Low32(v) < 0x8000_0000 then Low32(v) else Low32(v) - U32_LIMIT)
  {
  }

  /** Compiling an addressing mode preserves its meaning on every register file, and the kernel accepts it. */
  lemma {:induction false} CompilePreservesAddress(size: int, base: Base, mode: Mode, regs: Regs, absPc: u64)
    requires Legal(base, mode) && size in {1, 2, 4, 8} && absPc != 0
    ensures EffectiveAddress(ToUapi(Compile(size, base, mode)), regs) == ArchAddress(base, mode, regs)
    ensures Validates(absPc, ToUapi(Compile(size, base, mode)))
  {
    hide IndexValue, ArchScaled;
    if mode.Register? {
      IndexMatches(size, base, mode, regs);
      WrapSum(ArchBase(base, regs), ArchScaled(ArchIndex(mode.index, regs), mode.ext));
    }
  }
}
