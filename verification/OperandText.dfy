/** The controller's operand parser, character by character, and the proof that parsing the
    disassembler's text of an addressing mode yields that mode's template. */
module OperandText {
  import opened Machine
  import opened Address

  datatype Result<+T> = Ok(value: T) | Err(error: ParseError)

  /** The reasons `decode_from_asm_operands` throws with. */
  datatype ParseError =
    | OperandShape | MissingDest | DestClass | TooWide | AddressOperand | EmptyAddress
    | BaseRegister | IndexRegister | IndexExtend | ShiftArgument | Immediate

  // ----- the C and C++ library calls used by the parser -----

  predicate IsSpace(c: char) {
    c == ' ' || '\t' <= c <= '\r'
  }

  predicate IsDigit(c: char) { '0' <= c <= '9' }

  function TrimLeft(s: string): string {
    if s != "" && IsSpace(s[0]) then TrimLeft(s[1..]) else s
  }

  function TrimRight(s: string): string {
    if s != "" && IsSpace(s[|s| - 1]) then TrimRight(s[..|s| - 1]) else s
  }

  function Trim(s: string): string { TrimRight(TrimLeft(s)) }

  /** `std::string::find`: index of the first `c`, or the length when there is none. */
  function Find(s: string, c: char): (i: nat)
    ensures i <= |s|
    ensures i < |s| ==> s[i] == c
  {
    if s == "" || s[0] == c then 0 else 1 + Find(s[1..], c)
  }

  /** `split_comma`: std::getline on ',', each item trimmed. */
  function SplitComma(s: string): seq<string>
    decreases |s|
  {
    if s == "" then []
    else
      var i := Find(s, ',');
      if i == |s| then [Trim(s)] else [Trim(s[..i])] + SplitComma(s[i + 1..])
  }

  function DigitIn(c: char, radix: nat): Option<nat> {
    if IsDigit(c) && (c - '0') as nat < radix then Some((c - '0') as nat)
    else if radix == 16 && 'a' <= c <= 'f' then Some((c - 'a') as nat + 10)
    else if radix == 16 && 'A' <= c <= 'F' then Some((c - 'A') as nat + 10)
    else None
  }

  /** Value of the longest digit prefix, continuing from `acc`. */
  function Number(s: string, radix: nat, acc: nat): nat {
    if s == "" || DigitIn(s[0], radix).None? then acc
    else Number(s[1..], radix, acc * radix + DigitIn(s[0], radix).value)
  }

  /** Unsigned part of strtoll/strtoul with base 0. */
  function NumberBase0(s: string): nat {
    if |s| >= 2 && s[0] == '0' && (s[1] == 'x' || s[1] == 'X') then Number(s[2..], 16, 0)
    else if s != "" && s[0] == '0' then Number(s, 8, 0)
    else Number(s, 10, 0)
  }

  function SignedBase0(s: string): int {
    var t := TrimLeft(s);
    if t != "" && t[0] == '-' then 0 - NumberBase0(t[1..])
    else if t != "" && t[0] == '+' then NumberBase0(t[1..])
    else NumberBase0(t)
  }

  function Clamp64(n: int): int {
    if n > 0x7FFF_FFFF_FFFF_FFFF then 0x7FFF_FFFF_FFFF_FFFF
    else if n < -0x8000_0000_0000_0000 then -0x8000_0000_0000_0000
    else n
  }

  /** strtoul, which saturates, cut to a byte. */
  function ToByte(n: int): nat {
    if n >= U64_LIMIT || n + U64_LIMIT <= 0 then 255 else n % 256
  }

  /** Conversion to a 32-bit int. */
  function ToInt32(n: int): int {
    var low := n % U32_LIMIT;
    if low >= 0x8000_0000 then low - U32_LIMIT else low
  }

  predicate AllDigits(s: string) { forall i :: 0 <= i < |s| ==> IsDigit(s[i]) }

  /** strtol in base 10 that must consume the whole string. */
  function WholeDecimal(s: string): Option<int> {
    var t := TrimLeft(s);
    var digits := if t != "" && (t[0] == '-' || t[0] == '+') then t[1..] else t;
    if digits == "" || !AllDigits(digits) then None
    else Some(if t[0] == '-' then 0 - Number(digits, 10, 0) else Number(digits, 10, 0))
  }

  // ----- the parser -----

  datatype RegName = RegName(reg: int, isSp: bool, is32: bool, isZero: bool)

  /** `parse_reg_name`. */
  function ParseReg(token: string): Option<RegName> {
    var t := Trim(token);
    if t == "sp" then Some(RegName(REG_SP, true, false, false))
    else if t == "xzr" || t == "wzr" then Some(RegName(-1, false, t[0] == 'w', true))
    else if |t| >= 2 && (t[0] == 'x' || t[0] == 'w') then
      var n := WholeDecimal(t[1..]);
      if n.Some? && 0 <= n.value <= 29 then Some(RegName(n.value, false, t[0] == 'w', false))
      else if t == "x30" then Some(RegName(REG_LR, false, false, false))
      else None
    else None
  }

  /** `parse_access_size_from_dest`. */
  function AccessSize(dest: string): Result<int> {
    var t := Trim(dest);
    if t == "" then Err(MissingDest)
    else match t[0]
      case 'b' => Ok(1)
      case 'h' => Ok(2)
      case 'w' => Ok(4)
      case 's' => Ok(4)
      case 'x' => Ok(8)
      case 'd' => Ok(8)
      case 'q' => Ok(16)
      case _ => Err(DestClass)
  }

  function ExtendOp(op: string): Option<Extend> {
    if op == "lsl" then Some(Lsl)
    else if op == "uxtw" then Some(Uxtw)
    else if op == "sxtw" then Some(Sxtw)
    else if op == "uxtx" then Some(Uxtx)
    else if op == "sxtx" then Some(Sxtx)
    else None
  }

  function ParseExtend(t: Template, item: string): Result<Template> {
    var ext := Trim(item);
    var space := Find(ext, ' ');
    var op := ext[..space];
    var arg := if space == |ext| then "" else Trim(ext[space + 1..]);
    if ExtendOp(op).None? then Err(IndexExtend)
    else
      var extended := t.(extend := ExtendOp(op).value);
      if arg == "" then Ok(extended)
      else if arg[0] != '#' then Err(ShiftArgument)
      else Ok(extended.(shift := ToByte(SignedBase0(arg[1..]))))
  }

  function ParseItems(t: Template, items: seq<string>): Result<Template> {
    if items == [] then Err(EmptyAddress)
    else
      var base := ParseReg(items[0]);
      if base.None? || base.value.isZero then Err(BaseRegister)
      else
        var based := t.(baseReg := base.value.reg, baseIsSp := base.value.isSp);
        if |items| == 1 then Ok(based)
        else if items[1] != "" && items[1][0] == '#' then
          Ok(based.(hasImm := true, imm := ToInt32(Clamp64(SignedBase0(items[1][1..])))))
        else
          var index := ParseReg(items[1]);
          if index.None? then Err(IndexRegister)
          else
            var indexed := based.(hasIndex := true, indexReg := index.value.reg,
                                  indexIs32 := index.value.is32, indexIsZero := index.value.isZero);
            if |items| == 2 then Ok(indexed) else ParseExtend(indexed, items[2])
  }

  function BlankTemplate(size: int): Template {
    Template(size, -1, false, false, 0, false, -1, false, false, ExtNone, 0)
  }

  /** The comma-separated items between the brackets, None when there are no brackets after the first comma. */
  function AddressItems(operands: string): Option<seq<string>> {
    var comma := Find(operands, ',');
    var lb := comma + Find(operands[comma..], '[');
    var rb := lb + Find(operands[lb..], ']');
    if lb == |operands| || rb == |operands| then None
    else Some(SplitComma(operands[lb + 1..rb]))
  }

  /** `decode_from_asm_operands`. */
  function ParseOperands(operands: string): Result<Template> {
    var comma := Find(operands, ',');
    if comma == |operands| then Err(OperandShape)
    else
      var size := AccessSize(operands[..comma]);
      if size.Err? then Err(size.error)
      else if size.value > 8 then Err(TooWide)
      else
        var items := AddressItems(operands);
        if items.None? then Err(AddressOperand)
        else ParseItems(BlankTemplate(size.value), items.value)
  }

  // ----- the disassembler's text -----

  function Digit(d: nat): char
    requires d < 10
  {
    '0' + d as char
  }

  function Decimal(n: nat): string {
    if n < 10 then [Digit(n)] else Decimal(n / 10) + [Digit(n % 10)]
  }

  function HexDigit(d: nat): char
    requires d < 16
  {
    if d < 10 then Digit(d) else 'a' + (d - 10) as char
  }

  function Hex(n: nat): string {
    if n < 16 then [HexDigit(n)] else Hex(n / 16) + [HexDigit(n % 16)]
  }

  /** A number as objdump prints it, or as llvm-objdump prints it in hexadecimal. */
  function Num(n: nat, hex: bool): string {
    if hex then "0x" + Hex(n) else Decimal(n)
  }

  function ImmText(imm: int, hex: bool): string {
    if imm < 0 then "#-" + Num(-imm, hex) else "#" + Num(imm, hex)
  }

  /** The register loaded or stored. Number 31 of the general registers is the zero register. */
  datatype Dest = Dest(cls: char, number: nat) | ZeroDest(wide: bool)

  predicate LegalDest(d: Dest) {
    d.Dest? ==> d.cls in {'b', 'h', 'w', 's', 'x', 'd', 'q'} && d.number <= if d.cls in {'w', 'x'} then 30 else 31
  }

  function DestText(d: Dest): string {
    match d
    case Dest(cls, n) => [cls] + Decimal(n)
    case ZeroDest(wide) => if wide then "xzr" else "wzr"
  }

  function DestSize(d: Dest): int {
    match d
    case Dest(cls, _) =>
      if cls == 'b' then 1 else if cls == 'h' then 2
      else if cls == 'w' || cls == 's' then 4
      else if cls == 'q' then 16 else 8
    case ZeroDest(wide) => if wide then 8 else 4
  }

  function BaseText(b: Base): string {
    if b.BaseSp? then "sp" else "x" + Decimal(b.n)
  }

  function IndexText(i: Index): string {
    match i
    case IndexX(n) => "x" + Decimal(n)
    case IndexW(n) => "w" + Decimal(n)
    case Xzr => "xzr"
    case Wzr => "wzr"
  }

  function AmountText(o: Option<nat>, hex: bool): string {
    if o.None? then "" else " #" + Num(o.value, hex)
  }

  function ExtendText(e: ArchExtend, hex: bool): string
    requires !e.NoExtend?
  {
    match e
    case ByLsl(a) => "lsl" + AmountText(Some(a), hex)
    case ByUxtw(o) => "uxtw" + AmountText(o, hex)
    case BySxtw(o) => "sxtw" + AmountText(o, hex)
    case BySxtx(o) => "sxtx" + AmountText(o, hex)
  }

  /** What follows the base register inside the brackets. */
  function InnerText(mode: Mode, hex: bool): string {
    match mode
    case BaseOnly => ""
    case Offset(imm) => ", " + ImmText(imm, hex)
    case PreIndex(imm) => ", " + ImmText(imm, hex)
    case PostIndex(_) => ""
    case Register(index, ext) =>
      ", " + IndexText(index) + if ext.NoExtend? then "" else ", " + ExtendText(ext, hex)
  }

  function TailText(mode: Mode, hex: bool): string {
    match mode
    case PreIndex(_) => "!"
    case PostIndex(imm) => ", " + ImmText(imm, hex)
    case _ => ""
  }

  function Text(d: Dest, base: Base, mode: Mode, hex: bool): string {
    DestText(d) + ", [" + BaseText(base) + InnerText(mode, hex) + "]" + TailText(mode, hex)
  }

  /** What the controller can handle of what the architecture has: at most 8 bytes, and no `w30` index. */
  predicate Supported(d: Dest, mode: Mode) {
    !(d.Dest? && d.cls == 'q') && !(mode.Register? && mode.index == IndexW(30))
  }

  // ----- library facts -----

  predicate Lacks(s: string, c: char) { forall i :: 0 <= i < |s| ==> s[i] != c }

  /** No blank at either end. */
  predicate Clean(s: string) { s != "" && !IsSpace(s[0]) && !IsSpace(s[|s| - 1]) }

  lemma {:induction false} FindFirst(a: string, c: char, b: string)
    requires Lacks(a, c)
    ensures Find(a + [c] + b, c) == |a|
  {
    var s := a + [c] + b;
    if a != "" {
      assert s[0] == a[0];
      assert s[1..] == a[1..] + [c] + b;
      FindFirst(a[1..], c, b);
    }
  }

  lemma {:induction false} FindNone(a: string, c: char)
    requires Lacks(a, c)
    ensures Find(a, c) == |a|
  {
    if a != "" {
      FindNone(a[1..], c);
    }
  }

  lemma TrimClean(s: string)
    requires Clean(s)
    ensures Trim(s) == s && Trim(" " + s) == s
  {
    assert (" " + s)[1..] == s;
    assert TrimLeft(s) == s;
  }

  lemma SplitOne(a: string)
    requires Lacks(a, ',') && a != ""
    ensures SplitComma(a) == [Trim(a)]
  {
    FindNone(a, ',');
  }

  lemma SplitFirst(a: string, b: string)
    requires Lacks(a, ',')
    ensures SplitComma(a + "," + b) == [Trim(a)] + SplitComma(b)
  {
    var s := a + "," + b;
    FindFirst(a, ',', b);
    assert s[..|a|] == a;
    assert s[|a| + 1..] == b;
  }

  // ----- decimal round trip -----

  lemma DigitRoundTrip(d: nat, radix: nat)
    ensures d < 10 && d < radix ==> IsDigit(Digit(d)) && DigitIn(Digit(d), radix) == Some(d)
  {
  }

  lemma {:induction false} DecimalDigits(n: nat)
    ensures Decimal(n) != "" && AllDigits(Decimal(n))
    ensures Decimal(n)[0] == '0' ==> n == 0
  {
    if n < 10 {
      DigitRoundTrip(n, 10);
    } else {
      DecimalDigits(n / 10);
      DigitRoundTrip(n % 10, 10);
      assert Decimal(n)[0] == Decimal(n / 10)[0];
    }
  }

  lemma {:induction false} NumberAppend(a: string, d: nat, acc: nat)
    requires AllDigits(a) && d < 10
    ensures Number(a + [Digit(d)], 10, acc) == Number(a, 10, acc) * 10 + d
  {
    DigitRoundTrip(d, 10);
    var s := a + [Digit(d)];
    if a == "" {
      assert s[1..] == "";
    } else {
      assert s[0] == a[0] && s[1..] == a[1..] + [Digit(d)];
      assert DigitIn(a[0], 10).Some?;
      NumberAppend(a[1..], d, acc * 10 + DigitIn(a[0], 10).value);
    }
  }

  lemma {:induction false} DecimalRoundTrip(n: nat)
    ensures Number(Decimal(n), 10, 0) == n
  {
    if n < 10 {
      DigitRoundTrip(n, 10);
      assert Decimal(n)[1..] == "";
    } else {
      DecimalDigits(n / 10);
      DecimalRoundTrip(n / 10);
      NumberAppend(Decimal(n / 10), n % 10, 0);
    }
  }

  lemma DecimalNumberBase0(n: nat)
    ensures NumberBase0(Decimal(n)) == n
  {
    DecimalDigits(n);
    DecimalRoundTrip(n);
    var s := Decimal(n);
    if n == 0 {
      DigitRoundTrip(0, 8);
      assert |s| == 1 && s[0] == '0' && s[1..] == "";
      assert Number(s, 8, 0) == Number(s[1..], 8, 0);
    }
  }

  lemma DecimalBase0(n: nat)
    ensures SignedBase0(Decimal(n)) == n && SignedBase0("-" + Decimal(n)) == 0 - n
  {
    DecimalDigits(n);
    DecimalNumberBase0(n);
    var s := Decimal(n);
    assert IsDigit(s[0]);
    assert ("-" + s)[1..] == s;
  }

  // ----- hexadecimal round trip -----

  predicate IsHex(c: char) { IsDigit(c) || 'a' <= c <= 'f' }

  predicate AllHex(s: string) { forall i :: 0 <= i < |s| ==> IsHex(s[i]) }

  lemma HexDigitRoundTrip(d: nat)
    ensures d < 16 ==> IsHex(HexDigit(d)) && DigitIn(HexDigit(d), 16) == Some(d)
  {
  }

  lemma {:induction false} HexDigits(n: nat)
    ensures Hex(n) != "" && AllHex(Hex(n))
  {
    if n < 16 {
      HexDigitRoundTrip(n);
    } else {
      HexDigits(n / 16);
      HexDigitRoundTrip(n % 16);
    }
  }

  lemma {:induction false} HexAppend(a: string, d: nat, acc: nat)
    requires AllHex(a) && d < 16
    ensures Number(a + [HexDigit(d)], 16, acc) == Number(a, 16, acc) * 16 + d
  {
    HexDigitRoundTrip(d);
    var s := a + [HexDigit(d)];
    if a == "" {
      assert s[1..] == "";
    } else {
      assert s[0] == a[0] && s[1..] == a[1..] + [HexDigit(d)];
      assert DigitIn(a[0], 16).Some?;
      HexAppend(a[1..], d, acc * 16 + DigitIn(a[0], 16).value);
    }
  }

  lemma {:induction false} HexRoundTrip(n: nat)
    ensures Number(Hex(n), 16, 0) == n
  {
    if n < 16 {
      HexDigitRoundTrip(n);
      assert Hex(n)[1..] == "";
    } else {
      HexDigits(n / 16);
      HexRoundTrip(n / 16);
      HexAppend(Hex(n / 16), n % 16, 0);
    }
  }

  lemma NumBase0(n: nat, hex: bool)
    ensures SignedBase0(Num(n, hex)) == n && SignedBase0("-" + Num(n, hex)) == 0 - n
  {
    if hex {
      hide Number, Hex;
      HexRoundTrip(n);
      var s := "0x" + Hex(n);
      assert s[0] == '0' && s[1] == 'x' && s[2..] == Hex(n);
      assert NumberBase0(s) == n;
      assert ("-" + s)[1..] == s;
    } else {
      DecimalBase0(n);
    }
  }

  /** An immediate in the range of any encoding survives printing, parsing and the conversion to int. */
  lemma ImmRoundTrip(imm: int, hex: bool)
    requires -0x8000_0000 <= imm < 0x8000_0000
    ensures ImmText(imm, hex) != "" && ImmText(imm, hex)[0] == '#'
    ensures ToInt32(Clamp64(SignedBase0(ImmText(imm, hex)[1..]))) == imm
  {
    hide SignedBase0, Num;
    if imm < 0 {
      NumBase0(-imm, hex);
      assert ImmText(imm, hex)[1..] == "-" + Num(-imm, hex);
    } else {
      NumBase0(imm, hex);
      assert ImmText(imm, hex)[1..] == Num(imm, hex);
    }
  }

  // ----- characters of the printed tokens -----

  /** Printable without separators, so every search and split sees it as one token. */
  predicate Token(s: string) {
    Clean(s) && Lacks(s, ',') && Lacks(s, '[') && Lacks(s, ']')
  }

  lemma DecimalToken(n: nat)
    ensures Token(Decimal(n)) && Lacks(Decimal(n), ' ')
  {
    DecimalDigits(n);
  }

  lemma NumToken(n: nat, hex: bool)
    ensures Token(Num(n, hex)) && Lacks(Num(n, hex), ' ')
  {
    if hex {
      hide Hex;
      HexDigits(n);
      assert forall i :: 2 <= i < |Num(n, hex)| ==> Num(n, hex)[i] == Hex(n)[i - 2];
    } else {
      DecimalToken(n);
    }
  }

  lemma TokenAfter(prefix: string, s: string)
    requires Token(s) && Token(prefix)
    ensures Token(prefix + s)
  {
    assert (prefix + s)[0] == prefix[0];
    assert (prefix + s)[|prefix + s| - 1] == s[|s| - 1];
  }

  lemma DecimalWhole(n: nat)
    ensures WholeDecimal(Decimal(n)) == Some(n)
  {
    DecimalDigits(n);
    DecimalRoundTrip(n);
    assert IsDigit(Decimal(n)[0]);
    assert TrimLeft(Decimal(n)) == Decimal(n);
  }

  lemma RegNameParses(letter: char, n: nat)
    requires letter == 'x' || letter == 'w'
    requires n <= 30
    ensures Token([letter] + Decimal(n)) && Lacks([letter] + Decimal(n), ' ')
    ensures ParseReg([letter] + Decimal(n)) ==
            if n == 30 && letter == 'w' then None else Some(RegName(n, false, letter == 'w', false))
  {
    hide Decimal, WholeDecimal, Trim;
    DecimalToken(n);
    DecimalDigits(n);
    DecimalWhole(n);
    var t := [letter] + Decimal(n);
    TokenAfter([letter], Decimal(n));
    TrimClean(t);
    assert t[1..] == Decimal(n);
    assert IsDigit(t[1]);
    DecimalThirty(n);
    assert t == "x30" ==> t[1..] == "30";
    assert letter == 'x' && n == 30 ==> t == "x30";
  }

  lemma DecimalThirty(n: nat)
    ensures Decimal(n) == "30" <==> n == 30
  {
    assert Decimal(30) == "30" by {
      assert Decimal(3) == "3";
    }
    DecimalRoundTrip(30);
    DecimalRoundTrip(n);
  }

  lemma BaseParses(base: Base)
    requires base.BaseX? ==> base.n <= 30
    ensures Token(BaseText(base))
    ensures ParseReg(BaseText(base)) == Some(RegName(BaseReg(base), base.BaseSp?, false, false))
  {
    if base.BaseX? {
      RegNameParses('x', base.n);
    } else {
      TrimClean("sp");
    }
  }

  lemma IndexParses(index: Index)
    requires index.IndexX? || index.IndexW? ==> index.n <= 30
    ensures Token(IndexText(index)) && IndexText(index)[0] != '#'
    ensures ParseReg(IndexText(index)) ==
            if index == IndexW(30) then None
            else Some(RegName(IndexReg(index), false, !Wide(index), index.Xzr? || index.Wzr?))
  {
    match index
    case IndexX(n) => RegNameParses('x', n);
    case IndexW(n) => RegNameParses('w', n);
    case Xzr => TrimClean("xzr");
    case Wzr => TrimClean("wzr");
  }

  lemma ExtendSplits(t: Template, word: string, arg: string)
    requires Clean(word) && Lacks(word, ' ') && Clean(arg) && arg[0] == '#'
    ensures Clean(word + " " + arg)
    ensures ParseExtend(t, word + " " + arg) ==
            if ExtendOp(word).None? then Err(IndexExtend)
            else Ok(t.(extend := ExtendOp(word).value, shift := ToByte(SignedBase0(arg[1..]))))
  {
    var ext := word + " " + arg;
    assert ext[|ext| - 1] == arg[|arg| - 1] && ext[0] == word[0];
    TrimClean(ext);
    assert ext == word + [' '] + arg;
    FindFirst(word, ' ', arg);
    assert ext[..|word|] == word && ext[|word| + 1..] == arg;
    TrimClean(arg);
  }

  lemma ExtendBare(t: Template, word: string)
    requires Clean(word) && Lacks(word, ' ') && ExtendOp(word).Some?
    ensures ParseExtend(t, word) == Ok(t.(extend := ExtendOp(word).value))
  {
    TrimClean(word);
    FindNone(word, ' ');
    assert word[..|word|] == word;
  }

  lemma ExtendWordParses(t: Template, word: string, o: Option<nat>, e: Extend, hex: bool)
    requires Token(word) && Lacks(word, ' ')
    requires ExtendOp(word) == Some(e)
    requires t.shift == 0 && (o.Some? ==> o.value < 256)
    ensures Token(word + AmountText(o, hex))
    ensures ParseExtend(t, word + AmountText(o, hex)) == Ok(t.(extend := e, shift := if o.Some? then o.value else 0))
  {
    hide ParseExtend, Trim, SignedBase0, Num, ExtendOp;
    if o.None? {
      assert word + AmountText(o, hex) == word;
      ExtendBare(t, word);
    } else {
      var digits := Num(o.value, hex);
      NumToken(o.value, hex);
      NumBase0(o.value, hex);
      TokenAfter("#", digits);
      assert word + AmountText(o, hex) == word + " " + ("#" + digits);
      ExtendSplits(t, word, "#" + digits);
      assert ("#" + digits)[1..] == digits;
    }
  }

  lemma ExtendParses(t: Template, e: ArchExtend, hex: bool)
    requires !e.NoExtend? && Amount(e) <= 4 && t.shift == 0
    ensures Token(ExtendText(e, hex))
    ensures ParseExtend(t, ExtendText(e, hex)) == Ok(t.(extend := ExtendOf(e), shift := Amount(e)))
  {
    hide ParseExtend, AmountText, Token;
    match e
    case ByLsl(a) =>
      WordToken("lsl");
      ExtendWordParses(t, "lsl", Some(a), Lsl, hex);
    case ByUxtw(o) =>
      WordToken("uxtw");
      ExtendWordParses(t, "uxtw", o, Uxtw, hex);
    case BySxtw(o) =>
      WordToken("sxtw");
      ExtendWordParses(t, "sxtw", o, Sxtw, hex);
    case BySxtx(o) =>
      WordToken("sxtx");
      ExtendWordParses(t, "sxtx", o, Sxtx, hex);
  }

  lemma WordToken(word: string)
    ensures ExtendOp(word).Some? ==> Token(word) && Lacks(word, ' ')
  {
  }

  lemma ImmToken(imm: int, hex: bool)
    ensures Token(ImmText(imm, hex))
  {
    hide Num;
    if imm < 0 {
      NumToken(-imm, hex);
      TokenAfter("#-", Num(-imm, hex));
    } else {
      NumToken(imm, hex);
      TokenAfter("#", Num(imm, hex));
    }
  }

  // ----- the whole operand string -----

  function Items(base: Base, mode: Mode, hex: bool): seq<string> {
    [BaseText(base)] + match mode
      case BaseOnly => []
      case Offset(imm) => [ImmText(imm, hex)]
      case PreIndex(imm) => [ImmText(imm, hex)]
      case PostIndex(_) => []
      case Register(index, ext) => [IndexText(index)] + if ext.NoExtend? then [] else [ExtendText(ext, hex)]
  }

  lemma SplitTokens(a: string, b: string)
    requires Token(a) && Token(b)
    ensures SplitComma(a + ", " + b) == [a, b]
    ensures SplitComma(" " + a + ", " + b) == [a, b]
    ensures SplitComma(" " + a) == [a]
  {
    hide SplitComma, Trim;
    TrimClean(a);
    TrimClean(b);
    SplitOne(" " + b);
    SplitOne(" " + a);
    SplitFirst(a, " " + b);
    assert a + ", " + b == a + "," + (" " + b);
    SplitFirst(" " + a, " " + b);
    assert " " + a + ", " + b == (" " + a) + "," + (" " + b);
  }

  lemma SplitThree(a: string, b: string, c: string)
    requires Token(a) && Token(b) && Token(c)
    ensures SplitComma(a + ", " + b + ", " + c) == [a, b, c]
    ensures Lacks(a + ", " + b + ", " + c, ']')
  {
    hide SplitComma, Trim;
    SplitTokens(b, c);
    TrimClean(a);
    SplitFirst(a, " " + b + ", " + c);
    assert a + ", " + b + ", " + c == a + "," + (" " + b + ", " + c);
  }

  lemma SplitTwo(a: string, b: string)
    requires Token(a) && Token(b)
    ensures SplitComma(a + ", " + b) == [a, b]
    ensures Lacks(a + ", " + b, ']')
  {
    hide SplitComma, Trim;
    SplitTokens(a, b);
  }

  lemma SplitRegister(base: Base, mode: Mode, hex: bool)
    requires Legal(base, mode) && mode.Register?
    ensures SplitComma(BaseText(base) + InnerText(mode, hex)) == Items(base, mode, hex)
    ensures Lacks(BaseText(base) + InnerText(mode, hex), ']')
  {
    hide SplitComma, ParseReg, IndexText, BaseText, ExtendText, ParseExtend;
    BaseParses(base);
    IndexParses(mode.index);
    var b, i := BaseText(base), IndexText(mode.index);
    if mode.ext.NoExtend? {
      SplitTwo(b, i);
      assert b + InnerText(mode, hex) == b + ", " + i;
    } else {
      ExtendParses(BlankTemplate(1), mode.ext, hex);
      SplitThree(b, i, ExtendText(mode.ext, hex));
      assert b + InnerText(mode, hex) == b + ", " + i + ", " + ExtendText(mode.ext, hex);
    }
  }

  lemma SplitInner(base: Base, mode: Mode, hex: bool)
    requires Legal(base, mode)
    ensures SplitComma(BaseText(base) + InnerText(mode, hex)) == Items(base, mode, hex)
    ensures Lacks(BaseText(base) + InnerText(mode, hex), ']')
  {
    hide SplitComma, ParseReg, BaseText, ImmText, Trim;
    var b := BaseText(base);
    if mode.Register? {
      SplitRegister(base, mode, hex);
    } else {
      BaseParses(base);
      if mode.Offset? || mode.PreIndex? {
        ImmToken(mode.imm, hex);
        SplitTwo(b, ImmText(mode.imm, hex));
        assert b + InnerText(mode, hex) == b + ", " + ImmText(mode.imm, hex);
      } else {
        TrimClean(b);
        SplitOne(b);
        assert b + InnerText(mode, hex) == b;
      }
    }
  }

  lemma FindsComma(dest: string, inner: string, tail: string)
    requires Lacks(dest, ',')
    ensures Find(dest + ", [" + inner + "]" + tail, ',') == |dest|
  {
    hide Find;
    var rest := " [" + inner + "]" + tail;
    assert dest + ", [" + inner + "]" + tail == dest + [','] + rest;
    FindFirst(dest, ',', rest);
  }

  lemma FindsLeft(inner: string, tail: string)
    ensures Find(", [" + inner + "]" + tail, '[') == 2
  {
    hide Find;
    var rest := inner + "]" + tail;
    assert ", [" + inner + "]" + tail == ", " + ['['] + rest;
    FindFirst(", ", '[', rest);
  }

  lemma FindsRight(inner: string, tail: string)
    requires Lacks(inner, ']')
    ensures Find("[" + inner + "]" + tail, ']') == |inner| + 1
  {
    hide Find;
    FindFirst("[" + inner, ']', tail);
  }

  /** Where the searches for ',', '[' and ']' land. */
  lemma FindsBrackets(dest: string, inner: string, tail: string)
    requires Lacks(dest, ',') && Lacks(inner, ']')
    ensures var s := dest + ", [" + inner + "]" + tail;
            && Find(s, ',') == |dest|
            && s[..|dest|] == dest
            && AddressItems(s) == Some(SplitComma(inner))
  {
    hide Find, SplitComma;
    var s := dest + ", [" + inner + "]" + tail;
    FindsComma(dest, inner, tail);
    FindsLeft(inner, tail);
    FindsRight(inner, tail);
    assert s[|dest|..] == ", [" + inner + "]" + tail;
    assert s[|dest| + 2..] == "[" + inner + "]" + tail;
    assert s[|dest| + 3..|dest| + 3 + |inner|] == inner;
  }

  lemma DestParses(d: Dest)
    requires LegalDest(d)
    ensures AccessSize(DestText(d)) == Ok(DestSize(d)) && Lacks(DestText(d), ',')
  {
    if d.Dest? {
      DecimalToken(d.number);
      TokenAfter([d.cls], Decimal(d.number));
    }
    TrimClean(DestText(d));
  }

  lemma RegisterItemsParse(size: int, base: Base, mode: Mode, hex: bool)
    requires Legal(base, mode) && mode.Register?
    ensures mode.index == IndexW(30) ==> ParseItems(BlankTemplate(size), Items(base, mode, hex)).Err?
    ensures mode.index != IndexW(30) ==>
              ParseItems(BlankTemplate(size), Items(base, mode, hex)) == Ok(Compile(size, base, mode))
  {
    hide ParseReg, ParseExtend, BaseText, IndexText, ExtendText, Token;
    BaseParses(base);
    IndexParses(mode.index);
    var items := Items(base, mode, hex);
    assert items[0] == BaseText(base) && items[1] == IndexText(mode.index);
    if mode.index != IndexW(30) {
      var indexed := Compile(size, base, mode).(extend := ExtNone, shift := 0);
      if mode.ext.NoExtend? {
        assert |items| == 2;
      } else {
        assert |items| == 3 && items[2] == ExtendText(mode.ext, hex);
        ExtendParses(indexed, mode.ext, hex);
        assert ParseItems(BlankTemplate(size), items) == ParseExtend(indexed, items[2]);
      }
    }
  }

  lemma ItemsParse(size: int, base: Base, mode: Mode, hex: bool)
    requires Legal(base, mode) && !mode.Register?
    ensures ParseItems(BlankTemplate(size), Items(base, mode, hex)) == Ok(Compile(size, base, mode))
  {
    hide ParseReg, BaseText, ImmText, SignedBase0, Token;
    BaseParses(base);
    if mode.Offset? || mode.PreIndex? {
      ImmRoundTrip(mode.imm, hex);
    }
  }

  // ----- main results -----

  /** Parsing the text of a legal load/store operand succeeds exactly on the supported forms and then
      yields the template of the addressing mode. */
  lemma {:induction false} ParsesExactlySupported(d: Dest, base: Base, mode: Mode, hex: bool)
    requires Legal(base, mode) && LegalDest(d)
    ensures ParseOperands(Text(d, base, mode, hex)).Ok? <==> Supported(d, mode)
    ensures Supported(d, mode) ==>
              ParseOperands(Text(d, base, mode, hex)) == Ok(Compile(DestSize(d), base, mode))
  {
    hide Find, SplitComma, AddressItems, ParseItems, Items, InnerText, BaseText, TailText, DestText, Compile;
    hide AccessSize;
    var inner := BaseText(base) + InnerText(mode, hex);
    SplitInner(base, mode, hex);
    DestParses(d);
    FindsBrackets(DestText(d), inner, TailText(mode, hex));
    assert Text(d, base, mode, hex) == DestText(d) + ", [" + inner + "]" + TailText(mode, hex);
    if mode.Register? {
      RegisterItemsParse(DestSize(d), base, mode, hex);
    } else {
      ItemsParse(DestSize(d), base, mode, hex);
    }
  }

  /** A literal load has no address operand and is refused, whatever the disassembler prints for its place. */
  lemma {:induction false} LiteralIsRefused(d: Dest, place: string)
    requires LegalDest(d) && Lacks(place, '[')
    ensures ParseOperands(DestText(d) + ", " + place).Err?
  {
    hide Find, AccessSize, DestText, SplitComma;
    DestParses(d);
    var s := DestText(d) + ", " + place;
    assert s == DestText(d) + [','] + (" " + place);
    FindFirst(DestText(d), ',', " " + place);
    assert s[|DestText(d)|..] == ", " + place;
    FindNone(", " + place, '[');
  }

  /** From text to address: for every supported operand and every register file, what the kernel
      computes from the shipped template is the architectural address, the watch width is the access
      width, and the kernel accepts the target. */
  lemma {:induction false} TextToAddress(d: Dest, base: Base, mode: Mode, hex: bool, regs: Regs, absPc: u64)
    requires Legal(base, mode) && LegalDest(d) && Supported(d, mode) && absPc != 0
    ensures exists t :: ParseOperands(Text(d, base, mode, hex)) == Ok(t)
                     && EffectiveAddress(ToUapi(t), regs) == ArchAddress(base, mode, regs)
                     && ToUapi(t).accessSize == DestSize(d)
                     && Validates(absPc, ToUapi(t))
  {
    hide ParseOperands, Text, EffectiveAddress, ArchAddress, Validates;
    ParsesExactlySupported(d, base, mode, hex);
    var t := Compile(DestSize(d), base, mode);
    CompilePreservesAddress(DestSize(d), base, mode, regs, absPc);
    assert t.accessSize == DestSize(d);
  }

  lemma {:induction false} TrimRightKeepsHead(s: string)
    requires s != "" && !IsSpace(s[0])
    ensures TrimRight(s) != "" && TrimRight(s)[0] == s[0]
  {
    if IsSpace(s[|s| - 1]) {
      TrimRightKeepsHead(s[..|s| - 1]);
    }
  }

  /** Register numbers the parser can produce. */
  lemma RegRange(token: string)
    requires ParseReg(token).Some?
    ensures var r := ParseReg(token).value;
            && (r.isSp <==> Trim(token) == "sp")
            && (r.isSp ==> r.reg == REG_SP && !r.isZero)
            && (!r.isSp && !r.isZero ==> 0 <= r.reg <= REG_LR)
  {
  }

  lemma ItemsValidate(size: int, items: seq<string>, absPc: u64)
    requires size in {1, 2, 4, 8} && absPc != 0
    requires ParseItems(BlankTemplate(size), items).Ok?
    ensures items != []
    ensures Validates(absPc, ToUapi(ParseItems(BlankTemplate(size), items).value)) <==>
            !(|items| >= 2 && Trim(items[1]) == "sp")
  {
    hide ParseReg, Trim, SignedBase0, ExtendOp, Find;
    RegRange(items[0]);
    if |items| >= 2 {
      if items[1] != "" && items[1][0] == '#' {
        HashIsNotSp(items[1]);
      } else {
        RegRange(items[1]);
      }
    }
  }

  lemma HashIsNotSp(item: string)
    requires item != "" && item[0] == '#'
    ensures Trim(item) != "sp"
  {
    TrimRightKeepsHead(item);
  }

  /** For any text at all: a parsed template is refused by the kernel exactly when the second bracket
      item names the stack pointer as index. */
  lemma {:induction false} KernelRefusesOnlySpIndex(operands: string, absPc: u64)
    requires absPc != 0
    ensures var parsed, items := ParseOperands(operands), AddressItems(operands);
            parsed.Ok? ==>
              && items.Some? && items.value != []
              && (Validates(absPc, ToUapi(parsed.value)) <==> !(|items.value| >= 2 && Trim(items.value[1]) == "sp"))
  {
    hide ParseItems, AddressItems, Find, Trim, Validates;
    if ParseOperands(operands).Ok? {
      var size := AccessSize(operands[..Find(operands, ',')]).value;
      ItemsValidate(size, AddressItems(operands).value, absPc);
    }
  }

  /** Such a text exists. */
  lemma {:induction false} SpIndexIsRefused()
    ensures ParseOperands("x0, [x1, sp]").Ok?
    ensures !Validates(4, ToUapi(ParseOperands("x0, [x1, sp]").value))
  {
    hide Find, SplitComma, Trim, AddressItems, ParseReg, Validates;
    var s := "x0, [x1, sp]";
    assert s == "x0" + ", [" + ("x1" + ", " + "sp") + "]" + "";
    SplitTwo("x1", "sp");
    FindsBrackets("x0", "x1" + ", " + "sp", "");
    BaseParses(BaseX(1));
    BaseParses(BaseSp);
    DecimalOne();
    DestParses(Dest('x', 0));
    TrimClean("sp");
    KernelRefusesOnlySpIndex(s, 4);
  }

  lemma DecimalOne()
    ensures BaseText(BaseX(1)) == "x1" && DestText(Dest('x', 0)) == "x0"
  {
  }
}
