/** Arm SPE packets in the AUX ring: header tests, payloads and the packet sequence they spell. */
module SpePackets {
  import opened Machine

  type byte = n: nat | n < 256

  // ----- headers, with the masks written as arithmetic -----

  predicate IsAddress(h: byte) { h / 8 == 0xB0 / 8 }

  predicate IsCounter(h: byte) { h / 8 == 0x98 / 8 }

  predicate IsEvents(h: byte) { h / 64 == 1 && h % 16 == 2 }

  function ShortIndex(h: byte): nat { h % 8 }

  function SizeField(h: byte): nat { h / 16 % 4 }

  /** `arm_spe_payload_size`. */
  function PayloadSize(h: byte): nat { Pow2(SizeField(h)) }

  /** The mask tests on the header byte are these... */
  lemma KindMasks(b: bv8)
    ensures (b & 0xF8 == 0xB0) <==> IsAddress(b as nat)
    ensures (b & 0xF8 == 0x98) <==> IsCounter(b as nat)
  {
  }

  lemma EventsMask(b: bv8)
    ensures (b & 0xCF == 0x42) <==> IsEvents(b as nat)
  {
  }

  /** ...and so are its fields. */
  lemma IndexMask(b: bv8)
    ensures (b & 0x07) as nat == ShortIndex(b as nat)
  {
  }

  lemma SizeMask(b: bv8)
    ensures ((b & 0x30) >> 4) as nat == SizeField(b as nat)
  {
    var high := b >> 4;
    assert (b & 0x30) >> 4 == high & 3;
    HighNibble(b);
    LowBits(high);
  }

  lemma HighNibble(b: bv8)
    ensures (b >> 4) as nat == b as nat / 16
  {
  }

  lemma LowBits(b: bv8)
    ensures (b & 3) as nat == b as nat % 4
  {
  }

  lemma SizeCases(h: byte)
    ensures PayloadSize(h) == if SizeField(h) == 0 then 1 else if SizeField(h) == 1 then 2
                              else if SizeField(h) == 2 then 4 else 8
  {
    assert Pow2(0) == 1 && Pow2(1) == 2 && Pow2(2) == 4 && Pow2(3) == 8;
  }

  /** Payload bytes the parser consumes after the header. */
  function Consumed(h: byte): nat {
    if IsAddress(h) then 8
    else if IsCounter(h) || IsEvents(h) then PayloadSize(h)
    else if h == 0x00 || h == 0x01 then 0
    else if h == 0x71 then 8
    else if SizeField(h) == 0 then 1
    else if SizeField(h) == 1 then 2
    else if SizeField(h) == 2 then 4
    else 8
  }

  /** The parser's case-by-case sizes are one rule: padding and end carry nothing, every other packet
      what its size field says; counters therefore always carry two bytes. */
  lemma ConsumedRule(h: byte)
    ensures Consumed(h) == if h <= 1 then 0 else PayloadSize(h)
    ensures IsCounter(h) ==> Consumed(h) == 2
  {
    hide PayloadSize;
    SizeCases(h);
    assert IsAddress(h) ==> SizeField(h) == 3;
  }

  // ----- packets -----

  datatype Packet =
    | Address(index: nat, raw: u64)
    | Counter(index: nat, value: u64)
    | Events(size: nat, bits: u64)
    | Padding
    | End
    | Timestamp(time: u64)
    | Unknown(header: byte, payload: seq<byte>)

  /** Little-endian value of a payload. */
  function Le(bytes: seq<byte>): nat {
    if bytes == [] then 0 else bytes[0] + 256 * Le(bytes[1..])
  }

  function LeBytes(v: nat, size: nat): (r: seq<byte>)
    ensures |r| == size
  {
    if size == 0 then [] else [v % 256] + LeBytes(v / 256, size - 1)
  }

  /** Packets of the short formats, each with the payload its format can carry. */
  predicate ShortFormat(p: Packet) {
    match p
    case Address(i, _) => i < 8
    case Counter(i, v) => i < 8 && v < Pow2(16)
    case Events(size, bits) => (size == 1 || size == 2 || size == 4 || size == 8) && bits < Pow2(8 * size)
    case Padding => true
    case End => true
    case Timestamp(_) => true
    case Unknown(h, payload) =>
      !IsAddress(h) && !IsCounter(h) && !IsEvents(h) && h != 0 && h != 1 && h != 0x71 && |payload| == Consumed(h)
  }

  function HeaderOf(p: Packet): byte
    requires ShortFormat(p)
  {
    match p
    case Address(i, _) => 0xB0 + i
    case Counter(i, _) => 0x98 + i
    case Events(size, _) => if size == 1 then 0x42 else if size == 2 then 0x52 else if size == 4 then 0x62 else 0x72
    case Padding => 0x00
    case End => 0x01
    case Timestamp(_) => 0x71
    case Unknown(h, _) => h
  }

  function PayloadOf(p: Packet): seq<byte>
    requires ShortFormat(p)
  {
    match p
    case Address(_, raw) => LeBytes(raw, 8)
    case Counter(_, v) => LeBytes(v, 2)
    case Events(size, bits) => LeBytes(bits, size)
    case Padding => []
    case End => []
    case Timestamp(t) => LeBytes(t, 8)
    case Unknown(_, payload) => payload
  }

  /** The wire format. */
  function Encode(p: Packet): seq<byte>
    requires ShortFormat(p)
  {
    [HeaderOf(p)] + PayloadOf(p)
  }

  lemma {:induction false} LeBound(bytes: seq<byte>)
    ensures Le(bytes) < Pow2(8 * |bytes|)
  {
    if bytes != [] {
      LeBound(bytes[1..]);
      Pow2Add(8, 8 * |bytes[1..]|);
      assert Pow2(8) == 256;
    }
  }

  lemma {:induction false} LeOfBytes(v: nat, size: nat)
    requires v < Pow2(8 * size)
    ensures Le(LeBytes(v, size)) == v
  {
    if size > 0 {
      Pow2Add(8, 8 * (size - 1));
      assert Pow2(8) == 256;
      LeOfBytes(v / 256, size - 1);
      assert LeBytes(v, size)[1..] == LeBytes(v / 256, size - 1);
    }
  }

  lemma {:induction false} BytesOfLe(bytes: seq<byte>)
    ensures LeBytes(Le(bytes), |bytes|) == bytes
  {
    if bytes != [] {
      BytesOfLe(bytes[1..]);
      assert Le(bytes) / 256 == Le(bytes[1..]) && Le(bytes) % 256 == bytes[0];
    }
  }

  /** Every payload fits its field. */
  lemma ReadFits(h: byte, payload: seq<byte>)
    requires |payload| == Consumed(h)
    ensures Le(payload) < U64_LIMIT && Le(payload) < Pow2(8 * |payload|)
    ensures IsCounter(h) ==> |payload| == 2
    ensures IsEvents(h) ==>
              PayloadSize(h) == |payload| && (|payload| == 1 || |payload| == 2 || |payload| == 4 || |payload| == 8)
  {
    hide Pow2, PayloadSize, IsAddress, IsEvents;
    SizeCases(h);
    ConsumedRule(h);
    LeBound(payload);
    TopPowers();
    Pow2Grows(8 * |payload|, 64);
  }

  /** One packet as the parser reads it: its header and the bytes that follow. */
  function Read(h: byte, payload: seq<byte>): (p: Packet)
    requires |payload| == Consumed(h)
    ensures ShortFormat(p)
  {
    ReadFits(h, payload);
    if IsAddress(h) then Address(ShortIndex(h), Le(payload))
    else if IsCounter(h) then Counter(ShortIndex(h), Le(payload))
    else if IsEvents(h) then Events(PayloadSize(h), Le(payload))
    else if h == 0x00 then Padding
    else if h == 0x01 then End
    else if h == 0x71 then Timestamp(Le(payload))
    else Unknown(h, payload)
  }

  lemma HeaderSaysKind(p: Packet)
    requires ShortFormat(p)
    ensures var h := HeaderOf(p);
            && Consumed(h) == |PayloadOf(p)|
            && (IsAddress(h) <==> p.Address?) && (IsCounter(h) <==> p.Counter?) && (IsEvents(h) <==> p.Events?)
            && (h == 0x00 <==> p.Padding?) && (h == 0x01 <==> p.End?) && (h == 0x71 <==> p.Timestamp?)
            && (p.Address? || p.Counter? ==> ShortIndex(h) == p.index) && (p.Events? ==> PayloadSize(h) == p.size)
  {
    hide LeBytes, PayloadSize, Pow2;
    SizeCases(HeaderOf(p));
  }

  lemma PayloadSaysValue(p: Packet)
    requires ShortFormat(p)
    ensures p.Address? ==> Le(PayloadOf(p)) == p.raw
    ensures p.Counter? ==> Le(PayloadOf(p)) == p.value
    ensures p.Events? ==> Le(PayloadOf(p)) == p.bits
    ensures p.Timestamp? ==> Le(PayloadOf(p)) == p.time
  {
    hide Pow2, Le, LeBytes;
    TopPowers();
    match p
    case Address(_, raw) => LeOfBytes(raw, 8);
    case Counter(_, v) => LeOfBytes(v, 2);
    case Events(size, bits) => LeOfBytes(bits, size);
    case Padding =>
    case End =>
    case Timestamp(t) => LeOfBytes(t, 8);
    case Unknown(_, _) =>
  }

  /** Reading undoes encoding... */
  lemma ReadEncoded(p: Packet)
    requires ShortFormat(p)
    ensures var e := Encode(p);
            e != [] && |e| == 1 + Consumed(e[0]) && Read(e[0], e[1..]) == p
  {
    hide IsAddress, IsCounter, IsEvents, Consumed, ShortIndex, PayloadSize, Le, LeBytes;
    HeaderSaysKind(p);
    PayloadSaysValue(p);
    assert Encode(p)[1..] == PayloadOf(p);
  }

  /** ...and encoding undoes reading, for every header byte. */
  lemma EncodeRead(h: byte, payload: seq<byte>)
    requires |payload| == Consumed(h)
    ensures Encode(Read(h, payload)) == [h] + payload
  {
    hide Le, LeBytes, Pow2, Consumed, PayloadSize;
    BytesOfLe(payload);
    SizeCases(h);
    ConsumedRule(h);
  }

  // ----- the ring -----

  /** The AUX area: `size` bytes of ring, and what lies behind them. The parser takes a header's
      position modulo the size and then reads its payload straight on, so up to eight bytes behind. */
  datatype Area = Area(bytes: seq<byte>, size: nat)

  type Ring = r: Area | 1 <= r.size && r.size + 8 <= |r.bytes| witness Area(seq(9, _ => 0), 1)

  function Pos(r: Ring, at: nat): (pos: nat)
    ensures pos < r.size
  {
    at % r.size
  }

  /** The bytes the parser takes for the packet at `pos`. */
  function Step(r: Ring, pos: nat): (n: nat)
    requires pos < r.size
    ensures 1 <= n <= 9 && pos + n <= |r.bytes|
  {
    ConsumedRule(r.bytes[pos]);
    SizeCases(r.bytes[pos]);
    1 + Consumed(r.bytes[pos])
  }

  function PacketAt(r: Ring, pos: nat): (p: Packet)
    requires pos < r.size
    ensures ShortFormat(p)
  {
    Read(r.bytes[pos], r.bytes[pos + 1..pos + Step(r, pos)])
  }

  /** The packets one AUX record of `len` bytes at offset `at` is taken for. */
  ghost function Decode(r: Ring, at: nat, len: nat): (ps: seq<Packet>)
    ensures forall i :: 0 <= i < |ps| ==> ShortFormat(ps[i])
    decreases len
  {
    if len == 0 then []
    else
      var n := Step(r, Pos(r, at));
      [PacketAt(r, Pos(r, at))] + if n < len then Decode(r, at + n, len - n) else []
  }

  /** Reading straight on from each header, the area holds these packets from offset `at` on. */
  ghost predicate Holds(r: Ring, at: nat, ps: seq<Packet>)
    decreases |ps|
  {
    ps == [] ||
    (ShortFormat(ps[0]) &&
     var e := Encode(ps[0]); var pos := Pos(r, at);
     pos + |e| <= |r.bytes| && r.bytes[pos..pos + |e|] == e && Holds(r, at + |e|, ps[1..]))
  }

  ghost function Size(ps: seq<Packet>): nat
    requires forall i :: 0 <= i < |ps| ==> ShortFormat(ps[i])
  {
    if ps == [] then 0 else |Encode(ps[0])| + Size(ps[1..])
  }

  lemma {:induction false} HeldAreShort(r: Ring, at: nat, ps: seq<Packet>)
    requires Holds(r, at, ps)
    ensures forall i :: 0 <= i < |ps| ==> ShortFormat(ps[i])
    decreases |ps|
  {
    hide Encode, ShortFormat;
    if ps != [] {
      HeldAreShort(r, at + |Encode(ps[0])|, ps[1..]);
      assert ps == [ps[0]] + ps[1..];
    }
  }

  lemma PacketHeld(r: Ring, pos: nat, p: Packet)
    requires pos < r.size && ShortFormat(p)
    requires pos + |Encode(p)| <= |r.bytes| && r.bytes[pos..pos + |Encode(p)|] == Encode(p)
    ensures PacketAt(r, pos) == p && Step(r, pos) == |Encode(p)|
  {
    hide Read, Encode, ShortFormat;
    ReadEncoded(p);
    var e := Encode(p);
    assert r.bytes[pos] == r.bytes[pos..pos + |e|][0];
    assert r.bytes[pos + 1..pos + |e|] == e[1..];
  }

  /** Whatever packets the area holds, the parser finds exactly those. */
  lemma {:induction false} DecodeFindsHeld(r: Ring, at: nat, ps: seq<Packet>)
    requires Holds(r, at, ps)
    ensures forall i :: 0 <= i < |ps| ==> ShortFormat(ps[i])
    ensures Decode(r, at, Size(ps)) == ps
    decreases |ps|
  {
    hide Pos, Encode, ShortFormat, PacketAt, Step;
    HeldAreShort(r, at, ps);
    if ps != [] {
      PacketHeld(r, Pos(r, at), ps[0]);
      DecodeFindsHeld(r, at + |Encode(ps[0])|, ps[1..]);
      assert Size(ps) == |Encode(ps[0])| + Size(ps[1..]);
      SizeZero(ps[1..]);
    }
  }

  lemma SizeZero(ps: seq<Packet>)
    requires forall i :: 0 <= i < |ps| ==> ShortFormat(ps[i])
    ensures Size(ps) == 0 <==> ps == []
  {
    hide ShortFormat;
    if ps != [] {
      ReadEncoded(ps[0]);
    }
  }

  lemma FoundIsEncoded(r: Ring, pos: nat)
    requires pos < r.size
    ensures r.bytes[pos..pos + Step(r, pos)] == Encode(PacketAt(r, pos))
  {
    hide Encode, ShortFormat, Read, Consumed;
    var n := Step(r, pos);
    EncodeRead(r.bytes[pos], r.bytes[pos + 1..pos + n]);
    assert r.bytes[pos..pos + n] == [r.bytes[pos]] + r.bytes[pos + 1..pos + n];
  }

  /** Whatever bytes there are, they are held as the packets found, so no byte is misread. */
  lemma {:induction false} DecodedIsHeld(r: Ring, at: nat, len: nat)
    ensures Holds(r, at, Decode(r, at, len)) && Size(Decode(r, at, len)) >= len
    decreases len
  {
    hide Encode, ShortFormat, Step, PacketAt, Pos;
    if len > 0 {
      var pos := Pos(r, at);
      var n := Step(r, pos);
      var ps := Decode(r, at, len);
      FoundIsEncoded(r, pos);
      if n < len {
        DecodedIsHeld(r, at + n, len - n);
        assert ps[1..] == Decode(r, at + n, len - n);
      } else {
        assert ps[1..] == [];
      }
    }
  }

  // ----- packets across the end of the ring -----

  /** The ring proper holds these packets from offset `at` on, each byte at its offset modulo the size. */
  ghost predicate RingHolds(r: Ring, at: nat, ps: seq<Packet>)
    decreases |ps|
  {
    ps == [] ||
    (ShortFormat(ps[0]) &&
     var e := Encode(ps[0]);
     (forall i :: 0 <= i < |e| ==> r.bytes[Pos(r, at + i)] == e[i]) && RingHolds(r, at + |e|, ps[1..]))
  }

  /** What a packet of `n` bytes at `pos` has beyond the end of the ring is repeated behind it. */
  ghost predicate TailMirrored(r: Ring, pos: nat, n: nat)
    requires pos + n <= |r.bytes|
  {
    forall i :: r.size <= i < pos + n ==> r.bytes[i] == r.bytes[Pos(r, i)]
  }

  /** So it is for each of these packets that crosses the end. */
  ghost predicate TailsMirrored(r: Ring, at: nat, ps: seq<Packet>)
    decreases |ps|
  {
    ps == [] ||
    (ShortFormat(ps[0]) &&
     var e := Encode(ps[0]);
     Pos(r, at) + |e| <= |r.bytes| && TailMirrored(r, Pos(r, at), |e|) && TailsMirrored(r, at + |e|, ps[1..]))
  }

  lemma LapIsLong(k: int, n: nat)
    ensures k >= 1 ==> k * n >= n
  {
  }

  lemma ModIs(x: int, q: int, r: nat, n: nat)
    requires r < n && x == q * n + r
    ensures x % n == r
  {
    var d, m := x / n, x % n;
    assert x == d * n + m;
    assert (q - d) * n == m - r && (d - q) * n == r - m;
    if q > d {
      LapIsLong(q - d, n);
    } else if d > q {
      LapIsLong(d - q, n);
    }
  }

  lemma PosShift(r: Ring, at: nat, i: nat)
    ensures Pos(r, at + i) == Pos(r, Pos(r, at) + i)
    ensures Pos(r, at) + i < r.size ==> Pos(r, at + i) == Pos(r, at) + i
  {
    var n, q, p := r.size, at / r.size, Pos(r, at);
    var laps, rest := (p + i) / n, (p + i) % n;
    assert at == q * n + p && p + i == laps * n + rest;
    assert at + i == (q + laps) * n + rest;
    ModIs(at + i, q + laps, rest, n);
    if p + i < n {
      ModIs(p + i, 0, p + i, n);
    }
  }

  lemma EncodedSize(p: Packet)
    requires ShortFormat(p)
    ensures 1 <= |Encode(p)| <= 9
  {
    hide Encode, ShortFormat;
    ReadEncoded(p);
    ConsumedRule(Encode(p)[0]);
    SizeCases(Encode(p)[0]);
  }

  /** The straight read of one packet finds what the ring holds exactly when its tail is mirrored. */
  lemma StraightIsCyclic(r: Ring, at: nat, e: seq<byte>)
    requires |e| <= 9 && forall i :: 0 <= i < |e| ==> r.bytes[Pos(r, at + i)] == e[i]
    ensures Pos(r, at) + |e| <= |r.bytes|
    ensures r.bytes[Pos(r, at)..Pos(r, at) + |e|] == e <==> TailMirrored(r, Pos(r, at), |e|)
  {
    hide Pos;
    var pos := Pos(r, at);
    var read := r.bytes[pos..pos + |e|];
    forall i | 0 <= i < |e|
      ensures read[i] == e[i] <==> (pos + i >= r.size ==> r.bytes[pos + i] == r.bytes[Pos(r, pos + i)])
    {
      PosShift(r, at, i);
    }
    if read == e {
      forall j | r.size <= j < pos + |e|
        ensures r.bytes[j] == r.bytes[Pos(r, j)]
      {
        assert read[j - pos] == e[j - pos];
      }
    }
    if TailMirrored(r, pos, |e|) {
      forall i | 0 <= i < |e|
        ensures read[i] == e[i]
      {
        assert pos + i >= r.size ==> r.bytes[pos + i] == r.bytes[Pos(r, pos + i)];
      }
    }
  }

  lemma {:induction false} HoldsIffMirrored(r: Ring, at: nat, ps: seq<Packet>)
    requires RingHolds(r, at, ps)
    ensures Holds(r, at, ps) <==> TailsMirrored(r, at, ps)
    decreases |ps|
  {
    hide Pos, Encode, ShortFormat, TailMirrored;
    if ps != [] {
      EncodedSize(ps[0]);
      StraightIsCyclic(r, at, Encode(ps[0]));
      HoldsIffMirrored(r, at + |Encode(ps[0])|, ps[1..]);
    }
  }

  lemma {:induction false} RingHeldAreShort(r: Ring, at: nat, ps: seq<Packet>)
    requires RingHolds(r, at, ps)
    ensures forall i :: 0 <= i < |ps| ==> ShortFormat(ps[i])
    decreases |ps|
  {
    hide Encode, ShortFormat, Pos;
    if ps != [] {
      RingHeldAreShort(r, at + |Encode(ps[0])|, ps[1..]);
      assert ps == [ps[0]] + ps[1..];
    }
  }

  /** The packets the ring holds are the ones found exactly when every packet that crosses the end of
      the ring finds its tail repeated behind it; so always when none crosses. */
  lemma {:induction false} DecodeIff(r: Ring, at: nat, ps: seq<Packet>)
    requires RingHolds(r, at, ps)
    ensures forall i :: 0 <= i < |ps| ==> ShortFormat(ps[i])
    ensures Decode(r, at, Size(ps)) == ps <==> TailsMirrored(r, at, ps)
  {
    hide Pos, Encode, ShortFormat, Decode, Holds, TailsMirrored, RingHolds, Size;
    RingHeldAreShort(r, at, ps);
    HoldsIffMirrored(r, at, ps);
    if TailsMirrored(r, at, ps) {
      DecodeFindsHeld(r, at, ps);
    }
    if Decode(r, at, Size(ps)) == ps {
      DecodedIsHeld(r, at, Size(ps));
    }
  }

  /** No packet crosses the end of the ring. */
  ghost predicate NoneCrosses(r: Ring, at: nat, ps: seq<Packet>)
    requires forall i :: 0 <= i < |ps| ==> ShortFormat(ps[i])
    decreases |ps|
  {
    ps == [] || (Pos(r, at) + |Encode(ps[0])| <= r.size && NoneCrosses(r, at + |Encode(ps[0])|, ps[1..]))
  }

  lemma {:induction false} UncrossedIsMirrored(r: Ring, at: nat, ps: seq<Packet>)
    requires forall i :: 0 <= i < |ps| ==> ShortFormat(ps[i])
    requires NoneCrosses(r, at, ps)
    ensures TailsMirrored(r, at, ps)
    decreases |ps|
  {
    hide Pos, Encode, ShortFormat;
    if ps != [] {
      UncrossedIsMirrored(r, at + |Encode(ps[0])|, ps[1..]);
    }
  }

  /** A three-byte ring with zeros behind it. */
  function ZerosBehind(): Ring {
    Area([5, 6, 0x98] + seq(8, _ => 0), 3)
  }

  lemma CrossingIsHeld()
    ensures RingHolds(ZerosBehind(), 2, [Counter(0, 0x0605)])
  {
    var r, p, e := ZerosBehind(), Counter(0, 0x0605), [0x98, 5, 6];
    assert Pow2(16) == 65536 by {
      Pow2Add(8, 8);
      assert Pow2(8) == 256;
    }
    hide Pow2;
    assert LeBytes(0x0605, 2) == [5, 6] by {
      assert LeBytes(6, 1) == [6];
    }
    assert Encode(p) == e;
    hide Encode, LeBytes;
    assert Pos(r, 2) == 2 && Pos(r, 3) == 0 && Pos(r, 4) == 1;
    assert forall i :: 0 <= i < |e| ==> r.bytes[Pos(r, 2 + i)] == e[i] by {
      assert r.bytes[Pos(r, 2 + 0)] == e[0] && r.bytes[Pos(r, 2 + 1)] == e[1] && r.bytes[Pos(r, 2 + 2)] == e[2];
    }
    assert [p][1..] == [];
  }

  lemma CrossingIsReadAsZero()
    ensures Decode(ZerosBehind(), 2, 3) == [Counter(0, 0)]
  {
    var r := ZerosBehind();
    ConsumedRule(0x98);
    hide Consumed, PayloadSize, Pow2;
    assert Pos(r, 2) == 2 && Step(r, 2) == 3;
    assert r.bytes[3..5] == [0, 0];
    assert Le([0, 0]) == 0 by {
      assert Le([0]) == 0;
    }
  }

  /** A counter packet across the end of that ring: the ring holds the value 0x0605, the parser reads
      zero. */
  lemma CrossingMisreads()
    ensures RingHolds(ZerosBehind(), 2, [Counter(0, 0x0605)]) && Decode(ZerosBehind(), 2, 3) == [Counter(0, 0)]
  {
    hide RingHolds, Decode;
    CrossingIsHeld();
    CrossingIsReadAsZero();
  }
}
