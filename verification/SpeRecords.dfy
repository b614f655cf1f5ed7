/** From packets to sample records: the pending sample, the flushes and what each record holds. */
module SpeRecords {
  import opened Machine
  import opened SpePackets
  import opened Hotspots
  import opened Relocation

  // ----- the incremental parser -----

  /** `decode_arm_spe_address_payload`: instruction addresses get their top byte back in EL1 and EL2,
      data addresses lose their tag. */
  function DecodeAddress(index: nat, raw: u64): u64 {
    TopPowers();
    if index == 0 || index == 1 || index == 4 then
      var ns := raw / Pow2(63) % 2;
      var el := raw / Pow2(61) % 4;
      var low := raw % Pow2(56);
      if ns == 1 && (el == 1 || el == 2) then low + 0xFF * Pow2(56) else low
    else if index == 2 then raw % Pow2(56)
    else raw
  }

  /** An instruction address packet: the address's low 56 bits, exception level and security state. */
  function PackAddress(pc: u64, ns: nat, el: nat): nat {
    TopPowers();
    pc % Pow2(56) + el * Pow2(61) + ns * Pow2(63)
  }

  function TopByte(address: u64): nat {
    TopPowers();
    address / Pow2(56)
  }

  /** The sampled PC comes back exactly when its top byte is all ones in EL1 or EL2 of the non-secure
      state, and zero elsewhere. */
  lemma AddressIsRecovered(pc: u64, ns: nat, el: nat)
    requires ns < 2 && el < 4
    ensures PackAddress(pc, ns, el) < U64_LIMIT
    ensures DecodeAddress(0, PackAddress(pc, ns, el)) == pc <==>
            TopByte(pc) == if ns == 1 && (el == 1 || el == 2) then 0xFF else 0
  {
    hide Pow2;
    TopPowers();
    var raw := PackAddress(pc, ns, el);
    assert raw / Pow2(63) % 2 == ns;
    assert raw / Pow2(61) % 4 == el;
    assert raw % Pow2(56) == pc % Pow2(56);
  }

  /** A data address comes back without its top byte, so as it was exactly when that byte is zero; branch
      targets are treated as instruction addresses, and other addresses are left alone. */
  lemma OtherAddresses(index: nat, raw: u64)
    ensures DecodeAddress(2, raw) + TopByte(raw) * Pow2(56) == raw
    ensures DecodeAddress(2, raw) == raw <==> TopByte(raw) == 0
    ensures index == 1 || index == 4 ==> DecodeAddress(index, raw) == DecodeAddress(0, raw)
    ensures index == 3 || index > 4 ==> DecodeAddress(index, raw) == raw
  {
    hide Pow2;
    TopPowers();
  }

  const EMPTY := Sample(0, 0, 0, 0, 0, 0, Flags(false, false, false, false, false, false, false))

  /** What a packet other than end and timestamp does to the pending sample. */
  function Absorb(s: Sample, p: Packet): Sample {
    match p
    case Address(i, raw) =>
      if i == 0 then s.(pc := DecodeAddress(i, raw), flags := s.flags.(pc := true))
      else if i == 2 then s.(dataVa := DecodeAddress(i, raw), flags := s.flags.(dataVa := true))
      else s
    case Counter(i, v) =>
      if i == 0 then s.(latTotal := v, flags := s.flags.(total := true))
      else if i == 1 then s.(latIssue := v, flags := s.flags.(issue := true))
      else if i == 2 then s.(latXlat := v, flags := s.flags.(xlat := true))
      else s
    case Events(_, bits) => s.(eventBits := bits, flags := s.flags.(events := true))
    case _ => s
  }

  /** The record written for a pending sample; the execution latency is valid when the other three are
      and the 64-bit sum of issue and translation does not exceed the total. */
  function Finish(s: Sample): Sample {
    if s.flags.total && s.flags.issue && s.flags.xlat && s.latTotal >= Add64(s.latIssue, s.latXlat)
    then s.(flags := s.flags.(exec := true))
    else s
  }

  datatype Parser = Parser(
    pending: Sample, out: seq<Sample>, hot: Hot, unknown: nat, empties: nat, ends: nat, times: nat)

  /** `flush_pending_spe_sample_locked`. */
  function Flush(c: Env, s: Parser, fromEnd: bool): Parser {
    if !s.pending.flags.pc then s.(pending := EMPTY, empties := s.empties + 1)
    else
      var sample := Finish(s.pending);
      var t := s.(pending := EMPTY, out := s.out + [sample], hot := Record(c, s.hot, sample));
      if fromEnd then t.(ends := s.ends + 1) else t.(times := s.times + 1)
  }

  function Feed(c: Env, s: Parser, p: Packet): Parser {
    match p
    case End => Flush(c, s, true)
    case Timestamp(_) => Flush(c, s, false)
    case Padding => s
    case Unknown(_, _) => s.(unknown := s.unknown + 1)
    case _ => s.(pending := Absorb(s.pending, p))
  }

  function FeedAll(c: Env, s: Parser, ps: seq<Packet>): Parser
    decreases |ps|
  {
    if ps == [] then s else FeedAll(c, Feed(c, s, ps[0]), ps[1..])
  }

  const FRESH := Parser(EMPTY, [], Hot(map[], 0), 0, 0, 0, 0)

  lemma {:induction false} FeedAppend(c: Env, s: Parser, a: seq<Packet>, b: seq<Packet>)
    ensures FeedAll(c, s, a + b) == FeedAll(c, FeedAll(c, s, a), b)
    decreases |a|
  {
    hide Feed;
    if a == [] {
      assert a + b == b;
    } else {
      assert (a + b)[0] == a[0] && (a + b)[1..] == a[1..] + b;
      FeedAppend(c, Feed(c, s, a[0]), a[1..], b);
    }
  }

  // ----- what a record means -----

  datatype Field = Pc | DataVa | Total | Issue | Xlat | EventBits

  /** The value a packet carries for a field. */
  function Carries(p: Packet, f: Field): Option<u64> {
    match p
    case Address(i, raw) =>
      if (f.Pc? && i == 0) || (f.DataVa? && i == 2) then Some(DecodeAddress(i, raw)) else None
    case Counter(i, v) =>
      if (f.Total? && i == 0) || (f.Issue? && i == 1) || (f.Xlat? && i == 2) then Some(v) else None
    case Events(_, bits) => if f.EventBits? then Some(bits) else None
    case _ => None
  }

  predicate IsFlush(p: Packet) { p.End? || p.Timestamp? }

  /** In the bytes: each field is carried by the packets of one header, or of four in the case of the
      events, and a record is written at the two headers that end one. */
  lemma FieldsInBytes(h: byte, payload: seq<byte>)
    requires |payload| == Consumed(h)
    ensures Le(payload) < U64_LIMIT
    ensures var p, v := Read(h, payload), Le(payload);
            && Carries(p, Pc) == (if h == 0xB0 then Some(DecodeAddress(0, v)) else None)
            && Carries(p, DataVa) == (if h == 0xB2 then Some(DecodeAddress(2, v)) else None)
            && Carries(p, Total) == (if h == 0x98 then Some(v) else None)
            && Carries(p, Issue) == (if h == 0x99 then Some(v) else None)
            && Carries(p, Xlat) == (if h == 0x9A then Some(v) else None)
            && Carries(p, EventBits) == (if h in {0x42, 0x52, 0x62, 0x72} then Some(v) else None)
            && (IsFlush(p) <==> h in {0x01, 0x71})
  {
    hide DecodeAddress, Le, Consumed, IsAddress, IsCounter, IsEvents, ShortIndex, PayloadSize, ShortFormat;
    ReadFits(h, payload);
    HeaderBytes(h);
  }

  lemma HeaderBytes(h: byte)
    ensures IsAddress(h) <==> 0xB0 <= h < 0xB8
    ensures IsAddress(h) ==> ShortIndex(h) == h - 0xB0
    ensures IsCounter(h) <==> 0x98 <= h < 0xA0
    ensures IsCounter(h) ==> ShortIndex(h) == h - 0x98
    ensures IsEvents(h) <==> h in {0x42, 0x52, 0x62, 0x72}
  {
  }

  /** The last value for a field among the packets. */
  function Last(ps: seq<Packet>, f: Field): Option<u64> {
    if ps == [] then None
    else if Carries(ps[|ps| - 1], f).Some? then Carries(ps[|ps| - 1], f)
    else Last(ps[..|ps| - 1], f)
  }

  /** It is carried by some packet that no later one overrides, and absent only when none carries it. */
  lemma {:induction false} LastMeans(ps: seq<Packet>, f: Field)
    ensures Last(ps, f).None? <==> forall i :: 0 <= i < |ps| ==> Carries(ps[i], f).None?
    ensures Last(ps, f).Some? ==> exists i :: 0 <= i < |ps| && Carries(ps[i], f) == Last(ps, f)
                                              && forall j :: i < j < |ps| ==> Carries(ps[j], f).None?
  {
    hide Carries;
    if ps != [] {
      LastMeans(ps[..|ps| - 1], f);
    }
  }

  function OrZero(v: Option<u64>): u64 { if v.Some? then v.value else 0 }

  /** Last value per field, zero and invalid where there is none. */
  function Gathered(ps: seq<Packet>): Sample {
    Sample(OrZero(Last(ps, Pc)), OrZero(Last(ps, DataVa)), OrZero(Last(ps, Total)), OrZero(Last(ps, Issue)),
           OrZero(Last(ps, Xlat)), OrZero(Last(ps, EventBits)),
           Flags(Last(ps, Pc).Some?, Last(ps, Total).Some?, Last(ps, Issue).Some?, Last(ps, Xlat).Some?,
                 Last(ps, EventBits).Some?, false, Last(ps, DataVa).Some?))
  }

  /** The record a run of packets stands for, in unbounded arithmetic. */
  function RecordOf(ps: seq<Packet>): Sample {
    var g := Gathered(ps);
    var exec := g.flags.total && g.flags.issue && g.flags.xlat && g.latIssue + g.latXlat <= g.latTotal;
    g.(flags := g.flags.(exec := exec))
  }

  /** Where the packets since the previous flush before `i` begin. */
  function Since(ps: seq<Packet>, i: nat): (r: nat)
    requires i <= |ps|
    ensures r <= i && (r > 0 ==> IsFlush(ps[r - 1]))
    ensures forall k :: r <= k < i ==> !IsFlush(ps[k])
  {
    if i == 0 || IsFlush(ps[i - 1]) then i else Since(ps, i - 1)
  }

  /** A flush at `n` writes a record when the packets since the previous flush include a PC. */
  predicate Emits(ps: seq<Packet>, n: nat)
    requires n < |ps|
  {
    IsFlush(ps[n]) && Last(ps[Since(ps, n)..n], Pc).Some?
  }

  /** One record for every flush that writes one. */
  function Records(ps: seq<Packet>): seq<Sample> {
    if ps == [] then []
    else
      var n := |ps| - 1;
      Records(ps[..n]) + if Emits(ps, n) then [RecordOf(ps[Since(ps, n)..n])] else []
  }

  /** How many of those flushes are end packets, and how many are timestamps. */
  function EndRecords(ps: seq<Packet>): nat {
    if ps == [] then 0
    else EndRecords(ps[..|ps| - 1]) + if ps[|ps| - 1].End? && Emits(ps, |ps| - 1) then 1 else 0
  }

  function TimeRecords(ps: seq<Packet>): nat {
    if ps == [] then 0
    else TimeRecords(ps[..|ps| - 1]) + if ps[|ps| - 1].Timestamp? && Emits(ps, |ps| - 1) then 1 else 0
  }

  lemma {:induction false} SinceIsLocal(ps: seq<Packet>, n: nat, i: nat)
    requires i <= n <= |ps|
    ensures Since(ps, i) == Since(ps[..n], i)
  {
    if i > 0 {
      SinceIsLocal(ps, n, i - 1);
    }
  }

  /** One more packet, other than a flush: the last value of each field follows it. */
  lemma {:induction false} AbsorbGathers(ps: seq<Packet>, p: Packet)
    requires !IsFlush(p)
    ensures Gathered(ps + [p]) == Absorb(Gathered(ps), p)
  {
    hide DecodeAddress, Last;
    LastSnoc(ps, p, Pc);
    LastSnoc(ps, p, DataVa);
    LastSnoc(ps, p, Total);
    LastSnoc(ps, p, Issue);
    LastSnoc(ps, p, Xlat);
    LastSnoc(ps, p, EventBits);
  }

  lemma LastSnoc(ps: seq<Packet>, p: Packet, f: Field)
    ensures Last(ps + [p], f) == if Carries(p, f).Some? then Carries(p, f) else Last(ps, f)
  {
    hide Carries;
    assert (ps + [p])[..|ps|] == ps;
  }

  predicate AllShort(ps: seq<Packet>) {
    forall i :: 0 <= i < |ps| ==> ShortFormat(ps[i])
  }

  /** Counter packets carry sixteen bits, so no latency exceeds 65535. */
  lemma LatencyIsSmall(ps: seq<Packet>, f: Field)
    requires AllShort(ps) && (f.Total? || f.Issue? || f.Xlat?)
    ensures OrZero(Last(ps, f)) <= 65535
  {
    hide Last, DecodeAddress;
    LastMeans(ps, f);
    assert Pow2(16) == 65536 by {
      Pow2Add(8, 8);
      assert Pow2(8) == 256;
    }
  }

  lemma FinishIsExact(ps: seq<Packet>)
    requires AllShort(ps)
    ensures Finish(Gathered(ps)) == RecordOf(ps)
  {
    hide Last;
    LatencyIsSmall(ps, Issue);
    LatencyIsSmall(ps, Xlat);
  }

  /** The parser's state says exactly this of the packets it has seen. */
  ghost predicate Follows(c: Env, s: Parser, ps: seq<Packet>) {
    && s.out == Records(ps)
    && s.pending == Gathered(ps[Since(ps, |ps|)..])
    && s.hot == RecordAll(c, s.out)
    && s.ends == EndRecords(ps) && s.times == TimeRecords(ps)
  }

  lemma {:induction false} FlushFollows(c: Env, s: Parser, ps: seq<Packet>, p: Packet)
    requires AllShort(ps) && Follows(c, s, ps) && IsFlush(p)
    ensures Follows(c, Feed(c, s, p), ps + [p])
  {
    hide Gathered, Absorb, RecordOf, Record, Finish, Last, RecordAll;
    var qs, n := ps + [p], |ps|;
    assert qs[..n] == ps;
    SinceIsLocal(qs, n, n);
    var since := ps[Since(ps, n)..];
    assert qs[Since(qs, n)..n] == since;
    assert qs[Since(qs, n + 1)..] == [];
    EmptyGathers();
    FinishIsExact(since);
    GatheredPc(since);
    RecordAllSnoc(c, s.out, Finish(s.pending));
  }

  lemma {:induction false} AbsorbFollows(c: Env, s: Parser, ps: seq<Packet>, p: Packet)
    requires Follows(c, s, ps) && !IsFlush(p)
    ensures Follows(c, Feed(c, s, p), ps + [p])
  {
    hide Gathered, Absorb, RecordOf, Record, Finish, Last, RecordAll;
    var qs, n := ps + [p], |ps|;
    assert qs[..n] == ps;
    SinceIsLocal(qs, n, n);
    var since := ps[Since(ps, n)..];
    assert qs[Since(qs, n + 1)..] == since + [p];
    AbsorbGathers(since, p);
    AbsorbIgnores(Gathered(since), p);
  }

  /** The parser over any packet list: its records are the declared ones, its pending sample is what
      the packets since the last flush say, and the hotspot counts come from those records. */
  lemma {:induction false} ParserMeaning(c: Env, ps: seq<Packet>)
    requires AllShort(ps)
    ensures Follows(c, FeedAll(c, FRESH, ps), ps)
  {
    hide Follows, Feed, FeedAll, ShortFormat;
    if ps == [] {
      FreshFollows(c);
    } else {
      var before, p := ps[..|ps| - 1], ps[|ps| - 1];
      assert ps == before + [p];
      ParserMeaning(c, before);
      FeedAppend(c, FRESH, before, [p]);
      FeedOne(c, FeedAll(c, FRESH, before), p);
      if IsFlush(p) {
        FlushFollows(c, FeedAll(c, FRESH, before), before, p);
      } else {
        AbsorbFollows(c, FeedAll(c, FRESH, before), before, p);
      }
    }
  }

  lemma FreshFollows(c: Env)
    ensures Follows(c, FeedAll(c, FRESH, []), [])
  {
    EmptyGathers();
  }

  lemma {:induction false} RecordsArePlausible(ps: seq<Packet>)
    requires AllShort(ps)
    ensures AllPlausible(Records(ps))
  {
    hide RecordOf, Last, Plausible;
    if ps != [] {
      var n := |ps| - 1;
      RecordsArePlausible(ps[..n]);
      RecordIsPlausible(ps[Since(ps, n)..n]);
    }
  }

  lemma RecordIsPlausible(ps: seq<Packet>)
    requires AllShort(ps)
    ensures Plausible(RecordOf(ps))
  {
    hide Last;
    LatencyIsSmall(ps, Total);
    LatencyIsSmall(ps, Issue);
    LatencyIsSmall(ps, Xlat);
  }

  /** Over any stream, a hotspot exists exactly when a record belongs to it; its counters are the sums
      over its records modulo 2^64, and exactly those sums as long as they fit; and its latencies are
      ordered as long as its total latency and number of records fit. */
  lemma {:induction false} StreamStatsAreExact(c: Env, ps: seq<Packet>, k: Key)
    requires AllShort(ps)
    ensures var hot, mine := FeedAll(c, FRESH, ps).hot, Of(c, Records(ps), k);
            && (k in hot.stats <==> mine != [])
            && (k in hot.stats ==>
                  && Counted(hot.stats[k], mine) && (Exact(hot.stats[k], mine) <==> SumsFit(mine))
                  && (|mine| < U64_LIMIT && Tally(mine, TotalLat) < U64_LIMIT ==> Ordered(hot.stats[k])))
  {
    hide Counted, Exact, Ordered, FeedAll, SumsFit, Tally, Of;
    ParserMeaning(c, ps);
    RecordsArePlausible(ps);
    HotspotsAreCounted(c, Records(ps), k);
    var mine := Of(c, Records(ps), k);
    if k in FeedAll(c, FRESH, ps).hot.stats {
      HotspotsAreExact(c, Records(ps), k);
      if |mine| < U64_LIMIT && Tally(mine, TotalLat) < U64_LIMIT {
        HotspotsAreOrdered(c, Records(ps), k);
      }
    }
  }

  // ----- a stream that breaks the order -----

  /** One sampled instruction with total latency 65535, issue latency 1 and translation latency 0. */
  function Burst(pc: u64): seq<Packet> {
    [Address(0, pc), Counter(0, 65535), Counter(1, 1), Counter(2, 0), End]
  }

  function Bursts(pc: u64, n: nat): seq<Packet> {
    if n == 0 then [] else Bursts(pc, n - 1) + Burst(pc)
  }

  function BurstRecord(pc: u64): Sample {
    Sample(pc, 0, 65535, 1, 0, 0, Flags(true, true, true, true, false, true, false))
  }

  /** An address below 2^55 is decoded as it stands. */
  lemma UserAddress(pc: u64)
    ensures pc < 0x80_0000_0000_0000 ==> DecodeAddress(0, pc) == pc
  {
    hide Pow2;
    TopPowers();
  }

  lemma BurstGivesRecord(c: Env, s: Parser, pc: u64)
    requires s.pending == EMPTY && pc < 0x80_0000_0000_0000
    ensures FeedAll(c, s, Burst(pc)) ==
            s.(out := s.out + [BurstRecord(pc)], hot := Record(c, s.hot, BurstRecord(pc)), ends := s.ends + 1)
  {
    hide DecodeAddress, Record, Wrap;
    UserAddress(pc);
    var b := Burst(pc);
    var c1, c2, c3, c4 := b[1..], b[2..], b[3..], b[4..];
    assert c1[1..] == c2 && c2[1..] == c3 && c3[1..] == c4 && c4 == [End];
    var s1 := Feed(c, s, b[0]);
    var s2 := Feed(c, s1, c1[0]);
    var s3 := Feed(c, s2, c2[0]);
    var s4 := Feed(c, s3, c3[0]);
    assert FeedAll(c, s1, c1) == FeedAll(c, s2, c2);
    assert FeedAll(c, s2, c2) == FeedAll(c, s3, c3);
    assert FeedAll(c, s3, c3) == FeedAll(c, s4, c4);
    assert s4.pending == BurstRecord(pc).(flags := BurstRecord(pc).flags.(exec := false));
    FeedOne(c, s4, End);
  }

  lemma {:induction false} BurstsGiveRecords(c: Env, pc: u64, n: nat)
    requires pc < 0x80_0000_0000_0000
    ensures AllShort(Bursts(pc, n))
    ensures var t := FeedAll(c, FRESH, Bursts(pc, n)); t.out == seq(n, _ => BurstRecord(pc)) && t.pending == EMPTY
  {
    hide FeedAll, DecodeAddress, Record;
    if n == 0 {
      FeedNone(c, FRESH);
    } else {
      BurstsGiveRecords(c, pc, n - 1);
      FeedAppend(c, FRESH, Bursts(pc, n - 1), Burst(pc));
      BurstGivesRecord(c, FeedAll(c, FRESH, Bursts(pc, n - 1)), pc);
      BurstIsShort(pc);
    }
  }

  lemma BurstIsShort(pc: u64)
    ensures AllShort(Burst(pc))
  {
    assert Pow2(16) == 65536 by {
      Pow2Add(8, 8);
      assert Pow2(8) == 256;
    }
  }

  lemma FeedNone(c: Env, s: Parser)
    ensures FeedAll(c, s, []) == s
  {
  }

  /** A main binary mapped at 0x1000, and a stream of that many bursts at its first instruction: the
      execution latency of the hotspot exceeds its total latency. */
  lemma {:induction false} StreamOrderFails()
    ensures var c := Env(1, [Mapping(0x1000, 0x2000, 0, "a")], "a", true);
            var ps, k := Bursts(0x1000, WRAPPING), Key(0, 0);
            var hot := FeedAll(c, FRESH, ps).hot;
            AllShort(ps) && k in hot.stats && hot.stats[k].execSum > hot.stats[k].totalSum
  {
    hide FeedAll, RecordAll, Of, DecodeAddress, Bursts;
    var c := Env(1, [Mapping(0x1000, 0x2000, 0, "a")], "a", true);
    var s, k := BurstRecord(0x1000), Key(0, 0);
    assert HoldsPc(c.maps[0], 0x1000);
    assert KeyOf(c, s) == Some(k);
    BurstsGiveRecords(c, 0x1000, WRAPPING);
    ParserMeaning(c, Bursts(0x1000, WRAPPING));
    OrderFails(c, s, k, WRAPPING);
    assert Overflowing(s, WRAPPING) == seq(WRAPPING, _ => s);
  }

  lemma EmptyGathers()
    ensures Gathered([]) == EMPTY
  {
  }

  lemma GatheredPc(ps: seq<Packet>)
    ensures Gathered(ps).flags.pc == Last(ps, Pc).Some?
  {
  }

  lemma AbsorbIgnores(s: Sample, p: Packet)
    ensures p.Padding? || p.Unknown? ==> Absorb(s, p) == s
  {
  }

  lemma FeedOne(c: Env, s: Parser, p: Packet)
    ensures FeedAll(c, s, [p]) == Feed(c, s, p)
  {
    assert FeedAll(c, Feed(c, s, p), [p][1..]) == Feed(c, s, p);
  }

  // ----- conservation -----

  function Flushes(ps: seq<Packet>): nat {
    if ps == [] then 0 else (if IsFlush(ps[0]) then 1 else 0) + Flushes(ps[1..])
  }

  function Unknowns(ps: seq<Packet>): nat {
    if ps == [] then 0 else (if ps[0].Unknown? then 1 else 0) + Unknowns(ps[1..])
  }

  /** From any state: end and timestamp packets = time flushes + end flushes + empty flushes, one record
      is written for each flush that is not empty, and every unknown packet is counted. */
  lemma {:induction false} FlushesConserved(c: Env, s: Parser, ps: seq<Packet>)
    ensures var t := FeedAll(c, s, ps);
            && t.times + t.ends + t.empties == s.times + s.ends + s.empties + Flushes(ps)
            && |t.out| - |s.out| == (t.times + t.ends) - (s.times + s.ends)
            && s.out <= t.out && t.unknown == s.unknown + Unknowns(ps)
    decreases |ps|
  {
    hide Record, Finish, Absorb;
    if ps != [] {
      FlushesConserved(c, Feed(c, s, ps[0]), ps[1..]);
    }
  }
}
