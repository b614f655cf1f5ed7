/** One sampler slot: the packet loop of `process_samples_locked` and its in-place pending state. */
module Sampler {
  import opened Machine
  import opened Relocation
  import opened SpePackets
  import opened Hotspots
  import opened SpeRecords

  class Slot {
    const env: Env
    var pending: Sample
    var written: seq<Sample>
    var stats: map<Key, Stats>
    var unmapped: nat
    var unknownPackets: nat
    var emptyFlushes: nat
    var endFlushes: nat
    var timeFlushes: nat

    constructor (env: Env)
      ensures this.env == env && View() == FRESH
    {
      this.env := env;
      pending := EMPTY;
      written := [];
      stats := map[];
      unmapped, unknownPackets, emptyFlushes, endFlushes, timeFlushes := 0, 0, 0, 0, 0;
    }

    ghost function View(): Parser
      reads this
    {
      Parser(pending, written, Hot(stats, unmapped), unknownPackets, emptyFlushes, endFlushes, timeFlushes)
    }

    /** `record_hotspot_sample`. */
    method RecordHotspot(sample: Sample)
      modifies this`stats, this`unmapped
      ensures Hot(stats, unmapped) == Record(env, old(Hot(stats, unmapped)), sample)
    {
      hide Bump, OffsetIn;
      if !env.pcPresent || env.tid <= 0 || sample.pc == 0 || !sample.flags.pc {
        return;
      }
      var found := FindModuleMap(env.maps, sample.pc);
      if found.None? {
        unmapped := unmapped + 1;
        return;
      }
      if env.main == "" || env.maps[found.value].path != env.main {
        return;
      }
      var key := Key(found.value, OffsetIn(env.maps[found.value], sample.pc));
      var prior := if key in stats then stats[key] else NO_STATS;
      stats := stats[key := Bump(prior, sample)];
    }

    /** `flush_pending_spe_sample_locked`. */
    method FlushPending(fromEnd: bool) returns (flushed: bool)
      modifies this
      ensures View() == Flush(env, old(View()), fromEnd)
      ensures flushed == old(pending.flags.pc)
    {
      hide Record;
      if !pending.flags.pc {
        pending := EMPTY;
        emptyFlushes := emptyFlushes + 1;
        return false;
      }
      var sample := pending;
      if sample.flags.total && sample.flags.issue && sample.flags.xlat
         && sample.latTotal >= Add64(sample.latIssue, sample.latXlat) {
        sample := sample.(flags := sample.flags.(exec := true));
      }
      written := written + [sample];
      RecordHotspot(sample);
      if fromEnd {
        endFlushes := endFlushes + 1;
      } else {
        timeFlushes := timeFlushes + 1;
      }
      pending := EMPTY;
      return true;
    }

    /** An address packet. */
    method TakeAddress(index: nat, raw: u64)
      modifies this`pending
      ensures pending == Absorb(old(pending), Address(index, raw))
    {
      var decoded := DecodeAddress(index, raw);
      if index == 0 {
        pending := pending.(pc := decoded, flags := pending.flags.(pc := true));
      } else if index == 2 {
        pending := pending.(dataVa := decoded, flags := pending.flags.(dataVa := true));
      }
    }

    /** A counter packet. */
    method TakeCounter(index: nat, value: u64)
      modifies this`pending
      ensures pending == Absorb(old(pending), Counter(index, value))
    {
      if index == 0 {
        pending := pending.(latTotal := value, flags := pending.flags.(total := true));
      } else if index == 1 {
        pending := pending.(latIssue := value, flags := pending.flags.(issue := true));
      } else if index == 2 {
        pending := pending.(latXlat := value, flags := pending.flags.(xlat := true));
      }
    }

    /** An events packet. */
    method TakeEvents(size: nat, bits: u64)
      modifies this`pending
      ensures pending == Absorb(old(pending), Events(size, bits))
    {
      pending := pending.(eventBits := bits, flags := pending.flags.(events := true));
    }

    /** One turn of the packet loop, with the header at `pos`. */
    method TakePacket(ring: Ring, pos: nat) returns (size: nat)
      requires pos < ring.size
      modifies this
      ensures View() == Feed(env, old(View()), PacketAt(ring, pos))
      ensures size == Step(ring, pos)
    {
      hide Flush, Absorb, Le, IsAddress, IsCounter, IsEvents, Pow2;
      var h := ring.bytes[pos];
      ghost var payload := ring.bytes[pos + 1..pos + Step(ring, pos)];
      ReadFits(h, payload);
      var n;
      if IsAddress(h) {
        n := 8;
        TakeAddress(ShortIndex(h), Le(ring.bytes[pos + 1..pos + 1 + n]));
      } else if IsCounter(h) {
        n := PayloadSize(h);
        TakeCounter(ShortIndex(h), Le(ring.bytes[pos + 1..pos + 1 + n]));
      } else if IsEvents(h) {
        n := PayloadSize(h);
        TakeEvents(n, Le(ring.bytes[pos + 1..pos + 1 + n]));
      } else if h == 0x00 {
        n := 0;
      } else if h == 0x01 {
        n := 0;
        var _ := FlushPending(true);
      } else if h == 0x71 {
        n := 8;
        var _ := FlushPending(false);
      } else {
        unknownPackets := unknownPackets + 1;
        n := if SizeField(h) == 0 then 1 else if SizeField(h) == 1 then 2 else if SizeField(h) == 2 then 4 else 8;
      }
      return 1 + n;
    }

    /** One AUX record of `len` bytes at offset `at`: the whole loop is the packet fold. A truncated
        record is skipped. */
    method ProcessAux(ring: Ring, at: nat, len: nat, truncated: bool)
      modifies this
      ensures View() == if truncated then old(View()) else FeedAll(env, old(View()), Decode(ring, at, len))
    {
      hide Feed, PacketAt, Step, Pos;
      if truncated {
        return;
      }
      var it := 0;
      while it < len
        invariant FeedAll(env, View(), Decode(ring, at + it, Left(len, it)))
               == FeedAll(env, old(View()), Decode(ring, at, len))
        decreases len - it
      {
        ghost var rest := Decode(ring, at + it, Left(len, it));
        var n := TakePacket(ring, Pos(ring, at + it));
        assert rest[1..] == Decode(ring, at + it + n, Left(len, it + n));
        it := it + n;
      }
    }
  }

  function Left(len: nat, it: nat): nat {
    if it < len then len - it else 0
  }

  // ----- chunking -----

  /** One AUX record: the ring as it was then, and the part of it to read. */
  datatype Aux = Aux(ring: Ring, at: nat, len: nat)

  /** A run of ProcessAux calls, one per record. */
  ghost function Process(c: Env, s: Parser, records: seq<Aux>): Parser
    decreases |records|
  {
    if records == [] then s
    else Process(c, FeedAll(c, s, Decode(records[0].ring, records[0].at, records[0].len)), records[1..])
  }

  ghost function Stream(records: seq<Aux>): seq<Packet>
  {
    if records == [] then [] else Decode(records[0].ring, records[0].at, records[0].len) + Stream(records[1..])
  }

  /** Buffers do not matter: only the packet stream they carry does, however it was cut. */
  lemma {:induction false} BuffersAreInvisible(c: Env, s: Parser, records: seq<Aux>)
    ensures Process(c, s, records) == FeedAll(c, s, Stream(records))
    decreases |records|
  {
    hide FeedAll, Decode;
    if records != [] {
      var first := Decode(records[0].ring, records[0].at, records[0].len);
      BuffersAreInvisible(c, FeedAll(c, s, first), records[1..]);
      FeedAppend(c, s, first, Stream(records[1..]));
    } else {
      assert FeedAll(c, s, []) == s by {
        FeedNone(c, s);
      }
    }
  }

  lemma {:induction false} HoldsSplits(ring: Ring, at: nat, a: seq<Packet>, b: seq<Packet>)
    requires Holds(ring, at, a + b)
    ensures AllShort(a) && Holds(ring, at, a) && Holds(ring, at + Size(a), b)
    decreases |a|
  {
    hide Encode, ShortFormat, Pos;
    if a == [] {
      assert a + b == b;
    } else {
      assert (a + b)[0] == a[0] && (a + b)[1..] == a[1..] + b;
      HoldsSplits(ring, at + |Encode(a[0])|, a[1..], b);
      assert a == [a[0]] + a[1..];
      assert at + |Encode(a[0])| + Size(a[1..]) == at + Size(a);
    }
  }

  /** The bytes cut at any packet boundary give the same state as read at once, pending sample
      and hotspots included. */
  lemma {:induction false} CutAnywhere(c: Env, s: Parser, ring: Ring, at: nat, a: seq<Packet>, b: seq<Packet>)
    requires Holds(ring, at, a + b)
    ensures AllShort(a) && AllShort(b) && AllShort(a + b)
    ensures var whole := Aux(ring, at, Size(a + b));
            var first, second := Aux(ring, at, Size(a)), Aux(ring, at + Size(a), Size(b));
            Process(c, s, [whole]) == Process(c, s, [first, second]) == FeedAll(c, s, a + b)
  {
    hide FeedAll, Decode, Holds, Size;
    HoldsSplits(ring, at, a, b);
    DecodeFindsHeld(ring, at, a);
    DecodeFindsHeld(ring, at + Size(a), b);
    DecodeFindsHeld(ring, at, a + b);
    FeedAppend(c, s, a, b);
    var whole := Aux(ring, at, Size(a + b));
    var first, second := Aux(ring, at, Size(a)), Aux(ring, at + Size(a), Size(b));
    var one := FeedAll(c, s, a);
    assert [first, second][1..] == [second];
    assert Process(c, one, [second]) == FeedAll(c, one, b);
  }
}
