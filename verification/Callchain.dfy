/** Frame-pointer unwinding in the breakpoint and watchpoint handlers. */
module Callchain {
  import opened Machine
  import opened Address

  const MAX_DEPTH: nat := 8

  /** The two words at a frame pointer. */
  datatype Frame = Frame(prevFp: u64, lr: u64)

  /** The interrupted user state. `frames` holds what a fault-free read at each address returns;
      an address outside it fails `access_ok` or the copy. */
  datatype UserContext = UserContext(userMode: bool, regs: Regs, frames: map<u64, Frame>)

  datatype Capture = Capture(chain: seq<u64>, failed: bool, truncated: bool)

  predicate Readable(frames: map<u64, Frame>, fp: u64) {
    fp != 0 && fp % 8 == 0 && fp in frames && frames[fp].lr != 0
  }

  /** Return addresses along the whole frame chain, which only ever climbs. */
  function ReturnAddresses(frames: map<u64, Frame>, fp: u64): seq<u64>
    decreases U64_LIMIT - fp
  {
    if !Readable(frames, fp) then []
    else [frames[fp].lr] + if frames[fp].prevFp <= fp then [] else ReturnAddresses(frames, frames[fp].prevFp)
  }

  /** Drops every address equal to the one kept just before it. */
  function Squeeze(last: u64, ips: seq<u64>): seq<u64>
    decreases |ips|
  {
    if ips == [] then []
    else if ips[0] == last then Squeeze(last, ips[1..])
    else [ips[0]] + Squeeze(ips[0], ips[1..])
  }

  /** The unbounded call chain: the interrupted PC, then the return addresses. */
  function FullChain(u: UserContext): seq<u64> {
    [u.regs.pc] + Squeeze(u.regs.pc, ReturnAddresses(u.frames, u.regs.x[29]))
  }

  /** The walk fills the last free place at some frame and that frame still links upward. */
  predicate Overruns(frames: map<u64, Frame>, fp: u64, last: u64, room: nat)
    decreases U64_LIMIT - fp
  {
    Readable(frames, fp) && frames[fp].prevFp > fp &&
    var left := if frames[fp].lr == last || room == 0 then room else room - 1;
    (left == 0 || Overruns(frames, frames[fp].prevFp, frames[fp].lr, left))
  }

  /** `rd_capture_callchain`. */
  function CaptureOf(u: UserContext): Capture {
    if !u.userMode || u.regs.pc == 0 then Capture([], true, false)
    else
      var full := FullChain(u);
      Capture(full[..Min(MAX_DEPTH, |full|)], false,
              Overruns(u.frames, u.regs.x[29], u.regs.pc, MAX_DEPTH - 1))
  }

  /** The part of the full chain that lies beyond frame pointer `fp` when `last` was kept last. */
  function Beyond(frames: map<u64, Frame>, fp: u64, last: u64): seq<u64> {
    Squeeze(last, ReturnAddresses(frames, fp))
  }

  lemma WalkStep(frames: map<u64, Frame>, fp: u64, last: u64)
    ensures !Readable(frames, fp) ==> Beyond(frames, fp, last) == [] && !Overruns(frames, fp, last, 1)
    ensures Readable(frames, fp) ==>
              var lr, prev := frames[fp].lr, frames[fp].prevFp;
              Beyond(frames, fp, last) ==
                (if lr == last then [] else [lr]) + if prev <= fp then [] else Beyond(frames, prev, lr)
  {
    if Readable(frames, fp) {
      var prev := frames[fp].prevFp;
      var rest := if prev <= fp then [] else ReturnAddresses(frames, prev);
      var ips := ReturnAddresses(frames, fp);
      assert ips == [frames[fp].lr] + rest && ips[1..] == rest;
      assert Squeeze(last, ips) == (if ips[0] == last then [] else [ips[0]]) + Squeeze(ips[0], rest);
    }
  }

  /** The kernel's loop. It ends although the depth need not grow, because the frame pointer climbs. */
  method CaptureCallchain(u: UserContext) returns (c: Capture)
    ensures c == CaptureOf(u)
  {
    hide Beyond;
    if !u.userMode || u.regs.pc == 0 {
      return Capture([], true, false);
    }
    var chain := [u.regs.pc];
    var fp := u.regs.x[29];
    ghost var full := FullChain(u);
    ghost var overruns := Overruns(u.frames, fp, u.regs.pc, MAX_DEPTH - 1);
    assert full == chain + Beyond(u.frames, fp, u.regs.pc) by {
      FullChainIs(u);
    }
    while |chain| < MAX_DEPTH
      invariant 1 <= |chain| <= MAX_DEPTH
      invariant full == chain + Beyond(u.frames, fp, chain[|chain| - 1])
      invariant |chain| < MAX_DEPTH ==>
                  overruns == Overruns(u.frames, fp, chain[|chain| - 1], MAX_DEPTH - |chain|)
      invariant |chain| == MAX_DEPTH ==> overruns && fp != 0
      decreases U64_LIMIT - fp
    {
      WalkStep(u.frames, fp, chain[|chain| - 1]);
      if fp == 0 || fp % 8 != 0 || fp !in u.frames {
        return Capture(chain, false, false);
      }
      var frame := u.frames[fp];
      if frame.lr == 0 {
        return Capture(chain, false, false);
      }
      if frame.lr != chain[|chain| - 1] {
        chain := chain + [frame.lr];
      }
      if frame.prevFp == 0 || frame.prevFp <= fp {
        assert full == chain;
        return Capture(chain, false, false);
      }
      fp := frame.prevFp;
    }
    assert full[..MAX_DEPTH] == chain;
    c := Capture(chain, false, fp != 0);
  }

  lemma FullChainIs(u: UserContext)
    ensures FullChain(u) == [u.regs.pc] + Beyond(u.frames, u.regs.x[29], u.regs.pc)
  {
  }

  // ----- properties -----

  predicate NoRepeats(s: seq<u64>) {
    |s| <= 1 || (s[0] != s[1] && NoRepeats(s[1..]))
  }

  lemma {:induction false} SqueezeHasNoRepeats(last: u64, ips: seq<u64>)
    ensures NoRepeats([last] + Squeeze(last, ips))
    decreases |ips|
  {
    if ips != [] {
      SqueezeHasNoRepeats(ips[0], ips[1..]);
      var tail := Squeeze(last, ips);
      assert ([last] + tail)[1..] == tail;
    }
  }

  lemma {:induction false} PrefixHasNoRepeats(s: seq<u64>, n: nat)
    requires NoRepeats(s) && n <= |s|
    ensures NoRepeats(s[..n])
  {
    if n > 1 {
      PrefixHasNoRepeats(s[1..], n - 1);
      assert s[..n][1..] == s[1..][..n - 1];
    }
  }

  /** A capture is empty exactly when it failed, fits the key, and never repeats an address. */
  lemma CaptureShape(u: UserContext)
    ensures var c := CaptureOf(u);
            && (c.failed <==> !u.userMode || u.regs.pc == 0)
            && (c.failed <==> c.chain == []) && |c.chain| <= MAX_DEPTH && NoRepeats(c.chain)
  {
    SqueezeHasNoRepeats(u.regs.pc, ReturnAddresses(u.frames, u.regs.x[29]));
    var full := FullChain(u);
    PrefixHasNoRepeats(full, Min(MAX_DEPTH, |full|));
  }

  lemma {:induction false} LongChainOverruns(frames: map<u64, Frame>, fp: u64, last: u64, room: nat)
    requires |Squeeze(last, ReturnAddresses(frames, fp))| > room > 0
    ensures Overruns(frames, fp, last, room)
    decreases U64_LIMIT - fp
  {
    var lr, prev := frames[fp].lr, frames[fp].prevFp;
    var rest := if prev <= fp then [] else ReturnAddresses(frames, prev);
    assert ([lr] + rest)[1..] == rest;
    assert prev > fp;
    if lr == last || room > 1 {
      LongChainOverruns(frames, prev, lr, if lr == last then room else room - 1);
    }
  }

  lemma {:induction false} OverrunFills(frames: map<u64, Frame>, fp: u64, last: u64, room: nat)
    requires Overruns(frames, fp, last, room) && room > 0
    ensures |Squeeze(last, ReturnAddresses(frames, fp))| >= room
    decreases U64_LIMIT - fp
  {
    var lr, prev := frames[fp].lr, frames[fp].prevFp;
    var rest := ReturnAddresses(frames, prev);
    assert ([lr] + rest)[1..] == rest;
    if lr == last || room > 1 {
      OverrunFills(frames, prev, lr, if lr == last then room else room - 1);
    }
  }

  /** Losing frames always raises the truncation count, and only a full key can raise it. */
  lemma TruncationIsReported(u: UserContext)
    requires !CaptureOf(u).failed
    ensures |FullChain(u)| > MAX_DEPTH ==> CaptureOf(u).truncated
    ensures CaptureOf(u).truncated ==> |CaptureOf(u).chain| == MAX_DEPTH
  {
    if |FullChain(u)| > MAX_DEPTH {
      LongChainOverruns(u.frames, u.regs.x[29], u.regs.pc, MAX_DEPTH - 1);
    }
    if CaptureOf(u).truncated {
      OverrunFills(u.frames, u.regs.x[29], u.regs.pc, MAX_DEPTH - 1);
    }
  }

  // ----- which addresses a chain holds -----

  /** The record at `fp` cannot be used: no pointer, misaligned, unreadable, or without a return address. */
  predicate Ends(frames: map<u64, Frame>, fp: u64) {
    fp == 0 || fp % 8 != 0 || fp !in frames || frames[fp].lr == 0
  }

  /** The frame pointers met on the way up from `fp`: every record on the way is usable, each is linked
      from the one below and lies above it, and the way ends exactly where the link does not lead up or
      the next record cannot be used. */
  ghost predicate Way(frames: map<u64, Frame>, fp: u64, fps: seq<u64>) {
    && (forall i :: 0 <= i < |fps| ==>
          fps[i] != 0 && fps[i] % 8 == 0 && fps[i] in frames && frames[fps[i]].lr != 0)
    && (fps != [] ==> fps[0] == fp)
    && (forall i :: 0 < i < |fps| ==> fps[i] == frames[fps[i - 1]].prevFp && fps[i] > fps[i - 1])
    && (fps == [] ==> Ends(frames, fp))
    && (fps != [] ==> var top := fps[|fps| - 1];
                      frames[top].prevFp <= top || Ends(frames, frames[top].prevFp))
  }

  function Lrs(frames: map<u64, Frame>, fps: seq<u64>): seq<u64>
    requires forall i :: 0 <= i < |fps| ==> fps[i] in frames
  {
    seq(|fps|, i requires 0 <= i < |fps| => frames[fps[i]].lr)
  }

  /** An address list without those that repeat the one before. */
  function Unrepeated(ips: seq<u64>): seq<u64> {
    if |ips| <= 1 then ips
    else
      var n := |ips| - 1;
      Unrepeated(ips[..n]) + if ips[n] == ips[n - 1] then [] else [ips[n]]
  }

  lemma {:induction false} WayExists(frames: map<u64, Frame>, fp: u64) returns (fps: seq<u64>)
    ensures Way(frames, fp, fps)
    decreases U64_LIMIT - fp
  {
    if Ends(frames, fp) {
      fps := [];
    } else if frames[fp].prevFp <= fp {
      fps := [fp];
    } else {
      var rest := WayExists(frames, frames[fp].prevFp);
      fps := [fp] + rest;
    }
  }

  lemma WayGoesOn(frames: map<u64, Frame>, fp: u64, fps: seq<u64>)
    requires Way(frames, fp, fps) && fps != []
    ensures frames[fp].prevFp <= fp ==> |fps| == 1
    ensures frames[fp].prevFp > fp ==> Way(frames, frames[fp].prevFp, fps[1..])
  {
    if |fps| > 1 {
      assert fps[1] == frames[fps[0]].prevFp;
    }
  }

  lemma {:induction false} AddressesAlongWay(frames: map<u64, Frame>, fp: u64, fps: seq<u64>)
    requires Way(frames, fp, fps)
    ensures ReturnAddresses(frames, fp) == Lrs(frames, fps)
    decreases |fps|
  {
    if fps != [] {
      WayGoesOn(frames, fp, fps);
      assert Lrs(frames, fps) == [frames[fp].lr] + Lrs(frames, fps[1..]);
      if frames[fp].prevFp > fp {
        AddressesAlongWay(frames, frames[fp].prevFp, fps[1..]);
      }
    }
  }

  lemma {:induction false} UnrepeatedHead(a: u64, ips: seq<u64>)
    ensures Unrepeated([a] + ips) == [a] + Squeeze(a, ips)
    decreases |ips|
  {
    if ips != [] {
      UnrepeatedHead(ips[0], ips[1..]);
      assert [ips[0]] + ips[1..] == ips;
      UnrepeatedCons(a, ips);
    }
  }

  lemma {:induction false} UnrepeatedCons(a: u64, ips: seq<u64>)
    requires ips != []
    ensures Unrepeated(ips) != [] && Unrepeated(ips)[0] == ips[0]
    ensures Unrepeated([a] + ips) == [a] + if ips[0] == a then Unrepeated(ips)[1..] else Unrepeated(ips)
    decreases |ips|
  {
    var all, n := [a] + ips, |ips|;
    assert all[..n] == [a] + ips[..n - 1];
    if n > 1 {
      UnrepeatedCons(a, ips[..n - 1]);
    } else {
      assert ips == [ips[0]];
    }
  }

  /** A captured chain is the first eight of the interrupted PC followed by the return addresses on the way
      up, with repeats left out. */
  lemma {:induction false} ChainIsWay(u: UserContext, fps: seq<u64>)
    requires u.userMode && u.regs.pc != 0 && Way(u.frames, u.regs.x[29], fps)
    ensures var full := Unrepeated([u.regs.pc] + Lrs(u.frames, fps));
            CaptureOf(u).chain == full[..if |full| <= 8 then |full| else 8] && !CaptureOf(u).failed
  {
    hide ReturnAddresses, Lrs, Squeeze, Unrepeated, Overruns;
    AddressesAlongWay(u.frames, u.regs.x[29], fps);
    UnrepeatedHead(u.regs.pc, Lrs(u.frames, fps));
  }

  /** The walk fills `room` places by frame `t` of the way, and that frame still links upward. */
  ghost predicate FillsAt(frames: map<u64, Frame>, fps: seq<u64>, last: u64, room: nat, t: nat) {
    && t < |fps| && (forall i :: 0 <= i < |fps| ==> fps[i] in frames)
    && frames[fps[t]].prevFp > fps[t]
    && |Unrepeated([last] + Lrs(frames, fps)[..t + 1])| > room
  }

  lemma {:induction false} OverrunAlongWay(frames: map<u64, Frame>, fp: u64, fps: seq<u64>, last: u64, room: nat)
    requires Way(frames, fp, fps) && room >= 1
    ensures Overruns(frames, fp, last, room) <==> exists t: nat :: FillsAt(frames, fps, last, room, t)
    decreases |fps|
  {
    hide Unrepeated, Lrs;
    if fps != [] {
      WayGoesOn(frames, fp, fps);
      if frames[fp].prevFp > fp {
        var lr, rest := frames[fp].lr, fps[1..];
        var left := if lr == last then room else room - 1;
        forall t: nat | t < |rest|
          ensures FillsAt(frames, fps, last, room, t + 1) <==> FillsAt(frames, rest, lr, left, t)
        {
          FillsLater(frames, fps, last, room, t);
        }
        FillsFirst(frames, fps, last, room);
        if left >= 1 {
          OverrunAlongWay(frames, frames[fp].prevFp, rest, lr, left);
          if exists t: nat :: FillsAt(frames, fps, last, room, t) {
            var t: nat :| FillsAt(frames, fps, last, room, t);
            assert t >= 1;
            assert FillsAt(frames, rest, lr, left, t - 1);
          }
          if exists t: nat :: FillsAt(frames, rest, lr, left, t) {
            var t: nat :| FillsAt(frames, rest, lr, left, t);
            assert FillsAt(frames, fps, last, room, t + 1);
          }
        } else {
          assert FillsAt(frames, fps, last, room, 0);
        }
      }
    }
  }

  lemma FillsFirst(frames: map<u64, Frame>, fps: seq<u64>, last: u64, room: nat)
    requires fps != [] && room >= 1 && forall i :: 0 <= i < |fps| ==> fps[i] in frames
    ensures FillsAt(frames, fps, last, room, 0) <==>
            frames[fps[0]].prevFp > fps[0] && room == 1 && frames[fps[0]].lr != last
  {
    var lr := frames[fps[0]].lr;
    assert Lrs(frames, fps)[..1] == [lr];
    var two := [last] + [lr];
    assert two[..1] == [last];
    assert Unrepeated(two) == Unrepeated([last]) + if lr == last then [] else [lr];
  }

  lemma FillsLater(frames: map<u64, Frame>, fps: seq<u64>, last: u64, room: nat, t: nat)
    requires room >= 1 && t + 1 < |fps| && forall i :: 0 <= i < |fps| ==> fps[i] in frames
    ensures var lr := frames[fps[0]].lr;
            FillsAt(frames, fps, last, room, t + 1) <==>
            FillsAt(frames, fps[1..], lr, if lr == last then room else room - 1, t)
  {
    hide Unrepeated;
    var lr, rest := frames[fps[0]].lr, Lrs(frames, fps[1..])[..t + 1];
    assert Lrs(frames, fps)[..t + 2] == [lr] + rest;
    UnrepeatedCons(last, [lr] + rest);
  }

  /** A capture is marked as truncated exactly when it has filled its eight places at some frame on the way
      that still links upward. */
  lemma {:induction false} TruncatedIff(u: UserContext, fps: seq<u64>)
    requires u.userMode && u.regs.pc != 0 && Way(u.frames, u.regs.x[29], fps)
    ensures CaptureOf(u).truncated <==>
            exists t :: 0 <= t < |fps| && u.frames[fps[t]].prevFp > fps[t]
                        && |Unrepeated([u.regs.pc] + Lrs(u.frames, fps)[..t + 1])| >= 8
  {
    hide Overruns, Unrepeated;
    var room := MAX_DEPTH - 1;
    OverrunAlongWay(u.frames, u.regs.x[29], fps, u.regs.pc, room);
    if exists t: nat :: FillsAt(u.frames, fps, u.regs.pc, room, t) {
      var t: nat :| FillsAt(u.frames, fps, u.regs.pc, room, t);
      assert |Unrepeated([u.regs.pc] + Lrs(u.frames, fps)[..t + 1])| >= 8;
    }
    if t :| 0 <= t < |fps| && u.frames[fps[t]].prevFp > fps[t]
            && |Unrepeated([u.regs.pc] + Lrs(u.frames, fps)[..t + 1])| >= 8 {
      assert FillsAt(u.frames, fps, u.regs.pc, room, t);
    }
  }
}
