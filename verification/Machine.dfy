/** Machine integers and the small collection helpers every other module shares. */
module Machine {
  const U32_LIMIT: nat := 0x1_0000_0000
  const U64_LIMIT: nat := 0x1_0000_0000_0000_0000

  type u32 = n: nat | n < 0x1_0000_0000
  type u64 = n: nat | n < 0x1_0000_0000_0000_0000

  datatype Option<+T> = None | Some(value: T)

  /** 64-bit unsigned arithmetic. */
  function Wrap(n: int): (r: u64)
    ensures 0 <= n < U64_LIMIT ==> r == n
  {
    n % 0x1_0000_0000_0000_0000
  }

  function Add64(a: u64, b: u64): u64 { Wrap(a + b) }

  function Sub64(a: u64, b: u64): u64 { Wrap(a - b) }

  function Min(a: nat, b: nat): nat {
    if a <= b then a else b
  }

  function Bit(b: bool): nat { if b then 1 else 0 }

  function Pow2(n: nat): nat {
    if n == 0 then 1 else 2 * Pow2(n - 1)
  }

  /** What wrapping takes away. */
  function Laps(n: int): (q: int)
    ensures n == q * 0x1_0000_0000_0000_0000 + Wrap(n)
  {
    n / 0x1_0000_0000_0000_0000
  }

  lemma WrapIs(n: int, q: int, r: u64)
    ensures n == q * 0x1_0000_0000_0000_0000 + r ==> Wrap(n) == r
  {
  }

  /** Numbers that differ by whole laps wrap alike. */
  lemma SameWrap(a: int, b: int, q: int)
    requires a == b + q * 0x1_0000_0000_0000_0000
    ensures Wrap(a) == Wrap(b)
  {
    hide Wrap, Laps;
    WrapIs(a, Laps(b) + q, Wrap(b));
  }

  /** Wrapping early or late gives the same result. */
  lemma WrapTwice(a: int, b: int)
    ensures Wrap(Wrap(a) + b) == Wrap(a + b)
    ensures Wrap(Wrap(a) - Wrap(b)) == Wrap(a - b)
  {
    hide Wrap, Laps;
    SameWrap(Wrap(a) + b, a + b, 0 - Laps(a));
    SameWrap(Wrap(a) - Wrap(b), a - b, Laps(b) - Laps(a));
  }

  /** Sum of a sequence of counters. */
  function Sum(s: seq<nat>): nat {
    if s == [] then 0 else Sum(s[..|s| - 1]) + s[|s| - 1]
  }

  lemma {:induction false} Pow2Grows(a: nat, b: nat)
    requires a <= b
    ensures 0 < Pow2(a) <= Pow2(b)
    ensures a < b ==> Pow2(a) < Pow2(b)
    decreases b
  {
    if a < b {
      Pow2Grows(a, b - 1);
    } else if a > 0 {
      Pow2Grows(a - 1, b - 1);
    }
  }

  lemma {:induction false} Pow2Add(a: nat, b: nat)
    ensures Pow2(a + b) == Pow2(a) * Pow2(b)
  {
    if a > 0 {
      Pow2Add(a - 1, b);
      assert Pow2(a + b) == 2 * Pow2(a - 1 + b);
    }
  }

  /** The powers of two around the word sizes. */
  lemma TopPowers()
    ensures Pow2(31) == 0x8000_0000 && Pow2(32) == U32_LIMIT
    ensures Pow2(56) == 0x100_0000_0000_0000
    ensures Pow2(61) == 0x2000_0000_0000_0000
    ensures Pow2(62) == 0x4000_0000_0000_0000
    ensures Pow2(63) == 0x8000_0000_0000_0000
    ensures Pow2(64) == U64_LIMIT
  {
    assert Pow2(8) == 256;
    Pow2Add(8, 8);
    Pow2Add(16, 16);
    assert Pow2(32) == 2 * Pow2(31);
    Pow2Add(32, 16);
    Pow2Add(48, 8);
    assert Pow2(61) == 32 * Pow2(56);
  }

  /** Changing one counter changes the sum by the difference. */
  lemma {:induction false} SumUpdate(s: seq<nat>, i: nat, v: nat)
    requires i < |s|
    ensures Sum(s[i := v]) + s[i] == Sum(s) + v
  {
    var t := s[i := v];
    if i == |s| - 1 {
      assert t[..|t| - 1] == s[..|s| - 1];
    } else {
      assert t[..|t| - 1] == s[..|s| - 1][i := v];
      SumUpdate(s[..|s| - 1], i, v);
    }
  }

  lemma {:induction false} SumZero(s: seq<nat>)
    requires forall i :: 0 <= i < |s| ==> s[i] == 0
    ensures Sum(s) == 0
  {
    if s != [] {
      SumZero(s[..|s| - 1]);
    }
  }

  /** A list without repetition is as long as its set of elements is large. */
  lemma {:induction false} DistinctSize<T>(ks: seq<T>, elements: set<T>)
    requires forall i, j :: 0 <= i < j < |ks| ==> ks[i] != ks[j]
    requires forall k :: k in ks <==> k in elements
    ensures |ks| == |elements|
  {
    if ks == [] {
      assert elements == {};
    } else {
      var n := |ks| - 1;
      assert ks[n] in elements && ks[n] !in ks[..n];
      assert forall k :: k in ks <==> k in ks[..n] || k == ks[n];
      DistinctSize(ks[..n], elements - {ks[n]});
    }
  }

  lemma Member<T>(s: set<T>) returns (x: T)
    requires s != {}
    ensures x in s
  {
    x :| x in s;
  }

  lemma {:induction false} SubsetSize<T>(a: set<T>, b: set<T>)
    requires a <= b
    ensures |a| <= |b|
  {
    if a != {} {
      var x :| x in a;
      SubsetSize(a - {x}, b - {x});
    }
  }
}
