// The deterministic generator and the input mutator of the decoder's fuzz
// harness (src/decode.rs:357-448). Machine words are sequences of bits, least
// significant first.
module FuzzHarness {

  type Word = w: seq<bool> | |w| == 64 witness seq(64, i => false)

  type Octet = b: seq<bool> | |b| == 8 witness seq(8, i => false)

  const MAX_INPUT_LEN: nat := 1_024

  function Bits(n: nat, width: nat): (w: seq<bool>)
    ensures |w| == width
  {
    if width == 0 then [] else [n % 2 == 1] + Bits(n / 2, width - 1)
  }

  function ValueOf(w: seq<bool>): nat {
    if w == [] then 0 else (if w[0] then 1 else 0) + 2 * ValueOf(w[1..])
  }

  const ZERO: Word := seq(64, i => false)

  function Pow2(n: nat): nat {
    if n == 0 then 1 else 2 * Pow2(n - 1)
  }

  // Words of bits stand for the unsigned numbers below 2^width.
  lemma {:induction false} ValueOfBits(n: nat, width: nat)
    requires n < Pow2(width)
    ensures ValueOf(Bits(n, width)) == n
  {
    if width > 0 {
      ValueOfBits(n / 2, width - 1);
      assert Bits(n, width)[1..] == Bits(n / 2, width - 1);
    }
  }

  lemma {:induction false} BitsOfValue(w: seq<bool>)
    ensures ValueOf(w) < Pow2(|w|) && Bits(ValueOf(w), |w|) == w
  {
    if w != [] {
      BitsOfValue(w[1..]);
      assert w == [w[0]] + w[1..];
    }
  }

  // Bit k weighs 2^k.
  lemma {:induction false} ValueOfOneBit(width: nat, k: nat)
    requires k < width
    ensures ValueOf(seq(width, i => i == k)) == Pow2(k)
  {
    var w, rest := seq(width, i => i == k), seq(width - 1, i => i + 1 == k);
    assert w[1..] == rest;
    if k == 0 {
      ValueOfNoBits(rest);
    } else {
      assert rest == seq(width - 1, i => i == k - 1);
      ValueOfOneBit(width - 1, k - 1);
    }
  }

  lemma {:induction false} ValueOfNoBits(w: seq<bool>)
    requires forall i | 0 <= i < |w| :: !w[i]
    ensures ValueOf(w) == 0
  {
    if w != [] {
      ValueOfNoBits(w[1..]);
    }
  }

  // ---------- Shift and exclusive or ----------

  // The low n bits of x ^ (x << k).
  function LeftBits(x: Word, k: nat, n: nat): (r: seq<bool>)
    requires n <= 64
    ensures |r| == n
  {
    if n == 0 then [] else LeftBits(x, k, n - 1) + [x[n - 1] != (n > k && x[n - 1 - k])]
  }

  // The low n bits of x ^ (x >> k).
  function RightBits(x: Word, k: nat, n: nat): (r: seq<bool>)
    requires n <= 64
    ensures |r| == n
  {
    if n == 0 then [] else RightBits(x, k, n - 1) + [x[n - 1] != (n - 1 + k < 64 && x[n - 1 + k])]
  }

  function XorLeft(x: Word, k: nat): Word {
    LeftBits(x, k, |x|)
  }

  function XorRight(x: Word, k: nat): Word {
    RightBits(x, k, |x|)
  }

  lemma {:induction false} LeftBitAt(x: Word, k: nat, n: nat, i: nat)
    requires i < n <= 64
    ensures LeftBits(x, k, n)[i] == (x[i] != (i >= k && x[i - k]))
  {
    if i < n - 1 {
      LeftBitAt(x, k, n - 1, i);
    }
  }

  lemma {:induction false} RightBitAt(x: Word, k: nat, n: nat, i: nat)
    requires i < n <= 64
    ensures RightBits(x, k, n)[i] == (x[i] != (i + k < 64 && x[i + k]))
  {
    if i < n - 1 {
      RightBitAt(x, k, n - 1, i);
    }
  }

  lemma XorLeftAt(x: Word, k: nat, i: nat)
    requires i < 64
    ensures XorLeft(x, k)[i] == (x[i] != (i >= k && x[i - k]))
  {
    LeftBitAt(x, k, |x|, i);
  }

  lemma XorRightAt(x: Word, k: nat, i: nat)
    requires i < 64
    ensures XorRight(x, k)[i] == (x[i] != (i + k < 64 && x[i + k]))
  {
    RightBitAt(x, k, |x|, i);
  }

  function NextState(x: Word): Word {
    XorLeft(XorRight(XorLeft(x, 13), 7), 17)
  }

  // One step, bit by bit: left by 13, right by 7, left by 17.
  lemma StepWrittenOut(x: Word) returns (a: Word, b: Word)
    ensures forall i | 0 <= i < 64 :: a[i] == (x[i] != (i >= 13 && x[i - 13]))
    ensures forall i | 0 <= i < 64 :: b[i] == (a[i] != (i < 57 && a[i + 7]))
    ensures forall i | 0 <= i < 64 :: NextState(x)[i] == (b[i] != (i >= 17 && b[i - 17]))
  {
    a := XorLeft(x, 13);
    b := XorRight(a, 7);
    forall i | 0 <= i < 64
      ensures a[i] == (x[i] != (i >= 13 && x[i - 13]))
      ensures b[i] == (a[i] != (i < 57 && a[i + 7]))
      ensures NextState(x)[i] == (b[i] != (i >= 17 && b[i - 17]))
    {
      XorLeftAt(x, 13, i);
      XorRightAt(a, 7, i);
      XorLeftAt(b, 17, i);
    }
  }

  // Undone bit by bit: the low bits of x ^ (x << k) are those of x, and each
  // recovered bit gives the one k places up.
  function UndoLeftBit(y: Word, k: nat, i: nat): bool
    requires k > 0 && i < 64
  {
    y[i] != (i >= k && UndoLeftBit(y, k, i - k))
  }

  function UndoLeft(y: Word, k: nat): Word
    requires k > 0
  {
    seq(64, i requires 0 <= i < 64 => UndoLeftBit(y, k, i))
  }

  function UndoRightBit(y: Word, k: nat, i: nat): bool
    requires k > 0 && i < 64
    decreases 64 - i
  {
    y[i] != (i + k < 64 && UndoRightBit(y, k, i + k))
  }

  function UndoRight(y: Word, k: nat): Word
    requires k > 0
  {
    seq(64, i requires 0 <= i < 64 => UndoRightBit(y, k, i))
  }

  function PreviousState(y: Word): Word {
    UndoLeft(UndoRight(UndoLeft(y, 17), 7), 13)
  }

  lemma {:induction false} UndoLeftBitIsBit(x: Word, k: nat, i: nat)
    requires k > 0 && i < 64
    ensures UndoLeftBit(XorLeft(x, k), k, i) == x[i]
  {
    XorLeftAt(x, k, i);
    if i >= k {
      UndoLeftBitIsBit(x, k, i - k);
    }
  }

  lemma {:induction false} UndoRightBitIsBit(x: Word, k: nat, i: nat)
    requires k > 0 && i < 64
    ensures UndoRightBit(XorRight(x, k), k, i) == x[i]
    decreases 64 - i
  {
    XorRightAt(x, k, i);
    if i + k < 64 {
      UndoRightBitIsBit(x, k, i + k);
    }
  }

  lemma XorLeftBijective(x: Word, k: nat)
    requires k > 0
    ensures UndoLeft(XorLeft(x, k), k) == x && XorLeft(UndoLeft(x, k), k) == x
  {
    forall i | 0 <= i < 64
      ensures UndoLeft(XorLeft(x, k), k)[i] == x[i] && XorLeft(UndoLeft(x, k), k)[i] == x[i]
    {
      UndoLeftBitIsBit(x, k, i);
      XorLeftAt(UndoLeft(x, k), k, i);
    }
  }

  lemma XorRightBijective(x: Word, k: nat)
    requires k > 0
    ensures UndoRight(XorRight(x, k), k) == x && XorRight(UndoRight(x, k), k) == x
  {
    forall i | 0 <= i < 64
      ensures UndoRight(XorRight(x, k), k)[i] == x[i] && XorRight(UndoRight(x, k), k)[i] == x[i]
    {
      UndoRightBitIsBit(x, k, i);
      XorRightAt(UndoRight(x, k), k, i);
    }
  }

  // The step is a bijection on 64-bit words, and zero is its own image; so no
  // other word ever leads to zero.
  lemma NextStateBijective(x: Word)
    ensures PreviousState(NextState(x)) == x && NextState(PreviousState(x)) == x
    ensures NextState(x) == ZERO <==> x == ZERO
  {
    StepUndone(x);
    XorLeftBijective(x, 17);
    XorRightBijective(UndoLeft(x, 17), 7);
    XorLeftBijective(UndoRight(UndoLeft(x, 17), 7), 13);
    ZeroStays();
    if NextState(x) == ZERO {
      StepUndone(ZERO);
    }
  }

  lemma StepUndone(x: Word)
    ensures PreviousState(NextState(x)) == x
  {
    XorLeftBijective(x, 13);
    XorRightBijective(XorLeft(x, 13), 7);
    XorLeftBijective(XorRight(XorLeft(x, 13), 7), 17);
  }

  lemma ZeroStays()
    ensures NextState(ZERO) == ZERO
  {
    forall i | 0 <= i < 64
      ensures XorLeft(ZERO, 13)[i] == XorRight(ZERO, 7)[i] == XorLeft(ZERO, 17)[i] == ZERO[i]
    {
      XorLeftAt(ZERO, 13, i);
      XorRightAt(ZERO, 7, i);
      XorLeftAt(ZERO, 17, i);
    }
    assert XorLeft(ZERO, 13) == XorRight(ZERO, 7) == XorLeft(ZERO, 17) == ZERO;
  }

  lemma NonZeroStays(x: Word)
    requires x != ZERO
    ensures NextState(x) != ZERO
  {
    NextStateBijective(x);
  }

  function Iterate(x: Word, n: nat): Word {
    if n == 0 then x else NextState(Iterate(x, n - 1))
  }

  // From a non-zero word the generator never reaches zero, where it would be
  // stuck.
  lemma {:induction false} NeverZero(seed: Word, n: nat)
    requires seed != ZERO
    ensures Iterate(seed, n) != ZERO
  {
    if n > 0 {
      NeverZero(seed, n - 1);
      NonZeroStays(Iterate(seed, n - 1));
    }
  }

  // The harness starts from this seed, so it never gets stuck.
  lemma HarnessNeverZero(n: nat)
    ensures Iterate(Bits(0x5EED_2026_1B8E_F00D, 64), n) != ZERO
  {
    var seed := 0x5EED_2026_1B8E_F00D;
    assert seed % 2 == 1;
    assert Bits(seed, 64)[0];
    NeverZero(Bits(seed, 64), n);
  }

  // ---------- The objects ----------

  class XorShift64 {
    var state: Word

    constructor (seed: Word)
      ensures state == seed
    {
      state := seed;
    }

    method NextU64() returns (x: Word)
      modifies this
      ensures x == state == NextState(old(state))
      ensures old(state) != ZERO ==> state != ZERO
    {
      NextStateBijective(state);
      x := state;
      x := XorLeft(x, 13);
      x := XorRight(x, 7);
      x := XorLeft(x, 17);
      state := x;
    }

    method Below(bound: nat) returns (n: nat)
      requires bound > 0
      modifies this
      ensures n < bound && n == ValueOf(state) % bound && state == NextState(old(state))
      ensures old(state) != ZERO ==> state != ZERO
    {
      var x := NextU64();
      n := ValueOf(x) % bound;
    }
  }

  // The Vec<u8> under mutation.
  class Input {
    var bytes: seq<Octet>

    constructor (bytes: seq<Octet>)
      ensures this.bytes == bytes
    {
      this.bytes := bytes;
    }
  }

  // ---------- What one mutation may do ----------

  ghost predicate FlipsOneBit(before: seq<Octet>, after: seq<Octet>, i: nat, k: nat) {
    i < |before| && k < 8 && after == before[i := before[i][k := !before[i][k]]]
  }

  ghost predicate ChangesOneByte(before: seq<Octet>, after: seq<Octet>, i: nat) {
    i < |before| && i < |after| && after == before[i := after[i]]
  }

  ghost predicate OneEdit(before: seq<Octet>, after: seq<Octet>) {
    || after <= before
    || (before <= after && |after| < |before| + 32 && |after| <= MAX_INPUT_LEN)
    || (exists i, k :: FlipsOneBit(before, after, i, k))
    || (exists i :: ChangesOneByte(before, after, i))
  }

  // What the k-th draw below a bound gives, from a generator in this state.
  function Pick(start: Word, k: nat, bound: nat): (n: nat)
    requires bound > 0
    ensures n < bound
  {
    ValueOf(Iterate(start, k)) % bound
  }

  // The `as u8` cast of a word.
  function LowOctet(x: Word): Octet {
    x[..8]
  }

  // The low bytes of the n draws after the first k.
  function DrawnBytes(state: Word, k: nat, n: nat): seq<Octet> {
    if n == 0 then [] else DrawnBytes(state, k, n - 1) + [LowOctet(Iterate(state, k + n))]
  }

  // The four arms. `start` is the generator's state before the draw that chose.

  method FlipBit(rng: XorShift64, input: Input, ghost start: Word)
    requires rng.state == Iterate(start, 1)
    modifies rng, input
    ensures old(input.bytes) == [] ==> input.bytes == [] && rng.state == Iterate(start, 1)
    ensures var was := old(input.bytes);
            was != [] ==>
              && FlipsOneBit(was, input.bytes, Pick(start, 2, |was|), Pick(start, 3, 8))
              && rng.state == Iterate(start, 3)
    ensures OneEdit(old(input.bytes), input.bytes)
  {
    if input.bytes != [] {
      var i := rng.Below(|input.bytes|);
      assert rng.state == Iterate(start, 2);
      var k := rng.Below(8);
      assert rng.state == Iterate(start, 3);
      input.bytes := input.bytes[i := input.bytes[i][k := !input.bytes[i][k]]];
      assert FlipsOneBit(old(input.bytes), input.bytes, i, k);
    }
  }

  method Truncate(rng: XorShift64, input: Input, ghost start: Word)
    requires rng.state == Iterate(start, 1)
    modifies rng, input
    ensures input.bytes == old(input.bytes)[..Pick(start, 2, |old(input.bytes)| + 1)]
    ensures rng.state == Iterate(start, 2)
    ensures OneEdit(old(input.bytes), input.bytes)
  {
    var newLen := rng.Below(|input.bytes| + 1);
    assert rng.state == Iterate(start, 2);
    input.bytes := input.bytes[..newLen];
  }

  method Extend(rng: XorShift64, input: Input, ghost start: Word)
    requires rng.state == Iterate(start, 1)
    modifies rng, input
    ensures |old(input.bytes)| >= 1_024 ==> input.bytes == old(input.bytes) && rng.state == Iterate(start, 1)
    ensures var was := old(input.bytes);
            |was| < 1_024 ==>
              var n := if Pick(start, 2, 32) < 1_024 - |was| then Pick(start, 2, 32) else 1_024 - |was|;
              && input.bytes == was + DrawnBytes(start, 2, n)
              && rng.state == Iterate(start, 2 + n)
    ensures OneEdit(old(input.bytes), input.bytes)
  {
    if |input.bytes| < MAX_INPUT_LEN {
      var drawn := rng.Below(32);
      assert rng.state == Iterate(start, 2);
      var room := MAX_INPUT_LEN - |input.bytes|;
      var count := if drawn < room then drawn else room;
      ghost var was := input.bytes;
      for j := 0 to count
        invariant |input.bytes| == |was| + j
        invariant input.bytes == was + DrawnBytes(start, 2, j) && rng.state == Iterate(start, 2 + j)
      {
        var x := rng.NextU64();
        assert x == Iterate(start, 2 + (j + 1));
        input.bytes := input.bytes + [LowOctet(x)];
      }
    }
  }

  method Overwrite(rng: XorShift64, input: Input, ghost start: Word)
    requires rng.state == Iterate(start, 1)
    modifies rng, input
    ensures old(input.bytes) == [] ==> input.bytes == [] && rng.state == Iterate(start, 1)
    ensures var was := old(input.bytes);
            was != [] ==>
              && input.bytes == was[Pick(start, 2, |was|) := LowOctet(Iterate(start, 3))]
              && rng.state == Iterate(start, 3)
    ensures OneEdit(old(input.bytes), input.bytes)
  {
    if input.bytes != [] {
      var i := rng.Below(|input.bytes|);
      assert rng.state == Iterate(start, 2);
      var x := rng.NextU64();
      assert x == Iterate(start, 3);
      input.bytes := input.bytes[i := LowOctet(x)];
      assert ChangesOneByte(old(input.bytes), input.bytes, i);
    }
  }

  // Every index is in range. The first draw chooses: flip one bit, truncate,
  // extend by fewer than 32 drawn bytes up to the limit, or overwrite one byte,
  // at the place the next draws name; an edit without room draws nothing more.
  method Mutate(rng: XorShift64, input: Input)
    modifies rng, input
    ensures var was, start := old(input.bytes), old(rng.state);
            Pick(start, 1, 4) == 0 && was != [] ==>
              && FlipsOneBit(was, input.bytes, Pick(start, 2, |was|), Pick(start, 3, 8))
              && rng.state == Iterate(start, 3)
    ensures var was, start := old(input.bytes), old(rng.state);
            Pick(start, 1, 4) == 1 ==>
              && input.bytes == was[..Pick(start, 2, |was| + 1)]
              && rng.state == Iterate(start, 2)
    ensures var was, start := old(input.bytes), old(rng.state);
            Pick(start, 1, 4) == 2 && |was| < 1_024 ==>
              var n := if Pick(start, 2, 32) < 1_024 - |was| then Pick(start, 2, 32) else 1_024 - |was|;
              && input.bytes == was + DrawnBytes(start, 2, n)
              && rng.state == Iterate(start, 2 + n)
    ensures var was, start := old(input.bytes), old(rng.state);
            Pick(start, 1, 4) == 3 && was != [] ==>
              && input.bytes == was[Pick(start, 2, |was|) := LowOctet(Iterate(start, 3))]
              && rng.state == Iterate(start, 3)
    ensures var was, start := old(input.bytes), old(rng.state);
            var choice := Pick(start, 1, 4);
            (choice == 2 && |was| >= 1_024) || ((choice == 0 || choice == 3) && was == []) ==>
              input.bytes == was && rng.state == Iterate(start, 1)
    ensures OneEdit(old(input.bytes), input.bytes)
    ensures exists k :: rng.state == Iterate(old(rng.state), k)
  {
    ghost var start := rng.state;
    var choice := rng.Below(4);
    assert rng.state == Iterate(start, 1);
    assert choice == Pick(start, 1, 4);
    if choice == 0 {
      FlipBit(rng, input, start);
    } else if choice == 1 {
      Truncate(rng, input, start);
    } else if choice == 2 {
      Extend(rng, input, start);
    } else {
      Overwrite(rng, input, start);
    }
  }

  lemma EditKeepsLimit(before: seq<Octet>, after: seq<Octet>)
    requires OneEdit(before, after) && |before| <= 1_024
    ensures |after| <= 1_024
  {
  }

  // Any stack of mutations keeps an input within the length limit, and the
  // generator away from zero.
  method MutateStack(rng: XorShift64, input: Input, rounds: nat)
    requires |input.bytes| <= 1_024
    modifies rng, input
    ensures |input.bytes| <= 1_024
    ensures old(rng.state) != ZERO ==> rng.state != ZERO
  {
    for r := 0 to rounds
      invariant |input.bytes| <= MAX_INPUT_LEN
      invariant old(rng.state) != ZERO ==> rng.state != ZERO
    {
      ghost var was, start := input.bytes, rng.state;
      Mutate(rng, input);
      EditKeepsLimit(was, input.bytes);
      ghost var k :| rng.state == Iterate(start, k);
      if start != ZERO {
        NeverZero(start, k);
      }
    }
  }
}
