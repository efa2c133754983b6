// UTF-16 strings at the boundary (src/strings.rs, src/types.rs:397-408).
// Encoding and decoding follow sections 2.1 and 2.2 of RFC 2781.
module Utf16 {
  import opened Abi

  // A Unicode scalar value: the `char` of a Rust string.
  type Scalar = c: int | 0 <= c <= 0x10FFFF && !(0xD800 <= c <= 0xDFFF)

  type Unit = u: int | 0 <= u <= 0xFFFF

  const REPLACEMENT: Scalar := 0xFFFD

  predicate IsHigh(u: Unit) {
    0xD800 <= u <= 0xDBFF
  }

  predicate IsLow(u: Unit) {
    0xDC00 <= u <= 0xDFFF
  }

  // ---------- Encoding ----------

  function EncodeScalar(c: Scalar): seq<Unit> {
    if c < 0x1_0000 then [c]
    else
      var v := c - 0x1_0000;
      [0xD800 + v / 0x400, 0xDC00 + v % 0x400]
  }

  function Encode(s: seq<Scalar>): seq<Unit> {
    if s == [] then [] else EncodeScalar(s[0]) + Encode(s[1..])
  }

  // ---------- Lossy decoding ----------

  function Combine(high: Unit, low: Unit): Scalar
    requires IsHigh(high) && IsLow(low)
  {
    0x1_0000 + (high - 0xD800) * 0x400 + (low - 0xDC00)
  }

  // A high surrogate looks one unit ahead; a unit that does not complete the
  // pair is pushed back and read again.
  function Lossy(u: seq<Unit>): seq<Scalar> {
    if u == [] then []
    else if !IsHigh(u[0]) && !IsLow(u[0]) then [u[0]] + Lossy(u[1..])
    else if IsLow(u[0]) then [REPLACEMENT] + Lossy(u[1..])
    else if |u| == 1 then [REPLACEMENT]
    else if !IsLow(u[1]) then [REPLACEMENT] + Lossy(u[1..])
    else [Combine(u[0], u[1])] + Lossy(u[2..])
  }

  // ---------- What decoding repairs, stated position by position ----------

  predicate Unpaired(u: seq<Unit>, i: int)
    requires 0 <= i < |u|
  {
    || (IsHigh(u[i]) && !(i + 1 < |u| && IsLow(u[i + 1])))
    || (IsLow(u[i]) && !(i > 0 && IsHigh(u[i - 1])))
  }

  function RepairedAt(u: seq<Unit>, i: int): Unit
    requires 0 <= i < |u|
  {
    if Unpaired(u, i) then REPLACEMENT else u[i]
  }

  predicate WellFormed(u: seq<Unit>) {
    forall i | 0 <= i < |u| :: !Unpaired(u, i)
  }

  // Pairs are numbered in their own order, from U+10000 to U+10FFFF, and each
  // is the encoding of its number; this leaves no freedom in the bit layout of
  // section 2.1.
  lemma PairsInOrder(high: Unit, low: Unit, high': Unit, low': Unit)
    requires IsHigh(high) && IsLow(low) && IsHigh(high') && IsLow(low')
    ensures Combine(high, low) < Combine(high', low') <==> high < high' || (high == high' && low < low')
    ensures EncodeScalar(Combine(high, low)) == [high, low]
    ensures Combine(0xD800, 0xDC00) == 0x1_0000 && Combine(0xDBFF, 0xDFFF) == 0x10_FFFF
  {
    if high < high' {
      assert (high' - high) * 0x400 >= 0x400;
    } else if high > high' {
      assert (high - high') * 0x400 >= 0x400;
    }
  }

  // ---------- Round trips ----------

  lemma EncodeStep(c: Scalar, s: seq<Scalar>)
    ensures Encode([c] + s) == EncodeScalar(c) + Encode(s)
  {
    assert ([c] + s)[1..] == s;
  }

  // Positions after the k units just read are repaired in the rest as they are
  // in the whole, when the rest does not begin inside a pair.
  lemma RestRepairs(u: seq<Unit>, k: nat)
    requires 0 < k <= |u|
    requires k < |u| && IsLow(u[k]) ==> !IsHigh(u[k - 1])
    ensures forall i | 0 <= i < |u| - k :: RepairedAt(u[k..], i) == RepairedAt(u, i + k)
  {
    forall i | 0 <= i < |u| - k ensures RepairedAt(u[k..], i) == RepairedAt(u, i + k) {
      assert u[k..][i] == u[i + k];
      if i > 0 {
        assert u[k..][i - 1] == u[i + k - 1];
      }
      if i + 1 < |u| - k {
        assert u[k..][i + 1] == u[i + k + 1];
      }
    }
  }

  // Decoding and encoding again keeps the length and every unit, except that
  // each unpaired surrogate becomes U+FFFD.
  lemma {:induction false} LossyThenEncode(u: seq<Unit>)
    ensures |Encode(Lossy(u))| == |u|
    ensures forall i | 0 <= i < |u| :: Encode(Lossy(u))[i] == RepairedAt(u, i)
    ensures forall i | 0 <= i < |u| :: Encode(Lossy(u))[i] == if Unpaired(u, i) then 0xFFFD else u[i]
  {
    if u != [] {
      var k := if IsHigh(u[0]) && |u| > 1 && IsLow(u[1]) then 2 else 1;
      var c := Lossy(u)[0];
      assert Lossy(u) == [c] + Lossy(u[k..]) by {
        if |u| == 1 {
          assert u[1..] == [];
        }
      }
      EncodeStep(c, Lossy(u[k..]));
      LossyThenEncode(u[k..]);
      RestRepairs(u, k);
      forall i | 0 <= i < |u| ensures Encode(Lossy(u))[i] == RepairedAt(u, i) {
        if i >= k {
          assert RepairedAt(u[k..], i - k) == RepairedAt(u, i);
        }
      }
    }
  }

  lemma LossyIsExactIff(u: seq<Unit>)
    ensures Encode(Lossy(u)) == u <==> WellFormed(u)
  {
    LossyThenEncode(u);
    if Encode(Lossy(u)) == u {
      forall i | 0 <= i < |u| ensures !Unpaired(u, i) {
        assert Encode(Lossy(u))[i] == RepairedAt(u, i);
      }
    }
  }

  // Decoding undoes encoding for every string, surrogate pairs included.
  lemma {:induction false} EncodeThenLossy(s: seq<Scalar>)
    ensures Lossy(Encode(s)) == s
  {
    if s != [] {
      var u, c := Encode(s), s[0];
      EncodeThenLossy(s[1..]);
      if c < 0x1_0000 {
        assert u[1..] == Encode(s[1..]);
      } else {
        assert u[2..] == Encode(s[1..]);
      }
    }
  }

  lemma EncodeInjective(s: seq<Scalar>, t: seq<Scalar>)
    requires Encode(s) == Encode(t)
    ensures s == t
  {
    EncodeThenLossy(s);
    EncodeThenLossy(t);
  }

  // Encodings are exactly the well-formed sequences, and a second repair
  // changes nothing.
  lemma EncodeOntoWellFormed(s: seq<Scalar>, u: seq<Unit>)
    ensures WellFormed(Encode(s))
    ensures WellFormed(u) ==> exists t :: Encode(t) == u
    ensures Lossy(Encode(Lossy(u))) == Lossy(u)
  {
    EncodeThenLossy(s);
    LossyIsExactIff(Encode(s));
    LossyIsExactIff(u);
    EncodeThenLossy(Lossy(u));
  }

  // ---------- String references ----------

  // `data` is the buffer the pointer leads to, or None for a null pointer.
  datatype StringRef = StringRef(data: Option<seq<Unit>>, length: int)

  // What a producer guarantees: the buffer holds at least `length` units.
  predicate Readable(r: StringRef) {
    r.data.Some? && r.length > 0 ==> r.length <= |r.data.value|
  }

  function Utf16ToString(r: StringRef): Option<seq<Scalar>>
    requires Readable(r)
  {
    if r.data.None? || r.length <= 0 then None
    else Some(Lossy(r.data.value[..r.length]))
  }

  function StringRefFromStr(s: seq<Scalar>): StringRef {
    StringRef(Some(Encode(s)), AsI32(|Encode(s)|))
  }

  // A string survives the trip through a reference exactly when it is not
  // empty and its length in units did not wrap.
  lemma StringRefRoundTripIff(s: seq<Scalar>)
    ensures Readable(StringRefFromStr(s))
    ensures Utf16ToString(StringRefFromStr(s)) == Some(s) <==> 0 < |Encode(s)| <= I32_MAX
    ensures s != [] <==> 0 < |Encode(s)|
  {
    var u, r := Encode(s), StringRefFromStr(s);
    EncodeThenLossy(s);
    if 0 < |u| <= I32_MAX {
      assert u[..r.length] == u;
    } else if r.length > 0 {
      LossyThenEncode(u[..r.length]);
      assert r.length < |u|;
    }
  }
}
