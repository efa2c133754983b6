// Reading "320×240, ..." from a profile description (src/codec.rs:244-253).
module Dimensions {
  import opened Abi
  import opened Utf16

  type Str = seq<Scalar>

  const CROSS: Scalar := 0xD7
  const PLUS: Scalar := 0x2B
  const MINUS: Scalar := 0x2D

  predicate IsDigit(c: Scalar) {
    0x30 <= c <= 0x39
  }

  // The characters with the Unicode property White_Space, as ranges.
  predicate IsWhite(c: Scalar) {
    || 0x09 <= c <= 0x0D || c == 0x20 || c == 0x85 || c == 0xA0 || c == 0x1680
    || 0x2000 <= c <= 0x200A || c == 0x2028 || c == 0x2029 || c == 0x202F || c == 0x205F || c == 0x3000
  }

  predicate AllDigits(s: Str) {
    forall i | 0 <= i < |s| :: IsDigit(s[i])
  }

  predicate AllWhite(s: Str) {
    forall i | 0 <= i < |s| :: IsWhite(s[i])
  }

  // ---------- Strings as bytes (section 3 of RFC 3629) ----------

  function LenUtf8(c: Scalar): nat {
    if c < 0x80 then 1 else if c < 0x800 then 2 else if c < 0x1_0000 then 3 else 4
  }

  function Utf8Char(c: Scalar): (b: seq<byte>)
    ensures |b| == LenUtf8(c)
  {
    if c < 0x80 then [c]
    else if c < 0x800 then [0xC0 + c / 0x40, 0x80 + c % 0x40]
    else if c < 0x1_0000 then [0xE0 + c / 0x1000, 0x80 + c / 0x40 % 0x40, 0x80 + c % 0x40]
    else [0xF0 + c / 0x4_0000, 0x80 + c / 0x1000 % 0x40, 0x80 + c / 0x40 % 0x40, 0x80 + c % 0x40]
  }

  function Utf8(s: Str): seq<byte> {
    if s == [] then [] else Utf8Char(s[0]) + Utf8(s[1..])
  }

  function ByteLen(s: Str): nat {
    if s == [] then 0 else LenUtf8(s[0]) + ByteLen(s[1..])
  }

  lemma {:induction false} ByteLenCounts(s: Str)
    ensures |Utf8(s)| == ByteLen(s)
  {
    if s != [] {
      ByteLenCounts(s[1..]);
    }
  }

  predicate IsContinuation(b: byte) {
    0x80 <= b < 0xC0
  }

  // The test the language makes before slicing a string at a byte offset.
  predicate IsCharBoundary(bytes: seq<byte>, at: nat) {
    at == 0 || at == |bytes| || (at < |bytes| && !IsContinuation(bytes[at]))
  }

  // How many characters lie before a byte offset; None inside a character or
  // past the end.
  function CharsBefore(s: Str, at: nat): (n: Option<nat>)
    ensures n.Some? ==> n.value <= |s|
  {
    if at == 0 then Some(0)
    else if s == [] || at < LenUtf8(s[0]) then None
    else
      match CharsBefore(s[1..], at - LenUtf8(s[0]))
      case None => None
      case Some(n) => Some(n + 1)
  }

  lemma CharBytes(c: Scalar)
    ensures !IsContinuation(Utf8Char(c)[0])
    ensures forall i | 0 < i < |Utf8Char(c)| :: IsContinuation(Utf8Char(c)[i])
  {
  }

  // A byte offset can be sliced at exactly when it falls between characters.
  lemma {:induction false} BoundaryIff(s: Str, at: nat)
    requires at <= |Utf8(s)|
    ensures CharsBefore(s, at).Some? <==> IsCharBoundary(Utf8(s), at)
  {
    if at > 0 && s != [] {
      var head := Utf8Char(s[0]);
      CharBytes(s[0]);
      if at < |head| {
        assert Utf8(s)[at] == head[at];
      } else {
        BoundaryIff(s[1..], at - |head|);
        if at < |Utf8(s)| {
          assert Utf8(s)[at] == Utf8(s[1..])[at - |head|];
        }
        if at == |head| && s[1..] != [] {
          CharBytes(s[1]);
          assert Utf8(s[1..])[0] == Utf8Char(s[1])[0];
        }
      }
    }
  }

  lemma CutAfterHead(head: seq<byte>, rest: seq<byte>, at: nat)
    requires |head| <= at <= |head| + |rest|
    ensures (head + rest)[..at] == head + rest[..at - |head|]
    ensures (head + rest)[at..] == rest[at - |head|..]
  {
  }

  // Cutting the characters there is cutting the bytes there.
  lemma {:induction false} SlicesAreByteSlices(s: Str, at: nat)
    requires CharsBefore(s, at).Some?
    ensures at <= |Utf8(s)|
    ensures var n := CharsBefore(s, at).value;
            Utf8(s[..n]) == Utf8(s)[..at] && Utf8(s[n..]) == Utf8(s)[at..]
  {
    if at == 0 {
      assert s[0..] == s;
    } else {
      var head, tail := Utf8Char(s[0]), s[1..];
      var n := CharsBefore(tail, at - |head|).value;
      SlicesAreByteSlices(tail, at - |head|);
      assert s[..n + 1][1..] == tail[..n];
      assert s[n + 1..] == tail[n..];
      CutAfterHead(head, Utf8(tail), at);
    }
  }

  lemma SixBits(high: int, low: int)
    requires 0 <= low < 64
    ensures (high * 64 + low) / 0x40 == high && (high * 64 + low) % 0x40 == low
  {
  }

  // The bytes of a character, as section 3 of RFC 3629 lays its bits out.
  lemma TwoBytes(b0: nat, b1: nat)
    requires b1 < 64 && 0x80 <= b0 * 64 + b1 < 0x800
    ensures Utf8Char(b0 * 64 + b1) == [0xC0 + b0, 0x80 + b1]
  {
    SixBits(b0, b1);
  }

  lemma ThreeBytes(b0: nat, b1: nat, b2: nat, c: Scalar)
    requires b1 < 64 && b2 < 64 && c == (b0 * 64 + b1) * 64 + b2 && 0x800 <= c < 0x1_0000
    ensures Utf8Char(c) == [0xE0 + b0, 0x80 + b1, 0x80 + b2]
  {
    SixBits(b0, b1);
    SixBits(b0 * 64 + b1, b2);
    assert c / 0x1000 == c / 0x40 / 0x40;
  }

  lemma FourBytes(b0: nat, b1: nat, b2: nat, b3: nat, c: Scalar)
    requires b1 < 64 && b2 < 64 && b3 < 64 && c == ((b0 * 64 + b1) * 64 + b2) * 64 + b3 && 0x1_0000 <= c
    ensures Utf8Char(c) == [0xF0 + b0, 0x80 + b1, 0x80 + b2, 0x80 + b3]
  {
    SixBits(b0, b1);
    SixBits(b0 * 64 + b1, b2);
    SixBits((b0 * 64 + b1) * 64 + b2, b3);
    assert c / 0x1000 == c / 0x40 / 0x40 && c / 0x4_0000 == c / 0x1000 / 0x40;
  }

  // ---------- The code ----------

  // str::find of one character: a byte offset.
  function Find(s: Str, c: Scalar): Option<nat> {
    if s == [] then None
    else if s[0] == c then Some(0)
    else
      match Find(s[1..], c)
      case None => None
      case Some(at) => Some(LenUtf8(s[0]) + at)
  }

  function TrimStart(s: Str): Str {
    if s != [] && IsWhite(s[0]) then TrimStart(s[1..]) else s
  }

  function TrimEnd(s: Str): Str {
    if s != [] && IsWhite(s[|s| - 1]) then TrimEnd(s[..|s| - 1]) else s
  }

  function TakeDigits(s: Str): Str {
    if s != [] && IsDigit(s[0]) then [s[0]] + TakeDigits(s[1..]) else []
  }

  // checked_mul by ten, then checked_add of the digit, digit after digit.
  function Accumulate(arch: Arch, acc: nat, s: Str): Option<nat>
    decreases |s|
  {
    if s == [] then Some(acc)
    else if !IsDigit(s[0]) then None
    else if acc * 10 > arch.UsizeMax() then None
    else if acc * 10 + (s[0] - 0x30) > arch.UsizeMax() then None
    else Accumulate(arch, acc * 10 + (s[0] - 0x30), s[1..])
  }

  // str::parse::<usize>: a lone sign is refused, a plus sign is skipped, and a
  // minus sign is read as a (bad) digit.
  function ParseUsize(arch: Arch, s: Str): Option<nat> {
    if s == [] || s == [PLUS] || s == [MINUS] then None
    else if s[0] == PLUS then Accumulate(arch, 0, s[1..])
    else Accumulate(arch, 0, s)
  }

  datatype Parsed = Panics | Returns(dimensions: Option<(nat, nat)>)

  // The two slices panic when their offset is not a character boundary.
  function ParseDimensions(arch: Arch, desc: Str): Parsed {
    match Find(desc, CROSS)
    case None => Returns(None)
    case Some(cross) =>
      match CharsBefore(desc, cross)
      case None => Panics
      case Some(n) =>
        match ParseUsize(arch, TrimEnd(TrimStart(desc[..n])))
        case None => Returns(None)
        case Some(width) =>
          match CharsBefore(desc, cross + LenUtf8(CROSS))
          case None => Panics
          case Some(m) =>
            match ParseUsize(arch, TakeDigits(desc[m..]))
            case None => Returns(None)
            case Some(height) => Returns(Some((width, height)))
  }

  // ---------- The grammar ----------

  function Value(s: Str): nat
    requires AllDigits(s)
  {
    if s == [] then 0 else Value(s[..|s| - 1]) * 10 + (s[|s| - 1] - 0x30)
  }

  datatype Reading = Reading(lead: Str, plus: bool, width: Str, trail: Str, height: Str, tail: Str)

  function Sign(plus: bool): Str {
    if plus then [PLUS] else []
  }

  predicate Numeral(arch: Arch, s: Str, n: nat) {
    s != [] && AllDigits(s) && Value(s) == n <= arch.UsizeMax()
  }

  function Text(r: Reading): Str {
    r.lead + Sign(r.plus) + r.width + r.trail + [CROSS] + (r.height + r.tail)
  }

  // White space, an optional plus sign, a decimal width, white space, the
  // multiplication sign, and the longest run of digits that follows it.
  ghost predicate Reads(arch: Arch, desc: Str, r: Reading, width: nat, height: nat) {
    && desc == Text(r)
    && AllWhite(r.lead) && AllWhite(r.trail)
    && Numeral(arch, r.width, width) && Numeral(arch, r.height, height)
    && (r.tail == [] || !IsDigit(r.tail[0]))
  }

  // ---------- Numbers ----------

  lemma ValueAppend(s: Str, c: Scalar)
    requires AllDigits(s) && IsDigit(c)
    ensures AllDigits(s + [c]) && Value(s + [c]) == Value(s) * 10 + (c - 0x30)
  {
    assert (s + [c])[..|s|] == s;
  }

  lemma {:induction false} ValueGrows(s: Str, k: nat)
    requires AllDigits(s) && k <= |s|
    ensures AllDigits(s[..k]) && Value(s[..k]) <= Value(s)
  {
    if k == |s| {
      assert s[..k] == s;
    } else {
      ValueGrows(s[..|s| - 1], k);
      assert s[..|s| - 1][..k] == s[..k];
    }
  }

  lemma AccumulateStep(arch: Arch, acc: nat, s: Str)
    requires s != [] && IsDigit(s[0])
    ensures var next := acc * 10 + (s[0] - 0x30);
            Accumulate(arch, acc, s) == if next > arch.UsizeMax() then None else Accumulate(arch, next, s[1..])
  {
  }

  // Digit-by-digit checking refuses a number exactly when the number itself is
  // too large: having read `done`, the rest decides the same.
  lemma {:induction false} AccumulateExactly(arch: Arch, done: Str, rest: Str)
    requires AllDigits(done) && Value(done) <= arch.UsizeMax()
    ensures Accumulate(arch, Value(done), rest).Some?
            <==> AllDigits(done + rest) && Value(done + rest) <= arch.UsizeMax()
    ensures Accumulate(arch, Value(done), rest).Some? ==>
              Accumulate(arch, Value(done), rest).value == Value(done + rest)
    decreases |rest|
  {
    if rest == [] {
      assert done + rest == done;
    } else if !IsDigit(rest[0]) {
      assert (done + rest)[|done|] == rest[0];
    } else {
      var more := done + [rest[0]];
      ValueAppend(done, rest[0]);
      assert done + rest == more + rest[1..];
      AccumulateStep(arch, Value(done), rest);
      if Value(more) <= arch.UsizeMax() {
        AccumulateExactly(arch, more, rest[1..]);
      } else if AllDigits(done + rest) {
        ValueGrows(done + rest, |more|);
        assert (done + rest)[..|more|] == more;
      }
    }
  }

  lemma ParseUsizeIff(arch: Arch, s: Str, n: nat)
    ensures ParseUsize(arch, s) == Some(n)
            <==> Numeral(arch, s, n) || (s != [] && s[0] == PLUS && Numeral(arch, s[1..], n))
  {
    AccumulateExactly(arch, [], s);
    assert [] + s == s;
    if s != [] {
      AccumulateExactly(arch, [], s[1..]);
      assert [] + s[1..] == s[1..];
      if s[0] == PLUS || s[0] == MINUS {
        assert !IsDigit(s[0]);
      }
    }
  }

  function Print(n: nat): Str {
    if n < 10 then [0x30 + n] else Print(n / 10) + [0x30 + n % 10]
  }

  lemma {:induction false} PrintIsNumeral(n: nat)
    ensures Print(n) != [] && AllDigits(Print(n)) && Value(Print(n)) == n
  {
    if n < 10 {
      assert Print(n)[..0] == [];
    } else {
      PrintIsNumeral(n / 10);
      ValueAppend(Print(n / 10), 0x30 + n % 10);
    }
  }

  // ---------- Finding and slicing ----------

  lemma {:induction false} FindFirst(s: Str, p: Str, c: Scalar, rest: Str)
    requires s == p + rest && c !in p && rest != [] && rest[0] == c
    ensures Find(s, c) == Some(ByteLen(p))
    ensures CharsBefore(s, ByteLen(p)) == Some(|p|)
    ensures CharsBefore(s, ByteLen(p) + LenUtf8(c)) == Some(|p| + 1)
  {
    if p == [] {
      assert s == rest;
    } else {
      assert s[0] == p[0] && s[1..] == p[1..] + rest;
      FindFirst(s[1..], p[1..], c, rest);
    }
  }

  lemma {:induction false} FindSplits(s: Str, c: Scalar) returns (p: Str, q: Str)
    requires Find(s, c).Some?
    ensures s == p + [c] + q && c !in p
  {
    if s[0] == c {
      p, q := [], s[1..];
    } else {
      p, q := FindSplits(s[1..], c);
      p := [s[0]] + p;
    }
  }

  lemma {:induction false} FindAbsent(s: Str, c: Scalar)
    ensures Find(s, c).Some? <==> c in s
  {
    if s != [] && s[0] != c {
      FindAbsent(s[1..], c);
      assert s == [s[0]] + s[1..];
    }
  }

  // ---------- Trimming and the digit run ----------

  lemma {:induction false} TrimStartDrops(lead: Str, s: Str)
    requires AllWhite(lead) && (s == [] || !IsWhite(s[0]))
    ensures TrimStart(lead + s) == s
  {
    if lead == [] {
      assert lead + s == s;
    } else {
      assert (lead + s)[1..] == lead[1..] + s;
      TrimStartDrops(lead[1..], s);
    }
  }

  lemma {:induction false} TrimEndDrops(s: Str, trail: Str)
    requires AllWhite(trail) && (s == [] || !IsWhite(s[|s| - 1]))
    ensures TrimEnd(s + trail) == s
  {
    if trail == [] {
      assert s + trail == s;
    } else {
      assert (s + trail)[..|s + trail| - 1] == s + trail[..|trail| - 1];
      TrimEndDrops(s, trail[..|trail| - 1]);
    }
  }

  lemma {:induction false} TrimStartSplits(s: Str) returns (lead: Str)
    ensures AllWhite(lead) && s == lead + TrimStart(s)
  {
    if s != [] && IsWhite(s[0]) {
      lead := TrimStartSplits(s[1..]);
      lead := [s[0]] + lead;
    } else {
      lead := [];
    }
  }

  lemma {:induction false} TrimEndSplits(s: Str) returns (trail: Str)
    ensures AllWhite(trail) && s == TrimEnd(s) + trail
  {
    if s != [] && IsWhite(s[|s| - 1]) {
      trail := TrimEndSplits(s[..|s| - 1]);
      trail := trail + [s[|s| - 1]];
    } else {
      trail := [];
    }
  }

  lemma {:induction false} TakeDigitsIsMaximal(ds: Str, tail: Str)
    requires AllDigits(ds) && (tail == [] || !IsDigit(tail[0]))
    ensures TakeDigits(ds + tail) == ds
  {
    if ds == [] {
      assert ds + tail == tail;
    } else {
      assert (ds + tail)[1..] == ds[1..] + tail;
      TakeDigitsIsMaximal(ds[1..], tail);
    }
  }

  lemma {:induction false} TakeDigitsSplits(s: Str) returns (tail: Str)
    ensures AllDigits(TakeDigits(s)) && s == TakeDigits(s) + tail && (tail == [] || !IsDigit(tail[0]))
  {
    if s != [] && IsDigit(s[0]) {
      tail := TakeDigitsSplits(s[1..]);
    } else {
      tail := s;
    }
  }

  // ---------- Results ----------

  // What the parser does on a string cut at its first multiplication sign.
  lemma ParseAtFirstCross(arch: Arch, p: Str, q: Str)
    requires CROSS !in p
    ensures ParseDimensions(arch, p + [CROSS] + q) ==
            Returns(Both(ParseUsize(arch, TrimEnd(TrimStart(p))), ParseUsize(arch, TakeDigits(q))))
  {
    var desc := p + [CROSS] + q;
    assert desc == p + ([CROSS] + q);
    FindFirst(desc, p, CROSS, [CROSS] + q);
    var n, m := |p|, |p| + 1;
    assert desc[..n] == p;
    assert desc[m..] == q;
    var w, h := ParseUsize(arch, TrimEnd(TrimStart(desc[..n]))), ParseUsize(arch, TakeDigits(desc[m..]));
    if w.None? {
      assert ParseDimensions(arch, desc) == Returns(None);
    } else if h.None? {
      assert ParseDimensions(arch, desc) == Returns(None);
    } else {
      assert ParseDimensions(arch, desc) == Returns(Some((w.value, h.value)));
    }
  }

  function Both(w: Option<nat>, h: Option<nat>): Option<(nat, nat)> {
    if w.Some? && h.Some? then Some((w.value, h.value)) else None
  }

  // Without a multiplication sign there are no dimensions.
  lemma NoSignNoDimensions(arch: Arch, desc: Str)
    requires 0xD7 !in desc
    ensures ParseDimensions(arch, desc) == Returns(None)
  {
    FindAbsent(desc, CROSS);
  }

  // No description makes a slice panic: both offsets are character boundaries of
  // its bytes.
  lemma NeverPanics(arch: Arch, desc: Str)
    ensures ParseDimensions(arch, desc).Returns?
  {
    if Find(desc, CROSS).Some? {
      var p, q := FindSplits(desc, CROSS);
      ParseAtFirstCross(arch, p, q);
    }
  }

  // The offset is that of the sign's two bytes, and both it and the offset after
  // them are character boundaries.
  lemma SlicesAtBoundaries(desc: Str)
    ensures var at := Find(desc, CROSS);
            at.Some? ==> && at.value + 2 <= |Utf8(desc)|
                         && Utf8(desc)[at.value] == 0xC3 && Utf8(desc)[at.value + 1] == 0x97
                         && IsCharBoundary(Utf8(desc), at.value) && IsCharBoundary(Utf8(desc), at.value + 2)
  {
    if Find(desc, CROSS).Some? {
      var p, q := FindSplits(desc, CROSS);
      assert desc == p + ([CROSS] + q);
      FindFirst(desc, p, CROSS, [CROSS] + q);
      assert LenUtf8(CROSS) == 2;
      SlicesAreByteSlices(desc, ByteLen(p) + 2);
      SlicesAreByteSlices(desc, ByteLen(p));
      assert desc[|p|..] == [CROSS] + q;
      SignBytes(q);
      BoundaryIff(desc, ByteLen(p));
      BoundaryIff(desc, ByteLen(p) + 2);
    }
  }

  lemma SignBytes(q: Str)
    ensures Utf8([CROSS] + q) == [0xC3, 0x97] + Utf8(q)
  {
    assert ([CROSS] + q)[1..] == q;
    assert Utf8Char(CROSS) == [0xC3, 0x97];
  }

  lemma GrammarIsAccepted(arch: Arch, desc: Str, r: Reading, width: nat, height: nat)
    requires Reads(arch, desc, r, width, height)
    ensures ParseDimensions(arch, desc) == Returns(Some((width, height)))
  {
    var p := r.lead + Sign(r.plus) + r.width + r.trail;
    assert CROSS !in p by {
      assert !IsWhite(CROSS) && !IsDigit(CROSS);
    }
    ParseAtFirstCross(arch, p, r.height + r.tail);
    WidthIsRead(arch, r.lead, r.plus, r.width, r.trail, width);
    TakeDigitsIsMaximal(r.height, r.tail);
    ParseUsizeIff(arch, r.height, height);
  }

  lemma WidthIsRead(arch: Arch, lead: Str, plus: bool, digits: Str, trail: Str, width: nat)
    requires AllWhite(lead) && AllWhite(trail) && Numeral(arch, digits, width)
    ensures ParseUsize(arch, TrimEnd(TrimStart(lead + Sign(plus) + digits + trail))) == Some(width)
  {
    var number := Sign(plus) + digits;
    assert lead + Sign(plus) + digits + trail == lead + (number + trail);
    assert !IsWhite(number[0]) && !IsWhite(number[|number| - 1]);
    TrimStartDrops(lead, number + trail);
    TrimEndDrops(number, trail);
    assert if plus then number[0] == PLUS && number[1..] == digits else number == digits;
    ParseUsizeIff(arch, number, width);
  }

  lemma AcceptedIsGrammar(arch: Arch, desc: Str, width: nat, height: nat) returns (r: Reading)
    requires ParseDimensions(arch, desc) == Returns(Some((width, height)))
    ensures Reads(arch, desc, r, width, height)
  {
    var p, q := FindSplits(desc, CROSS);
    ParseAtFirstCross(arch, p, q);
    var lead, plus, digits, trail := WidthIsNumeral(arch, p, width);
    var tail := TakeDigitsSplits(q);
    ParseUsizeIff(arch, TakeDigits(q), height);
    r := Reading(lead, plus, digits, trail, TakeDigits(q), tail);
  }

  lemma WidthIsNumeral(arch: Arch, p: Str, width: nat) returns (lead: Str, plus: bool, digits: Str, trail: Str)
    requires ParseUsize(arch, TrimEnd(TrimStart(p))) == Some(width)
    ensures p == lead + Sign(plus) + digits + trail
    ensures AllWhite(lead) && AllWhite(trail) && Numeral(arch, digits, width)
  {
    var number := TrimEnd(TrimStart(p));
    lead := TrimStartSplits(p);
    trail := TrimEndSplits(TrimStart(p));
    plus, digits := SignAndDigits(arch, number, width);
    Regroup(lead, Sign(plus), digits, trail);
  }

  lemma Regroup(a: Str, b: Str, c: Str, d: Str)
    ensures a + ((b + c) + d) == a + b + c + d
  {
  }

  lemma SignAndDigits(arch: Arch, number: Str, n: nat) returns (plus: bool, digits: Str)
    requires ParseUsize(arch, number) == Some(n)
    ensures number == Sign(plus) + digits && Numeral(arch, digits, n)
  {
    ParseUsizeIff(arch, number, n);
    plus := number[0] == PLUS;
    digits := if plus then number[1..] else number;
    assert plus ==> number == [PLUS] + number[1..];
  }

  // Sound and complete: the parser accepts exactly the grammar, and the
  // dimensions a description has are unique.
  lemma ParsesExactlyTheGrammar(arch: Arch, desc: Str, width: nat, height: nat)
    ensures ParseDimensions(arch, desc) == Returns(Some((width, height)))
            <==> exists r :: && Reads(arch, desc, r, width, height)
                             && desc == r.lead + (if r.plus then [0x2B] else []) + r.width + r.trail
                                        + [0xD7] + (r.height + r.tail)
  {
    if ParseDimensions(arch, desc) == Returns(Some((width, height))) {
      var r := AcceptedIsGrammar(arch, desc, width, height);
      assert desc == Text(r);
    }
    if r :| Reads(arch, desc, r, width, height) {
      GrammarIsAccepted(arch, desc, r, width, height);
    }
  }

  // The 25 characters the Unicode Standard gives the property White_Space.
  lemma WhiteSpaceListed(c: Scalar)
    ensures IsWhite(c) <==> c in {
      0x09, 0x0A, 0x0B, 0x0C, 0x0D, 0x20, 0x85, 0xA0, 0x1680, 0x2000, 0x2001, 0x2002, 0x2003, 0x2004, 0x2005,
      0x2006, 0x2007, 0x2008, 0x2009, 0x200A, 0x2028, 0x2029, 0x202F, 0x205F, 0x3000}
  {
  }

  // Printed dimensions are read back, with or without a plus sign, with any white
  // space around the width and any text after the height that does not continue
  // its digits.
  lemma PrintedDimensionsReadBack(arch: Arch, width: nat, height: nat, lead: Str, plus: bool, trail: Str, tail: Str)
    requires width <= arch.UsizeMax() && height <= arch.UsizeMax()
    requires AllWhite(lead) && AllWhite(trail) && (tail == [] || !IsDigit(tail[0]))
    ensures var sign := if plus then [0x2B] else [];
            ParseDimensions(arch, lead + sign + Print(width) + trail + [0xD7] + (Print(height) + tail))
            == Returns(Some((width, height)))
  {
    PrintIsNumeral(width);
    PrintIsNumeral(height);
    var r := Reading(lead, plus, Print(width), trail, Print(height), tail);
    GrammarIsAccepted(arch, Text(r), r, width, height);
  }

  // The same with blanks and tabs as the white space.
  lemma BlanksAndTabsAreSkipped(arch: Arch, width: nat, height: nat, lead: Str, trail: Str, tail: Str)
    requires width <= arch.UsizeMax() && height <= arch.UsizeMax()
    requires forall i | 0 <= i < |lead| :: lead[i] == 0x20 || lead[i] == 0x09
    requires forall i | 0 <= i < |trail| :: trail[i] == 0x20 || trail[i] == 0x09
    requires tail == [] || tail[0] < 0x30 || tail[0] > 0x39
    ensures ParseDimensions(arch, lead + Print(width) + trail + [0xD7] + (Print(height) + tail))
            == Returns(Some((width, height)))
  {
    PrintedDimensionsReadBack(arch, width, height, lead, false, trail, tail);
    assert lead + [] == lead;
  }

  lemma ThreeDigits(n: nat, a: nat, b: nat)
    requires 0 < n < 10 && a < 10 && b < 10
    ensures Print(n * 100 + a * 10 + b) == [0x30 + n, 0x30 + a, 0x30 + b]
  {
    var whole, front := n * 100 + a * 10 + b, n * 10 + a;
    assert whole / 10 == front && whole % 10 == b && front / 10 == n && front % 10 == a;
    assert Print(front) == Print(n) + [0x30 + a];
    assert Print(whole) == Print(front) + [0x30 + b];
  }

  lemma NoBlanks(arch: Arch, width: nat, height: nat, tail: Str)
    requires width <= arch.UsizeMax() && height <= arch.UsizeMax()
    requires tail == [] || tail[0] < 0x30 || tail[0] > 0x39
    ensures ParseDimensions(arch, Print(width) + [0xD7] + (Print(height) + tail)) == Returns(Some((width, height)))
  {
    BlanksAndTabsAreSkipped(arch, width, height, [], [], tail);
    assert [] + Print(width) + [] == Print(width);
  }

  // Numerals are those people read: dimensions of three digits each, such as the
  // 320 by 240 of the library's descriptions, written out character by character.
  lemma ThreeDigitDimensions(arch: Arch, a: nat, b: nat, c: nat, d: nat, e: nat, f: nat, tail: Str)
    requires 0 < a < 10 && b < 10 && c < 10 && 0 < d < 10 && e < 10 && f < 10
    requires tail == [] || tail[0] < 0x30 || tail[0] > 0x39
    ensures ParseDimensions(arch, [0x30 + a, 0x30 + b, 0x30 + c] + [0xD7] + ([0x30 + d, 0x30 + e, 0x30 + f] + tail))
            == Returns(Some((a * 100 + b * 10 + c, d * 100 + e * 10 + f)))
  {
    ThreeDigits(a, b, c);
    ThreeDigits(d, e, f);
    NoBlanks(arch, a * 100 + b * 10 + c, d * 100 + e * 10 + f, tail);
  }
}
