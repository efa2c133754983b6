// Matching a file extension against the two known ones
// (src/codec.rs:105-142, src/state.rs:119-148).
module Extensions {
  import opened Abi
  import opened Utf16

  const EXT_ITHMB_DATA: seq<Unit> := [0x2E, 0x69, 0x74, 0x68, 0x6D, 0x62]
  const EXT_IPM_DATA: seq<Unit> := [0x2E, 0x69, 0x70, 0x6D]

  const KNOWN_EXTENSIONS: seq<StringRef> :=
    [StringRef(Some(EXT_ITHMB_DATA), 6), StringRef(Some(EXT_IPM_DATA), 4)]

  // ---------- The code ----------

  // The `as u8` cast of a code unit.
  function LowByte(u: Unit): Unit {
    u % 0x100
  }

  function ToAsciiLower(b: int): int {
    if 0x41 <= b <= 0x5A then b + 0x20 else b
  }

  predicate EqIgnoreAsciiCase(a: int, b: int) {
    ToAsciiLower(a) == ToAsciiLower(b)
  }

  predicate ZipAll(a: seq<Unit>, b: seq<Unit>) {
    forall i | 0 <= i < |a| && i < |b| :: EqIgnoreAsciiCase(LowByte(a[i]), LowByte(b[i]))
  }

  // What one turn of the loop asks of a known extension.
  predicate Matches(known: StringRef, ext: StringRef)
    requires Readable(known) && Readable(ext) && ext.data.Some? && ext.length > 0
  {
    && known.length == ext.length && known.data.Some?
    && ZipAll(ext.data.value[..ext.length], known.data.value[..known.length])
  }

  method CanHandleExtension(ext: StringRef, extensions: Option<seq<StringRef>>) returns (answer: int)
    requires Readable(ext)
    requires extensions.Some? ==> forall k | 0 <= k < |extensions.value| :: Readable(extensions.value[k])
    ensures answer == 0 || answer == 1
    ensures answer == 1 <==>
            && ext.data.Some? && ext.length > 0 && extensions.Some?
            && exists k | 0 <= k < |extensions.value| :: Matches(extensions.value[k], ext)
  {
    if ext.data.None? || ext.length <= 0 {
      return 0;
    }
    if extensions.None? {
      return 0;
    }
    var exts := extensions.value;
    for k := 0 to |exts|
      invariant forall j | 0 <= j < k :: !Matches(exts[j], ext)
    {
      if exts[k].length != ext.length || exts[k].data.None? {
        continue;
      }
      var eq := ZipAll(ext.data.value[..ext.length], exts[k].data.value[..exts[k].length]);
      if eq {
        return 1;
      }
    }
    return 0;
  }

  // ---------- What it decides ----------

  // Equality up to ASCII case with a lower-case text, on whole code units.
  predicate SameText(units: seq<Unit>, text: seq<Unit>) {
    |units| == |text| && forall i | 0 <= i < |units| :: ToAsciiLower(units[i]) == text[i]
  }

  predicate IsKnownExtension(units: seq<Unit>) {
    SameText(units, EXT_ITHMB_DATA) || SameText(units, EXT_IPM_DATA)
  }

  function LowBytes(units: seq<Unit>): seq<Unit> {
    seq(|units|, i requires 0 <= i < |units| => LowByte(units[i]))
  }

  lemma MatchIsSameText(known: StringRef, ext: StringRef, text: seq<Unit>)
    requires known == StringRef(Some(text), |text|) && |text| > 0
    requires Readable(ext) && ext.data.Some? && ext.length > 0
    requires forall i | 0 <= i < |text| :: text[i] < 0x80 && ToAsciiLower(text[i]) == text[i]
    ensures Matches(known, ext) <==> SameText(LowBytes(ext.data.value[..ext.length]), text)
  {
    var units := ext.data.value[..ext.length];
    assert text[..|text|] == text;
    if |units| == |text| {
      forall i | 0 <= i < |text|
        ensures EqIgnoreAsciiCase(LowByte(units[i]), LowByte(text[i]))
                <==> ToAsciiLower(LowBytes(units)[i]) == text[i]
      {
        assert LowByte(text[i]) == text[i];
      }
    }
  }

  // Once the table is filled, the answer is 1 exactly when the low bytes of the
  // units spell a known extension up to ASCII case.
  lemma LoopDecidesLowBytes(ext: StringRef)
    requires Readable(ext) && ext.data.Some? && ext.length > 0
    ensures forall k | 0 <= k < |KNOWN_EXTENSIONS| :: Readable(KNOWN_EXTENSIONS[k])
    ensures (exists k | 0 <= k < |KNOWN_EXTENSIONS| :: Matches(KNOWN_EXTENSIONS[k], ext))
            <==> IsKnownExtension(LowBytes(ext.data.value[..ext.length]))
  {
    MatchIsSameText(KNOWN_EXTENSIONS[0], ext, EXT_ITHMB_DATA);
    MatchIsSameText(KNOWN_EXTENSIONS[1], ext, EXT_IPM_DATA);
  }

  // Each unit, whatever its high byte, has the low byte of the letter at its
  // position in one of the two cases.
  predicate LowBytesSpell(units: seq<Unit>, lower: string, upper: string) {
    && |units| == |lower| == |upper|
    && forall i | 0 <= i < |units| :: units[i] % 0x100 == lower[i] as int || units[i] % 0x100 == upper[i] as int
  }

  predicate HasWideUnit(units: seq<Unit>) {
    exists i :: 0 <= i < |units| && units[i] >= 0x100
  }

  // Folding one unit to a letter is being that letter in one of its cases.
  lemma FoldsTo(u: Unit, lower: int, upper: int)
    requires ToAsciiLower(lower) == lower && ToAsciiLower(upper) == lower
    requires 0x61 <= lower <= 0x7A ==> upper == lower - 0x20
    ensures ToAsciiLower(u) == lower <==> u == lower || u == upper
  {
  }

  lemma SpellsIff(units: seq<Unit>, text: seq<Unit>, lower: string, upper: string)
    requires |text| == |lower| == |upper|
    requires forall i | 0 <= i < |text| ::
               && text[i] == lower[i] as int && ToAsciiLower(text[i]) == text[i]
               && ToAsciiLower(upper[i] as int) == text[i]
               && (0x61 <= text[i] <= 0x7A ==> upper[i] as int == text[i] - 0x20)
    ensures SameText(LowBytes(units), text) <==> LowBytesSpell(units, lower, upper)
  {
    if |units| == |text| {
      forall i | 0 <= i < |units|
        ensures ToAsciiLower(LowBytes(units)[i]) == text[i]
                <==> units[i] % 0x100 == lower[i] as int || units[i] % 0x100 == upper[i] as int
      {
        FoldsTo(LowByte(units[i]), text[i], upper[i] as int);
      }
    }
  }

  // Against the documented comparison of whole units, the loop misses nothing.
  // It matches too much exactly on six or four units whose low bytes spell an
  // extension in any mixture of cases and one of which has a high byte.
  lemma TruncationMattersIff(units: seq<Unit>)
    ensures IsKnownExtension(units) ==> IsKnownExtension(LowBytes(units))
    ensures IsKnownExtension(LowBytes(units))
            <==> LowBytesSpell(units, ".ithmb", ".ITHMB") || LowBytesSpell(units, ".ipm", ".IPM")
    ensures IsKnownExtension(LowBytes(units)) && !IsKnownExtension(units)
            <==> && HasWideUnit(units)
                 && (LowBytesSpell(units, ".ithmb", ".ITHMB") || LowBytesSpell(units, ".ipm", ".IPM"))
  {
    SpellsIff(units, EXT_ITHMB_DATA, ".ithmb", ".ITHMB");
    SpellsIff(units, EXT_IPM_DATA, ".ipm", ".IPM");
    if HasWideUnit(units) {
      WideIsUnknown(units);
    } else {
      assert LowBytes(units) == units;
    }
  }

  lemma WideIsUnknown(units: seq<Unit>)
    requires HasWideUnit(units)
    ensures !IsKnownExtension(units)
  {
    var i :| 0 <= i < |units| && units[i] >= 0x100;
    assert ToAsciiLower(units[i]) >= 0x100;
  }

  // A caller whose units all fit in a byte gets the documented answer.
  lemma NarrowUnitsAgree(units: seq<Unit>)
    requires forall i | 0 <= i < |units| :: units[i] < 0x100
    ensures IsKnownExtension(LowBytes(units)) <==> IsKnownExtension(units)
  {
    TruncationMattersIff(units);
  }

  // The source documents an ASCII case-insensitive comparison; U+0169 in place
  // of the letter i is answered 1 all the same.
  lemma TruncationCanMatter()
    ensures IsKnownExtension(LowBytes([0x2E, 0x169, 0x70, 0x6D]))
    ensures !IsKnownExtension([0x2E, 0x169, 0x70, 0x6D])
  {
    assert LowBytes([0x2E, 0x169, 0x70, 0x6D]) == EXT_IPM_DATA;
    assert ToAsciiLower([0x2E, 0x169, 0x70, 0x6D][1]) == 0x169;
  }

  predicate IsAsciiLetter(u: Unit) {
    0x41 <= u <= 0x5A || 0x61 <= u <= 0x7A
  }

  function FlipCase(u: Unit): Unit
    requires IsAsciiLetter(u)
  {
    if u <= 0x5A then u + 0x20 else u - 0x20
  }

  // v is u with the case of some of its letters flipped.
  predicate SomeCasesFlipped(u: seq<Unit>, v: seq<Unit>) {
    |u| == |v| && forall i | 0 <= i < |u| :: v[i] == u[i] || (IsAsciiLetter(u[i]) && v[i] == FlipCase(u[i]))
  }

  lemma FlippedUnit(a: Unit, b: Unit)
    requires b == a || (IsAsciiLetter(a) && b == FlipCase(a))
    ensures ToAsciiLower(LowByte(a)) == ToAsciiLower(LowByte(b))
  {
  }

  lemma SameFolding(u: seq<Unit>, v: seq<Unit>, text: seq<Unit>)
    requires |u| == |v| && forall i | 0 <= i < |u| :: ToAsciiLower(u[i]) == ToAsciiLower(v[i])
    ensures SameText(u, text) <==> SameText(v, text)
  {
  }

  lemma CaseDoesNotMatter(u: seq<Unit>, v: seq<Unit>)
    requires SomeCasesFlipped(u, v)
    ensures IsKnownExtension(LowBytes(u)) <==> IsKnownExtension(LowBytes(v))
  {
    forall i | 0 <= i < |u| ensures ToAsciiLower(LowBytes(u)[i]) == ToAsciiLower(LowBytes(v)[i]) {
      FlippedUnit(u[i], v[i]);
    }
    SameFolding(LowBytes(u), LowBytes(v), EXT_ITHMB_DATA);
    SameFolding(LowBytes(u), LowBytes(v), EXT_IPM_DATA);
  }
}
