/**
 * The fixed-layout byte-field extractor (encoded_data.py).
 *
 * A tag payload, already base64-decoded, is cut into consecutive fields of
 * declared byte widths. A field that is not kept still consumes its bytes; a
 * kept field is read as an unsigned integer, big-endian, or little-endian when
 * its bytes are flagged for reversal.
 */
module EncodedData {
  import opened Base

  /** One byte of a decoded payload. */
  type Byte = b: int | 0 <= b < 256

  /** Why `extract_data` raises. */
  datatype ExtractError =
    | FlagMissing(index: nat)  // `to_return[i]` or `is_reversed[i]` is out of range (IndexError)
    | EmptyField(index: nat)   // a kept field has no bytes left, so `int('', 16)` fails (ValueError)
    | NotUtf8                  // the debug print of the payload as text fails (UnicodeDecodeError)

  function Min(a: nat, b: nat): nat
  {
    if a <= b then a else b
  }

  function Pow256(n: nat): (r: nat)
    ensures r >= 1
  {
    if n == 0 then 1 else 256 * Pow256(n - 1)
  }

  /** The unsigned integer whose base-256 digits, most significant first, are `s`. */
  function BigEndian(s: seq<Byte>): nat
  {
    if s == [] then 0 else BigEndian(s[..|s| - 1]) * 256 + s[|s| - 1]
  }

  /** The unsigned integer whose base-256 digits, least significant first, are `s`. */
  function LittleEndian(s: seq<Byte>): nat
  {
    if s == [] then 0 else s[0] + 256 * LittleEndian(s[1..])
  }

  /** The bytes of `s` back to front (the pairwise hex-digit reversal of encoded_data.py:24). */
  function Reverse(s: seq<Byte>): (r: seq<Byte>)
    ensures |r| == |s|
    ensures forall i :: 0 <= i < |s| ==> r[i] == s[|s| - 1 - i]
  {
    if s == [] then [] else Reverse(s[1..]) + [s[0]]
  }

  /** The integer one field yields: `int(section, 16)`, after the byte reversal when flagged. */
  function FieldValue(section: seq<Byte>, reversed: bool): nat
  {
    BigEndian(if reversed then Reverse(section) else section)
  }

  /** Prepends the values already extracted to the outcome of the remaining fields. */
  function Prepend(done: seq<nat>, r: Result<seq<nat>, ExtractError>): Result<seq<nat>, ExtractError>
  {
    match r
    case Ok(vs) => Ok(done + vs)
    case Err(e) => Err(e)
  }

  lemma PrependNothing(r: Result<seq<nat>, ExtractError>)
    ensures Prepend([], r) == r
  {
    if r.Ok? {
      assert [] + r.value == r.value;
    }
  }

  lemma PrependTwice(done: seq<nat>, more: seq<nat>, r: Result<seq<nat>, ExtractError>)
    ensures Prepend(done, Prepend(more, r)) == Prepend(done + more, r)
  {
    if r.Ok? {
      assert done + (more + r.value) == (done + more) + r.value;
    }
  }

  /**
   * What `extract_data` returns for fields `i..` when `rest` holds the bytes not
   * yet consumed: one loop iteration of encoded_data.py:19-25 per call.
   */
  function ExtractFields(rest: seq<Byte>, sizes: seq<nat>, keep: seq<bool>, reversed: seq<bool>, i: nat)
    : Result<seq<nat>, ExtractError>
    requires i <= |sizes|
    decreases |sizes| - i
  {
    if i == |sizes| then Ok([])
    else
      var n := Min(sizes[i], |rest|);
      if i >= |keep| then Err(FlagMissing(i))
      else if !keep[i] then ExtractFields(rest[n..], sizes, keep, reversed, i + 1)
      else if i >= |reversed| then Err(FlagMissing(i))
      else if n == 0 then Err(EmptyField(i))
      else Prepend([FieldValue(rest[..n], reversed[i])], ExtractFields(rest[n..], sizes, keep, reversed, i + 1))
  }

  // ---------------------------------------------------------------------------
  // The debug print of the payload as text (encoded_data.py:15-18).
  // ---------------------------------------------------------------------------

  /** A UTF-8 continuation byte, 0x80-0xBF. */
  predicate Continuation(b: Byte)
  {
    0x80 <= b <= 0xBF
  }

  /**
   * The length of the well-formed UTF-8 character at the front of `s`, or 0 when
   * `s` starts with none: the byte ranges of section 4 of RFC 3629, which exclude
   * overlong forms, surrogates and code points above U+10FFFF.
   */
  function CharLength(s: seq<Byte>): (n: nat)
    requires |s| > 0
    ensures n <= 4 && n <= |s|
    ensures n == 1 <==> s[0] < 0x80
  {
    var b := s[0];
    if b < 0x80 then 1
    else if 0xC2 <= b <= 0xDF then
      if |s| >= 2 && Continuation(s[1]) then 2 else 0
    else if 0xE0 <= b <= 0xEF then
      var lo := if b == 0xE0 then 0xA0 else 0x80;
      var hi := if b == 0xED then 0x9F else 0xBF;
      if |s| >= 3 && lo <= s[1] <= hi && Continuation(s[2]) then 3 else 0
    else if 0xF0 <= b <= 0xF4 then
      var lo := if b == 0xF0 then 0x90 else 0x80;
      var hi := if b == 0xF4 then 0x8F else 0xBF;
      if |s| >= 4 && lo <= s[1] <= hi && Continuation(s[2]) && Continuation(s[3]) then 4 else 0
    else 0
  }

  /** `s` is a sequence of well-formed UTF-8 characters, so `s.decode('utf-8')` succeeds. */
  predicate ValidUtf8(s: seq<Byte>)
    decreases |s|
  {
    |s| == 0 || (CharLength(s) > 0 && ValidUtf8(s[CharLength(s)..]))
  }

  /**
   * The debug print raises `UnicodeDecodeError`: the payload is not UTF-8, and
   * neither are its first four bytes (`hex_data[:8]`), which the handler prints instead.
   */
  predicate DebugPrintRaises(data: seq<Byte>)
  {
    !ValidUtf8(data) && !ValidUtf8(data[..Min(4, |data|)])
  }

  /** Pure ASCII is UTF-8, so an ASCII payload never trips the debug print. */
  lemma {:induction false} AsciiIsUtf8(s: seq<Byte>)
    requires forall i :: 0 <= i < |s| ==> s[i] < 0x80
    ensures ValidUtf8(s)
    decreases |s|
  {
    if |s| > 0 {
      AsciiIsUtf8(s[1..]);
    }
  }

  /** A payload whose first byte begins no UTF-8 character (0x80-0xC1 or 0xF5-0xFF) makes the print raise. */
  lemma BadLeadByteRaises(data: seq<Byte>)
    requires |data| > 0 && (0x80 <= data[0] <= 0xC1 || 0xF5 <= data[0])
    ensures DebugPrintRaises(data)
  {
    var p := data[..Min(4, |data|)];
    assert p[0] == data[0];
  }

  /**
   * `extract_data(data, sizes, to_return, is_reversed)` on the decoded bytes:
   * the debug print raises on a payload that is not text, as `DebugPrintRaises`
   * says; otherwise it consumes `sizes[i]` bytes per field and appends the kept
   * fields' values.
   */
  method ExtractData(data: seq<Byte>, sizes: seq<nat>, keep: seq<bool>, reversed: seq<bool>)
    returns (r: Result<seq<nat>, ExtractError>)
    ensures DebugPrintRaises(data) ==> r == Err(NotUtf8)
    ensures !DebugPrintRaises(data) ==> r == ExtractFields(data, sizes, keep, reversed, 0)
  {
    if DebugPrintRaises(data) {
      return Err(NotUtf8);
    }
    var rest := data;
    var extracted: seq<nat> := [];
    var i := 0;
    PrependNothing(ExtractFields(data, sizes, keep, reversed, 0));
    while i < |sizes|
      invariant i <= |sizes|
      invariant ExtractFields(data, sizes, keep, reversed, 0)
             == Prepend(extracted, ExtractFields(rest, sizes, keep, reversed, i))
    {
      var n := Min(sizes[i], |rest|);
      var section, remaining := rest[..n], rest[n..];
      if i >= |keep| {
        return Err(FlagMissing(i));
      }
      if keep[i] {
        if i >= |reversed| {
          return Err(FlagMissing(i));
        }
        if section == [] {
          return Err(EmptyField(i));
        }
        PrependTwice(extracted, [FieldValue(section, reversed[i])], ExtractFields(remaining, sizes, keep, reversed, i + 1));
        extracted := extracted + [FieldValue(section, reversed[i])];
      }
      rest := remaining;
      i := i + 1;
    }
    assert extracted + [] == extracted;
    return Ok(extracted);
  }

  // ---------------------------------------------------------------------------
  // Field positions: a reference definition of what each field reads.
  // ---------------------------------------------------------------------------

  /** Byte offset at which field `i` starts: sizes[0] + ... + sizes[i-1]. */
  function Offset(sizes: seq<nat>, i: nat): nat
    requires i <= |sizes|
  {
    if i == 0 then 0 else Offset(sizes, i - 1) + sizes[i - 1]
  }

  /** The bytes field `i` is read from: its declared span, cut short at the end of the payload. */
  function FieldBytes(data: seq<Byte>, sizes: seq<nat>, i: nat): (r: seq<Byte>)
    requires i < |sizes|
    ensures |r| <= sizes[i]
  {
    data[Min(Offset(sizes, i), |data|)..Min(Offset(sizes, i) + sizes[i], |data|)]
  }

  /** Every flag that is read exists, and every kept field has at least one byte. */
  predicate WellFormedFrom(data: seq<Byte>, sizes: seq<nat>, keep: seq<bool>, reversed: seq<bool>, i: nat)
  {
    && (i < |sizes| ==> |sizes| <= |keep|)
    && forall j :: i <= j < |sizes| && keep[j] ==> j < |reversed| && FieldBytes(data, sizes, j) != []
  }

  /** The values of the kept fields `i..`, in field order, each read from its own span. */
  function KeptValues(data: seq<Byte>, sizes: seq<nat>, keep: seq<bool>, reversed: seq<bool>, i: nat): seq<nat>
    requires i <= |sizes|
    requires i < |sizes| ==> |sizes| <= |keep|
    requires forall j :: i <= j < |sizes| && keep[j] ==> j < |reversed|
    decreases |sizes| - i
  {
    if i == |sizes| then []
    else
      (if keep[i] then [FieldValue(FieldBytes(data, sizes, i), reversed[i])] else [])
      + KeptValues(data, sizes, keep, reversed, i + 1)
  }

  /** Number of `true` entries in `flags`. */
  function CountTrue(flags: seq<bool>): nat
  {
    if flags == [] then 0 else (if flags[0] then 1 else 0) + CountTrue(flags[1..])
  }

  /**
   * Starting at field `i`, with the bytes before field `i`'s offset consumed,
   * extraction succeeds exactly when the remaining fields are well formed, and
   * then yields the kept fields' values read from their own spans.
   */
  lemma {:induction false} ExtractFromOffset(data: seq<Byte>, sizes: seq<nat>, keep: seq<bool>, reversed: seq<bool>, i: nat)
    requires i <= |sizes|
    ensures var r := ExtractFields(data[Min(Offset(sizes, i), |data|)..], sizes, keep, reversed, i);
            && (r.Ok? <==> WellFormedFrom(data, sizes, keep, reversed, i))
            && (r.Ok? ==> r.value == KeptValues(data, sizes, keep, reversed, i))
    decreases |sizes| - i
  {
    if i < |sizes| {
      var o := Min(Offset(sizes, i), |data|);
      var rest := data[o..];
      var n := Min(sizes[i], |rest|);
      assert rest[..n] == FieldBytes(data, sizes, i);
      assert rest[n..] == data[Min(Offset(sizes, i + 1), |data|)..];
      ExtractFromOffset(data, sizes, keep, reversed, i + 1);
      assert WellFormedFrom(data, sizes, keep, reversed, i)
         <==> && i < |keep|
              && (keep[i] ==> i < |reversed| && FieldBytes(data, sizes, i) != [])
              && WellFormedFrom(data, sizes, keep, reversed, i + 1);
    }
  }

  /**
   * `extract_data` succeeds exactly when every flag it reads exists and every
   * kept field has at least one byte left; it then returns the kept fields in
   * field order, field `j` read from bytes `Offset(sizes, j)` onwards, so
   * skipped fields still consume their bytes and a short last field is read
   * from what remains.
   */
  lemma ExtractSucceedsIff(data: seq<Byte>, sizes: seq<nat>, keep: seq<bool>, reversed: seq<bool>)
    ensures var r := ExtractFields(data, sizes, keep, reversed, 0);
            && (r.Ok? <==> WellFormedFrom(data, sizes, keep, reversed, 0))
            && (r.Ok? ==> r.value == KeptValues(data, sizes, keep, reversed, 0))
  {
    ExtractFromOffset(data, sizes, keep, reversed, 0);
    assert data[Min(Offset(sizes, 0), |data|)..] == data;
  }

  /** One value comes out per `true` flag among the first `|sizes|` flags. */
  lemma {:induction false} KeptValuesLength(data: seq<Byte>, sizes: seq<nat>, keep: seq<bool>, reversed: seq<bool>, i: nat)
    requires i <= |sizes| <= |keep|
    requires forall j :: i <= j < |sizes| && keep[j] ==> j < |reversed|
    ensures |KeptValues(data, sizes, keep, reversed, i)| == CountTrue(keep[i..|sizes|])
    decreases |sizes| - i
  {
    if i < |sizes| {
      KeptValuesLength(data, sizes, keep, reversed, i + 1);
      assert keep[i..|sizes|][1..] == keep[i + 1..|sizes|];
    }
  }

  /** The result length equals the number of kept fields when extraction succeeds. */
  lemma ExtractLength(data: seq<Byte>, sizes: seq<nat>, keep: seq<bool>, reversed: seq<bool>)
    requires |sizes| <= |keep|
    requires ExtractFields(data, sizes, keep, reversed, 0).Ok?
    ensures |ExtractFields(data, sizes, keep, reversed, 0).value| == CountTrue(keep[..|sizes|])
  {
    ExtractSucceedsIff(data, sizes, keep, reversed);
    KeptValuesLength(data, sizes, keep, reversed, 0);
    assert keep[0..|sizes|] == keep[..|sizes|];
  }

  // ---------------------------------------------------------------------------
  // Byte order and bounds.
  // ---------------------------------------------------------------------------

  lemma BigEndianSnoc(s: seq<Byte>, b: Byte)
    ensures BigEndian(s + [b]) == BigEndian(s) * 256 + b
  {
    assert (s + [b])[..|s|] == s;
  }

  /** A reversed field is its bytes read little-endian. */
  lemma {:induction false} ReversedIsLittleEndian(s: seq<Byte>)
    ensures FieldValue(s, true) == LittleEndian(s)
    ensures FieldValue(s, false) == BigEndian(s)
  {
    if s != [] {
      ReversedIsLittleEndian(s[1..]);
      BigEndianSnoc(Reverse(s[1..]), s[0]);
    }
  }

  lemma Pow256Monotone(a: nat, b: nat)
    requires a <= b
    ensures Pow256(a) <= Pow256(b)
    decreases b
  {
    if a < b {
      Pow256Monotone(a, b - 1);
    }
  }

  /** An `n`-byte big-endian number is below 256^n. */
  lemma {:induction false} BigEndianBound(s: seq<Byte>)
    ensures BigEndian(s) < Pow256(|s|)
  {
    if s != [] {
      var p := s[..|s| - 1];
      BigEndianBound(p);
      assert BigEndian(p) + 1 <= Pow256(|p|);
      assert (BigEndian(p) + 1) * 256 <= Pow256(|p|) * 256;
    }
  }

  /** Each extracted value is below 256^sizes[i], whichever byte order its field uses. */
  lemma FieldValueBound(data: seq<Byte>, sizes: seq<nat>, i: nat, reversed: bool)
    requires i < |sizes|
    ensures FieldValue(FieldBytes(data, sizes, i), reversed) < Pow256(sizes[i])
  {
    var s := FieldBytes(data, sizes, i);
    BigEndianBound(if reversed then Reverse(s) else s);
    Pow256Monotone(|s|, sizes[i]);
  }

  // ---------------------------------------------------------------------------
  // Round trip: encoding values into the declared layout and extracting them.
  // ---------------------------------------------------------------------------

  /** The `n`-byte big-endian encoding of `v` (high bytes dropped when `v` does not fit). */
  function ToBigEndian(v: nat, n: nat): (r: seq<Byte>)
    ensures |r| == n
  {
    if n == 0 then [] else ToBigEndian(v / 256, n - 1) + [v % 256]
  }

  lemma {:induction false} BigEndianOfToBigEndian(v: nat, n: nat)
    requires v < Pow256(n)
    ensures BigEndian(ToBigEndian(v, n)) == v
  {
    if n > 0 {
      assert v / 256 < Pow256(n - 1);
      BigEndianOfToBigEndian(v / 256, n - 1);
      BigEndianSnoc(ToBigEndian(v / 256, n - 1), v % 256);
    }
  }

  /** The bytes of one field holding `v`, in the field's byte order. */
  function EncodeField(v: nat, n: nat, reversed: bool): (r: seq<Byte>)
    ensures |r| == n
  {
    if reversed then Reverse(ToBigEndian(v, n)) else ToBigEndian(v, n)
  }

  /** A payload laid out with the fields `i..` holding `values`. */
  function Encode(values: seq<nat>, sizes: seq<nat>, reversed: seq<bool>, i: nat): seq<Byte>
    requires i <= |sizes| <= |values| && |sizes| <= |reversed|
    decreases |sizes| - i
  {
    if i == |sizes| then [] else EncodeField(values[i], sizes[i], reversed[i]) + Encode(values, sizes, reversed, i + 1)
  }

  lemma FieldValueOfEncodeField(v: nat, n: nat, reversed: bool)
    requires v < Pow256(n)
    ensures FieldValue(EncodeField(v, n, reversed), reversed) == v
  {
    var b := ToBigEndian(v, n);
    BigEndianOfToBigEndian(v, n);
    if reversed {
      assert Reverse(Reverse(b)) == b;
    }
  }

  /** Extracting every field of an encoded payload returns the encoded values. */
  lemma {:induction false} ExtractEncodeFrom(values: seq<nat>, sizes: seq<nat>, keep: seq<bool>, reversed: seq<bool>, i: nat)
    requires |values| == |sizes| <= |keep| && |sizes| <= |reversed| && i <= |sizes|
    requires forall j :: i <= j < |sizes| ==> keep[j] && 0 < sizes[j] && values[j] < Pow256(sizes[j])
    ensures ExtractFields(Encode(values, sizes, reversed, i), sizes, keep, reversed, i) == Ok(values[i..])
    decreases |sizes| - i
  {
    if i < |sizes| {
      var head := EncodeField(values[i], sizes[i], reversed[i]);
      var tail := Encode(values, sizes, reversed, i + 1);
      assert (head + tail)[..sizes[i]] == head;
      assert (head + tail)[sizes[i]..] == tail;
      FieldValueOfEncodeField(values[i], sizes[i], reversed[i]);
      ExtractEncodeFrom(values, sizes, keep, reversed, i + 1);
      assert values[i..] == [values[i]] + values[i + 1..];
    }
  }

  lemma ExtractEncodeRoundTrip(values: seq<nat>, sizes: seq<nat>, keep: seq<bool>, reversed: seq<bool>)
    requires |values| == |sizes| <= |keep| && |sizes| <= |reversed|
    requires forall j :: 0 <= j < |sizes| ==> keep[j] && 0 < sizes[j] && values[j] < Pow256(sizes[j])
    ensures ExtractFields(Encode(values, sizes, reversed, 0), sizes, keep, reversed, 0) == Ok(values)
  {
    ExtractEncodeFrom(values, sizes, keep, reversed, 0);
  }

  // ---------------------------------------------------------------------------
  // The ELA RHT weather tag (encoded_data.py:4-7).
  // ---------------------------------------------------------------------------

  const ElaSizes: seq<nat> := [6, 12, 3, 1, 2]
  const ElaKeep: seq<bool> := [false, false, false, true, true]
  const ElaReversed: seq<bool> := [false, false, false, false, true]

  /**
   * The raw temperature field read from the bytes `t` that start at byte 22:
   * little-endian over two bytes, or the single byte that remains.
   */
  function RawTemperature(t: seq<Byte>): nat
    requires |t| >= 1
  {
    if |t| >= 2 then t[0] as int + 256 * t[1] as int else t[0]
  }

  /** A field whose flag says not to keep it is stepped over without being read. */
  lemma SkipsField(t: seq<Byte>, sizes: seq<nat>, keep: seq<bool>, reversed: seq<bool>, i: nat)
    requires i < |sizes| && i < |keep| && !keep[i]
    ensures ExtractFields(t, sizes, keep, reversed, i)
         == ExtractFields(t[Min(sizes[i], |t|)..], sizes, keep, reversed, i + 1)
  {
  }

  /** The three leading fields (6, 12 and 3 bytes) are skipped: extraction resumes at byte 21 with field 3. */
  lemma SkipsHeader(data: seq<Byte>, sizes: seq<nat>, keep: seq<bool>, reversed: seq<bool>)
    requires |sizes| == 5 && |keep| == 5
    requires sizes[0] == 6 && sizes[1] == 12 && sizes[2] == 3
    requires !keep[0] && !keep[1] && !keep[2]
    ensures ExtractFields(data, sizes, keep, reversed, 0)
         == ExtractFields(data[Min(21, |data|)..], sizes, keep, reversed, 3)
  {
    var d1 := data[Min(6, |data|)..];
    var d2 := d1[Min(12, |d1|)..];
    var d3 := d2[Min(3, |d2|)..];
    SkipsField(data, sizes, keep, reversed, 0);
    SkipsField(d1, sizes, keep, reversed, 1);
    SkipsField(d2, sizes, keep, reversed, 2);
    assert d3 == data[Min(21, |data|)..];
  }

  /** A kept last field is read from the bytes that remain, up to its declared width. */
  lemma ExtractLastField(t: seq<Byte>, sizes: seq<nat>, keep: seq<bool>, reversed: seq<bool>, i: nat)
    requires i + 1 == |sizes| && i < |keep| && i < |reversed| && keep[i]
    ensures ExtractFields(t, sizes, keep, reversed, i)
         == var n := Min(sizes[i], |t|);
            if n == 0 then Err(EmptyField(i)) else Ok([FieldValue(t[..n], reversed[i])])
  {
    var n := Min(sizes[i], |t|);
    assert ExtractFields(t[n..], sizes, keep, reversed, i + 1) == Ok([]);
    var v := FieldValue(t[..n], reversed[i]);
    assert [v] + [] == [v];
  }

  lemma OneByteField(t: seq<Byte>, reversed: bool)
    requires |t| >= 1
    ensures FieldValue(t[..1], reversed) == t[0]
  {
    assert t[..1] == [t[0]];
    BigEndianSnoc([], t[0]);
  }

  lemma TwoByteLittleEndianField(t: seq<Byte>)
    requires |t| >= 2
    ensures FieldValue(t[..2], true) == t[0] as int + 256 * t[1] as int
  {
    var p := t[..2];
    assert p == [t[0], t[1]];
    ReversedIsLittleEndian(p);
    assert p[1..] == [t[1]];
    assert [t[1]][1..] == [];
    assert LittleEndian([t[1]]) == t[1];
    assert LittleEndian(p) == t[0] + 256 * LittleEndian(p[1..]);
  }

  /**
   * The shape of the last two fields of the ELA RHT layout: a one-byte big-endian
   * humidity field at index 3 and a two-byte little-endian temperature field at index 4.
   */
  predicate HumidityTemperatureTail(sizes: seq<nat>, keep: seq<bool>, reversed: seq<bool>)
  {
    |sizes| == 5 && |keep| == 5 && |reversed| == 5
    && sizes[3] == 1 && keep[3] && !reversed[3]
    && sizes[4] == 2 && keep[4] && reversed[4]
  }

  /** The temperature field: two bytes, little-endian, or the single byte that remains. */
  lemma ReadsTemperature(t: seq<Byte>, sizes: seq<nat>, keep: seq<bool>, reversed: seq<bool>)
    requires HumidityTemperatureTail(sizes, keep, reversed)
    ensures |t| == 0 ==> ExtractFields(t, sizes, keep, reversed, 4) == Err(EmptyField(4))
    ensures |t| >= 1 ==> ExtractFields(t, sizes, keep, reversed, 4) == Ok([RawTemperature(t)])
  {
    ExtractLastField(t, sizes, keep, reversed, 4);
    if |t| == 1 {
      OneByteField(t, true);
      assert FieldValue(t[..1], true) == RawTemperature(t);
    } else if |t| >= 2 {
      TwoByteLittleEndianField(t);
      assert FieldValue(t[..2], true) == RawTemperature(t);
    }
  }

  /** The humidity field is the single byte at the front, read big-endian. */
  lemma ReadsHumidity(t: seq<Byte>, sizes: seq<nat>, keep: seq<bool>, reversed: seq<bool>)
    requires HumidityTemperatureTail(sizes, keep, reversed)
    requires |t| >= 1
    ensures ExtractFields(t, sizes, keep, reversed, 3)
         == Prepend([t[0] as nat], ExtractFields(t[1..], sizes, keep, reversed, 4))
  {
    OneByteField(t, false);
    assert t[Min(1, |t|)..] == t[1..];
  }

  /** From byte 21 on: humidity, then temperature, or the field that runs out of bytes. */
  lemma ReadsTail(t: seq<Byte>, sizes: seq<nat>, keep: seq<bool>, reversed: seq<bool>)
    requires HumidityTemperatureTail(sizes, keep, reversed)
    ensures |t| == 0 ==> ExtractFields(t, sizes, keep, reversed, 3) == Err(EmptyField(3))
    ensures |t| == 1 ==> ExtractFields(t, sizes, keep, reversed, 3) == Err(EmptyField(4))
    ensures |t| >= 2 ==> ExtractFields(t, sizes, keep, reversed, 3) == Ok([t[0] as nat, RawTemperature(t[1..])])
  {
    if |t| >= 1 {
      ReadsHumidity(t, sizes, keep, reversed);
      ReadsTemperature(t[1..], sizes, keep, reversed);
      if |t| >= 2 {
        var h := t[0] as nat;
        var temp := RawTemperature(t[1..]);
        assert [h] + [temp] == [h, temp];
      }
    }
  }

  /** Where the ELA RHT layout leaves the payload, and why it fails when too short. */
  lemma ElaRhtLayout(data: seq<Byte>)
    ensures |data| <= 21 ==> ExtractFields(data, ElaSizes, ElaKeep, ElaReversed, 0) == Err(EmptyField(3))
    ensures |data| == 22 ==> ExtractFields(data, ElaSizes, ElaKeep, ElaReversed, 0) == Err(EmptyField(4))
    ensures |data| >= 23 ==> ExtractFields(data, ElaSizes, ElaKeep, ElaReversed, 0)
                             == Ok([data[21] as nat, RawTemperature(data[22..])])
  {
    SkipsHeader(data, ElaSizes, ElaKeep, ElaReversed);
    var t := data[Min(21, |data|)..];
    ReadsTail(t, ElaSizes, ElaKeep, ElaReversed);
    if |data| >= 23 {
      assert t[0] == data[21];
      assert t[1..] == data[22..];
    }
  }

  /**
   * The ELA RHT reading the layout defines: humidity is byte 21 and the
   * temperature, in degrees, is the little-endian 16-bit value at bytes 22-23
   * divided by 100; a payload of 21 or 22 bytes raises.
   */
  function ElaRhtFields(data: seq<Byte>): (r: Result<(nat, real), ExtractError>)
    ensures |data| <= 21 ==> r == Err(EmptyField(3))
    ensures |data| == 22 ==> r == Err(EmptyField(4))
    ensures |data| >= 23 ==> r.Ok? && r.value.0 == data[21] && r.value.1 == RawTemperature(data[22..]) as real / 100.0
    ensures |data| == 23 ==> r.value.1 == data[22] as real / 100.0
    ensures |data| >= 24 ==> r.value.1 == (data[22] as int + 256 * data[23] as int) as real / 100.0
    ensures r.Ok? ==> r.value.0 < 256 && 0.0 <= r.value.1 <= 655.35
  {
    ElaRhtLayout(data);
    match ExtractFields(data, ElaSizes, ElaKeep, ElaReversed, 0)
    case Err(e) => Err(e)
    case Ok(vs) => Ok((vs[0], vs[1] as real / 100.0))
  }

  /**
   * `extract_ela_rht_data`: the debug print inside `extract_data` comes first,
   * so a payload that is not text fails before any field is read.
   */
  function ExtractElaRht(data: seq<Byte>): (r: Result<(nat, real), ExtractError>)
    ensures DebugPrintRaises(data) ==> r == Err(NotUtf8)
    ensures !DebugPrintRaises(data) ==> r == ElaRhtFields(data)
    ensures r.Ok? ==> |data| >= 23 && r.value.0 == data[21] && r.value.1 == RawTemperature(data[22..]) as real / 100.0
  {
    if DebugPrintRaises(data) then Err(NotUtf8) else ElaRhtFields(data)
  }

  /** The layout never reads the tag's first 21 bytes (identifier, tag name, padding). */
  lemma ElaRhtIgnoresHeader(a: seq<Byte>, b: seq<Byte>)
    requires |a| == |b|
    requires forall i :: 21 <= i < |a| ==> a[i] == b[i]
    ensures ElaRhtFields(a) == ElaRhtFields(b)
  {
  }

  /**
   * The header does reach the outcome of `extract_ela_rht_data`, through the
   * debug print: a well-sized payload whose first byte is 0xFF fails, while the
   * same payload with an ASCII first byte is read.
   */
  lemma DebugPrintCounterexample()
    ensures var bad := [0xFF] + seq(23, _ => 0);
            var good := [0x41] + seq(23, _ => 0);
            ExtractElaRht(bad) == Err(NotUtf8) && ExtractElaRht(good).Ok?
            && ElaRhtFields(bad) == ElaRhtFields(good)
  {
    var bad: seq<Byte> := [0xFF] + seq(23, _ => 0);
    var good: seq<Byte> := [0x41] + seq(23, _ => 0);
    BadLeadByteRaises(bad);
    AsciiIsUtf8(good);
    ElaRhtIgnoresHeader(bad, good);
  }
}
