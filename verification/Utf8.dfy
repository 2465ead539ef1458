/**
 * UTF-16 text as the engine hands it out, in chunks, and its UTF-8 form (section 2.2 of RFC 2781,
 * section 3 of RFC 3629).
 */
module Utf8 {
  import opened Options
  import opened Bytes

  type CodeUnit = u: int | 0 <= u < 0x1_0000

  type Char7 = c: int | 0 <= c < 0x80

  predicate IsHigh(u: int) { 0xD800 <= u <= 0xDBFF }

  predicate IsLow(u: int) { 0xDC00 <= u <= 0xDFFF }

  type Scalar = v: int | 0 <= v <= 0x10_FFFF && !IsHigh(v) && !IsLow(v)

  /** One callback of the engine: storage is either 7-bit or 16-bit. */
  datatype Chunk = Ascii(chars: seq<Char7>) | Wide(units: seq<CodeUnit>)
  {
    function Units(): seq<CodeUnit> {
      match this
      case Ascii(chars) => chars
      case Wide(units) => units
    }
  }

  function Text(chunks: seq<Chunk>): seq<CodeUnit> {
    if chunks == [] then [] else chunks[0].Units() + Text(chunks[1..])
  }

  // ----- the two encodings, character by character -----

  function EncodeScalar(v: Scalar): (b: seq<byte>)
    ensures 1 <= |b| <= 4
  {
    if v <= 0x7F then [v]
    else if v <= 0x7FF then [0xC0 + v / 0x40, 0x80 + v % 0x40]
    else if v <= 0xFFFF then [0xE0 + v / 0x1000, 0x80 + v / 0x40 % 0x40, 0x80 + v % 0x40]
    else [0xF0 + v / 0x4_0000, 0x80 + v / 0x1000 % 0x40, 0x80 + v / 0x40 % 0x40, 0x80 + v % 0x40]
  }

  function EncodeScalars(vs: seq<Scalar>): seq<byte> {
    if vs == [] then [] else EncodeScalar(vs[0]) + EncodeScalars(vs[1..])
  }

  function Pair(high: CodeUnit, low: CodeUnit): (v: Scalar)
    requires IsHigh(high) && IsLow(low)
    ensures v >= 0x1_0000
  {
    0x1_0000 + (high - 0xD800) * 0x400 + (low - 0xDC00)
  }

  function UnitsOf(v: Scalar): seq<CodeUnit> {
    if v < 0x1_0000 then [v]
    else [0xD800 + (v - 0x1_0000) / 0x400, 0xDC00 + (v - 0x1_0000) % 0x400]
  }

  function UnitsOfAll(vs: seq<Scalar>): seq<CodeUnit> {
    if vs == [] then [] else UnitsOf(vs[0]) + UnitsOfAll(vs[1..])
  }

  /** The characters of a UTF-16 string, or None if a surrogate has no partner. */
  function Scalars(units: seq<CodeUnit>): Option<seq<Scalar>> {
    if units == [] then Some([])
    else if IsHigh(units[0]) then
      if |units| > 1 && IsLow(units[1]) then Cons(Pair(units[0], units[1]), Scalars(units[2..])) else None
    else if IsLow(units[0]) then None
    else Cons(units[0], Scalars(units[1..]))
  }

  function Cons(v: Scalar, rest: Option<seq<Scalar>>): Option<seq<Scalar>> {
    if rest.Some? then Some([v] + rest.value) else None
  }

  /** The UTF-8 form of a UTF-16 string. */
  function Utf8Of(units: seq<CodeUnit>): Option<seq<byte>> {
    var vs := Scalars(units);
    if vs.Some? then Some(EncodeScalars(vs.value)) else None
  }

  function Prepend(front: seq<byte>, rest: Option<seq<byte>>): Option<seq<byte>> {
    if rest.Some? then Some(front + rest.value) else None
  }

  /** A surrogate with no partner next to it on the proper side. */
  predicate Unpaired(units: seq<CodeUnit>, i: nat)
    requires i < |units|
  {
    || (IsHigh(units[i]) && !(i + 1 < |units| && IsLow(units[i + 1])))
    || (IsLow(units[i]) && !(i > 0 && IsHigh(units[i - 1])))
  }

  lemma {:induction false} DefinedIffPaired(units: seq<CodeUnit>)
    ensures Utf8Of(units).Some? <==> forall i | 0 <= i < |units| :: !Unpaired(units, i)
  {
    if units != [] {
      var n := if IsHigh(units[0]) && |units| > 1 && IsLow(units[1]) then 2 else 1;
      var rest := units[n..];
      DefinedIffPaired(rest);
      if IsHigh(units[0]) && n == 1 {
        assert Unpaired(units, 0);
      } else if IsLow(units[0]) {
        assert Unpaired(units, 0);
      } else {
        forall i | 0 <= i < |rest|
          ensures Unpaired(rest, i) <==> Unpaired(units, i + n)
        {
        }
        if forall i | 0 <= i < |rest| :: !Unpaired(rest, i) {
          forall i | 0 <= i < |units|
            ensures !Unpaired(units, i)
          {
            if i >= n {
              assert !Unpaired(rest, i - n);
            }
          }
        }
        if forall i | 0 <= i < |units| :: !Unpaired(units, i) {
          forall i | 0 <= i < |rest|
            ensures !Unpaired(rest, i)
          {
            assert !Unpaired(units, i + n);
          }
        }
      }
    }
  }

  /** The examples of section 7 of RFC 3629: a letter, Greek, Hangul, and a character outside the basic plane. */
  lemma Examples()
    ensures EncodeScalar(0x41) == [0x41]
    ensures EncodeScalar(0x391) == [0xCE, 0x91]
    ensures EncodeScalar(0xD55C) == [0xED, 0x95, 0x9C]
    ensures EncodeScalar(0x2_33B4) == [0xF0, 0xA3, 0x8E, 0xB4]
    ensures Utf8Of([0xD84C, 0xDFB4]) == Some([0xF0, 0xA3, 0x8E, 0xB4])
  {
    var units: seq<CodeUnit> := [0xD84C, 0xDFB4];
    var one: Scalar := 0x2_33B4;
    assert units[2..] == [] && Scalars(units[2..]) == Some([]);
    assert Pair(units[0], units[1]) == one;
    assert Scalars(units) == Cons(one, Scalars(units[2..]));
    assert [one] + [] == [one];
    assert [one][1..] == [] && EncodeScalars([one][1..]) == [];
    assert EncodeScalars([one]) == EncodeScalar(one);
    assert Scalars(units) == Some([one]);
  }

  // ----- inverses -----

  /** A strict decoder: the character at the front of b and the number of bytes it takes. */
  function DecodeFront(b: seq<byte>): (r: Option<(Scalar, nat)>)
    ensures r.Some? ==> 1 <= r.value.1 <= |b|
  {
    if b == [] then None
    else if b[0] <= 0x7F then Some((b[0], 1))
    else if 0xC2 <= b[0] <= 0xDF && |b| >= 2 && IsTail(b[1]) then
      Some(((b[0] as int - 0xC0) * 0x40 + (b[1] as int - 0x80), 2))
    else if 0xE0 <= b[0] <= 0xEF && |b| >= 3 && IsTail(b[1]) && IsTail(b[2]) then
      var v := (b[0] as int - 0xE0) * 0x1000 + (b[1] as int - 0x80) * 0x40 + (b[2] as int - 0x80);
      if v < 0x800 || IsHigh(v) || IsLow(v) then None else Some((v, 3))
    else if 0xF0 <= b[0] <= 0xF4 && |b| >= 4 && IsTail(b[1]) && IsTail(b[2]) && IsTail(b[3]) then
      var v := (b[0] as int - 0xF0) * 0x4_0000 + (b[1] as int - 0x80) * 0x1000
               + (b[2] as int - 0x80) * 0x40 + (b[3] as int - 0x80);
      if v < 0x1_0000 || v > 0x10_FFFF then None else Some((v, 4))
    else None
  }

  predicate IsTail(b: byte) { 0x80 <= b <= 0xBF }

  function Decode(b: seq<byte>): Option<seq<Scalar>> {
    if b == [] then Some([])
    else
      var front := DecodeFront(b);
      if front.None? then None else Cons(front.value.0, Decode(b[front.value.1..]))
  }

  /** The base-64 digits of a character. */
  lemma Digits(v: int)
    ensures v / 0x1000 == v / 0x40 / 0x40 && v / 0x4_0000 == v / 0x40 / 0x40 / 0x40
    ensures v == 0x40 * (v / 0x40) + v % 0x40
    ensures v == 0x1000 * (v / 0x1000) + 0x40 * (v / 0x40 % 0x40) + v % 0x40
    ensures v == 0x4_0000 * (v / 0x4_0000) + 0x1000 * (v / 0x1000 % 0x40) + 0x40 * (v / 0x40 % 0x40) + v % 0x40
  {
    var a := v / 0x40;
    var b := a / 0x40;
    assert b == v / 0x1000 && b / 0x40 == v / 0x4_0000;
  }

  lemma DecodeFrontInverts(v: Scalar, rest: seq<byte>)
    ensures DecodeFront(EncodeScalar(v) + rest) == Some((v, |EncodeScalar(v)|))
  {
    Digits(v);
    var b := EncodeScalar(v);
    DecodeFrontLocal(b, rest);
    if v > 0xFFFF {
      assert DecodeFront(b) == Some((v, 4));
    } else if v > 0x7FF {
      assert DecodeFront(b) == Some((v, 3));
    }
  }

  /** Only the bytes of the character are looked at. */
  lemma DecodeFrontLocal(b: seq<byte>, rest: seq<byte>)
    requires DecodeFront(b).Some?
    ensures DecodeFront(b + rest) == DecodeFront(b)
  {
  }

  /** UTF-8 bytes determine their characters, and every other byte string is refused. */
  lemma {:induction false} DecodeInverts(vs: seq<Scalar>)
    ensures Decode(EncodeScalars(vs)) == Some(vs)
  {
    if vs != [] {
      var front, rest := EncodeScalar(vs[0]), EncodeScalars(vs[1..]);
      DecodeFrontInverts(vs[0], rest);
      DecodeInverts(vs[1..]);
      assert (front + rest)[|front|..] == rest;
      assert [vs[0]] + vs[1..] == vs;
    }
  }

  lemma {:induction false} DecodeIsStrict(b: seq<byte>)
    ensures Decode(b).Some? ==> EncodeScalars(Decode(b).value) == b
  {
    hide DecodeFront, EncodeScalar;
    if b != [] && Decode(b).Some? {
      var (v, n) := DecodeFront(b).value;
      DecodeIsStrict(b[n..]);
      var vs := Decode(b).value;
      assert vs == [v] + Decode(b[n..]).value;
      assert vs[1..] == Decode(b[n..]).value;
      FrontIsStrict(b);
      assert b[..n] + b[n..] == b;
    }
  }

  lemma FrontIsStrict(b: seq<byte>)
    requires DecodeFront(b).Some?
    ensures EncodeScalar(DecodeFront(b).value.0) == b[..DecodeFront(b).value.1]
  {
    var (v, n) := DecodeFront(b).value;
    if n == 2 {
      assert v / 0x40 == b[0] as int - 0xC0;
    } else if n == 3 {
      Digits3(b[0] as int - 0xE0, b[1] as int - 0x80, b[2] as int - 0x80);
    } else if n == 4 {
      Digits4(b[0] as int - 0xF0, b[1] as int - 0x80, b[2] as int - 0x80, b[3] as int - 0x80);
    }
    assert |EncodeScalar(v)| == n;
    assert forall k | 0 <= k < n :: EncodeScalar(v)[k] == b[k];
  }

  lemma Digits3(x: int, y: int, z: int)
    requires 0 <= y < 0x40 && 0 <= z < 0x40
    ensures var v := x * 0x1000 + y * 0x40 + z;
            v / 0x1000 == x && v / 0x40 % 0x40 == y && v % 0x40 == z
  {
    var v := x * 0x1000 + y * 0x40 + z;
    assert v / 0x40 == x * 0x40 + y;
  }

  lemma Digits4(w: int, x: int, y: int, z: int)
    requires 0 <= x < 0x40 && 0 <= y < 0x40 && 0 <= z < 0x40
    ensures var v := w * 0x4_0000 + x * 0x1000 + y * 0x40 + z;
            v / 0x4_0000 == w && v / 0x1000 % 0x40 == x && v / 0x40 % 0x40 == y && v % 0x40 == z
  {
    var v := w * 0x4_0000 + x * 0x1000 + y * 0x40 + z;
    Digits3(w * 0x40 + x, y, z);
    assert v / 0x1000 == w * 0x40 + x;
  }

  lemma PairInverts(high: CodeUnit, low: CodeUnit)
    requires IsHigh(high) && IsLow(low)
    ensures UnitsOf(Pair(high, low)) == [high, low]
  {
  }

  lemma {:induction false} UnitsOfScalars(units: seq<CodeUnit>)
    requires Scalars(units).Some?
    ensures UnitsOfAll(Scalars(units).value) == units
  {
    if units != [] {
      var n := if IsHigh(units[0]) then 2 else 1;
      UnitsOfScalars(units[n..]);
      var vs := Scalars(units).value;
      assert vs[1..] == Scalars(units[n..]).value;
      assert units == units[..n] + units[n..];
      assert UnitsOf(vs[0]) == units[..n] by {
        if n == 2 {
          PairInverts(units[0], units[1]);
        }
      }
    }
  }

  /** The decoder gives the original string back, so different strings have different UTF-8. */
  lemma Utf8Inverts(units: seq<CodeUnit>)
    requires Utf8Of(units).Some?
    ensures Decode(Utf8Of(units).value).Some?
    ensures UnitsOfAll(Decode(Utf8Of(units).value).value) == units
  {
    DecodeInverts(Scalars(units).value);
    UnitsOfScalars(units);
  }

  // ----- streaming -----

  /** An empty 7-bit chunk delivered between the halves of a surrogate pair. */
  predicate Interrupted(chunks: seq<Chunk>) {
    exists k | 0 <= k < |chunks| :: InterruptedAt(chunks, k)
  }

  predicate InterruptedAt(chunks: seq<Chunk>, k: nat)
    requires k < |chunks|
  {
    chunks[k] == Ascii([]) && EndsHigh(Text(chunks[..k]))
  }

  predicate EndsHigh(units: seq<CodeUnit>) {
    units != [] && IsHigh(units[|units| - 1])
  }

  /** What one code unit appends and leaves pending; 0 stands for nothing. None is a throw. */
  function StreamUnit(high: CodeUnit, unit: CodeUnit): (r: Option<(seq<byte>, CodeUnit)>)
    requires high != 0 ==> IsHigh(high)
    ensures r.Some? && r.value.1 != 0 ==> IsHigh(r.value.1)
  {
    if high != 0 then (if IsLow(unit) then Some((EncodeScalar(Pair(high, unit)), 0)) else None)
    else if IsHigh(unit) then Some(([], unit))
    else if IsLow(unit) then None
    else Some((EncodeScalar(unit), 0))
  }

  function StreamUnits(high: CodeUnit, units: seq<CodeUnit>): (r: Option<(seq<byte>, CodeUnit)>)
    requires high != 0 ==> IsHigh(high)
    ensures r.Some? && r.value.1 != 0 ==> IsHigh(r.value.1)
    decreases |units|
  {
    if units == [] then Some(([], high))
    else
      var first := StreamUnit(high, units[0]);
      if first.None? then None
      else
        var rest := StreamUnits(first.value.1, units[1..]);
        if rest.None? then None else Some((first.value.0 + rest.value.0, rest.value.1))
  }

  /** One callback: a 7-bit chunk must not follow a pending unit, even if it is empty. */
  function StreamChunk(high: CodeUnit, chunk: Chunk): (r: Option<(seq<byte>, CodeUnit)>)
    requires high != 0 ==> IsHigh(high)
    ensures r.Some? && r.value.1 != 0 ==> IsHigh(r.value.1)
  {
    match chunk
    case Ascii(chars) => if high != 0 then None else Some((chars, 0))
    case Wide(units) => StreamUnits(high, units)
  }

  function StreamedFrom(high: CodeUnit, chunks: seq<Chunk>): Option<seq<byte>>
    requires high != 0 ==> IsHigh(high)
    decreases |chunks|
  {
    if chunks == [] then (if high == 0 then Some([]) else None)
    else
      var first := StreamChunk(high, chunks[0]);
      if first.None? then None else Prepend(first.value.0, StreamedFrom(first.value.1, chunks[1..]))
  }

  /** What streaming produces, callback by callback. */
  function Streamed(chunks: seq<Chunk>): Option<seq<byte>> {
    StreamedFrom(0, chunks)
  }

  /** However a text is cut into non-empty chunks, the bytes depend on the text alone. */
  lemma StreamedIgnoresChunking(chunks: seq<Chunk>)
    requires forall c | c in chunks :: c.Units() != []
    ensures Streamed(chunks) == Utf8Of(Text(chunks))
  {
    hide Streamed, Text, Utf8Of;
    StreamedMeans(chunks);
    forall k | 0 <= k < |chunks|
      ensures !InterruptedAt(chunks, k)
    {
      assert chunks[k] in chunks;
    }
  }

  /** Exactly the texts that have UTF-8 and are interrupted are refused by mistake. */
  lemma StreamedIffUninterrupted(chunks: seq<Chunk>)
    ensures Streamed(chunks) == Utf8Of(Text(chunks)) <==> Utf8Of(Text(chunks)).None? || !Interrupted(chunks)
  {
    StreamedMeans(chunks);
  }

  /** Streaming gives the UTF-8 of the whole text, unless an empty 7-bit chunk splits a pair. */
  lemma StreamedMeans(chunks: seq<Chunk>)
    ensures Streamed(chunks) == if Interrupted(chunks) then None else Utf8Of(Text(chunks))
  {
    hide StreamedFrom, EndsHigh, Utf8Of;
    StreamedFromMeans(0, chunks);
    assert Pending(0) + Text(chunks) == Text(chunks);
    forall k | 0 <= k < |chunks|
      ensures InterruptedFromAt(0, chunks, k) <==> InterruptedAt(chunks, k)
    {
      assert Pending(0) + Text(chunks[..k]) == Text(chunks[..k]);
    }
  }

  predicate InterruptedFromAt(high: CodeUnit, chunks: seq<Chunk>, k: nat)
    requires k < |chunks|
  {
    chunks[k] == Ascii([]) && EndsHigh(Pending(high) + Text(chunks[..k]))
  }

  predicate InterruptedFrom(high: CodeUnit, chunks: seq<Chunk>) {
    exists k | 0 <= k < |chunks| :: InterruptedFromAt(high, chunks, k)
  }

  lemma {:induction false} StreamUnitsMeans(high: CodeUnit, units: seq<CodeUnit>, after: seq<CodeUnit>)
    requires high != 0 ==> IsHigh(high)
    ensures var r := StreamUnits(high, units);
            && (r.None? ==> Rest(high, units + after).None?)
            && (r.Some? ==> Rest(high, units + after) == Prepend(r.value.0, Rest(r.value.1, after)))
            && (r.Some? ==> LastHigh(Pending(high) + units) == r.value.1)
    decreases |units|
  {
    hide Rest, EncodeScalar, Prepend, LastHigh;
    if units == [] {
      assert units + after == after && Pending(high) + units == Pending(high);
      PrependNil(Rest(high, after));
      LastHighOfPending(high);
    } else {
      assert units + after == [units[0]] + (units[1..] + after);
      UnitStep(high, units[0], units[1..] + after);
      var first := StreamUnit(high, units[0]);
      if first.Some? {
        StreamUnitsMeans(first.value.1, units[1..], after);
        var rest := StreamUnits(first.value.1, units[1..]);
        PrependNil(Rest(first.value.1, units[1..] + after));
        LastHighFrom(high, units, first.value.1);
        if rest.Some? {
          PrependAssoc(first.value.0, rest.value.0, Rest(rest.value.1, after));
        } else {
          PrependNone(first.value.0);
        }
      }
    }
  }

  lemma PrependNone(a: seq<byte>)
    ensures Prepend(a, None) == None
  {
  }

  lemma LastHighFrom(high: CodeUnit, units: seq<CodeUnit>, next: CodeUnit)
    requires units != [] && next == (if IsHigh(units[0]) then units[0] else 0)
    ensures LastHigh(Pending(high) + units) == LastHigh(Pending(next) + units[1..])
  {
  }

  lemma StreamChunkMeans(high: CodeUnit, chunk: Chunk, after: seq<CodeUnit>)
    requires high != 0 ==> IsHigh(high)
    requires !(chunk == Ascii([]) && high != 0)
    ensures var r := StreamChunk(high, chunk);
            && (r.None? ==> Rest(high, chunk.Units() + after).None?)
            && (r.Some? ==> Rest(high, chunk.Units() + after) == Prepend(r.value.0, Rest(r.value.1, after)))
            && (r.Some? ==> LastHigh(Pending(high) + chunk.Units()) == r.value.1)
  {
    hide Rest, LastHigh;
    match chunk
    case Ascii(chars) => AsciiStep(high, chars, after);
    case Wide(units) => StreamUnitsMeans(high, units, after);
  }

  /** After a chunk, being interrupted is a matter of what it leaves pending. */
  lemma InterruptedOn(high: CodeUnit, chunks: seq<Chunk>, next: CodeUnit)
    requires chunks != [] && !InterruptedFromAt(high, chunks, 0)
    requires next == LastHigh(Pending(high) + chunks[0].Units())
    ensures InterruptedFrom(high, chunks) <==> InterruptedFrom(next, chunks[1..])
  {
    var rest := chunks[1..];
    forall k | 0 <= k < |rest|
      ensures InterruptedFromAt(next, rest, k) <==> InterruptedFromAt(high, chunks, k + 1)
    {
      var text := Text(rest[..k]);
      assert chunks[..k + 1][0] == chunks[0] && chunks[..k + 1][1..] == rest[..k];
      EndsHighOn(Pending(high) + chunks[0].Units(), text);
      assert Pending(high) + (chunks[0].Units() + text) == Pending(high) + chunks[0].Units() + text;
    }
    if InterruptedFrom(high, chunks) {
      var k :| 0 <= k < |chunks| && InterruptedFromAt(high, chunks, k);
      assert InterruptedFromAt(next, rest, k - 1);
    }
  }

  lemma EndsHighOn(front: seq<CodeUnit>, text: seq<CodeUnit>)
    ensures EndsHigh(front + text) <==> EndsHigh(Pending(LastHigh(front)) + text)
  {
    if text == [] {
      assert front + text == front && Pending(LastHigh(front)) + text == Pending(LastHigh(front));
    }
  }

  lemma {:induction false} StreamedFromMeans(high: CodeUnit, chunks: seq<Chunk>)
    requires high != 0 ==> IsHigh(high)
    ensures StreamedFrom(high, chunks) == if InterruptedFrom(high, chunks) then None else Rest(high, Text(chunks))
    decreases |chunks|
  {
    hide Rest, LastHigh, StreamChunk, Prepend;
    if chunks == [] {
      NothingStreamed(high);
    } else if chunks[0] == Ascii([]) && high != 0 {
      InterruptedAtOnce(high, chunks);
    } else {
      var after := Text(chunks[1..]);
      StreamChunkMeans(high, chunks[0], after);
      var first := StreamChunk(high, chunks[0]);
      if first.Some? {
        StreamedFromMeans(first.value.1, chunks[1..]);
        NotAtOnce(high, chunks);
        InterruptedOn(high, chunks, first.value.1);
        PrependNone(first.value.0);
      }
    }
  }

  lemma NothingStreamed(high: CodeUnit)
    requires high != 0 ==> IsHigh(high)
    ensures Rest(high, []) == if high == 0 then Some([]) else None
  {
    assert Pending(high) + [] == Pending(high);
    if high != 0 {
      LoneHigh(high, []);
      assert [high] + [] == Pending(high);
    }
  }

  lemma InterruptedAtOnce(high: CodeUnit, chunks: seq<Chunk>)
    requires chunks != [] && chunks[0] == Ascii([]) && IsHigh(high)
    ensures InterruptedFrom(high, chunks) && StreamedFrom(high, chunks).None?
  {
    assert Pending(high) + Text(chunks[..0]) == [high];
    assert InterruptedFromAt(high, chunks, 0);
  }

  lemma NotAtOnce(high: CodeUnit, chunks: seq<Chunk>)
    requires chunks != [] && !(chunks[0] == Ascii([]) && high != 0)
    ensures !InterruptedFromAt(high, chunks, 0)
  {
    assert Pending(high) + Text(chunks[..0]) == Pending(high);
  }

  /** A pair that an empty 7-bit chunk splits. */
  lemma EmptyChunkInterrupts()
    ensures var chunks := [Wide([0xD83D]), Ascii([]), Wide([0xDE00])];
            Streamed(chunks).None? && Utf8Of(Text(chunks)).Some?
  {
    var chunks := [Wide([0xD83D]), Ascii([]), Wide([0xDE00])];
    assert Text(chunks[..1]) == [0xD83D] by {
      assert chunks[..1] == [Wide([0xD83D])] && chunks[..1][1..] == [];
    }
    assert InterruptedAt(chunks, 1);
    var units: seq<CodeUnit> := [0xD83D, 0xDE00];
    assert Text(chunks) == units by {
      assert chunks[1..] == [Ascii([]), Wide([0xDE00])] && chunks[1..][1..] == [Wide([0xDE00])];
      assert [Wide([0xDE00])][1..] == [];
    }
    FrontPair(units);
    assert units[2..] == [];
    StreamedMeans(chunks);
  }

  lemma {:induction false} TextSnoc(chunks: seq<Chunk>, last: Chunk)
    ensures Text(chunks + [last]) == Text(chunks) + last.Units()
  {
    if chunks == [] {
      assert [] + [last] == [last] && [last][1..] == [];
    } else {
      var first, middle := chunks[0].Units(), Text(chunks[1..]);
      TextSnoc(chunks[1..], last);
      assert (chunks + [last])[1..] == chunks[1..] + [last] && (chunks + [last])[0] == chunks[0];
      assert (first + middle) + last.Units() == first + (middle + last.Units());
    }
  }

  lemma TextOfPrefix(chunks: seq<Chunk>, k: nat)
    requires k < |chunks|
    ensures Text(chunks[..k + 1]) == Text(chunks[..k]) + chunks[k].Units()
    ensures Text(chunks[k..]) == chunks[k].Units() + Text(chunks[k + 1..])
  {
    TextSnoc(chunks[..k], chunks[k]);
    assert chunks[..k + 1] == chunks[..k] + [chunks[k]];
    assert chunks[k..][1..] == chunks[k + 1..];
  }

  lemma {:induction false} AsciiFront(chars: seq<Char7>, rest: seq<CodeUnit>)
    ensures Utf8Of(chars + rest) == Prepend(chars, Utf8Of(rest))
  {
    if chars == [] {
      assert chars + rest == rest;
      assert Utf8Of(rest).Some? ==> chars + Utf8Of(rest).value == Utf8Of(rest).value;
    } else {
      AsciiFront(chars[1..], rest);
      assert (chars + rest)[1..] == chars[1..] + rest;
      assert chars == [chars[0]] + chars[1..];
      FrontScalar(chars + rest);
      var tail := Utf8Of(rest);
      if tail.Some? {
        assert [chars[0]] + (chars[1..] + tail.value) == chars + tail.value;
      }
    }
  }

  /** One step of the UTF-8 form, for a character that is not a surrogate. */
  lemma FrontScalar(units: seq<CodeUnit>)
    requires units != [] && !IsHigh(units[0]) && !IsLow(units[0])
    ensures Utf8Of(units) == Prepend(EncodeScalar(units[0]), Utf8Of(units[1..]))
  {
    var rest := Scalars(units[1..]);
    if rest.Some? {
      assert ([units[0]] + rest.value)[1..] == rest.value;
    }
  }

  /** One step of the UTF-8 form, for a surrogate pair. */
  lemma FrontPair(units: seq<CodeUnit>)
    requires |units| >= 2 && IsHigh(units[0]) && IsLow(units[1])
    ensures Utf8Of(units) == Prepend(EncodeScalar(Pair(units[0], units[1])), Utf8Of(units[2..]))
  {
    var rest := Scalars(units[2..]);
    if rest.Some? {
      assert ([Pair(units[0], units[1])] + rest.value)[1..] == rest.value;
    }
  }

  /** The pending high surrogate as the text it stands for; 0 stands for none. */
  function Pending(high: CodeUnit): seq<CodeUnit> {
    if high == 0 then [] else [high]
  }

  function LastHigh(units: seq<CodeUnit>): (high: CodeUnit)
    ensures high != 0 ==> IsHigh(high)
  {
    if EndsHigh(units) then units[|units| - 1] else 0
  }

  lemma PrependAssoc(a: seq<byte>, b: seq<byte>, rest: Option<seq<byte>>)
    ensures Prepend(a, Prepend(b, rest)) == Prepend(a + b, rest)
  {
    if rest.Some? {
      assert a + (b + rest.value) == (a + b) + rest.value;
    }
  }

  lemma PrependNil(rest: Option<seq<byte>>)
    ensures Prepend([], rest) == rest
  {
    if rest.Some? {
      assert [] + rest.value == rest.value;
    }
  }

  /** A pending high surrogate cannot be followed by anything but a low surrogate. */
  lemma LoneHigh(high: CodeUnit, rest: seq<CodeUnit>)
    requires IsHigh(high) && (rest == [] || !IsLow(rest[0]))
    ensures Utf8Of([high] + rest).None?
  {
  }

  /** The UTF-8 of a pending high surrogate and the text after it. */
  function Rest(high: CodeUnit, text: seq<CodeUnit>): Option<seq<byte>> {
    Utf8Of(Pending(high) + text)
  }

  /** How one code unit changes what is still to be written. */
  lemma UnitStep(high: CodeUnit, unit: CodeUnit, after: seq<CodeUnit>)
    requires high != 0 ==> IsHigh(high)
    ensures var here := Rest(high, [unit] + after);
            if high != 0 && IsLow(unit) then here == Prepend(EncodeScalar(Pair(high, unit)), Rest(0, after))
            else if high != 0 || IsLow(unit) then here.None?
            else if IsHigh(unit) then here == Rest(unit, after)
            else here == Prepend(EncodeScalar(unit), Rest(0, after))
  {
    hide Utf8Of;
    assert Pending(0) + after == after;
    var text := [unit] + after;
    if high != 0 {
      assert Pending(high) + text == [high] + text;
      if IsLow(unit) {
        FrontPair([high] + text);
        assert ([high] + text)[2..] == after;
      } else {
        LoneHigh(high, text);
      }
    } else {
      assert Pending(high) + text == text;
      if IsLow(unit) {
        LoneLow(text);
      } else if IsHigh(unit) {
        assert Pending(unit) + after == text;
      } else {
        FrontScalar(text);
        assert text[1..] == after;
      }
    }
  }

  lemma LoneLow(units: seq<CodeUnit>)
    requires units != [] && IsLow(units[0])
    ensures Utf8Of(units).None?
  {
  }

  /** How a whole 7-bit chunk changes what is still to be written. */
  lemma AsciiStep(high: CodeUnit, chars: seq<Char7>, after: seq<CodeUnit>)
    requires high != 0 ==> IsHigh(high)
    ensures high == 0 ==> Rest(high, chars + after) == Prepend(chars, Rest(0, after))
    ensures high != 0 && chars != [] ==> Rest(high, chars + after).None?
    ensures high == 0 ==> LastHigh(Pending(high) + chars) == 0
  {
    hide Utf8Of;
    assert Pending(0) + after == after;
    if high == 0 {
      AsciiFront(chars, after);
      assert Pending(high) + (chars + after) == chars + after && Pending(high) + chars == chars;
    } else if chars != [] {
      LoneHigh(high, chars + after);
    }
  }

  lemma LastHighSnoc(units: seq<CodeUnit>, unit: CodeUnit)
    ensures LastHigh(units + [unit]) == if IsHigh(unit) then unit else 0
  {
  }

  lemma Advance(front: seq<CodeUnit>, units: seq<CodeUnit>, index: nat, after: seq<CodeUnit>)
    requires index < |units|
    ensures units[index..] + after == [units[index]] + (units[index + 1..] + after)
    ensures front + units[..index + 1] == (front + units[..index]) + [units[index]]
  {
  }

  lemma LastHighOfPending(high: CodeUnit)
    requires high != 0 ==> IsHigh(high)
    ensures LastHigh(Pending(high)) == high
  {
  }

  /** The bytes of a frame and the text still to come account for a whole text. */
  ghost predicate Covers(whole: Option<seq<byte>>, done: seq<byte>, rest: Option<seq<byte>>) {
    whole == Prepend(done, rest)
  }

  lemma CoversMore(whole: Option<seq<byte>>, done: seq<byte>, more: seq<byte>, rest: Option<seq<byte>>)
    requires Covers(whole, done, Prepend(more, rest))
    ensures Covers(whole, done + more, rest)
    ensures whole.Some? ==> |whole.value| >= |done| + |more|
  {
    PrependAssoc(done, more, rest);
  }

  /**
   * One engine callback. `after` is the text that later callbacks will deliver: whatever it is, the
   * text still to be encoded is accounted for by the bytes appended here and the new pending unit.
   */
  method Write(frame: Frame, high: CodeUnit, chunk: Chunk, ghost after: seq<CodeUnit>)
    returns (ok: bool, high': CodeUnit, ghost done: seq<byte>)
    requires |frame.bytes| <= MAX_FRAME_BYTES
    requires high != 0 ==> IsHigh(high)
    modifies frame
    ensures |frame.bytes| <= MAX_FRAME_BYTES
    ensures ok ==> frame.bytes == old(frame.bytes) + done
    ensures ok ==> high' == LastHigh(Pending(high) + chunk.Units()) && !(chunk == Ascii([]) && high != 0)
    ensures ok ==> Covers(Rest(high, chunk.Units() + after), done, Rest(high', after))
    ensures !ok ==>
      var whole := Rest(high, chunk.Units() + after);
      || (chunk == Ascii([]) && high != 0)
      || whole.None?
      || |old(frame.bytes)| + |whole.value| > MAX_FRAME_BYTES
  {
    hide Utf8Of, Rest, EncodeScalar, EndsHigh;
    match chunk
    case Ascii(chars) =>
      AsciiStep(high, chars, after);
      high', done := high, chars;
      if high != 0 {
        return false, high', done;
      }
      ok := frame.Append(chars);
    case Wide(units) =>
      ok, high', done := WriteWide(frame, high, units, after);
  }

  method WriteWide(frame: Frame, high: CodeUnit, units: seq<CodeUnit>, ghost after: seq<CodeUnit>)
    returns (ok: bool, high': CodeUnit, ghost done: seq<byte>)
    requires |frame.bytes| <= MAX_FRAME_BYTES
    requires high != 0 ==> IsHigh(high)
    modifies frame
    ensures |frame.bytes| <= MAX_FRAME_BYTES
    ensures ok ==> frame.bytes == old(frame.bytes) + done
    ensures ok ==> high' == LastHigh(Pending(high) + units)
    ensures ok ==> Covers(Rest(high, units + after), done, Rest(high', after))
    ensures !ok ==>
      var whole := Rest(high, units + after);
      whole.None? || |old(frame.bytes)| + |whole.value| > MAX_FRAME_BYTES
  {
    hide Utf8Of, Rest, EncodeScalar, LastHigh, Prepend, Covers;
    high', done := high, [];
    ghost var whole := Rest(high, units + after);
    var index := 0;
    LastHighOfPending(high);
    assert units[0..] == units && Pending(high) + units[..0] == Pending(high);
    CoversNothing(whole);
    while index < |units|
      invariant 0 <= index <= |units|
      invariant |frame.bytes| <= MAX_FRAME_BYTES
      invariant frame.bytes == old(frame.bytes) + done
      invariant high' != 0 ==> IsHigh(high')
      invariant high' == LastHigh(Pending(high) + units[..index])
      invariant Covers(whole, done, Rest(high', units[index..] + after))
    {
      hide Pending;
      Advance(Pending(high), units, index, after);
      LastHighSnoc(Pending(high) + units[..index], units[index]);
      ghost var more;
      ok, high', more := WriteUnit(frame, high', units[index], whole, done, units[index + 1..] + after);
      if !ok {
        return;
      }
      done := done + more;
      index := index + 1;
    }
    ok := true;
    NothingLeft(units, after);
  }

  method WriteUnit(frame: Frame, high: CodeUnit, unit: CodeUnit,
                   ghost whole: Option<seq<byte>>, ghost done: seq<byte>, ghost after: seq<CodeUnit>)
    returns (ok: bool, high': CodeUnit, ghost more: seq<byte>)
    requires |frame.bytes| <= MAX_FRAME_BYTES
    requires high != 0 ==> IsHigh(high)
    requires Covers(whole, done, Rest(high, [unit] + after))
    modifies frame
    ensures |frame.bytes| <= MAX_FRAME_BYTES
    ensures ok ==> frame.bytes == old(frame.bytes) + more
    ensures ok ==> high' == if IsHigh(unit) then unit else 0
    ensures ok ==> Covers(whole, done + more, Rest(high', after))
    ensures !ok ==> whole.None? || |old(frame.bytes)| + |whole.value| - |done| > MAX_FRAME_BYTES
  {
    hide Utf8Of, Rest, EncodeScalar, Prepend, Covers;
    high', more := 0, [];
    UnitStep(high, unit, after);
    CoversFate(whole, done, Rest(high, [unit] + after));
    if high != 0 {
      if unit < 0xDC00 || unit > 0xDFFF {
        return false, high', more;
      }
      more := EncodeScalar(Pair(high, unit));
      CoversMore(whole, done, more, Rest(0, after));
      ok := frame.Append(EncodeScalar(Pair(high, unit)));
    } else if 0xD800 <= unit <= 0xDBFF {
      assert done + [] == done;
      ok, high' := true, unit;
    } else if 0xDC00 <= unit <= 0xDFFF {
      ok := false;
    } else {
      more := EncodeScalar(unit);
      CoversMore(whole, done, more, Rest(0, after));
      ok := frame.Append(EncodeScalar(unit));
    }
  }

  lemma CoversNothing(whole: Option<seq<byte>>)
    ensures Covers(whole, [], whole)
  {
    PrependNil(whole);
  }

  lemma NothingLeft(units: seq<CodeUnit>, after: seq<CodeUnit>)
    ensures units[|units|..] + after == after && units[..|units|] == units
  {
  }

  lemma CoversFate(whole: Option<seq<byte>>, done: seq<byte>, rest: Option<seq<byte>>)
    requires Covers(whole, done, rest)
    ensures rest.None? ==> whole.None?
  {
  }

  /** Appends a string to a frame, one engine callback per chunk. */
  method AppendHermesUtf8(frame: Frame, chunks: seq<Chunk>) returns (ok: bool)
    requires |frame.bytes| <= MAX_FRAME_BYTES
    modifies frame
    ensures |frame.bytes| <= MAX_FRAME_BYTES
    ensures ok <==> Streamed(chunks).Some? && |old(frame.bytes)| + |Streamed(chunks).value| <= MAX_FRAME_BYTES
    ensures ok ==> frame.bytes == old(frame.bytes) + Streamed(chunks).value
  {
    hide Utf8Of, Text, Rest, Streamed;
    StreamedMeans(chunks);
    var high: CodeUnit := 0;
    ghost var done: seq<byte> := [];
    ghost var whole := Utf8Of(Text(chunks));
    var k := 0;
    StreamStart(chunks);
    while k < |chunks|
      invariant 0 <= k <= |chunks|
      invariant |frame.bytes| <= MAX_FRAME_BYTES
      invariant frame.bytes == old(frame.bytes) + done
      invariant high == LastHigh(Text(chunks[..k]))
      invariant forall j | 0 <= j < k :: !InterruptedAt(chunks, j)
      invariant whole == Prepend(done, Remaining(chunks, k, high))
    {
      StreamStep(chunks, k);
      ghost var more;
      ghost var before := high;
      ok, high, more := Write(frame, high, chunks[k], Text(chunks[k + 1..]));
      if !ok {
        assert chunks[k] == Ascii([]) && before != 0 ==> InterruptedAt(chunks, k);
        return;
      }
      PrependAssoc(done, more, Rest(high, Text(chunks[k + 1..])));
      done := done + more;
      k := k + 1;
    }
    StreamEnd(chunks, done);
    ok := high == 0;
  }

  /** The UTF-8 of what is still to come when chunks[..k] have been written. */
  ghost function Remaining(chunks: seq<Chunk>, k: nat, high: CodeUnit): Option<seq<byte>>
    requires k <= |chunks|
  {
    Rest(high, Text(chunks[k..]))
  }

  lemma StreamStart(chunks: seq<Chunk>)
    ensures LastHigh(Text(chunks[..0])) == 0
    ensures Utf8Of(Text(chunks)) == Prepend([], Remaining(chunks, 0, 0))
  {
    assert chunks[0..] == chunks && chunks[..0] == [];
    assert Pending(0) + Text(chunks) == Text(chunks);
    PrependNil(Utf8Of(Text(chunks)));
  }

  lemma StreamStep(chunks: seq<Chunk>, k: nat)
    requires k < |chunks|
    ensures var high := LastHigh(Text(chunks[..k]));
            && Remaining(chunks, k, high) == Rest(high, chunks[k].Units() + Text(chunks[k + 1..]))
            && LastHigh(Pending(high) + chunks[k].Units()) == LastHigh(Text(chunks[..k + 1]))
  {
    hide Utf8Of, Text;
    var high := LastHigh(Text(chunks[..k]));
    TextOfPrefix(chunks, k);
  }

  lemma StreamEnd(chunks: seq<Chunk>, done: seq<byte>)
    ensures var high := LastHigh(Text(chunks));
            && chunks[..|chunks|] == chunks
            && Prepend(done, Remaining(chunks, |chunks|, high)) == if high == 0 then Some(done) else None
  {
    var high := LastHigh(Text(chunks));
    assert chunks[..|chunks|] == chunks && chunks[|chunks|..] == [];
    assert Pending(high) + [] == Pending(high);
    assert EncodeScalars([]) == [] && done + [] == done;
    if high != 0 {
      LoneHigh(high, []);
      assert [high] + [] == Pending(high);
    }
  }
}
