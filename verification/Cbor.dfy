/** The CBOR subset shared by gossip frames, control frames and plan blobs
    (src/state/fleece_cbor.c). A head is a major type 0..7 and a 64-bit argument. */
module Cbor {
  import opened Bytes

  // ----- Sizes ---------------------------------------------------------------

  function UintSize(v: U64): (n: nat)
    ensures 1 <= n <= 9
  {
    if v < 24 then 1 else if v <= 0xFF then 2 else if v <= 0xFFFF then 3 else if v <= 0xFFFF_FFFF then 5 else 9
  }

  /** Size of a byte or text string: its head plus its payload. */
  function StringSize(len: U64): (n: nat)
  {
    UintSize(len) + len
  }

  // ----- Big-endian arguments ---------------------------------------------------

  function Pow256(n: nat): (p: nat)
    ensures p >= 1
  {
    if n == 0 then 1 else 256 * Pow256(n - 1)
  }

  function BigEndian(v: nat, n: nat): (s: seq<Byte>)
    ensures |s| == n
  {
    if n == 0 then [] else BigEndian(v / 256, n - 1) + [v % 256]
  }

  function FromBigEndian(s: seq<Byte>): nat
  {
    if s == [] then 0 else FromBigEndian(s[..|s| - 1]) * 256 + s[|s| - 1]
  }

  lemma {:induction false} FromBigEndianBound(s: seq<Byte>)
    ensures FromBigEndian(s) < Pow256(|s|)
  {
    if s != [] {
      FromBigEndianBound(s[..|s| - 1]);
    }
  }

  lemma {:induction false} BigEndianRoundTrip(v: nat, n: nat)
    requires v < Pow256(n)
    ensures FromBigEndian(BigEndian(v, n)) == v
  {
    if n > 0 {
      BigEndianRoundTrip(v / 256, n - 1);
      assert BigEndian(v, n)[..n - 1] == BigEndian(v / 256, n - 1);
    }
  }

  lemma {:induction false} BigEndianCanonical(s: seq<Byte>)
    ensures BigEndian(FromBigEndian(s), |s|) == s
  {
    if s != [] {
      var t := s[..|s| - 1];
      BigEndianCanonical(t);
      assert (FromBigEndian(t) * 256 + s[|s| - 1]) / 256 == FromBigEndian(t);
      assert s == t + [s[|s| - 1]];
    }
  }

  lemma Pow256Values()
    ensures Pow256(0) == 1 && Pow256(1) == 0x100 && Pow256(2) == 0x1_0000
    ensures Pow256(4) == 0x1_0000_0000 && Pow256(8) == 0x1_0000_0000_0000_0000
  {
    assert Pow256(3) == 0x100_0000;
    assert Pow256(5) == 0x100_0000_0000 && Pow256(6) == 0x1_0000_0000_0000 && Pow256(7) == 0x100_0000_0000_0000;
  }

  // ----- Heads -----------------------------------------------------------------

  type Major = x: int | 0 <= x < 8

  /** Number of argument bytes announced by an additional-information value. */
  function ArgBytes(info: nat): (n: nat)
    requires info <= 27
  {
    if info < 24 then 0 else if info == 24 then 1 else if info == 25 then 2 else if info == 26 then 4 else 8
  }

  function InfoFor(v: U64): (info: nat)
    ensures info <= 27 && 1 + ArgBytes(info) == UintSize(v)
  {
    if v < 24 then v else if v <= 0xFF then 24 else if v <= 0xFFFF then 25 else if v <= 0xFFFF_FFFF then 26 else 27
  }

  function EncHead(major: Major, v: U64): (e: seq<Byte>)
    ensures |e| == UintSize(v)
  {
    [major * 32 + InfoFor(v)] + BigEndian(v, ArgBytes(InfoFor(v)))
  }

  datatype Head = NoHead | Head(major: Major, value: U64, next: nat)

  /** fleece_cbor_read_head: total on every buffer and position. */
  function ReadHead(b: seq<Byte>, pos: nat): (h: Head)
    ensures h.Head? ==> pos < h.next <= |b|
  {
    if pos >= |b| then NoHead else
      var major, info := b[pos] / 32, b[pos] % 32;
      if info < 24 then Head(major, info, pos + 1)
      else if info > 27 then NoHead
      else
        var n := ArgBytes(info);
        if pos + 1 + n > |b| then NoHead
        else
          FromBigEndianBound(b[pos + 1..pos + 1 + n]);
          Pow256Values();
          Head(major, FromBigEndian(b[pos + 1..pos + 1 + n]), pos + 1 + n)
  }

  /** Reading what was written gives the same head back, wherever it stands. */
  lemma {:induction false} HeadRoundTrip(b: seq<Byte>, pos: nat, major: Major, v: U64)
    requires At(b, pos, EncHead(major, v))
    ensures ReadHead(b, pos) == Head(major, v, pos + UintSize(v))
  {
    var info := InfoFor(v);
    var n := ArgBytes(info);
    var e := EncHead(major, v);
    assert b[pos] == b[pos..pos + |e|][0] == major * 32 + info;
    if v >= 24 {
      assert b[pos + 1..pos + 1 + n] == b[pos..pos + |e|][1..] == BigEndian(v, n);
      Pow256Values();
      BigEndianRoundTrip(v, n);
    }
  }

  /** Every head a reader accepts is at least as long as the written form of the same
      value, and the only accepted head of that length is the written one: the writer
      always produces the shortest form (sections 3 and 4.1 of RFC 8949). */
  lemma HeadShortest(b: seq<Byte>, pos: nat)
    requires ReadHead(b, pos).Head?
    ensures var h := ReadHead(b, pos);
            && h.next - pos >= UintSize(h.value)
            && (h.next - pos == UintSize(h.value) <==> At(b, pos, EncHead(h.major, h.value)))
  {
    var h := ReadHead(b, pos);
    var info := b[pos] % 32;
    var n := ArgBytes(info);
    assert h.next == pos + 1 + n;
    if info >= 24 {
      var s := b[pos + 1..pos + 1 + n];
      FromBigEndianBound(s);
      Pow256Values();
      BigEndianCanonical(s);
    }
    if h.next - pos == UintSize(h.value) {
      assert InfoFor(h.value) == info;
      assert b[pos..h.next] == [b[pos]] + b[pos + 1..h.next];
    }
  }

  // ----- Typed items -------------------------------------------------------------

  function EncUint(v: U64): seq<Byte> { EncHead(0, v) }

  function EncArray(count: U64): seq<Byte> { EncHead(4, count) }

  function EncBytes(data: seq<Byte>): seq<Byte>
    requires |data| < TWO_64
  {
    EncHead(2, |data|) + data
  }

  function EncText(text: seq<Byte>): seq<Byte>
    requires |text| < TWO_64
  {
    EncHead(3, |text|) + text
  }

  function EncBool(v: bool): (e: seq<Byte>)
    ensures |e| == 1
  {
    [if v then 0xF5 else 0xF4]
  }

  /** A boolean read back through the generic head reader: major 7, argument 20 or 21. */
  lemma BoolRoundTrip(b: seq<Byte>, pos: nat, v: bool)
    requires At(b, pos, EncBool(v))
    ensures ReadHead(b, pos) == Head(7, if v then 21 else 20, pos + 1)
  {
    assert b[pos] == b[pos..pos + 1][0];
  }

  /** A byte or text string: a head of the wanted major type, then a payload inside the buffer. */
  datatype Str = NoStr | Str(bytes: seq<Byte>, next: nat)

  /** fleece_cbor_bounds_ok */
  predicate BoundsOk(pos: nat, len: U64, size: nat)
  {
    len <= size && pos <= size - len
  }

  function ReadString(b: seq<Byte>, pos: nat, major: Major): (s: Str)
    ensures s.Str? ==> pos + |s.bytes| < s.next <= |b|
  {
    var h := ReadHead(b, pos);
    if h.NoHead? || h.major != major || !BoundsOk(h.next, h.value, |b|) then NoStr
    else Str(b[h.next..h.next + h.value], h.next + h.value)
  }

  lemma StringRoundTrip(b: seq<Byte>, pos: nat, major: Major, data: seq<Byte>)
    requires |data| < TWO_64
    requires At(b, pos, EncHead(major, |data|) + data)
    ensures ReadString(b, pos, major) == Str(data, pos + StringSize(|data|))
  {
    AtConcat(b, pos, EncHead(major, |data|), data);
    HeadRoundTrip(b, pos, major, |data|);
  }

  // ----- Buffer writers -------------------------------------------------------------

  /** `v >> (8 * i)` */
  function ShiftRight8(v: nat, i: nat): nat
  {
    if i == 0 then v else ShiftRight8(v, i - 1) / 256
  }

  /** The argument loop of fleece_cbor_write_head: highest byte first. */
  method WriteArg(buf: array<Byte>, pos: nat, v: U64, n: nat) returns (next: nat)
    requires pos + n <= buf.Length
    modifies buf
    ensures next == pos + n
    ensures buf[..next] == old(buf[..pos]) + BigEndian(v, n)
  {
    next := pos;
    var i := n;
    while i > 0
      invariant 0 <= i <= n && next == pos + n - i
      invariant buf[..next] == old(buf[..pos]) + BigEndian(ShiftRight8(v, i), n - i)
    {
      i := i - 1;
      ghost var before := buf[..next];
      buf[next] := ShiftRight8(v, i) % 256;
      next := next + 1;
      assert buf[..next] == before + [ShiftRight8(v, i) % 256];
    }
  }

  method WriteHead(buf: array<Byte>, pos: nat, major: Major, v: U64) returns (next: nat)
    requires pos + UintSize(v) <= buf.Length
    modifies buf
    ensures next == pos + UintSize(v)
    ensures buf[..next] == old(buf[..pos]) + EncHead(major, v)
  {
    buf[pos] := major * 32 + InfoFor(v);
    assert buf[..pos + 1] == old(buf[..pos]) + [major * 32 + InfoFor(v)];
    next := WriteArg(buf, pos + 1, v, ArgBytes(InfoFor(v)));
  }

  /** memcpy of a payload behind the write position. */
  method WriteRaw(buf: array<Byte>, pos: nat, data: seq<Byte>) returns (next: nat)
    requires pos + |data| <= buf.Length
    modifies buf
    ensures next == pos + |data|
    ensures buf[..next] == old(buf[..pos]) + data
  {
    forall i | 0 <= i < |data| {
      buf[pos + i] := data[i];
    }
    next := pos + |data|;
    assert buf[..next] == buf[..pos] + buf[pos..next];
  }

  method WriteString(buf: array<Byte>, pos: nat, major: Major, data: seq<Byte>) returns (next: nat)
    requires |data| < TWO_64
    requires pos + StringSize(|data|) <= buf.Length
    modifies buf
    ensures next == pos + StringSize(|data|)
    ensures buf[..next] == old(buf[..pos]) + (EncHead(major, |data|) + data)
  {
    next := WriteHead(buf, pos, major, |data|);
    next := WriteRaw(buf, next, data);
  }

  // ----- Buffer reader ----------------------------------------------------------------

  /** fleece_cbor_read_head with its accumulation loop. */
  method ReadHeadLoop(b: seq<Byte>, pos: nat) returns (h: Head)
    ensures h == ReadHead(b, pos)
  {
    if pos + 1 > |b| { return NoHead; }
    var major, info := b[pos] / 32, b[pos] % 32;
    var p := pos + 1;
    if info < 24 { return Head(major, info, p); }
    if info > 27 { return NoHead; }
    var n := ArgBytes(info);
    if p + n > |b| { return NoHead; }
    var v: nat := 0;
    while p < pos + 1 + n
      invariant pos + 1 <= p <= pos + 1 + n
      invariant v == FromBigEndian(b[pos + 1..p])
    {
      assert b[pos + 1..p + 1][..p - pos - 1] == b[pos + 1..p];
      v := v * 256 + b[p];
      p := p + 1;
    }
    FromBigEndianBound(b[pos + 1..p]);
    Pow256Values();
    h := Head(major, v, p);
  }

  // ----- Numbers -------------------------------------------------------------------

  /** Doubles, by value: the reals a 64-bit pattern can carry. `toBits` and `ofBits` stand for
      the memcpy between a double and its bit pattern, `ofUint` for the cast of an integer,
      which rounds above 2^53. NaN has no value here. */
  datatype Ieee = Ieee(toBits: real -> U64, ofBits: U64 -> real, ofUint: U64 -> real)
  {
    /** `x` is a double. */
    ghost predicate Exact(x: real)
    {
      ofBits(toBits(x)) == x && (IsWhole(x) ==> ofUint(x.Floor) == x)
    }

    /** Both conversions give doubles. */
    ghost predicate Valid()
    {
      (forall v: U64 :: Exact(ofBits(v))) && (forall v: U64 :: Exact(ofUint(v)))
    }
  }

  /** `v >= 0.0 && v < 2^64 && v == (double)(uint64_t)v` */
  predicate IsWhole(x: real)
  {
    0.0 <= x < TWO_64 as real && x == x.Floor as real
  }

  function NumSize(x: real): (n: nat)
  {
    if IsWhole(x) then UintSize(x.Floor) else 9
  }

  function EncNum(ieee: Ieee, x: real): (e: seq<Byte>)
    ensures |e| == NumSize(x)
  {
    if IsWhole(x) then EncUint(x.Floor) else [0xFB] + BigEndian(ieee.toBits(x), 8)
  }

  datatype Num = NoNum | Num(val: real, next: nat)

  function ReadNum(ieee: Ieee, b: seq<Byte>, pos: nat): (n: Num)
    ensures n.Num? ==> pos < n.next <= |b|
  {
    var h := ReadHead(b, pos);
    if h.NoHead? then NoNum
    else if h.major == 0 then Num(ieee.ofUint(h.value), h.next)
    else if b[pos] == 0xFB then Num(ieee.ofBits(h.value), h.next)
    else NoNum
  }

  /** Whole numbers travel as integers and everything else as its bit pattern; both come
      back as the same value. */
  lemma {:induction false} NumRoundTrip(ieee: Ieee, b: seq<Byte>, pos: nat, x: real)
    requires ieee.Exact(x) && At(b, pos, EncNum(ieee, x))
    ensures ReadNum(ieee, b, pos) == Num(x, pos + NumSize(x))
  {
    if IsWhole(x) {
      HeadRoundTrip(b, pos, 0, x.Floor);
    } else {
      var e := EncNum(ieee, x);
      assert b[pos] == b[pos..pos + |e|][0] == 0xFB;
      assert b[pos + 1..pos + 9] == b[pos..pos + |e|][1..] == BigEndian(ieee.toBits(x), 8);
      Pow256Values();
      BigEndianRoundTrip(ieee.toBits(x), 8);
    }
  }

  method WriteNum(ieee: Ieee, buf: array<Byte>, pos: nat, x: real) returns (next: nat)
    requires pos + NumSize(x) <= buf.Length
    modifies buf
    ensures next == pos + NumSize(x)
    ensures buf[..next] == old(buf[..pos]) + EncNum(ieee, x)
  {
    if IsWhole(x) {
      next := WriteHead(buf, pos, 0, x.Floor);
    } else {
      next := WriteRaw(buf, pos, [0xFB]);
      next := WriteArg(buf, next, ieee.toBits(x), 8);
    }
  }
}
