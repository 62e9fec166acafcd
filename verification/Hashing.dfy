/** The two FNV-1a hashes of the store (src/state/fleece_state_manager.c): 32 bits over a
    field name, giving the field's key, and 64 bits over one live entry, giving its share of
    the stream digest. */
module Hashing {
  import opened Bytes
  import opened Cbor

  /** `x ^ y` on two bytes. */
  function XorByte(x: Byte, y: Byte): Byte
  {
    ((x as bv8) ^ (y as bv8)) as int
  }

  /** One FNV-1a round: xor the byte into the low bits, multiply, keep 32 or 64 bits. */
  function Step32(h: U32, b: Byte): U32
  {
    (h / 256 * 256 + XorByte(h % 256, b)) * 16777619 % TWO_32
  }

  function Step64(h: U64, b: Byte): U64
  {
    (h / 256 * 256 + XorByte(h % 256, b)) * 0x100000001b3 % TWO_64
  }

  function Fnv32(h: U32, s: seq<Byte>): U32
    decreases |s|
  {
    if s == [] then h else Fnv32(Step32(h, s[0]), s[1..])
  }

  function Fnv64(h: U64, s: seq<Byte>): U64
    decreases |s|
  {
    if s == [] then h else Fnv64(Step64(h, s[0]), s[1..])
  }

  /** hash_name: the key of a field is the hash of its whole name. */
  function HashName(name: seq<Byte>): U32
  {
    Fnv32(2166136261, name)
  }

  /** The loop of hash_name. */
  method HashNameLoop(name: seq<Byte>) returns (h: U32)
    ensures h == HashName(name)
  {
    h := 2166136261;
    for i := 0 to |name|
      invariant HashName(name) == Fnv32(h, name[i..])
    {
      assert name[i..][1..] == name[i + 1..];
      h := Step32(h, name[i]);
    }
  }

  lemma {:induction false} Fnv64Concat(h: U64, a: seq<Byte>, b: seq<Byte>)
    ensures Fnv64(h, a + b) == Fnv64(Fnv64(h, a), b)
    decreases |a|
  {
    if a == [] {
      assert a + b == b;
    } else {
      assert (a + b)[1..] == a[1..] + b;
      Fnv64Concat(Step64(h, a[0]), a[1..], b);
    }
  }

  method Fnv64Mix(h: U64, s: seq<Byte>) returns (r: U64)
    ensures r == Fnv64(h, s)
  {
    r := h;
    for i := 0 to |s|
      invariant Fnv64(h, s) == Fnv64(r, s[i..])
    {
      assert s[i..][1..] == s[i + 1..];
      r := Step64(r, s[i]);
    }
  }

  /** Fixed-width little-endian bytes, so equal values always hash equal bytes. */
  function LittleEndian(v: nat, n: nat): (s: seq<Byte>)
    ensures |s| == n
  {
    if n == 0 then [] else [v % 256] + LittleEndian(v / 256, n - 1)
  }

  lemma {:induction false} LittleEndianInjective(a: nat, b: nat, n: nat)
    requires a < Pow256(n) && b < Pow256(n)
    requires LittleEndian(a, n) == LittleEndian(b, n)
    ensures a == b
  {
    if n > 0 {
      var x, y := LittleEndian(a, n), LittleEndian(b, n);
      assert a % 256 == x[0] == y[0] == b % 256;
      assert LittleEndian(a / 256, n - 1) == x[1..] == y[1..] == LittleEndian(b / 256, n - 1);
      LittleEndianInjective(a / 256, b / 256, n - 1);
    }
  }

  /** The bytes entry_digest feeds to the hash, in order. */
  function EntryBytes(name: seq<Byte>, origin: U64, ts: U64, data: seq<Byte>): seq<Byte>
  {
    name + [0xFF] + LittleEndian(origin, 8) + LittleEndian(ts, 8) + LittleEndian(|data|, 8) + data
  }

  const FNV64_OFFSET_BASIS: U64 := 0xcbf29ce484222325

  function EntryHash(name: seq<Byte>, origin: U64, ts: U64, data: seq<Byte>): U64
  {
    Fnv64(FNV64_OFFSET_BASIS, EntryBytes(name, origin, ts, data))
  }

  /** entry_digest hashes piece by piece; the pieces are exactly EntryBytes. */
  method EntryDigest(name: seq<Byte>, origin: U64, ts: U64, data: seq<Byte>) returns (h: U64)
    ensures h == EntryHash(name, origin, ts, data)
  {
    ghost var a := name + [0xFF];
    ghost var b := a + LittleEndian(origin, 8);
    ghost var c := b + LittleEndian(ts, 8);
    ghost var d := c + LittleEndian(|data|, 8);
    var x := Fnv64Mix(FNV64_OFFSET_BASIS, name);
    Fnv64Concat(FNV64_OFFSET_BASIS, name, [0xFF]);
    x := Fnv64Mix(x, [0xFF]);
    Fnv64Concat(FNV64_OFFSET_BASIS, a, LittleEndian(origin, 8));
    x := Fnv64Mix(x, LittleEndian(origin, 8));
    Fnv64Concat(FNV64_OFFSET_BASIS, b, LittleEndian(ts, 8));
    x := Fnv64Mix(x, LittleEndian(ts, 8));
    Fnv64Concat(FNV64_OFFSET_BASIS, c, LittleEndian(|data|, 8));
    x := Fnv64Mix(x, LittleEndian(|data|, 8));
    Fnv64Concat(FNV64_OFFSET_BASIS, d, data);
    if |data| > 0 {
      x := Fnv64Mix(x, data);
    }
    h := x;
  }

  lemma EntryLayout(n: seq<Byte>, o: U64, t: U64, d: seq<Byte>)
    requires |d| < TWO_64
    ensures var e, k := EntryBytes(n, o, t, d), |n|;
      && |e| == k + 25 + |d| && e[..k] == n && e[k] == 0xFF && (forall i :: 0 <= i < k ==> e[i] == n[i])
      && e[k + 1..k + 9] == LittleEndian(o, 8) && e[k + 9..k + 17] == LittleEndian(t, 8) && e[k + 25..] == d
  {
    hide LittleEndian;
  }

  /** The hashed bytes determine the entry, for names free of the separator byte. */
  lemma EntryBytesInjective(n1: seq<Byte>, o1: U64, t1: U64, d1: seq<Byte>,
                            n2: seq<Byte>, o2: U64, t2: U64, d2: seq<Byte>)
    requires 0xFF !in n1 && 0xFF !in n2
    requires |d1| < TWO_64 && |d2| < TWO_64
    requires EntryBytes(n1, o1, t1, d1) == EntryBytes(n2, o2, t2, d2)
    ensures n1 == n2 && o1 == o2 && t1 == t2 && d1 == d2
  {
    hide LittleEndian;
    var e1, e2 := EntryBytes(n1, o1, t1, d1), EntryBytes(n2, o2, t2, d2);
    EntryLayout(n1, o1, t1, d1);
    EntryLayout(n2, o2, t2, d2);
    hide EntryBytes;
    assert |n1| == |n2|;
    Pow256Values();
    LittleEndianInjective(o1, o2, 8);
    LittleEndianInjective(t1, t2, 8);
  }
}
