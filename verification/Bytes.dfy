/** Machine-sized values used across the model. Integers are unbounded in Dafny, so every
    width of the C code is a subset type and every truncation is written out. */
module Bytes {

  const TWO_32: int := 0x1_0000_0000
  const TWO_64: int := 0x1_0000_0000_0000_0000

  type Byte = x: int | 0 <= x < 0x100
  type U32 = x: int | 0 <= x < 0x1_0000_0000
  type U64 = x: int | 0 <= x < 0x1_0000_0000_0000_0000

  /** FLEECE_SHARED_OWNER_ID: the reserved owner of shared ("world") fields. */
  const SHARED_OWNER: U64 := 0

  /** FLEECE_FIELD_NAME_MAX - 1: the longest name a slot can store. */
  const NAME_CAP: nat := 63

  datatype Option<+T> = None | Some(value: T)

  /** `e` stands at position `pos` of `b`. */
  predicate At(b: seq<Byte>, pos: nat, e: seq<Byte>)
  {
    pos + |e| <= |b| && b[pos..pos + |e|] == e
  }

  lemma Assoc<T>(p: seq<T>, c: seq<T>, e: seq<T>)
    ensures p + c + e == p + (c + e)
  {}

  lemma AtConcat(b: seq<Byte>, pos: nat, e1: seq<Byte>, e2: seq<Byte>)
    ensures At(b, pos, e1 + e2) <==> At(b, pos, e1) && At(b, pos + |e1|, e2)
  {
    var e := e1 + e2;
    if At(b, pos, e) {
      assert b[pos..pos + |e1|] == e[..|e1|];
      assert b[pos + |e1|..pos + |e|] == e[|e1|..];
    }
    if At(b, pos, e1) && At(b, pos + |e1|, e2) {
      assert b[pos..pos + |e|] == b[pos..pos + |e1|] + b[pos + |e1|..pos + |e|];
    }
  }

  /** What C string functions see of a byte buffer: everything before the first NUL. */
  function CString(s: seq<Byte>): (r: seq<Byte>)
    ensures r <= s
    ensures 0 !in r
    ensures |r| < |s| ==> s[|r|] == 0
  {
    if s == [] || s[0] == 0 then [] else [s[0]] + CString(s[1..])
  }

  lemma {:induction false} CStringIdentity(s: seq<Byte>)
    requires 0 !in s
    ensures CString(s) == s
  {
    if s != [] {
      assert s[0] in s;
      CStringIdentity(s[1..]);
    }
  }

  /** strncpy into a 64-byte name field. */
  function StoredName(name: seq<Byte>): (r: seq<Byte>)
    ensures r <= name && |r| <= NAME_CAP
    ensures |name| <= NAME_CAP ==> r == name
    ensures name != [] ==> r != []
  {
    if |name| <= NAME_CAP then name else name[..NAME_CAP]
  }
}
