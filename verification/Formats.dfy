/** Fixed bytes and hash values the encoders and hashes must produce: round trips alone would hold
    for any pair of tags, magics or constants changed on both sides. */
module Formats {
  import opened Bytes
  import opened Cbor
  import opened Hashing
  import opened Lww
  import opened Wire
  import opened Control
  import P = PlanBlob

  lemma XorKnown()
    ensures XorByte(0xC5, 0x61) == 0xA4 && XorByte(0x25, 0x61) == 0x44
  {
    assert (0xC5 as bv8) ^ (0x61 as bv8) == 0xA4;
    assert (0x25 as bv8) ^ (0x61 as bv8) == 0x44;
  }

  lemma StepKnown32()
    ensures Step32(0x811C9DC5, 0x61) == 0xE40C292C
  {
    hide XorByte;
    XorKnown();
    assert 0x811C9DC5 / 256 * 256 == 0x811C9D00 && 0x811C9DC5 % 256 == 0xC5;
    assert 0x811C9DA4 * 16777619 == 0x811D68 * TWO_32 + 0xE40C292C;
  }

  lemma StepKnown64()
    ensures Step64(0xCBF29CE484222325, 0x61) == 0xAF63DC4C8601EC8C
  {
    hide XorByte;
    XorKnown();
    assert 0xCBF29CE484222325 / 256 * 256 == 0xCBF29CE484222300 && 0xCBF29CE484222325 % 256 == 0x25;
    assert 0xCBF29CE484222344 * 0x100000001b3 == 0xCBF29CE5DE * TWO_64 + 0xAF63DC4C8601EC8C;
  }

  /** The published FNV-1a values of the empty text and of "a". */
  lemma KnownHashes()
    ensures HashName([]) == 0x811C9DC5 && HashName([0x61]) == 0xE40C292C
    ensures Fnv64(FNV64_OFFSET_BASIS, []) == 0xCBF29CE484222325
    ensures Fnv64(FNV64_OFFSET_BASIS, [0x61]) == 0xAF63DC4C8601EC8C
  {
    hide Step32, Step64;
    StepKnown32();
    StepKnown64();
    assert Fnv32(0x811C9DC5, [0x61]) == Fnv32(Step32(0x811C9DC5, 0x61), []);
    assert Fnv64(0xCBF29CE484222325, [0x61]) == Fnv64(Step64(0xCBF29CE484222325, 0x61), []);
  }

  lemma SmallLittleEndian(v: Byte)
    ensures LittleEndian(v, 8) == [v, 0, 0, 0, 0, 0, 0, 0]
  {
    assert LittleEndian(0, 3) == [0, 0, 0];
    assert LittleEndian(0, 7) == [0, 0, 0, 0] + LittleEndian(0, 3);
  }

  /** The bytes of one entry as the digest takes them: name, separator, origin, timestamp, length
      and payload. */
  lemma KnownEntry()
    ensures EntryBytes([0x67], 5, 9, [0xAA]) ==
            [0x67, 0xFF, 5, 0, 0, 0, 0, 0, 0, 0, 9, 0, 0, 0, 0, 0, 0, 0, 1, 0, 0, 0, 0, 0, 0, 0, 0xAA]
  {
    hide LittleEndian;
    SmallLittleEndian(5);
    SmallLittleEndian(9);
    SmallLittleEndian(1);
  }

  /** The control frames of node 5. */
  lemma KnownControl()
    ensures EncIndexRequest(5) == [0x46, 0x58, 2, 0x83, 0, 5, 0x80]
    ensures EncIndexReply(5, [IndexEntry(7, 300)]) == [0x46, 0x58, 2, 0x83, 1, 5, 0x81, 0x82, 7, 0x19, 1, 0x2C]
    ensures EncValueRequest(5, [7]) == [0x46, 0x58, 2, 0x83, 2, 5, 0x81, 7]
  {
    assert EncUint(300) == [0x19, 1, 0x2C];
    assert EncEntries([IndexEntry(7, 300)]) == EncEntry(IndexEntry(7, 300)) + EncEntries([]);
    assert EncHashes([7]) == EncUint(7) + EncHashes([]);
  }

  /** A shared record, a tombstone of a node's own stream, and a frame header. */
  lemma KnownGossip()
    ensures EncRecord(Rec([0x67], 2, 9, false, [0xAA]), true) == [0x85, 2, 0xF4, 0x61, 0x67, 9, 0x41, 0xAA]
    ensures EncRecord(Rec([0x67], 2, 9, true, []), false) == [0x84, 0xF5, 0x61, 0x67, 9, 0x40]
    ensures EncHeader(1, 2, 9, 3, 4) == [0x46, 0x47, 5, 0x85, 1, 2, 9, 3, 0x84]
  {}

  lemma ShortText(b: Byte)
    ensures P.EncStr([b]) == [0x61, b]
  {}

  lemma SmallNumber(ieee: Ieee, n: nat)
    requires n < 24
    ensures EncNum(ieee, n as real) == [n]
  {}

  lemma OneText(b: Byte)
    ensures P.EncList([[b]], P.EncStr) == [0x81, 0x61, b]
  {
    var xs := [[b]];
    assert xs[..0] == [];
    assert P.EncEach(xs, P.EncStr) == P.EncEach(xs[..0], P.EncStr) + P.EncStr(xs[0]);
    ShortText(b);
  }

  lemma OnePoint(ieee: Ieee)
    ensures P.EncPoints(ieee, [P.Point(6.0, 7.0)]) == [0x81, 0x82, 6, 7]
  {
    SmallNumber(ieee, 6);
    SmallNumber(ieee, 7);
    hide EncNum;
    var xs := [P.Point(6.0, 7.0)];
    var enc := (p: P.Point) => P.EncPoint(ieee, p);
    assert xs[..0] == [];
    assert P.EncEach(xs, enc) == P.EncEach(xs[..0], enc) + P.EncPoint(ieee, xs[0]);
  }

  /** The entries of a plan blob, with every field told apart. */
  lemma KnownAction(ieee: Ieee)
    ensures P.EncAction(ieee, P.Action([1], [2], [3], [4], 5.0, [6], [[7]], [[8]]))
         == [0x88, 0x61, 1, 0x61, 2, 0x61, 3, 0x61, 4, 5, 0x61, 6, 0x81, 0x61, 7, 0x81, 0x61, 8]
  {
    hide EncNum, P.EncStr, P.EncList;
    ShortText(1);
    ShortText(2);
    ShortText(3);
    ShortText(4);
    SmallNumber(ieee, 5);
    ShortText(6);
    OneText(7);
    OneText(8);
  }

  lemma KnownGoal(ieee: Ieee)
    ensures P.EncGoal(ieee, P.Goal([1], [2], [3], 4.0, [5])) == [0x85, 0x61, 1, 0x61, 2, 0x61, 3, 4, 0x61, 5]
  {
    hide EncNum, P.EncStr;
    ShortText(1);
    ShortText(2);
    ShortText(3);
    SmallNumber(ieee, 4);
    ShortText(5);
  }

  lemma KnownCurve(ieee: Ieee)
    ensures P.EncUtility(ieee, P.Utility([1], [2], [3], 4.0, 5.0, [P.Point(6.0, 7.0)]))
         == [0x87, 0x61, 1, 0x61, 2, 0x61, 3, 4, 5, 0x81, 0x82, 6, 7]
  {
    hide EncNum, P.EncStr, P.EncPoints;
    ShortText(1);
    ShortText(2);
    ShortText(3);
    SmallNumber(ieee, 4);
    SmallNumber(ieee, 5);
    OnePoint(ieee);
  }

  lemma KnownMission()
    ensures P.EncMission(P.Mission([1], [2], [[3]], [4])) == [0x84, 0x61, 1, 0x61, 2, 0x81, 0x61, 3, 0x61, 4]
  {
    hide P.EncStr, P.EncList;
    ShortText(1);
    ShortText(2);
    OneText(3);
    ShortText(4);
  }

  lemma KnownBlob(ieee: Ieee)
    ensures P.EncBlob(ieee, P.Goap([1], [], [], [], [])) == [0x46, 0x50, 2, 0x85, 0x61, 1, 0x80, 0x80, 0x80, 0x80]
  {
    hide P.EncStr, P.EncActions, P.EncGoals, P.EncUtilities, P.EncMissions;
    ShortText(1);
    NoEntries(ieee);
  }

  lemma NoEntries(ieee: Ieee)
    ensures P.EncActions(ieee, []) == [0x80] && P.EncGoals(ieee, []) == [0x80]
    ensures P.EncUtilities(ieee, []) == [0x80] && P.EncMissions([]) == [0x80]
  {}
}
