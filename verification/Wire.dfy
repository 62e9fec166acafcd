/** Gossip frames, version 5: 'F' 'G' 5 followed by the CBOR array
    [sender, owner, high-water mark, digest, records]. A record of the shared stream is
    [origin, tombstone, name, timestamp, data]; a record of a node's own stream has no
    origin. */
module Wire {
  import opened Bytes
  import opened Cbor
  import opened Lww

  const MAGIC: seq<Byte> := [0x46, 0x47, 5]

  // ----- Encoding ------------------------------------------------------------------

  predicate Encodable(r: Rec)
  {
    |r.name| < TWO_64 && |r.data| < TWO_64
  }

  function EncRecord(r: Rec, shared: bool): (e: seq<Byte>)
    requires Encodable(r)
    ensures |e| == RecordSize(r, shared)
  {
    EncMeta(r, shared) + EncText(r.name) + EncUint(r.ts) + EncBytes(r.data)
  }

  function EncMeta(r: Rec, shared: bool): seq<Byte>
  {
    EncArray(if shared then 5 else 4) + (if shared then EncUint(r.origin) else []) + EncBool(r.tomb)
  }

  /** The size every exporter measures before it writes a record. */
  function RecordSize(r: Rec, shared: bool): (n: nat)
    requires Encodable(r)
  {
    UintSize(if shared then 5 else 4) + (if shared then UintSize(r.origin) else 0)
    + 1 + StringSize(|r.name|) + UintSize(r.ts) + StringSize(|r.data|)
  }

  function EncRecords(rs: seq<Rec>, shared: bool): (e: seq<Byte>)
    requires forall r :: r in rs ==> Encodable(r)
  {
    if rs == [] then [] else EncRecords(rs[..|rs| - 1], shared) + EncRecord(rs[|rs| - 1], shared)
  }

  function EncHeader(sender: U64, owner: U64, hw: U64, digest: U64, count: U64): seq<Byte>
  {
    MAGIC + EncArray(5) + EncUint(sender) + EncUint(owner) + EncUint(hw) + EncUint(digest) + EncArray(count)
  }

  function EncFrame(sender: U64, owner: U64, hw: U64, digest: U64, rs: seq<Rec>): seq<Byte>
    requires |rs| < TWO_64
    requires forall r :: r in rs ==> Encodable(r)
  {
    EncHeader(sender, owner, hw, digest, |rs|) + EncRecords(rs, owner == SHARED_OWNER)
  }

  // ----- Decoding ------------------------------------------------------------------

  datatype ParsedRec = NoRec | ParsedRec(rec: Rec, next: nat)

  /** The name a receiver works with: at most 63 bytes, cut at the first NUL. */
  function ReceivedName(text: seq<Byte>): (n: seq<Byte>)
    ensures |n| <= NAME_CAP && 0 !in n
  {
    CString(StoredName(text))
  }

  /** One round of the record loop of import_impl, up to the merge. Without a record this
      is the failing return. */
  function ReadRecord(b: seq<Byte>, pos: nat, owner: U64): (p: ParsedRec)
    ensures p.ParsedRec? ==> pos < p.next <= |b|
    ensures p.ParsedRec? ==> 0 !in p.rec.name && |p.rec.data| <= |b| && (p.rec.tomb ==> p.rec.data == [])
    ensures p.ParsedRec? && owner != SHARED_OWNER ==> p.rec.origin == owner
  {
    var shared := owner == SHARED_OWNER;
    var a := ReadHead(b, pos);
    if a.NoHead? || a.major != 4 || a.value != (if shared then 5 else 4) then NoRec else
    var o := if shared then ReadHead(b, a.next) else Head(0, owner, a.next);
    if o.NoHead? || o.major != 0 then NoRec else
    var t := ReadHead(b, o.next);
    if t.NoHead? || t.major != 7 || (t.value != 20 && t.value != 21) then NoRec else
    var n := ReadString(b, t.next, 3);
    if n.NoStr? then NoRec else
    var s := ReadHead(b, n.next);
    if s.NoHead? || s.major != 0 then NoRec else
    var d := ReadString(b, s.next, 2);
    if d.NoStr? then NoRec else
    var tomb := t.value == 21;
    ParsedRec(Rec(ReceivedName(n.bytes), o.value, s.value, tomb, if tomb then [] else d.bytes), d.next)
  }

  datatype ParsedRecs = ParsedRecs(recs: seq<Rec>, complete: bool)

  /** The record loop: stops at the first record that does not parse. Termination is by
      remaining bytes, so an absurd claimed count is harmless. */
  function ReadRecords(b: seq<Byte>, pos: nat, owner: U64, count: nat): (p: ParsedRecs)
    decreases |b| - pos
  {
    if count == 0 then ParsedRecs([], true) else
    var r := ReadRecord(b, pos, owner);
    if r.NoRec? then ParsedRecs([], false) else
    var rest := ReadRecords(b, r.next, owner, count - 1);
    ParsedRecs([r.rec] + rest.recs, rest.complete)
  }

  datatype Parsed =
    | Rejected
    | Parsed(sender: U64, owner: U64, digest: U64, recs: seq<Rec>, complete: bool)

  /** import_impl as a parser, run by node `self`. */
  function ParseFrame(b: seq<Byte>, self: U64): (p: Parsed)
  {
    if |b| < 3 || b[..3] != MAGIC then Rejected else
    var a := ReadHead(b, 3);
    if a.NoHead? || a.major != 4 || a.value != 5 then Rejected else
    var s := ReadHead(b, a.next);
    if s.NoHead? || s.major != 0 || s.value == self || s.value == SHARED_OWNER then Rejected else
    var o := ReadHead(b, s.next);
    if o.NoHead? || o.major != 0 || (o.value != SHARED_OWNER && o.value == self) then Rejected else
    var h := ReadHead(b, o.next);
    if h.NoHead? || h.major != 0 then Rejected else
    var d := ReadHead(b, h.next);
    if d.NoHead? || d.major != 0 then Rejected else
    var c := ReadHead(b, d.next);
    if c.NoHead? || c.major != 4 then Rejected else
    var rs := ReadRecords(b, c.next, o.value, c.value);
    Parsed(s.value, o.value, d.value, rs.recs, rs.complete)
  }

  // ----- Round trip --------------------------------------------------------------------

  /** A record as its own stream carries it. */
  predicate InStream(r: Rec, owner: U64)
  {
    Proper(r) && (owner != SHARED_OWNER ==> r.origin == owner)
  }

  lemma ProperName(r: Rec)
    requires Proper(r)
    ensures ReceivedName(r.name) == r.name
  {
    CStringIdentity(r.name);
  }

  lemma RecordRoundTrip(b: seq<Byte>, pos: nat, r: Rec, owner: U64)
    requires InStream(r, owner)
    requires At(b, pos, EncRecord(r, owner == SHARED_OWNER))
    ensures ReadRecord(b, pos, owner) == ParsedRec(r, pos + RecordSize(r, owner == SHARED_OWNER))
  {
    hide ReadHead, EncHead, ReadString, At, ReceivedName;
    var shared := owner == SHARED_OWNER;
    var e1 := EncArray(if shared then 5 else 4);
    var e2 := if shared then EncUint(r.origin) else [];
    var e3 := EncBool(r.tomb);
    var e4 := EncText(r.name);
    var e5 := EncUint(r.ts);
    var e6 := EncBytes(r.data);
    AtConcat(b, pos, e1 + e2 + e3 + e4 + e5, e6);
    AtConcat(b, pos, e1 + e2 + e3 + e4, e5);
    AtConcat(b, pos, e1 + e2 + e3, e4);
    AtConcat(b, pos, e1 + e2, e3);
    AtConcat(b, pos, e1, e2);
    var p1 := pos + |e1|;
    var p2 := p1 + |e2|;
    HeadRoundTrip(b, pos, 4, if shared then 5 else 4);
    if shared {
      HeadRoundTrip(b, p1, 0, r.origin);
    }
    BoolRoundTrip(b, p2, r.tomb);
    StringRoundTrip(b, p2 + 1, 3, r.name);
    HeadRoundTrip(b, p2 + 1 + |e4|, 0, r.ts);
    StringRoundTrip(b, p2 + 1 + |e4| + |e5|, 2, r.data);
    ProperName(r);
  }

  lemma {:induction false} EncRecordsFirst(rs: seq<Rec>, shared: bool)
    requires rs != []
    requires forall r :: r in rs ==> Encodable(r)
    ensures EncRecords(rs, shared) == EncRecord(rs[0], shared) + EncRecords(rs[1..], shared)
    decreases |rs|
  {
    hide EncRecord, Encodable, RecordSize;
    var init := rs[..|rs| - 1];
    if |rs| > 1 {
      EncRecordsFirst(init, shared);
      assert init[1..] == rs[1..][..|rs| - 2];
      assert rs[1..][|rs| - 2] == rs[|rs| - 1];
    } else {
      assert EncRecords(init, shared) == [];
      assert EncRecords(rs[1..], shared) == [];
    }
  }

  lemma {:induction false} RecordsRoundTrip(b: seq<Byte>, pos: nat, rs: seq<Rec>, owner: U64)
    requires forall r :: r in rs ==> InStream(r, owner) && Encodable(r)
    requires At(b, pos, EncRecords(rs, owner == SHARED_OWNER))
    ensures ReadRecords(b, pos, owner, |rs|) == ParsedRecs(rs, true)
    decreases |rs|
  {
    hide EncRecord, ReadRecord, At, InStream, Encodable, RecordSize;
    if rs != [] {
      var shared := owner == SHARED_OWNER;
      assert rs[0] in rs;
      EncRecordsFirst(rs, shared);
      AtConcat(b, pos, EncRecord(rs[0], shared), EncRecords(rs[1..], shared));
      RecordRoundTrip(b, pos, rs[0], owner);
      RecordsRoundTrip(b, pos + RecordSize(rs[0], shared), rs[1..], owner);
      assert rs == [rs[0]] + rs[1..];
    }
  }

  lemma MagicAt(b: seq<Byte>)
    requires At(b, 0, MAGIC)
    ensures |b| >= 3 && b[..3] == MAGIC
  {}

  /** The items of a header, read back one after the other. */
  lemma HeaderItems(b: seq<Byte>, sender: U64, owner: U64, hw: U64, digest: U64, count: U64)
    requires At(b, 0, EncHeader(sender, owner, hw, digest, count))
    ensures |b| >= 3 && b[..3] == MAGIC && ReadHead(b, 3) == Head(4, 5, 4)
    ensures var p := 4 + UintSize(sender);
            var q := p + UintSize(owner);
            var r := q + UintSize(hw);
            var t := r + UintSize(digest);
            && ReadHead(b, 4) == Head(0, sender, p) && ReadHead(b, p) == Head(0, owner, q)
            && ReadHead(b, q) == Head(0, hw, r) && ReadHead(b, r) == Head(0, digest, t)
            && ReadHead(b, t) == Head(4, count, |EncHeader(sender, owner, hw, digest, count)|)
  {
    hide ReadHead, EncHead, At, UintSize;
    var e2, e3, e4, e5, e6, e7 :=
      EncArray(5), EncUint(sender), EncUint(owner), EncUint(hw), EncUint(digest), EncArray(count);
    AtConcat(b, 0, MAGIC + e2 + e3 + e4 + e5 + e6, e7);
    AtConcat(b, 0, MAGIC + e2 + e3 + e4 + e5, e6);
    AtConcat(b, 0, MAGIC + e2 + e3 + e4, e5);
    AtConcat(b, 0, MAGIC + e2 + e3, e4);
    AtConcat(b, 0, MAGIC + e2, e3);
    AtConcat(b, 0, MAGIC, e2);
    MagicAt(b);
    SmallHead();
    HeadRoundTrip(b, 3, 4, 5);
    HeadRoundTrip(b, 4, 0, sender);
    HeadRoundTrip(b, 4 + |e3|, 0, owner);
    HeadRoundTrip(b, 4 + |e3| + |e4|, 0, hw);
    HeadRoundTrip(b, 4 + |e3| + |e4| + |e5|, 0, digest);
    HeadRoundTrip(b, 4 + |e3| + |e4| + |e5| + |e6|, 4, count);
  }

  lemma SmallHead()
    ensures UintSize(5) == 1
  {}

  lemma HeaderRoundTrip(b: seq<Byte>, self: U64, sender: U64, owner: U64, hw: U64, digest: U64, count: U64)
    requires At(b, 0, EncHeader(sender, owner, hw, digest, count))
    requires owner == SHARED_OWNER || owner != self
    ensures if sender == self || sender == SHARED_OWNER then ParseFrame(b, self) == Rejected
            else var rs := ReadRecords(b, |EncHeader(sender, owner, hw, digest, count)|, owner, count);
                 ParseFrame(b, self) == Parsed(sender, owner, digest, rs.recs, rs.complete)
  {
    hide ReadHead, EncHeader, At, ReadRecords, UintSize, EncHead;
    HeaderItems(b, sender, owner, hw, digest, count);
  }

  /** What a receiver parses is what the sender packed; a node's own frame is refused. */
  lemma FrameRoundTrip(self: U64, sender: U64, owner: U64, hw: U64, digest: U64, rs: seq<Rec>)
    requires |rs| < TWO_64
    requires owner == SHARED_OWNER || owner != self
    requires forall r :: r in rs ==> InStream(r, owner) && Encodable(r)
    ensures ParseFrame(EncFrame(sender, owner, hw, digest, rs), self) ==
            if sender == self || sender == SHARED_OWNER then Rejected else Parsed(sender, owner, digest, rs, true)
  {
    hide ParseFrame, EncHeader, EncRecords, ReadRecords;
    var b := EncFrame(sender, owner, hw, digest, rs);
    var h := EncHeader(sender, owner, hw, digest, |rs|);
    assert At(b, 0, h + EncRecords(rs, owner == SHARED_OWNER));
    AtConcat(b, 0, h, EncRecords(rs, owner == SHARED_OWNER));
    HeaderRoundTrip(b, self, sender, owner, hw, digest, |rs|);
    RecordsRoundTrip(b, |h|, rs, owner);
  }

  // ----- Malformed frames -----------------------------------------------------------------

  /** `rs` can be read one after the other from `pos`, ending at `end`. */
  predicate Chain(b: seq<Byte>, pos: nat, owner: U64, rs: seq<Rec>, end: nat)
    decreases |rs|
  {
    if rs == [] then pos == end else
      var r := ReadRecord(b, pos, owner);
      r.ParsedRec? && r.rec == rs[0] && Chain(b, r.next, owner, rs[1..], end)
  }

  /** The records taken from a frame are its longest well-formed prefix: they can be read
      one after the other, every other readable run within the claimed count is a prefix of
      them, and the loop reports completion exactly when it read the claimed count. */
  lemma {:induction false} LongestPrefix(b: seq<Byte>, pos: nat, owner: U64, count: nat)
    ensures var p := ReadRecords(b, pos, owner, count);
            && |p.recs| <= count && (p.complete <==> |p.recs| == count)
            && (exists end :: Chain(b, pos, owner, p.recs, end))
            && (pos <= |b| ==> |p.recs| <= |b| - pos)
            && forall rs, end | |rs| <= count && Chain(b, pos, owner, rs, end) :: rs <= p.recs
    decreases |b| - pos
  {
    hide ReadRecord;
    var p := ReadRecords(b, pos, owner, count);
    if count == 0 {
      assert Chain(b, pos, owner, p.recs, pos);
    } else {
      var r := ReadRecord(b, pos, owner);
      if r.NoRec? {
        assert Chain(b, pos, owner, p.recs, pos);
      } else {
        LongestPrefix(b, r.next, owner, count - 1);
        var q := ReadRecords(b, r.next, owner, count - 1);
        var end :| Chain(b, r.next, owner, q.recs, end);
        assert p.recs[1..] == q.recs;
        assert Chain(b, pos, owner, p.recs, end);
        forall rs, end' | |rs| <= count && Chain(b, pos, owner, rs, end') ensures rs <= p.recs {
          if rs != [] {
            assert Chain(b, r.next, owner, rs[1..], end');
            assert rs == [r.rec] + rs[1..];
          }
        }
      }
    }
  }

  // ----- Parsing with the head reader ------------------------------------------------------------

  method ReadStringLoop(b: seq<Byte>, pos: nat, major: Major) returns (s: Str)
    ensures s == ReadString(b, pos, major)
  {
    hide ReadHead;
    var h := ReadHeadLoop(b, pos);
    if h.NoHead? || h.major != major || !BoundsOk(h.next, h.value, |b|) { return NoStr; }
    s := Str(b[h.next..h.next + h.value], h.next + h.value);
  }

  method ReadRecordLoop(b: seq<Byte>, pos: nat, owner: U64) returns (p: ParsedRec)
    ensures p == ReadRecord(b, pos, owner)
  {
    hide ReadHead, ReadString, ReceivedName;
    var shared := owner == SHARED_OWNER;
    var a := ReadHeadLoop(b, pos);
    if a.NoHead? || a.major != 4 || a.value != (if shared then 5 else 4) { return NoRec; }
    var o := Head(0, owner, a.next);
    if shared {
      o := ReadHeadLoop(b, a.next);
      if o.NoHead? || o.major != 0 { return NoRec; }
    }
    var t := ReadHeadLoop(b, o.next);
    if t.NoHead? || t.major != 7 || (t.value != 20 && t.value != 21) { return NoRec; }
    var n := ReadStringLoop(b, t.next, 3);
    if n.NoStr? { return NoRec; }
    var s := ReadHeadLoop(b, n.next);
    if s.NoHead? || s.major != 0 { return NoRec; }
    var d := ReadStringLoop(b, s.next, 2);
    if d.NoStr? { return NoRec; }
    var tomb := t.value == 21;
    p := ParsedRec(Rec(ReceivedName(n.bytes), o.value, s.value, tomb, if tomb then [] else d.bytes), d.next);
  }

  // ----- Writing into a buffer ----------------------------------------------------------------

  method WriteMeta(buf: array<Byte>, pos: nat, r: Rec, shared: bool) returns (next: nat)
    requires pos + |EncMeta(r, shared)| <= buf.Length
    modifies buf
    ensures next == pos + |EncMeta(r, shared)|
    ensures buf[..next] == old(buf[..pos]) + EncMeta(r, shared)
  {
    hide EncHead, UintSize;
    ghost var pre := buf[..pos];
    next := WriteHead(buf, pos, 4, if shared then 5 else 4);
    ghost var e := EncArray(if shared then 5 else 4);
    if shared {
      next := WriteHead(buf, next, 0, r.origin);
      assert buf[..next] == pre + (e + EncUint(r.origin));
      e := e + EncUint(r.origin);
    }
    next := WriteRaw(buf, next, EncBool(r.tomb));
    assert buf[..next] == pre + (e + EncBool(r.tomb));
    assert EncMeta(r, shared) == e + EncBool(r.tomb);
  }

  method WriteRecord(buf: array<Byte>, pos: nat, r: Rec, shared: bool) returns (next: nat)
    requires Encodable(r) && pos + RecordSize(r, shared) <= buf.Length
    modifies buf
    ensures next == pos + RecordSize(r, shared)
    ensures buf[..next] == old(buf[..pos]) + EncRecord(r, shared)
  {
    hide EncHead, UintSize;
    ghost var pre := buf[..pos];
    assert |EncMeta(r, shared)| + StringSize(|r.name|) + UintSize(r.ts) + StringSize(|r.data|) == RecordSize(r, shared);
    next := WriteMeta(buf, pos, r, shared);
    hide EncMeta, RecordSize;
    ghost var e := EncMeta(r, shared);
    next := WriteString(buf, next, 3, r.name);
    assert buf[..next] == pre + (e + EncText(r.name));
    e := e + EncText(r.name);
    next := WriteHead(buf, next, 0, r.ts);
    assert buf[..next] == pre + (e + EncUint(r.ts));
    e := e + EncUint(r.ts);
    next := WriteString(buf, next, 2, r.data);
    assert buf[..next] == pre + (e + EncBytes(r.data));
  }

  method WriteHeader(buf: array<Byte>, sender: U64, owner: U64, hw: U64, digest: U64, count: U64) returns (next: nat)
    requires |EncHeader(sender, owner, hw, digest, count)| <= buf.Length
    modifies buf
    ensures next == |EncHeader(sender, owner, hw, digest, count)|
    ensures buf[..next] == EncHeader(sender, owner, hw, digest, count)
  {
    hide EncHead;
    next := WriteRaw(buf, 0, MAGIC);
    assert buf[..next] == MAGIC;
    next := WriteHead(buf, next, 4, 5);
    next := WriteHead(buf, next, 0, sender);
    next := WriteHead(buf, next, 0, owner);
    next := WriteHead(buf, next, 0, hw);
    next := WriteHead(buf, next, 0, digest);
    next := WriteHead(buf, next, 4, count);
  }
}
