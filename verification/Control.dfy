/** The repair control frames, version 2: 'F' 'X' 2 followed by the CBOR array
    [tag, origin, items]. Tag 0 asks for an index, tag 1 answers it with [key hash, timestamp]
    pairs, tag 2 asks for values by key hash. */
module Control {
  import opened Bytes
  import opened Cbor

  const CONTROL_MAGIC: seq<Byte> := [0x46, 0x58, 2]

  /** FLEECE_MAX_RESYNC_TARGETS * 4, the entries a receiver keeps of an index reply. */
  const MAX_INDEX: nat := 128

  /** FLEECE_MAX_FETCH_KEYS */
  const MAX_FETCH: nat := 64

  datatype IndexEntry = IndexEntry(key: U64, ts: U64)

  // ----- Encoding ------------------------------------------------------------------------

  function EncPrefix(tag: U64, origin: U64, count: U64): seq<Byte>
  {
    CONTROL_MAGIC + EncArray(3) + EncUint(tag) + EncUint(origin) + EncArray(count)
  }

  function EncEntry(e: IndexEntry): seq<Byte>
  {
    EncArray(2) + EncUint(e.key) + EncUint(e.ts)
  }

  function EncEntries(es: seq<IndexEntry>): seq<Byte>
  {
    if es == [] then [] else EncEntry(es[0]) + EncEntries(es[1..])
  }

  lemma {:induction false} EncEntriesSnoc(es: seq<IndexEntry>, e: IndexEntry)
    ensures EncEntries(es + [e]) == EncEntries(es) + EncEntry(e)
    decreases |es|
  {
    hide EncEntry;
    if es == [] {
      assert es + [e] == [e];
      assert EncEntries([e]) == EncEntry(e) + EncEntries([]);
    } else {
      assert (es + [e])[1..] == es[1..] + [e];
      EncEntriesSnoc(es[1..], e);
    }
  }

  /** Writes one index entry; at most 1 + 5 + 9 bytes for a 32-bit key. */
  method WriteEntry(buf: array<Byte>, pos: nat, e: IndexEntry) returns (next: nat)
    requires e.key < TWO_32 && pos + 15 <= buf.Length
    modifies buf
    ensures next <= pos + 15
    ensures buf[..next] == old(buf[..pos]) + EncEntry(e)
  {
    hide EncHead;
    ghost var pre := buf[..pos];
    next := WriteHead(buf, pos, 4, 2);
    next := WriteHead(buf, next, 0, e.key);
    assert buf[..next] == pre + (EncArray(2) + EncUint(e.key));
    next := WriteHead(buf, next, 0, e.ts);
    assert buf[..next] == pre + (EncArray(2) + EncUint(e.key) + EncUint(e.ts));
  }

  method WritePrefix(buf: array<Byte>, tag: U64, origin: U64, count: U64) returns (next: nat)
    requires |EncPrefix(tag, origin, count)| <= buf.Length
    modifies buf
    ensures next == |EncPrefix(tag, origin, count)|
    ensures buf[..next] == EncPrefix(tag, origin, count)
  {
    hide EncHead;
    next := WriteRaw(buf, 0, CONTROL_MAGIC);
    assert buf[..next] == CONTROL_MAGIC;
    next := WriteHead(buf, next, 4, 3);
    next := WriteHead(buf, next, 0, tag);
    next := WriteHead(buf, next, 0, origin);
    next := WriteHead(buf, next, 4, count);
  }

  function EncHashes(hs: seq<U32>): seq<Byte>
  {
    if hs == [] then [] else EncUint(hs[0]) + EncHashes(hs[1..])
  }

  function EncIndexRequest(origin: U64): seq<Byte> { EncPrefix(0, origin, 0) }

  function EncIndexReply(origin: U64, es: seq<IndexEntry>): seq<Byte>
    requires |es| < TWO_64
  {
    EncPrefix(1, origin, |es|) + EncEntries(es)
  }

  function EncValueRequest(origin: U64, hs: seq<U32>): seq<Byte>
    requires |hs| < TWO_64
  {
    EncPrefix(2, origin, |hs|) + EncHashes(hs)
  }

  // ----- Decoding ------------------------------------------------------------------------

  datatype Message =
    | BadControl
    | IndexRequest(origin: U64)
    | IndexReply(origin: U64, entries: seq<IndexEntry>)
    | ValueRequest(origin: U64, hashes: seq<U32>)

  datatype Entries = BadEntries | Entries(list: seq<IndexEntry>)

  /** The index loop keeps at most `room` entries; a malformed entry voids the frame. */
  function ReadEntries(b: seq<Byte>, pos: nat, items: nat, room: nat): (r: Entries)
    ensures r.Entries? ==> |r.list| <= room
    decreases room
  {
    if items == 0 || room == 0 then Entries([]) else
    var a := ReadHead(b, pos);
    if a.NoHead? || a.major != 4 || a.value != 2 then BadEntries else
    var k := ReadHead(b, a.next);
    if k.NoHead? || k.major != 0 then BadEntries else
    var t := ReadHead(b, k.next);
    if t.NoHead? || t.major != 0 then BadEntries else
    var rest := ReadEntries(b, t.next, items - 1, room - 1);
    if rest.BadEntries? then BadEntries else Entries([IndexEntry(k.value, t.value)] + rest.list)
  }

  datatype Hashes = BadHashes | Hashes(list: seq<U32>)

  /** The value-request loop keeps at most `room` hashes and skips those above 32 bits. */
  function ReadHashes(b: seq<Byte>, pos: nat, items: nat, room: nat): (r: Hashes)
    ensures r.Hashes? ==> |r.list| <= room
    decreases |b| - pos
  {
    if items == 0 || room == 0 then Hashes([]) else
    var h := ReadHead(b, pos);
    if h.NoHead? || h.major != 0 then BadHashes else
    var keep := h.value <= 0xFFFF_FFFF;
    var rest := ReadHashes(b, h.next, items - 1, if keep then room - 1 else room);
    if rest.BadHashes? then BadHashes else Hashes((if keep then [h.value] else []) + rest.list)
  }

  /** The parsing part of handle_fx_frame; the three prefix bytes were matched by the caller. */
  function ParseControl(b: seq<Byte>): (c: Message)
    ensures c.IndexReply? ==> |c.entries| <= MAX_INDEX
    ensures c.ValueRequest? ==> |c.hashes| <= MAX_FETCH
  {
    if |b| < 3 || b[..3] != CONTROL_MAGIC then BadControl else
    var a := ReadHead(b, 3);
    if a.NoHead? || a.major != 4 || a.value != 3 then BadControl else
    var t := ReadHead(b, a.next);
    if t.NoHead? || t.major != 0 then BadControl else
    var o := ReadHead(b, t.next);
    if o.NoHead? || o.major != 0 then BadControl else
    var n := ReadHead(b, o.next);
    if n.NoHead? || n.major != 4 then BadControl else
    if t.value == 0 then IndexRequest(o.value)
    else if t.value == 2 then
      var hs := ReadHashes(b, n.next, n.value, MAX_FETCH);
      if hs.BadHashes? then BadControl else ValueRequest(o.value, hs.list)
    else if t.value == 1 then
      var es := ReadEntries(b, n.next, n.value, MAX_INDEX);
      if es.BadEntries? then BadControl else IndexReply(o.value, es.list)
    else BadControl
  }

  // ----- Round trips ------------------------------------------------------------------------

  lemma {:induction false} EntriesRoundTrip(b: seq<Byte>, pos: nat, es: seq<IndexEntry>, room: nat)
    requires At(b, pos, EncEntries(es)) && |es| <= room
    ensures ReadEntries(b, pos, |es|, room) == Entries(es)
    decreases |es|
  {
    hide ReadHead, EncHead, At, UintSize;
    if es != [] {
      var e := es[0];
      AtConcat(b, pos, EncEntry(e), EncEntries(es[1..]));
      AtConcat(b, pos, EncArray(2) + EncUint(e.key), EncUint(e.ts));
      AtConcat(b, pos, EncArray(2), EncUint(e.key));
      var p := pos + UintSize(2);
      HeadRoundTrip(b, pos, 4, 2);
      HeadRoundTrip(b, p, 0, e.key);
      HeadRoundTrip(b, p + UintSize(e.key), 0, e.ts);
      EntriesRoundTrip(b, p + UintSize(e.key) + UintSize(e.ts), es[1..], room - 1);
      assert es == [e] + es[1..];
    }
  }

  lemma {:induction false} HashesRoundTrip(b: seq<Byte>, pos: nat, hs: seq<U32>, room: nat)
    requires At(b, pos, EncHashes(hs)) && |hs| <= room
    ensures ReadHashes(b, pos, |hs|, room) == Hashes(hs)
    decreases |hs|
  {
    hide ReadHead, EncHead, At, UintSize;
    if hs != [] {
      AtConcat(b, pos, EncUint(hs[0]), EncHashes(hs[1..]));
      HeadRoundTrip(b, pos, 0, hs[0]);
      HashesRoundTrip(b, pos + UintSize(hs[0]), hs[1..], room - 1);
      assert hs == [hs[0]] + hs[1..];
    }
  }

  /** The items of a prefix, read back one after the other. */
  lemma PrefixItems(b: seq<Byte>, tag: U64, origin: U64, count: U64)
    requires At(b, 0, EncPrefix(tag, origin, count)) && tag < 24
    ensures |b| >= 3 && b[..3] == CONTROL_MAGIC
    ensures ReadHead(b, 3) == Head(4, 3, 4) && ReadHead(b, 4) == Head(0, tag, 5)
    ensures ReadHead(b, 5) == Head(0, origin, 5 + UintSize(origin))
    ensures ReadHead(b, 5 + UintSize(origin)) == Head(4, count, |EncPrefix(tag, origin, count)|)
  {
    hide ReadHead, EncHead, At;
    var e2, e3, e4, e5 := EncArray(3), EncUint(tag), EncUint(origin), EncArray(count);
    AtConcat(b, 0, CONTROL_MAGIC + e2 + e3 + e4, e5);
    AtConcat(b, 0, CONTROL_MAGIC + e2 + e3, e4);
    AtConcat(b, 0, CONTROL_MAGIC + e2, e3);
    AtConcat(b, 0, CONTROL_MAGIC, e2);
    ControlMagicAt(b);
    HeadRoundTrip(b, 3, 4, 3);
    HeadRoundTrip(b, 4, 0, tag);
    HeadRoundTrip(b, 5, 0, origin);
    HeadRoundTrip(b, 5 + UintSize(origin), 4, count);
  }

  lemma ControlMagicAt(b: seq<Byte>)
    requires At(b, 0, CONTROL_MAGIC)
    ensures |b| >= 3 && b[..3] == CONTROL_MAGIC
  {}

  /** An index of up to 128 entries, a whole table, is never truncated by the parser. */
  lemma IndexReplyRoundTrip(origin: U64, es: seq<IndexEntry>)
    requires |es| <= MAX_INDEX
    ensures ParseControl(EncIndexReply(origin, es)) == IndexReply(origin, es)
  {
    hide ReadHead, EncPrefix, EncEntries, ReadEntries;
    var b, p := EncIndexReply(origin, es), EncPrefix(1, origin, |es|);
    assert At(b, 0, p + EncEntries(es));
    AtConcat(b, 0, p, EncEntries(es));
    PrefixItems(b, 1, origin, |es|);
    EntriesRoundTrip(b, |p|, es, MAX_INDEX);
  }

  lemma ValueRequestRoundTrip(origin: U64, hs: seq<U32>)
    requires |hs| <= MAX_FETCH
    ensures ParseControl(EncValueRequest(origin, hs)) == ValueRequest(origin, hs)
  {
    hide ReadHead, EncPrefix, EncHashes, ReadHashes;
    var b, p := EncValueRequest(origin, hs), EncPrefix(2, origin, |hs|);
    assert At(b, 0, p + EncHashes(hs));
    AtConcat(b, 0, p, EncHashes(hs));
    PrefixItems(b, 2, origin, |hs|);
    HashesRoundTrip(b, |p|, hs, MAX_FETCH);
  }

  lemma IndexRequestRoundTrip(origin: U64)
    ensures ParseControl(EncIndexRequest(origin)) == IndexRequest(origin)
  {
    hide ReadHead, EncPrefix;
    var b := EncIndexRequest(origin);
    assert At(b, 0, EncPrefix(0, origin, 0));
    PrefixItems(b, 0, origin, 0);
  }
}
