/** The byte format of requests and responses, protocol versions 2 and 3. */
module Protocol {
  type Byte = x: int | 0 <= x < 256
  type Bytes = seq<Byte>
  type U32 = x: int | 0 <= x < 0x1_0000_0000
  type U64 = x: int | 0 <= x < 0x1_0000_0000_0000_0000
  type I32 = x: int | -0x8000_0000 <= x < 0x8000_0000
  type I64 = x: int | -0x8000_0000_0000_0000 <= x < 0x8000_0000_0000_0000

  /** Bytes in a page, as PostgreSQL is configured. */
  const BLCKSZ: nat := 8192

  datatype Header = Header(reqid: U64, lsn: U64, notModifiedSince: U64)

  datatype Rel = Rel(spc: U32, db: U32, rel: U32)

  datatype Body =
    | Exists(rel: Rel, fork: I32)
    | Nblocks(rel: Rel, fork: I32)
    | GetPage(rel: Rel, fork: I32, block: U32)
    | DbSize(db: U32)
    | GetSlruSegment(kind: I32, segno: I32)

  datatype Request = Request(hdr: Header, body: Body)

  datatype Payload =
    | ExistsIs(exists_: bool)
    | NblocksIs(blocks: U32)
    | PageIs(page: Bytes)
    | DbSizeIs(size: I64)
    | SegmentIs(pages: nat, data: Bytes)

  datatype Response =
    | Answer(req: Request, payload: Payload)
    | Error(hdr: Header, message: Bytes)

  /** A value read from the front of a buffer and the bytes after it; reading past the end fails. */
  datatype Parse<+T> = Fail | Done(value: T, rest: Bytes) {
    predicate IsFailure() { Fail? }
    function PropagateFailure<U>(): Parse<U> requires IsFailure() { Fail }
    function Extract(): (T, Bytes) requires !IsFailure() { (value, rest) }
  }

  // ---------- Integers in network order ----------

  function Pow256(width: nat): (p: nat)
    ensures p > 0
  {
    if width == 0 then 1 else 256 * Pow256(width - 1)
  }

  function Int(n: nat, width: nat): (b: Bytes)
    ensures |b| == width
  {
    if width == 0 then [] else Int(n / 256, width - 1) + [n % 256]
  }

  function Value(b: Bytes): nat {
    if b == [] then 0 else 256 * Value(b[..|b| - 1]) + b[|b| - 1]
  }

  lemma Widths()
    ensures Pow256(1) == 256 && Pow256(4) == 0x1_0000_0000 && Pow256(8) == 0x1_0000_0000_0000_0000
  {
    assert Pow256(2) == 0x1_0000;
    assert Pow256(3) == 0x100_0000;
    assert Pow256(5) == 0x100_0000_0000;
    assert Pow256(6) == 0x1_0000_0000_0000;
    assert Pow256(7) == 0x100_0000_0000_0000;
  }

  lemma {:induction false} ValueOfInt(n: nat, width: nat)
    requires n < Pow256(width)
    ensures Value(Int(n, width)) == n
  {
    if width > 0 {
      ValueOfInt(n / 256, width - 1);
      assert Int(n, width)[..width - 1] == Int(n / 256, width - 1);
    }
  }

  lemma {:induction false} IntOfValue(b: Bytes)
    ensures Value(b) < Pow256(|b|) && Int(Value(b), |b|) == b
  {
    if b != [] {
      IntOfValue(b[..|b| - 1]);
      assert Value(b) / 256 == Value(b[..|b| - 1]) && Value(b) % 256 == b[|b| - 1];
    }
  }

  function GetInt(s: Bytes, width: nat): Parse<nat> {
    if |s| < width then Fail else Done(Value(s[..width]), s[width..])
  }

  /** Reading what was sent. */
  lemma GetSent(n: nat, width: nat, rest: Bytes)
    requires n < Pow256(width)
    ensures GetInt(Int(n, width) + rest, width) == Done(n, rest)
  {
    ValueOfInt(n, width);
    assert (Int(n, width) + rest)[..width] == Int(n, width);
    assert (Int(n, width) + rest)[width..] == rest;
  }

  /** What was read is what was sent. */
  lemma SentWhatWasRead(s: Bytes, width: nat)
    requires GetInt(s, width).Done?
    ensures var r := GetInt(s, width); r.value < Pow256(width) && s == Int(r.value, width) + r.rest
  {
    IntOfValue(s[..width]);
    assert s == s[..width] + s[width..];
  }

  function GetByte(s: Bytes): Parse<Byte> {
    if s == [] then Fail else Done(s[0], s[1..])
  }

  function GetU32(s: Bytes): Parse<U32> {
    Widths();
    var (n, r) :- GetInt(s, 4);
    SentWhatWasRead(s, 4);
    Done(n, r)
  }

  function GetU64(s: Bytes): Parse<U64> {
    Widths();
    var (n, r) :- GetInt(s, 8);
    SentWhatWasRead(s, 8);
    Done(n, r)
  }

  /** A signed integer travels as the unsigned one with the same bits. */
  function Unsigned32(x: I32): U32 { if x < 0 then x + 0x1_0000_0000 else x }

  function Signed32(x: U32): I32 { if x < 0x8000_0000 then x else x - 0x1_0000_0000 }

  function Unsigned64(x: I64): U64 { if x < 0 then x + 0x1_0000_0000_0000_0000 else x }

  function Signed64(x: U64): I64 { if x < 0x8000_0000_0000_0000 then x else x - 0x1_0000_0000_0000_0000 }

  function PutU32(n: U32, rest: Bytes): Bytes { Int(n, 4) + rest }

  function PutU64(n: U64, rest: Bytes): Bytes { Int(n, 8) + rest }

  lemma U32RoundTrip(n: U32, rest: Bytes)
    ensures GetU32(PutU32(n, rest)) == Done(n, rest)
  {
    Widths();
    GetSent(n, 4, rest);
  }

  lemma U64RoundTrip(n: U64, rest: Bytes)
    ensures GetU64(PutU64(n, rest)) == Done(n, rest)
  {
    Widths();
    GetSent(n, 8, rest);
  }

  lemma U32Read(s: Bytes)
    requires GetU32(s).Done?
    ensures s == PutU32(GetU32(s).value, GetU32(s).rest)
  {
    SentWhatWasRead(s, 4);
  }

  lemma U64Read(s: Bytes)
    requires GetU64(s).Done?
    ensures s == PutU64(GetU64(s).value, GetU64(s).rest)
  {
    SentWhatWasRead(s, 8);
  }

  // ---------- Requests ----------

  /** The tag of a request; its answer's tag follows from it. */
  function RequestTag(body: Body): Byte {
    match body
    case Exists(_, _) => 0
    case Nblocks(_, _) => 1
    case GetPage(_, _, _) => 2
    case DbSize(_) => 3
    case GetSlruSegment(_, _) => 4
  }

  const ERROR_TAG: Byte := 103

  function ResponseTag(body: Body): Byte {
    match body
    case Exists(_, _) => 100
    case Nblocks(_, _) => 101
    case GetPage(_, _, _) => 102
    case DbSize(_) => 104
    case GetSlruSegment(_, _) => 105
  }

  /** Conversion to an unsigned byte. */
  function Truncated(x: I32): Byte { x % 256 }

  function PutRel(rel: Rel, rest: Bytes): Bytes {
    PutU32(rel.spc, PutU32(rel.db, PutU32(rel.rel, rest)))
  }

  function PutHeader(version: nat, hdr: Header, rest: Bytes): Bytes {
    var lsns := PutU64(hdr.lsn, PutU64(hdr.notModifiedSince, rest));
    if version >= 3 then PutU64(hdr.reqid, lsns) else lsns
  }

  function PutBody(body: Body, rest: Bytes): Bytes {
    match body
    case Exists(rel, fork) => PutRel(rel, [Truncated(fork)] + rest)
    case Nblocks(rel, fork) => PutRel(rel, [Truncated(fork)] + rest)
    case GetPage(rel, fork, block) => PutRel(rel, [Truncated(fork)] + PutU32(block, rest))
    case DbSize(db) => PutU32(db, rest)
    case GetSlruSegment(kind, segno) => [Truncated(kind)] + PutU32(Unsigned32(segno), rest)
  }

  function Pack(version: nat, req: Request): Bytes {
    [RequestTag(req.body)] + PutHeader(version, req.hdr, PutBody(req.body, []))
  }

  // ---------- Byte positions ----------

  /** The most significant byte comes first. */
  lemma BigEndian(b: Bytes)
    ensures |b| == 4 ==> Value(b) == b[0] as int * 0x100_0000 + b[1] as int * 0x1_0000 + b[2] as int * 0x100 + b[3]
    ensures |b| == 8 ==> Value(b) == 0x1_0000_0000 * Value(b[..4]) + Value(b[4..])
  {
    if |b| == 4 {
      FourBytes(b);
    } else if |b| == 8 {
      var c := b[..4];
      assert b[..7][..6] == b[..6] && b[..6][..5] == b[..5] && b[..5][..4] == c;
      assert Value(b) == 256 * Value(b[..7]) + b[7];
      assert Value(b[..7]) == 256 * Value(b[..6]) + b[6];
      assert Value(b[..6]) == 256 * Value(b[..5]) + b[5];
      assert Value(b[..5]) == 256 * Value(c) + b[4];
      FourBytes(b[4..]);
    }
  }

  lemma FourBytes(b: Bytes)
    requires |b| == 4
    ensures Value(b) == b[0] as int * 0x100_0000 + b[1] as int * 0x1_0000 + b[2] as int * 0x100 + b[3]
  {
    assert b[..3][..2] == b[..2] && b[..2][..1] == b[..1] && b[..1][..0] == [];
    assert Value(b[..1]) == b[0];
    assert Value(b[..2]) == 256 * Value(b[..1]) + b[1];
    assert Value(b[..3]) == 256 * Value(b[..2]) + b[2];
  }

  /** The first byte says what kind of request it is. */
  lemma RequestTags(version: nat, req: Request)
    ensures var b := Pack(version, req);
      && b != []
      && (b[0] == 0 <==> req.body.Exists?) && (b[0] == 1 <==> req.body.Nblocks?)
      && (b[0] == 2 <==> req.body.GetPage?) && (b[0] == 3 <==> req.body.DbSize?)
      && (b[0] == 4 <==> req.body.GetSlruSegment?)
  {
    hide PutHeader, PutBody;
  }

  /** Where the header of a version 3 request stands: tag, request id and the two LSNs, then the fields. */
  lemma HeaderLayout(req: Request)
    ensures var b := Pack(3, req);
      && |b| == 25 + |PutBody(req.body, [])| && b[25..] == PutBody(req.body, [])
      && Value(b[1..9]) == req.hdr.reqid
      && Value(b[9..17]) == req.hdr.lsn && Value(b[17..25]) == req.hdr.notModifiedSince
  {
    Widths();
    ValueOfInt(req.hdr.reqid, 8);
    ValueOfInt(req.hdr.lsn, 8);
    ValueOfInt(req.hdr.notModifiedSince, 8);
    hide Int, Value, PutBody;
    var b := Pack(3, req);
    assert b[1..9] == Int(req.hdr.reqid, 8);
    assert b[9..17] == Int(req.hdr.lsn, 8);
    assert b[17..25] == Int(req.hdr.notModifiedSince, 8);
  }

  /** A version 2 request has no request id. */
  lemma HeaderLayoutTwo(req: Request)
    ensures var b := Pack(2, req);
      && |b| == 17 + |PutBody(req.body, [])| && b[17..] == PutBody(req.body, [])
      && Value(b[1..9]) == req.hdr.lsn && Value(b[9..17]) == req.hdr.notModifiedSince
  {
    Widths();
    ValueOfInt(req.hdr.lsn, 8);
    ValueOfInt(req.hdr.notModifiedSince, 8);
    hide Int, Value, PutBody;
    var b := Pack(2, req);
    var rest := Int(req.hdr.notModifiedSince, 8) + PutBody(req.body, []);
    assert b == [RequestTag(req.body)] + (Int(req.hdr.lsn, 8) + rest);
    assert b[1..9] == Int(req.hdr.lsn, 8);
    assert b[9..17] == Int(req.hdr.notModifiedSince, 8);
  }

  /** The relation and the fork stand first in the fields that follow the header. */
  ghost predicate RelAt(b: Bytes, rel: Rel, fork: I32) {
    && |b| >= 13 && Value(b[..4]) == rel.spc && Value(b[4..8]) == rel.db && Value(b[8..12]) == rel.rel
    && b[12] == fork % 256
  }

  lemma RelLayout(rel: Rel, fork: I32, rest: Bytes)
    ensures var b := PutRel(rel, [Truncated(fork)] + rest);
      RelAt(b, rel, fork) && |b| == 13 + |rest| && b[13..] == rest
  {
    Widths();
    ValueOfInt(rel.spc, 4);
    ValueOfInt(rel.db, 4);
    ValueOfInt(rel.rel, 4);
    hide Int, Value;
    var b := PutRel(rel, [Truncated(fork)] + rest);
    assert b[..4] == Int(rel.spc, 4);
    assert b[4..8] == Int(rel.db, 4);
    assert b[8..12] == Int(rel.rel, 4);
  }

  /** Where the fields of the five requests stand. */
  lemma ExistsLayout(rel: Rel, fork: I32)
    ensures var b := PutBody(Exists(rel, fork), []); |b| == 13 && RelAt(b, rel, fork)
  {
    hide PutRel, RelAt;
    RelLayout(rel, fork, []);
  }

  lemma NblocksLayout(rel: Rel, fork: I32)
    ensures var b := PutBody(Nblocks(rel, fork), []); |b| == 13 && RelAt(b, rel, fork)
  {
    hide PutRel, RelAt;
    RelLayout(rel, fork, []);
  }

  lemma PageLayout(rel: Rel, fork: I32, block: U32)
    ensures var b := PutBody(GetPage(rel, fork, block), []);
      |b| == 17 && RelAt(b, rel, fork) && Value(b[13..]) == block
  {
    Widths();
    ValueOfInt(block, 4);
    hide PutRel, RelAt, Int, Value;
    RelLayout(rel, fork, PutU32(block, []));
    assert PutU32(block, []) == Int(block, 4);
  }

  lemma DbSizeLayout(db: U32)
    ensures var b := PutBody(DbSize(db), []); |b| == 4 && Value(b) == db
  {
    Widths();
    ValueOfInt(db, 4);
    hide Int, Value;
    assert PutU32(db, []) == Int(db, 4);
  }

  lemma SegmentLayout(kind: I32, segno: I32)
    ensures var b := PutBody(GetSlruSegment(kind, segno), []);
      && |b| == 5 && b[0] == kind % 256
      && Value(b[1..]) == if segno < 0 then segno + 0x1_0000_0000 else segno
  {
    Widths();
    ValueOfInt(Unsigned32(segno), 4);
    hide Int, Value;
    var b := PutBody(GetSlruSegment(kind, segno), []);
    assert b[1..] == Int(Unsigned32(segno), 4);
  }

  // ---------- Responses ----------

  function PutPayload(p: Payload): Bytes {
    match p
    case ExistsIs(e) => [if e then 1 else 0]
    case NblocksIs(n) => PutU32(n, [])
    case PageIs(page) => page
    case DbSizeIs(size) => PutU64(Unsigned64(size), [])
    case SegmentIs(pages, data) => Int(pages, 4) + data
  }

  /** The payload is one the server may send for the request. */
  ghost predicate Suits(body: Body, p: Payload) {
    match body
    case Exists(_, _) => p.ExistsIs?
    case Nblocks(_, _) => p.NblocksIs?
    case GetPage(_, _, _) => p.PageIs? && |p.page| == BLCKSZ
    case DbSize(_) => p.DbSizeIs?
    case GetSlruSegment(_, _) => p.SegmentIs? && p.pages < 0x8000_0000 && |p.data| == p.pages * BLCKSZ
  }

  /** An answer in version 3: the request as it was packed, under the response's tag, then the payload. */
  function Echo(req: Request, p: Payload): Bytes {
    [ResponseTag(req.body)] + Pack(3, req)[1..] + PutPayload(p)
  }

  function EchoError(hdr: Header, message: Bytes): Bytes {
    [ERROR_TAG] + PutHeader(3, hdr, message + [0])
  }

  function GetHeader(s: Bytes): Parse<Header> {
    var (reqid, s1) :- GetU64(s);
    var (lsn, s2) :- GetU64(s1);
    var (since, s3) :- GetU64(s2);
    Done(Header(reqid, lsn, since), s3)
  }

  function GetRel(s: Bytes): Parse<Rel> {
    var (spc, s1) :- GetU32(s);
    var (db, s2) :- GetU32(s1);
    var (rel, s3) :- GetU32(s2);
    Done(Rel(spc, db, rel), s3)
  }

  function GetRelFork(s: Bytes): Parse<(Rel, I32)> {
    var (rel, s1) :- GetRel(s);
    var (fork, s2) :- GetByte(s1);
    Done((rel, fork), s2)
  }

  /** The request fields of a version 3 answer; a tag that no answer has is an error. */
  function GetBody(tag: Byte, s: Bytes): Parse<Body> {
    match tag
    case 100 =>
      var (f, r) :- GetRelFork(s);
      Done(Exists(f.0, f.1), r)
    case 101 =>
      var (f, r) :- GetRelFork(s);
      Done(Nblocks(f.0, f.1), r)
    case 102 =>
      var (f, s1) :- GetRelFork(s);
      var (block, r) :- GetU32(s1);
      Done(GetPage(f.0, f.1, block), r)
    case 104 =>
      var (db, r) :- GetU32(s);
      Done(DbSize(db), r)
    case 105 =>
      var (kind, s1) :- GetByte(s);
      var (segno, r) :- GetU32(s1);
      Done(GetSlruSegment(kind, Signed32(segno)), r)
    case _ => Fail
  }

  /** A version 2 answer has no request fields: the structure stays zeroed. */
  function ZeroBody(tag: Byte, s: Bytes): Parse<Body> {
    match tag
    case 100 => Done(Exists(Rel(0, 0, 0), 0), s)
    case 101 => Done(Nblocks(Rel(0, 0, 0), 0), s)
    case 102 => Done(GetPage(Rel(0, 0, 0), 0, 0), s)
    case 104 => Done(DbSize(0), s)
    case 105 => Done(GetSlruSegment(0, 0), s)
    case _ => Fail
  }

  function GetBytes(s: Bytes, n: int): Parse<Bytes> {
    if 0 <= n <= |s| then Done(s[..n], s[n..]) else Fail
  }

  function GetPayload(body: Body, s: Bytes): Parse<Payload> {
    match body
    case Exists(_, _) =>
      var (flag, r) :- GetByte(s);
      Done(ExistsIs(flag != 0), r)
    case Nblocks(_, _) =>
      var (n, r) :- GetU32(s);
      Done(NblocksIs(n), r)
    case GetPage(_, _, _) =>
      var (page, r) :- GetBytes(s, BLCKSZ);
      Done(PageIs(page), r)
    case DbSize(_) =>
      var (size, r) :- GetU64(s);
      Done(DbSizeIs(Signed64(size)), r)
    case GetSlruSegment(_, _) =>
      var (n, s1) :- GetU32(s);
      var (data, r) :- GetBytes(s1, Signed32(n) * BLCKSZ);
      Done(SegmentIs(n, data), r)
  }

  /** The bytes before the first zero byte, and those after it. */
  function GetRawString(s: Bytes): Parse<Bytes> {
    if s == [] then Fail
    else if s[0] == 0 then Done([], s[1..])
    else
      var (text, r) :- GetRawString(s[1..]);
      Done([s[0]] + text, r)
  }

  function GetTagged(version: nat, tag: Byte, hdr: Header, s: Bytes): Parse<Response> {
    if tag == ERROR_TAG then
      var (message, r) :- GetRawString(s);
      Done(Error(hdr, message), r)
    else
      var (body, s1) :- (if version >= 3 then GetBody(tag, s) else ZeroBody(tag, s));
      var (p, r) :- GetPayload(body, s1);
      Done(Answer(Request(hdr, body), p), r)
  }

  /** Decodes a whole message: bytes that are left over are an error. */
  function Unpack(version: nat, s: Bytes): Parse<Response> {
    var (tag, s1) :- GetByte(s);
    var (hdr, s2) :- (if version >= 3 then GetHeader(s1) else Done(Header(0, 0, 0), s1));
    var (resp, r) :- GetTagged(version, tag, hdr, s2);
    if r == [] then Done(resp, []) else Fail
  }

  /** The first byte of a message says what kind of response it is. */
  lemma ResponseTags(version: nat, s: Bytes)
    requires Unpack(version, s).Done?
    ensures var resp := Unpack(version, s).value;
      && s != []
      && (s[0] == 100 <==> resp.Answer? && resp.req.body.Exists? && resp.payload.ExistsIs?)
      && (s[0] == 101 <==> resp.Answer? && resp.req.body.Nblocks? && resp.payload.NblocksIs?)
      && (s[0] == 102 <==> resp.Answer? && resp.req.body.GetPage? && resp.payload.PageIs?)
      && (s[0] == 103 <==> resp.Error?)
      && (s[0] == 104 <==> resp.Answer? && resp.req.body.DbSize? && resp.payload.DbSizeIs?)
      && (s[0] == 105 <==> resp.Answer? && resp.req.body.GetSlruSegment? && resp.payload.SegmentIs?)
  {
    hide GetHeader, GetRelFork, GetU32, GetU64, GetBytes, GetRawString;
  }

  /** What the bytes of a payload are. */
  lemma PayloadLayout(p: Payload)
    ensures p.ExistsIs? ==> PutPayload(p) == [if p.exists_ then 1 else 0]
    ensures p.NblocksIs? ==> |PutPayload(p)| == 4 && Value(PutPayload(p)) == p.blocks
    ensures p.PageIs? ==> PutPayload(p) == p.page
    ensures p.DbSizeIs? ==> |PutPayload(p)| == 8
    ensures p.DbSizeIs? ==>
      Value(PutPayload(p)) == if p.size < 0 then p.size + 0x1_0000_0000_0000_0000 else p.size
    ensures p.SegmentIs? && p.pages < 0x1_0000_0000 ==>
      |PutPayload(p)| >= 4 && Value(PutPayload(p)[..4]) == p.pages && PutPayload(p)[4..] == p.data
  {
    Widths();
    hide Int, Value, Pow256;
    match p
    case ExistsIs(_) =>
    case NblocksIs(n) =>
      ValueOfInt(n, 4);
      assert PutU32(n, []) == Int(n, 4);
    case PageIs(_) =>
    case DbSizeIs(size) =>
      ValueOfInt(Unsigned64(size), 8);
      assert PutU64(Unsigned64(size), []) == Int(Unsigned64(size), 8);
    case SegmentIs(pages, data) =>
      if pages < 0x1_0000_0000 {
        ValueOfInt(pages, 4);
        assert PutPayload(p)[..4] == Int(pages, 4);
      }
  }

  /** A page has 8192 bytes, and a segment as many as its pages. */
  lemma PageSizes(body: Body, p: Payload)
    requires Suits(body, p)
    ensures p.PageIs? ==> |p.page| == 8192
    ensures p.SegmentIs? ==> |p.data| == 8192 * p.pages
  {
  }

  // ---------- Version 3 answers are read back ----------

  /** The fork number and the SLRU kind travel in one byte. */
  ghost predicate OneByte(body: Body) {
    match body
    case Exists(_, fork) => 0 <= fork < 256
    case Nblocks(_, fork) => 0 <= fork < 256
    case GetPage(_, fork, _) => 0 <= fork < 256
    case DbSize(_) => true
    case GetSlruSegment(kind, _) => 0 <= kind < 256
  }

  ghost function Cut(body: Body): (b: Body)
    ensures OneByte(b) && (b == body <==> OneByte(body))
  {
    match body
    case Exists(rel, fork) => Exists(rel, Truncated(fork))
    case Nblocks(rel, fork) => Nblocks(rel, Truncated(fork))
    case GetPage(rel, fork, block) => GetPage(rel, Truncated(fork), block)
    case DbSize(db) => body
    case GetSlruSegment(kind, segno) => GetSlruSegment(Truncated(kind), segno)
  }

  lemma HeaderRoundTrip(hdr: Header, rest: Bytes)
    ensures GetHeader(PutHeader(3, hdr, rest)) == Done(hdr, rest)
  {
    hide GetU64, PutU64;
    U64RoundTrip(hdr.reqid, PutU64(hdr.lsn, PutU64(hdr.notModifiedSince, rest)));
    U64RoundTrip(hdr.lsn, PutU64(hdr.notModifiedSince, rest));
    U64RoundTrip(hdr.notModifiedSince, rest);
  }

  lemma RelRoundTrip(rel: Rel, rest: Bytes)
    ensures GetRel(PutRel(rel, rest)) == Done(rel, rest)
  {
    hide GetU32, PutU32;
    U32RoundTrip(rel.spc, PutU32(rel.db, PutU32(rel.rel, rest)));
    U32RoundTrip(rel.db, PutU32(rel.rel, rest));
    U32RoundTrip(rel.rel, rest);
  }

  lemma ByteRoundTrip(b: Byte, rest: Bytes)
    ensures GetByte([b] + rest) == Done(b, rest)
  {
    assert ([b] + rest)[1..] == rest;
  }

  lemma BodyRoundTrip(body: Body, rest: Bytes)
    ensures GetBody(ResponseTag(body), PutBody(body, rest)) == Done(Cut(body), rest)
  {
    hide GetU32, PutU32, GetRel, PutRel, GetByte;
    match body {
      case Exists(rel, fork) =>
        RelRoundTrip(rel, [Truncated(fork)] + rest);
        ByteRoundTrip(Truncated(fork), rest);
      case Nblocks(rel, fork) =>
        RelRoundTrip(rel, [Truncated(fork)] + rest);
        ByteRoundTrip(Truncated(fork), rest);
      case GetPage(rel, fork, block) =>
        RelRoundTrip(rel, [Truncated(fork)] + PutU32(block, rest));
        ByteRoundTrip(Truncated(fork), PutU32(block, rest));
        U32RoundTrip(block, rest);
      case DbSize(db) =>
        U32RoundTrip(db, rest);
      case GetSlruSegment(kind, segno) =>
        ByteRoundTrip(Truncated(kind), PutU32(Unsigned32(segno), rest));
        U32RoundTrip(Unsigned32(segno), rest);
    }
  }

  lemma PayloadRoundTrip(body: Body, p: Payload)
    requires Suits(body, p)
    ensures GetPayload(Cut(body), PutPayload(p)) == Done(p, [])
  {
    hide GetU32, GetU64, PutU64, Value, Int;
    match p {
      case ExistsIs(_) =>
      case NblocksIs(n) => U32RoundTrip(n, []);
      case PageIs(page) => assert page[..BLCKSZ] == page && page[BLCKSZ..] == [];
      case DbSizeIs(size) => U64RoundTrip(Unsigned64(size), []);
      case SegmentIs(pages, data) =>
        U32RoundTrip(pages, data);
        assert data[..pages * BLCKSZ] == data && data[pages * BLCKSZ..] == [];
    }
  }

  /** Encoding is appending. */
  lemma BodyThen(body: Body, a: Bytes, b: Bytes)
    ensures PutBody(body, a) + b == PutBody(body, a + b)
  {
    hide Int;
    match body {
      case Exists(rel, fork) => RelThen(rel, [Truncated(fork)] + a, b); Then([Truncated(fork)], a, b);
      case Nblocks(rel, fork) => RelThen(rel, [Truncated(fork)] + a, b); Then([Truncated(fork)], a, b);
      case GetPage(rel, fork, block) =>
        RelThen(rel, [Truncated(fork)] + PutU32(block, a), b);
        Then([Truncated(fork)], PutU32(block, a), b);
        Then(Int(block, 4), a, b);
      case DbSize(db) => Then(Int(db, 4), a, b);
      case GetSlruSegment(kind, segno) =>
        Then([Truncated(kind)], PutU32(Unsigned32(segno), a), b);
        Then(Int(Unsigned32(segno), 4), a, b);
    }
  }

  lemma Then(front: Bytes, a: Bytes, b: Bytes)
    ensures front + a + b == front + (a + b)
  {
  }

  lemma RelThen(rel: Rel, a: Bytes, b: Bytes)
    ensures PutRel(rel, a) + b == PutRel(rel, a + b)
  {
    hide Int;
    Then(Int(rel.spc, 4), PutU32(rel.db, PutU32(rel.rel, a)), b);
    Then(Int(rel.db, 4), PutU32(rel.rel, a), b);
    Then(Int(rel.rel, 4), a, b);
  }

  lemma HeaderThen(hdr: Header, a: Bytes, b: Bytes)
    ensures PutHeader(3, hdr, a) + b == PutHeader(3, hdr, a + b)
  {
    hide Int;
    Then(Int(hdr.reqid, 8), PutU64(hdr.lsn, PutU64(hdr.notModifiedSince, a)), b);
    Then(Int(hdr.lsn, 8), PutU64(hdr.notModifiedSince, a), b);
    Then(Int(hdr.notModifiedSince, 8), a, b);
  }

  lemma Layout(req: Request, bytes: Bytes)
    ensures [ResponseTag(req.body)] + Pack(3, req)[1..] + bytes
         == [ResponseTag(req.body)] + PutHeader(3, req.hdr, PutBody(req.body, bytes))
  {
    hide PutHeader, PutBody;
    var packed := PutHeader(3, req.hdr, PutBody(req.body, []));
    assert Pack(3, req)[1..] == packed;
    Then([ResponseTag(req.body)], packed, bytes);
    HeaderThen(req.hdr, PutBody(req.body, []), bytes);
    BodyThen(req.body, [], bytes);
    assert [] + bytes == bytes;
  }

  lemma EchoDecodes(req: Request, p: Payload)
    requires Suits(req.body, p)
    ensures Unpack(3, Echo(req, p)) == Done(Answer(Request(req.hdr, Cut(req.body)), p), [])
  {
    Layout(req, PutPayload(p));
    hide GetHeader, PutHeader, GetBody, PutBody, GetPayload, PutPayload, Suits, GetRawString, Pack, Cut;
    ByteRoundTrip(ResponseTag(req.body), PutHeader(3, req.hdr, PutBody(req.body, PutPayload(p))));
    HeaderRoundTrip(req.hdr, PutBody(req.body, PutPayload(p)));
    BodyRoundTrip(req.body, PutPayload(p));
    PayloadRoundTrip(req.body, p);
  }

  /** Every field of a request and the payload of its answer come back, and all bytes are consumed, exactly
      when the fields that travel in one byte fit one. */
  lemma EchoRoundTrip(req: Request, p: Payload)
    requires Suits(req.body, p)
    ensures Unpack(3, Echo(req, p)) == Done(Answer(req, p), []) <==> OneByte(req.body)
  {
    EchoDecodes(req, p);
    hide Unpack, Echo, Suits, Cut, OneByte;
  }

  lemma {:induction false} RawStringRoundTrip(text: Bytes, rest: Bytes)
    requires 0 !in text
    ensures GetRawString(text + [0] + rest) == Done(text, rest)
  {
    var s := text + [0] + rest;
    if text == [] {
      assert s[1..] == rest;
    } else {
      RawStringRoundTrip(text[1..], rest);
      assert s[1..] == text[1..] + [0] + rest;
      assert text == [text[0]] + text[1..];
    }
  }

  lemma ErrorRoundTrip(hdr: Header, message: Bytes)
    requires 0 !in message
    ensures Unpack(3, EchoError(hdr, message)) == Done(Error(hdr, message), [])
  {
    hide GetHeader, PutHeader, GetRawString;
    ByteRoundTrip(ERROR_TAG, PutHeader(3, hdr, message + [0]));
    HeaderRoundTrip(hdr, message + [0]);
    RawStringRoundTrip(message, []);
    assert message + [0] + [] == message + [0];
  }

  // ---------- What is read back was an answer to that request ----------

  lemma HeaderRead(s: Bytes)
    requires GetHeader(s).Done?
    ensures s == PutHeader(3, GetHeader(s).value, GetHeader(s).rest)
  {
    hide GetU64, PutU64;
    var s1 := GetU64(s).rest;
    var s2 := GetU64(s1).rest;
    U64Read(s);
    U64Read(s1);
    U64Read(s2);
  }

  lemma RelRead(s: Bytes)
    requires GetRel(s).Done?
    ensures s == PutRel(GetRel(s).value, GetRel(s).rest)
  {
    hide GetU32, PutU32;
    var s1 := GetU32(s).rest;
    var s2 := GetU32(s1).rest;
    U32Read(s);
    U32Read(s1);
    U32Read(s2);
  }

  lemma BodyRead(tag: Byte, s: Bytes)
    requires GetBody(tag, s).Done?
    ensures var r := GetBody(tag, s);
      && OneByte(r.value) && tag == ResponseTag(r.value)
      && s == PutBody(r.value, r.rest)
  {
    hide GetU32, PutU32, GetRel, PutRel;
    if tag == 104 {
      U32Read(s);
    } else if tag == 105 {
      U32Read(s[1..]);
      assert s == [s[0]] + s[1..];
    } else {
      RelRead(s);
      var s1 := GetRel(s).rest;
      assert s1 == [s1[0]] + s1[1..];
      if tag == 102 {
        U32Read(s1[1..]);
      }
    }
  }

  /** The bytes stand for the payload; any non-zero byte says that a relation exists. */
  ghost predicate Denotes(s: Bytes, p: Payload) {
    s == PutPayload(p) || (p == ExistsIs(true) && |s| == 1 && s[0] != 0)
  }

  lemma PayloadRead(body: Body, s: Bytes)
    requires GetPayload(body, s).Done? && GetPayload(body, s).rest == []
    ensures Suits(body, GetPayload(body, s).value) && Denotes(s, GetPayload(body, s).value)
  {
    hide GetU32, PutU32, GetU64, PutU64;
    match body {
      case Exists(_, _) => assert s == [s[0]];
      case Nblocks(_, _) => U32Read(s);
      case GetPage(_, _, _) => assert s == s[..BLCKSZ] + s[BLCKSZ..];
      case DbSize(_) => U64Read(s);
      case GetSlruSegment(_, _) => SegmentRead(s);
    }
  }

  lemma SegmentRead(s: Bytes)
    requires GetU32(s).Done? && GetBytes(GetU32(s).rest, Signed32(GetU32(s).value) * BLCKSZ).Done?
    requires GetBytes(GetU32(s).rest, Signed32(GetU32(s).value) * BLCKSZ).rest == []
    ensures var n, data := GetU32(s).value, GetU32(s).rest;
      n < 0x8000_0000 && |data| == n * BLCKSZ && data[..n * BLCKSZ] == data && s == Int(n, 4) + data
  {
    U32Read(s);
  }

  /** A message that decodes to an answer is the packed request under the response's tag, followed by bytes
      that stand for the payload: two different requests never share an answer. */
  lemma DecodedIsEcho(s: Bytes)
    requires Unpack(3, s).Done? && Unpack(3, s).value.Answer?
    ensures var Answer(req, p) := Unpack(3, s).value;
      && Suits(req.body, p) && OneByte(req.body)
      && exists bytes :: Denotes(bytes, p) && s == [ResponseTag(req.body)] + Pack(3, req)[1..] + bytes
  {
    var Answer(req, p) := Unpack(3, s).value;
    var s1 := s[1..];
    var s2 := GetHeader(s1).rest;
    var bytes := GetBody(s[0], s2).rest;
    hide GetHeader, PutHeader, GetBody, PutBody, GetPayload, PutPayload, Suits, GetRawString, OneByte, Denotes;
    HeaderRead(s1);
    BodyRead(s[0], s2);
    PayloadRead(req.body, bytes);
    Layout(req, bytes);
    assert s == [s[0]] + s1;
  }

  lemma {:induction false} RawStringRead(s: Bytes)
    requires GetRawString(s).Done?
    ensures var r := GetRawString(s); 0 !in r.value && s == r.value + [0] + r.rest
  {
    if s[0] == 0 {
      assert s == [] + [0] + s[1..];
    } else {
      RawStringRead(s[1..]);
      assert s == [s[0]] + s[1..];
    }
  }

  /** A message that decodes to an error is the encoding of that error. */
  lemma DecodedIsError(s: Bytes)
    requires Unpack(3, s).Done? && Unpack(3, s).value.Error?
    ensures var Error(hdr, message) := Unpack(3, s).value; 0 !in message && s == EchoError(hdr, message)
  {
    var s1 := s[1..];
    hide GetHeader, PutHeader, GetBody, GetPayload, GetRawString;
    HeaderRead(s1);
    var s2 := GetHeader(s1).rest;
    RawStringRead(s2);
    assert s == [s[0]] + s1;
    assert s2 == GetRawString(s2).value + [0];
  }

  /** A version 2 answer carries the payload alone; the request fields read as zero. */
  lemma PlainRoundTrip(body: Body, p: Payload)
    requires Suits(body, p)
    ensures Unpack(2, [ResponseTag(body)] + PutPayload(p))
         == Done(Answer(Request(Header(0, 0, 0), ZeroBody(ResponseTag(body), []).value), p), [])
  {
    hide GetPayload, PutPayload, GetRawString;
    ByteRoundTrip(ResponseTag(body), PutPayload(p));
    PayloadRoundTrip(ZeroBody(ResponseTag(body), []).value, p);
  }

  /** Whatever a version 2 answer says, its request fields are zero. */
  lemma PlainFields(s: Bytes)
    requires Unpack(2, s).Done? && Unpack(2, s).value.Answer?
    ensures var req := Unpack(2, s).value.req;
      && req.hdr == Header(0, 0, 0)
      && req.body in {Exists(Rel(0, 0, 0), 0), Nblocks(Rel(0, 0, 0), 0), GetPage(Rel(0, 0, 0), 0, 0), DbSize(0),
                      GetSlruSegment(0, 0)}
  {
    hide GetPayload, GetRawString;
  }

  lemma PlainErrorRoundTrip(message: Bytes)
    requires 0 !in message
    ensures Unpack(2, [103] + message + [0]) == Done(Error(Header(0, 0, 0), message), [])
  {
    hide GetRawString;
    Then([103], message, [0]);
    ByteRoundTrip(103, message + [0]);
    RawStringRoundTrip(message, []);
    assert message + [0] + [] == message + [0];
  }

  // ---------- Packing loses nothing ----------

  ghost function SomePayload(body: Body): (p: Payload)
    ensures Suits(body, p)
  {
    match body
    case Exists(_, _) => ExistsIs(true)
    case Nblocks(_, _) => NblocksIs(0)
    case GetPage(_, _, _) => PageIs(seq(BLCKSZ, _ => 0))
    case DbSize(_) => DbSizeIs(0)
    case GetSlruSegment(_, _) => SegmentIs(0, [])
  }

  lemma PackInjective(a: Request, b: Request)
    requires OneByte(a.body) && OneByte(b.body)
    ensures Pack(3, a) == Pack(3, b) <==> a == b
  {
    if Pack(3, a) == Pack(3, b) {
      SameTag(3, a, b);
      var p := SomePayload(a.body);
      hide Pack, Unpack, PutPayload;
      EchoDecodes(a, p);
      EchoDecodes(b, p);
    }
  }

  lemma SameTag(version: nat, a: Request, b: Request)
    requires Pack(version, a) == Pack(version, b)
    ensures RequestTag(a.body) == RequestTag(b.body)
    ensures PutHeader(version, a.hdr, PutBody(a.body, [])) == PutHeader(version, b.hdr, PutBody(b.body, []))
  {
    hide PutHeader, PutBody;
    assert Pack(version, a)[0] == RequestTag(a.body) && Pack(version, b)[0] == RequestTag(b.body);
    assert Pack(version, a)[1..] == PutHeader(version, a.hdr, PutBody(a.body, []));
    assert Pack(version, b)[1..] == PutHeader(version, b.hdr, PutBody(b.body, []));
  }

  ghost function Unnumbered(req: Request): Request {
    req.(hdr := req.hdr.(reqid := 0))
  }

  /** Version 2 does not send the request number; nothing else is lost. */
  lemma PackTwoInjective(a: Request, b: Request)
    requires OneByte(a.body) && OneByte(b.body)
    ensures Pack(2, a) == Pack(2, b) <==> Unnumbered(a) == Unnumbered(b)
  {
    if Pack(2, a) == Pack(2, b) {
      SameTag(2, a, b);
      hide PutBody, PutU64, RequestTag, OneByte;
      PackInjective(Unnumbered(a), Unnumbered(b));
    }
  }
}
