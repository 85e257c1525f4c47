/** The messages the client exchanges with its name server (RFC 1035,
    section 4.1): the query SendRequest writes, a reference form of the
    responses a server sends back, and what the two response parsers read
    from the buffer. */
module Messages {
  import opened Wire
  import opened Names

  /** The flags of the query: only RD (recursion desired) is set. */
  const FLAGS_RD: uint16 := 0x0100

  // ---------------------------------------------------------------------
  // The query (dns.cpp, SendRequest)
  // ---------------------------------------------------------------------

  /** The header SendRequest writes after zeroing it: the ID as a host-order
      `uint16_t`, the flags and one question; all other counts are zero. */
  function Header(id: uint16): (h: seq<byte>)
    ensures |h| == HEADER_SIZE
    ensures HostU16(h, ID_OFFSET) == id && U16(h, 2) == FLAGS_RD && U16(h, 4) == 1
    ensures U16(h, ANCOUNT_OFFSET) == 0 && U16(h, 8) == 0 && U16(h, 10) == 0
  {
    [id % 0x100, id / 0x100] + Be16(FLAGS_RD) + Be16(1) + Be16(0) + Be16(0) + Be16(0)
  }

  /** QTYPE and QCLASS after the question's name. */
  function Question(t: RecordType): (q: seq<byte>)
    ensures |q| == 4
    ensures U16(q, 0) == TypeCode(t) && U16(q, 2) == CLASS_IN
  {
    Be16(TypeCode(t)) + Be16(CLASS_IN)
  }

  /** The query for the domain d and the record type t under the ID id. */
  function QueryPacket(id: uint16, d: seq<byte>, t: RecordType): (q: seq<byte>)
    ensures |q| == HEADER_SIZE + |d| + 6
    ensures q[..HEADER_SIZE] == Header(id) && q[HEADER_SIZE + |d| + 2..] == Question(t)
  {
    Header(id) + NameWire(d) + Question(t)
  }

  /** The parts of the query for d, t and id lie in p: the header, the
      encoded name at offset 12, and QTYPE and QCLASS after it. */
  ghost predicate QueryAt(p: seq<byte>, id: uint16, d: seq<byte>, t: RecordType)
  {
    && BytesAt(p, 0, Header(id))
    && BytesAt(p, HEADER_SIZE, NameWire(d))
    && BytesAt(p, HEADER_SIZE + |d| + 2, Question(t))
  }

  /** The query is 12 + n + 6 bytes long for an n-character domain and is
      made of its parts. */
  lemma QueryPacketAt(id: uint16, d: seq<byte>, t: RecordType)
    ensures |QueryPacket(id, d, t)| == HEADER_SIZE + |d| + 6
    ensures QueryAt(QueryPacket(id, d, t), id, d, t)
  {
    var q := QueryPacket(id, d, t);
    BytesAtSelf(q);
    BytesAtSplit(q, 0, q, Header(id) + NameWire(d), Question(t));
    BytesAtSplit(q, 0, Header(id) + NameWire(d), Header(id), NameWire(d));
  }

  /** The parts of the query lie in p exactly when p begins with the
      query. */
  lemma QueryAtIff(p: seq<byte>, id: uint16, d: seq<byte>, t: RecordType)
    ensures QueryAt(p, id, d, t)
        <==> HEADER_SIZE + |d| + 6 <= |p| && p[..HEADER_SIZE + |d| + 6] == QueryPacket(id, d, t)
  {
    var q := QueryPacket(id, d, t);
    BytesAtStart(p, q);
    if QueryAt(p, id, d, t) {
      BytesAtConcat(p, 0, Header(id), NameWire(d));
      BytesAtConcat(p, 0, Header(id) + NameWire(d), Question(t));
    }
    if BytesAt(p, 0, q) {
      BytesAtSplit(p, 0, q, Header(id) + NameWire(d), Question(t));
      BytesAtSplit(p, 0, Header(id) + NameWire(d), Header(id), NameWire(d));
    }
  }

  /** The fields of a query: the ID read back in host order, RD set, one
      question and no other records, then QTYPE and class IN after the
      name. */
  lemma QueryFields(p: seq<byte>, id: uint16, d: seq<byte>, t: RecordType)
    requires QueryAt(p, id, d, t)
    ensures HEADER_SIZE + |d| + 6 <= |p|
    ensures HostU16(p, ID_OFFSET) == id
    ensures U16(p, 2) == FLAGS_RD && U16(p, 4) == 1
    ensures U16(p, ANCOUNT_OFFSET) == 0 && U16(p, 8) == 0 && U16(p, 10) == 0
    ensures U16(p, HEADER_SIZE + |d| + 2) == TypeCode(t)
    ensures U16(p, HEADER_SIZE + |d| + 4) == CLASS_IN
  {
    var h := Header(id);
    forall k | 0 <= k < HEADER_SIZE
      ensures p[k] == h[k]
    {
      BytesAtIndex(p, 0, h, k);
    }
    assert h[0] == id % 0x100 && h[1] == id / 0x100;
    assert h[2] == 1 && h[3] == 0 && h[4] == 0 && h[5] == 1;
    assert h[6] == 0 && h[7] == 0 && h[8] == 0 && h[9] == 0 && h[10] == 0 && h[11] == 0;
    var q := Question(t);
    BytesAtSplit(p, HEADER_SIZE + |d| + 2, q, Be16(TypeCode(t)), Be16(CLASS_IN));
    U16At(p, HEADER_SIZE + |d| + 2, TypeCode(t));
    U16At(p, HEADER_SIZE + |d| + 4, CLASS_IN);
  }

  /** A query for an A record ends with 00 01 00 01. */
  lemma QueryEndsForA(id: uint16, d: seq<byte>)
    ensures QueryPacket(id, d, A)[HEADER_SIZE + |d| + 2 ..] == [0, 1, 0, 1]
  {
    var q := QueryPacket(id, d, A);
    assert q[HEADER_SIZE + |d| + 2 ..] == Question(A);
  }

  /** The query for the A record of "example.com". */
  lemma ExampleQuery(id: uint16)
    ensures QueryPacket(id, EXAMPLE + [DOT] + COM, A)
         == [id % 0x100, id / 0x100, 1, 0, 0, 1, 0, 0, 0, 0, 0, 0]
            + [7] + EXAMPLE + [3] + COM + [0] + [0, 1, 0, 1]
  {
    ExampleEncoding();
  }

  /** The name in a query is found again by the client's own readers: it
      ends 2 bytes after the domain's characters, and decodes to the
      domain. */
  lemma QueryReadsBack(p: seq<byte>, id: uint16, d: seq<byte>, t: RecordType)
    requires QueryAt(p, id, d, t) && ValidDomain(d)
    ensures NameEnd(p, HEADER_SIZE) == Ok(HEADER_SIZE + |d| + 2)
    ensures |d| <= HOST_CAP ==> DecodeName(p, HEADER_SIZE, HOST_CAP) == Decoded(d, Complete)
  {
    NameWireIsPlainName(p, HEADER_SIZE, d);
    SkipPlainName(p, HEADER_SIZE, d);
    DecodePlainName(p, HEADER_SIZE, d, HOST_CAP);
  }

  // ---------------------------------------------------------------------
  // Responses, as a name server writes them
  // ---------------------------------------------------------------------

  /** A name in a response: the pointer C0 0C to the question's name, or a
      name written out in full. */
  datatype NameRef = ToQuestion | Literal(name: seq<byte>)

  /** The number of bytes the name takes in the message. */
  function NameRefSize(n: NameRef): nat
  {
    match n
    case ToQuestion => 2
    case Literal(e) => |e| + 2
  }

  /** The domain a name stands for, given the question's domain. */
  function NameRefValue(n: NameRef, question: seq<byte>): seq<byte>
  {
    match n
    case ToQuestion => question
    case Literal(e) => e
  }

  /** The name n lies at p[o]: the two pointer bytes, or the encoding of a
      valid domain. */
  ghost predicate NameRefAt(p: seq<byte>, o: nat, n: NameRef)
  {
    match n
    case ToQuestion => o + 2 <= |p| && p[o] == 0xC0 && p[o + 1] == HEADER_SIZE
    case Literal(e) => PlainNameAt(p, o, e)
  }

  /** A resource record: an MX record with its preference and exchange
      name, or a record of another type with opaque data. */
  datatype Record =
    | MxRecord(owner: NameRef, ttl: uint32, pref: uint16, exchange: NameRef)
    | OtherRecord(owner: NameRef, rtype: uint16, ttl: uint32, rdata: seq<byte>)

  function RecordTypeOf(r: Record): uint16
  {
    if r.MxRecord? then TypeCode(MX) else r.rtype
  }

  /** Only an MxRecord has the type MX. */
  predicate ValidRecord(r: Record)
  {
    r.OtherRecord? ==> r.rtype != TypeCode(MX)
  }

  /** The value of RDLENGTH. */
  function RdataLength(r: Record): nat
  {
    match r
    case MxRecord(_, _, _, x) => 2 + NameRefSize(x)
    case OtherRecord(_, _, _, data) => |data|
  }

  /** The number of bytes the record takes. */
  function RecordSize(r: Record): nat
  {
    NameRefSize(r.owner) + RECORD_FIXED_SIZE + RdataLength(r)
  }

  /** The record r lies at p[o..]: its owner name, then the big-endian
      fields TYPE, CLASS (IN), TTL and RDLENGTH, then RDATA; an MX record's
      RDATA is the preference and the exchange name. */
  ghost predicate RecordAt(p: seq<byte>, o: nat, r: Record)
  {
    var a := o + NameRefSize(r.owner);
    && ValidRecord(r)
    && RdataLength(r) < 0x1_0000
    && a + RECORD_FIXED_SIZE + RdataLength(r) <= |p|
    && NameRefAt(p, o, r.owner)
    && U16(p, a + TYPE_OFFSET) == RecordTypeOf(r)
    && U16(p, a + 2) == CLASS_IN
    && U32(p, a + 4) == r.ttl
    && U16(p, a + RDLENGTH_OFFSET) == RdataLength(r)
    && match r
       case MxRecord(_, _, pref, x) =>
         U16(p, a + RECORD_FIXED_SIZE) == pref && NameRefAt(p, a + RECORD_FIXED_SIZE + 2, x)
       case OtherRecord(_, _, _, data) =>
         BytesAt(p, a + RECORD_FIXED_SIZE, data)
  }

  /** The records rs lie one after the other from p[o] on. */
  ghost predicate RecordsAt(p: seq<byte>, o: nat, rs: seq<Record>)
    decreases |rs|
  {
    rs == [] || (RecordAt(p, o, rs[0]) && RecordsAt(p, o + RecordSize(rs[0]), rs[1..]))
  }

  /** The header of a response with n answers, as far as the client reads
      it: the query's ID bytes echoed (so read back in host order) and
      ANCOUNT.  The flags, QDCOUNT, NSCOUNT and ARCOUNT may hold anything:
      an authoritative answer, or one with authority and additional
      records behind its answers, is a response all the same. */
  ghost predicate ResponseHeaderAt(p: seq<byte>, id: uint16, n: uint16)
  {
    && HEADER_SIZE <= |p|
    && HostU16(p, ID_OFFSET) == id
    && U16(p, ANCOUNT_OFFSET) == n
  }

  /** p holds a response to the query for d and t under id: the header, the
      question repeated (the encoding of d, QTYPE and QCLASS), then the
      answers rs. */
  ghost predicate ResponseAt(p: seq<byte>, id: uint16, d: seq<byte>, t: RecordType, rs: seq<Record>)
  {
    && |rs| < 0x1_0000
    && HEADER_SIZE + |d| + 6 <= |p|
    && ResponseHeaderAt(p, id, |rs|)
    && PlainNameAt(p, HEADER_SIZE, d)
    && U16(p, HEADER_SIZE + |d| + 2) == TypeCode(t)
    && U16(p, HEADER_SIZE + |d| + 4) == CLASS_IN
    && RecordsAt(p, HEADER_SIZE + |d| + 6, rs)
  }

  /** A name stays in place when more bytes follow the buffer. */
  lemma NameRefAtPrefix(p: seq<byte>, q: seq<byte>, o: nat, n: NameRef)
    requires |q| <= |p| && q == p[..|q|]
    requires NameRefAt(q, o, n)
    ensures NameRefAt(p, o, n)
  {
    if n.Literal? {
      PlainNameAtPrefix(p, q, o, n.name);
    } else {
      assert q[o] == p[o] && q[o + 1] == p[o + 1];
    }
  }

  /** A record stays in place when more bytes follow the buffer. */
  lemma RecordAtPrefix(p: seq<byte>, q: seq<byte>, o: nat, r: Record)
    requires |q| <= |p| && q == p[..|q|]
    requires RecordAt(q, o, r)
    ensures RecordAt(p, o, r)
  {
    var a := o + NameRefSize(r.owner);
    NameRefAtPrefix(p, q, o, r.owner);
    U16Prefix(p, q, a + TYPE_OFFSET);
    U16Prefix(p, q, a + 2);
    U32Prefix(p, q, a + 4);
    U16Prefix(p, q, a + RDLENGTH_OFFSET);
    match r
    case MxRecord(_, _, pref, x) =>
      U16Prefix(p, q, a + RECORD_FIXED_SIZE);
      NameRefAtPrefix(p, q, a + RECORD_FIXED_SIZE + 2, x);
    case OtherRecord(_, _, _, data) =>
      BytesAtPrefix(p, q, a + RECORD_FIXED_SIZE, data);
  }

  lemma {:induction false} RecordsAtPrefix(p: seq<byte>, q: seq<byte>, o: nat, rs: seq<Record>)
    requires |q| <= |p| && q == p[..|q|]
    requires RecordsAt(q, o, rs)
    ensures RecordsAt(p, o, rs)
    decreases |rs|
  {
    if rs != [] {
      RecordAtPrefix(p, q, o, rs[0]);
      RecordsAtPrefix(p, q, o + RecordSize(rs[0]), rs[1..]);
    }
  }

  /** A response stays a response when more bytes follow it. */
  lemma ResponseAtPrefix(p: seq<byte>, q: seq<byte>, id: uint16, d: seq<byte>, t: RecordType, rs: seq<Record>)
    requires |q| <= |p| && q == p[..|q|]
    requires ResponseAt(q, id, d, t, rs)
    ensures ResponseAt(p, id, d, t, rs)
  {
    assert HostU16(p, ID_OFFSET) == HostU16(q, ID_OFFSET);
    U16Prefix(p, q, ANCOUNT_OFFSET);
    PlainNameAtPrefix(p, q, HEADER_SIZE, d);
    U16Prefix(p, q, HEADER_SIZE + |d| + 2);
    U16Prefix(p, q, HEADER_SIZE + |d| + 4);
    RecordsAtPrefix(p, q, HEADER_SIZE + |d| + 6, rs);
  }

  // ---------------------------------------------------------------------
  // Reading a response (dns.cpp, Parse_A_Request and Parse_MX_Request)
  // ---------------------------------------------------------------------

  /** An MX result: the preference and the exchange name's characters. */
  datatype MxAnswer = MxAnswer(pref: uint16, host: seq<byte>)

  /** The results of the MX walk, and whether it went through all answers. */
  datatype MxWalk = MxWalk(answers: seq<MxAnswer>, status: Status)

  function Extend(a: MxAnswer, w: MxWalk): MxWalk
  {
    MxWalk([a] + w.answers, w.status)
  }

  /** What Parse_A_Request returns for the buffer p after the answer
      arrives, when the question section ended at questionEnd in the query
      under the ID id: 0 for a foreign ID or no answers, otherwise the four
      bytes after the fixed fields of the first answer, whatever its type. */
  function AnswerAddress(p: seq<byte>, questionEnd: nat, id: uint16): (r: Result<uint32>)
    requires HEADER_SIZE <= |p|
    ensures HostU16(p, ID_OFFSET) != id || U16(p, ANCOUNT_OFFSET) == 0 ==> r == Ok(0)
    ensures r.Ok? && r.value != 0 ==> HostU16(p, ID_OFFSET) == id && U16(p, ANCOUNT_OFFSET) > 0
  {
    if HostU16(p, ID_OFFSET) != id then Ok(0)
    else if U16(p, ANCOUNT_OFFSET) == 0 then Ok(0)
    else
      match NameEnd(p, questionEnd)
      case Err(f) => Err(f)
      case Ok(a) =>
        if a + RECORD_FIXED_SIZE + 4 > |p| then Err(OutOfBounds)
        else Ok(U32(p, a + RECORD_FIXED_SIZE))
  }

  /** The loop of Parse_MX_Request over `count` answers from `cursor`: each
      record's name is skipped, an MX record's exchange name is decoded with
      at most `cap` characters, and the cursor moves past RDATA by RDLENGTH. */
  function MxRecords(p: seq<byte>, cursor: nat, count: nat, cap: nat): (w: MxWalk)
    ensures |w.answers| <= count
    decreases count
  {
    if count == 0 then MxWalk([], Complete)
    else
      match NameEnd(p, cursor)
      case Err(f) => MxWalk([], Failed(f))
      case Ok(a) =>
        if a + RECORD_FIXED_SIZE > |p| then MxWalk([], Failed(OutOfBounds))
        else
          var next := a + RECORD_FIXED_SIZE + U16(p, a + RDLENGTH_OFFSET);
          if U16(p, a + TYPE_OFFSET) == TypeCode(MX) then
            var h := DecodeName(p, a + RECORD_FIXED_SIZE + 2, cap);
            if h.status.Failed? then MxWalk([], h.status)
            else Extend(MxAnswer(U16(p, a + RECORD_FIXED_SIZE), h.chars), MxRecords(p, next, count - 1, cap))
          else MxRecords(p, next, count - 1, cap)
  }

  /** Every exchange name the walk returns holds at most `cap` characters,
      so with the corrected cap it fits, NUL included, in its 64-byte
      field. */
  lemma {:induction false} MxHostsFit(p: seq<byte>, cursor: nat, count: nat, cap: nat)
    ensures forall i :: 0 <= i < |MxRecords(p, cursor, count, cap).answers| ==>
              |MxRecords(p, cursor, count, cap).answers[i].host| <= cap
    decreases count
  {
    if count > 0 && NameEnd(p, cursor).Ok? {
      var a := NameEnd(p, cursor).value;
      if a + RECORD_FIXED_SIZE <= |p| {
        MxHostsFit(p, a + RECORD_FIXED_SIZE + U16(p, a + RDLENGTH_OFFSET), count - 1, cap);
      }
    }
  }

  /** The first `cap` characters of s. */
  function Truncated(s: seq<byte>, cap: nat): (t: seq<byte>)
    ensures |t| <= cap && t <= s
    ensures |s| <= cap ==> t == s
  {
    if |s| <= cap then s else s[..cap]
  }

  /** The MX answers of rs, in order, with their exchange names cut to
      `cap` characters. */
  function MxAnswers(rs: seq<Record>, question: seq<byte>, cap: nat): seq<MxAnswer>
  {
    if rs == [] then []
    else
      (if rs[0].MxRecord? then [MxAnswer(rs[0].pref, Truncated(NameRefValue(rs[0].exchange, question), cap))] else [])
      + MxAnswers(rs[1..], question, cap)
  }

  /** A name in a response ends where its bytes end. */
  lemma OwnerEnd(p: seq<byte>, o: nat, n: NameRef)
    requires NameRefAt(p, o, n)
    ensures NameEnd(p, o) == Ok(o + NameRefSize(n))
  {
    if n.Literal? {
      SkipPlainName(p, o, n.name);
    }
  }

  /** A name in a response decodes to the domain it stands for, cut to the
      cap. */
  lemma NameRefDecodes(p: seq<byte>, o: nat, n: NameRef, d: seq<byte>, cap: nat)
    requires NameRefAt(p, o, n)
    requires PlainNameAt(p, HEADER_SIZE, d)
    ensures DecodeName(p, o, cap) == Decoded(Truncated(NameRefValue(n, d), cap), Complete)
  {
    if n.Literal? {
      DecodePlainName(p, o, n.name, cap);
    } else {
      assert PointerTarget(p, o) == HEADER_SIZE;
      LengthByte(p, HEADER_SIZE, d, 0);
      DecodeLeadingPointer(p, o, cap);
      DecodePlainName(p, HEADER_SIZE, d, cap);
    }
  }

  /** The fields of a record, read back: its name ends where its bytes
      end, and TYPE, RDLENGTH and an MX record's RDATA follow. */
  lemma RecordFields(p: seq<byte>, o: nat, r: Record)
    requires RecordAt(p, o, r)
    ensures NameEnd(p, o) == Ok(o + NameRefSize(r.owner))
    ensures var a := o + NameRefSize(r.owner);
      && a + RECORD_FIXED_SIZE + RdataLength(r) <= |p|
      && U16(p, a + TYPE_OFFSET) == RecordTypeOf(r)
      && U16(p, a + RDLENGTH_OFFSET) == RdataLength(r)
      && (r.MxRecord? ==> U16(p, a + RECORD_FIXED_SIZE) == r.pref)
      && (r.MxRecord? ==> NameRefAt(p, a + RECORD_FIXED_SIZE + 2, r.exchange))
  {
    OwnerEnd(p, o, r.owner);
  }

  /** The walk passes over a record that is not of type MX: the next name
      starts RDLENGTH bytes after the record's fixed fields. */
  lemma SkipsOtherRecord(p: seq<byte>, o: nat, a: nat, n: nat, cap: nat, next: nat)
    requires NameEnd(p, o) == Ok(a) && a + RECORD_FIXED_SIZE <= |p|
    requires U16(p, a + TYPE_OFFSET) != TypeCode(MX)
    requires next == a + RECORD_FIXED_SIZE + U16(p, a + RDLENGTH_OFFSET)
    ensures MxRecords(p, o, n + 1, cap) == MxRecords(p, next, n, cap)
  {
  }

  /** The walk takes the preference and the decoded exchange name of an MX
      record, and the next name starts RDLENGTH bytes after the record's
      fixed fields. */
  lemma TakesMxRecord(p: seq<byte>, o: nat, a: nat, n: nat, cap: nat, pref: uint16, host: seq<byte>, next: nat)
    requires NameEnd(p, o) == Ok(a) && a + RECORD_FIXED_SIZE + 2 <= |p|
    requires U16(p, a + TYPE_OFFSET) == TypeCode(MX)
    requires DecodeName(p, a + RECORD_FIXED_SIZE + 2, cap) == Decoded(host, Complete)
    requires pref == U16(p, a + RECORD_FIXED_SIZE)
    requires next == a + RECORD_FIXED_SIZE + U16(p, a + RDLENGTH_OFFSET)
    ensures MxRecords(p, o, n + 1, cap) == Extend(MxAnswer(pref, host), MxRecords(p, next, n, cap))
  {
  }

  /** The walk ends where a name cannot be skipped, where the fixed fields
      of a record run past the buffer, and where an MX record's exchange
      name cannot be decoded; it collects nothing more. */
  lemma WalkFaults(p: seq<byte>, o: nat, n: nat, cap: nat)
    ensures NameEnd(p, o).Err? ==> MxRecords(p, o, n + 1, cap) == MxWalk([], Failed(NameEnd(p, o).fault))
    ensures NameEnd(p, o).Ok? && NameEnd(p, o).value + RECORD_FIXED_SIZE > |p| ==>
              MxRecords(p, o, n + 1, cap) == MxWalk([], Failed(OutOfBounds))
    ensures NameEnd(p, o).Ok? && NameEnd(p, o).value + RECORD_FIXED_SIZE <= |p| ==>
              var a := NameEnd(p, o).value;
              U16(p, a + TYPE_OFFSET) == TypeCode(MX) &&
              DecodeName(p, a + RECORD_FIXED_SIZE + 2, cap).status.Failed? ==>
              MxRecords(p, o, n + 1, cap) == MxWalk([], DecodeName(p, a + RECORD_FIXED_SIZE + 2, cap).status)
  {
  }

  /** One step of the MX walk over the MX record r at offset o: it adds the
      record's preference and exchange name, and the walk goes on after r. */
  lemma WalkMxStep(p: seq<byte>, o: nat, r: Record, d: seq<byte>, n: nat, cap: nat)
    requires r.MxRecord? && RecordAt(p, o, r)
    requires PlainNameAt(p, HEADER_SIZE, d)
    ensures MxRecords(p, o, n + 1, cap)
         == Extend(MxAnswer(r.pref, Truncated(NameRefValue(r.exchange, d), cap)), MxRecords(p, o + RecordSize(r), n, cap))
  {
    var a := o + NameRefSize(r.owner);
    RecordFields(p, o, r);
    NameRefDecodes(p, a + RECORD_FIXED_SIZE + 2, r.exchange, d, cap);
    TakesMxRecord(p, o, a, n, cap, r.pref, Truncated(NameRefValue(r.exchange, d), cap), o + RecordSize(r));
  }

  /** One step of the MX walk over a record r of another type at offset o:
      it is passed over, and the walk goes on after r. */
  lemma WalkOtherStep(p: seq<byte>, o: nat, r: Record, n: nat, cap: nat)
    requires r.OtherRecord? && RecordAt(p, o, r)
    ensures MxRecords(p, o, n + 1, cap) == MxRecords(p, o + RecordSize(r), n, cap)
  {
    RecordFields(p, o, r);
    SkipsOtherRecord(p, o, o + NameRefSize(r.owner), n, cap, o + RecordSize(r));
  }

  /** The answers an MX walk collects before the walk w of the records
      after them. */
  function Prepend(s: seq<MxAnswer>, w: MxWalk): MxWalk
  {
    MxWalk(s + w.answers, w.status)
  }

  /** One step of the MX walk over the record r at offset o: it adds r's
      MX answer, if any, and the walk goes on after r. */
  lemma WalkStep(p: seq<byte>, o: nat, r: Record, d: seq<byte>, n: nat, cap: nat)
    requires RecordAt(p, o, r)
    requires PlainNameAt(p, HEADER_SIZE, d)
    ensures MxRecords(p, o, n + 1, cap) == Prepend(MxAnswers([r], d, cap), MxRecords(p, o + RecordSize(r), n, cap))
  {
    if r.MxRecord? {
      WalkMxStep(p, o, r, d, n, cap);
    } else {
      WalkOtherStep(p, o, r, n, cap);
    }
  }

  /** The MX walk over the records rs at offset o of the buffer returns the
      MX answers of rs, in order, with the exchange names decoded. */
  lemma {:induction false} WalkRecords(p: seq<byte>, o: nat, rs: seq<Record>, d: seq<byte>, cap: nat)
    requires RecordsAt(p, o, rs)
    requires PlainNameAt(p, HEADER_SIZE, d)
    ensures MxRecords(p, o, |rs|, cap) == MxWalk(MxAnswers(rs, d, cap), Complete)
    decreases |rs|
  {
    if rs != [] {
      var r, rest := rs[0], rs[1..];
      WalkRecords(p, o + RecordSize(r), rest, d, cap);
      WalkStep(p, o, r, d, |rest|, cap);
    }
  }

  /** For a response to the query for d, Parse_A_Request returns the data of
      the first answer; for an A record that is its address. */
  lemma AddressOfResponse(p: seq<byte>, id: uint16, d: seq<byte>, rs: seq<Record>)
    requires ResponseAt(p, id, d, A, rs)
    requires rs != [] && rs[0].OtherRecord? && |rs[0].rdata| >= 4
    ensures HEADER_SIZE <= |p|
    ensures AnswerAddress(p, HEADER_SIZE + |d| + 6, id) == Ok(U32(rs[0].rdata, 0))
  {
    var o := HEADER_SIZE + |d| + 6;
    var r := rs[0];
    OwnerEnd(p, o, r.owner);
    U32Of(p, o + NameRefSize(r.owner) + RECORD_FIXED_SIZE, r.rdata);
  }

  /** For a response to the query for d, the MX walk over ANCOUNT answers
      returns the response's MX answers. */
  lemma MxOfResponse(p: seq<byte>, id: uint16, d: seq<byte>, rs: seq<Record>, cap: nat)
    requires ResponseAt(p, id, d, MX, rs)
    ensures HEADER_SIZE <= |p| && U16(p, ANCOUNT_OFFSET) == |rs|
    ensures MxRecords(p, HEADER_SIZE + |d| + 6, U16(p, ANCOUNT_OFFSET), cap) == MxWalk(MxAnswers(rs, d, cap), Complete)
  {
    WalkRecords(p, HEADER_SIZE + |d| + 6, rs, d, cap);
  }
}
