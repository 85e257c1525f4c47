/** The resolver client of dns.cpp: one object holding the 1024-byte packet
    buffer, the length of the last query, its transaction ID and the MX
    results.  The sockets are left out: the datagram a server sends back is
    a parameter of the parsers, and the transaction ID, which the source
    draws from `rand`, is a parameter of SendRequest. */
module DnsClient {
  import opened Wire
  import opened Names
  import opened Messages

  /** The buffer after `recvfrom` with room for 1024 bytes: the datagram's
      first 1024 bytes, and behind a shorter datagram the bytes the buffer
      held before. */
  function Received(before: seq<byte>, response: seq<byte>): (p: seq<byte>)
    requires |before| == BUFFER_SIZE
    ensures |p| == BUFFER_SIZE
    ensures forall k :: 0 <= k < |response| && k < BUFFER_SIZE ==> p[k] == response[k]
    ensures forall k :: |response| <= k < BUFFER_SIZE ==> p[k] == before[k]
  {
    if |response| >= BUFFER_SIZE then response[..BUFFER_SIZE] else response + before[|response|..]
  }

  /** A response that fits in the buffer is found there after it arrives,
      whatever the buffer held before. */
  lemma ReceivedResponse(before: seq<byte>, response: seq<byte>, id: uint16, d: seq<byte>, t: RecordType, rs: seq<Record>)
    requires |before| == BUFFER_SIZE && |response| <= BUFFER_SIZE
    requires ResponseAt(response, id, d, t, rs)
    ensures ResponseAt(Received(before, response), id, d, t, rs)
  {
    var p := Received(before, response);
    assert p[..|response|] == response;
    ResponseAtPrefix(p, response, id, d, t, rs);
  }

  /** What the client reads from a response to its MX query for d under
      id: the ID matches, and the walk over ANCOUNT answers returns the MX
      answers of the response, with exchange names cut to 63 characters. */
  lemma MxLookup(before: seq<byte>, response: seq<byte>, id: uint16, d: seq<byte>, rs: seq<Record>)
    requires |before| == BUFFER_SIZE && |response| <= BUFFER_SIZE
    requires ResponseAt(response, id, d, MX, rs)
    ensures HostU16(Received(before, response), ID_OFFSET) == id
    ensures MxRecords(Received(before, response), HEADER_SIZE + |d| + 6,
                      U16(Received(before, response), ANCOUNT_OFFSET), HOST_CAP).answers
         == MxAnswers(rs, d, HOST_CAP)
  {
    ReceivedResponse(before, response, id, d, MX, rs);
    MxOfResponse(Received(before, response), id, d, rs, HOST_CAP);
  }

  /** What the client reads from a response to its A query for d under id
      whose first answer carries at least four bytes of data: those four
      bytes. */
  lemma AddressLookup(before: seq<byte>, response: seq<byte>, id: uint16, d: seq<byte>, rs: seq<Record>)
    requires |before| == BUFFER_SIZE && |response| <= BUFFER_SIZE
    requires ResponseAt(response, id, d, A, rs)
    requires rs != [] && rs[0].OtherRecord? && |rs[0].rdata| >= 4
    ensures AnswerAddress(Received(before, response), HEADER_SIZE + |d| + 6, id) == Ok(U32(rs[0].rdata, 0))
  {
    ReceivedResponse(before, response, id, d, A, rs);
    AddressOfResponse(Received(before, response), id, d, rs);
  }

  lemma PrependTwice(s: seq<MxAnswer>, t: seq<MxAnswer>, w: MxWalk)
    ensures Prepend(s, Prepend(t, w)) == Prepend(s + t, w)
  {
    assert s + (t + w.answers) == (s + t) + w.answers;
  }

  class Client {
    /** The 1024-byte buffer that holds the query and then the response. */
    const packet: array<byte>
    /** The length of the last query; the answers of a response are read
        from this offset on. */
    var packetLen: uint32
    /** The ID of the last query. */
    var transId: uint16
    /** The MX answers of the last MX response. */
    var results: seq<MxAnswer>

    ghost predicate Valid()
      reads this
    {
      packet.Length == BUFFER_SIZE
    }

    constructor ()
      ensures Valid() && fresh(packet) && results == []
    {
      packet := new byte[BUFFER_SIZE];
      packetLen := 0;
      transId := 0;
      results := [];
    }

    /** Builds the query for `domain` and record type `qtype` under the ID
        `id` in the buffer: the name, the header, then QTYPE and QCLASS.
        The bytes after the query keep their contents. */
    method SendRequest(domain: seq<byte>, qtype: RecordType, id: uint16)
      requires Valid()
      requires forall k :: 0 <= k < |domain| ==> domain[k] != 0
      requires HEADER_SIZE + |domain| + 6 <= BUFFER_SIZE
      modifies this, packet
      ensures Valid() && results == old(results)
      ensures transId == id
      ensures packetLen as int == HEADER_SIZE + |domain| + 6
      ensures QueryAt(packet[..], id, domain, qtype)
      ensures packet[..packetLen] == QueryPacket(id, domain, qtype)
      ensures packet[packetLen..] == old(packet[..])[packetLen..]
    {
      var j := EncodeName(domain);
      ghost var named := packet[..];
      packetLen := HEADER_SIZE + j + 5;
      transId := id;
      WriteHeader(id);
      ghost var headed := packet[..];
      WriteQuestion(packetLen - 4, qtype);
      BytesAtFrame(named, headed, HEADER_SIZE, NameWire(domain));
      BytesAtFrame(headed, packet[..], HEADER_SIZE, NameWire(domain));
      BytesAtFrame(headed, packet[..], 0, Header(id));
      QueryAtIff(packet[..], id, domain, qtype);
      assert packet[packetLen..] == old(packet[..])[packetLen..];
    }

    /** The label loop of SendRequest: it copies the domain to offset 13
        and, at each '.' and at the end, writes the length of the label
        just finished in front of it; the name ends with a zero. */
    method EncodeName(domain: seq<byte>) returns (j: nat)
      requires Valid() && HEADER_SIZE + |domain| + 6 <= BUFFER_SIZE
      modifies packet
      ensures j == |domain| + 1
      ensures BytesAt(packet[..], HEADER_SIZE, NameWire(domain))
      ensures forall k :: 0 <= k < BUFFER_SIZE && !(HEADER_SIZE <= k < HEADER_SIZE + |domain| + 2) ==>
                packet[k] == old(packet[k])
    {
      var i, d := 0, -1;
      j := 1;
      while i < |domain|
        invariant 0 <= i <= |domain| && j == i + 1 && -1 <= d < i
        invariant d >= 0 ==> domain[d] == DOT
        invariant forall m :: d < m < i ==> domain[m] != DOT
        invariant forall m :: 0 <= m <= i && m != d + 1 ==> packet[HEADER_SIZE + m] == WireByte(domain, m)
        invariant forall k :: 0 <= k < BUFFER_SIZE && (k < HEADER_SIZE || k > HEADER_SIZE + i) ==> packet[k] == old(packet[k])
      {
        if domain[i] == DOT {
          LabelLenIs(domain, d + 1, i - d - 1);
          packet[HEADER_SIZE + d + 1] := (i - d - 1) % 0x100;
          d := i;
        }
        packet[HEADER_SIZE + j] := domain[i];
        i, j := i + 1, j + 1;
      }
      CloseName(domain, d);
    }

    /** The end of the name: the zero byte behind it and the length byte of
        its last label, which starts one past the last dot d (or at the
        front when there is no dot). */
    method CloseName(domain: seq<byte>, d: int)
      requires Valid() && HEADER_SIZE + |domain| + 6 <= BUFFER_SIZE
      requires -1 <= d < |domain| && (d >= 0 ==> domain[d] == DOT)
      requires forall m :: d < m < |domain| ==> domain[m] != DOT
      requires forall m :: 0 <= m <= |domain| && m != d + 1 ==> packet[HEADER_SIZE + m] == WireByte(domain, m)
      modifies packet
      ensures BytesAt(packet[..], HEADER_SIZE, NameWire(domain))
      ensures forall k :: 0 <= k < BUFFER_SIZE && !(HEADER_SIZE <= k < HEADER_SIZE + |domain| + 2) ==>
                packet[k] == old(packet[k])
    {
      packet[HEADER_SIZE + |domain| + 1] := 0;
      LabelLenIs(domain, d + 1, |domain| - d - 1);
      packet[HEADER_SIZE + d + 1] := (|domain| - d - 1) % 0x100;
      forall m | 0 <= m < |domain| + 2
        ensures packet[HEADER_SIZE + m] == NameWire(domain)[m]
      {
        if m <= |domain| {
          NameWireAt(domain, m);
        }
      }
      BytesAtOf(packet[..], HEADER_SIZE, NameWire(domain));
    }

    /** The header: all twelve bytes zeroed, then the ID as a host-order
        `uint16_t`, flags 01 00 (RD) and QDCOUNT 00 01. */
    method WriteHeader(id: uint16)
      requires Valid()
      modifies packet
      ensures BytesAt(packet[..], 0, Header(id))
      ensures forall k :: HEADER_SIZE <= k < BUFFER_SIZE ==> packet[k] == old(packet[k])
    {
      for k := 0 to HEADER_SIZE
        invariant forall m :: 0 <= m < k ==> packet[m] == 0
        invariant forall m :: HEADER_SIZE <= m < BUFFER_SIZE ==> packet[m] == old(packet[m])
      {
        packet[k] := 0;
      }
      packet[0], packet[1] := id % 0x100, id / 0x100;
      packet[2] := 1;
      packet[5] := 1;
      assert Header(id) == [id % 0x100, id / 0x100, 1, 0, 0, 1, 0, 0, 0, 0, 0, 0];
      BytesAtOf(packet[..], 0, Header(id));
    }

    /** QTYPE and QCLASS (IN) at offset `at`. */
    method WriteQuestion(at: nat, qtype: RecordType)
      requires Valid() && at + 4 <= BUFFER_SIZE
      modifies packet
      ensures BytesAt(packet[..], at, Question(qtype))
      ensures forall k :: 0 <= k < BUFFER_SIZE && !(at <= k < at + 4) ==> packet[k] == old(packet[k])
    {
      var code := TypeCode(qtype);
      packet[at], packet[at + 1] := code / 0x100, code % 0x100;
      packet[at + 2], packet[at + 3] := 0, CLASS_IN;
      BytesAtOf(packet[..], at, Question(qtype));
    }

    /** The offset after the name at `start`: the cursor stops one past a
        zero byte or two past a pointer's first byte, and otherwise moves
        by the length byte, read as a signed `char`, plus one. */
    method SkipAnswerName(start: nat) returns (r: Result<nat>)
      requires Valid()
      ensures r == NameEnd(packet[..], start)
    {
      ghost var p := packet[..];
      var pos: int := start;
      var fuel: nat := BUFFER_SIZE;
      while true
        invariant NameEndFrom(p, pos, fuel) == NameEnd(p, start)
        decreases fuel
      {
        if pos < 0 || pos >= BUFFER_SIZE {
          return Err(OutOfBounds);
        }
        var b := packet[pos];
        if b == 0 {
          return Ok(pos + 1);
        }
        if IsPointer(b) {
          return Ok(pos + 2);
        }
        if fuel == 0 {
          return Err(Endless);
        }
        pos, fuel := pos + Signed(b) + 1, fuel - 1;
      }
    }

    /** Where the decoder starts: behind a leading pointer if the name
        begins with one, with the first label's length plus one as the
        index of the next length byte. */
    method NameStart(src: nat, cap: nat) returns (s: nat, len: uint32, ok: bool)
      requires Valid()
      ensures ok ==> DecodeName(packet[..], src, cap) == DecodeFrom(packet[..], s, 1, len, cap)
      ensures !ok ==> DecodeName(packet[..], src, cap) == Decoded([], Failed(OutOfBounds))
    {
      if src + 1 >= BUFFER_SIZE {
        return 0, 0, false;
      }
      var lead: int := packet[src] as int * 0x100 + packet[src + 1];
      s := src;
      if IsPointer(packet[src]) {
        s := lead % 0x4000;
      }
      if s >= BUFFER_SIZE {
        return s, 0, false;
      }
      len := Wrap32(Signed(packet[s]) + 1);
      ok := true;
    }

    /** One turn of the decoder's loop at a byte that is not the NUL: the
        character it writes, and where it reads next.  A copied byte keeps
        the label; at a length byte it writes '.' and adds the next label's
        length, first following a pointer if the byte starts one. */
    method NextChar(s: nat, i: nat, len: uint32, room: nat) returns (c: byte, s': nat, i': nat, len': uint32, ok: bool)
      requires Valid() && s + i < BUFFER_SIZE && packet[s + i] != 0 && room > 0
      ensures ok ==>
        DecodeFrom(packet[..], s, i, len, room) == Append([c], DecodeFrom(packet[..], s', i', len', room - 1))
      ensures !ok ==> DecodeFrom(packet[..], s, i, len, room) == Decoded([], Failed(OutOfBounds))
    {
      ghost var p := packet[..];
      if i != len {
        DecodeCopies(p, s, i, len, room);
        return packet[s + i], s, i + 1, len, true;
      }
      if !IsPointer(packet[s + i]) {
        DecodeDots(p, s, i, room);
        return DOT, s, i + 1, Wrap32(len + Signed(packet[s + i]) + 1), true;
      }
      if s + i + 1 >= BUFFER_SIZE {
        return 0, s, i, len, false;
      }
      var t: nat := (packet[s + i] as int * 0x100 + packet[s + i + 1]) % 0x4000;
      if t >= BUFFER_SIZE {
        return 0, s, i, len, false;
      }
      assert t == PointerTarget(p, s + i);
      DecodeFollows(p, s, i, room);
      return DOT, t, 1, Wrap32(Signed(packet[t]) + 1), true;
    }

    /** The decoder: it copies the name at `src` into `dst` with at most
        `cap` characters and a NUL after them, following a leading pointer
        and pointers met where a length byte is due, and writing every
        length byte after the first as '.'.  It returns how many characters
        it wrote and whether it reached the NUL. */
    method ParseMxRecord(src: nat, dst: array<byte>, cap: nat) returns (n: nat, status: Status)
      requires Valid() && dst != packet && cap < dst.Length
      modifies dst
      ensures n <= cap
      ensures DecodeName(packet[..], src, cap) == Decoded(dst[..n], status)
      ensures status == Complete ==> dst[n] == 0
    {
      ghost var p := packet[..];
      var s: nat, len: uint32, ok: bool := NameStart(src, cap);
      n := 0;
      if !ok {
        return 0, Failed(OutOfBounds);
      }
      var i: nat := 1;
      assert Append(dst[..0], DecodeFrom(p, s, i, len, cap)) == DecodeFrom(p, s, i, len, cap);
      while true
        invariant n <= cap && packet[..] == p
        invariant n <= cap && DecodeName(p, src, cap) == Append(dst[..n], DecodeFrom(p, s, i, len, cap - n))
        decreases cap - n
      {
        if s + i >= BUFFER_SIZE {
          return n, Failed(OutOfBounds);
        }
        if packet[s + i] == 0 || n >= cap {
          break;
        }
        var c: byte, s': nat, i': nat, len': uint32, more: bool := NextChar(s, i, len, cap - n);
        if !more {
          return n, Failed(OutOfBounds);
        }
        ghost var was := dst[..n];
        AppendAppend(was, [c], DecodeFrom(p, s', i', len', cap - n - 1));
        dst[n] := c;
        assert dst[..n + 1] == was + [c];
        s, i, len, n := s', i', len', n + 1;
      }
      dst[n] := 0;
      return n, Complete;
    }

    /** `recvfrom` into the buffer with room for 1024 bytes. */
    method Receive(response: seq<byte>)
      requires Valid()
      modifies packet
      ensures packet[..] == Received(old(packet[..]), response)
    {
      ghost var before := packet[..];
      var m := if |response| < BUFFER_SIZE then |response| else BUFFER_SIZE;
      for k := 0 to m
        invariant forall q :: 0 <= q < k ==> packet[q] == response[q]
        invariant forall q :: k <= q < BUFFER_SIZE ==> packet[q] == before[q]
      {
        packet[k] := response[k];
      }
      assert packet[..] == Received(before, response);
    }

    /** Parse_A_Request: receives the response and reads the address it
        answers with. */
    method ParseARequest(response: seq<byte>) returns (r: Result<uint32>)
      requires Valid()
      modifies packet
      ensures packet[..] == Received(old(packet[..]), response)
      ensures r == AnswerAddress(packet[..], packetLen, transId)
    {
      Receive(response);
      r := ReadAddress();
    }

    /** The address in a received A response: 0 when the ID is not the
        query's or there is no answer, otherwise the four bytes ten bytes
        behind the first answer's name, whatever the answer's TYPE. */
    method ReadAddress() returns (r: Result<uint32>)
      requires Valid()
      ensures r == AnswerAddress(packet[..], packetLen, transId)
    {
      if packet[ID_OFFSET] as int + packet[ID_OFFSET + 1] as int * 0x100 != transId {
        return Ok(0);
      }
      if packet[ANCOUNT_OFFSET] as int * 0x100 + packet[ANCOUNT_OFFSET + 1] == 0 {
        return Ok(0);
      }
      var end := SkipAnswerName(packetLen);
      if end.Err? {
        return Err(end.fault);
      }
      var at := end.value + RECORD_FIXED_SIZE;
      if at + 4 > BUFFER_SIZE {
        return Err(OutOfBounds);
      }
      var high: int := packet[at] as int * 0x100 + packet[at + 1];
      var low: int := packet[at + 2] as int * 0x100 + packet[at + 3];
      return Ok(high * 0x1_0000 + low);
    }

    /** Parse_MX_Request: receives the response and, when its ID is the
        query's, replaces the results by the MX answers it holds. */
    method ParseMxRequest(response: seq<byte>) returns (status: Status)
      requires Valid()
      modifies this`results, packet
      ensures packet[..] == Received(old(packet[..]), response)
      ensures HostU16(packet[..], ID_OFFSET) != transId ==> results == old(results) && status == Complete
      ensures HostU16(packet[..], ID_OFFSET) == transId ==>
        MxRecords(packet[..], packetLen, U16(packet[..], ANCOUNT_OFFSET), HOST_CAP) == MxWalk(results, status)
    {
      Receive(response);
      if packet[ID_OFFSET] as int + packet[ID_OFFSET + 1] as int * 0x100 != transId {
        return Complete;
      }
      results, status := ReadMxAnswers();
    }

    /** One turn of the MX walk: skips the answer's name at `cursor`,
        decodes the exchange name of an MX answer into a fresh 64-byte
        field, and moves past RDATA by RDLENGTH.  `found` holds the entry
        the answer adds, if any. */
    method ReadAnswer(cursor: nat, ghost p: seq<byte>, ghost rest: nat) returns (found: seq<MxAnswer>, next: nat, status: Status)
      requires Valid() && packet[..] == p
      ensures status.Failed? ==> MxRecords(p, cursor, rest + 1, HOST_CAP) == MxWalk([], status)
      ensures status == Complete ==>
        MxRecords(p, cursor, rest + 1, HOST_CAP) == Prepend(found, MxRecords(p, next, rest, HOST_CAP))
    {
      found, next := [], 0;
      WalkFaults(p, cursor, rest, HOST_CAP);
      var end := SkipAnswerName(cursor);
      if end.Err? {
        return [], 0, Failed(end.fault);
      }
      var a := end.value;
      if a + RECORD_FIXED_SIZE > BUFFER_SIZE {
        return [], 0, Failed(OutOfBounds);
      }
      var rtype: int := packet[a + TYPE_OFFSET] as int * 0x100 + packet[a + TYPE_OFFSET + 1];
      var rdlength: int := packet[a + RDLENGTH_OFFSET] as int * 0x100 + packet[a + RDLENGTH_OFFSET + 1];
      next := a + RECORD_FIXED_SIZE + rdlength;
      assert rtype == U16(p, a + TYPE_OFFSET) && rdlength == U16(p, a + RDLENGTH_OFFSET);
      if rtype != TypeCode(MX) {
        SkipsOtherRecord(p, cursor, a, rest, HOST_CAP, next);
        return [], next, Complete;
      }
      var host := new byte[MX_DATA_SIZE];
      var n, st := ParseMxRecord(a + RECORD_FIXED_SIZE + 2, host, HOST_CAP);
      assert packet[..] == p;
      if st.Failed? {
        return [], next, st;
      }
      var pref: int := packet[a + RECORD_FIXED_SIZE] as int * 0x100 + packet[a + RECORD_FIXED_SIZE + 1];
      TakesMxRecord(p, cursor, a, rest, HOST_CAP, pref, host[..n], next);
      found := [MxAnswer(pref, host[..n])];
      assert Prepend(found, MxRecords(p, next, rest, HOST_CAP)) == Extend(found[0], MxRecords(p, next, rest, HOST_CAP));
      status := Complete;
    }

    /** The walk over the answers of a received MX response: one entry
        per MX answer, in order; a fault ends the walk. */
    method ReadMxAnswers() returns (answers: seq<MxAnswer>, status: Status)
      requires Valid()
      ensures MxRecords(packet[..], packetLen, U16(packet[..], ANCOUNT_OFFSET), HOST_CAP) == MxWalk(answers, status)
    {
      ghost var p := packet[..];
      var count: nat := packet[ANCOUNT_OFFSET] as int * 0x100 + packet[ANCOUNT_OFFSET + 1];
      ghost var whole := MxRecords(p, packetLen, count, HOST_CAP);
      var cursor: nat := packetLen;
      var left: nat := count;
      answers := [];
      assert whole == Prepend(answers, MxRecords(p, cursor, left, HOST_CAP));
      while left > 0
        invariant packet[..] == p
        invariant whole == Prepend(answers, MxRecords(p, cursor, left, HOST_CAP))
      {
        var found, next, st := ReadAnswer(cursor, p, left - 1);
        if st.Failed? {
          assert answers + [] == answers;
          return answers, st;
        }
        PrependTwice(answers, found, MxRecords(p, next, left - 1, HOST_CAP));
        answers := answers + found;
        cursor, left := next, left - 1;
      }
      assert answers + [] == answers;
      return answers, Complete;
    }

    /** dns_get_iphost: the query for the A record of `domain`, then the
        address read from the response.  For every response to that query
        (its ID, its ANCOUNT, the question repeated, then the answers) whose
        first answer carries four bytes or more, those are the bytes
        returned. */
    method GetIpHost(domain: seq<byte>, id: uint16, response: seq<byte>) returns (r: Result<uint32>)
      requires Valid()
      requires forall k :: 0 <= k < |domain| ==> domain[k] != 0
      requires HEADER_SIZE + |domain| + 6 <= BUFFER_SIZE
      modifies this, packet
      ensures Valid() && transId == id && results == old(results)
      ensures packetLen as int == HEADER_SIZE + |domain| + 6
      ensures packet[..] == Received(QueryPacket(id, domain, A) + old(packet[..])[HEADER_SIZE + |domain| + 6..], response)
      ensures r == AnswerAddress(packet[..], HEADER_SIZE + |domain| + 6, id)
      ensures forall rs: seq<Record> ::
                (|response| <= BUFFER_SIZE && ResponseAt(response, id, domain, A, rs)
                 && rs != [] && rs[0].OtherRecord? && |rs[0].rdata| >= 4)
                ==> r == Ok(U32(rs[0].rdata, 0))
    {
      ghost var before := packet[..];
      SendRequest(domain, A, id);
      ghost var sent := packet[..];
      assert sent == sent[..packetLen] + sent[packetLen..];
      r := ParseARequest(response);
      forall rs: seq<Record> | |response| <= BUFFER_SIZE && ResponseAt(response, id, domain, A, rs)
                               && rs != [] && rs[0].OtherRecord? && |rs[0].rdata| >= 4
        ensures r == Ok(U32(rs[0].rdata, 0))
      {
        AddressLookup(sent, response, id, domain, rs);
      }
    }

    /** dns_get_mxhost: the query for the MX records of `domain`, then the
        answers read from the response; their number is the length of the
        result.  For every response to that query (its ID, its ANCOUNT, the
        question repeated, then the answers) these are its MX answers, in
        order. */
    method GetMxHost(domain: seq<byte>, id: uint16, response: seq<byte>) returns (answers: seq<MxAnswer>)
      requires Valid()
      requires forall k :: 0 <= k < |domain| ==> domain[k] != 0
      requires HEADER_SIZE + |domain| + 6 <= BUFFER_SIZE
      modifies this, packet
      ensures Valid() && transId == id && answers == results
      ensures packetLen as int == HEADER_SIZE + |domain| + 6
      ensures packet[..] == Received(QueryPacket(id, domain, MX) + old(packet[..])[HEADER_SIZE + |domain| + 6..], response)
      ensures HostU16(packet[..], ID_OFFSET) != id ==> answers == old(results)
      ensures HostU16(packet[..], ID_OFFSET) == id ==>
        answers == MxRecords(packet[..], HEADER_SIZE + |domain| + 6, U16(packet[..], ANCOUNT_OFFSET), HOST_CAP).answers
      ensures forall rs: seq<Record> :: |response| <= BUFFER_SIZE && ResponseAt(response, id, domain, MX, rs)
                ==> answers == MxAnswers(rs, domain, HOST_CAP)
    {
      ghost var before := packet[..];
      SendRequest(domain, MX, id);
      ghost var sent := packet[..];
      assert sent == sent[..packetLen] + sent[packetLen..];
      var _ := ParseMxRequest(response);
      answers := results;
      forall rs: seq<Record> | |response| <= BUFFER_SIZE && ResponseAt(response, id, domain, MX, rs)
        ensures answers == MxAnswers(rs, domain, HOST_CAP)
      {
        MxLookup(sent, response, id, domain, rs);
      }
    }
  }
}
