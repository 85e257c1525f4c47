/** Domain names on the wire (RFC 1035, sections 3.1 and 4.1.4).  Three
    loops of the client work on names: the single-pass label encoder of the
    query builder, the name skipper of the answer walker and the
    compressed-name decoder of the MX parser.  Each is given here as the
    function its loop computes, together with what those functions promise:
    the shape of the encoding, where a name ends, that decoding gives the
    encoded domain back, follows pointers and never emits more than its cap. */
module Names {
  import opened Wire

  /** Characters the decoder emits at most before its NUL, as written
      (`j < 64`); the NUL then lands at index 64. */
  const SOURCE_CAP: nat := 64
  /** The cap that leaves room for the NUL in a 64-byte field. */
  const HOST_CAP: nat := 63
  /** Size of the exchange-name field of an MX result. */
  const MX_DATA_SIZE: nat := 64

  /** Why a walk over the buffer stopped early: it would have read outside
      the buffer, or its cursor entered a cycle and would never stop. */
  datatype Fault = OutOfBounds | Endless
  datatype Result<T> = Ok(value: T) | Err(fault: Fault)
  datatype Status = Complete | Failed(fault: Fault)

  // ---------------------------------------------------------------------
  // Encoding (dns.cpp, SendRequest)
  // ---------------------------------------------------------------------

  /** The number of characters from d[k] up to the next '.' or the end. */
  function LabelLen(d: seq<byte>, k: nat): (n: nat)
    requires k <= |d|
    ensures k + n <= |d|
    ensures k + n == |d| || d[k + n] == DOT
    decreases |d| - k
  {
    if k == |d| || d[k] == DOT then 0 else 1 + LabelLen(d, k + 1)
  }

  /** The distance to the next '.' determines LabelLen. */
  lemma LabelLenIs(d: seq<byte>, k: nat, n: nat)
    requires k + n <= |d|
    requires k + n == |d| || d[k + n] == DOT
    requires forall m :: k <= m < k + n ==> d[m] != DOT
    ensures LabelLen(d, k) == n
    decreases n
  {
    if n > 0 {
      assert d[k] != DOT;
      LabelLenIs(d, k + 1, n - 1);
    }
  }

  /** No '.' lies inside the label that starts at k. */
  lemma LabelNoDot(d: seq<byte>, k: nat, m: nat)
    requires k <= m < |d| && m < k + LabelLen(d, k)
    ensures d[m] != DOT
    decreases m - k
  {
    if m > k {
      LabelNoDot(d, k + 1, m);
    }
  }

  /** Index k starts a label of d: it is 0 or follows a '.'. */
  predicate LabelStart(d: seq<byte>, k: nat)
  {
    k == 0 || (0 < k <= |d| && d[k - 1] == DOT)
  }

  /** Byte m of the encoding of the dotted domain d, for m up to |d|: the
      length of the first label, then d with every '.' replaced by the
      length of the label after it.  A length is stored in a `char`, so it
      is taken modulo 256. */
  function WireByte(d: seq<byte>, m: nat): byte
    requires m <= |d|
  {
    if m == 0 then LabelLen(d, 0) % 0x100
    else if d[m - 1] == DOT then LabelLen(d, m) % 0x100
    else d[m - 1]
  }

  /** The bytes the encoder writes for d: its WireBytes, then the
      terminating zero. */
  function NameWire(d: seq<byte>): (w: seq<byte>)
    ensures |w| == |d| + 2
    ensures w[|d| + 1] == 0
  {
    seq(|d| + 1, m requires 0 <= m <= |d| => WireByte(d, m)) + [0]
  }

  lemma NameWireAt(d: seq<byte>, m: nat)
    requires m <= |d|
    ensures NameWire(d)[m] == WireByte(d, m)
  {
  }

  /** A domain whose encoding is the standard one: a C string (no NUL)
      whose labels all hold 1 to 63 characters, short enough that its query
      fits in the buffer. */
  ghost predicate ValidDomain(d: seq<byte>)
  {
    && HEADER_SIZE + |d| + 6 <= BUFFER_SIZE
    && (forall k :: 0 <= k < |d| ==> d[k] != 0)
    && (forall k :: 0 <= k <= |d| && LabelStart(d, k) ==> 1 <= LabelLen(d, k) <= 63)
  }

  /** The labels joined with '.'. */
  function Join(ls: seq<seq<byte>>): seq<byte>
    requires |ls| > 0
  {
    if |ls| == 1 then ls[0] else ls[0] + [DOT] + Join(ls[1..])
  }

  /** Reference form of section 3.1 of RFC 1035: each label preceded by its
      length, then the zero-length root label. */
  function LabelsWire(ls: seq<seq<byte>>): seq<byte>
  {
    if ls == [] then [0] else [|ls[0]| % 0x100] + ls[0] + LabelsWire(ls[1..])
  }

  predicate NoDot(l: seq<byte>)
  {
    forall k :: 0 <= k < |l| ==> l[k] != DOT
  }

  lemma NameWireSingle(l: seq<byte>)
    requires NoDot(l)
    ensures NameWire(l) == [|l| % 0x100] + l + [0]
  {
    LabelLenIs(l, 0, |l|);
    assert NameWire(l)[1..|l| + 1] == l;
  }

  lemma LabelLenShift(l: seq<byte>, r: seq<byte>, k: nat)
    requires k <= |r|
    ensures LabelLen(l + [DOT] + r, |l| + 1 + k) == LabelLen(r, k)
  {
    var d := l + [DOT] + r;
    var n := LabelLen(r, k);
    forall m | |l| + 1 + k <= m < |l| + 1 + k + n
      ensures d[m] != DOT
    {
      assert d[m] == r[m - |l| - 1];
      LabelNoDot(r, k, m - |l| - 1);
    }
    LabelLenIs(d, |l| + 1 + k, n);
  }

  /** The first label's bytes of the encoding of l + "." + r. */
  lemma NameWireConsHead(l: seq<byte>, r: seq<byte>, m: nat)
    requires NoDot(l)
    requires m <= |l|
    ensures NameWire(l + [DOT] + r)[m] == ([|l| % 0x100] + l)[m]
  {
    var d := l + [DOT] + r;
    NameWireAt(d, m);
    if m == 0 {
      LabelLenIs(d, 0, |l|);
    } else {
      assert d[m - 1] == l[m - 1];
    }
  }

  /** The bytes of the encoding of l + "." + r from the dot on. */
  lemma NameWireConsTail(l: seq<byte>, r: seq<byte>, m: nat)
    requires |l| < m < |l| + |r| + 3
    ensures NameWire(l + [DOT] + r)[m] == NameWire(r)[m - |l| - 1]
  {
    var d := l + [DOT] + r;
    if m <= |d| {
      NameWireAt(d, m);
      NameWireAt(r, m - |l| - 1);
      LabelLenShift(l, r, m - |l| - 1);
      if m > |l| + 1 {
        assert d[m - 1] == r[m - |l| - 2];
      }
    }
  }

  lemma NameWireCons(l: seq<byte>, r: seq<byte>)
    requires NoDot(l)
    ensures NameWire(l + [DOT] + r) == [|l| % 0x100] + l + NameWire(r)
  {
    var lhs := NameWire(l + [DOT] + r);
    var head := [|l| % 0x100] + l;
    var rhs := head + NameWire(r);
    forall m | 0 <= m < |lhs|
      ensures lhs[m] == rhs[m]
    {
      if m <= |l| {
        NameWireConsHead(l, r, m);
      } else {
        NameWireConsTail(l, r, m);
      }
    }
  }

  /** The encoder's output is the label form: each dot-separated label
      preceded by its length byte, terminated by 0. */
  lemma {:induction false} NameWireOfLabels(ls: seq<seq<byte>>)
    requires |ls| > 0
    requires forall i :: 0 <= i < |ls| ==> NoDot(ls[i])
    ensures NameWire(Join(ls)) == LabelsWire(ls)
  {
    if |ls| == 1 {
      NameWireSingle(ls[0]);
      assert LabelsWire(ls[1..]) == [0];
    } else {
      NameWireCons(ls[0], Join(ls[1..]));
      NameWireOfLabels(ls[1..]);
    }
  }

  /** The ASCII bytes of "example" and "com". */
  const EXAMPLE: seq<byte> := [0x65, 0x78, 0x61, 0x6D, 0x70, 0x6C, 0x65]
  const COM: seq<byte> := [0x63, 0x6F, 0x6D]

  /** "example.com" encodes to 07 'example' 03 'com' 00. */
  lemma ExampleEncoding()
    ensures NameWire(EXAMPLE + [DOT] + COM) == [7] + EXAMPLE + [3] + COM + [0]
  {
    NameWireCons(EXAMPLE, COM);
    NameWireSingle(COM);
  }

  // ---------------------------------------------------------------------
  // Names inside a packet
  // ---------------------------------------------------------------------

  /** At p[src] start the labels of the valid domain d as the encoder
      writes them, up to but not including the terminating byte, and that
      byte exists. */
  ghost predicate LabelsAt(p: seq<byte>, src: nat, d: seq<byte>)
  {
    ValidDomain(d) && src + |d| + 2 <= |p|
    && (forall k {:trigger WireByte(d, k)} :: 0 <= k <= |d| ==> p[src + k] == WireByte(d, k))
  }

  /** An uncompressed name for d at p[src]. */
  ghost predicate PlainNameAt(p: seq<byte>, src: nat, d: seq<byte>)
  {
    LabelsAt(p, src, d) && p[src + |d| + 1] == 0
  }

  /** An uncompressed name in q stays in place in a longer buffer that
      starts with q. */
  lemma PlainNameAtPrefix(p: seq<byte>, q: seq<byte>, src: nat, d: seq<byte>)
    requires |q| <= |p| && q == p[..|q|]
    requires PlainNameAt(q, src, d)
    ensures PlainNameAt(p, src, d)
  {
    forall k | 0 <= k <= |d|
      ensures p[src + k] == WireByte(d, k)
    {
      assert q[src + k] == WireByte(d, k);
    }
    assert q[src + |d| + 1] == 0;
  }

  /** The labels of d at p[src], ended by a compression pointer. */
  ghost predicate PointerEndedNameAt(p: seq<byte>, src: nat, d: seq<byte>)
  {
    LabelsAt(p, src, d) && src + |d| + 3 <= |p| && IsPointer(p[src + |d| + 1])
  }

  lemma LabelsAtByte(p: seq<byte>, src: nat, d: seq<byte>, i: nat)
    requires LabelsAt(p, src, d)
    requires i <= |d|
    ensures p[src + i] == WireByte(d, i)
  {
  }

  /** An encoding of a valid domain in the buffer is an uncompressed name
      there. */
  lemma NameWireIsPlainName(p: seq<byte>, src: nat, d: seq<byte>)
    requires ValidDomain(d)
    requires BytesAt(p, src, NameWire(d))
    ensures PlainNameAt(p, src, d)
  {
    forall k | 0 <= k <= |d|
      ensures p[src + k] == WireByte(d, k)
    {
      NameWireAt(d, k);
      BytesAtIndex(p, src, NameWire(d), k);
    }
    BytesAtIndex(p, src, NameWire(d), |d| + 1);
  }

  /** The byte after the label starting at d[k] is a non-zero, non-pointer
      length byte. */
  lemma LengthByte(p: seq<byte>, src: nat, d: seq<byte>, k: nat)
    requires LabelsAt(p, src, d)
    requires k <= |d| && LabelStart(d, k)
    ensures p[src + k] == LabelLen(d, k)
    ensures 1 <= p[src + k] <= 63
  {
    LabelsAtByte(p, src, d, k);
  }

  // ---------------------------------------------------------------------
  // Skipping a name (dns.cpp, SkipAnswerName)
  // ---------------------------------------------------------------------

  /** Where the record header after the name at `pos` begins.  A zero byte
      ends the name after it; a pointer ends it two bytes on; any other byte
      is a label length, read as a signed `char`, that moves the cursor by
      length + 1, possibly backwards.  `fuel` bounds the number of such
      moves: with as many moves as the buffer has bytes, a cursor that has
      not stopped has visited some position twice, and the source's loop
      would never end. */
  function NameEndFrom(p: seq<byte>, pos: int, fuel: nat): (r: Result<nat>)
    ensures r.Ok? ==> 0 < r.value <= |p| + 1
    decreases fuel
  {
    if pos < 0 || pos >= |p| then Err(OutOfBounds)
    else if p[pos] == 0 then Ok(pos + 1)
    else if IsPointer(p[pos]) then Ok(pos + 2)
    else if fuel == 0 then Err(Endless)
    else NameEndFrom(p, pos + Signed(p[pos]) + 1, fuel - 1)
  }

  /** The offset SkipAnswerName returns for a name at `start`. */
  function NameEnd(p: seq<byte>, start: nat): (r: Result<nat>)
    ensures r.Ok? ==> 0 < r.value <= |p| + 1
    ensures start >= |p| ==> r == Err(OutOfBounds)
  {
    NameEndFrom(p, start, |p|)
  }

  /** Walking the labels of d from a label start reaches the byte after
      them and stops there: one byte on for a zero, two for a pointer. */
  lemma {:induction false} SkipLabels(p: seq<byte>, src: nat, d: seq<byte>, b: nat, fuel: nat)
    requires LabelsAt(p, src, d)
    requires (b <= |d| && LabelStart(d, b)) || b == |d| + 1
    requires fuel >= |d| + 1 - b
    requires p[src + |d| + 1] == 0 || IsPointer(p[src + |d| + 1])
    ensures NameEndFrom(p, src + b, fuel)
         == Ok(src + |d| + (if p[src + |d| + 1] == 0 then 2 else 3))
    decreases |d| + 1 - b
  {
    if b <= |d| {
      LengthByte(p, src, d, b);
      var n := LabelLen(d, b);
      assert Signed(p[src + b]) == n;
      SkipLabels(p, src, d, b + n + 1, fuel - 1);
    }
  }

  /** An uncompressed name ends one past its terminating zero. */
  lemma SkipPlainName(p: seq<byte>, src: nat, d: seq<byte>)
    requires PlainNameAt(p, src, d)
    ensures NameEnd(p, src) == Ok(src + |d| + 2)
  {
    SkipLabels(p, src, d, 0, |p|);
  }

  /** A name ended by a pointer ends two bytes past the pointer's first
      byte. */
  lemma SkipPointerEndedName(p: seq<byte>, src: nat, d: seq<byte>)
    requires PointerEndedNameAt(p, src, d)
    ensures NameEnd(p, src) == Ok(src + |d| + 3)
  {
    SkipLabels(p, src, d, 0, |p|);
  }

  /** When no length byte the cursor can meet is negative as a `char`, the
      cursor only moves forward and the result lies past the start. */
  lemma {:induction false} SkipAdvances(p: seq<byte>, pos: int, fuel: nat)
    requires forall k :: 0 <= k < |p| && pos <= k ==> !(0x80 <= p[k] < 0xC0)
    ensures NameEndFrom(p, pos, fuel).Ok? ==> NameEndFrom(p, pos, fuel).value > pos
    decreases fuel
  {
    if 0 <= pos < |p| && p[pos] != 0 && !IsPointer(p[pos]) && fuel > 0 {
      SkipAdvances(p, pos + Signed(p[pos]) + 1, fuel - 1);
    }
  }

  /** Without that condition the cursor can move backwards: a length
      byte of 0xBF is -65 as a `char`, and the skip from it ends one byte
      into the packet, before where it started. */
  lemma SkipStepsBack()
    ensures var p := [0] + seq(63, _ => 1) + [0xBF]; NameEnd(p, 64) == Ok(1)
  {
    var p: seq<byte> := [0] + seq(63, _ => 1) + [0xBF];
    assert p[64] == 0xBF && p[0] == 0;
    assert NameEndFrom(p, 64, |p|) == NameEndFrom(p, 0, |p| - 1);
  }

  // ---------------------------------------------------------------------
  // Decoding a name (dns.cpp, Parse_MX_Record)
  // ---------------------------------------------------------------------

  /** The characters the decoder writes before its NUL, and whether it
      reached the NUL. */
  datatype Decoded = Decoded(chars: seq<byte>, status: Status)

  function Append(s: seq<byte>, r: Decoded): Decoded
  {
    Decoded(s + r.chars, r.status)
  }

  /** The decoder's loop from the state (src, i, len) with `room` more
      characters allowed.  `len` is the index of the next length byte, a
      32-bit unsigned variable to which signed `char` lengths are added.
      At that index a pointer moves src to its target, whose first length
      byte is consumed at once; every length byte is written as '.'. */
  function DecodeFrom(p: seq<byte>, src: nat, i: nat, len: nat, room: nat): (r: Decoded)
    ensures |r.chars| <= room
    decreases room
  {
    if src + i >= |p| then Decoded([], Failed(OutOfBounds))
    else if p[src + i] == 0 || room == 0 then Decoded([], Complete)
    else if i == len then
      if IsPointer(p[src + i]) then
        if src + i + 1 >= |p| then Decoded([], Failed(OutOfBounds))
        else
          var t := PointerTarget(p, src + i);
          if t >= |p| then Decoded([], Failed(OutOfBounds))
          else Append([DOT], DecodeFrom(p, t, 1, Wrap32(Signed(p[t]) + 1), room - 1))
      else
        Append([DOT], DecodeFrom(p, src, i + 1, Wrap32(len + Signed(p[src + i]) + 1), room - 1))
    else
      Append([p[src + i]], DecodeFrom(p, src, i + 1, len, room - 1))
  }

  /** The decoder on the name at p[src], with at most `cap` characters: it
      reads two bytes at src, follows a leading pointer, and skips the first
      length byte. */
  function DecodeName(p: seq<byte>, src: nat, cap: nat): (r: Decoded)
    ensures |r.chars| <= cap
    ensures r.status == Complete ==> src + 1 < |p|
  {
    if src + 1 >= |p| then Decoded([], Failed(OutOfBounds))
    else
      var s := if IsPointer(p[src]) then PointerTarget(p, src) else src;
      if s >= |p| then Decoded([], Failed(OutOfBounds))
      else DecodeFrom(p, s, 1, Wrap32(Signed(p[s]) + 1), cap)
  }

  /** One iteration of the decoder's loop that copies a character. */
  lemma DecodeCopies(p: seq<byte>, src: nat, i: nat, len: nat, room: nat)
    requires src + i < |p| && p[src + i] != 0 && room > 0 && i != len
    ensures DecodeFrom(p, src, i, len, room)
         == Append([p[src + i]], DecodeFrom(p, src, i + 1, len, room - 1))
  {
  }

  /** One iteration of the decoder's loop at an ordinary length byte. */
  lemma DecodeDots(p: seq<byte>, src: nat, i: nat, room: nat)
    requires src + i < |p| && p[src + i] != 0 && room > 0 && !IsPointer(p[src + i])
    ensures DecodeFrom(p, src, i, i, room)
         == Append([DOT], DecodeFrom(p, src, i + 1, Wrap32(i + Signed(p[src + i]) + 1), room - 1))
  {
  }

  /** One iteration of the decoder's loop at a pointer where a length byte
      is due. */
  lemma DecodeFollows(p: seq<byte>, src: nat, i: nat, room: nat)
    requires src + i + 1 < |p| && IsPointer(p[src + i]) && room > 0
    requires PointerTarget(p, src + i) < |p|
    ensures DecodeFrom(p, src, i, i, room)
         == Append([DOT], DecodeFrom(p, PointerTarget(p, src + i), 1,
                                     Wrap32(Signed(p[PointerTarget(p, src + i)]) + 1), room - 1))
  {
  }

  /** At a length byte the loop's state (src, i) only matters through
      src + i. */
  lemma DecodeShift(p: seq<byte>, src: nat, i: nat, room: nat)
    requires src + i + 1 < |p| && IsPointer(p[src + i])
    ensures DecodeFrom(p, src, i, i, room) == DecodeFrom(p, src + i, 0, 0, room)
  {
  }

  /** The index in an encoded name of the next length byte after index i. */
  function NextLengthByte(d: seq<byte>, i: nat): nat
    requires 1 <= i <= |d| + 1
  {
    i + LabelLen(d, i - 1)
  }

  /** One iteration of the decoder over the labels of d: the character or
      the '.' at d[i - 1] is emitted and the next length byte stays in
      step. */
  lemma DecodeLabelStep(p: seq<byte>, src: nat, d: seq<byte>, i: nat, room: nat)
    requires LabelsAt(p, src, d)
    requires 1 <= i <= |d|
    ensures room == 0 ==> DecodeFrom(p, src, i, NextLengthByte(d, i), room) == Decoded([], Complete)
    ensures room > 0 ==>
      DecodeFrom(p, src, i, NextLengthByte(d, i), room)
      == Append([d[i - 1]], DecodeFrom(p, src, i + 1, NextLengthByte(d, i + 1), room - 1))
  {
    LabelsAtByte(p, src, d, i);
    if d[i - 1] == DOT {
      LengthByte(p, src, d, i);
    }
    if room > 0 {
      var next := NextLengthByte(d, i + 1);
      if d[i - 1] == DOT {
        assert NextLengthByte(d, i) == i;
        assert Wrap32(i + Signed(p[src + i]) + 1) == next;
        DecodeDots(p, src, i, room);
      } else {
        assert LabelLen(d, i - 1) == 1 + LabelLen(d, i);
        assert NextLengthByte(d, i) == next;
        DecodeCopies(p, src, i, next, room);
      }
    }
  }

  lemma AppendAppend(s: seq<byte>, t: seq<byte>, r: Decoded)
    ensures Append(s, Append(t, r)) == Append(s + t, r)
  {
    assert s + (t + r.chars) == (s + t) + r.chars;
  }

  /** Decoding the labels of d from wire index i gives back d[i - 1..]:
      each character is copied and each later length byte becomes '.'. */
  lemma {:induction false} DecodeLabels(p: seq<byte>, src: nat, d: seq<byte>, i: nat, room: nat)
    requires LabelsAt(p, src, d)
    requires 1 <= i <= |d| + 1
    requires room >= |d| + 1 - i
    ensures DecodeFrom(p, src, i, NextLengthByte(d, i), room)
         == Append(d[i - 1..], DecodeFrom(p, src, |d| + 1, |d| + 1, room - (|d| + 1 - i)))
    decreases |d| + 1 - i
  {
    if i <= |d| {
      DecodeLabelStep(p, src, d, i, room);
      DecodeLabels(p, src, d, i + 1, room - 1);
      AppendAppend([d[i - 1]], d[i..], DecodeFrom(p, src, |d| + 1, |d| + 1, room - (|d| + 1 - i)));
      assert [d[i - 1]] + d[i..] == d[i - 1..];
    } else {
      assert d[i - 1..] == [];
    }
  }

  /** With too little room for the rest of d, the output is cut after
      `room` characters. */
  lemma {:induction false} DecodeLabelsCut(p: seq<byte>, src: nat, d: seq<byte>, i: nat, room: nat)
    requires LabelsAt(p, src, d)
    requires 1 <= i <= |d| + 1
    requires room < |d| + 1 - i
    ensures DecodeFrom(p, src, i, NextLengthByte(d, i), room) == Decoded(d[i - 1 .. i - 1 + room], Complete)
    decreases room
  {
    DecodeLabelStep(p, src, d, i, room);
    if room > 0 {
      DecodeLabelsCut(p, src, d, i + 1, room - 1);
      var rest := DecodeFrom(p, src, i + 1, NextLengthByte(d, i + 1), room - 1);
      assert rest.chars == d[i .. i + room - 1];
      assert d[i - 1 .. i - 1 + room] == [d[i - 1]] + d[i .. i + room - 1];
    } else {
      assert d[i - 1 .. i - 1 + room] == [];
    }
  }

  /** The decoder's loop started after the first length byte of an
      uncompressed name for d gives back d when it has room for it. */
  lemma DecodePlainFrom(p: seq<byte>, src: nat, d: seq<byte>, room: nat)
    requires PlainNameAt(p, src, d)
    requires |d| <= room
    ensures src < |p|
    ensures DecodeFrom(p, src, 1, Wrap32(Signed(p[src]) + 1), room) == Decoded(d, Complete)
  {
    LengthByte(p, src, d, 0);
    assert Wrap32(Signed(p[src]) + 1) == NextLengthByte(d, 1);
    DecodeLabels(p, src, d, 1, room);
    assert d[0..] == d;
  }

  /** Round trip: the decoder gives back the domain the encoder wrote,
      cut after `cap` characters when it is longer. */
  lemma DecodePlainName(p: seq<byte>, src: nat, d: seq<byte>, cap: nat)
    requires PlainNameAt(p, src, d)
    ensures |d| <= cap ==> DecodeName(p, src, cap) == Decoded(d, Complete)
    ensures |d| > cap ==> DecodeName(p, src, cap) == Decoded(d[..cap], Complete)
  {
    LengthByte(p, src, d, 0);
    if |d| <= cap {
      DecodePlainFrom(p, src, d, cap);
    } else {
      DecodeLabelsCut(p, src, d, 1, cap);
    }
  }

  /** A name whose first byte is a pointer decodes as the name at the
      pointer's target, unless that name itself starts with a pointer (which
      the decoder does not follow a second time at the start). */
  lemma DecodeLeadingPointer(p: seq<byte>, src: nat, cap: nat)
    requires src + 1 < |p| && IsPointer(p[src])
    requires PointerTarget(p, src) < |p| ==> !IsPointer(p[PointerTarget(p, src)])
    ensures DecodeName(p, src, cap) == DecodeName(p, PointerTarget(p, src), cap)
  {
  }

  /** A pointer at p[b], where a length byte is due, to an uncompressed
      name for d2 decodes as '.' followed by d2. */
  lemma DecodePointerToPlain(p: seq<byte>, b: nat, d2: seq<byte>, room: nat)
    requires b + 1 < |p| && IsPointer(p[b])
    requires PlainNameAt(p, PointerTarget(p, b), d2)
    requires |d2| < room
    ensures DecodeFrom(p, b, 0, 0, room) == Decoded([DOT] + d2, Complete)
  {
    DecodePlainFrom(p, PointerTarget(p, b), d2, room - 1);
    DecodeFollows(p, b, 0, room);
  }

  /** A pointer met where a length byte is due makes decoding continue with
      the labels at its target: labels d, then a pointer to an uncompressed
      name d2, decode to d + "." + d2. */
  lemma DecodePointerEndedName(p: seq<byte>, src: nat, d: seq<byte>, d2: seq<byte>, cap: nat)
    requires PointerEndedNameAt(p, src, d)
    requires PlainNameAt(p, PointerTarget(p, src + |d| + 1), d2)
    requires |d| + 1 + |d2| <= cap
    ensures DecodeName(p, src, cap) == Decoded(d + [DOT] + d2, Complete)
  {
    DecodePointerToPlain(p, src + |d| + 1, d2, cap - |d|);
    DecodeShift(p, src, |d| + 1, cap - |d|);
    LengthByte(p, src, d, 0);
    DecodeLabels(p, src, d, 1, cap);
    assert DecodeName(p, src, cap) == DecodeFrom(p, src, 1, NextLengthByte(d, 1), cap);
    assert d[0..] + ([DOT] + d2) == d + [DOT] + d2;
  }

  /** Bytes 01 'a' C0 t at offset t: a one-label name whose end points back
      to its own start. */
  ghost predicate SelfLoopAt(p: seq<byte>, t: nat)
  {
    t < 0x4000 && t + 4 <= |p|
    && p[t] == 1 && p[t + 1] == 0x61 && p[t + 2] == 0xC0 + t / 0x100 && p[t + 3] == t % 0x100
  }

  /** On the self-referential name the decoder keeps going round until its
      room is used up, and then stops: a pointer cycle ends the loop. */
  lemma {:induction false} SelfLoopFills(p: seq<byte>, t: nat, room: nat)
    requires SelfLoopAt(p, t)
    ensures DecodeFrom(p, t, 1, 2, room).status == Complete
    ensures |DecodeFrom(p, t, 1, 2, room).chars| == room
    ensures DecodeFrom(p, t, 2, 2, room).status == Complete
    ensures |DecodeFrom(p, t, 2, 2, room).chars| == room
  {
    if room > 0 {
      assert IsPointer(p[t + 2]);
      assert PointerTarget(p, t + 2) == t;
      SelfLoopFills(p, t, room - 1);
    }
  }

  /** As written: on a pointer cycle the decoder emits SOURCE_CAP = 64
      characters, so its NUL goes to index 64, one past the 64-byte field. */
  lemma NameOverflowWitness(p: seq<byte>, t: nat)
    requires SelfLoopAt(p, t)
    ensures DecodeName(p, t, SOURCE_CAP).status == Complete
    ensures |DecodeName(p, t, SOURCE_CAP).chars| == MX_DATA_SIZE
  {
    SelfLoopFills(p, t, SOURCE_CAP);
  }

  /** Corrected: with the cap at 63 the NUL always fits in the 64-byte
      field, and a name that does not end is cut at exactly 63 characters. */
  lemma CorrectedNameFits(p: seq<byte>, src: nat, t: nat)
    requires SelfLoopAt(p, t)
    ensures |DecodeName(p, src, HOST_CAP).chars| < MX_DATA_SIZE
    ensures DecodeName(p, t, HOST_CAP).status == Complete
    ensures |DecodeName(p, t, HOST_CAP).chars| == HOST_CAP
  {
    SelfLoopFills(p, t, HOST_CAP);
  }
}
