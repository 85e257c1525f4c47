/** Byte-level vocabulary of the DNS wire format (RFC 1035, section 4.1):
    octets, big-endian fields, the signed reading of a `char`, and
    compression pointers (RFC 1035, section 4.1.4). */
module Wire {

  /** One octet of the packet buffer, read as unsigned. */
  type byte = b: int | 0 <= b < 0x100
  type uint16 = x: int | 0 <= x < 0x1_0000
  type uint32 = x: int | 0 <= x < 0x1_0000_0000

  /** The client's packet buffer holds 1024 bytes. */
  const BUFFER_SIZE: nat := 1024
  /** The message header: ID, flags, QDCOUNT, ANCOUNT, NSCOUNT, ARCOUNT. */
  const HEADER_SIZE: nat := 12
  /** TYPE, CLASS, TTL and RDLENGTH in front of a record's RDATA. */
  const RECORD_FIXED_SIZE: nat := 10
  /** Header offsets of the ID and ANCOUNT fields. */
  const ID_OFFSET: nat := 0
  const ANCOUNT_OFFSET: nat := 6
  /** Offsets in a resource record, counted from the end of its owner name. */
  const TYPE_OFFSET: nat := 0
  const RDLENGTH_OFFSET: nat := 8
  /** The class IN. */
  const CLASS_IN: uint16 := 1
  /** The byte value of '.'. */
  const DOT: byte := 0x2E

  /** The record types the client can ask for. */
  datatype RecordType = A | NS | SOA | MX

  /** The value of the TYPE field on the wire.  The source's enumerators
      are these codes times 0x100, which on a little-endian host lie in
      memory as 00 then the code: the big-endian field. */
  function TypeCode(t: RecordType): (c: uint16)
    ensures 0 < c < 0x100
  {
    match t
    case A => 1
    case NS => 2
    case SOA => 6
    case MX => 15
  }

  /** The big-endian 16-bit field whose first byte is p[k]. */
  function U16(p: seq<byte>, k: nat): (v: uint16)
    requires k + 2 <= |p|
  {
    p[k] as int * 0x100 + p[k + 1]
  }

  /** The big-endian 32-bit field whose first byte is p[k]. */
  function U32(p: seq<byte>, k: nat): (v: uint32)
    requires k + 4 <= |p|
  {
    U16(p, k) * 0x1_0000 + U16(p, k + 2)
  }

  /** A 16-bit field read or written without byte swapping.  The source's
      constants (`0x0001` for the flags, `0x0100` for one question) are
      written for a little-endian host, so that is the host modelled: the
      first byte is the low one. */
  function HostU16(p: seq<byte>, k: nat): (v: uint16)
    requires k + 2 <= |p|
  {
    p[k] + p[k + 1] as int * 0x100
  }

  /** The host-order reading is the network-order one with its two bytes
      swapped. */
  lemma HostU16Swap(p: seq<byte>, k: nat)
    requires k + 2 <= |p|
    ensures HostU16(p, k) == (U16(p, k) % 0x100) * 0x100 + U16(p, k) / 0x100
  {
  }

  /** Every type code fits in one byte, so on the wire it is a zero byte
      followed by the code. */
  lemma TypeCodeWire(t: RecordType)
    ensures Be16(TypeCode(t)) == [0, TypeCode(t)]
  {
  }

  /** The two bytes of v, most significant first. */
  function Be16(v: uint16): (s: seq<byte>)
    ensures |s| == 2
  {
    [v / 0x100, v % 0x100]
  }

  /** The four bytes of v, most significant first. */
  function Be32(v: uint32): (s: seq<byte>)
    ensures |s| == 4
  {
    Be16(v / 0x1_0000) + Be16(v % 0x1_0000)
  }

  /** The bytes s lie in p from offset o on.  Stated byte by byte from the
      front, so that no quantifier over offsets is in play where it is
      assumed; BytesAtIndex and BytesAtOf convert to and from the indexed
      form. */
  ghost predicate BytesAt(p: seq<byte>, o: nat, s: seq<byte>)
    decreases |s|
  {
    o + |s| <= |p| && (|s| == 0 || (p[o] == s[0] && BytesAt(p, o + 1, s[1..])))
  }

  /** Byte k of s is byte o + k of p. */
  lemma BytesAtIndex(p: seq<byte>, o: nat, s: seq<byte>, k: nat)
    requires BytesAt(p, o, s) && k < |s|
    ensures o + |s| <= |p| && p[o + k] == s[k]
    decreases k
  {
    if k > 0 {
      BytesAtIndex(p, o + 1, s[1..], k - 1);
    }
  }

  /** BytesAt holds as soon as every byte of s is in place. */
  lemma BytesAtOf(p: seq<byte>, o: nat, s: seq<byte>)
    requires o + |s| <= |p|
    requires forall k :: 0 <= k < |s| ==> p[o + k] == s[k]
    ensures BytesAt(p, o, s)
    decreases |s|
  {
    if |s| > 0 {
      assert forall k :: 0 <= k < |s| - 1 ==> p[o + 1 + k] == s[1..][k] by {
        forall k | 0 <= k < |s| - 1
          ensures p[o + 1 + k] == s[1..][k]
        {
          assert p[o + (k + 1)] == s[k + 1];
        }
      }
      BytesAtOf(p, o + 1, s[1..]);
    }
  }

  /** Every sequence lies in itself. */
  lemma BytesAtSelf(p: seq<byte>)
    ensures BytesAt(p, 0, p)
  {
    BytesAtOf(p, 0, p);
  }

  /** The two parts of w = s + t lie one after the other. */
  lemma BytesAtSplit(p: seq<byte>, o: nat, w: seq<byte>, s: seq<byte>, t: seq<byte>)
    requires BytesAt(p, o, w) && w == s + t
    ensures BytesAt(p, o, s) && BytesAt(p, o + |s|, t)
  {
    forall k | 0 <= k < |s|
      ensures p[o + k] == s[k]
    {
      BytesAtIndex(p, o, w, k);
    }
    BytesAtOf(p, o, s);
    forall k | 0 <= k < |t|
      ensures p[o + |s| + k] == t[k]
    {
      BytesAtIndex(p, o, w, |s| + k);
    }
    BytesAtOf(p, o + |s|, t);
  }

  /** Bytes placed in q stay in place in a longer buffer that starts with
      q. */
  lemma BytesAtPrefix(p: seq<byte>, q: seq<byte>, o: nat, s: seq<byte>)
    requires |q| <= |p| && q == p[..|q|]
    requires BytesAt(q, o, s)
    ensures BytesAt(p, o, s)
    decreases |s|
  {
    if |s| > 0 {
      BytesAtPrefix(p, q, o + 1, s[1..]);
    }
  }

  /** Two runs of bytes one after the other form their concatenation. */
  lemma BytesAtConcat(p: seq<byte>, o: nat, s: seq<byte>, t: seq<byte>)
    requires BytesAt(p, o, s) && BytesAt(p, o + |s|, t)
    ensures BytesAt(p, o, s + t)
    decreases |s|
  {
    if |s| > 0 {
      assert (s + t)[1..] == s[1..] + t;
      BytesAtConcat(p, o + 1, s[1..], t);
    } else {
      assert s + t == t;
    }
  }

  /** The bytes s lie at the start of p exactly when p begins with s. */
  lemma BytesAtStart(p: seq<byte>, s: seq<byte>)
    ensures BytesAt(p, 0, s) <==> |s| <= |p| && p[..|s|] == s
  {
    if BytesAt(p, 0, s) {
      forall k | 0 <= k < |s|
        ensures p[k] == s[k]
      {
        BytesAtIndex(p, 0, s, k);
      }
    }
    if |s| <= |p| && p[..|s|] == s {
      BytesAtPrefix(p, p[..|s|], 0, s) by {
        BytesAtSelf(s);
      }
    }
  }

  /** Bytes in place stay in place when only bytes elsewhere change. */
  lemma BytesAtFrame(p: seq<byte>, q: seq<byte>, o: nat, s: seq<byte>)
    requires BytesAt(p, o, s) && |q| == |p|
    requires forall k :: o <= k < o + |s| ==> q[k] == p[k]
    ensures BytesAt(q, o, s)
    decreases |s|
  {
    if |s| > 0 {
      BytesAtFrame(p, q, o + 1, s[1..]);
    }
  }

  /** A 16-bit field is read back as the value whose bytes it holds. */
  lemma U16At(p: seq<byte>, o: nat, v: uint16)
    requires BytesAt(p, o, Be16(v))
    ensures U16(p, o) == v
  {
    BytesAtIndex(p, o, Be16(v), 0);
    BytesAtIndex(p, o, Be16(v), 1);
  }

  /** A 32-bit field is read back as the value whose bytes it holds. */
  lemma U32At(p: seq<byte>, o: nat, v: uint32)
    requires BytesAt(p, o, Be32(v))
    ensures U32(p, o) == v
  {
    BytesAtSplit(p, o, Be32(v), Be16(v / 0x1_0000), Be16(v % 0x1_0000));
    U16At(p, o, v / 0x1_0000);
    U16At(p, o + 2, v % 0x1_0000);
  }

  /** A 16-bit field of q is read the same in a longer buffer that starts
      with q. */
  lemma U16Prefix(p: seq<byte>, q: seq<byte>, k: nat)
    requires |q| <= |p| && q == p[..|q|] && k + 2 <= |q|
    ensures U16(p, k) == U16(q, k)
  {
  }

  /** A 32-bit field of q is read the same in a longer buffer that starts
      with q. */
  lemma U32Prefix(p: seq<byte>, q: seq<byte>, k: nat)
    requires |q| <= |p| && q == p[..|q|] && k + 4 <= |q|
    ensures U32(p, k) == U32(q, k)
  {
  }

  /** A 32-bit field read where the bytes s lie is the field at the start
      of s. */
  lemma U32Of(p: seq<byte>, o: nat, s: seq<byte>)
    requires BytesAt(p, o, s) && |s| >= 4
    ensures U32(p, o) == U32(s, 0)
  {
    BytesAtIndex(p, o, s, 0);
    BytesAtIndex(p, o, s, 1);
    BytesAtIndex(p, o, s, 2);
    BytesAtIndex(p, o, s, 3);
  }

  /** The value of a byte read through a signed `char`. */
  function Signed(b: byte): (s: int)
    ensures -0x80 <= s < 0x80
    ensures s == b || s == b - 0x100
  {
    if b < 0x80 then b else b - 0x100
  }

  /** Assignment to a 32-bit unsigned variable. */
  function Wrap32(x: int): (r: uint32)
    ensures 0 <= x < 0x1_0000_0000 ==> r == x
  {
    x % 0x1_0000_0000
  }

  /** The wrapped value differs from x by a multiple of 2^32. */
  lemma Wrap32Congruent(x: int)
    ensures (x - Wrap32(x)) % 0x1_0000_0000 == 0
  {
  }

  /** A length byte whose top two bits are both set starts a compression
      pointer. */
  predicate IsPointer(b: byte)
  {
    b >= 0xC0
  }

  /** IsPointer is the source's mask test `(b & 0xC0) == 0xC0`. */
  lemma PointerMask(b: byte)
    ensures IsPointer(b) <==> (b as bv8) & 0xC0 == 0xC0
  {
  }

  /** The offset a compression pointer at p[k], p[k + 1] refers to: its low
      14 bits (`& 0x3FFF`). */
  function PointerTarget(p: seq<byte>, k: nat): (t: nat)
    requires k + 2 <= |p|
    ensures t < 0x4000
    ensures IsPointer(p[k]) ==> t == (p[k] as int - 0xC0) * 0x100 + p[k + 1]
  {
    U16(p, k) % 0x4000
  }
}
