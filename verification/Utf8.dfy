/** UTF-8 (section 3 of RFC 3629) as the font scanner decodes it. */
module Utf8 {
  import opened Bits
  import opened Options

  type Scalar = c: int | 0 <= c < 0xD800 || 0xE000 <= c <= 0x10FFFF

  function Encode(c: Scalar): seq<Byte> {
    if c < 0x80 then [c]
    else if c < 0x800 then [0xC0 + c / 64, 0x80 + c % 64]
    else if c < 0x10000 then [0xE0 + c / 4096, 0x80 + c / 64 % 64, 0x80 + c % 64]
    else [0xF0 + c / 262144, 0x80 + c / 4096 % 64, 0x80 + c / 64 % 64, 0x80 + c % 64]
  }

  /** How many bytes the lead byte announces. */
  function Width(first: Byte): nat {
    if first < 0x80 then 1
    else if 0xC0 <= first < 0xE0 then 2
    else if 0xE0 <= first < 0xF0 then 3
    else if 0xF0 <= first < 0xF8 then 4
    else 1
  }

  /** The lead byte without its marker bits; a stray continuation byte or marker loses its top bit. */
  function LeadBits(first: Byte): nat {
    if first < 0x80 then first
    else if 0xC0 <= first < 0xE0 then first - 0xC0
    else if 0xE0 <= first < 0xF0 then first - 0xE0
    else if 0xF0 <= first < 0xF8 then first - 0xF0
    else first - 0x80
  }

  function Continue(cp: nat, bytes: seq<Byte>): nat {
    if bytes == [] then cp else Continue(cp, bytes[..|bytes| - 1]) * 64 + bytes[|bytes| - 1] % 64
  }

  function Decode(b: seq<Byte>): Option<(nat, nat)> {
    if b == [] || |b| < Width(b[0]) then None
    else Some((Continue(LeadBits(b[0]), b[1..Width(b[0])]), Width(b[0])))
  }

  /** The loop agrees with `Decode`: lead bits first, then six bits a byte. */
  method DecodeUtf8(b: seq<Byte>) returns (r: Option<(nat, nat)>)
    ensures r == Decode(b)
  {
    if b == [] {
      return None;
    }
    var first := b[0];
    var len: nat, cp: nat;
    if first < 0x80 {
      len, cp := 1, first;
    } else if first / 0x20 == 0x6 {
      len, cp := 2, first - 0xC0;
    } else if first / 0x10 == 0xE {
      len, cp := 3, first - 0xE0;
    } else if first / 0x8 == 0x1E {
      len, cp := 4, first - 0xF0;
    } else {
      len, cp := 1, first - 0x80;
    }
    if |b| < len {
      return None;
    }
    ghost var tail := b[1..len];
    for i := 1 to len
      invariant cp == Continue(LeadBits(first), tail[..i - 1])
    {
      PrefixGrows(b, len, i);
      ContinueMore(LeadBits(first), tail[..i - 1], b[i]);
      cp := cp * 64 + b[i] % 64;
    }
    assert tail[..len - 1] == tail;
    return Some((cp, len));
  }

  lemma PrefixGrows(b: seq<Byte>, len: nat, i: nat)
    requires 1 <= i < len <= |b|
    ensures b[1..len][..i] == b[1..len][..i - 1] + [b[i]]
  {
    assert b[1..len][i - 1] == b[i];
    assert b[1..len][..i][..i - 1] == b[1..len][..i - 1];
  }

  lemma ContinueOne(cp: nat, a: Byte)
    ensures Continue(cp, [a]) == cp * 64 + a % 64
  {
    assert [a][..0] == [];
  }

  lemma ContinueMore(cp: nat, bytes: seq<Byte>, a: Byte)
    ensures Continue(cp, bytes + [a]) == Continue(cp, bytes) * 64 + a % 64
  {
    assert (bytes + [a])[..|bytes|] == bytes;
  }

  /** Decoding inverts encoding for every scalar value, whatever follows it; 0xFE and 0xFF never lead. */
  lemma DecodeEncode(c: Scalar, rest: seq<Byte>)
    ensures 1 <= |Encode(c)| && Encode(c)[0] < 0xFE
    ensures Decode(Encode(c) + rest) == Some((c, |Encode(c)|))
  {
    var e := Encode(c);
    var b := e + rest;
    assert b[0] == e[0] && Width(e[0]) == |e|;
    assert b[1..|e|] == e[1..];
    EncodedTail(c);
  }

  lemma SixBitDigits(c: nat)
    ensures c == c / 64 * 64 + c % 64
    ensures c / 64 == c / 4096 * 64 + c / 64 % 64
    ensures c / 4096 == c / 262144 * 64 + c / 4096 % 64
  {
  }

  lemma EncodedTail(c: Scalar)
    ensures Continue(LeadBits(Encode(c)[0]), Encode(c)[1..]) == c
  {
    SixBitDigits(c);
    if c < 0x80 {
    } else if c < 0x800 {
      TailOfTwo(c / 64, c % 64);
    } else if c < 0x10000 {
      TailOfThree(c / 4096, c / 64 % 64, c % 64);
    } else {
      TailOfFour(c / 262144, c / 4096 % 64, c / 64 % 64, c % 64);
    }
  }

  lemma TailOfTwo(lead: nat, x: nat)
    requires lead < 32 && x < 64
    ensures Continue(LeadBits(0xC0 + lead), [0xC0 + lead, 0x80 + x][1..]) == lead * 64 + x
  {
    ContinueOne(lead, 0x80 + x);
    assert [0xC0 + lead, 0x80 + x][1..] == [0x80 + x];
  }

  lemma TailOfThree(lead: nat, x: nat, y: nat)
    requires lead < 16 && x < 64 && y < 64
    ensures Continue(LeadBits(0xE0 + lead), [0xE0 + lead, 0x80 + x, 0x80 + y][1..]) == (lead * 64 + x) * 64 + y
  {
    TwoMore(lead, x, y);
    assert [0xE0 + lead, 0x80 + x, 0x80 + y][1..] == [0x80 + x, 0x80 + y];
  }

  lemma TailOfFour(lead: nat, x: nat, y: nat, z: nat)
    requires lead < 8 && x < 64 && y < 64 && z < 64
    ensures Continue(LeadBits(0xF0 + lead), [0xF0 + lead, 0x80 + x, 0x80 + y, 0x80 + z][1..])
         == ((lead * 64 + x) * 64 + y) * 64 + z
  {
    ThreeMore(lead, x, y, z);
    assert [0xF0 + lead, 0x80 + x, 0x80 + y, 0x80 + z][1..] == [0x80 + x, 0x80 + y, 0x80 + z];
  }

  lemma ThreeMore(lead: nat, x: nat, y: nat, z: nat)
    requires x < 64 && y < 64 && z < 64
    ensures Continue(lead, [0x80 + x, 0x80 + y, 0x80 + z]) == (lead * 4096 + x * 64 + y) * 64 + z
  {
    TwoMore(lead, x, y);
    ContinueMore(lead, [0x80 + x, 0x80 + y], 0x80 + z);
    assert [0x80 + x, 0x80 + y] + [0x80 + z] == [0x80 + x, 0x80 + y, 0x80 + z];
  }

  lemma TwoMore(lead: nat, x: nat, y: nat)
    requires x < 64 && y < 64
    ensures Continue(lead, [0x80 + x, 0x80 + y]) == lead * 4096 + x * 64 + y
  {
    ContinueOne(lead, 0x80 + x);
    ContinueMore(lead, [0x80 + x], 0x80 + y);
    assert [0x80 + x] + [0x80 + y] == [0x80 + x, 0x80 + y];
  }
}
