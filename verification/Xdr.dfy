/**
  The XDR codec: encoders that store into a buffer in place, decoders that advance an offset.  A C pointer
  `&buf[k]` is a buffer and an index here.
 */
module Xdr {
  import opened Bytes

  // ------------------------------------------------------------------ encoders

  lemma LowBytesOfShifts(v: uint64)
    ensures v == 0x1_0000_0000 * (v / 256 / 256 / 256 / 256)
                 + Word(v / 256 / 256 / 256 % 256, v / 256 / 256 % 256, v / 256 % 256, v % 256)
    ensures v / 256 / 256 / 256 / 256 < 0x1_0000_0000
  {
  }

  lemma U32At(s: seq<byte>, at: nat, v: uint32)
    requires at + 4 <= |s|
    requires Word(s[at], s[at + 1], s[at + 2], s[at + 3]) == v
    ensures s[at..at + 4] == U32(v)
    ensures WordAt(s, at) == v
  {
    WordAtIs(s, at);
    BytesOfWord(s, at);
  }

  method EncodeU32(dst: array<byte>, at: nat, value: uint32) returns (written: nat)
    requires at + 4 <= dst.Length
    modifies dst
    ensures written == 4
    ensures dst[..at + 4] == old(dst[..at]) + U32(value)
    ensures forall i :: at + 4 <= i < dst.Length ==> dst[i] == old(dst[i])
  {
    var u32 := value;
    dst[at + 3] := u32 % 256;
    u32 := u32 / 256;
    dst[at + 2] := u32 % 256;
    u32 := u32 / 256;
    dst[at + 1] := u32 % 256;
    u32 := u32 / 256;
    dst[at] := u32 % 256;
    WordOfShifts(value);
    U32At(dst[..], at, value);
    assert dst[..at + 4] == old(dst[..at]) + dst[..][at..at + 4];
    return 4;
  }

  method EncodeU64(dst: array<byte>, at: nat, value: uint64) returns (written: nat)
    requires at + 8 <= dst.Length
    modifies dst
    ensures written == 8
    ensures Weight(dst[at..at + 8]) == value
    ensures dst[..at] == old(dst[..at])
    ensures forall i :: at + 8 <= i < dst.Length ==> dst[i] == old(dst[i])
  {
    var u64 := value;
    dst[at + 7] := u64 % 256;
    u64 := u64 / 256;
    dst[at + 6] := u64 % 256;
    u64 := u64 / 256;
    dst[at + 5] := u64 % 256;
    u64 := u64 / 256;
    dst[at + 4] := u64 % 256;
    u64 := u64 / 256;
    dst[at + 3] := u64 % 256;
    u64 := u64 / 256;
    dst[at + 2] := u64 % 256;
    u64 := u64 / 256;
    dst[at + 1] := u64 % 256;
    u64 := u64 / 256;
    dst[at] := u64 % 256;
    LowBytesOfShifts(value);
    WordOfShifts(value / 256 / 256 / 256 / 256);
    ghost var bs := dst[at..at + 8];
    WordAtIs(bs, 0);
    WordAtIs(bs, 4);
    WeightHalves(bs);
    return 8;
  }

  /** Copies `src` into the buffer, as memcpy does. */
  method Memcpy(dst: array<byte>, at: nat, src: seq<byte>)
    requires at + |src| <= dst.Length
    modifies dst
    ensures dst[..at + |src|] == old(dst[..at]) + src
    ensures forall i :: at + |src| <= i < dst.Length ==> dst[i] == old(dst[i])
  {
    forall i | 0 <= i < |src| {
      dst[at + i] := src[i];
    }
  }

  /**
    Length word and characters; no padding.  The length is cut to 32 bits, and so is the size returned,
    which is signed.
   */
  method EncodeString(dst: array<byte>, at: nat, str: seq<byte>) returns (written: int)
    requires at + 4 + ToUint32(|str|) <= dst.Length
    modifies dst
    ensures var n: nat := ToUint32(|str|);
            && written == ToInt32(ToUint32(n + 4))
            && dst[..at + 4 + n] == old(dst[..at]) + U32(n) + str[..n]
            && forall i :: at + 4 + n <= i < dst.Length ==> dst[i] == old(dst[i])
    ensures |str| + 4 < 0x8000_0000 ==>
              && written == 4 + |str|
              && dst[..at + written] == old(dst[..at]) + U32(|str|) + str
              && forall i :: at + written <= i < dst.Length ==> dst[i] == old(dst[i])
  {
    var strLen: nat := ToUint32(|str|);
    var n := EncodeU32(dst, at, strLen);
    Memcpy(dst, at + 4, str[..strLen]);
    assert |str| < 0x1_0000_0000 ==> str[..strLen] == str;
    return ToInt32(ToUint32(strLen + 4));
  }

  /** Length word and bytes; no padding. */
  method EncodeNBytes(dst: array<byte>, at: nat, bs: seq<byte>) returns (offset: int)
    requires |bs| + 4 <= 0x1_0000_0000
    requires at + 4 + |bs| <= dst.Length
    modifies dst
    ensures offset == ToInt32(ToUint32(4 + |bs|))
    ensures |bs| + 4 < 0x8000_0000 ==> offset == 4 + |bs|
    ensures dst[..at + 4 + |bs|] == old(dst[..at]) + U32(|bs|) + bs
    ensures forall i :: at + 4 + |bs| <= i < dst.Length ==> dst[i] == old(dst[i])
  {
    var size := EncodeU32(dst, at, |bs|);
    ghost var front := dst[..at + 4];
    for i := 0 to |bs|
      invariant dst[..at + 4] == front
      invariant forall j :: 0 <= j < i ==> dst[at + 4 + j] == bs[j]
      invariant forall j :: at + 4 + |bs| <= j < dst.Length ==> dst[j] == old(dst[j])
    {
      dst[at + size + i] := bs[i];
    }
    assert dst[at + 4..at + 4 + |bs|] == bs;
    assert dst[..at + 4 + |bs|] == front + dst[at + 4..at + 4 + |bs|];
    return ToInt32(ToUint32(size + |bs|));
  }

  /** Stores the zero bytes that bring `currentSize` up to a multiple of `alignSize`. */
  method EncodeAlign(dst: array<byte>, at: nat, currentSize: nat, alignSize: nat) returns (padding: nat)
    requires 0 < alignSize
    requires at + PaddingTo(currentSize, alignSize) <= dst.Length
    modifies dst
    ensures padding == PaddingTo(currentSize, alignSize)
    ensures dst[..at + padding] == old(dst[..at]) + Zeros(padding)
    ensures forall i :: at + padding <= i < dst.Length ==> dst[i] == old(dst[i])
  {
    padding := currentSize % alignSize;
    if padding == 0 {
      return;
    }
    padding := alignSize - padding;
    ghost var front := dst[..at];
    for i := 0 to padding
      invariant dst[..at] == front
      invariant forall j :: at <= j < at + i ==> dst[j] == 0
      invariant forall j :: at + padding <= j < dst.Length ==> dst[j] == old(dst[j])
    {
      dst[at + i] := 0;
    }
    assert dst[at..at + padding] == Zeros(padding);
    assert dst[..at + padding] == front + dst[at..at + padding];
  }

  /** `*dst |= 1 << 7`. */
  method EncodeLastFragment(dst: array<byte>)
    requires 0 < dst.Length
    modifies dst
    ensures dst[..] == old(dst[..])[0 := if old(dst[0]) < 128 then old(dst[0]) + 128 else old(dst[0])]
  {
    if dst[0] < 128 {
      dst[0] := dst[0] + 128;
    }
  }

  /** `*dst &= ~(1 << 7)`. */
  method StripLastFragment(dst: array<byte>)
    requires 0 < dst.Length
    modifies dst
    ensures dst[..] == old(dst[..])[0 := old(dst[0]) % 128]
  {
    dst[0] := dst[0] % 128;
  }

  lemma SevenBits(a: byte)
    ensures a % 128 == if a < 128 then a else a - 128
  {
  }

  lemma OneBitMore(low: int)
    requires 0 <= low < 0x8000_0000
    ensures low % 0x8000_0000 == low && (0x8000_0000 + low) % 0x8000_0000 == low
  {
  }

  lemma TopBit(a: byte, b: byte, c: byte, d: byte)
    ensures Word(a % 128, b, c, d) == Word(a, b, c, d) % 0x8000_0000
    ensures a < 128 <==> Word(a, b, c, d) < 0x8000_0000
  {
    var low := Word(a % 128, b, c, d);
    SevenBits(a);
    assert 0 <= low < 0x8000_0000;
    OneBitMore(low);
    assert Word(a, b, c, d) == if a < 128 then low else 0x8000_0000 + low;
  }

  /** Marking a length below 2^31 as a last fragment adds 2^31; stripping takes it off again. */
  lemma LastFragmentBit(n: uint32)
    ensures n < 0x8000_0000 ==> U32(n)[0] < 128 && U32(n)[0 := U32(n)[0] + 128] == U32(n + 0x8000_0000)
    ensures U32(n)[0 := U32(n)[0] % 128] == U32(n % 0x8000_0000)
  {
    var bs := U32(n);
    WeightOfFour(bs);
    TopBit(bs[0], bs[1], bs[2], bs[3]);
    var stripped := bs[0 := bs[0] % 128];
    WeightOfFour(stripped);
    U32Unique(stripped, n % 0x8000_0000);
    if n < 0x8000_0000 {
      var marked := bs[0 := bs[0] + 128];
      WeightOfFour(marked);
      U32Unique(marked, n + 0x8000_0000);
    }
  }

  // ------------------------------------------------------------------ decoders

  method DecodeU32(src: array<byte>, offset: nat) returns (u32: uint32, next: nat)
    requires offset + 4 <= src.Length
    ensures next == offset + 4
    ensures U32(u32) == src[offset..offset + 4]
    ensures u32 == WordAt(src[..], offset)
  {
    u32 := 0x100_0000 * src[offset] as int;
    u32 := u32 + 0x1_0000 * src[offset + 1] as int;
    u32 := u32 + 0x100 * src[offset + 2] as int;
    u32 := u32 + src[offset + 3] as int;
    U32At(src[..], offset, u32);
    assert src[..][offset..offset + 4] == src[offset..offset + 4];
    next := offset + 4;
  }

  /**
    The accumulator is 32 bits wide, so every partial result is cut back to 32 bits; the bits that are or-ed
    together are disjoint, so or-ing is adding.
   */
  method DecodeU64(src: array<byte>, offset: nat) returns (u64: uint64, next: nat)
    requires offset + 8 <= src.Length
    ensures next == offset + 8
    ensures u64 == Weight(src[offset..offset + 8]) % 0x1_0000_0000
  {
    var acc: uint32 := (0x100_0000_0000_0000 * src[offset] as int) % 0x1_0000_0000;
    assert acc == 0;
    acc := (acc + 0x1_0000_0000_0000 * src[offset + 1] as int) % 0x1_0000_0000;
    assert acc == 0;
    acc := (acc + 0x100_0000_0000 * src[offset + 2] as int) % 0x1_0000_0000;
    assert acc == 0;
    acc := (acc + 0x1_0000_0000 * src[offset + 3] as int) % 0x1_0000_0000;
    assert acc == 0;
    acc := (acc + 0x100_0000 * src[offset + 4] as int) % 0x1_0000_0000;
    assert acc == 0x100_0000 * src[offset + 4] as int;
    acc := (acc + 0x1_0000 * src[offset + 5] as int) % 0x1_0000_0000;
    acc := (acc + 0x100 * src[offset + 6] as int) % 0x1_0000_0000;
    acc := (acc + src[offset + 7] as int) % 0x1_0000_0000;
    assert acc == Word(src[offset + 4], src[offset + 5], src[offset + 6], src[offset + 7]);
    LowWord(src[offset..offset + 8]);
    return acc, offset + 8;
  }

  lemma LowWord(bs: seq<byte>)
    requires |bs| == 8
    ensures Weight(bs) % 0x1_0000_0000 == Word(bs[4], bs[5], bs[6], bs[7])
    ensures Weight(bs) < 0x1_0000_0000 <==> bs[..4] == Zeros(4)
  {
    var high, low := WordAt(bs, 0), WordAt(bs, 4);
    WordAtIs(bs, 4);
    WeightHalves(bs);
    HighAndLow(Weight(bs), high, low);
    ZeroWord(bs, high);
  }

  lemma ZeroWord(bs: seq<byte>, v: uint32)
    requires |bs| == 8 && v == WordAt(bs, 0)
    ensures v == 0 <==> bs[..4] == Zeros(4)
  {
    ZeroWordAt(bs, 0);
    assert bs[..4] == Zeros(4) <==> bs[0] == bs[1] == bs[2] == bs[3] == 0;
  }

  lemma WeightHalves(bs: seq<byte>)
    requires |bs| == 8
    ensures Weight(bs) == 0x1_0000_0000 * WordAt(bs, 0) + WordAt(bs, 4)
  {
    assert bs[..4] == bs[0..4] && bs[4..] == bs[4..8];
    WeightOfEight(bs);
  }

  lemma HighAndLow(n: nat, high: uint32, low: uint32)
    requires n == 0x1_0000_0000 * high + low
    ensures n % 0x1_0000_0000 == low
    ensures n < 0x1_0000_0000 <==> high == 0
  {
  }

  /** What XDR asks of a 64-bit decoder is met exactly on values below 2^32. */
  lemma U64RoundTrip(bs: seq<byte>, value: uint64)
    requires |bs| == 8 && Weight(bs) == value
    ensures Weight(bs) % 0x1_0000_0000 == value <==> bs[..4] == Zeros(4)
  {
    LowWord(bs);
  }

  ghost predicate HasNul(s: seq<byte>, from: nat) {
    exists i :: from <= i < |s| && s[i] == 0
  }

  /** The characters from `from` up to the first NUL, as `std::string(const char*)` collects them. */
  function CString(s: seq<byte>, from: nat): (str: seq<byte>)
    requires HasNul(s, from)
    ensures from + |str| < |s| && s[from + |str|] == 0
    ensures str == s[from..from + |str|]
    ensures 0 !in str
    decreases |s| - from
  {
    if s[from] == 0 then [] else [s[from]] + CString(s, from + 1)
  }

  /** Between `from` and `from + len` stand exactly the characters of a C string. */
  ghost predicate CStringOfLength(s: seq<byte>, from: nat, len: nat) {
    && from + len < |s|
    && (forall i :: from <= i < from + len ==> s[i] != 0)
    && s[from + len] == 0
  }

  method DecodeString(src: array<byte>, str: seq<byte>, maxStrLength: uint32, offset: nat)
    returns (result: int, str': seq<byte>, offset': nat)
    requires offset + 4 <= src.Length
    requires WordAt(src[..], offset) < maxStrLength ==> HasNul(src[..], offset + 4)
    ensures result != -1 <==>
              && WordAt(src[..], offset) < maxStrLength
              && CStringOfLength(src[..], offset + 4, WordAt(src[..], offset))
    ensures result != -1 ==>
              && result == ToInt32(WordAt(src[..], offset))
              && offset' == offset + 4 + WordAt(src[..], offset) <= src.Length
              && str' == src[offset + 4..offset']
    ensures result == -1 ==> offset' == offset + 4
    ensures WordAt(src[..], offset) >= maxStrLength ==> str' == str
  {
    str' := str;
    var strLen;
    strLen, offset' := DecodeU32(src, offset);
    if strLen < maxStrLength {
      str' := CString(src[..], offset');
      assert src[..][offset + 4..offset + 4 + |str'|] == src[offset + 4..offset + 4 + |str'|];
      if |str'| == strLen {
        return ToInt32(strLen), str', offset' + strLen;
      }
      return -1, str', offset';
    }
    return -1, str', offset';
  }

  /** The bytes a length word within the limit announces, and the offset behind them. */
  function NBytesAt(s: seq<byte>, at: nat, maxBytes: uint32): Option<(seq<byte>, nat)>
    requires at + 4 <= |s|
    requires WordAt(s, at) <= maxBytes ==> at + 4 + WordAt(s, at) <= |s|
  {
    var n := WordAt(s, at);
    if n <= maxBytes then Some((s[at + 4..at + 4 + n], at + 4 + n)) else None
  }

  /** Appends the decoded bytes to the caller's vector. */
  method DecodeNBytes(src: array<byte>, bs: seq<byte>, maxBytes: uint32, offset: nat)
    returns (result: int, bs': seq<byte>, offset': nat)
    requires offset + 4 <= src.Length
    requires WordAt(src[..], offset) <= maxBytes ==> offset + 4 + WordAt(src[..], offset) <= src.Length
    ensures match NBytesAt(src[..], offset, maxBytes)
            case Some((decoded, next)) => result == ToInt32(|decoded|) && offset' == next && bs' == bs + decoded
            case None => result == -1 && offset' == offset + 4 && bs' == bs
  {
    bs' := bs;
    var byteLen;
    byteLen, offset' := DecodeU32(src, offset);
    if byteLen <= maxBytes {
      for i := 0 to byteLen
        invariant bs' == bs + src[..][offset'..offset' + i]
      {
        bs' := bs' + [src[offset' + i]];
      }
      offset' := offset' + byteLen;
      return ToInt32(byteLen), bs', offset';
    } else {
      return -1, bs', offset';
    }
  }

  // ------------------------------------------------------------------ XDR items (RFC 4506)

  /** Section 4.10 of RFC 4506: length, bytes, zero padding. */
  ghost function XdrOpaque(bs: seq<byte>): (r: seq<byte>)
    requires |bs| < 0x1_0000_0000
    ensures |r| == 4 + RoundUp4(|bs|)
  {
    U32(|bs|) + bs + Zeros(Pad(|bs|))
  }

  /** Where an encoded item stands, its parts can be read off. */
  lemma OpaqueInside(s: seq<byte>, at: nat, bs: seq<byte>)
    requires |bs| < 0x1_0000_0000
    requires Holds(s, at, XdrOpaque(bs))
    ensures WordAt(s, at) == |bs|
    ensures Holds(s, at + 4, bs)
    ensures Holds(s, at + 4 + |bs|, Zeros(Pad(|bs|)))
  {
    HoldsParts(s, at, U32(|bs|) + bs, Zeros(Pad(|bs|)));
    HoldsParts(s, at, U32(|bs|), bs);
    HoldsWord(s, at, |bs|);
  }

  /**
    Decoding an encoded and aligned string, wherever it stands: exactly the NUL-free strings below the limit
    that are followed by a zero byte come back, and padding is such a byte.
   */
  lemma StringRoundTrip(s: seq<byte>, at: nat, str: seq<byte>, maxStrLength: uint32)
    requires |str| < 0x1_0000_0000
    requires Holds(s, at, XdrOpaque(str))
    ensures WordAt(s, at) < maxStrLength && CStringOfLength(s, at + 4, WordAt(s, at)) <==>
              && |str| < maxStrLength
              && 0 !in str
              && (|str| % 4 != 0 || (at + |XdrOpaque(str)| < |s| && s[at + |XdrOpaque(str)|] == 0))
    ensures s[at + 4..at + 4 + |str|] == str
  {
    OpaqueInside(s, at, str);
    var from, len := at + 4, |str|;
    assert forall i :: 0 <= i < len ==> str[i] == s[from + i];
    assert (forall i :: from <= i < from + len ==> s[i] != 0) <==> 0 !in str by {
      if 0 in str {
        var i :| 0 <= i < len && str[i] == 0;
        assert s[from + i] == 0;
      }
      assert forall i :: from <= i < from + len ==> s[i] == str[i - from];
    }
    if len % 4 != 0 {
      assert s[from + len] == s[from + len..from + len + Pad(len)][0];
    }
  }

  /** Encoded bytes are decoded, wherever they stand, exactly when their number is within the limit. */
  lemma NBytesRoundTrip(s: seq<byte>, at: nat, bs: seq<byte>, maxBytes: uint32)
    requires |bs| < 0x1_0000_0000
    requires Holds(s, at, U32(|bs|) + bs)
    ensures at + 4 <= |s| && WordAt(s, at) == |bs| && at + 4 + |bs| <= |s|
    ensures NBytesAt(s, at, maxBytes) == Some((bs, at + 4 + |bs|)) <==> |bs| <= maxBytes
  {
    HoldsParts(s, at, U32(|bs|), bs);
    HoldsWord(s, at, |bs|);
  }
}
