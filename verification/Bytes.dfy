/**
  Bytes, fixed-width words, and the weight of a byte string read as a big-endian number.  Every wire format
  of the project is stated on `seq<byte>`.
 */
module Bytes {

  type byte = b: int | 0 <= b < 256
  type uint32 = n: int | 0 <= n < 0x1_0000_0000
  type uint64 = n: int | 0 <= n < 0x1_0000_0000_0000_0000

  datatype Option<+T> = None | Some(value: T) {
    predicate IsFailure() {
      None?
    }

    function PropagateFailure<U>(): Option<U>
      requires None?
    {
      None
    }

    function Extract(): T
      requires Some?
    {
      value
    }
  }

  function Min(a: int, b: int): int {
    if a < b then a else b
  }

  /** The value of an `int32_t` that is assigned the unsigned word n. */
  function ToInt32(n: uint32): int {
    if n < 0x8000_0000 then n else n - 0x1_0000_0000
  }

  /** It is the one number of that range with the same 32 bits. */
  lemma ToInt32Exact(n: uint32, v: int)
    ensures v == ToInt32(n) <==> -0x8000_0000 <= v < 0x8000_0000 && v % 0x1_0000_0000 == n
  {
  }

  /** The conversion to `uint32_t`. */
  function ToUint32(v: int): uint32 {
    v % 0x1_0000_0000
  }

  /** 64-bit sums may be cut after every summand. */
  lemma ModAdds(a: nat, b: nat)
    ensures (a % 0x1_0000_0000_0000_0000 + b) % 0x1_0000_0000_0000_0000 == (a + b) % 0x1_0000_0000_0000_0000
  {
  }

  lemma SmallAsIs(n: nat)
    ensures n < 0x1_0000_0000 ==> ToUint32(n) == n
  {
  }

  /** The number that the first n bytes denote, most significant byte first. */
  function WeightOfFirst(bs: seq<byte>, n: nat): nat
    requires n <= |bs|
  {
    if n == 0 then 0 else 256 * WeightOfFirst(bs, n - 1) + bs[n - 1]
  }

  function Weight(bs: seq<byte>): nat {
    WeightOfFirst(bs, |bs|)
  }

  lemma {:induction false} WeightInjectiveOnFirst(a: seq<byte>, b: seq<byte>, n: nat)
    requires n <= |a| && n <= |b|
    requires WeightOfFirst(a, n) == WeightOfFirst(b, n)
    ensures a[..n] == b[..n]
  {
    if n != 0 {
      assert WeightOfFirst(a, n - 1) == WeightOfFirst(b, n - 1) && a[n - 1] == b[n - 1];
      WeightInjectiveOnFirst(a, b, n - 1);
      assert a[..n] == a[..n - 1] + [a[n - 1]] && b[..n] == b[..n - 1] + [b[n - 1]];
    }
  }

  /** Byte strings of one length are determined by their weight. */
  lemma WeightInjective(a: seq<byte>, b: seq<byte>)
    requires |a| == |b|
    requires Weight(a) == Weight(b)
    ensures a == b
  {
    WeightInjectiveOnFirst(a, b, |a|);
    assert a == a[..|a|] && b == b[..|b|];
  }

  function Word(a: int, b: int, c: int, d: int): int {
    0x100_0000 * a + 0x1_0000 * b + 0x100 * c + d
  }

  lemma WeightOfFour(bs: seq<byte>)
    requires |bs| == 4
    ensures Weight(bs) == Word(bs[0], bs[1], bs[2], bs[3]) < 0x1_0000_0000
  {
    assert WeightOfFirst(bs, 1) == bs[0];
    assert WeightOfFirst(bs, 2) == 256 * WeightOfFirst(bs, 1) + bs[1];
    assert WeightOfFirst(bs, 3) == 256 * WeightOfFirst(bs, 2) + bs[2];
  }

  lemma {:induction false} WeightSplits(a: seq<byte>, b: seq<byte>, n: nat)
    requires |a| == 4 && n <= 4 && |b| == 4
    ensures n == 0 ==> WeightOfFirst(a + b, 4 + n) == Weight(a)
    ensures WeightOfFirst(a + b, n) == WeightOfFirst(a, n)
  {
    if n != 0 {
      WeightSplits(a, b, n - 1);
    } else {
      assert WeightOfFirst(a + b, 1) == WeightOfFirst(a, 1);
      assert WeightOfFirst(a + b, 2) == WeightOfFirst(a, 2);
      assert WeightOfFirst(a + b, 3) == WeightOfFirst(a, 3);
      assert WeightOfFirst(a + b, 4) == WeightOfFirst(a, 4);
    }
  }

  lemma WeightOfEight(bs: seq<byte>)
    requires |bs| == 8
    ensures Weight(bs) == 0x1_0000_0000 * Weight(bs[..4]) + Weight(bs[4..])
  {
    WeightOfFour(bs[4..]);
    assert bs == bs[..4] + bs[4..];
    WeightSplits(bs[..4], bs[4..], 0);
    assert WeightOfFirst(bs, 5) == 256 * WeightOfFirst(bs, 4) + bs[4];
    assert WeightOfFirst(bs, 6) == 256 * WeightOfFirst(bs, 5) + bs[5];
    assert WeightOfFirst(bs, 7) == 256 * WeightOfFirst(bs, 6) + bs[6];
  }

  /** Shifting a word out byte by byte leaves bytes that weigh the word. */
  lemma WordOfShifts(v: uint32)
    ensures Word(v / 256 / 256 / 256 % 256, v / 256 / 256 % 256, v / 256 % 256, v % 256) == v
  {
  }

  lemma FourBytesExist(v: uint32)
    ensures exists bs: seq<byte> :: |bs| == 4 && Weight(bs) == v
  {
    var bs: seq<byte> := [v / 256 / 256 / 256 % 256, v / 256 / 256 % 256, v / 256 % 256, v % 256];
    WordOfShifts(v);
    WeightOfFour(bs);
    assert |bs| == 4 && Weight(bs) == v;
  }

  /** A word on the wire: the four bytes that weigh v. */
  ghost function U32(v: uint32): (bs: seq<byte>)
    ensures |bs| == 4
    ensures Weight(bs) == v
  {
    FourBytesExist(v);
    var bs: seq<byte> :| |bs| == 4 && Weight(bs) == v;
    bs
  }

  lemma U32Unique(bs: seq<byte>, v: uint32)
    requires |bs| == 4
    ensures bs == U32(v) <==> Weight(bs) == v
  {
    if Weight(bs) == v {
      WeightInjective(bs, U32(v));
    }
  }

  /** The four bytes of a word, the highest first. */
  lemma U32Bytes(a: byte, b: byte, c: byte, d: byte)
    ensures U32(0x100_0000 * a + 0x1_0000 * b + 0x100 * c + d) == [a, b, c, d]
  {
    var bs: seq<byte> := [a, b, c, d];
    WeightOfFour(bs);
    hide Weight;
    U32Unique(bs, 0x100_0000 * a + 0x1_0000 * b + 0x100 * c + d);
  }

  /** The word held by four bytes of s. */
  function WordAt(s: seq<byte>, at: nat): (v: uint32)
    requires at + 4 <= |s|
  {
    WeightOfFour(s[at..at + 4]);
    Weight(s[at..at + 4])
  }

  lemma WordAtIs(s: seq<byte>, at: nat)
    requires at + 4 <= |s|
    ensures WordAt(s, at) == Word(s[at], s[at + 1], s[at + 2], s[at + 3])
  {
    WeightOfFour(s[at..at + 4]);
  }

  /** The same four bytes are the same word. */
  lemma SameWord(s: seq<byte>, i: nat, t: seq<byte>, j: nat)
    requires i + 4 <= |s| && j + 4 <= |t| && s[i..i + 4] == t[j..j + 4]
    ensures WordAt(s, i) == WordAt(t, j)
  {
  }

  lemma ZeroWordAt(s: seq<byte>, at: nat)
    requires at + 4 <= |s|
    ensures WordAt(s, at) == 0 <==> s[at] == 0 && s[at + 1] == 0 && s[at + 2] == 0 && s[at + 3] == 0
  {
    WordAtIs(s, at);
  }

  lemma BytesOfWord(s: seq<byte>, at: nat)
    requires at + 4 <= |s|
    ensures s[at..at + 4] == U32(WordAt(s, at))
  {
    U32Unique(s[at..at + 4], WordAt(s, at));
  }

  function Zeros(n: nat): (z: seq<byte>)
    ensures |z| == n
    ensures forall i :: 0 <= i < n ==> z[i] == 0
  {
    if n == 0 then [] else Zeros(n - 1) + [0]
  }

  lemma WordOfZeros(a: byte, b: byte, c: byte, d: byte)
    requires a == 0 && b == 0 && c == 0 && d == 0
    ensures Word(a, b, c, d) == 0
  {
  }

  lemma ZeroWordBytes(n: nat)
    requires n == 4
    ensures U32(0) == Zeros(n)
  {
    hide U32, Zeros;
    var z := Zeros(n);
    assert Weight(z) == 0 by {
      hide Weight;
      WeightOfFour(z);
      WordOfZeros(z[0], z[1], z[2], z[3]);
    }
    U32Unique(z, 0);
  }

  function PaddingTo(n: nat, a: nat): (p: nat)
    requires 0 < a
    ensures p < a
  {
    if n % a == 0 then 0 else a - n % a
  }

  /** It leads from n to a multiple of a, and is the least that does. */
  lemma PaddingExact(n: nat, a: nat)
    requires 0 < a
    ensures PaddingTo(n, a) < a
    ensures n + PaddingTo(n, a) == a * (n / a) || n + PaddingTo(n, a) == a * (n / a + 1)
  {
    assert a * (n / a + 1) == a * (n / a) + a;
  }

  function Pad(n: nat): (p: nat)
    ensures p < 4 && (n + p) % 4 == 0
  {
    PaddingTo(n, 4)
  }

  function RoundUp4(n: nat): (r: nat)
    ensures n <= r < n + 4 && r % 4 == 0
  {
    n + Pad(n)
  }

  /** Padding does not see a whole number of words. */
  lemma PadSkipsWords(size: nat, n: nat)
    requires size % 4 == 0
    ensures Pad(size + n) == Pad(n) && RoundUp4(n) == n + Pad(n)
  {
  }

  /** s with the bytes from `at` on replaced by bs. */
  function Splice(s: seq<byte>, at: nat, bs: seq<byte>): (r: seq<byte>)
    requires at + |bs| <= |s|
    ensures |r| == |s|
    ensures r[at..at + |bs|] == bs
    ensures forall i :: 0 <= i < |s| && !(at <= i < at + |bs|) ==> r[i] == s[i]
  {
    s[..at] + bs + s[at + |bs|..]
  }

  lemma Assoc(a: seq<byte>, b: seq<byte>, c: seq<byte>)
    ensures a + b + c == a + (b + c)
  {
  }

  /** `item` stands in s from position `at` on. */
  ghost predicate Holds(s: seq<byte>, at: nat, item: seq<byte>) {
    at + |item| <= |s| && s[at..at + |item|] == item
  }

  /** What stands somewhere stands there part by part. */
  lemma HoldsParts(s: seq<byte>, at: nat, a: seq<byte>, b: seq<byte>)
    requires Holds(s, at, a + b)
    ensures Holds(s, at, a) && Holds(s, at + |a|, b)
  {
    var ab := s[at..at + |a + b|];
    assert forall i :: 0 <= i < |a| ==> a[i] == ab[i] == s[at + i];
    assert forall i :: 0 <= i < |b| ==> b[i] == ab[|a| + i] == s[at + |a| + i];
  }

  lemma HoldsWord(s: seq<byte>, at: nat, v: uint32)
    requires Holds(s, at, U32(v))
    ensures WordAt(s, at) == v
  {
  }

  lemma SubSlice(s: seq<byte>, at: nat, len: nat, lo: nat, hi: nat)
    requires at + len <= |s| && lo <= hi <= len
    ensures s[at..at + len][lo..hi] == s[at + lo..at + hi]
  {
    var l, r := s[at..at + len][lo..hi], s[at + lo..at + hi];
    assert |l| == |r| && forall i :: 0 <= i < |l| ==> l[i] == r[i];
  }

  function Flatten(ss: seq<seq<byte>>): seq<byte> {
    if ss == [] then [] else ss[0] + Flatten(ss[1..])
  }
}
