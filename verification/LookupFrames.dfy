/**
  LOOKUP arguments: what Inode::lookup writes against what section 3.3.3 of RFC 1813 asks for.
 */
module LookupFrames {
  import opened Bytes
  import opened Xdr
  import opened Messages
  import opened Calls

  /** A directory handle and a name, each an XDR item of its own. */
  ghost function StandardArgs(dir: seq<byte>, name: seq<byte>): seq<byte>
    requires |dir| < 1024 && |name| < 1024
  {
    XdrOpaque(dir) + XdrOpaque(name)
  }

  /** What a server takes the arguments for. */
  function DecodeLookup(args: seq<byte>): (r: Option<(seq<byte>, seq<byte>)>)
    ensures r.Some? ==> |r.value.0| < 0x1_0000_0000 && |r.value.1| < 0x1_0000_0000
                        && args == XdrOpaque(r.value.0) + XdrOpaque(r.value.1)
  {
    var (dir, rest) :- TakeOpaque(args);
    var (name, end) :- TakeOpaque(rest);
    if end != [] then None
    else
      assert XdrOpaque(name) + end == XdrOpaque(name);
      Some((dir, name))
  }

  lemma DecodeLookupInverts(dir: seq<byte>, name: seq<byte>)
    requires |dir| < 1024 && |name| < 1024
    ensures DecodeLookup(StandardArgs(dir, name)) == Some((dir, name))
  {
    TakeOpaqueInverts(dir, XdrOpaque(name));
    TakeOpaqueInverts(name, []);
    assert XdrOpaque(name) + [] == XdrOpaque(name);
  }

  /** A word that equals itself shifted behind p zeros is zero. */
  lemma ShiftedWordIsZero(w: seq<byte>, p: nat, s: seq<byte>, at: nat)
    requires |w| == 4 && 0 < p < 4
    requires Holds(s, at, w) && Holds(s, at, Zeros(p)) && Holds(s, at + p, w)
    ensures Weight(w) == 0
  {
    var z := Zeros(p);
    assert w == s[at..at + 4] == s[at + p..at + p + 4] && z == s[at..at + p];
    assert w[0] == s[at] == z[0] == 0;
    if p == 1 {
      assert w[1] == s[at + 1] == w[0];
      assert w[2] == s[at + 2] == w[1];
      assert w[3] == s[at + 3] == w[2];
    } else if p == 2 {
      assert w[1] == s[at + 1] == z[1] == 0;
      assert w[2] == s[at + 2] == w[0];
      assert w[3] == s[at + 3] == w[1];
    } else {
      assert w[1] == s[at + 1] == z[1] == 0;
      assert w[2] == s[at + 2] == z[2] == 0;
      assert w[3] == s[at + 3] == w[0];
    }
    WeightOfFour(w);
  }

  /** What lookup writes has the name's length directly behind the handle. */
  lemma LengthBehindHandle(dir: seq<byte>, name: seq<byte>)
    requires |dir| < 1024 && |name| < 1024
    ensures Holds(LookupArgs(dir, name), 4 + |dir|, U32(|name|))
  {
    hide U32, Zeros;
    var s, n, z := LookupArgs(dir, name), U32(|name|), Zeros(Pad(8 + |dir| + |name|));
    var h := U32(|dir|) + dir;
    Assoc(h, n, name);
    Assoc(h, n + name, z);
    Assoc(n, name, z);
    assert s == h + (n + (name + z));
    assert Holds(s, 0, s);
    HoldsParts(s, 0, h, n + (name + z));
    HoldsParts(s, 4 + |dir|, n, name + z);
  }

  /** The standard has it behind the handle's padding. */
  lemma LengthBehindPadding(dir: seq<byte>, name: seq<byte>)
    requires |dir| < 1024 && |name| < 1024
    ensures Holds(StandardArgs(dir, name), 4 + |dir|, Zeros(Pad(|dir|)))
    ensures Holds(StandardArgs(dir, name), 4 + |dir| + Pad(|dir|), U32(|name|))
  {
    hide U32, Zeros;
    var s, n, z := StandardArgs(dir, name), U32(|name|), Zeros(Pad(|name|));
    assert Holds(s, 0, s);
    HoldsParts(s, 0, XdrOpaque(dir), XdrOpaque(name));
    HoldsParts(s, 0, U32(|dir|) + dir, Zeros(Pad(|dir|)));
    Assoc(n, name, z);
    HoldsParts(s, 4 + |dir| + Pad(|dir|), n, name + z);
  }

  /** Both at once is possible for length 0 only. */
  lemma LengthInBothPlaces(dir: seq<byte>, name: seq<byte>)
    requires |dir| < 1024 && |name| < 1024
    requires LookupArgs(dir, name) == StandardArgs(dir, name)
    requires |dir| % 4 != 0
    ensures name == []
  {
    hide LookupArgs, StandardArgs, U32, Zeros;
    LengthBehindHandle(dir, name);
    LengthBehindPadding(dir, name);
    ShiftedWordIsZero(U32(|name|), Pad(|dir|), StandardArgs(dir, name), 4 + |dir|);
  }

  lemma ZerosAdd(m: nat, n: nat)
    ensures Zeros(m) + Zeros(n) == Zeros(m + n)
  {
  }

  lemma EmptyNameArgs(dir: seq<byte>)
    requires |dir| < 1024
    ensures LookupArgs(dir, []) == StandardArgs(dir, [])
  {
    hide U32;
    var p, four := Pad(|dir|), Pad(|dir|) + 4 - Pad(|dir|);
    var a, n, z := U32(|dir|) + dir, U32(0), Zeros(p);
    assert Pad(8 + |dir|) == p;
    ZeroWordBytes(four);
    ZerosAdd(four, p);
    ZerosAdd(p, four);
    assert n + z == z + n;
    assert LookupArgs(dir, []) == a + n + [] + z == a + n + z;
    assert XdrOpaque([]) == n;
    Assoc(a, n, z);
    Assoc(a, z, n);
  }

  lemma AlignedArgs(dir: seq<byte>, name: seq<byte>)
    requires |dir| < 1024 && |name| < 1024 && |dir| % 4 == 0
    ensures LookupArgs(dir, name) == StandardArgs(dir, name)
  {
    var a, n, z := U32(|dir|) + dir, U32(|name|), Zeros(Pad(|name|));
    assert Pad(8 + |dir| + |name|) == Pad(|name|);
    assert XdrOpaque(dir) == a;
    Assoc(a, n, name);
    Assoc(a, n + name, z);
  }

  /**
    The missing alignment behind the handle: the arguments are the standard's, and a server reads the handle
    and the name out of them, exactly when the handle's length is a multiple of four or the name is empty.
   */
  lemma LookupArgsExact(dir: seq<byte>, name: seq<byte>)
    requires |dir| < 1024 && |name| < 1024
    ensures LookupArgs(dir, name) == StandardArgs(dir, name) <==> |dir| % 4 == 0 || name == []
    ensures DecodeLookup(LookupArgs(dir, name)) == Some((dir, name)) <==> |dir| % 4 == 0 || name == []
  {
    DecodeLookupInverts(dir, name);
    if |dir| % 4 == 0 {
      AlignedArgs(dir, name);
    } else if name == [] {
      EmptyNameArgs(dir);
    } else if LookupArgs(dir, name) == StandardArgs(dir, name) {
      LengthInBothPlaces(dir, name);
    }
  }
}
