/**
  The process-wide counter that xids and authentication stamps are drawn from.
 */
module Monotonic {
  import opened Bytes

  /** The k-th value drawn from a 64-bit counter that starts at `seed` and wraps around. */
  function Draw(seed: uint64, k: nat): uint64 {
    (seed + k) % 0x1_0000_0000_0000_0000
  }

  /** What `(uint32_t)getMonotonic(0)` leaves of the k-th draw. */
  function Draw32(seed: uint64, k: nat): uint32 {
    ToUint32(Draw(seed, k))
  }

  class Counter {
    var sequential: uint64

    constructor (seed: uint64)
      ensures sequential == seed
    {
      sequential := seed;
    }

    /** Fetch and add one. */
    method GetMonotonic() returns (value: uint64)
      modifies this
      ensures value == old(sequential) == Draw(old(sequential), 0)
      ensures sequential == (old(sequential) + 1) % 0x1_0000_0000_0000_0000 == Draw(old(sequential), 1)
    {
      value := sequential;
      sequential := (sequential + 1) % 0x1_0000_0000_0000_0000;
    }
  }

  lemma FirstDraw(seed: uint64)
    ensures Draw(seed, 0) == seed
  {
  }

  /** Drawing is counting: the k-th draw after j draws is the (j+k)-th draw. */
  lemma DrawsCompose(seed: uint64, j: nat, k: nat)
    ensures Draw(Draw(seed, j), k) == Draw(seed, j + k)
  {
    ModAdds(seed + j, k);
  }

  /** The second of two consecutive draws, seen from the first and from the second. */
  lemma SecondDraw(seed: uint64)
    ensures Draw32(Draw(seed, 1), 0) == Draw32(seed, 1)
    ensures Draw(Draw(seed, 1), 1) == Draw(seed, 2)
  {
    DrawsCompose(seed, 1, 0);
    DrawsCompose(seed, 1, 1);
  }

  /** The wrap of the 64-bit counter is invisible in the low 32 bits. */
  lemma Draw32Ignores64BitWrap(seed: uint64, k: nat)
    ensures Draw32(seed, k) == (seed + k) % 0x1_0000_0000
  {
    var n := seed + k;
    var q, r := n / 0x1_0000_0000_0000_0000, n % 0x1_0000_0000_0000_0000;
    assert n == 0x1_0000_0000 * (0x1_0000_0000 * q) + r;
    WholeTurns(0x1_0000_0000 * q, r);
  }

  lemma WholeTurns(m: nat, r: nat)
    ensures (0x1_0000_0000 * m + r) % 0x1_0000_0000 == r % 0x1_0000_0000
  {
  }

  /** Two draws leave the same 32 bits exactly when they are a multiple of 2^32 draws apart. */
  lemma SameDraw32(seed: uint64, i: nat, j: nat)
    requires i <= j
    ensures Draw32(seed, i) == Draw32(seed, j) <==> (j - i) % 0x1_0000_0000 == 0
  {
    Draw32Ignores64BitWrap(seed, i);
    Draw32Ignores64BitWrap(seed, j);
    Residues(seed + i, j - i);
  }

  lemma Residues(a: nat, d: nat)
    ensures a % 0x1_0000_0000 == (a + d) % 0x1_0000_0000 <==> d % 0x1_0000_0000 == 0
  {
  }

  // ------------------------------------------------------------------ runs of calls

  /**
    A call draws its xid first and, when it uses AUTH_SYS, a stamp after it.  A run is the list of its
    calls, true for AUTH_SYS; this is the number of values drawn before call i.
   */
  function DrawnBefore(run: seq<bool>, i: nat): nat
    requires i <= |run|
  {
    if i == 0 then 0 else DrawnBefore(run, i - 1) + (if run[i - 1] then 2 else 1)
  }

  function Xid(seed: uint64, run: seq<bool>, i: nat): uint32
    requires i < |run|
  {
    Draw32(seed, DrawnBefore(run, i))
  }

  lemma {:induction false} DrawnBeforeGrows(run: seq<bool>, i: nat, j: nat)
    requires i < j <= |run|
    ensures DrawnBefore(run, i) < DrawnBefore(run, j)
  {
    if i < j - 1 {
      DrawnBeforeGrows(run, i, j - 1);
    }
  }

  /**
    In a run that draws at most 2^32 values every xid is fresh, wherever the counter starts and even if it
    wraps.
   */
  lemma XidsDistinct(seed: uint64, run: seq<bool>, i: nat, j: nat)
    requires i < j < |run|
    requires DrawnBefore(run, |run|) <= 0x1_0000_0000
    ensures Xid(seed, run, i) != Xid(seed, run, j)
  {
    DrawnBeforeGrows(run, i, j);
    DrawnBeforeGrows(run, j, |run|);
    SameDraw32(seed, DrawnBefore(run, i), DrawnBefore(run, j));
  }
}
