/**
  Inode names (Context.hpp): the slash stripping that rewrites a name from the right, the one-pass filter it
  amounts to, and the directory paths built from stripped names.
 */
module InodeNames {
  import opened Bytes

  const NPOS: int := -1

  ghost predicate OccursAt(s: string, pattern: string, i: nat) {
    i + |pattern| <= |s| && s[i..i + |pattern|] == pattern
  }

  ghost predicate Occurs(s: string, pattern: string) {
    exists i: nat :: OccursAt(s, pattern, i)
  }

  /** `std::string::rfind`: the last place where the pattern occurs. */
  method RFind(s: string, pattern: string) returns (found: int)
    requires pattern != []
    ensures found == NPOS <==> !Occurs(s, pattern)
    ensures found != NPOS ==> found >= 0 && OccursAt(s, pattern, found)
    ensures found != NPOS ==> forall i: nat :: OccursAt(s, pattern, i) ==> i <= found
  {
    found := |s| - |pattern|;
    while found >= 0
      invariant found + |pattern| <= |s|
      invariant forall i: nat :: OccursAt(s, pattern, i) ==> i <= found
    {
      if s[found..found + |pattern|] == pattern {
        assert OccursAt(s, pattern, found);
        return;
      }
      found := found - 1;
    }
    found := NPOS;
  }

  /** The first character of s is one that the filter drops. */
  predicate Dropped(s: string)
    requires s != []
  {
    s[0] == '/' || (s[0] == '.' && 1 < |s| && s[1] == '/')
  }

  /** The places whose characters the filter keeps. */
  predicate Kept(s: string, i: nat) {
    i < |s| && s[i] != '/' && !(s[i] == '.' && i + 1 < |s| && s[i + 1] == '/')
  }

  /** Those places from `from` on. */
  function KeptPlaces(s: string, from: nat): (places: seq<nat>)
    ensures forall k :: 0 <= k < |places| ==> from <= places[k] < |s|
    decreases |s| - from
  {
    if from >= |s| then []
    else if Kept(s, from) then [from] + KeptPlaces(s, from + 1)
    else KeptPlaces(s, from + 1)
  }

  lemma {:induction false} KeptPlacesExact(s: string, from: nat, i: nat)
    ensures i in KeptPlaces(s, from) <==> from <= i && Kept(s, i)
    decreases |s| - from
  {
    if from < |s| {
      KeptPlacesExact(s, from + 1, i);
    }
  }

  /** The places are in order. */
  lemma {:induction false} KeptPlacesAscend(s: string, from: nat, j: nat, k: nat)
    requires j < k < |KeptPlaces(s, from)|
    ensures KeptPlaces(s, from)[j] < KeptPlaces(s, from)[k]
    decreases |s| - from
  {
    if Kept(s, from) {
      if j > 0 {
        KeptPlacesAscend(s, from + 1, j - 1, k - 1);
      }
    } else {
      KeptPlacesAscend(s, from + 1, j, k);
    }
  }

  lemma KeptExactly(s: string, i: nat)
    ensures i in KeptPlaces(s, 0)
            <==> i < |s| && s[i] != '/' && !(s[i] == '.' && i + 1 < |s| && s[i + 1] == '/')
  {
    KeptPlacesExact(s, 0, i);
  }

  /** The characters at the given places. */
  function At(s: string, places: seq<nat>): (t: string)
    requires forall k :: 0 <= k < |places| ==> places[k] < |s|
    ensures |t| == |places| && forall k :: 0 <= k < |t| ==> t[k] == s[places[k]]
  {
    seq(|places|, k requires 0 <= k < |places| => s[places[k]])
  }

  lemma {:induction false} FilterPlaces(s: string, from: nat)
    requires from <= |s|
    ensures Filter(s[from..]) == At(s, KeptPlaces(s, from))
    decreases |s| - from
  {
    if from < |s| {
      var t := s[from..];
      assert t[0] == s[from] && t[1..] == s[from + 1..];
      assert 1 < |t| ==> t[1] == s[from + 1];
      assert Dropped(t) <==> !Kept(s, from);
      FilterPlaces(s, from + 1);
    }
  }

  /** Exactly the characters that are neither a slash nor a dot directly before a slash, in order. */
  function Filter(s: string): string {
    if s == [] then []
    else if Dropped(s) then Filter(s[1..])
    else [s[0]] + Filter(s[1..])
  }

  /** The specification of stripSlash. */
  ghost function Strip(s: string): string {
    if Occurs(s, "..") then [] else Filter(s)
  }

  // ------------------------------------------------------------------ rewriting

  /** One way to look at an occurrence of two characters. */
  lemma OccursPair(s: string, c: char, d: char)
    ensures Occurs(s, [c, d]) <==> exists i :: 0 <= i < |s| - 1 && s[i] == c && s[i + 1] == d
  {
    if Occurs(s, [c, d]) {
      var i: nat :| OccursAt(s, [c, d], i);
      assert s[i..i + 2][0] == s[i] && s[i..i + 2][1] == s[i + 1];
      assert 0 <= i < |s| - 1 && s[i] == c && s[i + 1] == d;
    }
    if i :| 0 <= i < |s| - 1 && s[i] == c && s[i + 1] == d {
      assert s[i..i + 2] == [c, d];
      assert OccursAt(s, [c, d], i);
    }
  }

  ghost predicate NoPair(s: string, c: char, d: char) {
    forall i :: 0 <= i < |s| - 1 && s[i] == c ==> s[i + 1] != d
  }

  lemma NoPairIs(s: string, c: char, d: char)
    ensures NoPair(s, c, d) <==> !Occurs(s, [c, d])
  {
    OccursPair(s, c, d);
  }

  /** What the filter makes of a prefix does not change if what follows it keeps its first character's kind. */
  lemma {:induction false} FilterPrefix(a: string, b: string, b': string)
    requires a != [] ==> a[|a| - 1] != '.'
    requires Filter(b) == Filter(b')
    ensures Filter(a + b) == Filter(a + b')
    decreases |a|
  {
    if a == [] {
      assert a + b == b && a + b' == b';
    } else {
      assert (a + b)[1..] == a[1..] + b && (a + b')[1..] == a[1..] + b';
      FilterPrefix(a[1..], b, b');
    }
  }

  /**
    Taking out a "./" from a name without ".." keeps what the filter makes of it and makes no new ".."; and
    each "./" that is left was there before, at the same place or two further on.
   */
  lemma RemoveDotSlash(a: string, b: string)
    requires NoPair(a + "./" + b, '.', '.')
    ensures Filter(a + "./" + b) == Filter(a + b)
    ensures NoPair(a + b, '.', '.')
    ensures forall i: nat :: OccursAt(a + b, "./", i) ==> OccursAt(a + "./" + b, "./", if i < |a| then i else i + 2)
  {
    var s := a + "./" + b;
    if a != [] {
      assert s[|a| - 1] == a[|a| - 1] && s[|a|] == '.';
    }
    assert a + "./" + b == a + ("./" + b);
    assert ("./" + b)[1..] == "/" + b && ("/" + b)[1..] == b;
    assert Filter("./" + b) == Filter("/" + b) == Filter(b);
    FilterPrefix(a, "./" + b, b);
    PairsJoin(a, "./", b, '.', '.');
    forall i: nat | OccursAt(a + b, "./", i)
      ensures OccursAt(s, "./", if i < |a| then i else i + 2)
    {
      OldPlace(a, b, i);
    }
  }

  /** Two characters that are together after the removal were together before. */
  lemma OldPlace(a: string, b: string, i: nat)
    requires a != [] ==> a[|a| - 1] != '.'
    requires OccursAt(a + b, "./", i)
    ensures OccursAt(a + "./" + b, "./", if i < |a| then i else i + 2)
  {
    var s, t := a + "./" + b, a + b;
    assert t[i..i + 2][0] == t[i] == '.' && t[i..i + 2][1] == t[i + 1] == '/';
    if i < |a| {
      assert i + 1 < |a|;
      assert s[i..i + 2] == t[i..i + 2];
    } else {
      assert s[i + 2..i + 4] == t[i..i + 2];
    }
  }

  /** Taking out a slash from a name without "./" keeps what the filter makes of it and makes no new "./" or "..". */
  lemma RemoveSlash(a: string, b: string)
    requires NoPair(a + "/" + b, '.', '/') && NoPair(a + "/" + b, '.', '.')
    ensures Filter(a + "/" + b) == Filter(a + b)
    ensures NoPair(a + b, '.', '/') && NoPair(a + b, '.', '.')
  {
    var s := a + "/" + b;
    if a != [] {
      assert s[|a| - 1] == a[|a| - 1] && s[|a|] == '/';
    }
    assert a + "/" + b == a + ("/" + b);
    assert ("/" + b)[1..] == b;
    FilterPrefix(a, "/" + b, b);
    PairsJoin(a, "/", b, '.', '/');
    PairsJoin(a, "/", b, '.', '.');
  }

  /** Closing a gap makes no new pair if the character before it does not start one. */
  lemma PairsJoin(a: string, gap: string, b: string, c: char, d: char)
    requires NoPair(a + gap + b, c, d)
    requires a != [] ==> a[|a| - 1] != c
    ensures NoPair(a + b, c, d)
  {
    var s, t := a + gap + b, a + b;
    forall i | 0 <= i < |t| - 1 && t[i] == c
      ensures t[i + 1] != d
    {
      if i + 1 < |a| {
        assert s[i] == t[i] && s[i + 1] == t[i + 1];
      } else {
        var j := i + |gap|;
        assert s[j] == t[i] && s[j + 1] == t[i + 1];
      }
    }
  }

  lemma {:induction false} FilterKeepsAll(s: string)
    requires '/' !in s
    ensures Filter(s) == s
  {
    if s != [] {
      FilterKeepsAll(s[1..]);
      assert s == [s[0]] + s[1..];
    }
  }

  /** Replaces `length` characters from `found` on by nothing. */
  function Erase(s: string, found: nat, length: nat): string
    requires found + length <= |s|
  {
    s[..found] + s[found + length..]
  }

  method StripSlash(name: string) returns (name': string)
    ensures name' == Strip(name)
    ensures Occurs(name, "..") ==> name' == ""
    ensures !Occurs(name, "..") ==> name' == At(name, KeptPlaces(name, 0))
    ensures '/' !in name' && !Occurs(name', "..")
  {
    FilterPlaces(name, 0);
    assert name[0..] == name;
    name' := name;
    var found := RFind(name', "..");
    if found != NPOS {
      name' := "";
      NoPairIs(name', '.', '.');
      return;
    }
    NoPairIs(name', '.', '.');
    found := RFind(name', "./");
    while found != NPOS
      invariant NoPair(name', '.', '.') && Filter(name') == Filter(name)
      invariant found != NPOS ==> found >= 0 && OccursAt(name', "./", found)
      invariant found == NPOS ==> !Occurs(name', "./")
      decreases |name'|, found
    {
      assert name' == name'[..found] + "./" + name'[found + 2..];
      RemoveDotSlash(name'[..found], name'[found + 2..]);
      name' := Erase(name', found, 2);
      found := RFind(name', "./");
    }
    NoPairIs(name', '.', '/');
    found := RFind(name', "/");
    while found != NPOS
      invariant NoPair(name', '.', '.') && NoPair(name', '.', '/') && Filter(name') == Filter(name)
      invariant found != NPOS ==> found >= 0 && OccursAt(name', "/", found)
      invariant found == NPOS ==> !Occurs(name', "/")
      decreases |name'|, found
    {
      assert name' == name'[..found] + "/" + name'[found + 1..];
      RemoveSlash(name'[..found], name'[found + 1..]);
      name' := Erase(name', found, 1);
      found := RFind(name', "/");
    }
    NoPairIs(name', '.', '.');
    NoSlash(name');
    FilterKeepsAll(name');
  }

  lemma NoSlash(s: string)
    requires !Occurs(s, "/")
    ensures '/' !in s
  {
    if '/' in s {
      var i :| 0 <= i < |s| && s[i] == '/';
      assert s[i..i + 1] == "/";
      assert OccursAt(s, "/", i);
    }
  }

  lemma {:induction false} FilterDropsSlashes(s: string)
    ensures '/' !in Filter(s)
  {
    if s != [] {
      FilterDropsSlashes(s[1..]);
    }
  }

  /** The head of the filtered string is the first kept character: a dot only if the string starts with one. */
  lemma {:induction false} FilterHead(s: string)
    requires NoPair(s, '.', '.')
    ensures NoPair(Filter(s), '.', '.')
    ensures s != [] && !Dropped(s) && s[0] == '.' ==> 1 == |s| || (s[1] != '/' && s[1] != '.')
  {
    if s != [] {
      assert NoPair(s[1..], '.', '.') by {
        assert forall i :: 0 <= i < |s| - 1 ==> s[1..][i] == s[i + 1];
      }
      FilterHead(s[1..]);
      if !Dropped(s) {
        var f := Filter(s[1..]);
        if s[0] == '.' && 1 < |s| {
          assert s[1..][0] == s[1];
          assert !Dropped(s[1..]);
          assert f[0] == s[1];
        }
        forall i | 0 <= i < |[s[0]] + f| - 1 && ([s[0]] + f)[i] == '.'
          ensures ([s[0]] + f)[i + 1] != '.'
        {
          if i > 0 {
            assert f[i - 1] == '.';
          }
        }
      }
    }
  }

  /** Stripped names have no slash and no "..", and stripping them again changes nothing. */
  lemma StripFixedPoint(s: string)
    ensures '/' !in Strip(s) && !Occurs(Strip(s), "..")
    ensures Strip(Strip(s)) == Strip(s)
  {
    var t := Strip(s);
    NoPairIs(s, '.', '.');
    NoPairIs(t, '.', '.');
    if !Occurs(s, "..") {
      FilterHead(s);
      FilterDropsSlashes(s);
    }
    FilterKeepsAll(t);
  }

  // ------------------------------------------------------------------ inodes

  datatype InodeType = NFS3REG | NFS3DIR | NFS3BLK | NFS3CHR | NFS3LNK | NFS3SOCK | NFS3FIFO

  predicate InodeSpecial(kind: InodeType) {
    kind.NFS3BLK? || kind.NFS3CHR? || kind.NFS3SOCK? || kind.NFS3FIFO?
  }

  predicate InodeLink(kind: InodeType) {
    kind.NFS3LNK?
  }

  /** A directory keeps the name it was given in `self`; only its path is made from the stripped name. */
  class Inode {
    var kind: InodeType
    var parentName: string
    var self: string
    var selfDir: Option<string>

    constructor (parent: string, name: string, kind: InodeType)
      ensures this.kind == kind && parentName == parent
      ensures kind.NFS3DIR? ==> selfDir == Some(parent + "/" + Strip(name)) && self == name
      ensures kind.NFS3DIR? && Occurs(name, "..") ==> selfDir == Some(parent + "/")
      ensures !kind.NFS3DIR? && Occurs(name, "..") ==> self == ""
      ensures !kind.NFS3DIR? ==> selfDir == None && self == Strip(name)
    {
      this.kind := kind;
      self := name;
      selfDir := None;
      var myName := StripSlash(name);
      assert parent + "/" + "" == parent + "/";
      if kind == NFS3DIR {
        selfDir := Some(parent + "/" + myName);
      } else if kind == NFS3REG || InodeSpecial(kind) || InodeLink(kind) {
        self := myName;
      }
      parentName := parent;
    }
  }

  /** A path split at its last slash. */
  function SplitPath(path: string): (r: Option<(string, string)>)
    ensures r.Some? ==> path == r.value.0 + "/" + r.value.1
  {
    if path == [] then None
    else
      var n := |path| - 1;
      if path[n] == '/' then Some((path[..n], []))
      else
        var (parent, name) :- SplitPath(path[..n]);
        assert path == path[..n] + [path[n]];
        Some((parent, name + [path[n]]))
  }

  lemma {:induction false} SplitPathInverts(parent: string, name: string)
    requires '/' !in name
    ensures SplitPath(parent + "/" + name) == Some((parent, name))
    decreases |name|
  {
    var path := parent + "/" + name;
    if name == [] {
      assert path[..|path| - 1] == parent;
    } else {
      var n := |name| - 1;
      SplitPathInverts(parent, name[..n]);
      assert path[..|path| - 1] == parent + "/" + name[..n];
      assert name == name[..n] + [name[n]];
    }
  }

  /** A directory's path gives back its parent and its stripped name, so directories with one path agree on both. */
  lemma DirectoryRecoverable(parent: string, name: string)
    ensures SplitPath(parent + "/" + Strip(name)) == Some((parent, Strip(name)))
  {
    StripFixedPoint(name);
    SplitPathInverts(parent, Strip(name));
  }
}
