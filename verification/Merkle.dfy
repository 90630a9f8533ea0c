// Merkle provenance over memory entries (crates/loom-core/src/memory_hybrid.rs).
//
// The hash is a parameter `h`, a function from byte strings to 32-byte digests.  No such
// function is injective, so binding results ask only that it separates the byte strings
// hashed for the lists at hand.

module Merkle {
  import opened Words

  type Bytes = seq<bv8>

  type Digest = d: Bytes | |d| == 32 witness seq(32, _ => 0)

  type Hash = Bytes -> Digest

  datatype Entry = Entry(id: Bytes, content: Bytes)

  datatype ProvenanceRoot = ProvenanceRoot(root: Digest, leafCount: nat, leaves: seq<Digest>)

  const SEPARATOR: bv8 := 0x7C

  const ZERO_DIGEST: Digest := seq(32, _ => 0)

  // ----- hashing one entry and one pair -----

  function Joined(e: Entry): Bytes {
    e.id + [SEPARATOR] + e.content
  }

  function HashEntry(h: Hash, e: Entry): Digest {
    h(Joined(e))
  }

  function HashPair(h: Hash, left: Digest, right: Digest): Digest {
    h(left + right)
  }

  function LeafHashes(h: Hash, entries: seq<Entry>): (leaves: seq<Digest>)
    ensures |leaves| == |entries|
    ensures forall i | 0 <= i < |entries| :: leaves[i] == h(Joined(entries[i]))
  {
    seq(|entries|, i requires 0 <= i < |entries| => HashEntry(h, entries[i]))
  }

  // ----- the tree of section 2.1 of RFC 6962, without its prefix bytes -----

  /** A power of two k with k < n <= 2k; by SplitIsLargest the largest one below n. */
  ghost function Split(n: nat): (k: nat)
    requires n >= 2
    ensures IsPowerOfTwo(k) && k < n <= 2 * k
  {
    if n == 2 then 1 else 2 * Split((n + 1) / 2)
  }

  lemma {:induction false} SplitIsLargest(n: nat, p: nat)
    requires n >= 2 && IsPowerOfTwo(p) && p < n
    ensures p <= Split(n)
  {
    if n > 2 && p > 1 {
      SplitIsLargest((n + 1) / 2, p / 2);
    }
  }

  ghost function TreeRoot(h: Hash, leaves: seq<Digest>): Digest
    requires leaves != []
    decreases |leaves|
  {
    if |leaves| == 1 then leaves[0]
    else
      var k := Split(|leaves|);
      HashPair(h, TreeRoot(h, leaves[..k]), TreeRoot(h, leaves[k..]))
  }

  lemma {:induction false} LargerPower(k: nat, m: nat)
    requires IsPowerOfTwo(k) && IsPowerOfTwo(m) && k < m
    ensures 2 * k <= m
  {
    if k > 1 {
      LargerPower(k / 2, m / 2);
    }
  }

  lemma SplitIs(n: nat, k: nat)
    requires IsPowerOfTwo(k) && k < n <= 2 * k
    ensures Split(n) == k
  {
    SplitIsLargest(n, k);
    if k < Split(n) {
      LargerPower(k, Split(n));
    }
  }

  /** The root of a list is the hash of the roots of its two parts, the left one holding the
      largest power of two of leaves that leaves something for the right one. */
  lemma RootOfParts(h: Hash, leaves: seq<Digest>, k: nat)
    requires IsPowerOfTwo(k) && k < |leaves| <= 2 * k
    ensures TreeRoot(h, leaves) == h(TreeRoot(h, leaves[..k]) + TreeRoot(h, leaves[k..]))
  {
    SplitIs(|leaves|, k);
  }

  /** The roots of one, two and three entries, written out. */
  lemma SmallRoots(h: Hash, a: Entry, b: Entry, c: Entry)
    ensures var x, y, z := h(a.id + [0x7C] + a.content), h(b.id + [0x7C] + b.content), h(c.id + [0x7C] + c.content);
            && TreeRoot(h, LeafHashes(h, [a])) == x
            && TreeRoot(h, LeafHashes(h, [a, b])) == h(x + y)
            && TreeRoot(h, LeafHashes(h, [a, b, c])) == h(h(x + y) + z)
  {
    var x, y, z := HashEntry(h, a), HashEntry(h, b), HashEntry(h, c);
    assert LeafHashes(h, [a]) == [x] && LeafHashes(h, [a, b]) == [x, y] && LeafHashes(h, [a, b, c]) == [x, y, z];
    RootOfParts(h, [x, y], 1);
    assert [x, y][..1] == [x] && [x, y][1..] == [y];
    assert IsPowerOfTwo(2);
    RootOfParts(h, [x, y, z], 2);
    assert [x, y, z][..2] == [x, y] && [x, y, z][2..] == [z];
  }

  // ----- one level of the loop -----

  ghost function Level(h: Hash, s: seq<Digest>): (next: seq<Digest>)
    ensures |next| == (|s| + 1) / 2
  {
    if |s| <= 1 then s else [HashPair(h, s[0], s[1])] + Level(h, s[2..])
  }

  lemma {:induction false} LevelAppend(h: Hash, a: seq<Digest>, b: seq<Digest>)
    requires |a| % 2 == 0
    ensures Level(h, a + b) == Level(h, a) + Level(h, b)
  {
    if a == [] {
      assert a + b == b;
    } else {
      LevelAppend(h, a[2..], b);
      assert (a + b)[2..] == a[2..] + b;
    }
  }

  /** The chunk of one or two digests at an even position i contributes one digest. */
  lemma LevelStep(h: Hash, s: seq<Digest>, i: nat, end: nat)
    requires i % 2 == 0 && i < |s| && end == (if i + 2 <= |s| then i + 2 else |s|)
    ensures Level(h, s[..end]) ==
            Level(h, s[..i]) + [if end == i + 2 then HashPair(h, s[i], s[i + 1]) else s[i]]
  {
    var chunk := s[i..end];
    assert s[..end] == s[..i] + chunk;
    LevelAppend(h, s[..i], chunk);
    if end == i + 2 {
      assert Level(h, chunk[2..]) == [];
    }
  }

  /** Hashing one level never changes the root of the recursive definition. */
  lemma {:induction false} LevelKeepsRoot(h: Hash, s: seq<Digest>)
    requires |s| >= 2
    ensures TreeRoot(h, Level(h, s)) == TreeRoot(h, s)
    decreases |s|
  {
    if |s| == 2 {
      assert Level(h, s[2..]) == [];
    } else {
      var k := Split(|s|);
      var j := Split((|s| + 1) / 2);
      var left, right := s[..k], s[k..];
      LevelAppend(h, left, right);
      assert s == left + right;
      var next := Level(h, s);
      assert next[..j] == Level(h, left) && next[j..] == Level(h, right);
      LevelKeepsRoot(h, left);
      if |right| >= 2 {
        LevelKeepsRoot(h, right);
      }
    }
  }

  /** The inner loop: one pass over the chunks of two. */
  method HashLevel(h: Hash, current: seq<Digest>) returns (next: seq<Digest>)
    ensures next == Level(h, current)
  {
    next := [];
    var i := 0;
    while i < |current|
      invariant 0 <= i <= |current|
      invariant i % 2 == 0 || i == |current|
      invariant next == Level(h, current[..i])
    {
      var end := if i + 2 <= |current| then i + 2 else |current|;
      LevelStep(h, current, i, end);
      if end == i + 2 {
        next := next + [HashPair(h, current[i], current[i + 1])];
      } else {
        next := next + [current[i]];
      }
      i := end;
    }
    assert current[..i] == current;
  }

  /** The level-by-level loop with promotion of the odd node computes the recursive root. */
  method MerkleRootFromLeaves(h: Hash, leaves: seq<Digest>) returns (root: Digest)
    ensures leaves == [] ==> |root| == 32 && forall i | 0 <= i < 32 :: root[i] == 0
    ensures leaves == [] ==> root == ZERO_DIGEST
    ensures leaves != [] ==> root == TreeRoot(h, leaves)
  {
    if |leaves| == 0 {
      return ZERO_DIGEST;
    }
    if |leaves| == 1 {
      return leaves[0];
    }
    var current := leaves;
    while |current| > 1
      invariant current != []
      invariant TreeRoot(h, current) == TreeRoot(h, leaves)
      decreases |current|
    {
      LevelKeepsRoot(h, current);
      current := HashLevel(h, current);
    }
    root := current[0];
  }

  method ComputeProvenanceRoot(h: Hash, entries: seq<Entry>) returns (p: ProvenanceRoot)
    ensures p.leaves == LeafHashes(h, entries) && p.leafCount == |entries|
    ensures entries == [] ==> p.root == ZERO_DIGEST && forall i | 0 <= i < 32 :: p.root[i] == 0
    ensures entries != [] ==> p.root == TreeRoot(h, LeafHashes(h, entries))
  {
    if |entries| == 0 {
      return ProvenanceRoot(ZERO_DIGEST, 0, []);
    }
    var leaves := LeafHashes(h, entries);
    var root := MerkleRootFromLeaves(h, leaves);
    p := ProvenanceRoot(root, |leaves|, leaves);
  }

  predicate VerifyEntryInclusion(h: Hash, p: ProvenanceRoot, e: Entry) {
    HashEntry(h, e) in p.leaves
  }

  // ----- binding -----

  lemma PairsEqual(al: Bytes, ar: Bytes, bl: Bytes, br: Bytes)
    requires |al| == |bl| && al + ar == bl + br
    ensures al == bl && ar == br
  {
    assert al == (al + ar)[..|al|] && bl == (bl + br)[..|bl|];
    assert ar == (al + ar)[|al|..] && br == (bl + br)[|bl|..];
  }

  /** h separates the byte strings in s. */
  ghost predicate NoCollision(h: Hash, s: set<Bytes>) {
    forall x, y | x in s && y in s && h(x) == h(y) :: x == y
  }

  lemma NoCollisionWithin(h: Hash, s: set<Bytes>, t: set<Bytes>)
    requires NoCollision(h, s) && t <= s
    ensures NoCollision(h, t)
  {
  }

  /** The bytes hashed above a list of leaves. */
  ghost function PairsHashed(h: Hash, leaves: seq<Digest>): set<Bytes>
    decreases |leaves|
  {
    if |leaves| <= 1 then {}
    else
      var k := Split(|leaves|);
      {TreeRoot(h, leaves[..k]) + TreeRoot(h, leaves[k..])} + PairsHashed(h, leaves[..k]) + PairsHashed(h, leaves[k..])
  }

  lemma PairsHashedHalves(h: Hash, a: seq<Digest>, b: seq<Digest>, k: nat)
    requires |a| == |b| >= 2 && k == Split(|a|) && NoCollision(h, PairsHashed(h, a) + PairsHashed(h, b))
    ensures NoCollision(h, PairsHashed(h, a[..k]) + PairsHashed(h, b[..k]))
    ensures NoCollision(h, PairsHashed(h, a[k..]) + PairsHashed(h, b[k..]))
    ensures TreeRoot(h, a) == TreeRoot(h, b) ==>
      TreeRoot(h, a[..k]) == TreeRoot(h, b[..k]) && TreeRoot(h, a[k..]) == TreeRoot(h, b[k..])
  {
    var s := PairsHashed(h, a) + PairsHashed(h, b);
    NoCollisionWithin(h, s, PairsHashed(h, a[..k]) + PairsHashed(h, b[..k]));
    NoCollisionWithin(h, s, PairsHashed(h, a[k..]) + PairsHashed(h, b[k..]));
    var al: Bytes, ar: Bytes := TreeRoot(h, a[..k]), TreeRoot(h, a[k..]);
    var bl: Bytes, br: Bytes := TreeRoot(h, b[..k]), TreeRoot(h, b[k..]);
    assert al + ar in s && bl + br in s;
    if TreeRoot(h, a) == TreeRoot(h, b) {
      PairsEqual(al, ar, bl, br);
    }
  }

  lemma HalvesEqual<T>(a: seq<T>, b: seq<T>, k: nat)
    requires k <= |a| == |b|
    ensures a == b <==> a[..k] == b[..k] && a[k..] == b[k..]
  {
    assert a == a[..k] + a[k..] && b == b[..k] + b[k..];
  }

  /** As long as the hash separates the bytes hashed for two leaf lists of one length, their
      roots are equal exactly when the lists are. */
  lemma {:induction false} RootBindsLeaves(h: Hash, a: seq<Digest>, b: seq<Digest>)
    requires |a| == |b| && a != []
    requires NoCollision(h, PairsHashed(h, a) + PairsHashed(h, b))
    ensures TreeRoot(h, a) == TreeRoot(h, b) <==> a == b
    decreases |a|
  {
    if |a| > 1 {
      var k := Split(|a|);
      PairsHashedHalves(h, a, b, k);
      RootBindsLeaves(h, a[..k], b[..k]);
      RootBindsLeaves(h, a[k..], b[k..]);
      HalvesEqual(a, b, k);
    }
  }

  ghost predicate SeparatorFree(entries: seq<Entry>) {
    forall i | 0 <= i < |entries| :: SEPARATOR !in entries[i].id
  }

  /** The joined bytes determine the entry once neither id contains the separator. */
  lemma {:induction false} JoinedInjective(d: Entry, e: Entry)
    requires SEPARATOR !in d.id && SEPARATOR !in e.id
    requires Joined(d) == Joined(e)
    ensures d == e
  {
    var m, n := |d.id|, |e.id|;
    assert Joined(d)[m] == SEPARATOR && Joined(e)[n] == SEPARATOR;
    assert forall i | 0 <= i < m :: Joined(d)[i] == d.id[i] != SEPARATOR;
    assert forall i | 0 <= i < n :: Joined(e)[i] == e.id[i] != SEPARATOR;
    assert m == n;
    assert d.id == Joined(d)[..m] && e.id == Joined(e)[..m];
    assert d.content == Joined(d)[m + 1..] && e.content == Joined(e)[m + 1..];
  }

  lemma LeafSlices(h: Hash, entries: seq<Entry>, k: nat)
    requires k <= |entries|
    ensures LeafHashes(h, entries)[..k] == LeafHashes(h, entries[..k])
    ensures LeafHashes(h, entries)[k..] == LeafHashes(h, entries[k..])
  {
  }

  // ----- what the root of an entry list fixes -----

  ghost function EntryRoot(h: Hash, entries: seq<Entry>): Digest
    requires entries != []
  {
    TreeRoot(h, LeafHashes(h, entries))
  }

  /** The bytes hashed last: those of a lone entry, or the two subtree roots. */
  ghost function TopBytes(h: Hash, entries: seq<Entry>): Bytes
    requires entries != []
  {
    if |entries| == 1 then Joined(entries[0])
    else
      var k := Split(|entries|);
      EntryRoot(h, entries[..k]) + EntryRoot(h, entries[k..])
  }

  /** All bytes hashed for an entry list. */
  ghost function Hashed(h: Hash, entries: seq<Entry>): set<Bytes>
    decreases |entries|
  {
    if entries == [] then {}
    else if |entries| == 1 then {TopBytes(h, entries)}
    else
      var k := Split(|entries|);
      {TopBytes(h, entries)} + Hashed(h, entries[..k]) + Hashed(h, entries[k..])
  }

  lemma RootIsTopHash(h: Hash, entries: seq<Entry>)
    requires entries != []
    ensures EntryRoot(h, entries) == h(TopBytes(h, entries)) && TopBytes(h, entries) in Hashed(h, entries)
  {
    if |entries| > 1 {
      LeafSlices(h, entries, Split(|entries|));
    }
  }

  /** The two trees hash the same bytes from the top down, until a lone entry is reached. */
  ghost predicate SameTree(h: Hash, a: seq<Entry>, b: seq<Entry>)
    requires a != [] && b != []
    decreases |a|
  {
    if |a| == 1 || |b| == 1 then TopBytes(h, a) == TopBytes(h, b)
    else
      var k, m := Split(|a|), Split(|b|);
      SameTree(h, a[..k], b[..m]) && SameTree(h, a[k..], b[m..])
  }

  lemma HashedHalves(h: Hash, a: seq<Entry>, b: seq<Entry>)
    requires |a| >= 2 && |b| >= 2 && NoCollision(h, Hashed(h, a) + Hashed(h, b))
    ensures NoCollision(h, Hashed(h, a[..Split(|a|)]) + Hashed(h, b[..Split(|b|)]))
    ensures NoCollision(h, Hashed(h, a[Split(|a|)..]) + Hashed(h, b[Split(|b|)..]))
  {
    var s := Hashed(h, a) + Hashed(h, b);
    NoCollisionWithin(h, s, Hashed(h, a[..Split(|a|)]) + Hashed(h, b[..Split(|b|)]));
    NoCollisionWithin(h, s, Hashed(h, a[Split(|a|)..]) + Hashed(h, b[Split(|b|)..]));
  }

  /** As long as the hash separates the bytes hashed for two entry lists, their roots are
      equal exactly when their trees are the same. */
  lemma {:induction false} RootsAgreeExactly(h: Hash, a: seq<Entry>, b: seq<Entry>)
    requires a != [] && b != [] && NoCollision(h, Hashed(h, a) + Hashed(h, b))
    ensures EntryRoot(h, a) == EntryRoot(h, b) <==> SameTree(h, a, b)
    decreases |a|
  {
    RootIsTopHash(h, a);
    RootIsTopHash(h, b);
    assert EntryRoot(h, a) == EntryRoot(h, b) <==> TopBytes(h, a) == TopBytes(h, b);
    if |a| > 1 && |b| > 1 {
      var k, m := Split(|a|), Split(|b|);
      HashedHalves(h, a, b);
      RootsAgreeExactly(h, a[..k], b[..m]);
      RootsAgreeExactly(h, a[k..], b[m..]);
      if TopBytes(h, a) == TopBytes(h, b) {
        PairsEqual(EntryRoot(h, a[..k]), EntryRoot(h, a[k..]), EntryRoot(h, b[..m]), EntryRoot(h, b[m..]));
      }
    }
  }

  /** The lists are joined to the same bytes, entry by entry. */
  ghost predicate SameBytes(a: seq<Entry>, b: seq<Entry>) {
    |a| == |b| && forall i | 0 <= i < |a| :: Joined(a[i]) == Joined(b[i])
  }

  lemma SameBytesSplit(a: seq<Entry>, b: seq<Entry>, k: nat)
    requires k <= |a| && k <= |b|
    ensures SameBytes(a, b) <==> SameBytes(a[..k], b[..k]) && SameBytes(a[k..], b[k..])
  {
    if SameBytes(a[..k], b[..k]) && SameBytes(a[k..], b[k..]) {
      forall i | 0 <= i < |a| ensures Joined(a[i]) == Joined(b[i]) {
        if i < k {
          assert Joined(a[..k][i]) == Joined(b[..k][i]);
        } else {
          assert Joined(a[k..][i - k]) == Joined(b[k..][i - k]);
        }
      }
    }
  }

  /** Trees of one length are the same exactly when their entries are joined to the same
      bytes. */
  lemma {:induction false} SameTreeOfOneLength(h: Hash, a: seq<Entry>, b: seq<Entry>)
    requires |a| == |b| && a != []
    ensures SameTree(h, a, b) <==> SameBytes(a, b)
    decreases |a|
  {
    if |a| > 1 {
      var k := Split(|a|);
      SameTreeOfOneLength(h, a[..k], b[..k]);
      SameTreeOfOneLength(h, a[k..], b[k..]);
      SameBytesSplit(a, b, k);
    }
  }

  /** No entry's joined bytes are as long as two digests. */
  ghost predicate NotPairSized(entries: seq<Entry>) {
    forall i | 0 <= i < |entries| :: |Joined(entries[i])| != 64
  }

  /** Without such entries the same holds for trees of any lengths. */
  lemma {:induction false} SameTreeOfAnyLength(h: Hash, a: seq<Entry>, b: seq<Entry>)
    requires a != [] && b != [] && NotPairSized(a) && NotPairSized(b)
    ensures SameTree(h, a, b) <==> SameBytes(a, b)
    decreases |a|
  {
    if |a| == 1 || |b| == 1 {
      assert |a| == 1 ==> |TopBytes(h, a)| != 64;
      assert |b| == 1 ==> |TopBytes(h, b)| != 64;
    } else {
      var k, m := Split(|a|), Split(|b|);
      SameTreeOfAnyLength(h, a[..k], b[..m]);
      SameTreeOfAnyLength(h, a[k..], b[m..]);
      if |a| == |b| || SameTree(h, a, b) {
        assert k == m;
        SameBytesSplit(a, b, k);
      }
    }
  }

  lemma SameBytesSameEntries(a: seq<Entry>, b: seq<Entry>)
    requires SeparatorFree(a) && SeparatorFree(b)
    ensures SameBytes(a, b) <==> a == b
  {
    if SameBytes(a, b) {
      forall i | 0 <= i < |a| ensures a[i] == b[i] { JoinedInjective(a[i], b[i]); }
    }
  }

  /** As long as the hash separates the bytes hashed for two separator-free entry lists of one
      length, their roots are equal exactly when the lists are. */
  lemma RootBindsEntries(h: Hash, a: seq<Entry>, b: seq<Entry>)
    requires |a| == |b| && a != [] && SeparatorFree(a) && SeparatorFree(b)
    requires NoCollision(h, Hashed(h, a) + Hashed(h, b))
    ensures EntryRoot(h, a) == EntryRoot(h, b) <==> a == b
  {
    RootsAgreeExactly(h, a, b);
    SameTreeOfOneLength(h, a, b);
    SameBytesSameEntries(a, b);
  }

  /** The same for any two lengths, as long as no entry's joined bytes have the length of two
      digests. */
  lemma RootBindsAnyLength(h: Hash, a: seq<Entry>, b: seq<Entry>)
    requires a != [] && b != [] && SeparatorFree(a) && SeparatorFree(b) && NotPairSized(a) && NotPairSized(b)
    requires NoCollision(h, Hashed(h, a) + Hashed(h, b))
    ensures EntryRoot(h, a) == EntryRoot(h, b) <==> a == b
  {
    RootsAgreeExactly(h, a, b);
    SameTreeOfAnyLength(h, a, b);
    SameBytesSameEntries(a, b);
  }

  /** A list has the all-zero root of the empty list exactly when its top bytes hash to it. */
  lemma EmptyRootIsAlone(h: Hash, entries: seq<Entry>)
    requires entries != []
    ensures EntryRoot(h, entries) == ZERO_DIGEST <==> h(TopBytes(h, entries)) == ZERO_DIGEST
    ensures (forall x | x in Hashed(h, entries) :: h(x) != ZERO_DIGEST) ==> EntryRoot(h, entries) != ZERO_DIGEST
  {
    RootIsTopHash(h, entries);
  }

  /** The condition is needed: an entry whose joined bytes are the hashes of two entries
      stands for both of them. */
  lemma PairSizedEntryReplacesTwo(h: Hash, e1: Entry, e2: Entry, e3: Entry, e: Entry)
    requires Joined(e) == HashEntry(h, e1) + HashEntry(h, e2)
    ensures EntryRoot(h, [e1, e2, e3]) == EntryRoot(h, [e, e3])
    ensures [e1, e2, e3] != [e, e3] && !NotPairSized([e, e3])
  {
    var leaves := LeafHashes(h, [e1, e2, e3]);
    LevelKeepsRoot(h, leaves);
    assert leaves == [HashEntry(h, e1), HashEntry(h, e2), HashEntry(h, e3)];
    assert leaves[2..] == [HashEntry(h, e3)];
    assert Level(h, leaves) == [HashEntry(h, e), HashEntry(h, e3)] == LeafHashes(h, [e, e3]);
    assert |[e1, e2, e3]| == 3 && |[e, e3]| == 2;
    assert |Joined([e, e3][0])| == 64;
  }

  /** There is such an entry, with a separator-free id, exactly when one of the two hashes
      contains the separator's byte. */
  lemma PairSizedEntryExactly(left: Digest, right: Digest)
    ensures (exists e :: Joined(e) == left + right && SEPARATOR !in e.id) <==> SEPARATOR in left + right
  {
    if SEPARATOR in left + right {
      var e := SplitAtSeparator(left + right);
    }
    forall e | Joined(e) == left + right ensures SEPARATOR in left + right {
      assert Joined(e)[|e.id|] == SEPARATOR;
    }
  }

  lemma {:induction false} SplitAtSeparator(bytes: Bytes) returns (e: Entry)
    requires SEPARATOR in bytes
    ensures Joined(e) == bytes && SEPARATOR !in e.id
  {
    if bytes[0] == SEPARATOR {
      e := Entry([], bytes[1..]);
    } else {
      assert bytes == [bytes[0]] + bytes[1..];
      var rest := SplitAtSeparator(bytes[1..]);
      e := Entry([bytes[0]] + rest.id, rest.content);
    }
  }

  /** On bare leaf lists the root never fixes the length: any two lengths share a root. */
  lemma {:induction false} LengthsShareRoot(h: Hash, m: nat, n: nat) returns (a: seq<Digest>, b: seq<Digest>)
    requires m >= 1 && n >= 1
    ensures |a| == m && |b| == n && TreeRoot(h, a) == TreeRoot(h, b)
    decreases m
  {
    if m == 1 {
      b := seq(n, _ => ZERO_DIGEST);
      a := [TreeRoot(h, b)];
    } else if n == 1 {
      a := seq(m, _ => ZERO_DIGEST);
      b := [TreeRoot(h, a)];
    } else {
      var al, bl := LengthsShareRoot(h, Split(m), Split(n));
      var ar, br := LengthsShareRoot(h, m - Split(m), n - Split(n));
      a, b := al + ar, bl + br;
      assert a[..Split(m)] == al && a[Split(m)..] == ar && b[..Split(n)] == bl && b[Split(n)..] == br;
    }
  }

  /** Two entries are joined to the same bytes exactly when they are equal or the separator
      has moved from the content of one to the id of the other. */
  lemma JoinedExactly(d: Entry, e: Entry)
    requires |d.id| <= |e.id|
    ensures Joined(d) == Joined(e)
            <==> d == e || exists left ::
                e.id == d.id + [SEPARATOR] + left && d.content == left + [SEPARATOR] + e.content
  {
    var m, n := |d.id|, |e.id|;
    if Joined(d) == Joined(e) {
      assert d.id == Joined(d)[..m] == Joined(e)[..m] == e.id[..m];
      if m == n {
        assert d.content == Joined(d)[m + 1..] == Joined(e)[m + 1..] == e.content;
      } else {
        var left := e.id[m + 1..];
        assert e.id[m] == Joined(e)[m] == Joined(d)[m] == SEPARATOR;
        assert e.id == d.id + [SEPARATOR] + left;
        assert d.content == Joined(d)[m + 1..] == Joined(e)[m + 1..] == left + [SEPARATOR] + e.content;
      }
    }
    if left :| e.id == d.id + [SEPARATOR] + left && d.content == left + [SEPARATOR] + e.content {
      assert Joined(d) == d.id + [SEPARATOR] + left + [SEPARATOR] + e.content == Joined(e);
    }
  }

  /** The bytes hashed for the listed entries and the queried one. */
  ghost function LeafBytes(entries: seq<Entry>, e: Entry): set<Bytes> {
    (set d | d in entries :: Joined(d)) + {Joined(e)}
  }

  /** As long as the hash separates these bytes, exactly the entries joined to the bytes of a
      listed one are accepted, whatever the ids. */
  lemma InclusionByBytes(h: Hash, entries: seq<Entry>, p: ProvenanceRoot, e: Entry)
    requires p.leaves == LeafHashes(h, entries) && NoCollision(h, LeafBytes(entries, e))
    ensures VerifyEntryInclusion(h, p, e) <==> exists d :: d in entries && Joined(d) == Joined(e)
  {
    if d :| d in entries && Joined(d) == Joined(e) {
      var i :| 0 <= i < |entries| && entries[i] == d;
      assert p.leaves[i] == HashEntry(h, e);
    }
    if VerifyEntryInclusion(h, p, e) {
      var i :| 0 <= i < |p.leaves| && p.leaves[i] == HashEntry(h, e);
      assert entries[i] in entries && Joined(entries[i]) in LeafBytes(entries, e);
    }
  }

  /** Without separators in the ids, exactly the listed entries are accepted. */
  lemma InclusionIsExact(h: Hash, entries: seq<Entry>, p: ProvenanceRoot, e: Entry)
    requires p.leaves == LeafHashes(h, entries) && NoCollision(h, LeafBytes(entries, e))
    requires SeparatorFree(entries) && SEPARATOR !in e.id
    ensures VerifyEntryInclusion(h, p, e) <==> e in entries
  {
    InclusionByBytes(h, entries, p, e);
    if d :| d in entries && Joined(d) == Joined(e) {
      JoinedInjective(d, e);
    }
  }

  /** The condition on the queried id is needed: without it the check accepts an unlisted
      entry, whatever the hash. */
  lemma InclusionShiftsSeparator(h: Hash, id: Bytes, left: Bytes, right: Bytes, p: ProvenanceRoot)
    requires p.leaves == LeafHashes(h, [Entry(id, left + [SEPARATOR] + right)])
    ensures VerifyEntryInclusion(h, p, Entry(id + [SEPARATOR] + left, right))
    ensures Entry(id + [SEPARATOR] + left, right) !in [Entry(id, left + [SEPARATOR] + right)]
  {
    var listed, asked := Entry(id, left + [SEPARATOR] + right), Entry(id + [SEPARATOR] + left, right);
    assert Joined(listed) == Joined(asked);
    assert p.leaves[0] == HashEntry(h, asked);
    assert |asked.id| > |listed.id|;
  }
}
