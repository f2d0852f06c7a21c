/** The Merkle tree a peer builds over the content it shares: files cut
    into 1024-byte chunks grouped under a tree of fan-out 32, directories
    holding (at most 16 of) their entries, each node carrying a hash. The
    file system is an in-memory tree; SHA-256 is the `Hasher` oracle. */
module ContentTree {
  import opened Bytes
  import opened Paths
  import Payload

  const ChunkSize: nat := 1024
  const MaxChildren: nat := 32
  const MaxDirEntries: nat := 16

  // Node kinds, shared with the datum payload's kind byte.
  const KindChunk: int := Payload.NodeChunk as int
  const KindBigFile: int := Payload.NodeBigFile as int
  const KindDirectory: int := Payload.NodeDirectory as int

  /** `Node`: a nil hash or name is the empty sequence. */
  datatype Node = Node(name: seq<byte>, nodeType: int, offset: int, hash: seq<byte>, children: seq<Node>)

  /** Go's zero `Node{}`: no name, kind 0 (which is CHUNK), no hash. */
  const ZeroNode: Node := Node([], 0, 0, [], [])

  const InternalName: seq<byte> := Str("/InternalNode")

  /** What `os.Stat` and `os.ReadDir` find at a path: a regular file and its
      bytes, or a directory listing in the order `ReadDir` returns it. */
  datatype FsNode = File(content: seq<byte>) | Dir(entries: seq<FsEntry>)
  datatype FsEntry = FsEntry(name: seq<byte>, node: FsNode)

  // ---------------------------------------------------------------------
  // Chunking (`hashFile`'s read loop)

  /** The successive reads of a 1024-byte buffer over the file, up to EOF.
      A regular file fills the buffer on every read but the last. */
  function Chunks(c: seq<byte>): (r: seq<seq<byte>>)
    ensures |r| == (|c| + ChunkSize - 1) / ChunkSize
    ensures forall i | 0 <= i < |r| :: 0 < |r[i]| <= ChunkSize
  {
    if |c| == 0 then []
    else if |c| <= ChunkSize then [c]
    else [c[..ChunkSize]] + Chunks(c[ChunkSize..])
  }

  /** The chunks put back together are the file. */
  lemma {:induction false} ChunksRoundTrip(c: seq<byte>)
    ensures Flatten(Chunks(c)) == c
  {
    if |c| > ChunkSize {
      ChunksRoundTrip(c[ChunkSize..]);
      assert c == c[..ChunkSize] + c[ChunkSize..];
    }
  }

  /** Chunk `i` is the byte range `[1024i, min(1024(i+1), len))`. */
  lemma {:induction false} ChunkAt(c: seq<byte>, i: nat)
    requires i < |Chunks(c)|
    ensures ChunkSize * i < |c|
    ensures Chunks(c)[i] == c[ChunkSize * i..if ChunkSize * i + ChunkSize < |c| then ChunkSize * i + ChunkSize else |c|]
  {
    if i > 0 {
      var rest := c[ChunkSize..];
      assert |c| > ChunkSize;
      assert Chunks(c)[i] == Chunks(rest)[i - 1];
      ChunkAt(rest, i - 1);
      var s := ChunkSize * (i - 1);
      assert ChunkSize * i == ChunkSize + s;
      var e := if s + ChunkSize < |rest| then s + ChunkSize else |rest|;
      SliceOfSuffix(c, ChunkSize, s, e);
    }
  }

  lemma SliceOfSuffix(c: seq<byte>, a: nat, s: nat, e: nat)
    requires a <= |c| && s <= e <= |c| - a
    ensures c[a..][s..e] == c[a + s..a + e]
  {
    forall k | 0 <= k < e - s ensures c[a..][s..e][k] == c[a + s..a + e][k] {
      assert c[a..][s..e][k] == c[a + s + k];
    }
  }

  /** The leaf nodes of `hashFile`: leaf `i` is named `path/i`, sits at
      offset `1024i` and carries the hash of chunk `i`. */
  function Leaves(sha: Hasher, path: seq<byte>, content: seq<byte>): seq<Node>
  {
    var cs := Chunks(content);
    seq(|cs|, i requires 0 <= i < |cs| => Node(Child(path, Decimal(i)), KindChunk, ChunkSize * i, Digest(sha, cs[i]), []))
  }

  /** Each leaf describes its own byte range of the file. */
  lemma LeafLayout(sha: Hasher, path: seq<byte>, content: seq<byte>, i: nat)
    requires i < |Leaves(sha, path, content)|
    ensures var start := ChunkSize * i;
            var end := if start + ChunkSize < |content| then start + ChunkSize else |content|;
            && start < |content|
            && Leaves(sha, path, content)[i] == Node(Child(path, Decimal(i)), KindChunk, start, Digest(sha, content[start..end]), [])
  {
    ChunkAt(content, i);
  }

  // ---------------------------------------------------------------------
  // `calculateNodeHash`

  function Hashes(ns: seq<Node>): (r: seq<seq<byte>>)
    ensures |r| == |ns|
  {
    seq(|ns|, i requires 0 <= i < |ns| => ns[i].hash)
  }

  /** SHA-256 over the children's hashes written one after the other. */
  function NodeHash(sha: Hasher, ns: seq<Node>): seq<byte>
  {
    Digest(sha, Flatten(Hashes(ns)))
  }

  /** With 32-byte child hashes the hashed stream determines the ordered
      list of child hashes, and nothing else about the children matters. */
  lemma NodeHashInput(a: seq<Node>, b: seq<Node>)
    requires forall i | 0 <= i < |a| :: |a[i].hash| == HashSize
    requires forall i | 0 <= i < |b| :: |b[i].hash| == HashSize
    ensures Flatten(Hashes(a)) == Flatten(Hashes(b)) <==> Hashes(a) == Hashes(b)
  {
    if Flatten(Hashes(a)) == Flatten(Hashes(b)) {
      FlattenUniformLength(Hashes(a), HashSize);
      FlattenUniformLength(Hashes(b), HashSize);
      assert |a| == |b|;
      forall i | 0 <= i < |a| ensures Hashes(a)[i] == Hashes(b)[i] {
        FlattenUniformAt(Hashes(a), HashSize, i);
        FlattenUniformAt(Hashes(b), HashSize, i);
      }
    }
  }

  // ---------------------------------------------------------------------
  // `makeBTree`

  /** Where a group of leaves ends. The source computes `(start+1)*perNode`;
      the evident intent is `start+perNode`. */
  datatype GroupRule = AsWritten | Intended

  /** `ceil(n / 32)`, written as the source does. */
  function PerNode(n: nat): (r: nat)
    ensures n > 0 ==> MaxChildren * (r - 1) < n <= MaxChildren * r
  {
    (n + MaxChildren - 1) / MaxChildren
  }

  /** Every group is non-empty and smaller than the whole. */
  lemma PerNodeBounds(n: nat)
    requires n > MaxChildren
    ensures 1 <= PerNode(n) < n
  {
  }

  /** `a * b` by repeated addition, so that the solver sees the product
      only through the lemmas below. */
  function Times(a: nat, b: nat): nat
  {
    if a == 0 then 0 else b + Times(a - 1, b)
  }

  lemma {:induction false} TimesAtLeast(a: nat, b: nat)
    requires b >= 1
    ensures Times(a, b) >= a
  {
    if a > 0 {
      TimesAtLeast(a - 1, b);
    }
  }

  lemma {:induction false} TimesIsProduct(a: nat, b: nat)
    ensures Times(a, b) == a * b
  {
    if a > 0 {
      TimesIsProduct(a - 1, b);
      assert a * b == b + (a - 1) * b;
    }
  }

  lemma TimesStep(a: nat, b: nat)
    ensures Times(a + 1, b) == b + Times(a, b)
  {
  }

  function GroupEnd(rule: GroupRule, start: nat, per: nat): (r: nat)
    requires per >= 1
    ensures r > start
    ensures start == 0 ==> r == per
  {
    match rule
    case AsWritten => TimesAtLeast(start + 1, per); Times(start + 1, per)
    case Intended => start + per
  }

  function MakeBTree(rule: GroupRule, sha: Hasher, ns: seq<Node>): (r: Node)
    decreases |ns|, 1
    ensures |ns| == 0 ==> r == ZeroNode
    ensures 0 < |ns| <= MaxChildren ==> r == Node([], 0, 0, [], ns)
    ensures |ns| > MaxChildren ==>
              && r.name == InternalName && r.nodeType == KindBigFile
              && r.hash == NodeHash(sha, ns)
              && |r.children| > 0 && r.offset == r.children[0].offset
  {
    if |ns| == 0 then ZeroNode
    else if |ns| <= MaxChildren then Node([], 0, 0, [], ns)
    else
      PerNodeBounds(|ns|);
      var per := PerNode(|ns|);
      var starts := GroupStarts(|ns|, per, 0);
      var kids := seq(|starts|, i requires 0 <= i < |starts| => GroupTree(rule, sha, ns, per, starts[i]));
      Node(InternalName, KindBigFile, kids[0].offset, NodeHash(sha, ns), kids)
  }

  /** The `for start := 0; start < n; start += perNode` loop: the start of
      every group, in order. */
  function GroupStarts(n: nat, per: nat, start: nat): (r: seq<nat>)
    requires per >= 1
    decreases n - start
    ensures forall i | 0 <= i < |r| :: start <= r[i] < n
    ensures start < n ==> |r| > 0 && r[0] == start
  {
    if start >= n then [] else [start] + GroupStarts(n, per, start + per)
  }

  /** The subtree over the group that starts at `s`; the group is never the
      whole of `ns`, so the recursion ends. */
  function GroupTree(rule: GroupRule, sha: Hasher, ns: seq<Node>, per: nat, s: nat): Node
    requires 1 <= per < |ns| && s < |ns|
    decreases |ns|, 0
  {
    var e := GroupEnd(rule, s, per);
    MakeBTree(rule, sha, ns[s..if e < |ns| then e else |ns|])
  }

  /** Group `k` starts at `k·perNode`, and there is a group `k` exactly when
      that is below `n`. */
  lemma {:induction false} GroupStartsAt(n: nat, per: nat, start: nat, k: nat)
    requires per >= 1
    ensures k < |GroupStarts(n, per, start)| <==> start + Times(k, per) < n
    ensures k < |GroupStarts(n, per, start)| ==> GroupStarts(n, per, start)[k] == start + Times(k, per)
    decreases k
  {
    if k > 0 && start < n {
      GroupStartsAt(n, per, start + per, k - 1);
    }
  }

  /** The children of an internal node: group starts are `0, perNode,
      2·perNode, …` below `n`, and child `k` is the tree over the group
      starting at `k·perNode`. */
  lemma GroupLayout(rule: GroupRule, sha: Hasher, ns: seq<Node>, k: nat)
    requires |ns| > MaxChildren
    ensures 1 <= PerNode(|ns|) < |ns|
    ensures var r := MakeBTree(rule, sha, ns);
            var per := PerNode(|ns|);
            && (k < |r.children| <==> Times(k, per) < |ns|)
            && (k < |r.children| ==> r.children[k] == GroupTree(rule, sha, ns, per, Times(k, per)))
  {
    PerNodeBounds(|ns|);
    var per := PerNode(|ns|);
    var starts := GroupStarts(|ns|, per, 0);
    GroupStartsAt(|ns|, per, 0, k);
    var r := MakeBTree(rule, sha, ns);
    assert |r.children| == |starts|;
    if k < |starts| {
      assert starts[k] == Times(k, per);
      assert r.children[k] == GroupTree(rule, sha, ns, per, starts[k]);
    }
  }

  /** The offset an internal node copies from its first child is always 0:
      a node of at most 32 leaves never has its offset set. */
  lemma {:induction false} OffsetIsZero(rule: GroupRule, sha: Hasher, ns: seq<Node>)
    ensures MakeBTree(rule, sha, ns).offset == 0
    decreases |ns|
  {
    if |ns| > MaxChildren {
      GroupLayout(rule, sha, ns, 0);
      var per := PerNode(|ns|);
      OffsetIsZero(rule, sha, ns[0..per]);
    }
  }

  /** As written, a tree over more than 32 leaves repeats leaves: the group
      starting at `perNode` ends at `min(perNode·(perNode+1), n)`, past the
      start `2·perNode` of the next group, so leaf `2·perNode` sits under
      two children. */
  lemma AsWrittenGroupsOverlap(sha: Hasher, ns: seq<Node>)
    requires |ns| > MaxChildren
    ensures var r := MakeBTree(AsWritten, sha, ns);
            var per := PerNode(|ns|);
            && 2 <= per && Times(2, per) == 2 * per && 2 * per < |ns|
            && |r.children| >= 3
            && r.children[1] == GroupTree(AsWritten, sha, ns, per, per)
            && r.children[2] == GroupTree(AsWritten, sha, ns, per, Times(2, per))
            && GroupEnd(AsWritten, per, per) > 2 * per
  {
    OverlapBounds(|ns|);
    TimesIsProduct(2, PerNode(|ns|));
    GroupLayout(AsWritten, sha, ns, 1);
    GroupLayout(AsWritten, sha, ns, 2);
  }

  lemma OverlapBounds(n: nat)
    requires n > MaxChildren
    ensures 2 <= PerNode(n) && 2 * PerNode(n) < n
    ensures GroupEnd(AsWritten, PerNode(n), PerNode(n)) > 2 * PerNode(n)
  {
    var per := PerNode(n);
    TimesAtLeast(per, per);
    assert Times(per + 1, per) == per + Times(per, per);
  }

  /** The leaves under a tree, left to right. */
  function Fringe(t: Node): seq<Node>
    decreases t, 1
  {
    if |t.children| == 0 then [t] else FringeAll(t.children)
  }

  function FringeAll(ts: seq<Node>): seq<Node>
    decreases ts, 0
  {
    if |ts| == 0 then [] else Fringe(ts[0]) + FringeAll(ts[1..])
  }

  predicate IsLeaf(t: Node)
  {
    |t.children| == 0
  }

  lemma FringeAllCons(t: Node, ts: seq<Node>)
    ensures FringeAll([t] + ts) == Fringe(t) + FringeAll(ts)
  {
    assert ([t] + ts)[1..] == ts;
  }

  lemma {:induction false} FringeOfLeaves(ns: seq<Node>)
    requires forall i | 0 <= i < |ns| :: IsLeaf(ns[i])
    ensures FringeAll(ns) == ns
  {
    if |ns| > 0 {
      FringeAllCons(ns[0], ns[1..]);
      FringeOfLeaves(ns[1..]);
      assert [ns[0]] + ns[1..] == ns;
    }
  }

  /** With the intended group end the tree keeps every leaf exactly once,
      in order. */
  lemma {:induction false} IntendedTreeFringe(sha: Hasher, ns: seq<Node>)
    requires |ns| > 0 && forall i | 0 <= i < |ns| :: IsLeaf(ns[i])
    ensures Fringe(MakeBTree(Intended, sha, ns)) == ns
    decreases |ns|, 1
  {
    if |ns| <= MaxChildren {
      FringeOfLeaves(ns);
    } else {
      var per := PerNode(|ns|);
      var kids := MakeBTree(Intended, sha, ns).children;
      IntendedChildrenFringes(sha, ns);
      FringesConcat(kids, ns, per, 0);
      assert kids[0..] == kids;
      assert ns[0..] == ns;
    }
  }

  /** Child `k` has exactly the leaves of group `k`, `[k·per, (k+1)·per)`
      cut at the last leaf. */
  predicate CoversGroup(kids: seq<Node>, ns: seq<Node>, per: nat, k: nat)
    requires k < |kids|
  {
    && Times(k, per) < |ns|
    && Fringe(kids[k]) == ns[Times(k, per)..Min(Times(k, per) + per, |ns|)]
  }

  /** Every child of the intended tree covers its own group of leaves, and
      the groups reach the last leaf. */
  lemma IntendedChildrenFringes(sha: Hasher, ns: seq<Node>)
    requires |ns| > MaxChildren && forall i | 0 <= i < |ns| :: IsLeaf(ns[i])
    ensures var kids := MakeBTree(Intended, sha, ns).children;
            var per := PerNode(|ns|);
            && per >= 1 && Times(|kids|, per) >= |ns|
            && forall k | 0 <= k < |kids| :: CoversGroup(kids, ns, per, k)
    decreases |ns|, 0, 1
  {
    var kids := MakeBTree(Intended, sha, ns).children;
    var per := PerNode(|ns|);
    GroupLayout(Intended, sha, ns, |kids|);
    forall k | 0 <= k < |kids|
      ensures CoversGroup(kids, ns, per, k)
    {
      var end := IntendedChildFringe(sha, ns, k);
    }
  }

  /** Children whose leaves are consecutive groups of `per` leaves, from
      group `j` on, have the leaves from `j·per` on. */
  lemma {:induction false} FringesConcat(kids: seq<Node>, ns: seq<Node>, per: nat, j: nat)
    requires per >= 1 && j <= |kids| && Times(|kids|, per) >= |ns|
    requires forall k | 0 <= k < |kids| :: CoversGroup(kids, ns, per, k)
    ensures FringeAll(kids[j..]) == if Times(j, per) < |ns| then ns[Times(j, per)..] else []
    decreases |kids| - j
  {
    if j < |kids| {
      var s := Times(j, per);
      var end := Min(s + per, |ns|);
      assert CoversGroup(kids, ns, per, j);
      FringesConcat(kids, ns, per, j + 1);
      TimesStep(j, per);
      FringeConcat(kids, ns, j, s, end);
    } else {
      assert kids[j..] == [];
    }
  }

  /** Child `j` of the intended tree covers exactly leaves `[j·perNode,
      end)`, where `end` is the next group's start or the last leaf. */
  lemma IntendedChildFringe(sha: Hasher, ns: seq<Node>, j: nat) returns (end: nat)
    requires |ns| > MaxChildren && forall i | 0 <= i < |ns| :: IsLeaf(ns[i])
    requires j < |MakeBTree(Intended, sha, ns).children|
    ensures var s := Times(j, PerNode(|ns|));
            && s < end <= |ns|
            && end == (if s + PerNode(|ns|) < |ns| then s + PerNode(|ns|) else |ns|)
            && Fringe(MakeBTree(Intended, sha, ns).children[j]) == ns[s..end]
    decreases |ns|, 0, 0
  {
    PerNodeBounds(|ns|);
    var per := PerNode(|ns|);
    GroupLayout(Intended, sha, ns, j);
    var s := Times(j, per);
    end := if s + per < |ns| then s + per else |ns|;
    LeafSlice(ns, s, end);
    IntendedTreeFringe(sha, ns[s..end]);
  }

  /** Gluing one child's leaves in front of the following children's. */
  lemma FringeConcat(kids: seq<Node>, ns: seq<Node>, j: nat, s: nat, end: nat)
    requires j < |kids| && s < end <= |ns|
    requires Fringe(kids[j]) == ns[s..end]
    requires FringeAll(kids[j + 1..]) == if end < |ns| then ns[end..] else []
    ensures FringeAll(kids[j..]) == ns[s..]
  {
    assert kids[j..] == [kids[j]] + kids[j + 1..];
    FringeAllCons(kids[j], kids[j + 1..]);
    SliceSplit(ns, s, end);
  }

  lemma LeafSlice(ns: seq<Node>, a: nat, b: nat)
    requires a <= b <= |ns| && forall i | 0 <= i < |ns| :: IsLeaf(ns[i])
    ensures forall i | 0 <= i < b - a :: IsLeaf(ns[a..b][i])
  {
  }

  lemma SliceSplit(ns: seq<Node>, a: nat, b: nat)
    requires a <= b <= |ns|
    ensures ns[a..] == ns[a..b] + (if b < |ns| then ns[b..] else [])
  {
  }

  // ---------------------------------------------------------------------
  // `hashFile`, `hashDir`, `Merkelify`

  /** `hashFile`: build the tree over the chunk leaves, then name it after
      the file. The kind first chosen from the chunk count is discarded, so
      the result carries whatever kind `makeBTree` left. */
  function HashFile(sha: Hasher, path: seq<byte>, content: seq<byte>): (r: Node)
    ensures r.name == Base(path)
    ensures r.nodeType == (if |content| > MaxChildren * ChunkSize then KindBigFile else KindChunk)
    ensures r.offset == 0
    ensures |content| <= MaxChildren * ChunkSize ==> r.hash == [] && r.children == Leaves(sha, path, content)
    ensures |content| > MaxChildren * ChunkSize ==> r.hash == NodeHash(sha, Leaves(sha, path, content))
  {
    var leaves := Leaves(sha, path, content);
    OffsetIsZero(AsWritten, sha, leaves);
    MakeBTree(AsWritten, sha, leaves).(name := Base(path))
  }

  function Min(a: nat, b: nat): nat
  {
    if a < b then a else b
  }

  /** `hashDir`: at most the first 16 entries, in listing order, each hashed
      under `path + "/" + name`. The hash of the path computed for an empty
      directory is replaced by the hash over the (empty) children, as every
      directory's is. Only an empty directory is given a name. */
  function HashDir(sha: Hasher, path: seq<byte>, d: FsNode): (r: Node)
    requires d.Dir?
    decreases d, 0
    ensures r.nodeType == KindDirectory && r.offset == 0
    ensures |r.children| == Min(|d.entries|, MaxDirEntries)
    ensures forall i | 0 <= i < |r.children| :: r.children[i] == HashEntry(sha, path, d.entries[i])
    ensures r.hash == NodeHash(sha, r.children)
    ensures |d.entries| == 0 ==> r.name == Base(path) && r.hash == Digest(sha, [])
    ensures |d.entries| > 0 ==> r.name == []
  {
    var k := Min(|d.entries|, MaxDirEntries);
    var kids := seq(k, i requires 0 <= i < k => HashEntry(sha, path, d.entries[i]));
    Node(if k == 0 then Base(path) else [], KindDirectory, 0, NodeHash(sha, kids), kids)
  }

  /** One entry of a listing, at `dir + "/" + name`. */
  function HashEntry(sha: Hasher, dir: seq<byte>, e: FsEntry): Node
    decreases e, 1
  {
    match e.node
    case File(content) => HashFile(sha, Child(dir, e.name), content)
    case Dir(_) => HashDir(sha, Child(dir, e.name), e.node)
  }

  /** A file entry and an empty directory entry keep their name in the
      tree; a non-empty subdirectory's node is nameless. */
  lemma EntryName(sha: Hasher, dir: seq<byte>, e: FsEntry)
    requires IsComponent(e.name) && |e.name| > 0
    ensures HashEntry(sha, dir, e).name == if e.node.Dir? && |e.node.entries| > 0 then [] else e.name
  {
    BaseOfChild(dir, e.name);
  }

  /** `Merkelify`: a directory or a file, as `os.Stat` reports it. */
  function Merkelify(sha: Hasher, path: seq<byte>, n: FsNode): (r: Node)
    ensures r.nodeType == KindDirectory <==> n.Dir?
    ensures n.File? ==> r == HashFile(sha, path, n.content)
    ensures n.Dir? ==> r == HashDir(sha, path, n)
  {
    if n.Dir? then HashDir(sha, path, n) else HashFile(sha, path, n.content)
  }

  /** The directory part of a content tree is sealed: every directory node
      reached through directory nodes keeps at most 16 children and
      carries the hash over exactly those children's hash fields. A file of
      at most 32 chunks has an empty hash field, so it adds nothing to the
      hash of the directory holding it (`SmallFileContentNotHashed`). */
  predicate Sealed(sha: Hasher, t: Node)
    decreases t
  {
    t.nodeType == KindDirectory ==>
      && |t.children| <= MaxDirEntries
      && t.hash == NodeHash(sha, t.children)
      && forall c | c in t.children :: Sealed(sha, c)
  }

  /** Every tree `Merkelify` builds is sealed. */
  lemma {:induction false} MerkelifySealed(sha: Hasher, path: seq<byte>, n: FsNode)
    ensures Sealed(sha, Merkelify(sha, path, n))
  {
    if n.Dir? {
      HashDirSealed(sha, path, n);
    }
  }

  lemma {:induction false} HashDirSealed(sha: Hasher, path: seq<byte>, d: FsNode)
    requires d.Dir?
    ensures Sealed(sha, HashDir(sha, path, d))
    decreases d, 0
  {
    var r := HashDir(sha, path, d);
    forall c | c in r.children
      ensures Sealed(sha, c)
    {
      var i :| 0 <= i < |r.children| && r.children[i] == c;
      assert d.entries[i] in d.entries;
      HashEntrySealed(sha, path, d.entries[i]);
    }
  }

  lemma {:induction false} HashEntrySealed(sha: Hasher, dir: seq<byte>, e: FsEntry)
    ensures Sealed(sha, HashEntry(sha, dir, e))
    decreases e, 1
  {
    if e.node.Dir? {
      HashDirSealed(sha, Child(dir, e.name), e.node);
    }
  }

  /** The content of a file of at most 32 chunks does not reach its
      directory's hash: `makeBTree` leaves such a file's node without a
      hash, and `calculateNodeHash` reads only the children's hashes. */
  lemma SmallFileContentNotHashed(sha: Hasher, path: seq<byte>, name: seq<byte>, a: seq<byte>, b: seq<byte>)
    requires |a| <= MaxChildren * ChunkSize && |b| <= MaxChildren * ChunkSize
    ensures HashDir(sha, path, Dir([FsEntry(name, File(a))])).hash == HashDir(sha, path, Dir([FsEntry(name, File(b))])).hash
  {
    var da := HashDir(sha, path, Dir([FsEntry(name, File(a))]));
    var db := HashDir(sha, path, Dir([FsEntry(name, File(b))]));
    assert da.children[0].hash == [] == db.children[0].hash;
    assert Hashes(da.children) == Hashes(db.children);
  }

  /** `hashDir` stops after the 16th entry: whatever follows it in the
      listing leaves the directory's node unchanged. */
  lemma HashDirIgnoresRest(sha: Hasher, path: seq<byte>, kept: seq<FsEntry>, rest: seq<FsEntry>)
    requires |kept| == MaxDirEntries
    ensures HashDir(sha, path, Dir(kept + rest)) == HashDir(sha, path, Dir(kept))
  {
    var a := HashDir(sha, path, Dir(kept + rest));
    var b := HashDir(sha, path, Dir(kept));
    assert forall i | 0 <= i < MaxDirEntries :: (kept + rest)[i] == kept[i];
    assert a.children == b.children;
  }

  // ---------------------------------------------------------------------
  // `getHash`, `compareHash`

  /** `compareHash` compares hexadecimal renderings, which is byte
      equality. */
  function CompareHash(a: seq<byte>, b: seq<byte>): (r: bool)
    ensures r <==> a == b
  {
    HexInjective(a, b);
    Hex(a) == Hex(b)
  }

  /** `getHash`: the node itself if its hash matches, otherwise the first
      hit among the children, left to right. (The file read that comes
      with a hit is not modelled.) */
  function GetHash(t: Node, target: seq<byte>): Option<Node>
    decreases t, 1
  {
    if CompareHash(t.hash, target) then Some(t) else FirstHit(t, target, 0)
  }

  function FirstHit(t: Node, target: seq<byte>, i: nat): Option<Node>
    decreases t, 0, |t.children| - i
  {
    if i >= |t.children| then None
    else
      match GetHash(t.children[i], target)
      case Some(n) => Some(n)
      case None => FirstHit(t, target, i + 1)
  }

  /** Reference: every node of the tree in pre-order. */
  function PreOrder(t: Node): seq<Node>
    decreases t, 1
  {
    [t] + PreOrderFrom(t, 0)
  }

  function PreOrderFrom(t: Node, i: nat): seq<Node>
    decreases t, 0, |t.children| - i
  {
    if i >= |t.children| then [] else PreOrder(t.children[i]) + PreOrderFrom(t, i + 1)
  }

  /** Reference: a linear scan for the first node with the hash. */
  function FirstWithHash(s: seq<Node>, h: seq<byte>): (r: Option<Node>)
    ensures r.None? <==> forall k | 0 <= k < |s| :: s[k].hash != h
    ensures r.Some? ==> exists k | 0 <= k < |s| :: s[k] == r.value && r.value.hash == h && forall j | 0 <= j < k :: s[j].hash != h
  {
    if |s| == 0 then None
    else if s[0].hash == h then
      Some(s[0])
    else
      var r := FirstWithHash(s[1..], h);
      if r.Some? then
        var k :| 0 <= k < |s| - 1 && s[1..][k] == r.value && r.value.hash == h && forall j | 0 <= j < k :: s[1..][j].hash != h;
        assert s[k + 1] == r.value && forall j | 0 <= j < k + 1 :: s[j].hash != h;
        r
      else
        r
  }

  lemma {:induction false} FirstWithHashAppend(a: seq<Node>, b: seq<Node>, h: seq<byte>)
    ensures FirstWithHash(a + b, h) == if FirstWithHash(a, h).Some? then FirstWithHash(a, h) else FirstWithHash(b, h)
  {
    if |a| > 0 {
      assert (a + b)[0] == a[0];
      assert (a + b)[1..] == a[1..] + b;
      FirstWithHashAppend(a[1..], b, h);
    } else {
      assert a + b == b;
    }
  }

  /** `getHash` finds the first node in pre-order whose hash is the target,
      and finds nothing exactly when no node of the tree has it. */
  lemma {:induction false} GetHashIsPreOrderSearch(t: Node, h: seq<byte>)
    ensures GetHash(t, h) == FirstWithHash(PreOrder(t), h)
    decreases t, 1
  {
    FirstHitIsSearch(t, h, 0);
    FirstWithHashAppend([t], PreOrderFrom(t, 0), h);
  }

  lemma {:induction false} FirstHitIsSearch(t: Node, h: seq<byte>, i: nat)
    ensures FirstHit(t, h, i) == FirstWithHash(PreOrderFrom(t, i), h)
    decreases t, 0, |t.children| - i
  {
    if i < |t.children| {
      GetHashIsPreOrderSearch(t.children[i], h);
      FirstHitIsSearch(t, h, i + 1);
      FirstWithHashAppend(PreOrder(t.children[i]), PreOrderFrom(t, i + 1), h);
    }
  }
}
