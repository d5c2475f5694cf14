/** The tree of section 2.1 of RFC 6962, and the compact range that grows it leaf by leaf. */
module Merkle {
  import opened Bytes
  import opened Modular

  /** SHA-256, kept uninterpreted. */
  type Hash = seq<byte> -> seq<byte>

  type Digest = seq<byte>

  function LeafHash(h: Hash, data: seq<byte>): Digest {
    h([0] + data)
  }

  function InteriorHash(h: Hash, left: Digest, right: Digest): Digest {
    h([1] + left + right)
  }

  // ----- powers of two -----

  /** The exponent of the largest power of two below n, searched upwards from k. */
  function SplitBit(n: nat, k: nat): (r: nat)
    requires Exp2(k) < n
    ensures Exp2(r) < n <= 2 * Exp2(r)
    decreases n - Exp2(k)
  {
    if Exp2(k) * 2 < n then SplitBit(n, k + 1) else k
  }

  lemma SplitBitUnique(n: nat, k: nat)
    requires Exp2(k) < n <= 2 * Exp2(k)
    ensures n >= 2 && SplitBit(n, 0) == k
  {
    var r := SplitBit(n, 0);
    if r < k {
      Exp2Strict(r, k);
    } else if k < r {
      Exp2Strict(k, r);
    }
  }

  // ----- the recursive root -----

  function Root(h: Hash, leaves: seq<Digest>): Digest {
    if leaves == [] then h([])
    else if |leaves| == 1 then leaves[0]
    else
      var split := Exp2(SplitBit(|leaves|, 0));
      InteriorHash(h, Root(h, leaves[..split]), Root(h, leaves[split..]))
  }

  method MerkleRoot(h: Hash, leaves: seq<Digest>) returns (root: Digest)
    ensures root == Root(h, leaves)
    decreases |leaves|
  {
    if leaves == [] {
      return h([]);
    }
    if |leaves| == 1 {
      return leaves[0];
    }
    var split := 1;
    ghost var k := 0;
    while split * 2 < |leaves|
      invariant split == Exp2(k) && split < |leaves|
    {
      split, k := split * 2, k + 1;
    }
    SplitBitUnique(|leaves|, k);
    var left := MerkleRoot(h, leaves[..split]);
    var right := MerkleRoot(h, leaves[split..]);
    root := InteriorHash(h, left, right);
  }

  lemma RootSplit(h: Hash, leaves: seq<Digest>, k: nat)
    requires Exp2(k) < |leaves| <= 2 * Exp2(k)
    ensures var split := Exp2(k);
            Root(h, leaves) == InteriorHash(h, Root(h, leaves[..split]), Root(h, leaves[split..]))
  {
    SplitBitUnique(|leaves|, k);
  }

  /** A full tree splits in half. */
  lemma RootOfHalves(h: Hash, left: seq<Digest>, right: seq<Digest>, j: nat)
    requires |left| == |right| == Exp2(j)
    ensures Root(h, left + right) == InteriorHash(h, Root(h, left), Root(h, right))
  {
    var both := left + right;
    RootSplit(h, both, j);
    assert both[..Exp2(j)] == left && both[Exp2(j)..] == right;
  }

  // ----- the compact range -----

  datatype Node = Node(start: nat, size: nat, digest: Digest)

  /** The subtrees of the leaves, which number below 2^bit: one for each set bit, largest first. */
  function RangeBits(h: Hash, leaves: seq<Digest>, start: nat, bit: nat): seq<Node>
    requires |leaves| < Exp2(bit)
  {
    if bit == 0 then []
    else
      var size := Exp2(bit - 1);
      if |leaves| >= size
      then [Node(start, size, Root(h, leaves[..size]))] + RangeBits(h, leaves[size..], start + size, bit - 1)
      else RangeBits(h, leaves, start, bit - 1)
  }

  function Range(h: Hash, leaves: seq<Digest>): seq<Node> {
    RangeBits(h, leaves, 0, BitLength(|leaves|))
  }

  /** The number of leaves left when the bits from `bit` up are taken. */
  function Rest(n: nat, bit: nat): nat {
    n % Exp2(bit)
  }

  predicate BitSet(n: nat, size: pos) {
    n / size % 2 == 1
  }

  method CompactRange(h: Hash, leaves: seq<Digest>) returns (nodes: seq<Node>)
    ensures nodes == Range(h, leaves)
  {
    hide Rest, BitSet, Root;
    nodes := [];
    var start := 0;
    var bit := BitLength(|leaves|);
    RestAll(|leaves|, bit);
    assert leaves[0..] == leaves;
    while bit != 0
      invariant bit >= 0 && 0 <= start <= |leaves|
      invariant |leaves| - start == Rest(|leaves|, bit) < Exp2(bit)
      invariant nodes + RangeBits(h, leaves[start..], start, bit) == Range(h, leaves)
      decreases bit
    {
      bit := bit - 1;
      var size := Exp2(bit);
      RestStep(|leaves|, bit);
      if BitSet(|leaves|, size) {
        var digest := MerkleRoot(h, leaves[start..start + size]);
        assert leaves[start..][..size] == leaves[start..start + size];
        assert leaves[start..][size..] == leaves[start + size..];
        nodes := nodes + [Node(start, size, digest)];
        start := start + size;
      }
    }
  }

  lemma RestAll(n: nat, bit: nat)
    requires n < Exp2(bit)
    ensures Rest(n, bit) == n
  {
    ModUnique(Exp2(bit), n, 0, n);
  }

  lemma RestStep(n: nat, bit: nat)
    ensures Rest(n, bit) < Exp2(bit)
    ensures Rest(n, bit + 1) == Rest(n, bit) + if BitSet(n, Exp2(bit)) then Exp2(bit) else 0
  {
    BitTest(n, Exp2(bit));
  }

  lemma BitTest(n: nat, size: pos)
    ensures n % (2 * size) == n % size + if n / size % 2 == 1 then size else 0
  {
    var q, r := n / size, n % size;
    var t := q / 2;
    if q % 2 == 1 {
      assert n == size * (2 * t + 1) + r == 2 * size * t + (size + r);
      ModUnique(2 * size, n, t, size + r);
    } else {
      assert n == size * (2 * t) + r == 2 * size * t + r;
      ModUnique(2 * size, n, t, r);
    }
  }

  // ----- folding a compact range gives the root -----

  function Fold(h: Hash, nodes: seq<Node>): Digest
    requires nodes != []
  {
    if |nodes| == 1 then nodes[0].digest else InteriorHash(h, nodes[0].digest, Fold(h, nodes[1..]))
  }

  method CompactFold(h: Hash, nodes: seq<Node>) returns (root: Digest)
    requires nodes != []
    ensures root == Fold(h, nodes)
  {
    var i := |nodes| - 1;
    root := nodes[i].digest;
    while i != 0
      invariant 0 <= i < |nodes| && root == Fold(h, nodes[i..])
    {
      i := i - 1;
      assert nodes[i..][1..] == nodes[i + 1..];
      root := InteriorHash(h, nodes[i].digest, root);
    }
  }

  lemma {:induction false} FoldIsRootBits(h: Hash, leaves: seq<Digest>, start: nat, bit: nat)
    requires leaves != [] && |leaves| < Exp2(bit)
    ensures RangeBits(h, leaves, start, bit) != []
    ensures Fold(h, RangeBits(h, leaves, start, bit)) == Root(h, leaves)
  {
    hide Root;
    var size := Exp2(bit - 1);
    if |leaves| < size {
      FoldIsRootBits(h, leaves, start, bit - 1);
    } else if |leaves| == size {
      assert leaves[..size] == leaves && leaves[size..] == [];
      RangeOfNone(h, start + size, bit - 1);
    } else {
      RootSplit(h, leaves, bit - 1);
      FoldIsRootBits(h, leaves[size..], start + size, bit - 1);
      assert RangeBits(h, leaves, start, bit)[1..] == RangeBits(h, leaves[size..], start + size, bit - 1);
    }
  }

  lemma {:induction false} RangeOfNone(h: Hash, start: nat, bit: nat)
    ensures RangeBits(h, [], start, bit) == []
  {
    if bit != 0 {
      RangeOfNone(h, start, bit - 1);
    }
  }

  lemma FoldIsRoot(h: Hash, leaves: seq<Digest>)
    requires leaves != []
    ensures Range(h, leaves) != [] && Fold(h, Range(h, leaves)) == Root(h, leaves)
  {
    FoldIsRootBits(h, leaves, 0, BitLength(|leaves|));
  }

  // ----- appending a leaf is a binary carry -----

  /** Merge the last two subtrees while they cover equal leaf counts. */
  function Carry(h: Hash, out: seq<Node>): seq<Node>
    decreases |out|
  {
    var n := |out|;
    if n >= 2 && out[n - 1].size == out[n - 2].size
    then Carry(h, out[..n - 2] + [Joined(h, out[n - 2], out[n - 1])])
    else out
  }

  function Joined(h: Hash, left: Node, right: Node): Node {
    Node(left.start, left.size * 2, InteriorHash(h, left.digest, right.digest))
  }

  method CompactAppend(h: Hash, nodes: seq<Node>, leaf: Digest, index: nat) returns (out: seq<Node>)
    ensures out == Carry(h, nodes + [Node(index, 1, leaf)])
  {
    out := nodes + [Node(index, 1, leaf)];
    while |out| >= 2 && out[|out| - 1].size == out[|out| - 2].size
      invariant Carry(h, out) == Carry(h, nodes + [Node(index, 1, leaf)])
      decreases |out|
    {
      var right := out[|out| - 1];
      var left := out[|out| - 2];
      out := out[..|out| - 2] + [Node(left.start, left.size * 2, InteriorHash(h, left.digest, right.digest))];
    }
  }

  predicate EndsAbove(prefix: seq<Node>, size: nat) {
    prefix == [] || prefix[|prefix| - 1].size >= size
  }

  lemma CarryJoins(h: Hash, prefix: seq<Node>, left: Node, right: Node)
    requires left.size == right.size
    ensures Carry(h, prefix + [left] + [right]) == Carry(h, prefix + [Joined(h, left, right)])
  {
    var out := prefix + [left] + [right];
    assert out[..|out| - 2] == prefix;
  }

  lemma CarryStops(h: Hash, prefix: seq<Node>, node: Node)
    requires EndsAbove(prefix, node.size + 1)
    ensures Carry(h, prefix + [node]) == prefix + [node]
  {
  }

  /** Appending to fewer than 2^bit leaves: the carry either completes the full tree, and goes on into the
      prefix, or stops inside the range, which is then the range of one more leaf. */
  ghost predicate CarryReaches(h: Hash, prefix: seq<Node>, leaves: seq<Digest>, start: nat, leaf: Digest, bit: nat)
    requires |leaves| < Exp2(bit)
  {
    Carry(h, prefix + RangeBits(h, leaves, start, bit) + [Node(start + |leaves|, 1, leaf)])
    == if |leaves| + 1 == Exp2(bit)
       then Carry(h, prefix + [Node(start, Exp2(bit), Root(h, leaves + [leaf]))])
       else prefix + RangeBits(h, leaves + [leaf], start, bit)
  }

  lemma {:induction false} CarryBits(h: Hash, prefix: seq<Node>, leaves: seq<Digest>, start: nat, leaf: Digest, bit: nat)
    requires |leaves| < Exp2(bit) && EndsAbove(prefix, Exp2(bit))
    ensures CarryReaches(h, prefix, leaves, start, leaf, bit)
    decreases bit
  {
    hide Root, Carry, RangeBits, CarryReaches;
    if bit == 0 {
      CarryOfNone(h, prefix, leaves, start, leaf);
    } else if |leaves| >= Exp2(bit - 1) {
      var size := Exp2(bit - 1);
      var node := Node(start, size, Root(h, leaves[..size]));
      CarryBits(h, prefix + [node], leaves[size..], start + size, leaf, bit - 1);
      CarryIntoRight(h, prefix, leaves, start, leaf, bit);
    } else {
      CarryBits(h, prefix, leaves, start, leaf, bit - 1);
      CarryIntoLeft(h, prefix, leaves, start, leaf, bit);
    }
  }

  lemma CarryOfNone(h: Hash, prefix: seq<Node>, leaves: seq<Digest>, start: nat, leaf: Digest)
    requires leaves == []
    ensures CarryReaches(h, prefix, leaves, start, leaf, 0)
  {
    assert leaves + [leaf] == [leaf] && prefix + [] == prefix;
  }

  lemma CarryIntoLeft(h: Hash, prefix: seq<Node>, leaves: seq<Digest>, start: nat, leaf: Digest, bit: nat)
    requires 0 < bit && |leaves| < Exp2(bit - 1) && EndsAbove(prefix, Exp2(bit))
    requires CarryReaches(h, prefix, leaves, start, leaf, bit - 1)
    ensures CarryReaches(h, prefix, leaves, start, leaf, bit)
  {
    hide Root, Carry;
    var size := Exp2(bit - 1);
    var all := leaves + [leaf];
    if |all| == size {
      assert all[..size] == all && all[size..] == [];
      RangeOfNone(h, start + size, bit - 1);
      CarryStops(h, prefix, Node(start, size, Root(h, all)));
    }
  }

  lemma CarryIntoRight(h: Hash, prefix: seq<Node>, leaves: seq<Digest>, start: nat, leaf: Digest, bit: nat)
    requires 0 < bit && Exp2(bit - 1) <= |leaves| < Exp2(bit)
    requires var size := Exp2(bit - 1);
             var node := Node(start, size, Root(h, leaves[..size]));
             CarryReaches(h, prefix + [node], leaves[size..], start + size, leaf, bit - 1)
    ensures CarryReaches(h, prefix, leaves, start, leaf, bit)
  {
    hide Root, Carry, RangeBits;
    var size := Exp2(bit - 1);
    var left, right, all := leaves[..size], leaves[size..], leaves + [leaf];
    var node := Node(start, size, Root(h, left));
    RangeHead(h, leaves, start, bit);
    assert all[..size] == left && all[size..] == right + [leaf];
    if |right| + 1 == size {
      CompletesRight(h, prefix, left, right + [leaf], start, bit);
      assert left + (right + [leaf]) == all;
    } else {
      RangeHead(h, all, start, bit);
    }
    Prepend(prefix, node, RangeBits(h, right, start + size, bit - 1));
    if |all| < Exp2(bit) {
      Prepend(prefix, node, RangeBits(h, right + [leaf], start + size, bit - 1));
    }
  }

  lemma Prepend(prefix: seq<Node>, node: Node, rest: seq<Node>)
    ensures prefix + [node] + rest == prefix + ([node] + rest)
  {
  }

  lemma RangeHead(h: Hash, leaves: seq<Digest>, start: nat, bit: nat)
    requires 0 < bit && Exp2(bit - 1) <= |leaves| < Exp2(bit)
    ensures var size := Exp2(bit - 1);
            RangeBits(h, leaves, start, bit)
            == [Node(start, size, Root(h, leaves[..size]))] + RangeBits(h, leaves[size..], start + size, bit - 1)
  {
  }

  lemma CompletesRight(h: Hash, prefix: seq<Node>, left: seq<Digest>, right: seq<Digest>, start: nat, bit: nat)
    requires 0 < bit && |left| == |right| == Exp2(bit - 1)
    ensures var size := Exp2(bit - 1);
            Carry(h, prefix + [Node(start, size, Root(h, left))] + [Node(start + size, size, Root(h, right))])
            == Carry(h, prefix + [Node(start, Exp2(bit), Root(h, left + right))])
  {
    hide Root, Carry;
    var size := Exp2(bit - 1);
    RootOfHalves(h, left, right, bit - 1);
    CarryJoins(h, prefix, Node(start, size, Root(h, left)), Node(start + size, size, Root(h, right)));
  }

  /** Appending the next leaf to the range of the first p leaves gives the range of p + 1 leaves. */
  lemma AppendExtendsRange(h: Hash, leaves: seq<Digest>, leaf: Digest)
    ensures Carry(h, Range(h, leaves) + [Node(|leaves|, 1, leaf)]) == Range(h, leaves + [leaf])
  {
    hide Root, Carry;
    var b, b' := BitLength(|leaves|), BitLength(|leaves| + 1);
    var top := if b >= b' then b + 1 else b' + 1;
    Exp2Strict(b', top);
    CarryBits(h, [], leaves, 0, leaf, top);
    WiderRange(h, leaves, b, top);
    WiderRange(h, leaves + [leaf], b', top);
    assert [] + RangeBits(h, leaves, 0, top) == RangeBits(h, leaves, 0, top);
  }

  lemma {:induction false} WiderRange(h: Hash, leaves: seq<Digest>, bit: nat, top: nat)
    requires |leaves| < Exp2(bit) && bit <= top
    ensures |leaves| < Exp2(top) && RangeBits(h, leaves, 0, top) == RangeBits(h, leaves, 0, bit)
  {
    if bit < top {
      WiderRange(h, leaves, bit, top - 1);
    }
  }

  /** The range grown from nothing, one append per leaf. */
  function Grown(h: Hash, leaves: seq<Digest>): seq<Node> {
    if leaves == [] then []
    else
      var p := |leaves| - 1;
      Carry(h, Grown(h, leaves[..p]) + [Node(p, 1, leaves[p])])
  }

  lemma RangeOfEmpty(h: Hash)
    ensures Range(h, []) == []
  {
    RangeOfNone(h, 0, BitLength(0));
  }

  /** After every append of a run the range is the compact range, and its fold the tree's root. */
  lemma {:induction false} GrownIsRange(h: Hash, leaves: seq<Digest>)
    ensures Grown(h, leaves) == Range(h, leaves)
    ensures leaves != [] ==> Grown(h, leaves) != [] && Fold(h, Grown(h, leaves)) == Root(h, leaves)
  {
    hide Root, Carry, Range;
    if leaves == [] {
      RangeOfEmpty(h);
    } else {
      var p := |leaves| - 1;
      GrownIsRange(h, leaves[..p]);
      AppendExtendsRange(h, leaves[..p], leaves[p]);
      assert leaves[..p] + [leaves[p]] == leaves;
      FoldIsRoot(h, leaves);
    }
  }

  /** The nodes tile start..end, in order, by full subtrees of strictly falling power-of-two sizes below limit. */
  ghost predicate Tiles(h: Hash, nodes: seq<Node>, leaves: seq<Digest>, start: nat, limit: nat) {
    if nodes == [] then leaves == []
    else
      var node := nodes[0];
      && node.start == start && node.size < limit && (exists k: nat :: node.size == Exp2(k))
      && node.size <= |leaves| && node.digest == Root(h, leaves[..node.size])
      && Tiles(h, nodes[1..], leaves[node.size..], start + node.size, node.size)
  }

  lemma {:induction false} RangeTiles(h: Hash, leaves: seq<Digest>, start: nat, bit: nat, limit: nat)
    requires |leaves| < Exp2(bit) <= limit
    ensures Tiles(h, RangeBits(h, leaves, start, bit), leaves, start, limit)
    decreases bit
  {
    hide Root;
    if bit != 0 {
      var size := Exp2(bit - 1);
      if |leaves| >= size {
        RangeTiles(h, leaves[size..], start + size, bit - 1, size);
        assert RangeBits(h, leaves, start, bit)[1..] == RangeBits(h, leaves[size..], start + size, bit - 1);
      } else {
        RangeTiles(h, leaves, start, bit - 1, limit);
      }
    }
  }

  // ----- the root binds the leaves -----

  function LeafHashes(h: Hash, data: seq<seq<byte>>): (leaves: seq<Digest>)
    ensures |leaves| == |data|
    ensures forall i :: 0 <= i < |data| ==> leaves[i] == LeafHash(h, data[i])
  {
    if data == [] then [] else [LeafHash(h, data[0])] + LeafHashes(h, data[1..])
  }

  function TreeRoot(h: Hash, data: seq<seq<byte>>): Digest {
    Root(h, LeafHashes(h, data))
  }

  function Split(n: nat): (s: nat)
    requires n >= 2
    ensures 0 < s < n
  {
    Exp2(SplitBit(n, 0))
  }

  /** The byte string whose hash is the root. */
  function TopInput(h: Hash, data: seq<seq<byte>>): seq<byte> {
    if data == [] then []
    else if |data| == 1 then [0] + data[0]
    else [1] + TreeRoot(h, data[..Split(|data|)]) + TreeRoot(h, data[Split(|data|)..])
  }

  /** Every byte string hashed on the way to the root. */
  function HashInputs(h: Hash, data: seq<seq<byte>>): set<seq<byte>> {
    {TopInput(h, data)} +
    if |data| < 2 then {}
    else HashInputs(h, data[..Split(|data|)]) + HashInputs(h, data[Split(|data|)..])
  }

  lemma RootOfTopInput(h: Hash, data: seq<seq<byte>>)
    ensures TreeRoot(h, data) == h(TopInput(h, data))
  {
    if |data| >= 2 {
      var s, leaves := Split(|data|), LeafHashes(h, data);
      assert leaves[..s] == LeafHashes(h, data[..s]);
      assert leaves[s..] == LeafHashes(h, data[s..]);
    }
  }

  /** The three equations of section 2.1 of RFC 6962, over the bytes hashed; k is the one exponent of the largest power
      of two below the number of entries. */
  lemma TreeRootIs(h: Hash, data: seq<seq<byte>>, k: nat)
    ensures data == [] ==> TreeRoot(h, data) == h([])
    ensures |data| == 1 ==> TreeRoot(h, data) == h([0x00] + data[0])
    ensures Exp2(k) < |data| <= 2 * Exp2(k) ==>
              TreeRoot(h, data) == h([0x01] + TreeRoot(h, data[..Exp2(k)]) + TreeRoot(h, data[Exp2(k)..]))
  {
    if Exp2(k) < |data| <= 2 * Exp2(k) {
      var s, leaves := Exp2(k), LeafHashes(h, data);
      RootSplit(h, leaves, k);
      assert leaves[..s] == LeafHashes(h, data[..s]);
      assert leaves[s..] == LeafHashes(h, data[s..]);
    }
  }

  ghost predicate Collision(h: Hash, xs: set<seq<byte>>, ys: set<seq<byte>>) {
    exists x, y :: x in xs && y in ys && x != y && h(x) == h(y)
  }

  ghost predicate FixedLength(h: Hash) {
    forall x, y :: |h(x)| == |h(y)|
  }

  /** Equal roots mean equal leaf lists, in number, order and content, or two different strings hashed on
      the way to them that collide. */
  lemma {:induction false} RootBinds(h: Hash, a: seq<seq<byte>>, b: seq<seq<byte>>)
    requires FixedLength(h) && TreeRoot(h, a) == TreeRoot(h, b)
    ensures a == b || Collision(h, HashInputs(h, a), HashInputs(h, b))
    decreases |a|
  {
    hide TreeRoot, Collision, HashInputs;
    if TopInput(h, a) != TopInput(h, b) {
      TopCollision(h, a, b);
    } else {
      SameShape(h, a, b);
      if |a| >= 2 {
        var s, t := Split(|a|), Split(|b|);
        SameHalves(h, a, b, s, t);
        RootBinds(h, a[..s], b[..t]);
        RootBinds(h, a[s..], b[t..]);
        CollisionBelow(h, a, b);
        assert a == a[..s] + a[s..] && b == b[..t] + b[t..];
      }
    }
  }

  lemma TopCollision(h: Hash, a: seq<seq<byte>>, b: seq<seq<byte>>)
    requires TreeRoot(h, a) == TreeRoot(h, b) && TopInput(h, a) != TopInput(h, b)
    ensures Collision(h, HashInputs(h, a), HashInputs(h, b))
  {
    hide TreeRoot, TopInput;
    RootOfTopInput(h, a);
    RootOfTopInput(h, b);
    assert TopInput(h, a) in HashInputs(h, a) && TopInput(h, b) in HashInputs(h, b);
  }

  lemma CollisionBelow(h: Hash, a: seq<seq<byte>>, b: seq<seq<byte>>)
    requires |a| >= 2 && |b| >= 2
    ensures var s, t := Split(|a|), Split(|b|);
            Collision(h, HashInputs(h, a[..s]), HashInputs(h, b[..t])) ||
            Collision(h, HashInputs(h, a[s..]), HashInputs(h, b[t..])) ==>
              Collision(h, HashInputs(h, a), HashInputs(h, b))
  {
    hide TopInput;
  }

  /** The tag byte tells the empty list, a leaf and an interior node apart. */
  lemma SameShape(h: Hash, a: seq<seq<byte>>, b: seq<seq<byte>>)
    requires TopInput(h, a) == TopInput(h, b)
    ensures if |a| < 2 then a == b else |b| >= 2
  {
    hide TreeRoot;
    var x, y := TopInput(h, a), TopInput(h, b);
    if |a| == 1 {
      assert x[0] == 0 && y[0] == 0 && |b| == 1;
      assert a[0] == x[1..] && b[0] == y[1..];
    } else if |a| >= 2 {
      assert x[0] == 1 && y[0] == 1;
    }
  }

  lemma SameHalves(h: Hash, a: seq<seq<byte>>, b: seq<seq<byte>>, s: nat, t: nat)
    requires FixedLength(h) && s <= |a| && t <= |b|
    requires [1] + TreeRoot(h, a[..s]) + TreeRoot(h, a[s..]) == [1] + TreeRoot(h, b[..t]) + TreeRoot(h, b[t..])
    ensures TreeRoot(h, a[..s]) == TreeRoot(h, b[..t]) && TreeRoot(h, a[s..]) == TreeRoot(h, b[t..])
  {
    hide TreeRoot;
    var l, l', r, r' := TreeRoot(h, a[..s]), TreeRoot(h, b[..t]), TreeRoot(h, a[s..]), TreeRoot(h, b[t..]);
    RootOfTopInput(h, a[..s]);
    RootOfTopInput(h, b[..t]);
    var u, v := [1] + l + r, [1] + l' + r';
    assert u[1..1 + |l|] == l && v[1..1 + |l'|] == l' && u[1 + |l|..] == r && v[1 + |l'|..] == r';
  }
}
