/** Merkle trees of SSZ objects, following the section "Merkleization" of the SSZ specification
    (simple-serialize.md).  The 64-byte hash is a parameter.  Since no function from 64 to 32 bytes is
    injective, nothing here assumes that it is: results are relative to a set of hash inputs on which
    it does not collide. */
module Ssz {
  import opened Bytes
  import opened Digits

  type Root = Bytes32
  type Hash = (Bytes32, Bytes32) -> Bytes32

  datatype Tree = Leaf(chunk: Bytes32) | Node(left: Tree, right: Tree)

  function HashTreeRoot(h: Hash, t: Tree): Root {
    match t
    case Leaf(chunk) => chunk
    case Node(l, r) => h(HashTreeRoot(h, l), HashTreeRoot(h, r))
  }

  /** The pairs that are hashed when the root of `t` is computed. */
  function HashInputs(h: Hash, t: Tree): set<(Bytes32, Bytes32)> {
    match t
    case Leaf(_) => {}
    case Node(l, r) =>
      {(HashTreeRoot(h, l), HashTreeRoot(h, r))} + HashInputs(h, l) + HashInputs(h, r)
  }

  /** No two of the given pairs have the same hash. */
  ghost predicate CollisionFree(h: Hash, inputs: set<(Bytes32, Bytes32)>) {
    forall x, y :: x in inputs && y in inputs && h(x.0, x.1) == h(y.0, y.1) ==> x == y
  }

  predicate SameShape(a: Tree, b: Tree) {
    match (a, b)
    case (Leaf(_), Leaf(_)) => true
    case (Node(al, ar), Node(bl, br)) => SameShape(al, bl) && SameShape(ar, br)
    case _ => false
  }

  /** Trees of one shape with one root are one tree, unless the hash collides on what was hashed. */
  lemma {:induction false} RootBindsTree(h: Hash, a: Tree, b: Tree, inputs: set<(Bytes32, Bytes32)>)
    requires SameShape(a, b)
    requires HashInputs(h, a) <= inputs && HashInputs(h, b) <= inputs
    requires CollisionFree(h, inputs)
    requires HashTreeRoot(h, a) == HashTreeRoot(h, b)
    ensures a == b
  {
    if a.Node? {
      var x := (HashTreeRoot(h, a.left), HashTreeRoot(h, a.right));
      var y := (HashTreeRoot(h, b.left), HashTreeRoot(h, b.right));
      assert x in inputs && y in inputs;
      RootBindsTree(h, a.left, b.left, inputs);
      RootBindsTree(h, a.right, b.right, inputs);
    }
  }

  // ---------------------------------------------------------------- containers

  const ZERO_LEAF := Leaf(Zeros(32))

  /** Levels above the leaves of a container with `n` fields. */
  function Depth(n: nat): nat {
    if n <= 1 then 0 else 1 + Depth((n + 1) / 2)
  }

  /** The balanced tree of the given depth over `fields`, filled up with zero leaves. */
  function Pack(fields: seq<Tree>, depth: nat): Tree
    decreases depth
  {
    if depth == 0 then
      if fields == [] then ZERO_LEAF else fields[0]
    else
      var half := Pow(2, depth - 1);
      if |fields| <= half
      then Node(Pack(fields, depth - 1), Pack([], depth - 1))
      else Node(Pack(fields[..half], depth - 1), Pack(fields[half..], depth - 1))
  }

  function Container(fields: seq<Tree>): Tree {
    Pack(fields, Depth(|fields|))
  }

  lemma {:induction false} DepthFits(n: nat)
    ensures n <= Pow(2, Depth(n))
  {
    if n > 1 {
      DepthFits((n + 1) / 2);
    }
  }

  lemma {:induction false} PackInjective(f: seq<Tree>, g: seq<Tree>, depth: nat)
    requires |f| == |g| <= Pow(2, depth)
    requires Pack(f, depth) == Pack(g, depth)
    ensures f == g
  {
    if depth == 0 {
      assert Pow(2, 0) == 1;
    } else {
      var half := Pow(2, depth - 1);
      if |f| <= half {
        PackInjective(f, g, depth - 1);
      } else {
        PackInjective(f[..half], g[..half], depth - 1);
        PackInjective(f[half..], g[half..], depth - 1);
        assert f == f[..half] + f[half..] && g == g[..half] + g[half..];
      }
    }
  }

  predicate SameShapes(f: seq<Tree>, g: seq<Tree>) {
    |f| == |g| && forall i :: 0 <= i < |f| ==> SameShape(f[i], g[i])
  }

  lemma {:induction false} PackSameShape(f: seq<Tree>, g: seq<Tree>, depth: nat)
    requires SameShapes(f, g)
    ensures SameShape(Pack(f, depth), Pack(g, depth))
    decreases depth
  {
    if depth > 0 {
      var half := Pow(2, depth - 1);
      if |f| <= half {
        PackSameShape(f, g, depth - 1);
        PackSameShape([], [], depth - 1);
      } else {
        PackSameShape(f[..half], g[..half], depth - 1);
        PackSameShape(f[half..], g[half..], depth - 1);
      }
    }
  }

  /** A container determines its fields. */
  lemma ContainerInjective(f: seq<Tree>, g: seq<Tree>)
    requires |f| == |g| && Container(f) == Container(g)
    ensures f == g
  {
    DepthFits(|f|);
    PackInjective(f, g, Depth(|f|));
  }

  // ---------------------------------------------------------------- basic objects

  /** Eight little-endian bytes, filled up to a chunk. */
  function UintChunk(n: uint64): Bytes32 {
    LittleEndian(n, 8) + Zeros(24)
  }

  function UintTree(n: uint64): Tree {
    Leaf(UintChunk(n))
  }

  lemma UintTreeInjective(m: uint64, n: uint64)
    requires UintTree(m) == UintTree(n)
    ensures m == n
  {
    assert UintChunk(m)[..8] == LittleEndian(m, 8) && UintChunk(n)[..8] == LittleEndian(n, 8);
    EightBytes();
    LittleEndianValue(m, 8);
    LittleEndianValue(n, 8);
  }

  /** The chunks of a fixed byte vector, the last one filled up with zeros. */
  function Chunks(b: seq<byte>): (ts: seq<Tree>)
    ensures |ts| >= 1
  {
    if |b| <= 32 then [Leaf(b + Zeros(32 - |b|))] else [Leaf(b[..32])] + Chunks(b[32..])
  }

  function BytesTree(b: seq<byte>): Tree {
    Container(Chunks(b))
  }

  lemma {:induction false} ChunksOfEqualLength(a: seq<byte>, b: seq<byte>)
    requires |a| == |b|
    ensures SameShapes(Chunks(a), Chunks(b))
    ensures Chunks(a) == Chunks(b) ==> a == b
  {
    if |a| <= 32 {
      if Chunks(a) == Chunks(b) {
        assert Chunks(a)[0].chunk == Chunks(b)[0].chunk;
        assert (a + Zeros(32 - |a|))[..|a|] == a && (b + Zeros(32 - |b|))[..|b|] == b;
      }
    } else {
      ChunksOfEqualLength(a[32..], b[32..]);
      if Chunks(a) == Chunks(b) {
        assert Chunks(a)[1..] == Chunks(a[32..]) && Chunks(b)[1..] == Chunks(b[32..]);
        assert Chunks(a)[0] == Chunks(b)[0];
        assert a == a[..32] + a[32..] && b == b[..32] + b[32..];
      }
    }
  }

  /** Byte vectors of one length have trees of one shape, and distinct ones distinct trees. */
  lemma BytesTreeInjective(a: seq<byte>, b: seq<byte>)
    requires |a| == |b|
    ensures SameShape(BytesTree(a), BytesTree(b))
    ensures BytesTree(a) == BytesTree(b) ==> a == b
  {
    ChunksOfEqualLength(a, b);
    PackSameShape(Chunks(a), Chunks(b), Depth(|Chunks(a)|));
    if BytesTree(a) == BytesTree(b) {
      ContainerInjective(Chunks(a), Chunks(b));
    }
  }
}
