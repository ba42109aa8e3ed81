/** MelPoW DAG nodes (src/melpow/node.rs): a bit string of `len` bits packed
    into a 64-bit word `bv`, bit i of the string being bit i of the word. */
module Nodes {
  import opened Bits
  import opened Encoding
  import opened Wrappers

  datatype Node = Node(bv: nat, len: nat)

  /** No bit is set at or beyond the string's length. */
  predicate WellFormed(nd: Node)
  {
    nd.bv < Pow2(nd.len)
  }

  /** The empty string, the root of the DAG. */
  function Root(): Node
  {
    Node(0, 0)
  }

  /** `take`: the prefix of length n (the word masked with 2^n - 1). */
  function Take(nd: Node, n: nat): (r: Node)
    requires n < 64
    ensures r.len == n && WellFormed(r)
    ensures forall i :: 0 <= i < n ==> Bit(r.bv, i) == Bit(nd.bv, i)
  {
    BitsOfMod(nd.bv, n);
    Node(nd.bv % Pow2(n), n)
  }

  lemma BitsOfMod(x: nat, n: nat)
    ensures forall i :: 0 <= i < n ==> Bit(x % Pow2(n), i) == Bit(x, i)
  {
    forall i | 0 <= i < n
      ensures Bit(x % Pow2(n), i) == Bit(x, i)
    {
      BitOfMod(x, n, i);
    }
  }

  /** `(b << s) as u64`: bits pushed past bit 63 are lost. */
  function ShiftLeft(b: nat, s: nat): nat
  {
    (b * Pow2(s)) % U64_LIMIT
  }

  /** `append`: or-s `b << len` into the word and grows the length by one. */
  function Append(nd: Node, b: nat): (r: Node)
    requires nd.len < 64
    ensures r.len == nd.len + 1
    ensures WellFormed(nd) && b <= 1 ==> WellFormed(r) && Bit(r.bv, nd.len) == b
    ensures WellFormed(nd) && b == 0 ==> r.bv == nd.bv
    ensures WellFormed(nd) && b == 1 ==> r.bv == nd.bv + Pow2(nd.len)
  {
    AppendOnWellFormed(nd, b);
    Node(Or(ShiftLeft(b, nd.len), nd.bv), nd.len + 1)
  }

  lemma AppendOnWellFormed(nd: Node, b: nat)
    requires nd.len < 64
    ensures WellFormed(nd) && b <= 1 ==>
      var v := Or(ShiftLeft(b, nd.len), nd.bv);
      v < Pow2(nd.len + 1) && Bit(v, nd.len) == b
      && (b == 0 ==> v == nd.bv) && (b == 1 ==> v == nd.bv + Pow2(nd.len))
  {
    if WellFormed(nd) && b <= 1 {
      ShiftLeftBit(b, nd.len);
      if b == 0 {
        AppendZeroBits(nd);
      } else {
        AppendOneBits(nd);
      }
    }
  }

  /** A single bit shifted by less than 64 stays in the word. */
  lemma ShiftLeftBit(b: nat, s: nat)
    requires b <= 1 && s < 64
    ensures ShiftLeft(b, s) == if b == 0 then 0 else Pow2(s)
  {
    var p := Pow2(s);
    Pow2Mono(s, 64);
    Pow2Of64();
    if b == 1 {
      assert b * p == p;
      DivModUnique(p, U64_LIMIT, 0, p);
    } else {
      assert b * p == 0;
    }
  }

  lemma AppendZeroBits(nd: Node)
    requires WellFormed(nd) && nd.len < 64
    ensures Or(0, nd.bv) == nd.bv && nd.bv < Pow2(nd.len + 1) && Bit(nd.bv, nd.len) == 0
  {
    var k := nd.len;
    OrDisjoint(nd.bv, 0, k);
    Pow2Mono(k, k + 1);
    BitAbove(nd.bv, k, k);
  }

  lemma AppendOneBits(nd: Node)
    requires WellFormed(nd) && nd.len < 64
    ensures var v := nd.bv + Pow2(nd.len);
      Or(Pow2(nd.len), nd.bv) == v && v < Pow2(nd.len + 1) && Bit(v, nd.len) == 1
  {
    var k := nd.len;
    OrDisjoint(nd.bv, 1, k);
    assert 1 * Pow2(k) == Pow2(k);
    assert Pow2(k + 1) == 2 * Pow2(k);
    BitOfSum(nd.bv, 1, k, k);
    assert Bit(1, 0) == 1;
  }

  /** `get_bit`: bit n of the word. */
  function GetBit(nd: Node, n: nat): (r: nat)
    requires n < 64
    ensures r <= 1
  {
    Bit(nd.bv, n)
  }

  /** The i-th parent of a leaf in the Cohen-Pietrzak graph: the first i bits
      of the leaf followed by a 0. */
  function LeafParent(nd: Node, i: nat): Node
  {
    Node(nd.bv % Pow2(i), i + 1)
  }

  /** Number of set bits among the low k bits of x. */
  function PopCount(x: nat, k: nat): nat
  {
    if k == 0 then 0 else PopCount(x, k - 1) + Bit(x, k - 1)
  }

  /** The loop of `get_parents` on a leaf, run over the bit indices below k:
      one `take(i).append(0)` for each set bit i, in increasing i. */
  function LeafParents(nd: Node, k: nat): (r: seq<Node>)
    requires k <= 64
    ensures |r| == PopCount(nd.bv, k)
    ensures ParentsShape(nd, k, r)
    ensures ParentsIncreasing(r)
    ensures ParentsComplete(nd, k, r)
  {
    if k == 0 then []
    else
      var before := LeafParents(nd, k - 1);
      if Bit(nd.bv, k - 1) == 1 then
        var p := Append(Take(nd, k - 1), 0);
        AppendZeroToPrefix(nd, k - 1);
        ShapeExtend(nd, k - 1, before, p);
        IncreasingExtend(nd, k - 1, before, p);
        CompleteExtend(nd, k - 1, before, p);
        before + [p]
      else
        ShapeWiden(nd, k - 1, before);
        CompleteSkip(nd, k - 1, before);
        before
  }

  /** The three facts `LeafParents` promises, one lemma each. */
  predicate ParentsShape(nd: Node, k: nat, r: seq<Node>)
  {
    forall j :: 0 <= j < |r| ==>
      1 <= r[j].len <= k && Bit(nd.bv, r[j].len - 1) == 1 && r[j] == LeafParent(nd, r[j].len - 1)
  }

  predicate ParentsIncreasing(r: seq<Node>)
  {
    forall j, j' :: 0 <= j < j' < |r| ==> r[j].len < r[j'].len
  }

  predicate ParentsComplete(nd: Node, k: nat, r: seq<Node>)
  {
    forall i :: 0 <= i < k && Bit(nd.bv, i) == 1 ==> LeafParent(nd, i) in r
  }

  lemma ShapeExtend(nd: Node, i: nat, before: seq<Node>, p: Node)
    requires p == LeafParent(nd, i) && Bit(nd.bv, i) == 1
    requires ParentsShape(nd, i, before)
    ensures ParentsShape(nd, i + 1, before + [p])
  {
  }

  lemma IncreasingExtend(nd: Node, i: nat, before: seq<Node>, p: Node)
    requires p.len == i + 1
    requires ParentsShape(nd, i, before) && ParentsIncreasing(before)
    ensures ParentsIncreasing(before + [p])
  {
  }

  lemma CompleteExtend(nd: Node, i: nat, before: seq<Node>, p: Node)
    requires p == LeafParent(nd, i)
    requires ParentsComplete(nd, i, before)
    ensures ParentsComplete(nd, i + 1, before + [p])
  {
    var r := before + [p];
    forall i' | 0 <= i' < i + 1 && Bit(nd.bv, i') == 1
      ensures LeafParent(nd, i') in r
    {
      if i' < i {
        assert LeafParent(nd, i') in before;
      } else {
        assert r[|before|] == p;
      }
    }
  }

  lemma CompleteSkip(nd: Node, i: nat, before: seq<Node>)
    requires Bit(nd.bv, i) != 1
    requires ParentsComplete(nd, i, before)
    ensures ParentsComplete(nd, i + 1, before)
  {
  }

  lemma ShapeWiden(nd: Node, i: nat, before: seq<Node>)
    requires ParentsShape(nd, i, before)
    ensures ParentsShape(nd, i + 1, before)
  {
  }

  lemma AppendZeroToPrefix(nd: Node, i: nat)
    requires i < 64
    ensures Append(Take(nd, i), 0) == LeafParent(nd, i)
  {
    var t := Take(nd, i);
    assert (0 * Pow2(i)) % U64_LIMIT == 0;
    OrZero(t.bv);
  }

  /** `get_parents(n)`. A leaf (length n) has one parent per set bit; an
      inner node has its two children as parents. */
  function GetParents(nd: Node, n: nat): (r: seq<Node>)
    requires if nd.len == n then n <= 64 else nd.len < 64
    ensures nd.len == n ==> |r| == PopCount(nd.bv, n)
    ensures nd.len == n ==> forall j :: 0 <= j < |r| ==>
      1 <= r[j].len <= n && Bit(nd.bv, r[j].len - 1) == 1 && r[j] == LeafParent(nd, r[j].len - 1)
    ensures nd.len == n ==> forall j, j' :: 0 <= j < j' < |r| ==> r[j].len < r[j'].len
    ensures nd.len == n ==> forall i :: 0 <= i < n && Bit(nd.bv, i) == 1 ==> LeafParent(nd, i) in r
    ensures nd.len != n && WellFormed(nd) ==>
      r == [Node(nd.bv, nd.len + 1), Node(nd.bv + Pow2(nd.len), nd.len + 1)]
  {
    if nd.len == n then LeafParents(nd, n)
    else [Append(nd, 0), Append(nd, 1)]
  }

  /** `uniqid`: the length shifted into the top byte of a 64-bit word, or-ed
      with the bits. */
  function Uniqid(nd: Node): nat
  {
    Or((nd.len * Pow2(56)) % U64_LIMIT, nd.bv)
  }

  /** `to_bytes`: the big-endian bytes of `uniqid`. */
  function ToBytes(nd: Node): (r: Bytes)
    ensures |r| == 8
  {
    ToBE(Uniqid(nd), 8)
  }

  /** `from_bytes`: the top byte is the length, the low 56 bits the string.
      Fails only when the slice is not 8 bytes long. */
  function FromBytes(bts: Bytes): (r: Option<Node>)
    ensures r.None? <==> |bts| != 8
    ensures r.Some? ==> r.value.bv < Pow2(56) && r.value.len < 256
  {
    if |bts| != 8 then None
    else
      var uniqid := FromBE(bts);
      FromBEBound(bts);
      Pow2Of56And64();
      Pow2Add(56, 8);
      DivDiv(uniqid, Pow2(56), 256);
      Some(Node(uniqid % Pow2(56), uniqid / Pow2(56)))
  }

  /** The packed word of a node whose string fits in 56 bits and whose
      length fits in a byte is length * 2^56 + bits. */
  lemma UniqidPacked(nd: Node)
    requires nd.bv < Pow2(56) && nd.len < 256
    ensures Uniqid(nd) == nd.len * Pow2(56) + nd.bv
    ensures Uniqid(nd) < U64_LIMIT
  {
    Pow2Of56And64();
    var hi := nd.len * Pow2(56);
    assert hi < U64_LIMIT;
    DivModUnique(hi, U64_LIMIT, 0, hi);
    OrDisjoint(nd.bv, nd.len, 56);
  }

  /** Decoding the bytes of a node gives the node back, provided its length
      fits in 8 bits and its string in 56 bits. */
  lemma NodeCodecRoundTrip(nd: Node)
    requires nd.bv < Pow2(56) && nd.len < 256
    ensures FromBytes(ToBytes(nd)) == Some(nd)
  {
    UniqidPacked(nd);
    Pow2Of56And64();
    BERoundTrip(Uniqid(nd), 8);
    DivModUnique(Uniqid(nd), Pow2(56), nd.len, nd.bv);
  }

  /** Every 8-byte slice is the encoding of the node it decodes to. */
  lemma NodeCodecInverse(bts: Bytes)
    requires |bts| == 8
    ensures FromBytes(bts).Some? && ToBytes(FromBytes(bts).value) == bts
  {
    var nd := FromBytes(bts).value;
    var u := FromBE(bts);
    FromBEBound(bts);
    UniqidPacked(nd);
    DivModDecompose(u, Pow2(56));
    BEInverse(bts);
  }

  /** `Display`: "ε" for the empty string, otherwise one '0' or '1' per bit,
      bit 0 first. */
  function Display(nd: Node): (r: string)
    requires nd.len <= 64
    ensures nd.len == 0 ==> r == "ε"
    ensures nd.len > 0 ==> |r| == nd.len && forall i :: 0 <= i < |r| ==> (r[i] == '1' <==> Bit(nd.bv, i) == 1)
  {
    if nd.len == 0 then "ε"
    else seq(nd.len, i requires 0 <= i < nd.len => if Bit(nd.bv, i) != 0 then '1' else '0')
  }

  /** Well-formed nodes are told apart by their text. */
  lemma DisplayInjective(a: Node, b: Node)
    requires WellFormed(a) && WellFormed(b) && a.len <= 64 && b.len <= 64
    requires Display(a) == Display(b)
    ensures a == b
  {
    if a.len == 0 || b.len == 0 {
      assert |Display(a)| == |Display(b)|;
      assert Display(a)[0] == Display(b)[0];
    } else {
      assert a.len == b.len;
      forall i | 0 <= i < a.len
        ensures Bit(a.bv, i) == Bit(b.bv, i)
      {
        assert Display(a)[i] == Display(b)[i];
        BitIsBinary(a.bv, i);
        BitIsBinary(b.bv, i);
      }
      BitsDetermine(a.bv, b.bv, a.len);
    }
  }

  /** A prefix of a prefix is the shorter prefix. */
  lemma TakeCompose(nd: Node, m: nat, k: nat)
    requires k <= m < 64
    ensures Take(Take(nd, m), k) == Take(nd, k)
  {
    var lhs, rhs := Take(Take(nd, m), k), Take(nd, k);
    BitsDetermine(lhs.bv, rhs.bv, k);
  }

  /** `take` is idempotent. */
  lemma TakeIdempotent(nd: Node, n: nat)
    requires n < 64
    ensures Take(Take(nd, n), n) == Take(nd, n)
  {
    TakeCompose(nd, n, n);
  }

  /** Appending a bit to a well-formed node and taking the old length gives
      the node back; the new bit reads back as b. */
  lemma AppendThenTake(nd: Node, b: nat)
    requires WellFormed(nd) && nd.len < 64 && b <= 1
    ensures GetBit(Append(nd, b), nd.len) == b
    ensures Take(Append(nd, b), nd.len) == nd
  {
    var r := Take(Append(nd, b), nd.len);
    forall i | 0 <= i < nd.len
      ensures Bit(r.bv, i) == Bit(nd.bv, i)
    {
      BitOfSum(nd.bv, b, nd.len, i);
    }
    BitsDetermine(r.bv, nd.bv, nd.len);
  }

  /** Extending the prefix of length i by bit i of a node gives its prefix of
      length i + 1, and the node itself once i + 1 is its length. */
  lemma TakeExtend(g: Node, i: nat)
    requires WellFormed(g) && i < g.len <= 64
    ensures Append(Take(g, i), Bit(g.bv, i)) == Node(g.bv % Pow2(i + 1), i + 1)
    ensures i + 1 == g.len ==> Append(Take(g, i), Bit(g.bv, i)) == g
  {
    var t, b := Take(g, i), Bit(g.bv, i);
    BitIsBinary(g.bv, i);
    var a := Append(t, b);
    var y := g.bv % Pow2(i + 1);
    forall j | 0 <= j < i + 1
      ensures Bit(a.bv, j) == Bit(y, j)
    {
      ExtendBit(g, i, j);
    }
    BitsDetermine(a.bv, y, i + 1);
    if i + 1 == g.len {
      DivModUnique(g.bv, Pow2(g.len), 0, g.bv);
    }
  }

  lemma ExtendBit(g: Node, i: nat, j: nat)
    requires WellFormed(g) && i < g.len <= 64 && j <= i
    ensures Bit(Append(Take(g, i), Bit(g.bv, i)).bv, j) == Bit(g.bv % Pow2(i + 1), j)
  {
    var t, b := Take(g, i), Bit(g.bv, i);
    BitIsBinary(g.bv, i);
    BitOfMod(g.bv, i + 1, j);
    if j < i {
      AppendLowBits(t, b, j);
    }
  }

  /** Appending a bit leaves the lower bits alone. */
  lemma AppendLowBits(nd: Node, b: nat, j: nat)
    requires WellFormed(nd) && nd.len < 64 && b <= 1 && j < nd.len
    ensures Bit(Append(nd, b).bv, j) == Bit(nd.bv, j)
  {
    var p := Pow2(nd.len);
    BitOfSum(nd.bv, b, nd.len, j);
    if b == 0 {
      assert b * p + nd.bv == nd.bv;
    } else {
      assert b * p + nd.bv == nd.bv + p;
    }
  }

}
