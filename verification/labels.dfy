/** Labelling of the MelPoW graph (`calc_labels` / `calc_labels_helper` in
    src/melpow/node.rs). The graph on bit strings of length at most n is the
    complete binary tree (each inner node depends on its two children) plus,
    for every leaf, one edge from each "left sibling" on its path: for each set
    bit i, the first i bits followed by a 0. The hash is a parameter. */
module Labels {
  import opened Bits
  import opened Encoding
  import opened Nodes

  /** The MelPoW hash accumulator: `Accumulator::new(chi)`, one `add` per
      chunk in order, then `hash()`. */
  type Hasher = (Bytes, seq<Bytes>) -> Digest

  /** Post-order position measure: the bits read from the root down, padded
      with ones to length n. Children and leaf parents come first. */
  function Rank(v: Node, n: nat): nat
    requires v.len <= n
  {
    (Rev(v.bv, v.len) + 1) * Pow2(n - v.len)
  }

  lemma RankChildren(v: Node, n: nat)
    requires WellFormed(v) && v.len < n <= 64
    ensures Rank(Append(v, 0), n) < Rank(v, n)
    ensures Rank(Append(v, 1), n) == Rank(v, n)
  {
    var k, e, r := v.len, n - v.len - 1, Rev(v.bv, v.len);
    var left, right := Append(v, 0), Append(v, 1);
    RevLeftChild(v);
    RevRightChild(v);
    RankOf(v, n, r, e + 1);
    RankOf(left, n, 2 * r, e);
    RankOf(right, n, 2 * r + 1, e);
    RankStep(r, e);
  }

  lemma RankOf(v: Node, n: nat, r: nat, e: nat)
    requires v.len <= n && Rev(v.bv, v.len) == r && n - v.len == e
    ensures Rank(v, n) == (r + 1) * Pow2(e)
  {
  }

  /** Going left doubles the reversed path; going right doubles it and adds one. */
  lemma RevLeftChild(v: Node)
    requires WellFormed(v) && v.len < 64
    ensures Append(v, 0) == Node(v.bv, v.len + 1)
    ensures Rev(v.bv, v.len + 1) == 2 * Rev(v.bv, v.len)
  {
    BitAbove(v.bv, v.len, v.len);
  }

  lemma RevRightChild(v: Node)
    requires WellFormed(v) && v.len < 64
    ensures Append(v, 1) == Node(v.bv + Pow2(v.len), v.len + 1)
    ensures Rev(v.bv + Pow2(v.len), v.len + 1) == 2 * Rev(v.bv, v.len) + 1
  {
    var k := v.len;
    var b1 := v.bv + Pow2(k);
    forall j | 0 <= j < k
      ensures Bit(b1, j) == Bit(v.bv, j)
    {
      BitOfTopSet(v.bv, k, j);
    }
    RevAgree(b1, v.bv, k);
    BitOfTopSet(v.bv, k, k);
    assert Rev(b1, k + 1) == 2 * Rev(b1, k) + Bit(b1, k);
    AppendOne(v);
  }

  lemma AppendOne(v: Node)
    requires WellFormed(v) && v.len < 64
    ensures Append(v, 1) == Node(v.bv + Pow2(v.len), v.len + 1)
  {
    var r := Append(v, 1);
    assert r.bv == v.bv + 1 * Pow2(v.len);
  }

  /** Setting bit k of a number below 2^k changes no other bit. */
  lemma BitOfTopSet(x: nat, k: nat, j: nat)
    requires x < Pow2(k)
    ensures Bit(x + Pow2(k), j) == if j < k then Bit(x, j) else if j == k then 1 else 0
  {
    BitOfSum(x, 1, k, j);
    assert 1 * Pow2(k) + x == x + Pow2(k);
    if j > k {
      BitAbove(1, 1, j - k);
    }
  }

  lemma RankStep(r: nat, e: nat)
    ensures (2 * r + 1) * Pow2(e) < (r + 1) * Pow2(e + 1)
    ensures (2 * r + 2) * Pow2(e) == (r + 1) * Pow2(e + 1)
  {
    var p := Pow2(e);
    assert Pow2(e + 1) == 2 * p;
    assert (2 * r + 2) * p == (2 * r + 1) * p + p;
    assert (r + 1) * (2 * p) == (2 * r + 2) * p;
  }

  lemma RankLeafParent(v: Node, n: nat, i: nat)
    requires WellFormed(v) && v.len == n && i < n && Bit(v.bv, i) == 1
    ensures Rank(LeafParent(v, i), n) < Rank(v, n)
  {
    var pb := v.bv % Pow2(i);
    forall j | 0 <= j < i
      ensures Bit(pb, j) == Bit(v.bv, j)
    {
      BitOfMod(v.bv, i, j);
    }
    RevAgree(pb, v.bv, i);
    BitOfMod(v.bv, i, i);
    var ri := Rev(v.bv, i);
    assert Rev(pb, i + 1) == 2 * ri;
    assert Rev(v.bv, i + 1) == 2 * ri + 1;
    RevPrefix(v.bv, i + 1, n);
    assert Rank(LeafParent(v, i), n) == (2 * ri + 1) * Pow2(n - (i + 1));
  }

  lemma ParentsRankLower(v: Node, n: nat, ps: seq<Node>)
    requires WellFormed(v) && v.len == n <= 64
    requires ps == GetParents(v, n)
    ensures forall j :: 0 <= j < |ps| ==>
      WellFormed(ps[j]) && ps[j].len <= n && Rank(ps[j], n) < Rank(v, n)
  {
    forall j | 0 <= j < |ps|
      ensures WellFormed(ps[j]) && ps[j].len <= n && Rank(ps[j], n) < Rank(v, n)
    {
      var i := ps[j].len - 1;
      RankLeafParent(v, n, i);
      assert ps[j] == LeafParent(v, i);
    }
  }

  /** The label of every node of the graph of depth n: a leaf hashes its
      bytes with the labels of its parents, an inner node its bytes with the
      labels of its two children. */
  function Label(h: Hasher, chi: Bytes, n: nat, v: Node): Digest
    requires n <= 64 && WellFormed(v) && v.len <= n
    decreases Rank(v, n), n - v.len
  {
    if v.len == n then
      var ps := GetParents(v, n);
      ParentsRankLower(v, n, ps);
      h(chi, [ToBytes(v)] + seq(|ps|, j requires 0 <= j < |ps| => Label(h, chi, n, ps[j])))
    else
      RankChildren(v, n);
      h(chi, [ToBytes(v), Label(h, chi, n, Append(v, 0)), Label(h, chi, n, Append(v, 1))])
  }

  /** A call `f(node, label)` made by the walk. */
  datatype Call = Call(node: Node, digest: Digest)

  /** What one `calc_labels_helper` call returns and leaves behind: its label,
      the calls it made to `f` in order, and the cache `ell` afterwards. */
  datatype Walk = Walk(digest: Digest, calls: seq<Call>, cache: map<Node, Bytes>)

  /** m lies in the subtree below nd of depth n. */
  predicate InSubtree(nd: Node, n: nat, m: Node)
  {
    WellFormed(m) && nd.len <= m.len <= n && m.bv % Pow2(nd.len) == nd.bv
  }

  /** Every cached label is the true label. */
  predicate CacheSound(h: Hasher, chi: Bytes, n: nat, ell: map<Node, Bytes>)
    requires n <= 64
  {
    forall k :: k in ell ==> WellFormed(k) && k.len <= n && ell[k] == Label(h, chi, n, k)
  }

  /** The cache holds every left sibling along the path to nd, which are the
      parents of every leaf below nd that lie outside nd's subtree. */
  predicate CacheCovers(nd: Node, ell: map<Node, Bytes>)
  {
    forall i :: 0 <= i < nd.len && Bit(nd.bv, i) == 1 ==> LeafParent(nd, i) in ell
  }

  /** The cache holds nothing deeper than nd. */
  predicate CacheShallow(nd: Node, ell: map<Node, Bytes>)
  {
    forall k :: k in ell ==> k.len <= nd.len
  }

  predicate WalkPre(h: Hasher, chi: Bytes, n: nat, nd: Node, ell: map<Node, Bytes>)
  {
    n <= 64 && WellFormed(nd) && nd.len <= n
    && CacheSound(h, chi, n, ell) && CacheCovers(nd, ell) && CacheShallow(nd, ell)
  }

  /** `calc_labels_helper`: labels the subtree below nd by a post-order walk,
      calling `f` once per node, caching the left child's label while the
      right subtree is walked. Every cache lookup hits, the cache is restored
      on return, and every label passed to `f` is the true label. */
  function CalcLabelsHelper(h: Hasher, chi: Bytes, n: nat, nd: Node, ell: map<Node, Bytes>): (w: Walk)
    requires WalkPre(h, chi, n, nd, ell)
    ensures w.digest == Label(h, chi, n, nd)
    ensures w.cache == ell
    ensures |w.calls| > 0 && w.calls[|w.calls| - 1] == Call(nd, w.digest)
    ensures CallsTrue(h, chi, n, nd, w.calls)
    decreases n - nd.len
  {
    if nd.len == n then
      LeafWalk(h, chi, n, nd, ell)
    else
      var left, right := Append(nd, 0), Append(nd, 1);
      PreLeft(h, chi, n, nd, ell);
      var w0 := CalcLabelsHelper(h, chi, n, left, ell);
      var ell1 := w0.cache[left := w0.digest];
      PreRight(h, chi, n, nd, ell, w0.digest);
      var w1 := CalcLabelsHelper(h, chi, n, right, ell1);
      JoinWalks(h, chi, n, nd, ell, w0, w1)
  }

  /** The leaf half of `calc_labels_helper`: hash the node's bytes with the
      cached labels of its parents and report it to `f`. */
  function LeafWalk(h: Hasher, chi: Bytes, n: nat, nd: Node, ell: map<Node, Bytes>): (w: Walk)
    requires WalkPre(h, chi, n, nd, ell) && nd.len == n
    ensures w.digest == Label(h, chi, n, nd)
    ensures w.cache == ell
    ensures |w.calls| > 0 && w.calls[|w.calls| - 1] == Call(nd, w.digest)
    ensures CallsTrue(h, chi, n, nd, w.calls)
  {
    var ps := GetParents(nd, n);
    LeafParentsCached(h, chi, n, nd, ell, ps);
    var lab := h(chi, [ToBytes(nd)] + CachedLabels(ell, ps));
    LeafLabelFromCache(h, chi, n, nd, ell, ps);
    SubtreeSelf(nd, n);
    Walk(lab, [Call(nd, lab)], ell)
  }

  /** The inner-node half of `calc_labels_helper`: after both children are
      walked, drop the left child's label from the cache, hash the node's
      bytes with both children's labels and report it to `f`. */
  function JoinWalks(h: Hasher, chi: Bytes, n: nat, nd: Node, ell: map<Node, Bytes>, w0: Walk, w1: Walk): (w: Walk)
    requires n <= 64 && WellFormed(nd) && nd.len < n && Append(nd, 0) !in ell
    requires w0.digest == Label(h, chi, n, Append(nd, 0)) && CallsTrue(h, chi, n, Append(nd, 0), w0.calls)
    requires w1.digest == Label(h, chi, n, Append(nd, 1)) && CallsTrue(h, chi, n, Append(nd, 1), w1.calls)
    requires w1.cache == ell[Append(nd, 0) := w0.digest]
    ensures w.digest == Label(h, chi, n, nd)
    ensures w.cache == ell
    ensures |w.calls| > 0 && w.calls[|w.calls| - 1] == Call(nd, w.digest)
    ensures CallsTrue(h, chi, n, nd, w.calls)
  {
    var left := Append(nd, 0);
    var lab := h(chi, [ToBytes(nd), w0.digest, w1.digest]);
    InnerLabel(h, chi, n, nd, w0.digest, w1.digest);
    InnerCalls(h, chi, n, nd, w0.calls, w1.calls, lab);
    UpdateRemove(ell, left, w0.digest);
    Walk(lab, w0.calls + w1.calls + [Call(nd, lab)], w1.cache - {left})
  }

  /** Every call lies below nd and carries the true label of its node. */
  predicate CallsTrue(h: Hasher, chi: Bytes, n: nat, nd: Node, calls: seq<Call>)
    requires n <= 64
  {
    forall j :: 0 <= j < |calls| ==>
      InSubtree(nd, n, calls[j].node) && calls[j].digest == Label(h, chi, n, calls[j].node)
  }

  /** The cached labels of the nodes ps, in order. */
  function CachedLabels(ell: map<Node, Bytes>, ps: seq<Node>): (r: seq<Bytes>)
    requires forall j :: 0 <= j < |ps| ==> ps[j] in ell
    ensures |r| == |ps| && forall j :: 0 <= j < |ps| ==> r[j] == ell[ps[j]]
  {
    seq(|ps|, j requires 0 <= j < |ps| => ell[ps[j]])
  }

  lemma LeafParentsCached(h: Hasher, chi: Bytes, n: nat, nd: Node, ell: map<Node, Bytes>, ps: seq<Node>)
    requires WalkPre(h, chi, n, nd, ell) && nd.len == n
    requires ps == GetParents(nd, n)
    ensures forall j :: 0 <= j < |ps| ==> ps[j] in ell
  {
    forall j | 0 <= j < |ps|
      ensures ps[j] in ell
    {
      assert ps[j] == LeafParent(nd, ps[j].len - 1);
    }
  }

  lemma LeafLabelFromCache(h: Hasher, chi: Bytes, n: nat, nd: Node, ell: map<Node, Bytes>, ps: seq<Node>)
    requires WalkPre(h, chi, n, nd, ell) && nd.len == n
    requires ps == GetParents(nd, n)
    requires forall j :: 0 <= j < |ps| ==> ps[j] in ell
    ensures h(chi, [ToBytes(nd)] + CachedLabels(ell, ps)) == Label(h, chi, n, nd)
  {
    ParentsRankLower(nd, n, ps);
    var a := CachedLabels(ell, ps);
    var b := seq(|ps|, j requires 0 <= j < |ps| => Label(h, chi, n, ps[j]));
    assert |a| == |b|;
    forall j | 0 <= j < |ps|
      ensures a[j] == b[j]
    {
    }
    assert a == b;
  }

  lemma PreLeft(h: Hasher, chi: Bytes, n: nat, nd: Node, ell: map<Node, Bytes>)
    requires WalkPre(h, chi, n, nd, ell) && nd.len < n
    ensures WalkPre(h, chi, n, Append(nd, 0), ell) && Append(nd, 0) !in ell
  {
    CoversLeft(nd, ell);
  }

  lemma PreRight(h: Hasher, chi: Bytes, n: nat, nd: Node, ell: map<Node, Bytes>, d: Bytes)
    requires WalkPre(h, chi, n, nd, ell) && nd.len < n
    requires Append(nd, 0) !in ell && d == Label(h, chi, n, Append(nd, 0))
    ensures WalkPre(h, chi, n, Append(nd, 1), ell[Append(nd, 0) := d])
    ensures ell[Append(nd, 0) := d] - {Append(nd, 0)} == ell
  {
    var left := Append(nd, 0);
    var ell1 := ell[left := d];
    CoversRight(nd, ell1);
    UpdateRemove(ell, left, d);
  }

  /** Removing a fresh key after inserting it restores the map. */
  lemma UpdateRemove(ell: map<Node, Bytes>, k: Node, v: Bytes)
    requires k !in ell
    ensures ell[k := v] - {k} == ell
  {
    assert (ell[k := v] - {k}).Keys == ell.Keys;
  }

  lemma InnerLabel(h: Hasher, chi: Bytes, n: nat, nd: Node, d0: Digest, d1: Digest)
    requires n <= 64 && WellFormed(nd) && nd.len < n
    requires d0 == Label(h, chi, n, Append(nd, 0)) && d1 == Label(h, chi, n, Append(nd, 1))
    ensures h(chi, [ToBytes(nd), d0, d1]) == Label(h, chi, n, nd)
  {
  }

  lemma InnerCalls(h: Hasher, chi: Bytes, n: nat, nd: Node, c0: seq<Call>, c1: seq<Call>, lab: Digest)
    requires n <= 64 && WellFormed(nd) && nd.len < n
    requires CallsTrue(h, chi, n, Append(nd, 0), c0) && CallsTrue(h, chi, n, Append(nd, 1), c1)
    requires lab == Label(h, chi, n, nd)
    ensures CallsTrue(h, chi, n, nd, c0 + c1 + [Call(nd, lab)])
  {
    SubtreesNarrow(nd, n, c0, c1);
    SubtreeSelf(nd, n);
    var c := c0 + c1 + [Call(nd, lab)];
    forall j | 0 <= j < |c|
      ensures InSubtree(nd, n, c[j].node) && c[j].digest == Label(h, chi, n, c[j].node)
    {
      if j < |c0| {
        assert c[j] == c0[j];
      } else if j < |c0| + |c1| {
        assert c[j] == c1[j - |c0|];
      }
    }
  }

  lemma SubtreeSelf(nd: Node, n: nat)
    requires WellFormed(nd) && nd.len <= n
    ensures InSubtree(nd, n, nd)
  {
    DivModUnique(nd.bv, Pow2(nd.len), 0, nd.bv);
  }

  /** Two prefixes agreeing on their low i bits have the same i-th leaf parent. */
  lemma LeafParentAgree(a: Node, b: Node, i: nat)
    requires forall j :: 0 <= j < i ==> Bit(a.bv, j) == Bit(b.bv, j)
    ensures LeafParent(a, i) == LeafParent(b, i)
  {
    forall j | 0 <= j < i
      ensures Bit(a.bv % Pow2(i), j) == Bit(b.bv % Pow2(i), j)
    {
      BitOfMod(a.bv, i, j);
      BitOfMod(b.bv, i, j);
    }
    BitsDetermine(a.bv % Pow2(i), b.bv % Pow2(i), i);
  }

  lemma CoversLeft(nd: Node, ell: map<Node, Bytes>)
    requires WellFormed(nd) && nd.len < 64 && CacheCovers(nd, ell) && CacheShallow(nd, ell)
    ensures CacheCovers(Append(nd, 0), ell) && CacheShallow(Append(nd, 0), ell)
    ensures Append(nd, 0) !in ell
  {
    var left := Append(nd, 0);
    forall i | 0 <= i < left.len && Bit(left.bv, i) == 1
      ensures LeafParent(left, i) in ell
    {
    }
  }

  lemma CoversRight(nd: Node, ell1: map<Node, Bytes>)
    requires WellFormed(nd) && nd.len < 64
    requires CacheCovers(nd, ell1) && Append(nd, 0) in ell1
    requires forall k :: k in ell1 ==> k.len <= nd.len + 1
    ensures CacheCovers(Append(nd, 1), ell1) && CacheShallow(Append(nd, 1), ell1)
  {
    var right := Append(nd, 1);
    forall i | 0 <= i < right.len && Bit(right.bv, i) == 1
      ensures LeafParent(right, i) in ell1
    {
      forall j | 0 <= j < i && j < nd.len
        ensures Bit(right.bv, j) == Bit(nd.bv, j)
      {
        BitOfSum(nd.bv, 1, nd.len, j);
      }
      if i < nd.len {
        BitOfSum(nd.bv, 1, nd.len, i);
        LeafParentAgree(right, nd, i);
      } else {
        LeafParentAgree(right, nd, i);
        DivModUnique(nd.bv, Pow2(nd.len), 0, nd.bv);
        assert LeafParent(nd, i) == Append(nd, 0);
      }
    }
  }

  /** A node below a child of nd is below nd. */
  lemma SubtreeNarrow(nd: Node, n: nat, b: nat, m: Node)
    requires WellFormed(nd) && nd.len < n <= 64 && b <= 1
    requires InSubtree(Append(nd, b), n, m)
    ensures InSubtree(nd, n, m)
  {
    var k := nd.len;
    var c := Append(nd, b);
    forall j | 0 <= j < k
      ensures Bit(m.bv % Pow2(k), j) == Bit(nd.bv, j)
    {
      BitOfMod(m.bv, k, j);
      BitOfMod(m.bv, k + 1, j);
      BitOfSum(nd.bv, b, k, j);
    }
    BitsDetermine(m.bv % Pow2(k), nd.bv, k);
  }

  lemma SubtreesNarrow(nd: Node, n: nat, c0: seq<Call>, c1: seq<Call>)
    requires WellFormed(nd) && nd.len < n <= 64
    requires forall j :: 0 <= j < |c0| ==> InSubtree(Append(nd, 0), n, c0[j].node)
    requires forall j :: 0 <= j < |c1| ==> InSubtree(Append(nd, 1), n, c1[j].node)
    ensures forall j :: 0 <= j < |c0| ==> InSubtree(nd, n, c0[j].node)
    ensures forall j :: 0 <= j < |c1| ==> InSubtree(nd, n, c1[j].node)
  {
    forall j | 0 <= j < |c0|
      ensures InSubtree(nd, n, c0[j].node)
    {
      SubtreeNarrow(nd, n, 0, c0[j].node);
    }
    forall j | 0 <= j < |c1|
      ensures InSubtree(nd, n, c1[j].node)
    {
      SubtreeNarrow(nd, n, 1, c1[j].node);
    }
  }

  /** The walk of an inner node: the left subtree's calls, then the right
      subtree's with the left child's label cached, then the node itself. */
  lemma WalkSplit(h: Hasher, chi: Bytes, n: nat, nd: Node, ell: map<Node, Bytes>)
    requires WalkPre(h, chi, n, nd, ell) && nd.len < n
    ensures WalkPre(h, chi, n, Append(nd, 0), ell)
    ensures WalkPre(h, chi, n, Append(nd, 1), ell[Append(nd, 0) := Label(h, chi, n, Append(nd, 0))])
    ensures CalcLabelsHelper(h, chi, n, nd, ell).calls
         == CalcLabelsHelper(h, chi, n, Append(nd, 0), ell).calls
          + CalcLabelsHelper(h, chi, n, Append(nd, 1), ell[Append(nd, 0) := Label(h, chi, n, Append(nd, 0))]).calls
          + [Call(nd, Label(h, chi, n, nd))]
  {
    PreLeft(h, chi, n, nd, ell);
    PreRight(h, chi, n, nd, ell, Label(h, chi, n, Append(nd, 0)));
  }

  /** The walk below nd calls f once per node of the subtree: 2^(n - len + 1) - 1 times. */
  lemma {:induction false} WalkCount(h: Hasher, chi: Bytes, n: nat, nd: Node, ell: map<Node, Bytes>)
    requires WalkPre(h, chi, n, nd, ell)
    ensures |CalcLabelsHelper(h, chi, n, nd, ell).calls| == Pow2(n - nd.len + 1) - 1
    decreases n - nd.len
  {
    if nd.len < n {
      WalkSplit(h, chi, n, nd, ell);
      var left, right := Append(nd, 0), Append(nd, 1);
      var ell1 := ell[left := Label(h, chi, n, left)];
      WalkCount(h, chi, n, left, ell);
      WalkCount(h, chi, n, right, ell1);
      var c0 := CalcLabelsHelper(h, chi, n, left, ell).calls;
      var c1 := CalcLabelsHelper(h, chi, n, right, ell1).calls;
      var c := CalcLabelsHelper(h, chi, n, nd, ell).calls;
      assert |c| == |c0| + |c1| + 1;
      CountJoin(|c0|, |c1|, n - left.len + 1, n - nd.len + 1);
    }
  }

  /** Two full subtrees of height k and their parent make a full subtree of
      height k + 1. */
  lemma CountJoin(a: nat, b: nat, k: nat, k1: nat)
    requires a == Pow2(k) - 1 && b == Pow2(k) - 1 && k1 == k + 1
    ensures a + b + 1 == Pow2(k1) - 1
  {
    assert Pow2(k1) == 2 * Pow2(k);
  }

  /** A node below child b of nd has b as its bit at position nd.len. */
  lemma SubtreeBit(nd: Node, n: nat, b: nat, m: Node)
    requires WellFormed(nd) && nd.len < n <= 64 && b <= 1
    requires InSubtree(Append(nd, b), n, m)
    ensures Bit(m.bv, nd.len) == b
  {
    var k := nd.len;
    BitOfMod(m.bv, k + 1, k);
    BitOfSum(nd.bv, b, k, k);
    BitIsBinary(b, 0);
    assert Bit(b, 0) == b;
  }

  /** A node strictly below nd lies below the child its next bit selects. */
  lemma SubtreeSplit(nd: Node, n: nat, m: Node)
    requires WellFormed(nd) && nd.len < n <= 64
    requires InSubtree(nd, n, m) && m.len > nd.len
    ensures InSubtree(Append(nd, 0), n, m) || InSubtree(Append(nd, 1), n, m)
  {
    var k := nd.len;
    var b := Bit(m.bv, k);
    BitIsBinary(m.bv, k);
    var c := Append(nd, b);
    var x := m.bv % Pow2(k + 1);
    forall j | 0 <= j < k + 1
      ensures Bit(x, j) == Bit(c.bv, j)
    {
      BitOfMod(m.bv, k + 1, j);
      BitOfSum(nd.bv, b, k, j);
      if j < k {
        BitOfMod(m.bv, k, j);
      } else {
        BitIsBinary(b, 0);
      }
    }
    DivModDecompose(m.bv, Pow2(k + 1));
    BitsDetermine(x, c.bv, k + 1);
  }

  lemma SubtreeSame(nd: Node, n: nat, m: Node)
    requires InSubtree(nd, n, m) && m.len == nd.len
    ensures m == nd
  {
    DivModUnique(m.bv, Pow2(m.len), 0, m.bv);
  }

  /** A node f was called on in calls. */
  predicate Visited(calls: seq<Call>, m: Node)
  {
    exists j :: 0 <= j < |calls| && calls[j].node == m
  }

  /** No node is visited twice. */
  predicate Distinct(calls: seq<Call>)
  {
    forall j, j' :: 0 <= j < j' < |calls| ==> calls[j].node != calls[j'].node
  }

  /** Every inner node (shorter than n) is visited after both its children. */
  predicate ChildrenFirst(calls: seq<Call>, n: nat)
  {
    forall j :: 0 <= j < |calls| && calls[j].node.len < n <= 64 ==>
      Visited(calls[..j], Append(calls[j].node, 0)) && Visited(calls[..j], Append(calls[j].node, 1))
  }

  lemma {:induction false} WalkDistinct(h: Hasher, chi: Bytes, n: nat, nd: Node, ell: map<Node, Bytes>)
    requires WalkPre(h, chi, n, nd, ell)
    ensures Distinct(CalcLabelsHelper(h, chi, n, nd, ell).calls)
    decreases n - nd.len
  {
    if nd.len < n {
      WalkSplit(h, chi, n, nd, ell);
      var left, right := Append(nd, 0), Append(nd, 1);
      var ell1 := ell[left := Label(h, chi, n, left)];
      var c0 := CalcLabelsHelper(h, chi, n, left, ell).calls;
      var c1 := CalcLabelsHelper(h, chi, n, right, ell1).calls;
      WalkDistinct(h, chi, n, left, ell);
      WalkDistinct(h, chi, n, right, ell1);
      JoinDistinct(h, chi, n, nd, c0, c1, Label(h, chi, n, nd));
    }
  }

  lemma JoinDistinct(h: Hasher, chi: Bytes, n: nat, nd: Node, c0: seq<Call>, c1: seq<Call>, lab: Digest)
    requires WellFormed(nd) && nd.len < n <= 64
    requires CallsTrue(h, chi, n, Append(nd, 0), c0) && CallsTrue(h, chi, n, Append(nd, 1), c1)
    requires Distinct(c0) && Distinct(c1)
    ensures Distinct(c0 + c1 + [Call(nd, lab)])
  {
    var c := c0 + c1 + [Call(nd, lab)];
    forall j, j' | 0 <= j < j' < |c|
      ensures c[j].node != c[j'].node
    {
      if j' == |c| - 1 {
        assert c[j].node.len > nd.len by {
          if j < |c0| { assert c[j] == c0[j]; } else { assert c[j] == c1[j - |c0|]; }
        }
      } else if j < |c0| && j' >= |c0| {
        assert c[j] == c0[j] && c[j'] == c1[j' - |c0|];
        SubtreeBit(nd, n, 0, c0[j].node);
        SubtreeBit(nd, n, 1, c1[j' - |c0|].node);
      } else if j < |c0| {
        assert c[j] == c0[j] && c[j'] == c0[j'];
      } else {
        assert c[j] == c1[j - |c0|] && c[j'] == c1[j' - |c0|];
      }
    }
  }

  lemma {:induction false} WalkCovers(h: Hasher, chi: Bytes, n: nat, nd: Node, ell: map<Node, Bytes>, m: Node)
    requires WalkPre(h, chi, n, nd, ell)
    requires InSubtree(nd, n, m)
    ensures Visited(CalcLabelsHelper(h, chi, n, nd, ell).calls, m)
    decreases n - nd.len
  {
    if m.len == nd.len {
      SubtreeSame(nd, n, m);
      VisitsSelf(h, chi, n, nd, ell);
    } else {
      var left, right := Append(nd, 0), Append(nd, 1);
      var ell1 := ell[left := Label(h, chi, n, left)];
      PreLeft(h, chi, n, nd, ell);
      PreRight(h, chi, n, nd, ell, Label(h, chi, n, left));
      SubtreeSplit(nd, n, m);
      if InSubtree(left, n, m) {
        WalkCovers(h, chi, n, left, ell, m);
      } else {
        WalkCovers(h, chi, n, right, ell1, m);
      }
      VisitedJoin(h, chi, n, nd, ell, m);
    }
  }

  /** The walk below nd ends with the call on nd. */
  lemma VisitsSelf(h: Hasher, chi: Bytes, n: nat, nd: Node, ell: map<Node, Bytes>)
    requires WalkPre(h, chi, n, nd, ell)
    ensures Visited(CalcLabelsHelper(h, chi, n, nd, ell).calls, nd)
  {
    var c := CalcLabelsHelper(h, chi, n, nd, ell).calls;
    assert c[|c| - 1].node == nd;
  }

  lemma VisitedJoin(h: Hasher, chi: Bytes, n: nat, nd: Node, ell: map<Node, Bytes>, m: Node)
    requires WalkPre(h, chi, n, nd, ell) && nd.len < n
    requires WalkPre(h, chi, n, Append(nd, 0), ell)
    requires WalkPre(h, chi, n, Append(nd, 1), ell[Append(nd, 0) := Label(h, chi, n, Append(nd, 0))])
    requires Visited(CalcLabelsHelper(h, chi, n, Append(nd, 0), ell).calls, m)
          || Visited(CalcLabelsHelper(h, chi, n, Append(nd, 1), ell[Append(nd, 0) := Label(h, chi, n, Append(nd, 0))]).calls, m)
    ensures Visited(CalcLabelsHelper(h, chi, n, nd, ell).calls, m)
  {
    WalkSplit(h, chi, n, nd, ell);
    JoinVisited(CalcLabelsHelper(h, chi, n, Append(nd, 0), ell).calls,
                CalcLabelsHelper(h, chi, n, Append(nd, 1), ell[Append(nd, 0) := Label(h, chi, n, Append(nd, 0))]).calls,
                Call(nd, Label(h, chi, n, nd)), m);
  }

  lemma JoinVisited(c0: seq<Call>, c1: seq<Call>, x: Call, m: Node)
    requires Visited(c0, m) || Visited(c1, m)
    ensures Visited(c0 + c1 + [x], m)
  {
    var c := c0 + c1 + [x];
    if Visited(c0, m) {
      var j :| 0 <= j < |c0| && c0[j].node == m;
      assert c[j] == c0[j];
    } else {
      var j :| 0 <= j < |c1| && c1[j].node == m;
      assert c[|c0| + j] == c1[j];
    }
  }

  lemma VisitedConcat(a: seq<Call>, b: seq<Call>, m: Node)
    requires Visited(a, m) || Visited(b, m)
    ensures Visited(a + b, m)
  {
    if Visited(a, m) {
      var j :| 0 <= j < |a| && a[j].node == m;
      assert (a + b)[j] == a[j];
    } else {
      var j :| 0 <= j < |b| && b[j].node == m;
      assert (a + b)[|a| + j] == b[j];
    }
  }

  lemma JoinChildrenFirst(c0: seq<Call>, c1: seq<Call>, x: Call, n: nat)
    requires ChildrenFirst(c0, n) && ChildrenFirst(c1, n)
    requires x.node.len < n <= 64
    requires |c0| > 0 && c0[|c0| - 1].node == Append(x.node, 0)
    requires |c1| > 0 && c1[|c1| - 1].node == Append(x.node, 1)
    ensures ChildrenFirst(c0 + c1 + [x], n)
  {
    var c := c0 + c1 + [x];
    forall j | 0 <= j < |c| && c[j].node.len < n <= 64
      ensures Visited(c[..j], Append(c[j].node, 0)) && Visited(c[..j], Append(c[j].node, 1))
    {
      if j < |c0| {
        ChildrenFirstLeft(c0, c1, x, n, j);
      } else if j < |c0| + |c1| {
        ChildrenFirstRight(c0, c1, x, n, j);
      } else {
        ChildrenFirstLast(c0, c1, x, n);
      }
    }
  }

  lemma ChildrenFirstLeft(c0: seq<Call>, c1: seq<Call>, x: Call, n: nat, j: nat)
    requires ChildrenFirst(c0, n) && j < |c0| && c0[j].node.len < n <= 64
    ensures var c := c0 + c1 + [x];
      Visited(c[..j], Append(c[j].node, 0)) && Visited(c[..j], Append(c[j].node, 1))
  {
    var c := c0 + c1 + [x];
    assert c[j] == c0[j] && c[..j] == c0[..j];
  }

  lemma ChildrenFirstRight(c0: seq<Call>, c1: seq<Call>, x: Call, n: nat, j: nat)
    requires ChildrenFirst(c1, n) && |c0| <= j < |c0| + |c1| && c1[j - |c0|].node.len < n <= 64
    ensures var c := c0 + c1 + [x];
      Visited(c[..j], Append(c[j].node, 0)) && Visited(c[..j], Append(c[j].node, 1))
  {
    var k := j - |c0|;
    JoinPrefix(c0, c1, x, k);
    var a, b := Append(c1[k].node, 0), Append(c1[k].node, 1);
    assert Visited(c1[..k], a) && Visited(c1[..k], b);
    VisitedConcat(c0, c1[..k], a);
    VisitedConcat(c0, c1[..k], b);
  }

  lemma JoinPrefix(c0: seq<Call>, c1: seq<Call>, x: Call, k: nat)
    requires k < |c1|
    ensures (c0 + c1 + [x])[|c0| + k] == c1[k]
    ensures (c0 + c1 + [x])[..|c0| + k] == c0 + c1[..k]
  {
  }

  lemma ChildrenFirstLast(c0: seq<Call>, c1: seq<Call>, x: Call, n: nat)
    requires x.node.len < n <= 64
    requires |c0| > 0 && c0[|c0| - 1].node == Append(x.node, 0)
    requires |c1| > 0 && c1[|c1| - 1].node == Append(x.node, 1)
    ensures Visited(c0 + c1, Append(x.node, 0)) && Visited(c0 + c1, Append(x.node, 1))
    ensures (c0 + c1 + [x])[..|c0| + |c1|] == c0 + c1
  {
    assert Visited(c0, Append(x.node, 0));
    assert Visited(c1, Append(x.node, 1));
    VisitedConcat(c0, c1, Append(x.node, 0));
    VisitedConcat(c0, c1, Append(x.node, 1));
    assert (c0 + c1 + [x])[..|c0| + |c1|] == c0 + c1;
  }

  lemma {:induction false} WalkChildrenFirst(h: Hasher, chi: Bytes, n: nat, nd: Node, ell: map<Node, Bytes>)
    requires WalkPre(h, chi, n, nd, ell)
    ensures ChildrenFirst(CalcLabelsHelper(h, chi, n, nd, ell).calls, n)
    decreases n - nd.len
  {
    if nd.len < n {
      var left, right := Append(nd, 0), Append(nd, 1);
      var ell1 := ell[left := Label(h, chi, n, left)];
      PreLeft(h, chi, n, nd, ell);
      PreRight(h, chi, n, nd, ell, Label(h, chi, n, left));
      WalkChildrenFirst(h, chi, n, left, ell);
      WalkChildrenFirst(h, chi, n, right, ell1);
      ChildrenFirstJoin(h, chi, n, nd, ell);
    }
  }

  lemma ChildrenFirstJoin(h: Hasher, chi: Bytes, n: nat, nd: Node, ell: map<Node, Bytes>)
    requires WalkPre(h, chi, n, nd, ell) && nd.len < n
    requires WalkPre(h, chi, n, Append(nd, 0), ell)
    requires WalkPre(h, chi, n, Append(nd, 1), ell[Append(nd, 0) := Label(h, chi, n, Append(nd, 0))])
    requires ChildrenFirst(CalcLabelsHelper(h, chi, n, Append(nd, 0), ell).calls, n)
    requires ChildrenFirst(CalcLabelsHelper(h, chi, n, Append(nd, 1), ell[Append(nd, 0) := Label(h, chi, n, Append(nd, 0))]).calls, n)
    ensures ChildrenFirst(CalcLabelsHelper(h, chi, n, nd, ell).calls, n)
  {
    WalkSplit(h, chi, n, nd, ell);
    JoinChildrenFirst(CalcLabelsHelper(h, chi, n, Append(nd, 0), ell).calls,
                      CalcLabelsHelper(h, chi, n, Append(nd, 1), ell[Append(nd, 0) := Label(h, chi, n, Append(nd, 0))]).calls,
                      Call(nd, Label(h, chi, n, nd)), n);
  }

  /** `calc_labels`: the walk from the root with an empty cache. f is called
      on every node of length at most n exactly once, children before their
      parent, each time with the node's true label; 2^(n+1) - 1 calls. */
  function CalcLabels(h: Hasher, chi: Bytes, n: nat): (calls: seq<Call>)
    requires n <= 64
    ensures |calls| == Pow2(n + 1) - 1
    ensures forall j :: 0 <= j < |calls| ==>
      WellFormed(calls[j].node) && calls[j].node.len <= n
      && calls[j].digest == Label(h, chi, n, calls[j].node)
    ensures forall m :: WellFormed(m) && m.len <= n ==> Visited(calls, m)
    ensures Distinct(calls)
    ensures ChildrenFirst(calls, n)
  {
    RootPre(h, chi, n);
    WalkFacts(h, chi, n);
    CalcLabelsHelper(h, chi, n, Root(), map[]).calls
  }

  /** The walk from the root starts with nothing to cache. */
  lemma RootPre(h: Hasher, chi: Bytes, n: nat)
    requires n <= 64
    ensures WalkPre(h, chi, n, Root(), map[])
  {
  }

  lemma WalkFacts(h: Hasher, chi: Bytes, n: nat)
    requires n <= 64 && WalkPre(h, chi, n, Root(), map[])
    ensures var calls := CalcLabelsHelper(h, chi, n, Root(), map[]).calls;
      && |calls| == Pow2(n + 1) - 1
      && (forall j :: 0 <= j < |calls| ==>
            WellFormed(calls[j].node) && calls[j].node.len <= n
            && calls[j].digest == Label(h, chi, n, calls[j].node))
      && (forall m :: WellFormed(m) && m.len <= n ==> Visited(calls, m))
      && Distinct(calls)
      && ChildrenFirst(calls, n)
  {
    var ell: map<Node, Bytes> := map[];
    WalkCount(h, chi, n, Root(), ell);
    WalkDistinct(h, chi, n, Root(), ell);
    WalkChildrenFirst(h, chi, n, Root(), ell);
    var calls := CalcLabelsHelper(h, chi, n, Root(), ell).calls;
    CallsInGraph(h, chi, n, calls);
    forall m | WellFormed(m) && m.len <= n
      ensures Visited(calls, m)
    {
      WalkCovers(h, chi, n, Root(), ell, m);
    }
  }

  /** The calls of the walk from the root are on nodes of the graph. */
  lemma CallsInGraph(h: Hasher, chi: Bytes, n: nat, calls: seq<Call>)
    requires n <= 64 && CallsTrue(h, chi, n, Root(), calls)
    ensures forall j :: 0 <= j < |calls| ==>
      WellFormed(calls[j].node) && calls[j].node.len <= n
      && calls[j].digest == Label(h, chi, n, calls[j].node)
  {
  }
}
