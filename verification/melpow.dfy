/** MelPoW proofs (src/melpow/mod.rs): the challenge nodes ("gammas"), their
    sibling paths, proof generation, verification and the proof codec. The
    hash accumulator and `bts_key` are parameters. */
module MelPoW {
  import opened Bits
  import opened Encoding
  import opened Wrappers
  import opened Nodes
  import opened Labels

  /** `hash::bts_key(data, key)`: a keyed hash. */
  type KeyHash = (Bytes, Bytes) -> Digest

  /** Number of challenge nodes per proof (`PROOF_CERTAINTY`). */
  const PROOF_CERTAINTY: nat := 200

  /** A proof: a map from node to label (`Proof`). */
  datatype Proof = Proof(entries: map<Node, Bytes>)

  /** `x >> s` on an unbounded word. */
  function ShiftRight(x: nat, s: nat): nat
  {
    DivModDecompose(x, Pow2(s));
    x / Pow2(s)
  }

  lemma BitOfShiftRight(x: nat, s: nat, t: nat)
    ensures Bit(ShiftRight(x, s), t) == Bit(x, s + t)
  {
    DivModDecompose(x, Pow2(s));
    DivDiv(x, Pow2(s), Pow2(t));
    Pow2Add(s, t);
  }

  /** Shifting q left by s puts its bits at positions s and up. */
  lemma ShiftedUpBit(q: nat, s: nat, i: nat)
    ensures Bit(q * Pow2(s), i) == if i < s then 0 else Bit(q, i - s)
  {
    BitOfSum(0, q, s, i);
    BitCongruent(q * Pow2(s) + 0, q * Pow2(s), i);
    if i < s {
      assert Bit(0, i) == 0;
    }
  }

  /** `x >> s << s`: x with its low s bits cleared. */
  function ClearLow(x: nat, s: nat): nat
  {
    ShiftRight(x, s) * Pow2(s)
  }

  /** Clearing the low s bits of x keeps the bits from s up. */
  lemma ClearedBit(x: nat, s: nat, i: nat)
    ensures Bit(ClearLow(x, s), i) == if i < s then 0 else Bit(x, i)
  {
    ShiftedUpBit(ShiftRight(x, s), s, i);
    if i >= s {
      BitOfShiftRight(x, s, i - s);
    }
  }

  /** The gamma word of a seed word x: the top d bits kept, then the 64-bit
      word reversed. */
  function GammaWord(x: nat, d: nat): nat
    requires d <= 64
  {
    Rev(ClearLow(x, 64 - d), 64)
  }

  /** The gamma word is below 2^d and its bit j is bit 63 - j of x. */
  lemma GammaWordBits(x: nat, d: nat)
    requires d <= 64
    ensures GammaWord(x, d) < Pow2(d)
    ensures forall j :: 0 <= j < d ==> Bit(GammaWord(x, d), j) == Bit(x, 63 - j)
  {
    var s := 64 - d;
    var c := ClearLow(x, s);
    forall j | 0 <= j < s
      ensures Bit(c, j) == 0
    {
      ClearedBit(x, s, j);
    }
    RevLowClear(c, s, 64);
    forall j | 0 <= j < d
      ensures Bit(Rev(c, 64), j) == Bit(x, 63 - j)
    {
      BitOfRev(c, 64, j);
      ClearedBit(x, s, 63 - j);
    }
  }

  /** One gamma from its seed (`gen_gammas` body): the seed's first eight
      bytes read little-endian, shifted right then left by 64 - d, reversed.
      Bit j of the gamma is bit 63 - j of the seed word. */
  function GammaOf(seed: Digest, d: nat): (g: Node)
    requires 1 <= d <= 64
    ensures g.len == d && WellFormed(g)
    ensures forall j :: 0 <= j < d ==> Bit(g.bv, j) == Bit(FromLE(seed[..8]), 63 - j)
  {
    var x := FromLE(seed[..8]);
    GammaWordBits(x, d);
    Node(GammaWord(x, d), d)
  }

  /** The text "gamma-" followed by the decimal index, as bytes. */
  function GammaKey(i: nat): (r: Bytes)
    ensures |r| > 6 && r[..6] == [103, 97, 109, 109, 97, 45]
  {
    var s := "gamma-" + Decimal(i);
    Ascii(s)
  }

  /** Distinct indices give distinct keys, so the PROOF_CERTAINTY challenges
      are drawn from distinct hashes. */
  lemma GammaKeyInjective(i: nat, j: nat)
    ensures GammaKey(i) == GammaKey(j) <==> i == j
  {
    if GammaKey(i) == GammaKey(j) {
      var si := "gamma-" + Decimal(i);
      var sj := "gamma-" + Decimal(j);
      AsciiInjective(si, sj);
      assert si[6..] == Decimal(i) && sj[6..] == Decimal(j);
      DecimalRoundTrip(i);
      DecimalRoundTrip(j);
    }
  }

  /** `gen_gammas`: PROOF_CERTAINTY challenge leaves derived from the puzzle. */
  function GenGammas(key: KeyHash, puzzle: Bytes, d: nat): (gs: seq<Node>)
    requires 1 <= d <= 64
    ensures |gs| == PROOF_CERTAINTY
    ensures forall j :: 0 <= j < |gs| ==> gs[j].len == d && WellFormed(gs[j])
  {
    var gs := seq(PROOF_CERTAINTY, i requires 0 <= i < PROOF_CERTAINTY => GammaOf(key(puzzle, GammaKey(i)), d));
    assert forall j :: 0 <= j < |gs| ==> gs[j] == GammaOf(key(puzzle, GammaKey(j)), d);
    gs
  }

  /** Gamma j is read from the hash of the puzzle under the key "gamma-j":
      its bit b is bit 63 - b of the hash's first eight bytes, little-endian. */
  lemma GammaFromPuzzle(key: KeyHash, puzzle: Bytes, d: nat, j: nat)
    requires 1 <= d <= 64 && j < PROOF_CERTAINTY
    ensures var g, seed := GenGammas(key, puzzle, d)[j], key(puzzle, GammaKey(j));
      forall b :: 0 <= b < d ==> Bit(g.bv, b) == Bit(FromLE(seed[..8]), 63 - b)
  {
    assert GenGammas(key, puzzle, d)[j] == GammaOf(key(puzzle, GammaKey(j)), d);
  }

  /** The sibling of the path to g at depth i + 1: the first i bits of g and
      then bit i flipped. */
  function Sibling(g: Node, i: nat): Node
    requires i < 64
  {
    Append(Take(g, i), 1 - GetBit(g, i))
  }

  /** `gamma_to_path`: the siblings along the path from the root to g. */
  function GammaToPath(g: Node): (path: seq<Node>)
    requires g.len <= 64
    ensures |path| == g.len
    ensures forall i :: 0 <= i < |path| ==>
      path[i].len == i + 1 && WellFormed(path[i])
      && (forall j :: 0 <= j < i ==> Bit(path[i].bv, j) == Bit(g.bv, j))
      && Bit(path[i].bv, i) == 1 - Bit(g.bv, i)
  {
    var path := seq(g.len, i requires 0 <= i < g.len => Sibling(g, i));
    forall i | 0 <= i < g.len
      ensures forall j :: 0 <= j < i ==> Bit(path[i].bv, j) == Bit(g.bv, j)
    {
      SiblingBits(g, i);
    }
    path
  }

  lemma SiblingBits(g: Node, i: nat)
    requires i < 64
    ensures forall j :: 0 <= j < i ==> Bit(Sibling(g, i).bv, j) == Bit(g.bv, j)
  {
    var t := Take(g, i);
    forall j | 0 <= j < i
      ensures Bit(Sibling(g, i).bv, j) == Bit(g.bv, j)
    {
      BitOfSum(t.bv, 1 - GetBit(g, i), i, j);
    }
  }

  lemma SiblingShape(g: Node, i: nat)
    requires i < 64
    ensures WellFormed(Sibling(g, i)) && Sibling(g, i).len == i + 1
  {
  }

  /** The prefix of length i of g (`take`, without the 64-bit limit). */
  function Prefix(g: Node, i: nat): Node
  {
    Node(g.bv % Pow2(i), i)
  }

  /** The two children of a path node are the next path node and the sibling. */
  lemma SiblingPair(g: Node, i: nat)
    requires WellFormed(g) && i < g.len <= 64
    ensures Append(Take(g, i), Bit(g.bv, i)) == Prefix(g, i + 1)
    ensures Append(Take(g, i), 1 - Bit(g.bv, i)) == Sibling(g, i)
    ensures {Append(Take(g, i), 0), Append(Take(g, i), 1)} == {Prefix(g, i + 1), Sibling(g, i)}
    ensures Prefix(g, g.len) == g
  {
    TakeExtend(g, i);
    BitIsBinary(g.bv, i);
    DivModUnique(g.bv, Pow2(g.len), 0, g.bv);
  }

  /** Every parent of a leaf is on its sibling path: the sibling at each set bit. */
  lemma ParentsOnPath(g: Node, i: nat)
    requires WellFormed(g) && i < g.len <= 64 && Bit(g.bv, i) == 1
    ensures LeafParent(g, i) == Sibling(g, i) == GammaToPath(g)[i]
  {
    AppendZeroToPrefix(g, i);
  }

  /** The per-puzzle hash key (`bts_key(puzzle, b"chi")`). */
  function Chi(key: KeyHash, puzzle: Bytes): Digest
  {
    key(puzzle, [99, 104, 105])
  }

  /** The nodes `generate` reserves before labelling: every gamma and every
      node of its sibling path. */
  function Reserved(gammas: seq<Node>): set<Node>
  {
    (set j | 0 <= j < |gammas| :: gammas[j])
    + (set j, i | 0 <= j < |gammas| && 0 <= i < gammas[j].len && i < 64 :: Sibling(gammas[j], i))
  }

  /** The map `generate` starts the labelling with: each reserved node with an
      empty label. */
  function Skeleton(gammas: seq<Node>): (m: map<Node, Bytes>)
    ensures m.Keys == Reserved(gammas)
  {
    map k | k in Reserved(gammas) :: []
  }

  /** Every reserved node is a node of the graph of depth d. */
  lemma ReservedInGraph(gammas: seq<Node>, d: nat)
    requires d <= 64
    requires forall j :: 0 <= j < |gammas| ==> gammas[j].len == d && WellFormed(gammas[j])
    ensures forall k :: k in Reserved(gammas) ==> WellFormed(k) && k.len <= d
  {
    forall k | k in Reserved(gammas)
      ensures WellFormed(k) && k.len <= d
    {
      if k !in (set j | 0 <= j < |gammas| :: gammas[j]) {
        var j, i :| 0 <= j < |gammas| && 0 <= i < gammas[j].len && i < 64 && k == Sibling(gammas[j], i);
        SiblingShape(gammas[j], i);
      }
    }
  }

  /** `proof_map.insert` from inside the `calc_labels` callback: a node gets
      its label when it was reserved or is the root. */
  function Record(m: map<Node, Bytes>, calls: seq<Call>): (r: map<Node, Bytes>)
    ensures forall k :: k in r <==> k in m || (k.len == 0 && Visited(calls, k))
    ensures forall k :: k in r && !Visited(calls, k) ==> r[k] == m[k]
    ensures forall k :: k in r && Visited(calls, k) ==>
      exists j :: 0 <= j < |calls| && calls[j].node == k && r[k] == calls[j].digest
    decreases |calls|
  {
    if |calls| == 0 then m
    else
      var c := calls[0];
      var m1 := if c.node in m || c.node.len == 0 then m[c.node := c.digest] else m;
      var r := Record(m1, calls[1..]);
      RecordStep(m, calls, m1, r);
      r
  }

  lemma RecordStep(m: map<Node, Bytes>, calls: seq<Call>, m1: map<Node, Bytes>, r: map<Node, Bytes>)
    requires |calls| > 0
    requires m1 == if calls[0].node in m || calls[0].node.len == 0 then m[calls[0].node := calls[0].digest] else m
    requires forall k :: k in r <==> k in m1 || (k.len == 0 && Visited(calls[1..], k))
    requires forall k :: k in r && !Visited(calls[1..], k) ==> r[k] == m1[k]
    requires forall k :: k in r && Visited(calls[1..], k) ==>
      exists j :: 0 <= j < |calls[1..]| && calls[1..][j].node == k && r[k] == calls[1..][j].digest
    ensures forall k :: k in r <==> k in m || (k.len == 0 && Visited(calls, k))
    ensures forall k :: k in r && !Visited(calls, k) ==> r[k] == m[k]
    ensures forall k :: k in r && Visited(calls, k) ==>
      exists j :: 0 <= j < |calls| && calls[j].node == k && r[k] == calls[j].digest
  {
    VisitedCons(calls);
    forall k | k in r && Visited(calls, k)
      ensures exists j :: 0 <= j < |calls| && calls[j].node == k && r[k] == calls[j].digest
    {
      if Visited(calls[1..], k) {
        var j :| 0 <= j < |calls[1..]| && calls[1..][j].node == k && r[k] == calls[1..][j].digest;
        assert calls[j + 1] == calls[1..][j];
      } else {
        assert calls[0].node == k && r[k] == calls[0].digest;
      }
    }
  }

  /** A node is visited by a non-empty list of calls exactly when it is the
      first call's node or is visited by the rest. */
  lemma VisitedCons(calls: seq<Call>)
    requires |calls| > 0
    ensures forall k :: Visited(calls, k) <==> k == calls[0].node || Visited(calls[1..], k)
  {
    forall k | Visited(calls[1..], k)
      ensures Visited(calls, k)
    {
      var j :| 0 <= j < |calls[1..]| && calls[1..][j].node == k;
      assert calls[j + 1].node == k;
    }
    forall k | Visited(calls, k) && k != calls[0].node
      ensures Visited(calls[1..], k)
    {
      var j :| 0 <= j < |calls| && calls[j].node == k;
      assert calls[1..][j - 1].node == k;
    }
    assert Visited(calls, calls[0].node) by {
      assert calls[0].node == calls[0].node;
    }
  }

  /** Every entry of m is the true label of a node of the graph of depth d. */
  predicate Honest(h: Hasher, chi: Bytes, d: nat, m: map<Node, Bytes>)
    requires d <= 64
  {
    forall k :: k in m ==> WellFormed(k) && k.len <= d && m[k] == Label(h, chi, d, k)
  }

  /** Recording the full labelling into a map of graph nodes yields true
      labels for all of them, and adds the root. */
  lemma RecordHonest(h: Hasher, chi: Bytes, d: nat, skeleton: map<Node, Bytes>)
    requires 1 <= d <= 64
    requires forall k :: k in skeleton ==> WellFormed(k) && k.len <= d
    ensures Record(skeleton, CalcLabels(h, chi, d)).Keys == skeleton.Keys + {Root()}
    ensures Honest(h, chi, d, Record(skeleton, CalcLabels(h, chi, d)))
  {
    var calls := CalcLabels(h, chi, d);
    RecordOfWalk(h, chi, d, skeleton, calls, Record(skeleton, calls));
  }

  lemma RecordOfWalk(h: Hasher, chi: Bytes, d: nat, skeleton: map<Node, Bytes>, calls: seq<Call>, m: map<Node, Bytes>)
    requires 1 <= d <= 64
    requires forall k :: k in skeleton ==> WellFormed(k) && k.len <= d
    requires forall j :: 0 <= j < |calls| ==>
      WellFormed(calls[j].node) && calls[j].node.len <= d && calls[j].digest == Label(h, chi, d, calls[j].node)
    requires forall k :: WellFormed(k) && k.len <= d ==> Visited(calls, k)
    requires forall k :: k in m <==> k in skeleton || (k.len == 0 && Visited(calls, k))
    requires forall k :: k in m && Visited(calls, k) ==>
      exists j :: 0 <= j < |calls| && calls[j].node == k && m[k] == calls[j].digest
    ensures m.Keys == skeleton.Keys + {Root()}
    ensures Honest(h, chi, d, m)
  {
    RecordKeys(d, skeleton, calls, m);
    forall k | k in m
      ensures WellFormed(k) && k.len <= d && m[k] == Label(h, chi, d, k)
    {
      assert Visited(calls, k);
      RecordedTrue(h, chi, d, calls, k, m[k]);
    }
  }

  /** The recorded map holds the skeleton and the root, and nothing else. */
  lemma RecordKeys(d: nat, skeleton: map<Node, Bytes>, calls: seq<Call>, m: map<Node, Bytes>)
    requires 1 <= d <= 64
    requires forall k :: k in skeleton ==> WellFormed(k) && k.len <= d
    requires forall j :: 0 <= j < |calls| ==> WellFormed(calls[j].node) && calls[j].node.len <= d
    requires forall k :: WellFormed(k) && k.len <= d ==> Visited(calls, k)
    requires forall k :: k in m <==> k in skeleton || (k.len == 0 && Visited(calls, k))
    ensures m.Keys == skeleton.Keys + {Root()}
    ensures forall k :: k in m ==> WellFormed(k) && k.len <= d
  {
    assert WellFormed(Root()) && Visited(calls, Root());
    forall k | k in m
      ensures k in skeleton || k == Root()
    {
      if k !in skeleton {
        var j :| 0 <= j < |calls| && calls[j].node == k;
        assert k.len == 0 && WellFormed(k);
      }
    }
  }

  /** A label recorded from a call of the walk is the true label. */
  lemma RecordedTrue(h: Hasher, chi: Bytes, d: nat, calls: seq<Call>, k: Node, v: Bytes)
    requires d <= 64
    requires forall j :: 0 <= j < |calls| ==>
      WellFormed(calls[j].node) && calls[j].node.len <= d && calls[j].digest == Label(h, chi, d, calls[j].node)
    requires exists j :: 0 <= j < |calls| && calls[j].node == k && v == calls[j].digest
    ensures WellFormed(k) && k.len <= d && v == Label(h, chi, d, k)
  {
    var j :| 0 <= j < |calls| && calls[j].node == k && v == calls[j].digest;
  }

  /** `Proof::generate`: reserve the gammas and their sibling paths, run the
      labelling and keep the labels of the reserved nodes and the root. The
      result holds exactly those nodes, each with its true label. */
  function Generate(h: Hasher, key: KeyHash, puzzle: Bytes, d: nat): (p: Proof)
    requires 1 <= d <= 64
    ensures p.entries.Keys == Reserved(GenGammas(key, puzzle, d)) + {Root()}
    ensures Honest(h, Chi(key, puzzle), d, p.entries)
  {
    var chi := Chi(key, puzzle);
    var gammas := GenGammas(key, puzzle, d);
    var skeleton := Skeleton(gammas);
    ReservedInGraph(gammas, d);
    RecordHonest(h, chi, d, skeleton);
    Proof(Record(skeleton, CalcLabels(h, chi, d)))
  }

  /** m holds every gamma and every node of every sibling path. */
  predicate HoldsPaths(gammas: seq<Node>, m: map<Node, Bytes>)
  {
    forall j :: 0 <= j < |gammas| ==> gammas[j] in m && SiblingsIn(gammas[j], m)
  }

  predicate SiblingsIn(g: Node, m: map<Node, Bytes>)
  {
    forall i :: 0 <= i < g.len && i < 64 ==> Sibling(g, i) in m
  }

  lemma ReservedHoldsPaths(gammas: seq<Node>, m: map<Node, Bytes>)
    requires Reserved(gammas) <= m.Keys
    ensures HoldsPaths(gammas, m)
  {
    forall j | 0 <= j < |gammas|
      ensures gammas[j] in m && SiblingsIn(gammas[j], m)
    {
      assert gammas[j] in Reserved(gammas);
      forall i | 0 <= i < gammas[j].len && i < 64
        ensures Sibling(gammas[j], i) in m
      {
        assert Sibling(gammas[j], i) in Reserved(gammas);
      }
    }
  }

  /** Every entry below the root is a true label (the root may be anything). */
  predicate HonestBelow(h: Hasher, chi: Bytes, d: nat, m: map<Node, Bytes>)
    requires d <= 64
  {
    forall k :: k in m ==> WellFormed(k) && k.len <= d && (k.len > 0 ==> m[k] == Label(h, chi, d, k))
  }

  predicate AllIn(m: map<Node, Bytes>, ps: seq<Node>)
  {
    forall j :: 0 <= j < |ps| ==> ps[j] in m
  }

  /** The labels of the parents found in the proof, in order, up to the first
      missing one (where `try_for_each` stops). */
  function FoundLabels(m: map<Node, Bytes>, ps: seq<Node>): (r: seq<Bytes>)
    ensures |r| <= |ps|
    ensures |r| == |ps| <==> AllIn(m, ps)
    ensures AllIn(m, ps) ==> r == CachedLabels(m, ps)
    decreases |ps|
  {
    if |ps| == 0 || ps[0] !in m then []
    else
      AllInCons(m, ps);
      [m[ps[0]]] + FoundLabels(m, ps[1..])
  }

  /** A list is held by m exactly when its head and its tail are, and then
      its cached labels are the head's label before the tail's. */
  lemma AllInCons(m: map<Node, Bytes>, ps: seq<Node>)
    requires |ps| > 0
    ensures AllIn(m, ps) <==> ps[0] in m && AllIn(m, ps[1..])
    ensures AllIn(m, ps) ==> CachedLabels(m, ps) == [m[ps[0]]] + CachedLabels(m, ps[1..])
  {
    if ps[0] in m && AllIn(m, ps[1..]) {
      forall j | 0 <= j < |ps|
        ensures ps[j] in m
      {
        if j > 0 {
          assert ps[j] == ps[1..][j - 1];
        }
      }
    }
  }

  /** The label check of one gamma: it is in the proof, so is each of its
      parents, and its label is the hash of its bytes and its parents' labels. */
  predicate LabelChecks(h: Hasher, chi: Bytes, m: map<Node, Bytes>, d: nat, g: Node)
    requires g.len == d <= 64
  {
    g in m && AllIn(m, GetParents(g, d))
    && m[g] == h(chi, [ToBytes(g)] + CachedLabels(m, GetParents(g, d)))
  }

  /** The "merkle-like" recomputation for indices i - 1 down to 0: each
      prefix of g is rehashed from its two children in tmp and stored in
      tmp. None when a child is missing (the map index panics). */
  function Commit(h: Hasher, chi: Bytes, g: Node, i: nat, tmp: map<Node, Bytes>): (r: Option<map<Node, Bytes>>)
    requires i <= g.len <= 64
    ensures r.Some? ==> tmp.Keys <= r.value.Keys
    decreases i
  {
    if i == 0 then Some(tmp)
    else
      var t := Take(g, i - 1);
      var a, b := Append(t, 0), Append(t, 1);
      if a !in tmp || b !in tmp then None
      else Commit(h, chi, g, i - 1, tmp[t := h(chi, [ToBytes(t), tmp[a], tmp[b]])])
  }

  /** One gamma of `Proof::verify` as written: the label check, then the
      commitment recomputation into tmp, then the comparison of phi with the
      root entry of the proof, which is where phi was read from. */
  function CheckGamma(h: Hasher, chi: Bytes, m: map<Node, Bytes>, d: nat, phi: Bytes, g: Node,
                      out: bool, tmp: map<Node, Bytes>): (r: Option<(bool, map<Node, Bytes>)>)
    requires g.len == d && 1 <= d <= 64 && Root() in m
    ensures r.Some? && r.value.0 ==> out && LabelChecks(h, chi, m, d, g)
    ensures r.Some? && phi == m[Root()] ==> r.value.0 == (out && LabelChecks(h, chi, m, d, g))
    ensures r.Some? && g in m ==> tmp.Keys <= r.value.1.Keys
  {
    if g !in m then Some((false, tmp))
    else
      var out1 := out && HashMatches(h, chi, m, d, g);
      match Commit(h, chi, g, d, tmp)
      case None => None
      case Some(tmp1) => Some((if phi != m[Root()] then false else out1, tmp1))
  }

  /** Lines 65-86: hash the gamma's bytes and the labels of its parents found
      in the proof; every parent must be found and the hash must equal the
      gamma's label. */
  function HashMatches(h: Hasher, chi: Bytes, m: map<Node, Bytes>, d: nat, g: Node): (ok: bool)
    requires g.len == d <= 64 && g in m
    ensures ok <==> LabelChecks(h, chi, m, d, g)
  {
    var ps := GetParents(g, d);
    var found := FoundLabels(m, ps);
    |found| == |ps| && h(chi, [ToBytes(g)] + found) == m[g]
  }

  function VerifyLoop(h: Hasher, chi: Bytes, m: map<Node, Bytes>, d: nat, phi: Bytes, gammas: seq<Node>,
                      out: bool, tmp: map<Node, Bytes>): (r: Option<bool>)
    requires 1 <= d <= 64 && Root() in m
    requires forall j :: 0 <= j < |gammas| ==> gammas[j].len == d
    ensures r == Some(true) ==> out && forall j :: 0 <= j < |gammas| ==> LabelChecks(h, chi, m, d, gammas[j])
    ensures r.Some? && phi == m[Root()] ==>
      r.value == (out && forall j :: 0 <= j < |gammas| ==> LabelChecks(h, chi, m, d, gammas[j]))
    decreases |gammas|
  {
    if |gammas| == 0 then Some(out)
    else
      match CheckGamma(h, chi, m, d, phi, gammas[0], out, tmp)
      case None => None
      case Some(step) =>
        TailLengths(gammas, d);
        var r := VerifyLoop(h, chi, m, d, phi, gammas[1..], step.0, step.1);
        ChecksIff(h, chi, m, d, gammas);
        r
  }

  /** `Proof::verify` as written. None stands for a panic: the difficulty is
      0 or between 65 and 100 (the shift in `gen_gammas` overflows), the
      proof has no root entry, or a child needed by the commitment
      recomputation is missing. Acceptance implies every gamma's label check. */
  function Verify(h: Hasher, key: KeyHash, p: Proof, puzzle: Bytes, d: nat): (r: Option<bool>)
    ensures d > 100 ==> r == Some(false)
    ensures d == 0 || 64 < d <= 100 ==> r == None
    ensures 1 <= d <= 64 && Root() !in p.entries ==> r == None
    ensures r == Some(true) ==>
      && 1 <= d <= 64 && Root() in p.entries
      && forall j :: 0 <= j < PROOF_CERTAINTY ==> LabelChecks(h, Chi(key, puzzle), p.entries, d, GenGammas(key, puzzle, d)[j])
    ensures 1 <= d <= 64 && r.Some? ==>
      r.value == forall j :: 0 <= j < PROOF_CERTAINTY ==> LabelChecks(h, Chi(key, puzzle), p.entries, d, GenGammas(key, puzzle, d)[j])
  {
    if d > 100 then Some(false)
    else if d == 0 || d > 64 then None
    else if Root() !in p.entries then None
    else
      var m := p.entries;
      VerifyLoop(h, Chi(key, puzzle), m, d, m[Root()], GenGammas(key, puzzle, d), true, m)
  }

  /** The corrected per-gamma loop: a missing entry rejects instead of
      panicking, and the recomputed root must equal phi. */
  function VerifyFixedLoop(h: Hasher, chi: Bytes, m: map<Node, Bytes>, d: nat, phi: Bytes, gammas: seq<Node>,
                           tmp: map<Node, Bytes>): (r: bool)
    requires 1 <= d <= 64
    requires forall j :: 0 <= j < |gammas| ==> gammas[j].len == d
    ensures r ==> forall j :: 0 <= j < |gammas| ==> LabelChecks(h, chi, m, d, gammas[j])
    decreases |gammas|
  {
    if |gammas| == 0 then true
    else
      var g := gammas[0];
      TailLengths(gammas, d);
      LabelChecks(h, chi, m, d, g)
      && match Commit(h, chi, g, d, tmp)
         case None => false
         case Some(tmp1) =>
           Root() in tmp1 && tmp1[Root()] == phi
           && var r := VerifyFixedLoop(h, chi, m, d, phi, gammas[1..], tmp1);
              ChecksIff(h, chi, m, d, gammas);
              r
  }

  lemma TailLengths(gammas: seq<Node>, d: nat)
    requires |gammas| > 0
    requires forall j :: 0 <= j < |gammas| ==> gammas[j].len == d
    ensures forall j :: 0 <= j < |gammas[1..]| ==> gammas[1..][j].len == d
  {
    forall j | 0 <= j < |gammas[1..]|
      ensures gammas[1..][j] == gammas[j + 1]
    {
    }
  }

  /** Every gamma of a non-empty list checks exactly when the first does and
      every one of the rest does. */
  lemma ChecksIff(h: Hasher, chi: Bytes, m: map<Node, Bytes>, d: nat, gammas: seq<Node>)
    requires d <= 64 && |gammas| > 0
    requires forall j :: 0 <= j < |gammas| ==> gammas[j].len == d
    ensures forall j :: 0 <= j < |gammas[1..]| ==> gammas[1..][j].len == d
    ensures (forall j :: 0 <= j < |gammas| ==> LabelChecks(h, chi, m, d, gammas[j]))
        <==> LabelChecks(h, chi, m, d, gammas[0])
             && forall j :: 0 <= j < |gammas[1..]| ==> LabelChecks(h, chi, m, d, gammas[1..][j])
  {
    TailLengths(gammas, d);
    if LabelChecks(h, chi, m, d, gammas[0])
       && forall j :: 0 <= j < |gammas[1..]| ==> LabelChecks(h, chi, m, d, gammas[1..][j]) {
      ChecksJoin(h, chi, m, d, gammas);
    }
    if forall j :: 0 <= j < |gammas| ==> LabelChecks(h, chi, m, d, gammas[j]) {
      ChecksTail(h, chi, m, d, gammas);
    }
  }

  lemma ChecksJoin(h: Hasher, chi: Bytes, m: map<Node, Bytes>, d: nat, gammas: seq<Node>)
    requires d <= 64 && |gammas| > 0
    requires forall j :: 0 <= j < |gammas| ==> gammas[j].len == d
    requires LabelChecks(h, chi, m, d, gammas[0])
    requires forall j :: 0 <= j < |gammas[1..]| ==> gammas[1..][j].len == d
    requires forall j :: 0 <= j < |gammas[1..]| ==> LabelChecks(h, chi, m, d, gammas[1..][j])
    ensures forall j :: 0 <= j < |gammas| ==> LabelChecks(h, chi, m, d, gammas[j])
  {
    forall j | 1 <= j < |gammas|
      ensures LabelChecks(h, chi, m, d, gammas[j])
    {
      assert gammas[j] == gammas[1..][j - 1];
    }
  }

  lemma ChecksTail(h: Hasher, chi: Bytes, m: map<Node, Bytes>, d: nat, gammas: seq<Node>)
    requires d <= 64 && |gammas| > 0
    requires forall j :: 0 <= j < |gammas| ==> gammas[j].len == d
    requires forall j :: 0 <= j < |gammas| ==> LabelChecks(h, chi, m, d, gammas[j])
    requires forall j :: 0 <= j < |gammas[1..]| ==> gammas[1..][j].len == d
    ensures forall j :: 0 <= j < |gammas[1..]| ==> LabelChecks(h, chi, m, d, gammas[1..][j])
  {
    forall j | 0 <= j < |gammas[1..]|
      ensures LabelChecks(h, chi, m, d, gammas[1..][j])
    {
      assert gammas[1..][j] == gammas[j + 1];
    }
  }

  /** The rest of a list of gammas are well-formed, of length d, and their
      paths are held, when those of the whole list are. */
  lemma TailGammas(gammas: seq<Node>, m: map<Node, Bytes>, d: nat)
    requires |gammas| > 0
    requires forall j :: 0 <= j < |gammas| ==> gammas[j].len == d && WellFormed(gammas[j])
    requires HoldsPaths(gammas, m)
    ensures forall j :: 0 <= j < |gammas[1..]| ==> gammas[1..][j].len == d && WellFormed(gammas[1..][j])
    ensures HoldsPaths(gammas[1..], m)
  {
    forall j | 0 <= j < |gammas[1..]|
      ensures gammas[1..][j] == gammas[j + 1]
    {
    }
  }

  /** `Proof::verify` with the commitment compared against the recomputed
      root and every failure a rejection. */
  function VerifyFixed(h: Hasher, key: KeyHash, p: Proof, puzzle: Bytes, d: nat): (r: bool)
    ensures r ==>
      && 1 <= d <= 64 && Root() in p.entries
      && forall j :: 0 <= j < PROOF_CERTAINTY ==> LabelChecks(h, Chi(key, puzzle), p.entries, d, GenGammas(key, puzzle, d)[j])
  {
    if d == 0 || d > 64 then false
    else if Root() !in p.entries then false
    else
      var m := p.entries;
      VerifyFixedLoop(h, Chi(key, puzzle), m, d, m[Root()], GenGammas(key, puzzle, d), m)
  }

  /** On a map of true labels holding the path to g, the commitment
      recomputation never misses, keeps every label true, and ends with the
      true label of the root. */
  lemma {:induction false} CommitHonest(h: Hasher, chi: Bytes, d: nat, g: Node, i: nat, tmp: map<Node, Bytes>)
    requires 1 <= d <= 64 && g.len == d && WellFormed(g) && i <= d
    requires HonestBelow(h, chi, d, tmp)
    requires Prefix(g, i) in tmp && SiblingsIn(g, tmp)
    ensures Commit(h, chi, g, i, tmp).Some?
    ensures HonestBelow(h, chi, d, Commit(h, chi, g, i, tmp).value)
    ensures i >= 1 ==> RootTrue(h, chi, d, Commit(h, chi, g, i, tmp).value)
    decreases i
  {
    if i > 0 {
      var t := Take(g, i - 1);
      var tmp1 := CommitStep(h, chi, d, g, i, tmp);
      CommitHonest(h, chi, d, g, i - 1, tmp1);
      if i == 1 {
        assert t == Root();
      }
    }
  }

  /** The map holds the true label of the root. */
  predicate RootTrue(h: Hasher, chi: Bytes, d: nat, m: map<Node, Bytes>)
    requires d <= 64
  {
    Root() in m && m[Root()] == Label(h, chi, d, Root())
  }

  /** One step of the recomputation: both children are present and the
      prefix gets its true label. */
  lemma CommitStep(h: Hasher, chi: Bytes, d: nat, g: Node, i: nat, tmp: map<Node, Bytes>)
    returns (tmp1: map<Node, Bytes>)
    requires 1 <= d <= 64 && g.len == d && WellFormed(g) && 0 < i <= d
    requires HonestBelow(h, chi, d, tmp)
    requires Prefix(g, i) in tmp && SiblingsIn(g, tmp)
    ensures Commit(h, chi, g, i, tmp) == Commit(h, chi, g, i - 1, tmp1)
    ensures HonestBelow(h, chi, d, tmp1) && Prefix(g, i - 1) in tmp1 && SiblingsIn(g, tmp1)
    ensures i == 1 ==> RootTrue(h, chi, d, tmp1)
  {
    var t := Take(g, i - 1);
    var a, b := Append(t, 0), Append(t, 1);
    ChildrenPresent(h, chi, d, g, i, tmp);
    var v := h(chi, [ToBytes(t), tmp[a], tmp[b]]);
    tmp1 := tmp[t := v];
    PrefixLabel(h, chi, d, g, i, tmp);
    HonestInsert(h, chi, d, tmp, t, v);
    assert Prefix(g, i - 1) == t;
  }

  lemma ChildrenPresent(h: Hasher, chi: Bytes, d: nat, g: Node, i: nat, tmp: map<Node, Bytes>)
    requires 1 <= d <= 64 && g.len == d && WellFormed(g) && 0 < i <= d
    requires Prefix(g, i) in tmp && SiblingsIn(g, tmp)
    ensures Append(Take(g, i - 1), 0) in tmp && Append(Take(g, i - 1), 1) in tmp
  {
    var t := Take(g, i - 1);
    SiblingPair(g, i - 1);
    assert Sibling(g, i - 1) in tmp;
    if Bit(g.bv, i - 1) == 0 {
      assert Append(t, 0) == Prefix(g, i) && Append(t, 1) == Sibling(g, i - 1);
    } else {
      assert Append(t, 1) == Prefix(g, i) && Append(t, 0) == Sibling(g, i - 1);
    }
  }

  /** The recomputed label of a prefix from the true labels of its children
      is its true label. */
  lemma PrefixLabel(h: Hasher, chi: Bytes, d: nat, g: Node, i: nat, tmp: map<Node, Bytes>)
    requires 1 <= d <= 64 && g.len == d && 0 < i <= d
    requires HonestBelow(h, chi, d, tmp)
    requires Append(Take(g, i - 1), 0) in tmp && Append(Take(g, i - 1), 1) in tmp
    ensures var t := Take(g, i - 1);
      h(chi, [ToBytes(t), tmp[Append(t, 0)], tmp[Append(t, 1)]]) == Label(h, chi, d, t)
  {
    var t := Take(g, i - 1);
    var a, b := Append(t, 0), Append(t, 1);
    var la, lb := Label(h, chi, d, a), Label(h, chi, d, b);
    assert tmp[a] == la && tmp[b] == lb;
    InnerLabel(h, chi, d, t, la, lb);
  }

  lemma HonestInsert(h: Hasher, chi: Bytes, d: nat, tmp: map<Node, Bytes>, t: Node, v: Bytes)
    requires d <= 64 && HonestBelow(h, chi, d, tmp)
    requires WellFormed(t) && t.len <= d && v == Label(h, chi, d, t)
    ensures HonestBelow(h, chi, d, tmp[t := v])
    ensures t == Root() ==> RootTrue(h, chi, d, tmp[t := v])
  {
  }

  /** A gamma whose path is held by a map of true labels passes the label check. */
  lemma GammaChecks(h: Hasher, chi: Bytes, d: nat, m: map<Node, Bytes>, g: Node)
    requires 1 <= d <= 64 && g.len == d && WellFormed(g)
    requires HonestBelow(h, chi, d, m) && g in m && SiblingsIn(g, m)
    ensures LabelChecks(h, chi, m, d, g)
  {
    var ps := GetParents(g, d);
    ParentsHeld(g, d, m, ps);
    ParentsRankLower(g, d, ps);
    TrueParentsLabel(h, chi, d, g, m, ps);
  }

  /** Every parent of a leaf is a sibling on its path. */
  lemma ParentsHeld(g: Node, d: nat, m: map<Node, Bytes>, ps: seq<Node>)
    requires 1 <= d <= 64 && g.len == d && WellFormed(g)
    requires SiblingsIn(g, m) && ps == GetParents(g, d)
    ensures AllIn(m, ps)
  {
    forall j | 0 <= j < |ps|
      ensures ps[j] in m
    {
      ParentsOnPath(g, ps[j].len - 1);
    }
  }

  /** Hashing a leaf with the true labels of its parents gives its label. */
  lemma TrueParentsLabel(h: Hasher, chi: Bytes, d: nat, g: Node, m: map<Node, Bytes>, ps: seq<Node>)
    requires 1 <= d <= 64 && g.len == d && WellFormed(g) && ps == GetParents(g, d)
    requires forall j :: 0 <= j < |ps| ==> ps[j] in m && WellFormed(ps[j]) && ps[j].len <= d
    requires HonestBelow(h, chi, d, m) && g in m
    ensures m[g] == Label(h, chi, d, g) ==> m[g] == h(chi, [ToBytes(g)] + CachedLabels(m, ps))
  {
    ParentsRankLower(g, d, ps);
    var a := CachedLabels(m, ps);
    var b := seq(|ps|, j requires 0 <= j < |ps| => Label(h, chi, d, ps[j]));
    assert a == b;
  }

  lemma {:induction false} LoopAccepts(h: Hasher, chi: Bytes, m: map<Node, Bytes>, d: nat, gammas: seq<Node>,
                                       tmp: map<Node, Bytes>)
    requires 1 <= d <= 64 && Root() in m
    requires forall j :: 0 <= j < |gammas| ==> gammas[j].len == d && WellFormed(gammas[j])
    requires HonestBelow(h, chi, d, m) && HoldsPaths(gammas, m)
    requires HonestBelow(h, chi, d, tmp) && m.Keys <= tmp.Keys
    ensures VerifyLoop(h, chi, m, d, m[Root()], gammas, true, tmp) == Some(true)
    decreases |gammas|
  {
    if |gammas| > 0 {
      var tmp1 := CheckGammaAccepts(h, chi, m, d, gammas[0], tmp);
      TailGammas(gammas, m, d);
      LoopAccepts(h, chi, m, d, gammas[1..], tmp1);
    }
  }

  lemma CheckGammaAccepts(h: Hasher, chi: Bytes, m: map<Node, Bytes>, d: nat, g: Node, tmp: map<Node, Bytes>)
    returns (tmp1: map<Node, Bytes>)
    requires 1 <= d <= 64 && Root() in m && g.len == d && WellFormed(g)
    requires HonestBelow(h, chi, d, m) && g in m && SiblingsIn(g, m)
    requires HonestBelow(h, chi, d, tmp) && m.Keys <= tmp.Keys
    ensures CheckGamma(h, chi, m, d, m[Root()], g, true, tmp) == Some((true, tmp1))
    ensures HonestBelow(h, chi, d, tmp1) && m.Keys <= tmp1.Keys
  {
    GammaChecks(h, chi, d, m, g);
    SiblingPair(g, 0);
    CommitHonest(h, chi, d, g, d, tmp);
    tmp1 := Commit(h, chi, g, d, tmp).value;
    CheckGammaPasses(h, chi, m, d, g, tmp, tmp1);
  }

  lemma CheckGammaPasses(h: Hasher, chi: Bytes, m: map<Node, Bytes>, d: nat, g: Node,
                         tmp: map<Node, Bytes>, tmp1: map<Node, Bytes>)
    requires 1 <= d <= 64 && Root() in m && g.len == d && g in m
    requires LabelChecks(h, chi, m, d, g) && Commit(h, chi, g, d, tmp) == Some(tmp1)
    ensures CheckGamma(h, chi, m, d, m[Root()], g, true, tmp) == Some((true, tmp1))
  {
    assert HashMatches(h, chi, m, d, g);
  }

  /** Whatever its labels, a map holding the path to g lets the commitment
      recomputation run to the end without a missing child. */
  lemma {:induction false} CommitCompletes(h: Hasher, chi: Bytes, d: nat, g: Node, i: nat, tmp: map<Node, Bytes>)
    requires 1 <= d <= 64 && g.len == d && WellFormed(g) && i <= d
    requires Prefix(g, i) in tmp && SiblingsIn(g, tmp)
    ensures Commit(h, chi, g, i, tmp).Some?
    decreases i
  {
    if i > 0 {
      var t := Take(g, i - 1);
      var tmp1 := CommitKeyStep(h, chi, d, g, i, tmp);
      CommitCompletes(h, chi, d, g, i - 1, tmp1);
    }
  }

  /** One step of the recomputation keeps the path held. */
  lemma CommitKeyStep(h: Hasher, chi: Bytes, d: nat, g: Node, i: nat, tmp: map<Node, Bytes>)
    returns (tmp1: map<Node, Bytes>)
    requires 1 <= d <= 64 && g.len == d && WellFormed(g) && 0 < i <= d
    requires Prefix(g, i) in tmp && SiblingsIn(g, tmp)
    ensures Commit(h, chi, g, i, tmp) == Commit(h, chi, g, i - 1, tmp1)
    ensures Prefix(g, i - 1) in tmp1 && SiblingsIn(g, tmp1)
  {
    var t := Take(g, i - 1);
    ChildrenPresent(h, chi, d, g, i, tmp);
    var v := h(chi, [ToBytes(t), tmp[Append(t, 0)], tmp[Append(t, 1)]]);
    tmp1 := tmp[t := v];
    SiblingsKept(g, tmp, t, v);
    assert Prefix(g, i - 1) == t;
  }

  lemma SiblingsKept(g: Node, tmp: map<Node, Bytes>, t: Node, v: Bytes)
    requires SiblingsIn(g, tmp)
    ensures SiblingsIn(g, tmp[t := v])
  {
  }

  /** The loop as written never panics on a map holding every gamma's path. */
  lemma {:induction false} LoopCompletes(h: Hasher, chi: Bytes, m: map<Node, Bytes>, d: nat, phi: Bytes,
                                         gammas: seq<Node>, out: bool, tmp: map<Node, Bytes>)
    requires 1 <= d <= 64 && Root() in m
    requires forall j :: 0 <= j < |gammas| ==> gammas[j].len == d && WellFormed(gammas[j])
    requires HoldsPaths(gammas, m) && m.Keys <= tmp.Keys
    ensures VerifyLoop(h, chi, m, d, phi, gammas, out, tmp).Some?
    decreases |gammas|
  {
    if |gammas| > 0 {
      var g := gammas[0];
      SiblingPair(g, 0);
      CommitCompletes(h, chi, d, g, d, tmp);
      var step := CheckGamma(h, chi, m, d, phi, g, out, tmp).value;
      TailGammas(gammas, m, d);
      LoopCompletes(h, chi, m, d, phi, gammas[1..], step.0, step.1);
    }
  }

  /** As written, a proof holding the root and every gamma's path is
      accepted exactly when every gamma's label checks against the labels of
      its parents in the proof: the commitment recomputation can never
      reject it, whatever labels the path nodes carry. */
  lemma VerifyIsLabelChecks(h: Hasher, key: KeyHash, p: Proof, puzzle: Bytes, d: nat)
    requires 1 <= d <= 64 && Root() in p.entries
    requires HoldsPaths(GenGammas(key, puzzle, d), p.entries)
    ensures Verify(h, key, p, puzzle, d)
      == Some(forall j :: 0 <= j < PROOF_CERTAINTY ==> LabelChecks(h, Chi(key, puzzle), p.entries, d, GenGammas(key, puzzle, d)[j]))
  {
    var m := p.entries;
    LoopCompletes(h, Chi(key, puzzle), m, d, m[Root()], GenGammas(key, puzzle, d), true, m);
  }

  lemma {:induction false} FixedLoopAccepts(h: Hasher, chi: Bytes, m: map<Node, Bytes>, d: nat, gammas: seq<Node>,
                                            tmp: map<Node, Bytes>)
    requires 1 <= d <= 64 && Root() in m
    requires forall j :: 0 <= j < |gammas| ==> gammas[j].len == d && WellFormed(gammas[j])
    requires HonestBelow(h, chi, d, m) && HoldsPaths(gammas, m) && m[Root()] == Label(h, chi, d, Root())
    requires HonestBelow(h, chi, d, tmp) && m.Keys <= tmp.Keys
    ensures VerifyFixedLoop(h, chi, m, d, m[Root()], gammas, tmp)
    decreases |gammas|
  {
    if |gammas| > 0 {
      var tmp1 := FixedGammaPasses(h, chi, m, d, gammas[0], tmp);
      TailGammas(gammas, m, d);
      FixedLoopAccepts(h, chi, m, d, gammas[1..], tmp1);
    }
  }

  lemma FixedGammaPasses(h: Hasher, chi: Bytes, m: map<Node, Bytes>, d: nat, g: Node, tmp: map<Node, Bytes>)
    returns (tmp1: map<Node, Bytes>)
    requires 1 <= d <= 64 && g.len == d && WellFormed(g)
    requires HonestBelow(h, chi, d, m) && g in m && SiblingsIn(g, m)
    requires HonestBelow(h, chi, d, tmp) && m.Keys <= tmp.Keys
    ensures LabelChecks(h, chi, m, d, g)
    ensures Commit(h, chi, g, d, tmp) == Some(tmp1) && RootTrue(h, chi, d, tmp1)
    ensures HonestBelow(h, chi, d, tmp1) && m.Keys <= tmp1.Keys
  {
    GammaChecks(h, chi, d, m, g);
    SiblingPair(g, 0);
    CommitHonest(h, chi, d, g, d, tmp);
    tmp1 := Commit(h, chi, g, d, tmp).value;
  }

  /** The corrected loop rejects a proof whose root entry is not the root
      recomputed from the first gamma's path. */
  lemma FixedLoopRejects(h: Hasher, chi: Bytes, m: map<Node, Bytes>, d: nat, phi: Bytes, gammas: seq<Node>,
                         tmp: map<Node, Bytes>)
    requires 1 <= d <= 64 && |gammas| > 0
    requires forall j :: 0 <= j < |gammas| ==> gammas[j].len == d && WellFormed(gammas[j])
    requires HonestBelow(h, chi, d, m) && HoldsPaths(gammas, m)
    requires HonestBelow(h, chi, d, tmp) && m.Keys <= tmp.Keys
    requires phi != Label(h, chi, d, Root())
    ensures !VerifyFixedLoop(h, chi, m, d, phi, gammas, tmp)
  {
    var g := gammas[0];
    SiblingPair(g, 0);
    CommitHonest(h, chi, d, g, d, tmp);
  }

  /** The as-written verifier accepts any proof that holds every gamma's
      path with true labels below the root, whatever its root entry. */
  lemma VerifyAcceptsHonest(h: Hasher, key: KeyHash, p: Proof, puzzle: Bytes, d: nat)
    requires 1 <= d <= 64 && Root() in p.entries
    requires HonestBelow(h, Chi(key, puzzle), d, p.entries)
    requires HoldsPaths(GenGammas(key, puzzle, d), p.entries)
    ensures Verify(h, key, p, puzzle, d) == Some(true)
  {
    var m := p.entries;
    LoopAccepts(h, Chi(key, puzzle), m, d, GenGammas(key, puzzle, d), m);
  }

  /** The corrected verifier accepts such a proof exactly when its root entry
      is the true root label. */
  lemma VerifyFixedOnHonest(h: Hasher, key: KeyHash, p: Proof, puzzle: Bytes, d: nat)
    requires 1 <= d <= 64 && Root() in p.entries
    requires HonestBelow(h, Chi(key, puzzle), d, p.entries)
    requires HoldsPaths(GenGammas(key, puzzle, d), p.entries)
    ensures VerifyFixed(h, key, p, puzzle, d) <==> p.entries[Root()] == Label(h, Chi(key, puzzle), d, Root())
  {
    var m := p.entries;
    var chi := Chi(key, puzzle);
    if m[Root()] == Label(h, chi, d, Root()) {
      FixedLoopAccepts(h, chi, m, d, GenGammas(key, puzzle, d), m);
    } else {
      FixedLoopRejects(h, chi, m, d, m[Root()], GenGammas(key, puzzle, d), m);
    }
  }

  lemma GeneratedHonest(h: Hasher, key: KeyHash, puzzle: Bytes, d: nat)
    requires 1 <= d <= 64
    ensures var m := Generate(h, key, puzzle, d).entries;
      Root() in m && m[Root()] == Label(h, Chi(key, puzzle), d, Root())
      && HonestBelow(h, Chi(key, puzzle), d, m)
      && HoldsPaths(GenGammas(key, puzzle, d), m)
  {
    var m := Generate(h, key, puzzle, d).entries;
    ReservedHoldsPaths(GenGammas(key, puzzle, d), m);
  }

  /** A generated proof is accepted, by the verifier as written and by the
      corrected one. */
  lemma GenerateThenVerify(h: Hasher, key: KeyHash, puzzle: Bytes, d: nat)
    requires 1 <= d <= 64
    ensures Verify(h, key, Generate(h, key, puzzle, d), puzzle, d) == Some(true)
    ensures VerifyFixed(h, key, Generate(h, key, puzzle, d), puzzle, d)
  {
    var p := Generate(h, key, puzzle, d);
    GeneratedHonest(h, key, puzzle, d);
    VerifyAcceptsHonest(h, key, p, puzzle, d);
    VerifyFixedOnHonest(h, key, p, puzzle, d);
  }

  /** The commitment check as written compares the root entry with itself:
      a generated proof whose root label is replaced by any wrong value is
      still accepted. The corrected verifier rejects it. */
  lemma TamperedRootAccepted(h: Hasher, key: KeyHash, puzzle: Bytes, d: nat, x: Bytes)
    requires 1 <= d <= 64
    requires x != Label(h, Chi(key, puzzle), d, Root())
    ensures var q := Proof(Generate(h, key, puzzle, d).entries[Root() := x]);
      Verify(h, key, q, puzzle, d) == Some(true) && !VerifyFixed(h, key, q, puzzle, d)
  {
    var m0 := Generate(h, key, puzzle, d).entries;
    GeneratedHonest(h, key, puzzle, d);
    var q := Proof(m0[Root() := x]);
    TamperKeepsPaths(h, Chi(key, puzzle), d, GenGammas(key, puzzle, d), m0, x);
    VerifyAcceptsHonest(h, key, q, puzzle, d);
    VerifyFixedOnHonest(h, key, q, puzzle, d);
  }

  lemma TamperKeepsPaths(h: Hasher, chi: Bytes, d: nat, gammas: seq<Node>, m: map<Node, Bytes>, x: Bytes)
    requires d <= 64 && Root() in m
    requires HonestBelow(h, chi, d, m) && HoldsPaths(gammas, m)
    ensures HonestBelow(h, chi, d, m[Root() := x]) && HoldsPaths(gammas, m[Root() := x])
  {
  }

  /** order lists every key of m once (the map's iteration order). */
  predicate Enumerates(order: seq<Node>, m: map<Node, Bytes>)
  {
    (forall j :: 0 <= j < |order| ==> order[j] in m)
    && (forall k :: k in m ==> k in order)
    && (forall j, j' :: 0 <= j < j' < |order| ==> order[j] != order[j'])
  }

  /** `Proof::to_bytes`: for each entry in iteration order, the node's 8
      bytes then its 32-byte label (the assertion on the label length is a
      precondition). */
  function ProofToBytes(p: Proof, order: seq<Node>): (r: Bytes)
    requires forall j :: 0 <= j < |order| ==> order[j] in p.entries && |p.entries[order[j]]| == 32
    ensures |r| == 40 * |order|
    decreases |order|
  {
    if |order| == 0 then []
    else
      var o := order[0];
      var rest := ProofToBytes(p, order[1..]);
      ToBytes(o) + p.entries[o] + rest
  }

  /** Unit j of the bytes is the encoding of the j-th node followed by its
      label. */
  lemma {:induction false} ProofToBytesUnits(p: Proof, order: seq<Node>)
    requires forall j :: 0 <= j < |order| ==> order[j] in p.entries && |p.entries[order[j]]| == 32
    ensures forall j :: 0 <= j < |order| ==>
      ProofToBytes(p, order)[40 * j .. 40 * j + 8] == ToBytes(order[j])
      && ProofToBytes(p, order)[40 * j + 8 .. 40 * j + 40] == p.entries[order[j]]
    decreases |order|
  {
    if |order| > 0 {
      var r, rest := ProofToBytes(p, order), ProofToBytes(p, order[1..]);
      ProofToBytesUnits(p, order[1..]);
      forall j | 0 <= j < |order|
        ensures r[40 * j .. 40 * j + 8] == ToBytes(order[j]) && r[40 * j + 8 .. 40 * j + 40] == p.entries[order[j]]
      {
        if j == 0 {
          assert r[..8] == ToBytes(order[0]);
        } else {
          UnitOfRest(r, rest, j);
          assert order[1..][j - 1] == order[j];
        }
      }
    }
  }

  /** A slice of r[40..] is the same slice of r, shifted by 40. */
  lemma SliceOfTail(r: Bytes, rest: Bytes, a: nat, b: nat)
    requires |r| == 40 + |rest| && r[40..] == rest && a <= b <= |rest|
    ensures r[40 + a .. 40 + b] == rest[a..b]
  {
    assert r[40 + a .. 40 + b] == r[40..][a..b];
  }

  lemma UnitOfRest(r: Bytes, rest: Bytes, j: nat)
    requires |r| == 40 + |rest| && r[40..] == rest && 1 <= j && 40 * j <= |rest|
    ensures r[40 * j .. 40 * j + 8] == rest[40 * (j - 1) .. 40 * (j - 1) + 8]
    ensures r[40 * j + 8 .. 40 * j + 40] == rest[40 * (j - 1) + 8 .. 40 * (j - 1) + 40]
  {
    var u := 40 * (j - 1);
    SliceOfTail(r, rest, u, u + 8);
    SliceOfTail(r, rest, u + 8, u + 40);
  }

  /** The `from_bytes` loop: each 40-byte unit is a node and its label,
      inserted in order (a later duplicate replaces an earlier one). It is
      only run on whole units; a shorter tail would be ignored. */
  function ParseEntries(bts: Bytes, acc: map<Node, Bytes>): (m: map<Node, Bytes>)
    ensures forall k :: k in m ==> (k in acc && m[k] == acc[k]) || Parsed(k, m[k])
    decreases |bts|
  {
    if |bts| < 40 then acc
    else
      var nd := FromBytes(bts[..8]).value;
      ParseEntries(bts[40..], acc[nd := bts[8..40]])
  }

  /** A node and label as `from_bytes` produces them. */
  predicate Parsed(k: Node, lab: Bytes)
  {
    |lab| == 32 && k.bv < Pow2(56) && k.len < 256
  }

  /** `Proof::from_bytes`: fails exactly when the length is not a multiple of
      40; every parsed label is 32 bytes and every parsed node fits the
      8-byte encoding. */
  function ProofFromBytes(bts: Bytes): (r: Option<Proof>)
    ensures r.None? <==> |bts| % 40 != 0
    ensures r.Some? ==> forall k :: k in r.value.entries ==> Parsed(k, r.value.entries[k])
  {
    if |bts| % 40 != 0 then None
    else Some(Proof(ParseEntries(bts, map[])))
  }

  /** The entries of p whose nodes occur in order. */
  function Restrict(p: Proof, order: seq<Node>): map<Node, Bytes>
  {
    map k | k in p.entries && k in order :: p.entries[k]
  }

  /** The bytes of a nonempty list of entries start with its first unit. */
  lemma ParseStep(p: Proof, order: seq<Node>, acc: map<Node, Bytes>)
    requires |order| > 0
    requires forall j :: 0 <= j < |order| ==> order[j] in p.entries && |p.entries[order[j]]| == 32
    requires order[0].bv < Pow2(56) && order[0].len < 256
    ensures ParseEntries(ProofToBytes(p, order), acc)
         == ParseEntries(ProofToBytes(p, order[1..]), acc[order[0] := p.entries[order[0]]])
  {
    FirstUnit(p, order);
    ParseUnit(ProofToBytes(p, order), acc, order[0], p.entries[order[0]], ProofToBytes(p, order[1..]));
  }

  lemma FirstUnit(p: Proof, order: seq<Node>)
    requires |order| > 0
    requires forall j :: 0 <= j < |order| ==> order[j] in p.entries && |p.entries[order[j]]| == 32
    ensures |ProofToBytes(p, order)| >= 40
    ensures ProofToBytes(p, order)[..8] == ToBytes(order[0])
    ensures ProofToBytes(p, order)[8..40] == p.entries[order[0]]
    ensures ProofToBytes(p, order)[40..] == ProofToBytes(p, order[1..])
  {
    var bts, rest := ProofToBytes(p, order), ProofToBytes(p, order[1..]);
    var code, lab := ToBytes(order[0]), p.entries[order[0]];
    assert bts == code + lab + rest;
  }

  /** Parsing consumes one unit: its node and label go into the map. */
  lemma ParseUnit(bts: Bytes, acc: map<Node, Bytes>, o: Node, lab: Bytes, rest: Bytes)
    requires |bts| >= 40 && o.bv < Pow2(56) && o.len < 256
    requires bts[..8] == ToBytes(o) && bts[8..40] == lab && bts[40..] == rest
    ensures ParseEntries(bts, acc) == ParseEntries(rest, acc[o := lab])
  {
    NodeCodecRoundTrip(o);
  }

  lemma RestrictStep(p: Proof, order: seq<Node>, acc: map<Node, Bytes>)
    requires |order| > 0 && order[0] in p.entries
    ensures acc[order[0] := p.entries[order[0]]] + Restrict(p, order[1..]) == acc + Restrict(p, order)
  {
    var o := order[0];
    var lhs := acc[o := p.entries[o]] + Restrict(p, order[1..]);
    var rhs := acc + Restrict(p, order);
    assert forall k :: k in order <==> k == o || k in order[1..];
    assert lhs.Keys == rhs.Keys;
  }

  /** Parsing the bytes of some entries adds exactly those entries. */
  lemma {:induction false} ParseOfEntries(p: Proof, order: seq<Node>, acc: map<Node, Bytes>)
    requires forall j :: 0 <= j < |order| ==> order[j] in p.entries && |p.entries[order[j]]| == 32
    requires forall j :: 0 <= j < |order| ==> order[j].bv < Pow2(56) && order[j].len < 256
    ensures ParseEntries(ProofToBytes(p, order), acc) == acc + Restrict(p, order)
    decreases |order|
  {
    if |order| == 0 {
      assert Restrict(p, order) == map[];
    } else {
      ParseStep(p, order, acc);
      EncodableTail(p, order);
      ParseOfEntries(p, order[1..], acc[order[0] := p.entries[order[0]]]);
      RestrictStep(p, order, acc);
    }
  }

  lemma EncodableTail(p: Proof, order: seq<Node>)
    requires |order| > 0
    requires forall j :: 0 <= j < |order| ==> order[j] in p.entries && |p.entries[order[j]]| == 32
    requires forall j :: 0 <= j < |order| ==> order[j].bv < Pow2(56) && order[j].len < 256
    ensures forall j :: 0 <= j < |order[1..]| ==> order[1..][j] in p.entries && |p.entries[order[1..][j]]| == 32
    ensures forall j :: 0 <= j < |order[1..]| ==> order[1..][j].bv < Pow2(56) && order[1..][j].len < 256
  {
    forall j | 0 <= j < |order[1..]|
      ensures order[1..][j] == order[j + 1]
    {
    }
  }

  /** Decoding the bytes of a proof gives the proof back, when every label is
      32 bytes and every node fits the 8-byte encoding. */
  lemma ProofCodecRoundTrip(p: Proof, order: seq<Node>)
    requires Enumerates(order, p.entries)
    requires forall k :: k in p.entries ==> Parsed(k, p.entries[k])
    ensures forall j :: 0 <= j < |order| ==> order[j] in p.entries && |p.entries[order[j]]| == 32
    ensures ProofFromBytes(ProofToBytes(p, order)) == Some(p)
  {
    assert forall j :: 0 <= j < |order| ==> order[j] in p.entries && Parsed(order[j], p.entries[order[j]]);
    var bts := ProofToBytes(p, order);
    DivModUnique(|bts|, 40, |order|, 0);
    ParseOfEntries(p, order, map[]);
    RestrictAll(p, order);
    assert ProofFromBytes(bts) == Some(Proof(ParseEntries(bts, map[])));
  }

  lemma RestrictAll(p: Proof, order: seq<Node>)
    requires forall k :: k in p.entries ==> k in order
    ensures map[] + Restrict(p, order) == p.entries
  {
    assert Restrict(p, order).Keys == p.entries.Keys;
  }
}
