/** The world state of the chain and its block-level transitions
    (src/state.rs): the network id byte, the 233-byte partial encoding,
    sealing (fee-multiplier movement and the proposer's reward coin), the
    block header, `next_state` and `apply_block`.

    The sparse Merkle trees are modelled as their contents (a `map`) plus
    a root function supplied by the environment; the pools and stakes
    trees, whose contents nothing here inspects, are modelled by their
    roots alone. The modules state.rs calls into but which are not part of
    this model (`preseal_melmint`, the transaction-batch applier,
    `remove_stale`, `CoinID::proposer_reward`, `Header::hash`) are
    function-typed fields of `Env`. */
module Ledger {
  import opened Wrappers
  import opened Bits
  import opened Encoding
  import opened Units

  /** `NetID`, represented on the wire by one byte. */
  datatype NetID = Testnet | Mainnet

  function NetByte(n: NetID): byte
  {
    match n
    case Testnet => 0x01
    case Mainnet => 0xff
  }

  /** `NetID::try_from(u8)`: only 0x01 and 0xff name a network. */
  function NetFromByte(b: byte): (r: Option<NetID>)
    ensures r.Some? <==> b == 0x01 || b == 0xff
  {
    if b == 0x01 then Some(Testnet) else if b == 0xff then Some(Mainnet) else None
  }

  /** The network byte codec is a bijection between `NetID` and {0x01, 0xff}. */
  lemma NetIdCodec(n: NetID, b: byte)
    ensures NetFromByte(NetByte(n)) == Some(n)
    ensures NetFromByte(b) == Some(n) ==> NetByte(n) == b
  {
  }

  type i8 = x: int | -128 <= x < 128

  datatype ProposerAction = ProposerAction(feeMultiplierDelta: i8, rewardDest: Digest)

  datatype Denom = Mel | OtherDenom(name: Bytes)

  datatype CoinData = CoinData(covhash: Digest, value: u128, denom: Denom, additionalData: Bytes)

  datatype CoinDataHeight = CoinDataHeight(coinData: CoinData, height: u64)

  datatype CoinID = CoinID(txhash: Digest, index: byte)

  /** A transaction; its contents matter only to the batch applier. */
  datatype Transaction = Transaction(encoded: Bytes)

  datatype Header = Header(
    network: NetID,
    previous: Digest,
    height: u64,
    historyHash: Digest,
    coinsHash: Digest,
    transactionsHash: Digest,
    feePool: u128,
    feeMultiplier: u128,
    doscSpeed: u128,
    poolsHash: Digest,
    stakesHash: Digest)

  /** The parts of the state that the transaction applier and melmint act on. */
  datatype Ledger = Ledger(
    coins: map<CoinID, CoinDataHeight>,
    transactions: map<Digest, Transaction>,
    feePool: u128,
    feeMultiplier: u128,
    tips: u128,
    doscSpeed: u128,
    poolsRoot: Digest,
    stakesRoot: Digest)

  datatype State = State(network: NetID, height: u64, history: map<u64, Header>, ledger: Ledger)

  datatype SealedState = SealedState(state: State, action: Option<ProposerAction>)

  /** A block; the transaction set is given in the order it is iterated. */
  datatype Block = Block(header: Header, transactions: seq<Transaction>, proposerAction: Option<ProposerAction>)

  datatype StateError =
    | MalformedTx
    | NonexistentCoin(coin: CoinID)
    | UnbalancedInOut
    | InsufficientFees(fee: u128)
    | NonexistentScript(address: Digest)
    | ViolatesScript(address: Digest)
    | InvalidMelPoW
    | BidWrongTime
    | WrongHeader
    | CoinLocked
    | DuplicateTx

  /** The code state.rs relies on without defining it, and its constants. */
  datatype Env = Env(
    historyRoot: map<u64, Header> -> Digest,
    coinsRoot: map<CoinID, CoinDataHeight> -> Digest,
    transactionsRoot: map<Digest, Transaction> -> Digest,
    headerHash: Header -> Digest,
    proposerReward: u64 -> CoinID,
    presealMelmint: (u64, Ledger) -> Ledger,
    applyBatch: (u64, Ledger, seq<Transaction>) -> Result<Ledger, StateError>,
    removeStale: (Digest, nat) -> Digest,
    stakeEpoch: nat,
    tip901Height: nat)

  // ---------------------------------------------------------------------
  // Partial encoding
  // ---------------------------------------------------------------------

  /** What the partial encoding records: the scalars and the five roots. */
  datatype Partial = Partial(
    network: NetID,
    height: u64,
    historyRoot: Digest,
    coinsRoot: Digest,
    transactionsRoot: Digest,
    feePool: u128,
    feeMultiplier: u128,
    tips: u128,
    doscSpeed: u128,
    poolsRoot: Digest,
    stakesRoot: Digest)

  const PARTIAL_LENGTH: nat := 233

  function Summary(env: Env, s: State): Partial
  {
    Partial(s.network, s.height, env.historyRoot(s.history), env.coinsRoot(s.ledger.coins),
            env.transactionsRoot(s.ledger.transactions), s.ledger.feePool, s.ledger.feeMultiplier,
            s.ledger.tips, s.ledger.doscSpeed, s.ledger.poolsRoot, s.ledger.stakesRoot)
  }

  /** The 233-byte layout: network byte, big-endian height, three roots,
      four big-endian 128-bit scalars, two roots. */
  function EncodePartial(p: Partial): (r: Bytes)
    ensures |r| == PARTIAL_LENGTH
    ensures r[0] == NetByte(p.network)
    ensures r[1..9] == ToBE(p.height, 8)
    ensures r[9..41] == p.historyRoot && r[41..73] == p.coinsRoot && r[73..105] == p.transactionsRoot
    ensures r[105..121] == ToBE(p.feePool, 16) && r[121..137] == ToBE(p.feeMultiplier, 16)
    ensures r[137..153] == ToBE(p.tips, 16) && r[153..169] == ToBE(p.doscSpeed, 16)
    ensures r[169..201] == p.poolsRoot && r[201..233] == p.stakesRoot
  {
    var head := [NetByte(p.network)] + ToBE(p.height, 8) + p.historyRoot + p.coinsRoot + p.transactionsRoot;
    var scalars := ToBE(p.feePool, 16) + ToBE(p.feeMultiplier, 16) + ToBE(p.tips, 16) + ToBE(p.doscSpeed, 16);
    var tail := p.poolsRoot + p.stakesRoot;
    assert |head| == 105 && |scalars| == 64;
    head + scalars + tail
  }

  /** `State::partial_encoding`. */
  function PartialEncoding(env: Env, s: State): (r: Bytes)
    ensures |r| == PARTIAL_LENGTH
  {
    EncodePartial(Summary(env, s))
  }

  lemma Pow2Of128()
    ensures Pow2(128) == U128_LIMIT
  {
    Pow2Add(64, 64);
    Pow2Of56And64();
  }

  /** `u64::from_be_bytes` on an 8-byte read. */
  function ReadU64(s: Bytes): (x: u64)
    requires |s| == 8
    ensures ToBE(x, 8) == s
  {
    FromBEBound(s);
    Pow2Of56And64();
    BEInverse(s);
    FromBE(s)
  }

  /** `u128::from_be_bytes` on a 16-byte read. */
  function ReadU128(s: Bytes): (x: u128)
    requires |s| == 16
    ensures ToBE(x, 16) == s
  {
    FromBEBound(s);
    Pow2Of128();
    BEInverse(s);
    FromBE(s)
  }

  /** `State::from_partial_encoding_infallible`, up to opening the trees
      from their roots: None where the Rust code panics (a short read, or a
      byte that names no network). Bytes after the 233rd are not read. */
  function FromPartialEncoding(bts: Bytes): (r: Option<Partial>)
    ensures r.None? <==> |bts| < PARTIAL_LENGTH || NetFromByte(bts[0]).None?
  {
    if |bts| < PARTIAL_LENGTH then None
    else match NetFromByte(bts[0])
      case None => None
      case Some(net) =>
        Some(Partial(net, ReadU64(bts[1..9]), bts[9..41], bts[41..73], bts[73..105],
                     ReadU128(bts[105..121]), ReadU128(bts[121..137]), ReadU128(bts[137..153]),
                     ReadU128(bts[153..169]), bts[169..201], bts[201..233]))
  }

  lemma ReadU64OfBE(x: u64)
    ensures ReadU64(ToBE(x, 8)) == x
  {
    Pow2Of56And64();
    BERoundTrip(x, 8);
  }

  lemma ReadU128OfBE(x: u128)
    ensures ReadU128(ToBE(x, 16)) == x
  {
    Pow2Of128();
    BERoundTrip(x, 16);
  }

  /** Decoding the partial encoding recovers the network, the height, the
      four scalars and the five roots. */
  lemma PartialRoundTrip(env: Env, s: State)
    ensures FromPartialEncoding(PartialEncoding(env, s)) == Some(Summary(env, s))
  {
    var p := Summary(env, s);
    var r := EncodePartial(p);
    NetIdCodec(p.network, r[0]);
    ReadU64OfBE(p.height);
    ReadU128OfBE(p.feePool);
    ReadU128OfBE(p.feeMultiplier);
    ReadU128OfBE(p.tips);
    ReadU128OfBE(p.doscSpeed);
  }

  /** Whatever decodes was the partial encoding of what it decodes to
      (followed by bytes the decoder ignores). */
  lemma PartialDecodeInverse(bts: Bytes)
    requires FromPartialEncoding(bts).Some?
    ensures EncodePartial(FromPartialEncoding(bts).value) == bts[..PARTIAL_LENGTH]
  {
    var p := FromPartialEncoding(bts).value;
    var r := EncodePartial(p);
    NetIdCodec(p.network, bts[0]);
    assert forall i :: 0 <= i < PARTIAL_LENGTH ==> r[i] == bts[i] by {
      forall i | 0 <= i < PARTIAL_LENGTH
        ensures r[i] == bts[i]
      {
        SliceAgree(r, bts, i);
      }
    }
  }

  /** Position i of the encoding lies in one of its fields, and each field
      of the encoding equals the same slice of the decoded bytes. */
  lemma SliceAgree(r: Bytes, bts: Bytes, i: nat)
    requires FromPartialEncoding(bts).Some? && r == EncodePartial(FromPartialEncoding(bts).value)
    requires i < PARTIAL_LENGTH
    ensures r[i] == bts[i]
  {
    if i == 0 {
    } else if i < 9 {
      assert r[1..9][i - 1] == bts[1..9][i - 1];
    } else if i < 41 {
      assert r[9..41][i - 9] == bts[9..41][i - 9];
    } else if i < 73 {
      assert r[41..73][i - 41] == bts[41..73][i - 41];
    } else if i < 105 {
      assert r[73..105][i - 73] == bts[73..105][i - 73];
    } else if i < 121 {
      assert r[105..121][i - 105] == bts[105..121][i - 105];
    } else if i < 137 {
      assert r[121..137][i - 121] == bts[121..137][i - 121];
    } else if i < 153 {
      assert r[137..153][i - 137] == bts[137..153][i - 137];
    } else if i < 169 {
      assert r[153..169][i - 153] == bts[153..169][i - 153];
    } else if i < 201 {
      assert r[169..201][i - 169] == bts[169..201][i - 169];
    } else {
      assert r[201..233][i - 201] == bts[201..233][i - 201];
    }
  }

  // ---------------------------------------------------------------------
  // Fee-multiplier movement
  // ---------------------------------------------------------------------

  const I64_HALF: nat := 0x8000_0000_0000_0000

  /** Division truncating toward zero, as Rust's `/` on signed integers. */
  function TruncDiv(a: int, b: nat): (q: int)
    requires b > 0
    ensures a >= 0 ==> 0 <= q && q * b <= a < (q + 1) * b
    ensures a < 0 ==> q <= 0 && (1 - q) * b > -a >= -q * b
  {
    if a >= 0 then DivBracket(a, b); a / b
    else DivBracket(-a, b); -((-a) / b)
  }

  /** The quotient brackets the dividend. */
  lemma DivBracket(x: nat, b: nat)
    requires b > 0
    ensures 0 <= x / b && (x / b) * b <= x < (x / b + 1) * b
  {
    DivModDecompose(x, b);
    assert (x / b + 1) * b == (x / b) * b + b;
  }

  /** The largest permitted move: `fm >> 7`, at least 2 from TIP 901 on. */
  function MaxMovement(fm: nat, after901: bool): nat
  {
    if after901 && fm / 128 < 2 then 2 else fm / 128
  }

  /** The move a delta asks for: `max_movement * delta / 128`. */
  function ScaledMovement(fm: nat, delta: i8, after901: bool): int
  {
    TruncDiv(MaxMovement(fm, after901) * delta, 128)
  }

  /** A delta of at most 128 in magnitude scales to at most the maximum
      movement, with the delta's sign. */
  lemma ScaledMovementBound(fm: nat, delta: i8, after901: bool)
    ensures var m := ScaledMovement(fm, delta, after901);
      && -(MaxMovement(fm, after901) as int) <= m <= MaxMovement(fm, after901)
      && (delta >= 0 ==> m >= 0) && (delta <= 0 ==> m <= 0)
  {
    var mm := MaxMovement(fm, after901);
    var p := mm * delta;
    if delta >= 0 {
      MulLe(delta, 128, mm);
      assert p == delta * mm;
    } else {
      MulLe(-(delta as int), 128, mm);
      assert -p == -(delta as int) * mm;
    }
    TruncDivBound(p, mm);
  }

  /** Truncating division by 128 keeps the sign and maps [-128 mm, 128 mm]
      into [-mm, mm]. */
  lemma TruncDivBound(p: int, mm: nat)
    requires -128 * mm <= p <= 128 * mm
    ensures -(mm as int) <= TruncDiv(p, 128) <= mm
    ensures p >= 0 ==> TruncDiv(p, 128) >= 0
    ensures p <= 0 ==> TruncDiv(p, 128) <= 0
  {
    if p >= 0 {
      QuotientBound(p, mm);
    } else {
      QuotientBound(-p, mm);
    }
  }

  lemma QuotientBound(p: nat, mm: nat)
    requires p <= 128 * mm
    ensures p / 128 <= mm
  {
  }

  /** The fee multiplier after the proposer's delta, in unbounded
      arithmetic and kept within `u128`. */
  function MoveFeeMultiplier(fm: u128, delta: i8, after901: bool): (r: u128)
    ensures delta >= 0 ==> fm <= r
    ensures delta <= 0 ==> r <= fm
    ensures -(MaxMovement(fm, after901) as int) <= r - fm <= MaxMovement(fm, after901)
    ensures 0 <= fm + ScaledMovement(fm, delta, after901) < U128_LIMIT ==>
              r == fm + ScaledMovement(fm, delta, after901)
  {
    ScaledMovementBound(fm, delta, after901);
    var target := fm + ScaledMovement(fm, delta, after901);
    if target < 0 then 0 else if target >= U128_LIMIT then U128_LIMIT - 1 else target
  }

  /** Rust's `as i64` on an unsigned value: the low 64 bits, two's complement. */
  function AsI64(x: nat): (r: int)
    ensures -(I64_HALF as int) <= r < I64_HALF
    ensures x < I64_HALF ==> r == x
    ensures (x - r) % U64_LIMIT == 0
  {
    var w := x % U64_LIMIT;
    LowWordCongruent(x);
    if w < I64_HALF then w else w - U64_LIMIT
  }

  /** x differs from its low 64 bits, and from those bits less 2^64, by a
      multiple of 2^64. */
  lemma LowWordCongruent(x: nat)
    ensures (x - x % U64_LIMIT) % U64_LIMIT == 0
    ensures (x - (x % U64_LIMIT - U64_LIMIT)) % U64_LIMIT == 0
  {
    var q := x / U64_LIMIT;
    DivModDecompose(x, U64_LIMIT);
    MultipleMod(q, U64_LIMIT);
    MultipleMod(q + 1, U64_LIMIT);
    assert x - (x % U64_LIMIT - U64_LIMIT) == (q + 1) * U64_LIMIT;
  }

  /** A multiple of d leaves no remainder. */
  lemma MultipleMod(k: nat, d: nat)
    requires d > 0
    ensures (k * d) % d == 0
  {
    DivModUnique(k * d, d, k, 0);
  }

  /** The fee-multiplier step of `seal` as written, with 64-bit signed
      intermediate values; None where a debug build panics (the `i64`
      product overflows, or the `u128` result overflows or underflows). */
  function MoveFeeMultiplierAsWritten(fm: u128, delta: i8, after901: bool): (r: Option<u128>)
    ensures fm / 128 < I64_HALF ==>
              (r.Some? <==> && -(I64_HALF as int) <= MaxMovement(fm, after901) * delta < I64_HALF
                            && 0 <= fm + ScaledMovement(fm, delta, after901) < U128_LIMIT)
    ensures r.Some? && fm / 128 < I64_HALF && delta >= 0 ==> fm <= r.value
    ensures r.Some? && fm / 128 < I64_HALF && delta <= 0 ==> r.value <= fm
  {
    ScaledMovementBound(fm, delta, after901);
    var shifted := AsI64(fm / 128);
    var maxMovement := if after901 && shifted < 2 then 2 else shifted;
    var product := maxMovement * delta;
    if !(-(I64_HALF as int) <= product < I64_HALF) then None
    else
      var scaled := TruncDiv(product, 128);
      if 0 <= fm + scaled < U128_LIMIT then Some(fm + scaled) else None
  }

  /** Where the shifted multiplier fits in an `i64` and the code as written
      does not panic, it agrees with the unbounded step. */
  lemma AsWrittenAgrees(fm: u128, delta: i8, after901: bool)
    requires fm / 128 < I64_HALF
    requires MoveFeeMultiplierAsWritten(fm, delta, after901).Some?
    ensures MoveFeeMultiplierAsWritten(fm, delta, after901).value == MoveFeeMultiplier(fm, delta, after901)
  {
  }

  /** From TIP 901 on, a fee multiplier below 2 moved down by the minimum
      movement of 2 underflows: the code as written panics, where the
      unbounded step stops at zero. */
  lemma FeeMultiplierUnderflow()
    ensures MoveFeeMultiplierAsWritten(1, -128, true) == None
    ensures MoveFeeMultiplier(1, -128, true) == 0
  {
    assert AsI64(0) == 0;
    assert TruncDiv(-256, 128) == -2;
  }

  /** A fee multiplier of 2^70 shifts to 2^63, which `as i64` turns into
      -2^63: a positive delta then lowers the multiplier. */
  lemma FeeMultiplierTruncation()
    ensures MoveFeeMultiplierAsWritten(0x40_0000_0000_0000_0000, 1, false)
              == Some(0x40_0000_0000_0000_0000 - 0x100_0000_0000_0000)
    ensures MoveFeeMultiplier(0x40_0000_0000_0000_0000, 1, false) >= 0x40_0000_0000_0000_0000
  {
    var fm: u128 := 0x40_0000_0000_0000_0000;
    assert fm / 128 == I64_HALF;
    assert AsI64(I64_HALF) == -(I64_HALF as int);
    assert TruncDiv(-(I64_HALF as int), 128) == -0x100_0000_0000_0000;
  }

  // ---------------------------------------------------------------------
  // Sealing
  // ---------------------------------------------------------------------

  /** The proposer's cut of the fee pool: `fee_pool >> 16`. */
  function BaseFees(feePool: nat): nat
  {
    feePool / 65536
  }

  /** The reward coin's value fits in `u128` (otherwise the addition panics). */
  predicate RewardFits(l: Ledger)
  {
    BaseFees(l.feePool) + l.tips < U128_LIMIT
  }

  function Presealed(env: Env, s: State): Ledger
  {
    env.presealMelmint(s.height, s.ledger)
  }

  /** The proposer action's effect on a ledger already through melmint:
      move the fee multiplier, pay the base fees and tips into a new Mel
      coin at the proposer-reward id. */
  function ApplyAction(env: Env, height: u64, l: Ledger, a: ProposerAction): (r: Ledger)
    requires RewardFits(l) && MultiplierMovable(l, a, height >= env.tip901Height)
    ensures var id := env.proposerReward(height);
      && id in r.coins
      && r.coins[id] == CoinDataHeight(CoinData(a.rewardDest, BaseFees(l.feePool) + l.tips, Mel, []), height)
      && r.feePool + r.coins[id].coinData.value == l.feePool + l.tips
      && r.tips == 0
      && (forall c :: c != id ==> (c in r.coins <==> c in l.coins))
      && (forall c :: c != id && c in l.coins ==> r.coins[c] == l.coins[c])
    ensures r.feeMultiplier == MoveFeeMultiplier(l.feeMultiplier, a.feeMultiplierDelta, height >= env.tip901Height)
    ensures Some(r.feeMultiplier)
              == MoveFeeMultiplierAsWritten(l.feeMultiplier, a.feeMultiplierDelta, height >= env.tip901Height)
    ensures r.transactions == l.transactions && r.doscSpeed == l.doscSpeed
    ensures r.poolsRoot == l.poolsRoot && r.stakesRoot == l.stakesRoot
  {
    var after901 := height >= env.tip901Height;
    AsWrittenAgrees(l.feeMultiplier, a.feeMultiplierDelta, after901);
    var base := BaseFees(l.feePool);
    var coin := CoinDataHeight(CoinData(a.rewardDest, base + l.tips, Mel, []), height);
    l.(feeMultiplier := MoveFeeMultiplier(l.feeMultiplier, a.feeMultiplierDelta, after901),
       feePool := l.feePool - base,
       tips := 0,
       coins := l.coins[env.proposerReward(height) := coin])
  }

  /** The fee-multiplier step as written does not panic, and `fm >> 7`
      fits in an `i64`, so that it computes the corrected step. */
  predicate MultiplierMovable(l: Ledger, a: ProposerAction, after901: bool)
  {
    && l.feeMultiplier / 128 < I64_HALF
    && MoveFeeMultiplierAsWritten(l.feeMultiplier, a.feeMultiplierDelta, after901).Some?
  }

  /** `seal`'s requirement: with an action, the reward coin must fit, the
      fee-multiplier step must not panic, and fee_multiplier >> 7 must fit
      in an `i64`. */
  predicate Sealable(env: Env, s: State, action: Option<ProposerAction>)
  {
    action.Some? ==>
      && RewardFits(Presealed(env, s))
      && MultiplierMovable(Presealed(env, s), action.value, s.height >= env.tip901Height)
  }

  /** `State::seal`: run melmint, then apply the proposer action if any. */
  function Seal(env: Env, s: State, action: Option<ProposerAction>): (r: SealedState)
    requires Sealable(env, s, action)
    ensures r.action == action
    ensures r.state.network == s.network && r.state.height == s.height && r.state.history == s.history
    ensures action.None? ==> r.state.ledger == Presealed(env, s)
  {
    var l := Presealed(env, s);
    match action
    case None => SealedState(s.(ledger := l), None)
    case Some(a) => SealedState(s.(ledger := ApplyAction(env, s.height, l, a)), action)
  }

  /** Sealing with an action conserves value: what leaves the fee pool and
      the tips is exactly the reward coin. */
  lemma SealConserves(env: Env, s: State, a: ProposerAction)
    requires Sealable(env, s, Some(a))
    ensures var l, r := Presealed(env, s), Seal(env, s, Some(a)).state.ledger;
      var id := env.proposerReward(s.height);
      && id in r.coins && r.coins[id].coinData.denom == Mel && r.coins[id].height == s.height
      && r.feePool + r.coins[id].coinData.value == l.feePool + l.tips
      && r.tips == 0
      && -(MaxMovement(l.feeMultiplier, s.height >= env.tip901Height) as int)
           <= r.feeMultiplier - l.feeMultiplier
           <= MaxMovement(l.feeMultiplier, s.height >= env.tip901Height)
  {
  }

  // ---------------------------------------------------------------------
  // Headers and block transitions
  // ---------------------------------------------------------------------

  /** Above height 0, the previous height has its header in the history. */
  predicate PreviousRecorded(s: State)
  {
    s.height > 0 ==> s.height - 1 in s.history
  }

  /** `SealedState::header`. The history lookup of the previous height
      panics when absent; no other height is looked up. */
  function HeaderOf(env: Env, ss: SealedState): (h: Header)
    requires PreviousRecorded(ss.state)
    ensures h.height == ss.state.height && h.network == ss.state.network
    ensures h.height == 0 ==> h.previous == ZeroDigest()
    ensures h.height > 0 ==> h.previous == env.headerHash(ss.state.history[h.height - 1])
  {
    var s := ss.state;
    Header(s.network,
           if s.height == 0 then ZeroDigest() else env.headerHash(s.history[s.height - 1]),
           s.height,
           env.historyRoot(s.history),
           env.coinsRoot(s.ledger.coins),
           env.transactionsRoot(s.ledger.transactions),
           s.ledger.feePool,
           s.ledger.feeMultiplier,
           s.ledger.doscSpeed,
           s.ledger.poolsRoot,
           s.ledger.stakesRoot)
  }

  /** The header commits to the same scalars and roots as the partial
      encoding (all but the tips). */
  lemma HeaderMatchesSummary(env: Env, ss: SealedState)
    requires PreviousRecorded(ss.state)
    ensures var h, p := HeaderOf(env, ss), Summary(env, ss.state);
      && h.network == p.network && h.height == p.height
      && h.historyHash == p.historyRoot && h.coinsHash == p.coinsRoot
      && h.transactionsHash == p.transactionsRoot
      && h.feePool == p.feePool && h.feeMultiplier == p.feeMultiplier && h.doscSpeed == p.doscSpeed
      && h.poolsHash == p.poolsRoot && h.stakesHash == p.stakesRoot
  {
  }

  /** What `next_state` needs: the previous header recorded (for
      `header`), a height that can be incremented in 64 bits and a non-zero
      stake epoch. */
  predicate Advanceable(env: Env, ss: SealedState)
  {
    PreviousRecorded(ss.state) && ss.state.height + 1 < U64_LIMIT && env.stakeEpoch > 0
  }

  /** `SealedState::next_state`. */
  function NextState(env: Env, ss: SealedState): (r: State)
    requires Advanceable(env, ss)
    ensures r.height == ss.state.height + 1
    ensures PreviousRecorded(r)
    ensures r.history == ss.state.history[ss.state.height := HeaderOf(env, ss)]
    ensures r.ledger.transactions == map[]
    ensures r.ledger.stakesRoot
              == env.removeStale(ss.state.ledger.stakesRoot, Epoch(BlockHeight(ss.state.height + 1), env.stakeEpoch))
    ensures r.network == ss.state.network
    ensures r.ledger.(transactions := map[], stakesRoot := ss.state.ledger.stakesRoot)
              == ss.state.ledger.(transactions := map[])
  {
    var s := ss.state;
    var height: u64 := s.height + 1;
    var history := s.history[s.height := HeaderOf(env, ss)];
    var stakes := env.removeStale(s.ledger.stakesRoot, Epoch(BlockHeight(height), env.stakeEpoch));
    State(s.network, height, history, s.ledger.(stakesRoot := stakes, transactions := map[]))
  }

  /** The header of the next block points at the current header. */
  lemma NextHeaderLinks(env: Env, ss: SealedState, action: Option<ProposerAction>)
    requires Advanceable(env, ss)
    requires Sealable(env, NextState(env, ss), action)
    ensures PreviousRecorded(Seal(env, NextState(env, ss), action).state)
    ensures HeaderOf(env, Seal(env, NextState(env, ss), action)).previous == env.headerHash(HeaderOf(env, ss))
    ensures HeaderOf(env, Seal(env, NextState(env, ss), action)).height == ss.state.height + 1
  {
  }

  /** `SealedState::is_empty`: no proposer action and no transactions. */
  function IsEmpty(env: Env, ss: SealedState): (r: bool)
    ensures r ==> ss.action.None?
  {
    ss.action.None? && env.transactionsRoot(ss.state.ledger.transactions) == ZeroDigest()
  }

  /** With the empty tree's root being zero and melmint adding no
      transactions, sealing the next state without an action is empty. */
  lemma NextSealedEmpty(env: Env, ss: SealedState)
    requires Advanceable(env, ss)
    requires env.transactionsRoot(map[]) == ZeroDigest()
    requires Presealed(env, NextState(env, ss)).transactions == map[]
    ensures IsEmpty(env, Seal(env, NextState(env, ss), None))
  {
  }

  /** What `apply_block` needs: `next_state`'s requirements and, whenever
      the batch applies, `seal`'s requirements on the resulting state. */
  predicate BlockApplicable(env: Env, ss: SealedState, block: Block)
  {
    && Advanceable(env, ss)
    && var basis := NextState(env, ss);
       var batch := env.applyBatch(basis.height, basis.ledger, block.transactions);
       batch.Ok? ==> Sealable(env, basis.(ledger := batch.value), block.proposerAction)
  }

  /** The state a block leads to when its transactions apply. */
  function Sealed(env: Env, ss: SealedState, block: Block, l: Ledger): (r: SealedState)
    requires Advanceable(env, ss)
    requires Sealable(env, NextState(env, ss).(ledger := l), block.proposerAction)
    ensures PreviousRecorded(r.state)
  {
    Seal(env, NextState(env, ss).(ledger := l), block.proposerAction)
  }

  /** `SealedState::apply_block`. */
  function ApplyBlock(env: Env, ss: SealedState, block: Block): (r: Result<SealedState, StateError>)
    requires BlockApplicable(env, ss, block)
    ensures var basis := NextState(env, ss);
      match env.applyBatch(basis.height, basis.ledger, block.transactions)
      case Err(e) => r == Err(e)
      case Ok(l) =>
        && (r == Err(WrongHeader) <==> HeaderOf(env, Sealed(env, ss, block, l)) != block.header)
        && (r.Ok? ==> r.value == Sealed(env, ss, block, l))
        && (HeaderOf(env, Sealed(env, ss, block, l)) == block.header ==> r == Ok(Sealed(env, ss, block, l)))
  {
    var basis := NextState(env, ss);
    match env.applyBatch(basis.height, basis.ledger, block.transactions)
    case Err(e) => Err(e)
    case Ok(l) =>
      var sealed := Sealed(env, ss, block, l);
      if HeaderOf(env, sealed) != block.header then Err(WrongHeader) else Ok(sealed)
  }

  /** An accepted block extends the chain by one: its header is the header
      of the resulting state, records the current header as previous, and
      the history gains exactly the current header. */
  lemma AcceptedBlockExtends(env: Env, ss: SealedState, block: Block)
    requires BlockApplicable(env, ss, block)
    requires ApplyBlock(env, ss, block).Ok?
    ensures var next := ApplyBlock(env, ss, block).value;
      && PreviousRecorded(next.state)
      && HeaderOf(env, next) == block.header
      && block.header.previous == env.headerHash(HeaderOf(env, ss))
      && block.header.height == ss.state.height + 1
      && next.state.history == ss.state.history[ss.state.height := HeaderOf(env, ss)]
      && next.action == block.proposerAction
  {
  }
}
