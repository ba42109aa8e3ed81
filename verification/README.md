# themelio-stf core in Dafny

A model of three sequential pieces of the Themelio state-transition
function, with the properties they promise proved.

- **MelPoW** is Themelio's non-interactive proof of sequential work. It is
  the Cohen–Pietrzak construction with a Fiat–Shamir transform.
  - `Nodes` covers bit-string nodes packed into a 64-bit word plus a length (`take`, `append`, `get_bit`, `get_parents`, the 8-byte codec, `Display`).
  - `Labels` covers the recursive labelling walk `calc_labels`. It is compared against a reference labelling `Label` of the depth-robust graph.
  - `MelPoW` covers the gamma generator, the sibling paths, proof generation, the verifier and the 40-byte-per-entry proof codec.
- **State** (`Ledger`) is the world state: the network byte, the 233-byte partial encoding, `seal`, the block header, `next_state`, `apply_block` and `is_empty`.
- **Units** covers `CoinValue` (checked arithmetic, `from_millions`, decimal display) and `BlockHeight` (`epoch`, and the derived decimal `Display` and `FromStr`).

Supporting modules:

- `Bits` holds bit arithmetic on unbounded naturals: `Pow2`, `Bit`, `Or` and `Rev` (`reverse_bits`).
- `Encoding` holds bytes, 32-byte digests, big- and little-endian codecs and decimal text.
- `Wrappers` holds `Option` and `Result`.

Rust's `u64`/`u128` are `nat`s with explicit bounds. Shifts, masks and bit reversal are stated through `Bit(x, i)`, the i-th binary digit.

Outside code is passed in as parameters:

- The MelPoW hash (`hash::Accumulator`) and `bts_key` are function parameters (`Hasher`, `KeyHash`).
- The sparse Merkle trees are maps plus root functions.
- The modules `state.rs` calls but which are not part of this model are fields of `Ledger.Env`: `preseal_melmint`, the transaction-batch applier, `remove_stale`, `CoinID::proposer_reward` and `Header::hash`.
- The constants `STAKE_EPOCH` and `TIP_901_HEIGHT` are parameters. `MICRO_CONVERTER` is 1,000,000, as its doc comment states.

`MelPoW.Verify` models `Proof::verify` as written. It returns `Option<bool>`, where `None` stands for a panic. `MelPoW.VerifyFixed` is the corrected verifier (see Findings).

## Model

| member | source | states |
|---|---|---|
| Nodes.Take | src/melpow/node.rs:25-30 | the result has length n, is well formed (bv < 2^n), and agrees with the input on every bit below n |
| Nodes.TakeCompose | src/melpow/node.rs:25-30 | nested prefixes compose: take(m).take(k) == take(k) for k <= m |
| Nodes.TakeIdempotent | src/melpow/node.rs:25-30 | taking the same prefix twice changes nothing |
| Nodes.Append | src/melpow/node.rs:32-37 | the length grows by one; on a well-formed node with b in {0,1} the value gains b * 2^len, stays well formed, and bit len is b |
| Nodes.AppendThenTake | src/melpow/node.rs:25-41 | on a well-formed node, get_bit(len) of append(b) is b and append(b).take(len) is the original node |
| Nodes.GetBit | src/melpow/node.rs:39-41 | the bit read is 0 or 1 |
| Nodes.LeafParents | src/melpow/node.rs:45-52 | the parents of a leaf: one per set bit i below n (count = popcount), each equal to take(i).append(0), in increasing length, and every set bit has its parent |
| Nodes.GetParents | src/melpow/node.rs:43-59 | a leaf (len == n) gets its set-bit parents in increasing order, as many as its popcount; any other well-formed node gets exactly [append(0), append(1)] |
| Nodes.AppendZeroToPrefix | src/melpow/node.rs:50 | take(i).append(0) is the prefix of length i extended by a zero bit |
| Nodes.FromBytes | src/melpow/node.rs:69-76 | decoding fails exactly on slices whose length is not 8; a decoded node has bv < 2^56 and len < 256 |
| Nodes.UniqidPacked | src/melpow/node.rs:61-63 | for bv < 2^56 and len < 256 the id is len * 2^56 + bv and fits in 64 bits |
| Nodes.NodeCodecRoundTrip | src/melpow/node.rs:61-76 | from_bytes(to_bytes(nd)) == Some(nd) whenever bv < 2^56 and len < 256 |
| Nodes.NodeCodecInverse | src/melpow/node.rs:61-76 | every 8-byte slice decodes, and re-encoding gives the slice back |
| Nodes.Display | src/melpow/node.rs:79-92 | "ε" for the empty node, otherwise len characters whose i-th is '1' exactly when bit i is set |
| Nodes.DisplayInjective | src/melpow/node.rs:79-92 | well-formed nodes with the same text are equal |
| Labels.RankChildren | src/melpow/node.rs:133-137 | the termination measure of the labelling drops from a node to its left child and is kept by the right child |
| Labels.ParentsRankLower | src/melpow/node.rs:123-127 | every parent of a leaf precedes the leaf in the labelling order |
| Labels.CalcLabelsHelper | src/melpow/node.rs:113-148 | the walk returns the reference label of nd, leaves the cache as it found it, ends by reporting nd, and reports only true labels of nodes in nd's subtree |
| Labels.LeafParentsCached | src/melpow/node.rs:123-127 | when the walk reaches a leaf every one of its parents is in the cache, so the lookup at line 126 never fails |
| Labels.LeafLabelFromCache | src/melpow/node.rs:120-131 | the leaf hash computed from cached parent labels is the reference label |
| Labels.WalkCount | src/melpow/node.rs:113-148 | the walk from nd reports 2^(n - len + 1) - 1 nodes |
| Labels.WalkDistinct | src/melpow/node.rs:113-148 | no node is reported twice |
| Labels.WalkCovers | src/melpow/node.rs:113-148 | every node of nd's subtree is reported |
| Labels.WalkChildrenFirst | src/melpow/node.rs:113-148 | a node's children are reported before the node |
| Labels.CalcLabels | src/melpow/node.rs:109-111 | f is called exactly once for each of the 2^(n+1) - 1 nodes of length <= n, with its true label, children before parents |
| MelPoW.GammaOf | src/melpow/mod.rs:146-151 | a gamma has length d, is well formed, and its bit j is bit 63 - j of the little-endian seed |
| MelPoW.GammaKey | src/melpow/mod.rs:146 | the key starts with the ASCII bytes of "gamma-" |
| MelPoW.GammaKeyInjective | src/melpow/mod.rs:146 | two indices give the same key exactly when they are equal |
| MelPoW.GenGammas | src/melpow/mod.rs:143-154 | exactly PROOF_CERTAINTY = 200 nodes, each of length d and well formed, for 1 <= d <= 64 |
| MelPoW.GammaFromPuzzle | src/melpow/mod.rs:143-154 | bit b of gamma j is bit 63 - b of the little-endian first eight bytes of the puzzle's hash under the key "gamma-j" |
| MelPoW.GammaToPath | src/melpow/mod.rs:156-161 | g.len elements; element i has length i+1, agrees with g below bit i, has bit i flipped, and is well formed |
| MelPoW.SiblingPair | src/melpow/mod.rs:156-161 | the two children of take(i) are the path prefix of length i+1 and the i-th path node |
| MelPoW.ParentsOnPath | src/melpow/mod.rs:156-161 | the leaf parent of g for a set bit i is the i-th node of g's sibling path |
| MelPoW.Skeleton | src/melpow/mod.rs:27-33 | the map built before labelling has exactly the gammas and their path nodes as keys |
| MelPoW.Record | src/melpow/mod.rs:35-39 | recording the labelling keeps the reserved keys, adds only the root, and gives every reported key the reported label |
| MelPoW.RecordHonest | src/melpow/mod.rs:35-39 | recording calc_labels over the skeleton yields the skeleton keys plus the root, all holding true labels |
| MelPoW.Generate | src/melpow/mod.rs:22-42 | the proof holds the root, every gamma and every node of every gamma's path, each with its true label |
| MelPoW.FoundLabels | src/melpow/mod.rs:68-81 | the parent labels hashed stop at the first missing parent; all are hashed exactly when all are present |
| MelPoW.HashMatches | src/melpow/mod.rs:65-85 | the stored label of gamma passes exactly when it equals the hash of gamma's bytes and its parents' stored labels, with every parent present |
| MelPoW.Commit | src/melpow/mod.rs:88-96 | the commitment recomputation keeps every key it started with, or panics on a missing child |
| MelPoW.CheckGamma | src/melpow/mod.rs:58-101 | one gamma's checks keep output true only if the gamma is present and its label checks; when phi is the stored root label, the new output is exactly the old output and the gamma's label check |
| MelPoW.VerifyLoop | src/melpow/mod.rs:58-103 | output stays true only if every gamma's label checks; when phi is the stored root label and nothing panics, the result is exactly the initial output and every gamma's label check |
| MelPoW.CommitCompletes | src/melpow/mod.rs:88-96 | with the prefix of length i and every sibling of g present, the commitment recomputation never misses a child, whatever labels the entries carry |
| MelPoW.LoopCompletes | src/melpow/mod.rs:58-103 | the loop never panics when the root, every gamma and every gamma's path are in the proof |
| MelPoW.Verify | src/melpow/mod.rs:44-107 | false for every difficulty above 100; a panic for difficulty 0 or 65..100 and for a proof without the root; true only if every generated gamma is present with a label that checks; for difficulty 1..64, a result that is not a panic is exactly whether every generated gamma's label checks |
| MelPoW.VerifyIsLabelChecks | src/melpow/mod.rs:44-107 | for difficulty 1..64 and a proof holding the root and every gamma's path, verify returns exactly whether every gamma's label checks, whatever the labels: the commitment step never rejects |
| MelPoW.VerifyAcceptsHonest | src/melpow/mod.rs:44-107 | a proof with true labels holding every gamma's path is accepted, whatever its root entry |
| MelPoW.GenerateThenVerify | src/melpow/mod.rs:22-107 | verify accepts what generate produces for the same puzzle and difficulty, and so does the corrected verifier |
| MelPoW.TamperedRootAccepted | src/melpow/mod.rs:54-100 | replacing the generated root label by any other value is still accepted as written but rejected by the corrected verifier |
| MelPoW.VerifyFixed | src/melpow/mod.rs:44-107 | the corrected verifier accepts only difficulties 1..64, a present root, and gammas whose labels check |
| MelPoW.VerifyFixedOnHonest | src/melpow/mod.rs:54-100 | on a proof with true labels holding the paths, the corrected verifier accepts exactly when the root entry is the true root label |
| MelPoW.CommitHonest | src/melpow/mod.rs:88-96 | on true labels the commitment recomputation never misses a child and ends with the true root label |
| MelPoW.ProofToBytes | src/melpow/mod.rs:110-121 | the output is 40 bytes for each entry enumerated |
| MelPoW.ProofToBytesUnits | src/melpow/mod.rs:110-121 | the j-th 40-byte unit is the j-th node's 8-byte encoding followed by its 32-byte label |
| MelPoW.ProofFromBytes | src/melpow/mod.rs:124-140 | None exactly when the length is not a multiple of 40; every decoded entry has a node below 2^56 and a 32-byte label |
| MelPoW.ParseOfEntries | src/melpow/mod.rs:124-140 | parsing the serialisation of listed entries adds exactly those entries |
| MelPoW.ProofCodecRoundTrip | src/melpow/mod.rs:110-140 | from_bytes(to_bytes(p)) == Some(p) for any enumeration order when every label is 32 bytes |
| Units.CheckedAdd | src/units.rs:60-62 | None exactly when the sum exceeds 2^128 - 1, otherwise the sum |
| Units.CheckedSub | src/units.rs:65-67 | None exactly when other > self, otherwise the difference |
| Units.AddSubInverse | src/units.rs:60-67 | a successful checked_sub undoes checked_add and vice versa |
| Units.FromMillions | src/units.rs:54-57 | the value is i * 1,000,000 micro-units and never overflows u128 for a u64 i |
| Units.Split | src/units.rs:41-50 | the fraction is below 1,000,000 and whole * 1,000,000 + fraction is the value |
| Units.FromMillionsSplit | src/units.rs:41-57 | from_millions(i) displays as whole part i with a zero fraction |
| Units.SixDigits | src/units.rs:44-47 | the fraction is rendered as exactly six decimal digits |
| Units.Display | src/units.rs:41-50 | the text ends in a point followed by six digits |
| Units.DisplayRoundTrip | src/units.rs:41-50 | reading back "whole.ffffff" gives the number of micro-units |
| Units.Epoch | src/units.rs:102-104 | epoch * STAKE_EPOCH <= height < (epoch + 1) * STAKE_EPOCH |
| Units.HeightDisplay | src/units.rs:90 | a height prints as a non-empty string of decimal digits |
| Units.HeightFromStr | src/units.rs:91 | a string is accepted exactly when it is an optional '+' followed by one or more digits whose value is below 2^64, and the height is the value of those digits |
| Units.HeightStrRoundTrip | src/units.rs:90-91 | parsing the printed height gives the height back |
| Units.EpochMonotone | src/units.rs:102-104 | epochs never decrease as heights grow |
| Units.DerivedCmpEqual | src/units.rs:21-22 | the derived field-by-field comparison says Equal exactly on equal field lists |
| Units.DerivedCmpFlip | src/units.rs:21-22 | swapping the arguments of the derived comparison swaps Less and Greater |
| Units.DerivedCmpTransitive | src/units.rs:21-22 | the derived comparison is transitive |
| Units.CoinOrderIsNumeric | src/units.rs:21-22 | the derived Ord of CoinValue, over its single field, is the numeric order of the micro-unit count, and Equal means equal |
| Units.HeightOrderIsNumeric | src/units.rs:79-80 | the derived Ord of BlockHeight, over its single field, is the numeric order of the height, and Equal means equal |
| Ledger.NetFromByte | src/state.rs:53-71 | a byte names a network exactly when it is 0x01 or 0xff |
| Ledger.NetIdCodec | src/state.rs:53-71 | the network byte decodes back to its network, and a decoded network re-encodes to its byte |
| Ledger.EncodePartial | src/state.rs:101-118 | 233 bytes: network byte, BE height, history/coins/transactions roots, BE fee_pool, fee_multiplier, tips, dosc_speed, pools and stakes roots |
| Ledger.PartialEncoding | src/state.rs:101-118 | the state's partial encoding is 233 bytes |
| Ledger.ReadU64 | src/state.rs:123 | re-encoding the value read from 8 bytes gives the bytes back |
| Ledger.ReadU128 | src/state.rs:124 | re-encoding the value read from 16 bytes gives the bytes back |
| Ledger.FromPartialEncoding | src/state.rs:121-158 | decoding panics exactly on fewer than 233 bytes or a first byte naming no network |
| Ledger.PartialRoundTrip | src/state.rs:101-158 | decoding the partial encoding recovers network, height, fee_pool, fee_multiplier, tips, dosc_speed and all five roots |
| Ledger.PartialDecodeInverse | src/state.rs:101-158 | whatever decodes is the partial encoding of its decoding, followed by unread bytes |
| Ledger.TruncDiv | src/state.rs:202 | signed division truncates toward zero |
| Ledger.ScaledMovementBound | src/state.rs:197-202 | a delta scaled by max_movement / 128 moves by at most max_movement, in the delta's direction |
| Ledger.MoveFeeMultiplier | src/state.rs:192-212 | the corrected step moves the multiplier in the delta's direction by at most max_movement, and by exactly the scaled movement when that stays within u128 |
| Ledger.AsI64 | src/state.rs:198-200 | `as i64` lands in the signed 64-bit range, is congruent to its input modulo 2^64, and keeps values below 2^63 |
| Ledger.MoveFeeMultiplierAsWritten | src/state.rs:196-211 | where fm >> 7 fits in an i64, the step as written panics exactly when the i64 product overflows or the result leaves u128, and otherwise moves in the delta's direction |
| Ledger.AsWrittenAgrees | src/state.rs:192-212 | where fm >> 7 fits in an i64 and the code as written does not panic, it computes the corrected step |
| Ledger.FeeMultiplierUnderflow | src/state.rs:197-211 | after TIP 901, a multiplier of 1 with delta -128 panics as written; the corrected step gives 0 |
| Ledger.FeeMultiplierTruncation | src/state.rs:198-202 | a multiplier of 2^70 with delta +1 is lowered as written; the corrected step does not lower it |
| Ledger.ApplyAction | src/state.rs:195-231 | the reward coin at the proposer-reward id is a Mel coin at the state's height worth fee_pool >> 16 plus tips; fee_pool' + coin == fee_pool + tips; tips become 0; other coins are unchanged; the multiplier moves by the step as written, which is the corrected step |
| Ledger.Seal | src/state.rs:187-234 | the action is kept; network, height and history are unchanged; without an action the ledger is exactly what melmint returned |
| Ledger.SealConserves | src/state.rs:214-230 | with an action, what leaves the fee pool and tips is exactly the reward coin, and the multiplier moves by at most max_movement |
| Ledger.HeaderOf | src/state.rs:271-289 | the header carries the state's network and height; at height 0 the previous hash is the default hash, above it the hash of the history entry at height - 1 |
| Ledger.HeaderMatchesSummary | src/state.rs:271-289 | the header commits to the same network, height, scalars and roots as the partial encoding |
| Ledger.NextState | src/state.rs:313-321 | height + 1, history gains the current header at the old height, so the new previous header is recorded, transactions emptied, the stakes root pruned by remove_stale at the new height's epoch, all other ledger fields unchanged |
| Ledger.NextHeaderLinks | src/state.rs:313-321 | the header of the sealed next state has the current header's hash as previous and height + 1 |
| Ledger.IsEmpty | src/state.rs:254-256 | an empty sealed state has no proposer action |
| Ledger.NextSealedEmpty | src/state.rs:254-256 | sealing the next state without an action is empty when the empty tree's root is the default hash and melmint adds no transactions |
| Ledger.Sealed | src/state.rs:325-330 | the state a block leads to has its previous header recorded |
| Ledger.ApplyBlock | src/state.rs:324-345 | a failing batch returns its error; otherwise the result is Err(WrongHeader) exactly when the post-seal header differs from the block's header, and Ok of the sealed state otherwise |
| Ledger.AcceptedBlockExtends | src/state.rs:313-345 | an accepted block's header is the new state's header, points at the current header's hash, has height + 1, and the history gains exactly the current header |

## Left out

- The MelPoW hash (`hash::Accumulator`), `bts_key`, `tmelcrypt::hash_single` and `Header::hash` are foreign cryptography. They are uninterpreted function parameters. src/melpow/hash.rs is not part of this model. Rejection of a wrong puzzle or difficulty (src/melpow/mod.rs:173-174) rests on collision resistance and is not proved.
- The iteration order of the proof's `FxHashMap` is unspecified. `MelPoW.ProofToBytes` takes the order as a parameter, and the round trip is stated for every order.
- `calc_labels`'s callback `f` is modelled by the sequence of (node, label) calls the walk makes. `Proof::generate`'s callback is then a fold over that sequence.
- Node operations whose shifts would reach 64 bits are excluded by preconditions, because the Rust code panics there:
  - `Nodes.Take` requires n < 64;
  - `Nodes.Append` requires len < 64;
  - `Nodes.GetBit` requires n < 64;
  - `Nodes.Display` requires len <= 64.
- `Nodes.FromBytes` and `Nodes.ToBytes` are exact inverses only for bv < 2^56 and len < 256. Wider nodes overlap in the 64-bit id, and `MelPoW.ProofCodecRoundTrip` requires every key and label to be of that form.
- `MelPoW.ProofToBytes` requires every label to be 32 bytes, where the source panics through `assert_eq!` at src/melpow/mod.rs:115.
- `MelPoW.Generate` requires 1 <= d <= 64. `gen_gammas` panics outside that range.
- `Node::new_zero` and `Node::new` are `Nodes.Root` and the `Node` constructor. The `Debug` implementation repeats `Display`.
- The sparse Merkle trees (novasmt `Forest`, `SmtMapping`) are maps whose roots come from `Env` functions. The pools and stakes trees are kept as their roots only.
- Opening trees from a database in `from_partial_encoding_infallible` is not modelled. The decoder returns the roots. `save_smts` is disk I/O and is not modelled.
- `SealedState`'s `stdcode` partial encoding and its decoding (src/state.rs:258-268) are an opaque serialisation and are not modelled.
- `preseal_melmint`, the transaction batch applier, `remove_stale` and `CoinID::proposer_reward` are `Env` functions. Melmint and the batch applier act on the `Ledger` part of the state: they are modelled as not changing the network, height or history, which nothing in state.rs itself guarantees.
- The `assert!`s that the pools tree has at least two entries (src/state.rs:190, 326, 329, 331) are not modelled, because the pools contents are opaque.
- `apply_tx` is the one-transaction case of the batch applier and is not modelled separately.
- `to_block`, with its `im::HashSet` self-check, and `abbreviate`, with `hash_nosigs`, are not modelled. A block's transaction set is the sequence it is iterated in.
- `confirm` and `validate_cproof` are unfinished stubs and are not modelled. `proposer_action` and `inner_ref` are plain field accessors.
- Logging is not modelled.
- `Ledger.Seal` requires the reward coin value, (fee_pool >> 16) + tips, to fit in u128. The source panics on that overflow.
- `Ledger.Seal` requires, with an action, that the fee-multiplier step as written not panic and that fee_multiplier >> 7 fit in an i64. There the step as written equals the corrected `Ledger.MoveFeeMultiplier` (`Ledger.AsWrittenAgrees`). Larger multipliers do not panic in the source but are truncated (see Findings); only `Ledger.MoveFeeMultiplierAsWritten` models that case.
- `Ledger.HeaderOf` requires, above height 0, the header of height - 1 to be in the history. The lookup at src/state.rs:277 panics otherwise; no other height is looked up. `Ledger.NextState` establishes that condition.
- Integer overflow follows a debug build, where it panics. A release build wraps instead, and that is not modelled: `64 - difficulty` at src/melpow/mod.rs:148-149 would wrap and the shift would be masked, and `fee_multiplier -=` at src/state.rs:211 would wrap to 2^128 - 1.
- `Ledger.NextState` requires height + 1 to fit in 64 bits and STAKE_EPOCH to be non-zero.
- `Ledger.ApplyBlock` requires the same as `Ledger.NextState` and, whenever the batch applies, what `Ledger.Seal` requires: the reward coin fits, fee_multiplier >> 7 fits in an i64, and the fee-multiplier step as written does not panic. A block whose post-batch multiplier is 2^70 or more, with a proposer action, is therefore outside the model, although src/state.rs:198-211 processes it by truncation (see Findings).
- `Units.Epoch` requires STAKE_EPOCH > 0.
- The doc comment at src/units.rs:12 says `CoinValue`'s `FromStr` divides by 1,000,000, but `CoinValue` derives and implements no `FromStr`. `Units.ParseCoin` is a reader for the `Display` format, written to state the round trip; it is not an operation of the source.
- The unchecked arithmetic `CoinValue` and `BlockHeight` derive (`Add`, `Sub`, `Mul`, `Div`, `Sum` and their assigning forms) is not modelled. Only the checked operations are.
- `Ledger.MoveFeeMultiplier` clamps at 0 and at 2^128 - 1 where the unbounded step would leave u128. Its exactness clause holds only inside that range.

## Findings

| source | as written | input that shows it | evidently intended | confidence | as-written member | corrected member |
|---|---|---|---|---|---|---|
| src/melpow/mod.rs:54, 98 | the commitment check compares phi with the same unchanged root entry it was read from, so the recomputed `temp_map` root is never used | a generated proof whose root entry is replaced by any value other than the true root label is still accepted; more generally the commitment step never rejects (`MelPoW.VerifyIsLabelChecks`) | phi must equal the root label recomputed from the gamma's path in `temp_map` | high, not executed | MelPoW.TamperedRootAccepted | MelPoW.VerifyFixed |
| src/melpow/mod.rs:49-53, 148 | only difficulties above 100 are rejected, but `gen_gammas` computes `64 - difficulty` and shifts by it | difficulty 65 (subtraction underflow) or 0 (shift by 64) panics in a debug build | reject every difficulty outside 1..64 | medium, not executed | MelPoW.Verify | MelPoW.VerifyFixed |
| src/melpow/mod.rs:54 | `self.0[&root]` indexes the untrusted proof map directly | a proof without the root entry panics at any difficulty 1..64 | a malformed proof is rejected | medium, not executed | MelPoW.Verify | MelPoW.VerifyFixed |
| src/state.rs:197-198, 210-211 | from TIP 901 on the movement is at least 2, and it is subtracted from the `u128` multiplier unchecked | fee_multiplier 1, delta -128, height at or after TIP 901: 1 - 2 underflows | the multiplier stops at 0 | medium, not executed | Ledger.FeeMultiplierUnderflow | Ledger.MoveFeeMultiplier |
| src/state.rs:198-202 | `(fee_multiplier >> 7) as i64` keeps only the low 64 bits | fee_multiplier 2^70 before TIP 901, delta +1: max_movement becomes -2^63 and the multiplier drops by 2^56 | the movement has the delta's sign and magnitude at most fee_multiplier >> 7 | low, not executed | Ledger.FeeMultiplierTruncation | Ledger.MoveFeeMultiplier |
