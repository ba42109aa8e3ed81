/** Monetary and height units (src/units.rs): `CoinValue`, a count of
    micro-units in a 128-bit word, and `BlockHeight`, a 64-bit height. */
module Units {
  import opened Wrappers
  import opened Bits
  import opened Encoding

  const U128_LIMIT: nat := 0x1_0000_0000_0000_0000_0000_0000_0000_0000

  type u64 = x: nat | x < U64_LIMIT
  type u128 = x: nat | x < U128_LIMIT

  /** Micro-units per unit (`MICRO_CONVERTER`). */
  const MICRO_CONVERTER: nat := 1_000_000

  datatype CoinValue = CoinValue(micros: u128)

  datatype BlockHeight = BlockHeight(height: u64)

  /** `CoinValue::checked_add`: None exactly when the sum overflows 128 bits. */
  function CheckedAdd(a: CoinValue, b: CoinValue): (r: Option<CoinValue>)
    ensures r.None? <==> a.micros + b.micros >= U128_LIMIT
    ensures r.Some? ==> r.value.micros == a.micros + b.micros
  {
    if a.micros + b.micros < U128_LIMIT then Some(CoinValue(a.micros + b.micros)) else None
  }

  /** `CoinValue::checked_sub`: None exactly when the difference is negative. */
  function CheckedSub(a: CoinValue, b: CoinValue): (r: Option<CoinValue>)
    ensures r.None? <==> b.micros > a.micros
    ensures r.Some? ==> r.value.micros + b.micros == a.micros
  {
    if b.micros <= a.micros then Some(CoinValue(a.micros - b.micros)) else None
  }

  /** Subtraction undoes a successful addition, and addition undoes a
      successful subtraction. */
  lemma AddSubInverse(a: CoinValue, b: CoinValue)
    ensures CheckedAdd(a, b).Some? ==> CheckedSub(CheckedAdd(a, b).value, b) == Some(a)
    ensures CheckedSub(a, b).Some? ==> CheckedAdd(CheckedSub(a, b).value, b) == Some(a)
  {
  }

  /** `CoinValue::from_millions`: i whole units; a 64-bit count of units
      never overflows the 128-bit word. */
  function FromMillions(i: u64): (r: CoinValue)
    ensures r.micros == i * MICRO_CONVERTER
  {
    assert i * MICRO_CONVERTER < U128_LIMIT;
    CoinValue(i * MICRO_CONVERTER)
  }

  /** The whole and fractional parts `Display` prints. */
  function Split(v: CoinValue): (parts: (nat, nat))
    ensures parts.1 < MICRO_CONVERTER
    ensures parts.0 * MICRO_CONVERTER + parts.1 == v.micros
  {
    (v.micros / MICRO_CONVERTER, v.micros % MICRO_CONVERTER)
  }

  lemma FromMillionsSplit(i: u64)
    ensures Split(FromMillions(i)) == (i, 0)
  {
    var v := FromMillions(i);
    DivModUnique(v.micros, MICRO_CONVERTER, i, 0);
  }

  function Pow10(k: nat): (r: nat)
    ensures r >= 1
  {
    if k == 0 then 1 else 10 * Pow10(k - 1)
  }

  lemma {:induction false} DecimalLength(n: nat, k: nat)
    requires n < Pow10(k) && k >= 1
    ensures |Decimal(n)| <= k
  {
    if n >= 10 {
      DecimalLength(n / 10, k - 1);
    }
  }

  /** `{:06}`: the decimal digits of f, zero-padded on the left to six. */
  function SixDigits(f: nat): (r: string)
    requires f < MICRO_CONVERTER
    ensures |r| == 6
    ensures forall i :: 0 <= i < |r| ==> '0' <= r[i] <= '9'
  {
    assert Pow10(6) == MICRO_CONVERTER;
    DecimalLength(f, 6);
    seq(6 - |Decimal(f)|, _ => '0') + Decimal(f)
  }

  /** `CoinValue`'s `Display`: whole units, a point, six fractional digits. */
  function Display(v: CoinValue): (r: string)
    ensures |r| >= 8 && r[|r| - 7] == '.'
    ensures forall i :: |r| - 6 <= i < |r| ==> '0' <= r[i] <= '9'
  {
    var parts := Split(v);
    Decimal(parts.0) + "." + SixDigits(parts.1)
  }

  /** The first position of c in s. */
  function IndexOf(s: string, c: char): (r: Option<nat>)
    ensures r.Some? ==> r.value < |s| && s[r.value] == c && forall i :: 0 <= i < r.value ==> s[i] != c
    ensures r.None? ==> forall i :: 0 <= i < |s| ==> s[i] != c
  {
    if |s| == 0 then None
    else if s[0] == c then Some(0)
    else match IndexOf(s[1..], c)
      case None => None
      case Some(i) => Some(i + 1)
  }

  predicate AllDigits(s: string)
  {
    forall i :: 0 <= i < |s| ==> '0' <= s[i] <= '9'
  }

  /** A reader for the `Display` format: whole digits, a point, exactly six
      fractional digits. */
  function ParseCoin(s: string): (r: Option<nat>)
  {
    match IndexOf(s, '.')
    case None => None
    case Some(i) => ParseParts(s[..i], s[i + 1..])
  }

  /** The value of the digits before and after the point. */
  function ParseParts(whole: string, frac: string): (r: Option<nat>)
  {
    if |frac| == 6 && AllDigits(whole) && AllDigits(frac)
    then Some(DigitsValue(whole) * MICRO_CONVERTER + DigitsValue(frac))
    else None
  }

  lemma {:induction false} ZerosValue(z: string)
    requires forall i :: 0 <= i < |z| ==> z[i] == '0'
    ensures DigitsValue(z) == 0
  {
    if |z| > 0 {
      ZerosValue(z[..|z| - 1]);
    }
  }

  /** Leading zeros do not change the value of a digit string. */
  lemma {:induction false} LeadingZeros(z: string, s: string)
    requires forall i :: 0 <= i < |z| ==> z[i] == '0'
    requires AllDigits(s)
    ensures DigitsValue(z + s) == DigitsValue(s)
    decreases |s|
  {
    if |s| == 0 {
      assert z + s == z;
      ZerosValue(z);
    } else {
      var t := z + s;
      assert t[..|t| - 1] == z + s[..|s| - 1];
      LeadingZeros(z, s[..|s| - 1]);
    }
  }

  /** The point after a run of digits is the first point. */
  lemma PointAfterDigits(w: string, f: string)
    requires AllDigits(w)
    ensures IndexOf(w + "." + f, '.') == Some(|w|)
  {
    var s := w + "." + f;
    assert s[|w|] == '.';
    assert forall i :: 0 <= i < |w| ==> s[i] == w[i];
  }

  lemma SixDigitsValue(f: nat)
    requires f < MICRO_CONVERTER
    ensures DigitsValue(SixDigits(f)) == f
  {
    assert Pow10(6) == MICRO_CONVERTER;
    DecimalLength(f, 6);
    LeadingZeros(seq(6 - |Decimal(f)|, _ => '0'), Decimal(f));
    DecimalRoundTrip(f);
  }

  /** Reading back the printed value gives the number of micro-units. */
  lemma DisplayRoundTrip(v: CoinValue)
    ensures ParseCoin(Display(v)) == Some(v.micros)
  {
    var parts := Split(v);
    var w, f := Decimal(parts.0), SixDigits(parts.1);
    assert Display(v) == w + "." + f;
    ParsePointed(w, f);
    DecimalRoundTrip(parts.0);
    SixDigitsValue(parts.1);
  }

  /** Whole digits, a point and six digits parse to their value. */
  lemma ParsePointed(w: string, f: string)
    requires AllDigits(w) && AllDigits(f) && |f| == 6
    ensures ParseCoin(w + "." + f) == Some(DigitsValue(w) * MICRO_CONVERTER + DigitsValue(f))
  {
    var s := w + "." + f;
    PointAfterDigits(w, f);
    assert s[..|w|] == w && s[|w| + 1..] == f;
    assert ParseCoin(s) == ParseParts(w, f);
    PartsValue(w, f);
  }

  lemma PartsValue(w: string, f: string)
    requires AllDigits(w) && AllDigits(f) && |f| == 6
    ensures ParseParts(w, f) == Some(DigitsValue(w) * MICRO_CONVERTER + DigitsValue(f))
  {
  }

  /** The `Display` derived for `BlockHeight`: the height in decimal. */
  function HeightDisplay(h: BlockHeight): (r: string)
    ensures |r| >= 1 && AllDigits(r)
  {
    Decimal(h.height)
  }

  /** The `FromStr` derived for `BlockHeight`: `u64`'s parser applied to the
      whole string (an optional '+', then at least one decimal digit, the
      value within 64 bits). */
  function HeightFromStr(s: string): (r: Option<BlockHeight>)
    ensures r.Some? ==> |s| >= 1 && forall i :: 0 < i < |s| ==> '0' <= s[i] <= '9'
    ensures r.Some? && s[0] != '+' ==> AllDigits(s) && r.value.height == DigitsValue(s)
    ensures r.Some? && s[0] == '+' ==> |s| > 1 && AllDigits(s[1..]) && r.value.height == DigitsValue(s[1..])
    ensures |s| > 0 && AllDigits(s) && DigitsValue(s) < U64_LIMIT ==> r == Some(BlockHeight(DigitsValue(s)))
    ensures |s| > 1 && s[0] == '+' && AllDigits(s[1..]) && DigitsValue(s[1..]) < U64_LIMIT ==>
              r == Some(BlockHeight(DigitsValue(s[1..])))
  {
    var digits := if |s| > 0 && s[0] == '+' then s[1..] else s;
    if |digits| == 0 || !AllDigits(digits) then None
    else if DigitsValue(digits) < U64_LIMIT then Some(BlockHeight(DigitsValue(digits)))
    else None
  }

  /** Parsing what `Display` prints gives the height back. */
  lemma HeightStrRoundTrip(h: BlockHeight)
    ensures HeightFromStr(HeightDisplay(h)) == Some(h)
  {
    DecimalRoundTrip(h.height);
  }

  /** `BlockHeight::epoch`: the staking epoch of a height. */
  function Epoch(h: BlockHeight, stakeEpoch: nat): (e: nat)
    requires stakeEpoch > 0
    ensures e * stakeEpoch <= h.height < (e + 1) * stakeEpoch
  {
    h.height / stakeEpoch
  }

  /** Later heights are never in earlier epochs. */
  lemma EpochMonotone(a: BlockHeight, b: BlockHeight, stakeEpoch: nat)
    requires stakeEpoch > 0 && a.height <= b.height
    ensures Epoch(a, stakeEpoch) <= Epoch(b, stakeEpoch)
  {
    var ea, eb := Epoch(a, stakeEpoch), Epoch(b, stakeEpoch);
    assert ea * stakeEpoch < (eb + 1) * stakeEpoch;
    if eb + 1 <= ea {
      MulLe(eb + 1, ea, stakeEpoch);
    }
  }

  datatype Ordering = Less | Equal | Greater

  function CompareNat(x: nat, y: nat): Ordering
  {
    if x < y then Less else if x == y then Equal else Greater
  }

  /** `#[derive(Ord)]` on a struct: compare the fields in declaration
      order; the first one that differs decides. */
  function DerivedCmp(xs: seq<nat>, ys: seq<nat>): Ordering
    requires |xs| == |ys|
    decreases |xs|
  {
    if |xs| == 0 then Equal
    else match CompareNat(xs[0], ys[0])
      case Equal => DerivedCmp(xs[1..], ys[1..])
      case o => o
  }

  /** The derived order says Equal exactly on equal field lists. */
  lemma {:induction false} DerivedCmpEqual(xs: seq<nat>, ys: seq<nat>)
    requires |xs| == |ys|
    ensures DerivedCmp(xs, ys) == Equal <==> xs == ys
    decreases |xs|
  {
    if |xs| > 0 {
      DerivedCmpEqual(xs[1..], ys[1..]);
      if xs[0] == ys[0] && xs[1..] == ys[1..] {
        assert xs == [xs[0]] + xs[1..] && ys == [ys[0]] + ys[1..];
      }
    }
  }

  /** Swapping the arguments swaps Less and Greater. */
  lemma {:induction false} DerivedCmpFlip(xs: seq<nat>, ys: seq<nat>)
    requires |xs| == |ys|
    ensures DerivedCmp(xs, ys) == Less <==> DerivedCmp(ys, xs) == Greater
    decreases |xs|
  {
    if |xs| > 0 {
      DerivedCmpFlip(xs[1..], ys[1..]);
    }
  }

  /** The derived order is transitive. */
  lemma {:induction false} DerivedCmpTransitive(xs: seq<nat>, ys: seq<nat>, zs: seq<nat>)
    requires |xs| == |ys| == |zs|
    ensures DerivedCmp(xs, ys) == Less && DerivedCmp(ys, zs) == Less ==> DerivedCmp(xs, zs) == Less
    decreases |xs|
  {
    if |xs| > 0 {
      DerivedCmpTransitive(xs[1..], ys[1..], zs[1..]);
    }
  }

  /** The fields of `CoinValue`, in declaration order. */
  function CoinFields(a: CoinValue): seq<nat>
  {
    [a.micros]
  }

  /** The fields of `BlockHeight`, in declaration order. */
  function HeightFields(h: BlockHeight): seq<nat>
  {
    [h.height]
  }

  /** The derived `Ord` of `CoinValue`. */
  function CompareCoins(a: CoinValue, b: CoinValue): Ordering
  {
    DerivedCmp(CoinFields(a), CoinFields(b))
  }

  /** The derived `Ord` of `BlockHeight`. */
  function CompareHeights(a: BlockHeight, b: BlockHeight): Ordering
  {
    DerivedCmp(HeightFields(a), HeightFields(b))
  }

  /** The derived order of `CoinValue` is the numeric order of the count. */
  lemma CoinOrderIsNumeric(a: CoinValue, b: CoinValue)
    ensures CompareCoins(a, b) == Less <==> a.micros < b.micros
    ensures CompareCoins(a, b) == Equal <==> a == b
    ensures CompareCoins(a, b) == Greater <==> a.micros > b.micros
  {
    DerivedCmpEqual(CoinFields(a), CoinFields(b));
  }

  /** The derived order of `BlockHeight` is the numeric order of the height. */
  lemma HeightOrderIsNumeric(x: BlockHeight, y: BlockHeight)
    ensures CompareHeights(x, y) == Less <==> x.height < y.height
    ensures CompareHeights(x, y) == Equal <==> x == y
    ensures CompareHeights(x, y) == Greater <==> x.height > y.height
  {
    DerivedCmpEqual(HeightFields(x), HeightFields(y));
  }
}
