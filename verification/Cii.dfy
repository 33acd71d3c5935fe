/** The Carbon Intensity Indicator: the fixed-point decimal parser, the rating
    boundaries, and the integer part of the CII computation. */
module Cii {
  import opened Options
  import opened Text

  const NANO: nat := 1_000_000_000
  const U64_MAX: nat := 0xFFFF_FFFF_FFFF_FFFF

  /** The outcome of parsing: every error is handled alike by the callers. */
  datatype Parsed = Nano(value: nat) | Invalid

  // ---- Numerals ----

  function Pow10(k: nat): (r: nat)
    ensures r > 0
  {
    if k == 0 then 1 else 10 * Pow10(k - 1)
  }

  /** n, shifted by k decimal places. */
  function Scaled(n: nat, k: nat): nat { n * Pow10(k) }

  /** The number that a string of digits denotes. */
  function Digits(s: string): nat
    requires AllDigits(s)
  {
    if s == [] then 0 else 10 * Digits(s[..|s| - 1]) + (s[|s| - 1] as int - '0' as int)
  }

  /** `t` is `whole`, or `whole . fraction`, as a plain decimal. */
  ghost predicate Splits(t: string, whole: string, fraction: string) {
    && AllDigits(whole) && AllDigits(fraction) && |fraction| <= 9
    && ((t == whole && t != [] && fraction == []) || t == whole + "." + fraction)
  }

  /** `t` is a plain decimal with at most nine fraction digits whose value is
      n / 1e9: the digits without the dot, scaled to nine places. */
  ghost predicate Denotes(t: string, n: nat) {
    exists whole, fraction :: Splits(t, whole, fraction) && n == Scaled(Digits(whole + fraction), 9 - |fraction|)
  }

  ghost predicate Fits(t: string, n: nat) { n <= U64_MAX && Denotes(t, n) }

  /** What the text means: the exact value, if it is a plain decimal that fits. */
  ghost function Meaning(text: string): Parsed {
    var t := Text.TrimSpace(text);
    if exists n :: Fits(t, n) then var n :| Fits(t, n); Nano(n) else Invalid
  }

  // ---- The parser ----

  function Index(s: string, c: char): (i: nat)
    ensures i <= |s| && (forall j :: 0 <= j < i ==> s[j] != c) && (i < |s| ==> s[i] == c)
  {
    if s == [] || s[0] == c then 0 else 1 + Index(s[1..], c)
  }

  method ScanDigits(s: string) returns (ok: bool)
    ensures ok == AllDigits(s)
  {
    for i := 0 to |s|
      invariant forall j :: 0 <= j < i ==> IsDigit(s[j])
    {
      if s[i] < '0' || s[i] > '9' { return false; }
    }
    return true;
  }

  function Zeros(k: nat): (s: string)
    ensures |s| == k && AllDigits(s) && forall i :: 0 <= i < k ==> s[i] == '0'
  {
    seq(k, i => '0')
  }

  /** The fraction with nine digits. */
  function Padded(fraction: string): (s: string)
    requires |fraction| <= 9
    ensures |s| == 9
  {
    fraction + Zeros(9 - |fraction|)
  }

  /** `%d` into a uint64: an error when the digits do not fit. */
  method ScanUint64(s: string) returns (ok: bool, value: nat)
    requires AllDigits(s)
    ensures ok == (Digits(s) <= U64_MAX)
    ensures ok ==> value == Digits(s)
  {
    value := 0;
    for i := 0 to |s|
      invariant value == Digits(s[..i]) <= U64_MAX
    {
      assert s[..i + 1][..i] == s[..i];
      value := 10 * value + (s[i] as int - '0' as int);
      if value > U64_MAX {
        DigitsGrow(s, i + 1);
        return false, 0;
      }
    }
    assert s[..|s|] == s;
    return true, value;
  }

  /** `strings.Cut` at the first dot. */
  function Before(t: string): string { t[..Index(t, '.')] }

  function Behind(t: string): string {
    var dot := Index(t, '.');
    if dot < |t| then t[dot + 1..] else ""
  }

  method ParseNano(text: string) returns (r: Parsed)
    ensures r == Meaning(text)
  {
    hide Digits, Meaning, Text.TrimSpace, Index, Scaled;
    var t := Text.TrimSpace(text);
    if t == "" { NotDecimal(text); return Invalid; }
    if t[0] == '-' { LeadingMinus(t); NotDecimal(text); return Invalid; }
    var whole, fraction := Before(t), Behind(t);
    if whole == "" { whole := "0"; }
    var ok := ScanDigits(whole);
    if !ok { NotDecimal(text); return Invalid; }
    if |fraction| > 9 { NotDecimal(text); return Invalid; }
    var padded := Padded(fraction);
    PaddingKeepsDigits(fraction);
    ok := ScanDigits(padded);
    if !ok { NotDecimal(text); return Invalid; }
    CutSplits(t);
    WholeAndPadded(Before(t), whole, fraction);
    Means(text, Before(t), fraction);
    hide *;
    var wholePart, fractionPart;
    ok, wholePart := ScanUint64(whole);
    if !ok { return Invalid; }
    DigitsBound(padded);
    Pow10At9();
    ok, fractionPart := ScanUint64(padded);
    if wholePart > (U64_MAX - fractionPart) / NANO { return Invalid; }
    return Nano(wholePart * NANO + fractionPart);
  }

  lemma LeadingMinus(t: string)
    requires t != [] && t[0] == '-'
    ensures !AllDigits(Before(t))
  {
    assert Index(t, '.') > 0;
    assert Before(t)[0] == t[0] && !IsDigit(t[0]);
  }

  lemma PaddingKeepsDigits(s: string)
    requires |s| <= 9
    ensures AllDigits(Padded(s)) <==> AllDigits(s)
  {
    var padded := Padded(s);
    assert forall i :: 0 <= i < |s| ==> s[i] == padded[i];
  }

  lemma CutSplits(t: string)
    requires t != [] && AllDigits(Before(t)) && AllDigits(Behind(t)) && |Behind(t)| <= 9
    ensures Splits(t, Before(t), Behind(t))
  {
    var dot := Index(t, '.');
    if dot < |t| {
      assert t == t[..dot] + [t[dot]] + t[dot + 1..];
    }
  }

  lemma Shift(a: nat, p: nat)
    ensures 10 * (a * p) == a * (10 * p)
  {}

  lemma {:induction false} DigitsOfConcat(a: string, b: string)
    requires AllDigits(a) && AllDigits(b)
    ensures AllDigits(a + b) && Digits(a + b) == Digits(a) * Pow10(|b|) + Digits(b)
  {
    if b == [] {
      assert a + b == a;
    } else {
      var m := |b| - 1;
      assert (a + b)[..|a| + m] == a + b[..m];
      DigitsOfConcat(a, b[..m]);
      assert Digits(a + b) == 10 * Digits(a + b[..m]) + (b[m] as int - '0' as int);
      assert Digits(b) == 10 * Digits(b[..m]) + (b[m] as int - '0' as int);
      assert Pow10(|b|) == 10 * Pow10(m);
      hide Digits, Pow10;
      Shift(Digits(a), Pow10(m));
    }
  }

  lemma {:induction false} DigitsOfZeros(k: nat)
    ensures Digits(Zeros(k)) == 0
  {
    if k > 0 {
      assert Zeros(k)[..k - 1] == Zeros(k - 1);
      DigitsOfZeros(k - 1);
    }
  }

  lemma {:induction false} DigitsBound(s: string)
    requires AllDigits(s)
    ensures Digits(s) < Pow10(|s|)
  {
    if s != [] { DigitsBound(s[..|s| - 1]); }
  }

  lemma {:induction false} DigitsGrow(s: string, i: nat)
    requires AllDigits(s) && i <= |s|
    ensures Digits(s[..i]) <= Digits(s)
  {
    if i == |s| {
      assert s[..i] == s;
    } else {
      var m := |s| - 1;
      assert s[..m][..i] == s[..i];
      DigitsGrow(s[..m], i);
    }
  }

  lemma Pow10At9()
    ensures Pow10(9) == NANO
  {
    assert Pow10(3) == 1000;
    assert Pow10(6) == 1000_000;
  }

  lemma ZeroDigits()
    ensures Digits("") == 0 && Digits("0") == 0
  {
    assert "0"[..0] == "";
  }

  /** Padding the fraction to nine digits scales it: whole * 1e9 + padded is the
      value of the whole numeral. */
  lemma WholeAndPadded(whole: string, given: string, fraction: string)
    requires AllDigits(whole) && AllDigits(fraction) && |fraction| <= 9
    requires given == if whole == "" then "0" else whole
    ensures AllDigits(whole + fraction) && AllDigits(given) && AllDigits(Padded(fraction))
    ensures Scaled(Digits(whole + fraction), 9 - |fraction|) == Digits(given) * NANO + Digits(Padded(fraction))
  {
    ShiftedNumeral(whole, fraction);
    NineBehind(whole, Padded(fraction));
    GivenDigits(whole, given);
    hide *;
  }

  lemma ShiftedNumeral(whole: string, fraction: string)
    requires AllDigits(whole) && AllDigits(fraction) && |fraction| <= 9
    ensures AllDigits(whole + fraction) && AllDigits(Padded(fraction)) && AllDigits(whole + Padded(fraction))
    ensures Scaled(Digits(whole + fraction), 9 - |fraction|) == Digits(whole + Padded(fraction))
  {
    hide Digits, Scaled, Zeros;
    var zeros := Zeros(9 - |fraction|);
    DigitsJoin(whole, fraction);
    DigitsJoin(fraction, zeros);
    DigitsJoin(whole, fraction + zeros);
    assert whole + fraction + zeros == whole + (fraction + zeros);
    ZerosScale(whole + fraction, |zeros|);
  }

  /** An absent whole part counts as zero. */
  lemma GivenDigits(whole: string, given: string)
    requires AllDigits(whole) && given == if whole == "" then "0" else whole
    ensures AllDigits(given) && Digits(given) == Digits(whole)
  {
    ZeroDigits();
  }

  lemma DigitsJoin(a: string, b: string)
    requires AllDigits(a) && AllDigits(b)
    ensures AllDigits(a + b)
  {}

  lemma ZerosScale(s: string, k: nat)
    requires AllDigits(s)
    ensures AllDigits(s + Zeros(k)) && Digits(s + Zeros(k)) == Scaled(Digits(s), k)
  {
    DigitsOfZeros(k);
    DigitsOfConcat(s, Zeros(k));
  }

  lemma NineBehind(whole: string, nine: string)
    requires AllDigits(whole) && AllDigits(nine) && |nine| == 9
    ensures AllDigits(whole + nine) && Digits(whole + nine) == Digits(whole) * NANO + Digits(nine)
  {
    DigitsOfConcat(whole, nine);
    Pow10At9();
  }

  /** A split can only happen at the first dot. */
  lemma CutIsUnique(t: string, whole: string, fraction: string)
    requires Splits(t, whole, fraction)
    ensures whole == Before(t) && fraction == Behind(t)
  {
    var dot := Index(t, '.');
    if t != whole {
      assert t[|whole|] == '.';
      assert forall i :: 0 <= i < |whole| ==> t[i] == whole[i];
      assert dot == |whole|;
    }
  }

  lemma SplitsAtTheCut(t: string)
    ensures forall whole, fraction :: Splits(t, whole, fraction) ==> Splits(t, Before(t), Behind(t))
  {
    forall whole, fraction | Splits(t, whole, fraction) ensures Splits(t, Before(t), Behind(t)) {
      CutIsUnique(t, whole, fraction);
    }
  }

  lemma NotDecimal(text: string)
    requires !Splits(Text.TrimSpace(text), Before(Text.TrimSpace(text)), Behind(Text.TrimSpace(text)))
    ensures Meaning(text) == Invalid
  {
    hide Splits, Before, Behind, Text.TrimSpace, Digits, Scaled;
    SplitsAtTheCut(Text.TrimSpace(text));
  }

  lemma DenotesOne(t: string, whole: string, fraction: string, m: nat)
    requires Splits(t, whole, fraction) && AllDigits(whole + fraction) && Denotes(t, m)
    ensures m == Scaled(Digits(whole + fraction), 9 - |fraction|)
  {
    hide Digits, Scaled;
    var w, f :| Splits(t, w, f) && m == Scaled(Digits(w + f), 9 - |f|);
    CutIsUnique(t, whole, fraction);
    CutIsUnique(t, w, f);
  }

  lemma Means(text: string, whole: string, fraction: string)
    requires Splits(Text.TrimSpace(text), whole, fraction) && AllDigits(whole + fraction)
    ensures var n := Scaled(Digits(whole + fraction), 9 - |fraction|);
            Meaning(text) == if n <= U64_MAX then Nano(n) else Invalid
  {
    hide Digits, Text.TrimSpace, Scaled;
    var t := Text.TrimSpace(text);
    var n := Scaled(Digits(whole + fraction), 9 - |fraction|);
    assert Denotes(t, n);
    hide Denotes, Splits;
    assert n <= U64_MAX ==> Fits(t, n);
    forall m | Fits(t, m) ensures m == n {
      DenotesOne(t, whole, fraction, m);
    }
  }

  // ---- Round trip ----

  /** Decimal notation without leading zeros. */
  function Decimal(n: nat): (s: string)
    ensures s != [] && AllDigits(s)
  {
    var last := [('0' as int + n % 10) as char];
    if n < 10 then last else Decimal(n / 10) + last
  }

  /** Exactly `k` digits, with leading zeros. */
  function Fixed(n: nat, k: nat): (s: string)
    ensures |s| == k && AllDigits(s)
  {
    if k == 0 then [] else Fixed(n / 10, k - 1) + [('0' as int + n % 10) as char]
  }

  /** The whole part, a dot and nine digits. */
  function PrintNano(n: nat): string { Decimal(n / NANO) + "." + Fixed(n % NANO, 9) }

  lemma {:induction false} DigitsOfDecimal(n: nat)
    ensures Digits(Decimal(n)) == n
  {
    if n < 10 {
      assert Decimal(n)[..0] == [];
    } else {
      DigitsOfDecimal(n / 10);
      assert Decimal(n)[..|Decimal(n)| - 1] == Decimal(n / 10);
    }
  }

  lemma TenthBelow(n: nat, p: nat)
    ensures n < 10 * p ==> n / 10 < p
  {}

  lemma DigitsSnoc(s: string, d: int)
    requires AllDigits(s) && 0 <= d <= 9
    ensures AllDigits(s + [('0' as int + d) as char]) && Digits(s + [('0' as int + d) as char]) == 10 * Digits(s) + d
  {
    assert (s + [('0' as int + d) as char])[..|s|] == s;
  }

  lemma {:induction false} DigitsOfFixed(n: nat, k: nat)
    requires n < Pow10(k)
    ensures Digits(Fixed(n, k)) == n
  {
    if k > 0 {
      assert Fixed(n, k) == Fixed(n / 10, k - 1) + [('0' as int + n % 10) as char];
      hide Fixed;
      TenthBelow(n, Pow10(k - 1));
      DigitsOfFixed(n / 10, k - 1);
      DigitsSnoc(Fixed(n / 10, k - 1), n % 10);
    }
  }

  lemma PrintIsTrimmed(n: nat)
    ensures Text.TrimSpace(PrintNano(n)) == PrintNano(n)
  {
    hide Decimal, Fixed;
    var s := PrintNano(n);
    assert IsDigit(Decimal(n / NANO)[0]) && IsDigit(Fixed(n % NANO, 9)[8]);
    assert s[0] == Decimal(n / NANO)[0] && s[|s| - 1] == Fixed(n % NANO, 9)[8];
  }

  /** Parsing inverts printing for every uint64; a printed value beyond uint64 is
      an error, never a wrapped value. */
  lemma RoundTrip(n: nat)
    ensures Meaning(PrintNano(n)) == if n <= U64_MAX then Nano(n) else Invalid
  {
    var whole, fraction := Decimal(n / NANO), Fixed(n % NANO, 9);
    PrintIsTrimmed(n);
    DigitsOfDecimal(n / NANO);
    Pow10At9();
    DigitsOfFixed(n % NANO, 9);
    DigitsOfConcat(whole, fraction);
    assert Pow10(0) == 1;
    hide Digits, Meaning, Pow10, Decimal, Fixed;
    assert Splits(PrintNano(n), whole, fraction);
    Means(PrintNano(n), whole, fraction);
  }

  // ---- Rating boundaries ----

  ghost predicate Ascending(texts: seq<string>) {
    forall i, j :: 0 <= i < j < |texts| ==> Value(texts[i]) < Value(texts[j])
  }

  /** The value the rating reads: zero where parsing fails. */
  ghost function Value(text: string): nat {
    match Meaning(text) case Nano(v) => v case Invalid => 0
  }

  /** The rating boundaries of a configuration that loads. */
  ghost predicate Validated(texts: seq<string>) {
    |texts| == 4 && (forall i :: 0 <= i < 4 ==> Meaning(texts[i]).Nano?) && Ascending(texts)
  }

  method ValidateBoundaries(texts: seq<string>) returns (ok: bool)
    ensures ok <==> Validated(texts)
  {
    hide Meaning;
    if |texts| != 4 { return false; }
    var previous := 0;
    for i := 0 to 4
      invariant forall j :: 0 <= j < i ==> Meaning(texts[j]).Nano?
      invariant forall j, k :: 0 <= j < k < i ==> Value(texts[j]) < Value(texts[k])
      invariant i > 0 ==> previous == Value(texts[i - 1])
    {
      var value := ParseNano(texts[i]);
      if value.Invalid? { return false; }
      assert Value(texts[i]) == value.value;
      if i > 0 && value.value <= previous {
        assert !(Value(texts[i - 1]) < Value(texts[i]));
        return false;
      }
      previous := value.value;
    }
    return true;
  }

  // ---- Rating ----

  /** required * multiplier / 1e9, rounded down. */
  function Boundary(required: nat, multiplier: nat): nat { required * multiplier / NANO }

  /** The four boundaries the rating compares with, in order. */
  ghost function Boundaries(required: nat, texts: seq<string>): (b: seq<nat>)
    ensures |b| == 4
  {
    seq(4, i => Boundary(required, Multiplier(texts, i)))
  }

  ghost function Multiplier(texts: seq<string>, i: int): nat { if 0 <= i < |texts| then Value(texts[i]) else 0 }

  /** 0 is A, 4 is E: the leading boundaries that lie below the attained value. */
  ghost function Leading(attained: nat, boundaries: seq<nat>): (k: nat)
    ensures k <= |boundaries|
    ensures forall i :: 0 <= i < k ==> boundaries[i] < attained
    ensures k < |boundaries| ==> attained <= boundaries[k]
  {
    if boundaries == [] || attained <= boundaries[0] then 0 else 1 + Leading(attained, boundaries[1..])
  }

  ghost function RatingOf(attained: nat, required: nat, texts: seq<string>): nat {
    Leading(attained, Boundaries(required, texts))
  }

  lemma LeadingIs(attained: nat, boundaries: seq<nat>, k: nat)
    requires k <= |boundaries| && (forall i :: 0 <= i < k ==> boundaries[i] < attained)
    requires k < |boundaries| ==> attained <= boundaries[k]
    ensures Leading(attained, boundaries) == k
  {
    var m := Leading(attained, boundaries);
    assert !(m < k) && !(k < m);
  }

  /** A fifth boundary text would index past the four slots. */
  method Rate(attained: nat, required: nat, texts: seq<string>) returns (letter: char)
    requires |texts| <= 4
    ensures letter == "ABCDE"[RatingOf(attained, required, texts)]
  {
    hide Meaning, Leading;
    var multipliers := new nat[4](i => 0);
    for i := 0 to |texts|
      invariant forall j :: 0 <= j < 4 ==> multipliers[j] == if j < i then Value(texts[j]) else 0
    {
      var value := ParseNano(texts[i]);
      multipliers[i] := if value.Nano? then value.value else 0;
    }
    ghost var boundaries := Boundaries(required, texts);
    var ratings := ['A', 'B', 'C', 'D'];
    for i := 0 to 4
      invariant forall j :: 0 <= j < i ==> boundaries[j] < attained
    {
      if attained <= Boundary(required, multipliers[i]) {
        LeadingIs(attained, boundaries, i);
        return ratings[i];
      }
    }
    LeadingIs(attained, boundaries, 4);
    return 'E';
  }

  lemma BoundaryAscends(required: nat, a: nat, b: nat)
    requires a <= b
    ensures Boundary(required, a) <= Boundary(required, b)
  {
    MulAscends(required, a, b);
  }

  lemma MulAscends(k: nat, a: nat, b: nat)
    requires a <= b
    ensures k * a <= k * b
  {}

  /** For a validated configuration the rating counts the boundaries strictly
      below the attained value. */
  lemma RatingCountsBoundaries(attained: nat, required: nat, texts: seq<string>)
    requires Validated(texts)
    ensures RatingOf(attained, required, texts)
            == CountBelow(attained, Boundaries(required, texts))
  {
    hide Meaning, Value;
    var b, k := Boundaries(required, texts), RatingOf(attained, required, texts);
    forall i | k <= i < 4 ensures attained <= b[i] {
      if k < i { assert Value(texts[k]) < Value(texts[i]); }
      BoundaryAscends(required, Value(texts[k]), Value(texts[i]));
    }
    CountSplit(attained, b, k);
  }

  ghost function CountBelow(attained: nat, boundaries: seq<nat>): nat {
    if boundaries == [] then 0
    else (if boundaries[0] < attained then 1 else 0) + CountBelow(attained, boundaries[1..])
  }

  lemma {:induction false} CountSplit(attained: nat, b: seq<nat>, k: nat)
    requires k <= |b| && (forall i :: 0 <= i < k ==> b[i] < attained) && (forall i :: k <= i < |b| ==> attained <= b[i])
    ensures CountBelow(attained, b) == k
  {
    if b != [] {
      CountSplit(attained, b[1..], if k == 0 then 0 else k - 1);
    }
  }

  // ---- The computation ----

  datatype Entry = Entry(usesDwt: bool, reductions: map<int, string>, boundaries: seq<string>)

  datatype Outcome =
    | NoConfig | UnknownShipType | UnknownYear | NoCapacity | NoDistance | AttainedOverflows | NoRequired
    | Computed(attained: nat, required: nat, rating: nat)

  /** co2_milli * 1e15 / (capacity * distance_milli), rounded down. */
  function Attained(co2: nat, capacity: nat, distance: nat): nat
    requires capacity > 0 && distance > 0
  {
    Positive(capacity, distance);
    co2 * 1_000_000_000_000_000 / (capacity * distance)
  }

  lemma Positive(a: nat, b: nat)
    requires a > 0 && b > 0
    ensures a * b > 0
  {}

  /** `requiredOf` stands for the reference line (1 - z) a capacity^(-c). */
  ghost function ComputeCii(config: Option<map<string, Entry>>, requiredOf: (Entry, string, nat) -> Option<nat>,
                            shipType: string, gt: nat, dwt: nat, year: int, co2: nat, distance: nat): Outcome
  {
    if config.None? then NoConfig
    else if shipType !in config.value then UnknownShipType
    else
      var entry := config.value[shipType];
      if year !in entry.reductions then UnknownYear
      else
        var capacity := if entry.usesDwt then dwt else gt;
        if capacity == 0 then NoCapacity
        else if distance == 0 then NoDistance
        else
          var attained := Attained(co2, capacity, distance);
          if attained > U64_MAX then AttainedOverflows
          else
            var required := requiredOf(entry, entry.reductions[year], capacity);
            if required.None? then NoRequired
            else Computed(attained, required.value, RatingOf(attained, required.value, entry.boundaries))
  }

  lemma DivideAscends(a: nat, b: nat, d: nat, e: nat)
    requires a <= b && 0 < e <= d
    ensures a / d <= b / e
  {
    var q := a / d;
    assert q * d <= a;
    MulAscends(q, e, d);
    Quotient(q, b, e);
  }

  lemma Quotient(q: nat, b: nat, e: nat)
    requires e > 0 && q * e <= b
    ensures q <= b / e
  {
    if q > b / e {
      MulAscends(e, b / e + 1, q);
    }
  }

  lemma AttainedAscends(co2: nat, co2': nat, capacity: nat, distance: nat, distance': nat)
    requires capacity > 0 && co2 <= co2' && 0 < distance' <= distance
    ensures Attained(co2, capacity, distance) <= Attained(co2', capacity, distance')
  {
    Positive(capacity, distance');
    MulAscends(capacity, distance', distance);
    DivideAscends(co2 * 1_000_000_000_000_000, co2' * 1_000_000_000_000_000, capacity * distance, capacity * distance');
  }

  lemma LeadingAscends(attained: nat, attained': nat, boundaries: seq<nat>)
    requires attained <= attained'
    ensures Leading(attained, boundaries) <= Leading(attained', boundaries)
  {
    var k, k' := Leading(attained, boundaries), Leading(attained', boundaries);
    assert !(k' < k);
  }

  /** For a fixed ship and year, more CO2 or less distance never improves the
      rating; and where the worse figures are computable so are the better ones. */
  lemma WorseNeverRatesBetter(config: Option<map<string, Entry>>, requiredOf: (Entry, string, nat) -> Option<nat>,
                              shipType: string, gt: nat, dwt: nat, year: int,
                              co2: nat, co2': nat, distance: nat, distance': nat)
    requires co2 <= co2' && distance' <= distance
    requires ComputeCii(config, requiredOf, shipType, gt, dwt, year, co2', distance').Computed?
    ensures var better := ComputeCii(config, requiredOf, shipType, gt, dwt, year, co2, distance);
            var worse := ComputeCii(config, requiredOf, shipType, gt, dwt, year, co2', distance');
            && better.Computed? && better.required == worse.required
            && better.attained <= worse.attained && better.rating <= worse.rating
  {
    var entry := config.value[shipType];
    var capacity := if entry.usesDwt then dwt else gt;
    AttainedAscends(co2, co2', capacity, distance, distance');
    hide Attained, Leading;
    var required := requiredOf(entry, entry.reductions[year], capacity);
    LeadingAscends(Attained(co2, capacity, distance), Attained(co2', capacity, distance'),
      Boundaries(required.value, entry.boundaries));
  }

  // ---- What the figures mean ----

  lemma Remainder(n: nat, d: nat)
    requires d > 0
    ensures 0 <= n - n / d * d < d
  {
    assert n == d * (n / d) + n % d;
  }

  /** A boundary is the required CII times the multiplier in nano, rounded down. */
  lemma BoundaryMeaning(required: nat, multiplier: nat)
    ensures 0 <= required * multiplier - Boundary(required, multiplier) * 1_000_000_000 < 1_000_000_000
  {
    Remainder(required * multiplier, 1_000_000_000);
  }

  /** An attained CII is computed exactly when the ship type and year are configured, the
      configured capacity and the distance are there, it fits 64 bits and the reference
      line is defined; and it is co2 * 1e15 / (capacity * distance), rounded down. */
  lemma ComputedMeaning(config: Option<map<string, Entry>>, requiredOf: (Entry, string, nat) -> Option<nat>,
                        shipType: string, gt: nat, dwt: nat, year: int, co2: nat, distance: nat)
    ensures var outcome := ComputeCii(config, requiredOf, shipType, gt, dwt, year, co2, distance);
            && (outcome == NoConfig <==> config == None)
            && (outcome == UnknownShipType <==> config.Some? && shipType !in config.value)
            && (config.Some? && shipType in config.value ==>
                  var entry := config.value[shipType];
                  var capacity := if entry.usesDwt then dwt else gt;
                  && (outcome == UnknownYear <==> year !in entry.reductions)
                  && (outcome == NoCapacity <==> year in entry.reductions && capacity == 0)
                  && (outcome == NoDistance <==> year in entry.reductions && capacity > 0 && distance == 0)
                  && (outcome.Computed? ==>
                        && year in entry.reductions && capacity > 0 && distance > 0
                        && requiredOf(entry, entry.reductions[year], capacity) == Some(outcome.required)
                        && outcome.attained <= 0xFFFF_FFFF_FFFF_FFFF
                        && 0 <= co2 * 1_000_000_000_000_000 - outcome.attained * (capacity * distance) < capacity * distance
                        && outcome.rating == RatingOf(outcome.attained, outcome.required, entry.boundaries))
                  && (outcome in {AttainedOverflows, NoRequired} ==>
                        && year in entry.reductions && capacity > 0 && distance > 0
                        && (requiredOf(entry, entry.reductions[year], capacity) == None ||
                            co2 * 1_000_000_000_000_000 >= 0x1_0000_0000_0000_0000 * (capacity * distance))))
  {
    hide RatingOf;
    if config.Some? && shipType in config.value {
      var entry := config.value[shipType];
      var capacity := if entry.usesDwt then dwt else gt;
      if capacity > 0 && distance > 0 {
        AttainedMeaning(co2, capacity, distance);
        hide Attained;
      }
    }
  }

  lemma AttainedMeaning(co2: nat, capacity: nat, distance: nat)
    requires capacity > 0 && distance > 0
    ensures var a := Attained(co2, capacity, distance);
            && 0 <= co2 * 1_000_000_000_000_000 - a * (capacity * distance) < capacity * distance
            && (a > 0xFFFF_FFFF_FFFF_FFFF ==> co2 * 1_000_000_000_000_000 >= 0x1_0000_0000_0000_0000 * (capacity * distance))
  {
    Positive(capacity, distance);
    var n, d, a := co2 * 1_000_000_000_000_000, capacity * distance, Attained(co2, capacity, distance);
    assert a == n / d;
    hide Attained;
    Remainder(n, d);
    if a > 0xFFFF_FFFF_FFFF_FFFF { MulAscends(d, 0x1_0000_0000_0000_0000, a); }
  }
}
