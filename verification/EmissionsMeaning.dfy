/** The figures of the emissions reports, stated without the functions that compute
    them. */
module EmissionsMeaning {
  import opened Options
  import opened FuelAllocation
  import opened VoyageEmissions

  /** The CO2 of an amount of fuel: the factor of the grade at the end of the report's
      period, nine decimals, rounded down, if the product fits 64 bits. */
  lemma Co2Meaning(r: FuelReport, amount: nat, registry: Registry)
    ensures var factor, co2 := registry(r.grade, r.periodTo), Co2Of(r, amount, registry);
            && (co2 == Err(FactorUnavailable) <==> factor == None)
            && (co2 == Err(ZeroFactor) <==> factor == Some(0))
            && (co2 == Err(Overflow) <==> factor.Some? && factor.value > 0 && amount * factor.value > 0xFFFF_FFFF_FFFF_FFFF)
            && (co2.Ok? <==> factor.Some? && factor.value > 0 && amount * factor.value <= 0xFFFF_FFFF_FFFF_FFFF)
            && (co2.Ok? ==> 0 <= amount * factor.value - 1_000_000_000 * co2.value < 1_000_000_000)
  {
    var factor := registry(r.grade, r.periodTo);
    if factor.Some? {
      GuardIsExact(amount, factor.value);
      QuotientBounds(amount * factor.value, 1_000_000_000);
    }
  }

  /** amount * factor with nine decimals, rounded down. */
  ghost function Nanos(amount: nat, factor: nat): nat { amount * factor / 1_000_000_000 }

  lemma RowMeaning(r: FuelReport, amount: nat, registry: Registry)
    requires Co2Of(r, amount, registry).Ok?
    ensures registry(r.grade, r.periodTo).Some? && PostingOf(r, amount, registry).fuel == amount
    ensures PostingOf(r, amount, registry).co2 == Nanos(amount, registry(r.grade, r.periodTo).value)
  {}

  lemma NothingOfNothing(factor: nat)
    ensures Nanos(0, factor) == 0
  {
    assert 0 * factor == 0;
  }

  /** The fuel and CO2 of the reports, added up one by one. */
  ghost function Fuel(rs: seq<FuelReport>): nat { if rs == [] then 0 else Fuel(rs[..|rs| - 1]) + rs[|rs| - 1].fuel }

  ghost function Co2(rs: seq<FuelReport>, registry: Registry): nat {
    if rs == [] then 0
    else
      var r := rs[|rs| - 1];
      var factor := registry(r.grade, r.periodTo);
      Co2(rs[..|rs| - 1], registry) + if factor.Some? then Nanos(r.fuel, factor.value) else 0
  }

  lemma CompilableSplit(rs: seq<FuelReport>, registry: Registry)
    requires Compilable(rs, registry) && rs != []
    ensures Compilable(rs[..|rs| - 1], registry) && Co2Of(rs[|rs| - 1], rs[|rs| - 1].fuel, registry).Ok?
  {
    hide Co2Of;
  }

  lemma {:induction false} PostingsMeaning(rs: seq<FuelReport>, registry: Registry)
    requires Compilable(rs, registry)
    ensures FuelOf(AnnualPostings(rs, registry)) == Fuel(rs)
    ensures Co2In(AnnualPostings(rs, registry)) == Co2(rs, registry)
  {
    if rs != [] {
      var n := |rs| - 1;
      CompilableSplit(rs, registry);
      hide Nanos, Co2Of, PostingOf, LedgerOf, Compilable;
      RowMeaning(rs[n], rs[n].fuel, registry);
      PostingsMeaning(rs[..n], registry);
      SumSnoc(AnnualPostings(rs[..n], registry), PostingOf(rs[n], rs[n].fuel, registry));
    }
  }

  /** A compiled report's totals are the sums over all fuel reports. */
  lemma AnnualMeaning(rs: seq<FuelReport>, registry: Registry)
    requires Compilable(rs, registry)
    ensures var l := LedgerOf(AnnualPostings(rs, registry));
            l.fuel == Fuel(rs) && l.co2 == Co2(rs, registry) && l.count == |rs|
  {
    hide Compilable, LedgerOf;
    PostingsMeaning(rs, registry);
    LedgerSums(AnnualPostings(rs, registry), "");
    PostingCount(rs, registry);
  }

  lemma {:induction false} PostingCount(rs: seq<FuelReport>, registry: Registry)
    ensures |AnnualPostings(rs, registry)| == |rs|
  {
    hide PostingOf;
    if rs != [] { PostingCount(rs[..|rs| - 1], registry); }
  }

  /** The grades are listed in the order in which they first appear: what an earlier part
      of the postings lists comes first. */
  lemma {:induction false} GradesInOrderOfAppearance(ps: seq<Posting>, k: nat)
    requires k <= |ps|
    ensures LedgerOf(ps[..k]).order <= LedgerOf(ps).order
  {
    if k < |ps| {
      var n := |ps| - 1;
      assert ps[..n][..k] == ps[..k];
      GradesInOrderOfAppearance(ps[..n], k);
    } else {
      assert ps[..k] == ps;
    }
  }

  /** A grade's entry shows the factor of its first posting. */
  lemma {:induction false} FactorOfTheFirst(ps: seq<Posting>, grade: string)
    ensures (grade in LedgerOf(ps).perGrade <==> OfGrade(ps, grade) != [])
    ensures grade in LedgerOf(ps).perGrade ==> LedgerOf(ps).perGrade[grade].factor == OfGrade(ps, grade)[0].factor
  {
    if ps != [] { FactorOfTheFirst(ps[..|ps| - 1], grade); }
  }

  /** The CO2 a voyage draws from the reports: that of each one's share. */
  ghost function VoyageCo2(rs: seq<FuelReport>, w: Window, registry: Registry): nat {
    if rs == [] then 0
    else
      var r := rs[|rs| - 1];
      var factor := registry(r.grade, r.periodTo);
      VoyageCo2(rs[..|rs| - 1], w, registry) +
      if factor.Some? then Nanos(AllocateOverlap(r.periodFrom, r.periodTo, w, r.fuel), factor.value) else 0
  }

  /** A voyage's total is the sum over the shares of all reports. */
  lemma {:induction false} VoyageMeaning(rs: seq<FuelReport>, w: Window, registry: Registry)
    requires VoyageComputable(rs, w, registry)
    ensures Co2In(VoyagePostings(rs, w, registry)) == VoyageCo2(rs, w, registry)
  {
    if rs != [] {
      var n := |rs| - 1;
      assert forall i :: 0 <= i < n ==> rs[..n][i] == rs[i];
      var ps, r := VoyagePostings(rs[..n], w, registry), rs[n];
      assert Share(r, w) > 0 ==> Co2Of(r, Share(r, w), registry).Ok?;
      assert Share(r, w) == AllocateOverlap(r.periodFrom, r.periodTo, w, r.fuel);
      hide Nanos, Co2Of, PostingOf, LedgerOf, AllocateOverlap, Share;
      VoyageMeaning(rs[..n], w, registry);
      if Share(r, w) == 0 {
        assert ps + [] == ps;
        if registry(r.grade, r.periodTo).Some? { NothingOfNothing(registry(r.grade, r.periodTo).value); }
      } else {
        RowMeaning(r, Share(r, w), registry);
        SumSnoc(ps, PostingOf(r, Share(r, w), registry));
      }
    }
  }

  lemma VoyageLedgerMeaning(v: Voyage, rs: seq<FuelReport>, registry: Registry)
    requires VoyageComputable(rs, v.window, registry)
    ensures LedgerFor(v, rs, registry).co2 == VoyageCo2(rs, v.window, registry)
  {
    hide VoyageComputable, LedgerOf;
    VoyageMeaning(rs, v.window, registry);
    LedgerSums(VoyagePostings(rs, v.window, registry), "");
  }

  // ---- Which voyages are kept ----

  /** Two windows overlap exactly when they share an instant. */
  lemma OverlapMeansSharedInstant(a: Window, b: Window)
    requires a.start < a.end && b.start < b.end
    ensures Overlap(a, b) <==> SharesInstant(a, b)
  {
    if Overlap(a, b) {
      var t := if a.start > b.start then a.start else b.start;
      assert During(a, t) && During(b, t);
    }
  }

  predicate During(w: Window, t: int) { w.start <= t < w.end }

  ghost predicate SharesInstant(a: Window, b: Window) { exists t :: During(a, t) && During(b, t) }

  lemma {:induction false} KeptUpToMembers(vs: seq<Voyage>, n: nat, v: Voyage)
    requires n <= |vs|
    ensures v in KeptUpTo(vs, n) <==> exists i :: 0 <= i < n && vs[i] == v && !Clashes(vs, i)
  {
    hide Clashes;
    if n > 0 { KeptUpToMembers(vs, n - 1, v); }
  }

  /** Exactly the voyages of positive duration that share no instant with another such
      voyage are kept. */
  lemma KeptExactlyWhen(vs: seq<Voyage>, v: Voyage)
    ensures var c := Computable(vs);
            && (v in c <==> v in vs && v.window.start < v.window.end)
            && (v in Kept(vs) <==>
                  exists i :: 0 <= i < |c| && c[i] == v &&
                    forall j :: 0 <= j < |c| && j != i ==> !SharesInstant(v.window, c[j].window))
  {
    var c := Computable(vs);
    ComputableMembers(vs);
    KeptUpToMembers(c, |c|, v);
    forall i, j | 0 <= i < |c| && 0 <= j < |c| ensures Overlap(c[i].window, c[j].window) <==> SharesInstant(c[i].window, c[j].window) {
      assert c[i] in c && c[j] in c;
      OverlapMeansSharedInstant(c[i].window, c[j].window);
    }
    hide Overlap, Computable, SharesInstant;
    forall i | 0 <= i < |c| ensures !Clashes(c, i) <==> forall j :: 0 <= j < |c| && j != i ==> !SharesInstant(c[i].window, c[j].window) {}
  }
}
