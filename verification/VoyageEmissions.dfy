/** CO2 from fuel reports: the annual compile, the emissions of one voyage, and
    the summary that excludes overlapping voyages. */
module VoyageEmissions {
  import opened Options
  import opened FuelAllocation
  import Outbox

  const NANO: nat := 1_000_000_000

  datatype Error =
    | FactorUnavailable | ZeroFactor | Overflow
    | WindowIncomplete | ZeroDurationWindow | OverlappingWindow | OutboxRefused

  datatype Result<T> = Ok(value: T) | Err(error: Error)

  datatype FuelReport = FuelReport(grade: string, fuel: nat, periodFrom: int, periodTo: int)

  /** The source-cited factor registry: grade and date to a nano factor. */
  type Registry = (string, int) -> Option<nat>

  // ---- CO2 of an amount of fuel ----

  function CO2MilliTonnes(fuel: nat, factor: nat): Result<nat> {
    if factor == 0 then Err(ZeroFactor)
    else if fuel > U64_MAX / factor then Err(Overflow)
    else Ok(fuel * factor / NANO)
  }

  /** The guard admits exactly the products that fit 64 bits. */
  lemma GuardIsExact(fuel: nat, factor: nat)
    ensures CO2MilliTonnes(fuel, factor).Ok? <==> factor > 0 && fuel * factor <= U64_MAX
  {
    if factor > 0 {
      QuotientBounds(U64_MAX, factor);
      var q := U64_MAX / factor;
      if fuel <= q {
        CancelAtMost(factor, fuel, q);
      } else {
        CancelAtMost(factor, q + 1, fuel);
        assert factor * (q + 1) == factor * q + factor;
      }
    }
  }

  /** The CO2 of part of a report, resolved at the end of the report's period. */
  function Co2Of(r: FuelReport, amount: nat, registry: Registry): Result<nat> {
    match registry(r.grade, r.periodTo)
    case None => Err(FactorUnavailable)
    case Some(factor) => CO2MilliTonnes(amount, factor)
  }

  function Co2Amount(r: FuelReport, amount: nat, registry: Registry): nat {
    match Co2Of(r, amount, registry) case Ok(v) => v case Err(_) => 0
  }

  // ---- Totals per fuel grade ----

  datatype Posting = Posting(grade: string, fuel: nat, co2: nat, factor: nat)

  datatype GradeTotal = GradeTotal(fuel: nat, co2: nat, factor: nat)

  /** The running totals: one entry per grade, in order of first appearance. */
  datatype Ledger = Ledger(order: seq<string>, perGrade: map<string, GradeTotal>, fuel: nat, co2: nat, count: nat)

  const EMPTY_LEDGER := Ledger([], map[], 0, 0, 0)

  function Post(l: Ledger, p: Posting): Ledger {
    var first := p.grade !in l.perGrade;
    var t := if first then GradeTotal(0, 0, p.factor) else l.perGrade[p.grade];
    Ledger(if first then l.order + [p.grade] else l.order,
           l.perGrade[p.grade := t.(fuel := t.fuel + p.fuel, co2 := t.co2 + p.co2)],
           l.fuel + p.fuel, l.co2 + p.co2, l.count + 1)
  }

  function LedgerOf(ps: seq<Posting>): Ledger {
    if ps == [] then EMPTY_LEDGER else Post(LedgerOf(ps[..|ps| - 1]), ps[|ps| - 1])
  }

  function FuelOf(ps: seq<Posting>): nat {
    if ps == [] then 0 else FuelOf(ps[..|ps| - 1]) + ps[|ps| - 1].fuel
  }

  function Co2In(ps: seq<Posting>): nat {
    if ps == [] then 0 else Co2In(ps[..|ps| - 1]) + ps[|ps| - 1].co2
  }

  function OfGrade(ps: seq<Posting>, grade: string): seq<Posting> {
    if ps == [] then []
    else OfGrade(ps[..|ps| - 1], grade) + if ps[|ps| - 1].grade == grade then [ps[|ps| - 1]] else []
  }

  ghost function Co2Over(order: seq<string>, m: map<string, GradeTotal>): nat {
    if order == [] then 0
    else Co2Over(order[..|order| - 1], m) + if order[|order| - 1] in m then m[order[|order| - 1]].co2 else 0
  }

  ghost predicate Distinct(order: seq<string>) {
    forall i, j :: 0 <= i < j < |order| ==> order[i] != order[j]
  }

  lemma SumSnoc(ps: seq<Posting>, p: Posting)
    ensures FuelOf(ps + [p]) == FuelOf(ps) + p.fuel && Co2In(ps + [p]) == Co2In(ps) + p.co2
    ensures LedgerOf(ps + [p]) == Post(LedgerOf(ps), p)
  {
    assert (ps + [p])[..|ps|] == ps;
  }

  /** Each grade's entry is the sum of that grade's postings, every grade posted
      has one entry, and the grand totals are the sums over all postings. */
  lemma {:induction false} LedgerSums(ps: seq<Posting>, grade: string)
    ensures var l := LedgerOf(ps);
            && l.fuel == FuelOf(ps) && l.co2 == Co2In(ps) && l.count == |ps|
            && (grade in l.perGrade <==> OfGrade(ps, grade) != [])
            && (grade in l.perGrade ==>
                  && l.perGrade[grade].fuel == FuelOf(OfGrade(ps, grade))
                  && l.perGrade[grade].co2 == Co2In(OfGrade(ps, grade)))
  {
    if ps != [] {
      var n := |ps| - 1;
      LedgerSums(ps[..n], grade);
      SumSnoc(OfGrade(ps[..n], grade), ps[n]);
      assert OfGrade(ps[..n], grade) + [] == OfGrade(ps[..n], grade);
    }
  }

  lemma {:induction false} UpdateOver(order: seq<string>, m: map<string, GradeTotal>, grade: string, t: GradeTotal)
    requires Distinct(order)
    ensures Co2Over(order, m[grade := t]) - Co2Over(order, m) ==
            if grade in order then t.co2 - (if grade in m then m[grade].co2 else 0) else 0
  {
    if order != [] {
      var n := |order| - 1;
      UpdateOver(order[..n], m, grade, t);
      assert order == order[..n] + [order[n]];
    }
  }

  /** The reported per-grade list has each grade once and adds up to the total. */
  lemma {:induction false} GradesAddUp(ps: seq<Posting>)
    ensures var l := LedgerOf(ps);
            && Distinct(l.order) && (forall g :: g in l.order <==> g in l.perGrade)
            && Co2Over(l.order, l.perGrade) == l.co2
  {
    if ps != [] {
      var n := |ps| - 1;
      GradesAddUp(ps[..n]);
      var l, l' := LedgerOf(ps[..n]), LedgerOf(ps);
      var g := ps[n].grade;
      UpdateOver(l.order, l.perGrade, g, l'.perGrade[g]);
      if g !in l.perGrade {
        assert l'.order[..|l.order|] == l.order;
      }
    }
  }

  // ---- The annual compile ----

  function PostingOf(r: FuelReport, amount: nat, registry: Registry): Posting {
    var factor := registry(r.grade, r.periodTo);
    Posting(r.grade, amount, Co2Amount(r, amount, registry), if factor.Some? then factor.value else 0)
  }

  /** A row's outcome in terms of the factor lookup and the guarded product. */
  lemma RowOutcome(r: FuelReport, amount: nat, registry: Registry)
    ensures var factor := registry(r.grade, r.periodTo);
            && Co2Of(r, amount, registry) ==
               (if factor.None? then Err(FactorUnavailable) else CO2MilliTonnes(amount, factor.value))
            && (Co2Of(r, amount, registry).Ok? ==>
                  PostingOf(r, amount, registry) ==
                  Posting(r.grade, amount, CO2MilliTonnes(amount, factor.value).value, factor.value))
  {
    hide CO2MilliTonnes;
  }

  function AnnualPostings(rs: seq<FuelReport>, registry: Registry): seq<Posting> {
    if rs == [] then []
    else AnnualPostings(rs[..|rs| - 1], registry) + [PostingOf(rs[|rs| - 1], rs[|rs| - 1].fuel, registry)]
  }

  ghost predicate Compilable(rs: seq<FuelReport>, registry: Registry) {
    forall i :: 0 <= i < |rs| ==> Co2Of(rs[i], rs[i].fuel, registry).Ok?
  }

  /** Report i is the first without a usable factor. */
  ghost predicate FailsFirst(rs: seq<FuelReport>, registry: Registry, i: nat) {
    i < |rs| && Co2Of(rs[i], rs[i].fuel, registry).Err? &&
    forall k :: 0 <= k < i ==> Co2Of(rs[k], rs[k].fuel, registry).Ok?
  }

  /** Fails closed on the first report without a usable factor. */
  method CompileAnnual(rs: seq<FuelReport>, registry: Registry) returns (r: Result<Ledger>)
    ensures r.Ok? <==> Compilable(rs, registry)
    ensures forall i: nat :: FailsFirst(rs, registry, i) ==> r == Err(Co2Of(rs[i], rs[i].fuel, registry).error)
    ensures r.Ok? ==> r.value == LedgerOf(AnnualPostings(rs, registry))
  {
    hide Co2Of, CO2MilliTonnes, PostingOf, Post;
    var ledger := EMPTY_LEDGER;
    for i := 0 to |rs|
      invariant ledger == LedgerOf(AnnualPostings(rs[..i], registry))
      invariant forall k :: 0 <= k < i ==> Co2Of(rs[k], rs[k].fuel, registry).Ok?
    {
      var row := rs[i];
      assert rs[..i + 1][..i] == rs[..i];
      RowOutcome(row, row.fuel, registry);
      var factor := registry(row.grade, row.periodTo);
      if factor.None? {
        return Err(FactorUnavailable);
      }
      var co2 := CO2MilliTonnes(row.fuel, factor.value);
      if co2.Err? {
        return Err(co2.error);
      }
      SumSnoc(AnnualPostings(rs[..i], registry), PostingOf(row, row.fuel, registry));
      ledger := Post(ledger, Posting(row.grade, row.fuel, co2.value, factor.value));
    }
    assert rs[..|rs|] == rs;
    return Ok(ledger);
  }

  /** k times the amount is at most m times the largest uint64. */
  ghost predicate Within(k: nat, amount: nat, m: nat) { k * amount <= m * U64_MAX }

  /** A row that compiles has a small CO2 amount, and a small fuel amount if its
      factor is large. */
  lemma RowFits(fuel: nat, factor: nat, n: nat)
    requires CO2MilliTonnes(fuel, factor).Ok?
    ensures Within(NANO, CO2MilliTonnes(fuel, factor).value, 1)
    ensures n <= factor ==> Within(n, fuel, 1)
  {
    GuardIsExact(fuel, factor);
    QuotientBounds(fuel * factor, NANO);
    if n <= factor && fuel > 0 { CancelAtMost(fuel, n, factor); }
  }

  /** Every report's factor is at least n. */
  ghost predicate FactorsAtLeast(rs: seq<FuelReport>, registry: Registry, n: nat) {
    forall i :: 0 <= i < |rs| ==> FactorOf(rs[i], registry) >= n
  }

  function FactorOf(r: FuelReport, registry: Registry): nat { PostingOf(r, r.fuel, registry).factor }

  lemma {:induction false} Co2Fits(rs: seq<FuelReport>, registry: Registry)
    requires Compilable(rs, registry)
    ensures Within(NANO, Co2In(AnnualPostings(rs, registry)), |rs|)
  {
    if rs != [] {
      var m := |rs| - 1;
      var p := PostingOf(rs[m], rs[m].fuel, registry);
      RowFits(rs[m].fuel, p.factor, 0);
      assert forall i :: 0 <= i < m ==> rs[..m][i] == rs[i];
      Co2Fits(rs[..m], registry);
      SumSnoc(AnnualPostings(rs[..m], registry), p);
      hide *;
      GrowBound(NANO, Co2In(AnnualPostings(rs[..m], registry)), p.co2, m);
    }
  }

  lemma {:induction false} FuelFits(rs: seq<FuelReport>, registry: Registry, n: nat)
    requires Compilable(rs, registry) && FactorsAtLeast(rs, registry, n)
    ensures Within(n, FuelOf(AnnualPostings(rs, registry)), |rs|)
  {
    if rs == [] {
      assert n * 0 == 0;
    } else {
      var m := |rs| - 1;
      var p := PostingOf(rs[m], rs[m].fuel, registry);
      assert FactorOf(rs[m], registry) >= n && CO2MilliTonnes(rs[m].fuel, p.factor).Ok?;
      assert forall i :: 0 <= i < m ==> rs[..m][i] == rs[i];
      hide CO2MilliTonnes, Co2Of, Co2Amount, LedgerOf, Within;
      RowFits(rs[m].fuel, p.factor, n);
      FuelFits(rs[..m], registry, n);
      SumSnoc(AnnualPostings(rs[..m], registry), p);
      hide *;
      GrowBound(n, FuelOf(AnnualPostings(rs[..m], registry)), p.fuel, m);
    }
  }

  lemma GrowBound(k: nat, total: nat, more: nat, m: nat)
    requires Within(k, total, m) && Within(k, more, 1)
    ensures Within(k, total + more, m + 1)
  {
    assert k * (total + more) == k * total + k * more;
  }

  /** The unguarded uint64 sums cannot wrap: not the CO2 of up to a billion reports,
      nor their fuel when every nano factor is at least the number of reports. */
  lemma TotalsFit(rs: seq<FuelReport>, registry: Registry)
    requires Compilable(rs, registry)
    ensures |rs| <= NANO ==> LedgerOf(AnnualPostings(rs, registry)).co2 <= U64_MAX
    ensures FactorsAtLeast(rs, registry, |rs|) ==> LedgerOf(AnnualPostings(rs, registry)).fuel <= U64_MAX
  {
    hide LedgerOf, AnnualPostings, Compilable, FactorsAtLeast;
    var ps := AnnualPostings(rs, registry);
    LedgerSums(ps, "");
    Co2Fits(rs, registry);
    hide *;
    if |rs| <= NANO { ScaledAtMost(NANO, Co2In(ps), |rs|); }
    if rs == [] {
      NothingPosted(registry);
    } else if FactorsAtLeast(rs, registry, |rs|) {
      FuelFits(rs, registry, |rs|);
      ScaledAtMost(|rs|, FuelOf(ps), |rs|);
    }
  }

  lemma NothingPosted(registry: Registry)
    ensures FuelOf(AnnualPostings([], registry)) == 0
  {}

  lemma ScaledAtMost(k: nat, a: nat, n: nat)
    requires k > 0 && n <= k && Within(k, a, n)
    ensures a <= U64_MAX
  {
    CancelAtMost(U64_MAX, n, k);
    CancelAtMost(k, a, U64_MAX);
  }

  // ---- One voyage ----

  function Share(r: FuelReport, w: Window): nat {
    AllocateOverlap(r.periodFrom, r.periodTo, w, r.fuel)
  }

  /** The reports a voyage draws on, each with its share; zero shares are skipped. */
  function VoyagePostings(rs: seq<FuelReport>, w: Window, registry: Registry): seq<Posting> {
    if rs == [] then []
    else
      var r := rs[|rs| - 1];
      VoyagePostings(rs[..|rs| - 1], w, registry) +
      if Share(r, w) == 0 then [] else [PostingOf(r, Share(r, w), registry)]
  }

  ghost predicate VoyageComputable(rs: seq<FuelReport>, w: Window, registry: Registry) {
    forall i :: 0 <= i < |rs| && Share(rs[i], w) > 0 ==> Co2Of(rs[i], Share(rs[i], w), registry).Ok?
  }

  /** Report i is the first the voyage draws on without a usable factor. */
  ghost predicate VoyageFailsFirst(rs: seq<FuelReport>, w: Window, registry: Registry, i: nat) {
    i < |rs| && Share(rs[i], w) > 0 && Co2Of(rs[i], Share(rs[i], w), registry).Err? &&
    forall k :: 0 <= k < i && Share(rs[k], w) > 0 ==> Co2Of(rs[k], Share(rs[k], w), registry).Ok?
  }

  /** The overlap query: reports whose period touches the window. */
  predicate Touches(r: FuelReport, w: Window) { r.periodFrom < w.end && r.periodTo > w.start }

  lemma UntouchedSharesNothing(r: FuelReport, w: Window)
    requires !Touches(r, w)
    ensures Share(r, w) == 0
  {}

  const EVENT: string := "mrv.voyage-emissions.v1"

  /** The closing insert of a voyage's event, into a table that admits these types. */
  predicate Enqueues(imo: string, admitted: set<string>) { Outbox.Enqueueable(admitted, EVENT, imo) }

  /** The computation ends with the enqueue of its event: if the outbox refuses that,
      the whole call fails. */
  method ComputeVoyage(imo: string, bosp: Option<int>, eosp: Option<int>, rs: seq<FuelReport>, registry: Registry,
                       admitted: set<string>)
    returns (r: Result<Ledger>)
    ensures bosp.None? || eosp.None? <==> r == Err(WindowIncomplete)
    ensures bosp.Some? && eosp.Some? && bosp.value >= eosp.value <==> r == Err(ZeroDurationWindow)
    ensures bosp.Some? && eosp.Some? && bosp.value < eosp.value ==>
              var w := Window(bosp.value, eosp.value);
              && (r.Ok? <==> VoyageComputable(rs, w, registry) && Enqueues(imo, admitted))
              && (r.Ok? ==> r.value == LedgerOf(VoyagePostings(rs, w, registry)))
              && (forall i: nat :: VoyageFailsFirst(rs, w, registry, i) ==>
                    r == Err(Co2Of(rs[i], Share(rs[i], w), registry).error))
              && (r == Err(OutboxRefused) <==> VoyageComputable(rs, w, registry) && !Enqueues(imo, admitted))
              && r != Err(OverlappingWindow)
  {
    if bosp.None? || eosp.None? {
      return Err(WindowIncomplete);
    }
    if !(bosp.value < eosp.value) {
      return Err(ZeroDurationWindow);
    }
    hide VoyageComputable, VoyageFailsFirst, VoyagePostings, Enqueues;
    r := SumShares(rs, Window(bosp.value, eosp.value), registry);
    if r.Ok? && !Enqueues(imo, admitted) {
      return Err(OutboxRefused);
    }
  }

  /** The loop over the fuel reports that the window touches. */
  method SumShares(rs: seq<FuelReport>, w: Window, registry: Registry) returns (r: Result<Ledger>)
    ensures r.Ok? <==> VoyageComputable(rs, w, registry)
    ensures r.Ok? ==> r.value == LedgerOf(VoyagePostings(rs, w, registry))
    ensures r.Err? ==> r.error in {FactorUnavailable, ZeroFactor, Overflow}
    ensures forall i: nat :: VoyageFailsFirst(rs, w, registry, i) ==>
              r == Err(Co2Of(rs[i], Share(rs[i], w), registry).error)
  {
    hide AllocateOverlap, Share, Co2Of, PostingOf, Post;
    var ledger := EMPTY_LEDGER;
    for i := 0 to |rs|
      invariant ledger == LedgerOf(VoyagePostings(rs[..i], w, registry))
      invariant forall k :: 0 <= k < i && Share(rs[k], w) > 0 ==> Co2Of(rs[k], Share(rs[k], w), registry).Ok?
    {
      var row := rs[i];
      assert rs[..i + 1][..i] == rs[..i];
      assert VoyagePostings(rs[..i], w, registry) + [] == VoyagePostings(rs[..i], w, registry);
      if !Touches(row, w) {
        UntouchedSharesNothing(row, w);
        continue;
      }
      var share := Share(row, w);
      if share == 0 {
        continue;
      }
      RowOutcome(row, share, registry);
      var factor := registry(row.grade, row.periodTo);
      if factor.None? {
        return Err(FactorUnavailable);
      }
      var co2 := CO2MilliTonnes(share, factor.value);
      if co2.Err? {
        return Err(co2.error);
      }
      SumSnoc(VoyagePostings(rs[..i], w, registry), PostingOf(row, share, registry));
      ledger := Post(ledger, Posting(row.grade, share, co2.value, factor.value));
    }
    assert rs[..|rs|] == rs;
    return Ok(ledger);
  }

  // ---- The summary of a ship's voyages ----

  datatype Voyage = Voyage(id: string, window: Window)

  datatype Skip = Skip(id: string, reason: Error)

  datatype Summary = Summary(voyages: seq<Voyage>, ledgers: seq<Ledger>, skipped: seq<Skip>, co2: nat)

  predicate Overlap(a: Window, b: Window) { a.start < b.end && b.start < a.end }

  function Computable(vs: seq<Voyage>): seq<Voyage> {
    if vs == [] then []
    else
      var v := vs[|vs| - 1];
      Computable(vs[..|vs| - 1]) + if v.window.start < v.window.end then [v] else []
  }

  /** The voyage's window overlaps that of another voyage of the list. */
  ghost predicate Clashes(vs: seq<Voyage>, i: nat)
    requires i < |vs|
  {
    exists j :: 0 <= j < |vs| && j != i && Overlap(vs[i].window, vs[j].window)
  }

  ghost function KeptUpTo(vs: seq<Voyage>, n: nat): seq<Voyage>
    requires n <= |vs|
  {
    if n == 0 then [] else KeptUpTo(vs, n - 1) + if Clashes(vs, n - 1) then [] else [vs[n - 1]]
  }

  /** The voyages whose emissions count: no zero duration and no overlap. */
  ghost function Kept(vs: seq<Voyage>): seq<Voyage> {
    KeptUpTo(Computable(vs), |Computable(vs)|)
  }

  ghost predicate DistinctIds(vs: seq<Voyage>) {
    forall i, j :: 0 <= i < j < |vs| ==> vs[i].id != vs[j].id
  }

  function LedgerFor(v: Voyage, rs: seq<FuelReport>, registry: Registry): Ledger {
    LedgerOf(VoyagePostings(rs, v.window, registry))
  }

  function SummaryCo2(vs: seq<Voyage>, rs: seq<FuelReport>, registry: Registry): nat {
    if vs == [] then 0
    else SummaryCo2(vs[..|vs| - 1], rs, registry) + LedgerFor(vs[|vs| - 1], rs, registry).co2
  }

  lemma {:induction false} ComputableMembers(vs: seq<Voyage>)
    ensures forall v :: v in Computable(vs) <==> v in vs && v.window.start < v.window.end
  {
    if vs != [] {
      ComputableMembers(vs[..|vs| - 1]);
      assert vs == vs[..|vs| - 1] + [vs[|vs| - 1]];
    }
  }

  /** Ordered by departure, as the query returns them. */
  ghost predicate Ordered(vs: seq<Voyage>) {
    forall i, j :: 0 <= i < j < |vs| ==> vs[i].window.start <= vs[j].window.start
  }

  lemma {:induction false} ComputableOrder(vs: seq<Voyage>)
    ensures DistinctIds(vs) ==> DistinctIds(Computable(vs))
    ensures Ordered(vs) ==> Ordered(Computable(vs))
  {
    if vs != [] {
      var n := |vs| - 1;
      var c := Computable(vs[..n]);
      assert Computable(vs) == c + if vs[n].window.start < vs[n].window.end then [vs[n]] else [];
      ComputableOrder(vs[..n]);
      hide Computable;
      ComputableBefore(vs);
    }
  }

  lemma ComputableBefore(vs: seq<Voyage>)
    requires vs != []
    ensures var n := |vs| - 1;
            forall v :: v in Computable(vs[..n]) ==>
              && (DistinctIds(vs) ==> v.id != vs[n].id)
              && (Ordered(vs) ==> v.window.start <= vs[n].window.start)
  {
    var n := |vs| - 1;
    ComputableMembers(vs[..n]);
    hide Computable;
    forall v | v in Computable(vs[..n])
      ensures DistinctIds(vs) ==> v.id != vs[n].id
      ensures Ordered(vs) ==> v.window.start <= vs[n].window.start
    {
      var i :| 0 <= i < n && vs[..n][i] == v;
      assert vs[i] == v;
    }
  }

  /** The ids of all voyages that clash, found pair by pair. */
  method FindClashes(vs: seq<Voyage>) returns (overlapping: set<string>)
    requires DistinctIds(vs)
    ensures forall i :: 0 <= i < |vs| ==> (vs[i].id in overlapping <==> Clashes(vs, i))
  {
    overlapping := {};
    for i := 0 to |vs|
      invariant forall k :: 0 <= k < |vs| && vs[k].id in overlapping ==> Clashes(vs, k)
      invariant forall a, b :: 0 <= a < i && a < b < |vs| && Overlap(vs[a].window, vs[b].window) ==>
                  vs[a].id in overlapping && vs[b].id in overlapping
    {
      for j := i + 1 to |vs|
        invariant forall k :: 0 <= k < |vs| && vs[k].id in overlapping ==> Clashes(vs, k)
        invariant forall a, b :: 0 <= a < i && a < b < |vs| && Overlap(vs[a].window, vs[b].window) ==>
                    vs[a].id in overlapping && vs[b].id in overlapping
        invariant forall b :: i < b < j && Overlap(vs[i].window, vs[b].window) ==>
                    vs[i].id in overlapping && vs[b].id in overlapping
      {
        if Overlap(vs[i].window, vs[j].window) {
          assert Clashes(vs, i) && Clashes(vs, j);
          overlapping := overlapping + {vs[i].id, vs[j].id};
        }
      }
    }
    forall k | 0 <= k < |vs| && Clashes(vs, k)
      ensures vs[k].id in overlapping
    {
      var j :| 0 <= j < |vs| && j != k && Overlap(vs[k].window, vs[j].window);
      assert Overlap(vs[j].window, vs[k].window);
    }
  }

  /** Every kept voyage goes through: it has its factors and its event is enqueued. */
  ghost predicate AllPass(vs: seq<Voyage>, imo: string, rs: seq<FuelReport>, registry: Registry, admitted: set<string>) {
    vs == [] || (Enqueues(imo, admitted) && forall v :: v in vs ==> VoyageComputable(rs, v.window, registry))
  }

  method SummariseShip(imo: string, vs: seq<Voyage>, rs: seq<FuelReport>, registry: Registry, admitted: set<string>)
    returns (r: Result<Summary>)
    requires DistinctIds(vs)
    ensures r.Ok? <==> AllPass(Kept(vs), imo, rs, registry, admitted)
    ensures r.Ok? ==>
              var s := r.value;
              && s.voyages == Kept(vs) && |s.ledgers| == |s.voyages|
              && (forall i :: 0 <= i < |s.voyages| ==> s.ledgers[i] == LedgerFor(s.voyages[i], rs, registry))
              && s.co2 == SummaryCo2(Kept(vs), rs, registry)
              && |s.voyages| + |s.skipped| == |vs|
              && (forall v :: v in vs && v.window.start >= v.window.end ==> Skip(v.id, ZeroDurationWindow) in s.skipped)
              && (forall i :: 0 <= i < |Computable(vs)| && Clashes(Computable(vs), i) ==>
                    Skip(Computable(vs)[i].id, OverlappingWindow) in s.skipped)
  {
    hide VoyageComputable, LedgerFor, SummaryCo2, Clashes, Computable, KeptUpTo, AllPass;
    var zeroes, computable := DropZeroDurations(vs);
    ComputableOrder(vs);
    var overlapping := FindClashes(computable);
    r := SumKept(imo, computable, overlapping, zeroes, rs, registry, admitted);
  }

  lemma SummarySnoc(vs: seq<Voyage>, v: Voyage, rs: seq<FuelReport>, registry: Registry)
    ensures SummaryCo2(vs + [v], rs, registry) == SummaryCo2(vs, rs, registry) + LedgerFor(v, rs, registry).co2
  {
    assert (vs + [v])[..|vs|] == vs;
  }

  lemma EmptySummary(rs: seq<FuelReport>, registry: Registry)
    ensures SummaryCo2([], rs, registry) == 0
  {}

  method ComputeKept(imo: string, v: Voyage, rs: seq<FuelReport>, registry: Registry, admitted: set<string>)
    returns (r: Result<Ledger>)
    requires v.window.start < v.window.end
    ensures r.Ok? <==> VoyageComputable(rs, v.window, registry) && Enqueues(imo, admitted)
    ensures r.Ok? ==> r.value == LedgerFor(v, rs, registry)
  {
    hide VoyageComputable, Enqueues;
    r := ComputeVoyage(imo, Some(v.window.start), Some(v.window.end), rs, registry, admitted);
    assert Window(v.window.start, v.window.end) == v.window;
  }

  method SumKept(imo: string, vs: seq<Voyage>, overlapping: set<string>, zeroes: seq<Skip>,
                 rs: seq<FuelReport>, registry: Registry, admitted: set<string>)
    returns (r: Result<Summary>)
    requires forall i :: 0 <= i < |vs| ==> (vs[i].id in overlapping <==> Clashes(vs, i))
    requires forall i :: 0 <= i < |vs| ==> vs[i].window.start < vs[i].window.end
    ensures r.Ok? <==> AllPass(KeptUpTo(vs, |vs|), imo, rs, registry, admitted)
    ensures r.Ok? ==>
              var s := r.value;
              && s.voyages == KeptUpTo(vs, |vs|) && |s.ledgers| == |s.voyages|
              && (forall i :: 0 <= i < |s.voyages| ==> s.ledgers[i] == LedgerFor(s.voyages[i], rs, registry))
              && s.co2 == SummaryCo2(s.voyages, rs, registry)
              && |s.voyages| + |s.skipped| == |vs| + |zeroes| && zeroes <= s.skipped
              && (forall i :: 0 <= i < |vs| && Clashes(vs, i) ==> Skip(vs[i].id, OverlappingWindow) in s.skipped)
  {
    hide LedgerFor, VoyageComputable, Clashes, SummaryCo2, Enqueues;
    EmptySummary(rs, registry);
    var skipped, kept: seq<Voyage>, ledgers: seq<Ledger>, co2 := zeroes, [], [], 0;
    for i := 0 to |vs|
      invariant kept == KeptUpTo(vs, i) && |ledgers| == |kept|
      invariant forall k :: 0 <= k < |kept| ==> ledgers[k] == LedgerFor(kept[k], rs, registry)
      invariant AllPass(kept, imo, rs, registry, admitted)
      invariant co2 == SummaryCo2(kept, rs, registry)
      invariant |kept| + |skipped| == i + |zeroes| && zeroes <= skipped
      invariant forall k :: 0 <= k < i && Clashes(vs, k) ==> Skip(vs[k].id, OverlappingWindow) in skipped
    {
      var v := vs[i];
      if v.id in overlapping {
        skipped := skipped + [Skip(v.id, OverlappingWindow)];
        continue;
      }
      var one := ComputeKept(imo, v, rs, registry, admitted);
      if one.Err? {
        assert v in KeptUpTo(vs, i + 1);
        KeptGrows(vs, i + 1, |vs|, v);
        return Err(one.error);
      }
      SummarySnoc(kept, v, rs, registry);
      kept, ledgers, co2 := kept + [v], ledgers + [one.value], co2 + one.value.co2;
    }
    return Ok(Summary(kept, ledgers, skipped, co2));
  }

  method DropZeroDurations(vs: seq<Voyage>) returns (skipped: seq<Skip>, computable: seq<Voyage>)
    ensures computable == Computable(vs) && |computable| + |skipped| == |vs|
    ensures forall v :: v in vs && v.window.start >= v.window.end ==> Skip(v.id, ZeroDurationWindow) in skipped
    ensures forall i :: 0 <= i < |computable| ==> computable[i].window.start < computable[i].window.end
  {
    skipped, computable := [], [];
    for i := 0 to |vs|
      invariant computable == Computable(vs[..i]) && |computable| + |skipped| == i
      invariant forall k :: 0 <= k < i && vs[k].window.start >= vs[k].window.end ==>
                  Skip(vs[k].id, ZeroDurationWindow) in skipped
      invariant forall k :: 0 <= k < |computable| ==> computable[k].window.start < computable[k].window.end
    {
      assert vs[..i + 1][..i] == vs[..i];
      if !(vs[i].window.start < vs[i].window.end) {
        skipped := skipped + [Skip(vs[i].id, ZeroDurationWindow)];
        continue;
      }
      computable := computable + [vs[i]];
    }
    assert vs[..|vs|] == vs;
  }

  lemma {:induction false} KeptGrows(vs: seq<Voyage>, m: nat, n: nat, v: Voyage)
    requires m <= n <= |vs| && v in KeptUpTo(vs, m)
    ensures v in KeptUpTo(vs, n)
  {
    if m < n {
      KeptGrows(vs, m, n - 1, v);
    }
  }
}
