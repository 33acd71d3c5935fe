/** The hash-chained evidence log of an investigation case. The digest is a given
    function `h`; each operation is one transaction that holds the case row. */
module Evidence {
  import Text

  predicate IsHash(s: string) {
    |s| == 64 && forall i :: 0 <= i < 64 ==> '0' <= s[i] <= '9' || 'a' <= s[i] <= 'f'
  }

  /** A lower-case hexadecimal SHA-256 value. */
  type Digest = s: string | IsHash(s) witness Zeros()

  function Zeros(): (s: string)
    ensures IsHash(s)
  {
    seq(64, i => '0')
  }

  /** The predecessor of a case's first item: 64 zeros. */
  const GENESIS: Digest := Zeros()

  /** `at` is the transaction's start time, which the row gets as its default. */
  datatype Item = Item(at: int, id: string, note: Note, content: Digest, prev: Digest, chain: Digest)

  datatype Note = Note(description: string, collectedBy: string)

  datatype Stage = Open | Collecting | Analysis | Reported | Closed

  datatype CaseFile = CaseFile(stage: Stage, items: seq<Item>)

  type Cases = map<string, CaseFile>

  datatype Error = NotFound | InvalidTransition | ConstraintViolated
  datatype Result = Ok(cases: Cases) | Err(error: Error)

  function ChainHash(h: string -> Digest, prev: Digest, content: Digest): Digest { h(prev + content) }

  // ---- The order of the log ----

  /** ORDER BY collected_at, evidence_id. */
  predicate Before(a: Item, b: Item) { a.at < b.at || (a.at == b.at && Text.Less(a.id, b.id)) }

  lemma BeforeIsTotal(a: Item, b: Item)
    requires a.id != b.id
    ensures Before(a, b) != Before(b, a)
  {
    Text.LessTrichotomy(a.id, b.id);
  }

  lemma BeforeIsTransitive(a: Item, b: Item, c: Item)
    requires Before(a, b) && Before(b, c)
    ensures Before(a, c)
  {
    if a.at == b.at == c.at { Text.LessTransitive(a.id, b.id, c.id); }
  }

  /** ORDER BY collected_at DESC, evidence_id DESC LIMIT 1. */
  function Latest(items: seq<Item>): (m: Item)
    requires items != []
    ensures m in items
  {
    var last := items[|items| - 1];
    if |items| == 1 then last
    else
      var m := Latest(items[..|items| - 1]);
      if Before(m, last) then last else m
  }

  function Head(items: seq<Item>): Digest {
    if items == [] then GENESIS else Latest(items).chain
  }

  function Insert(s: seq<Item>, x: Item): seq<Item> {
    if s == [] then [x]
    else if Before(s[|s| - 1], x) then s + [x]
    else Insert(s[..|s| - 1], x) + [s[|s| - 1]]
  }

  /** What ListEvidence returns. */
  function Sorted(items: seq<Item>): seq<Item> {
    if items == [] then [] else Insert(Sorted(items[..|items| - 1]), items[|items| - 1])
  }

  // ---- Transactions ----

  predicate IdTaken(cases: Cases, id: string) {
    exists c :: c in cases && exists i :: 0 <= i < |cases[c].items| && cases[c].items[i].id == id
  }

  predicate ChainTaken(items: seq<Item>, chain: Digest) {
    exists i :: 0 <= i < |items| && items[i].chain == chain
  }

  /** The column CHECKs on what the caller passes in. */
  predicate Storable(id: string, note: Note, content: string) {
    && Text.IsIdentifier(id, 128) && 1 <= |note.description| <= 1000 && 1 <= |note.collectedBy| <= 512
    && IsHash(content)
  }

  function Append(h: string -> Digest, cases: Cases, c: string, at: int, id: string, note: Note, content: string): Result {
    if c !in cases then Err(NotFound)
    else if cases[c].stage != Collecting then Err(InvalidTransition)
    else if !Storable(id, note, content) || IdTaken(cases, id) then Err(ConstraintViolated)
    else
      var items := cases[c].items;
      var chain := ChainHash(h, Head(items), content);
      if ChainTaken(items, chain) then Err(ConstraintViolated)
      else Ok(cases[c := cases[c].(items := items + [Item(at, id, note, content, Head(items), chain)])])
  }

  function NextStage(s: Stage): Stage {
    match s case Open => Collecting case Collecting => Analysis case Analysis => Reported case Reported => Closed
            case Closed => Closed
  }

  /** Each action names the stage it moves to, which must be the next one. */
  function Advance(cases: Cases, c: string, to: Stage): Result {
    if c !in cases then Err(NotFound)
    else if to == Open || cases[c].stage == Closed || NextStage(cases[c].stage) != to then Err(InvalidTransition)
    else Ok(cases[c := cases[c].(stage := to)])
  }

  function Create(cases: Cases, c: string): Result {
    if c in cases then Err(ConstraintViolated) else Ok(cases[c := CaseFile(Open, [])])
  }

  // ---- The store ----

  /** Every link is the hash of the one before it, from the genesis on. */
  ghost predicate Linked(h: string -> Digest, log: seq<Item>) {
    forall i :: 0 <= i < |log| ==> LinkOk(h, log, i)
  }

  ghost predicate LinkOk(h: string -> Digest, log: seq<Item>, i: nat)
    requires i < |log|
  {
    && log[i].prev == (if i == 0 then GENESIS else log[i - 1].chain)
    && log[i].chain == ChainHash(h, log[i].prev, log[i].content)
  }

  class Store {
    const h: string -> Digest
    var cases: Cases

    constructor (h: string -> Digest)
      ensures this.h == h && cases == map[]
    {
      this.h := h;
      cases := map[];
    }

    method AppendEvidence(c: string, at: int, id: string, note: Note, content: string) returns (error: seq<Error>)
      modifies this`cases
      ensures match Append(h, old(cases), c, at, id, note, content)
              case Ok(after) => error == [] && cases == after
              case Err(e) => error == [e] && cases == old(cases)
    {
      if c !in cases { return [NotFound]; }
      var file := cases[c];
      if file.stage != Collecting { return [InvalidTransition]; }
      var prev: Digest := GENESIS;
      if file.items != [] { prev := Latest(file.items).chain; }
      if !Storable(id, note, content) { return [ConstraintViolated]; }
      var chain := ChainHash(h, prev, content);
      if IdTaken(cases, id) || ChainTaken(file.items, chain) { return [ConstraintViolated]; }
      cases := cases[c := file.(items := file.items + [Item(at, id, note, content, prev, chain)])];
      return [];
    }

    /** Recompute the chain; an unknown case has an empty log. */
    method VerifyChain(c: string) returns (ok: bool)
      ensures ok <==> c !in cases || Linked(h, Sorted(cases[c].items))
    {
      hide Sorted;
      if c !in cases { return true; }
      var log := Sorted(cases[c].items);
      var prev: Digest := GENESIS;
      for i := 0 to |log|
        invariant forall j :: 0 <= j < i ==> LinkOk(h, log, j)
        invariant prev == if i == 0 then GENESIS else log[i - 1].chain
      {
        if log[i].prev != prev || log[i].chain != ChainHash(h, prev, log[i].content) {
          assert !LinkOk(h, log, i);
          return false;
        }
        assert LinkOk(h, log, i);
        prev := log[i].chain;
      }
      return true;
    }
  }

  // ---- What appending guarantees ----

  ghost predicate Entry(h: string -> Digest, items: seq<Item>, k: nat)
    requires k < |items|
  {
    && items[k].prev == Head(items[..k])
    && items[k].chain == ChainHash(h, items[k].prev, items[k].content)
  }

  ghost predicate Distinct(items: seq<Item>) {
    forall i, j :: 0 <= i < j < |items| ==> items[i].id != items[j].id && items[i].chain != items[j].chain
  }

  /** `items`, in insertion order, were built by appends. */
  ghost predicate Appended(h: string -> Digest, items: seq<Item>) {
    Distinct(items) && forall k :: 0 <= k < |items| ==> Entry(h, items, k)
  }

  /** Every append got a greater key than all that came before it. */
  ghost predicate InOrder(items: seq<Item>) {
    forall i, j :: 0 <= i < j < |items| ==>
      items[i].at < items[j].at || (items[i].at == items[j].at && Text.Less(items[i].id, items[j].id))
  }

  lemma AppendKeepsAppended(h: string -> Digest, items: seq<Item>, x: Item)
    requires Appended(h, items)
    requires forall i :: 0 <= i < |items| ==> items[i].id != x.id
    requires !ChainTaken(items, x.chain)
    requires x.prev == Head(items) && x.chain == ChainHash(h, x.prev, x.content)
    ensures Appended(h, items + [x])
  {
    hide Head, ChainHash;
    var t := items + [x];
    forall k | 0 <= k < |t| ensures Entry(h, t, k) {
      if k < |items| {
        assert Entry(h, items, k);
        assert t[..k] == items[..k];
      } else {
        assert t[..k] == items;
      }
    }
  }

  lemma MembersDiffer(items: seq<Item>, m: Item)
    requires Distinct(items) && items != [] && m in items[..|items| - 1]
    ensures m.id != items[|items| - 1].id
  {
    var j :| 0 <= j < |items| - 1 && items[j] == m;
  }

  lemma {:induction false} LatestIsGreatest(items: seq<Item>, i: nat)
    requires Distinct(items) && i < |items|
    ensures items[i] == Latest(items) || Before(items[i], Latest(items))
  {
    var n := |items| - 1;
    if n > 0 {
      assert Distinct(items[..n]);
      hide Before, Latest, Distinct;
      if i < n { LatestIsGreatest(items[..n], i); }
      LatestStep(items, i);
    }
  }

  lemma LatestStep(items: seq<Item>, i: nat)
    requires Distinct(items) && i < |items| && |items| > 1
    requires var m := Latest(items[..|items| - 1]); i < |items| - 1 ==> items[i] == m || Before(items[i], m)
    ensures items[i] == Latest(items) || Before(items[i], Latest(items))
  {
    hide Before;
    var n := |items| - 1;
    var m := Latest(items[..n]);
    assert m in items[..n];
    MembersDiffer(items, m);
    assert Latest(items) == if Before(m, items[n]) then items[n] else m;
    hide Latest, Distinct;
    GreaterOfTwo(items[i], m, items[n], i == n);
  }

  lemma GreaterOfTwo(x: Item, m: Item, last: Item, isLast: bool)
    requires m.id != last.id && if isLast then x == last else x == m || Before(x, m)
    ensures var greatest := if Before(m, last) then last else m;
            x == greatest || Before(x, greatest)
  {
    hide Before;
    BeforeIsTotal(m, last);
    if Before(x, m) && Before(m, last) { BeforeIsTransitive(x, m, last); }
  }

  lemma LatestWhenInOrder(items: seq<Item>)
    requires InOrder(items) && items != []
    ensures Latest(items) == items[|items| - 1]
  {
    var n := |items| - 1;
    if n > 0 {
      assert Latest(items[..n]) in items[..n];
      var j :| 0 <= j < n && items[j] == Latest(items[..n]);
    }
  }

  // ---- Sorting ----

  ghost predicate Ascends(s: seq<Item>) { forall i, j :: 0 <= i < j < |s| ==> Before(s[i], s[j]) }

  lemma {:induction false} InsertAscends(s: seq<Item>, x: Item)
    requires Ascends(s) && forall i :: 0 <= i < |s| ==> s[i].id != x.id
    ensures Ascends(Insert(s, x))
    ensures forall y :: y in Insert(s, x) <==> y in s || y == x
  {
    if s != [] {
      var n := |s| - 1;
      BeforeIsTotal(s[n], x);
      hide Before;
      assert s == s[..n] + [s[n]];
      if Before(s[n], x) {
        forall i | 0 <= i < n ensures Before(s[i], x) { BeforeIsTransitive(s[i], s[n], x); }
      } else {
        InsertAscends(s[..n], x);
        var t := Insert(s[..n], x);
        forall i | 0 <= i < |t| ensures Before(t[i], s[n]) {
          assert t[i] in s[..n] || t[i] == x;
        }
      }
    }
  }

  lemma {:induction false} SortedAscends(items: seq<Item>)
    requires Distinct(items)
    ensures Ascends(Sorted(items))
    ensures forall y :: y in Sorted(items) <==> y in items
  {
    if items != [] {
      var n := |items| - 1;
      SortedAscends(items[..n]);
      hide Insert, Ascends;
      var s := Sorted(items[..n]);
      assert items == items[..n] + [items[n]];
      forall i | 0 <= i < |s| ensures s[i].id != items[n].id {
        assert s[i] in items[..n];
      }
      InsertAscends(s, items[n]);
    }
  }

  lemma {:induction false} SortedWhenInOrder(items: seq<Item>)
    requires InOrder(items)
    ensures Sorted(items) == items
  {
    if items != [] {
      var n := |items| - 1;
      SortedWhenInOrder(items[..n]);
      assert n > 0 ==> Before(items[n - 1], items[n]);
      assert items == items[..n] + [items[n]];
    }
  }

  // ---- The chain verifies exactly when the keys came in order ----

  lemma InOrderVerifies(h: string -> Digest, items: seq<Item>)
    requires Appended(h, items) && InOrder(items)
    ensures Linked(h, Sorted(items))
  {
    SortedWhenInOrder(items);
    hide Sorted;
    forall i | 0 <= i < |items| ensures LinkOk(h, items, i) { LinkInOrder(h, items, i); }
  }

  lemma LinkInOrder(h: string -> Digest, items: seq<Item>, i: nat)
    requires Appended(h, items) && InOrder(items) && i < |items|
    ensures LinkOk(h, items, i)
  {
    assert Entry(h, items, i);
    assert InOrder(items[..i]);
    hide Before, Latest, InOrder, ChainHash, Appended;
    if i > 0 { LatestWhenInOrder(items[..i]); }
  }

  /** The item a verified log places directly before an appended one is the head it
      was linked to. */
  lemma HeadIsBefore(h: string -> Digest, items: seq<Item>, k: nat)
    requires Appended(h, items) && 0 < k < |items|
    requires forall i :: 0 <= i < |items| ==> items[i].chain != GENESIS
    requires Linked(h, Sorted(items))
    ensures Before(Latest(items[..k]), items[k])
  {
    var head := Latest(items[..k]);
    assert Entry(h, items, k);
    assert head in items[..k];
    SortedAscends(items);
    hide *;
    Predecessor(h, items, Sorted(items), items[k], head);
  }

  lemma Predecessor(h: string -> Digest, items: seq<Item>, log: seq<Item>, x: Item, head: Item)
    requires Distinct(items) && Linked(h, log) && Ascends(log)
    requires forall y :: y in log <==> y in items
    requires x in items && head in items && x.prev == head.chain && head.chain != GENESIS
    ensures Before(head, x)
  {
    hide Before, ChainHash;
    var p :| 0 <= p < |log| && log[p] == x;
    assert LinkOk(h, log, p);
    assert log[p - 1] in items;
    SameChainSameItem(items, log[p - 1], head);
  }

  lemma SameChainSameItem(items: seq<Item>, x: Item, y: Item)
    requires Distinct(items) && x in items && y in items && x.chain == y.chain
    ensures x == y
  {}

  lemma VerifiedIsInOrder(h: string -> Digest, items: seq<Item>)
    requires Appended(h, items)
    requires forall i :: 0 <= i < |items| ==> items[i].chain != GENESIS
    requires Linked(h, Sorted(items))
    ensures InOrder(items)
  {
    assert Distinct(items);
    hide Sorted, Linked, Appended, Before, Latest;
    forall i, j | 0 <= i < j < |items| ensures Before(items[i], items[j]) {
      HeadIsBefore(h, items, j);
      EarlierIsBefore(items, i, j);
    }
  }

  lemma EarlierIsBefore(items: seq<Item>, i: nat, j: nat)
    requires Distinct(items) && i < j < |items| && Before(Latest(items[..j]), items[j])
    ensures Before(items[i], items[j])
  {
    assert Distinct(items[..j]);
    hide Distinct, Before, Latest;
    var head := Latest(items[..j]);
    LatestIsGreatest(items[..j], i);
    if Before(items[i], head) { BeforeIsTransitive(items[i], head, items[j]); }
  }

  // ---- Runs ----

  datatype Action =
    | DoCreate(c: string)
    | DoAdvance(c: string, to: Stage)
    | DoAppend(c: string, at: int, id: string, note: Note, content: string)

  function Apply(h: string -> Digest, cases: Cases, a: Action): Cases {
    var r := match a
      case DoCreate(c) => Create(cases, c)
      case DoAdvance(c, to) => Advance(cases, c, to)
      case DoAppend(c, at, id, note, content) => Append(h, cases, c, at, id, note, content);
    match r case Ok(after) => after case Err(_) => cases
  }

  ghost function After(h: string -> Digest, actions: seq<Action>): Cases {
    if actions == [] then map[]
    else Apply(h, After(h, actions[..|actions| - 1]), actions[|actions| - 1])
  }

  ghost predicate Inv(h: string -> Digest, cases: Cases) {
    forall c :: c in cases ==> Appended(h, cases[c].items)
  }

  lemma ApplyKeepsInv(h: string -> Digest, cases: Cases, a: Action)
    requires Inv(h, cases)
    ensures Inv(h, Apply(h, cases, a))
  {
    assert Appended(h, []);
    hide Appended, Head, ChainHash, IsHash, ChainTaken;
    match a
    case DoCreate(_) =>
    case DoAdvance(_, _) =>
    case DoAppend(c, at, id, note, content) =>
      if Append(h, cases, c, at, id, note, content).Ok? {
        var items := cases[c].items;
        assert forall i :: 0 <= i < |items| ==> items[i].id != id;
        AppendKeepsAppended(h, items, Item(at, id, note, content, Head(items), ChainHash(h, Head(items), content)));
      }
  }

  lemma {:induction false} RunKeepsInv(h: string -> Digest, actions: seq<Action>)
    ensures Inv(h, After(h, actions))
  {
    if actions != [] {
      hide Apply;
      RunKeepsInv(h, actions[..|actions| - 1]);
      ApplyKeepsInv(h, After(h, actions[..|actions| - 1]), actions[|actions| - 1]);
    }
  }

  /** In every run and for every case, whatever the digest (short of hitting the
      genesis value): the log verifies exactly when each append got a greater
      (collected_at, evidence_id) than all earlier ones. */
  lemma VerifiesExactlyWhenInOrder(h: string -> Digest, actions: seq<Action>, c: string)
    requires c in After(h, actions)
    ensures var items := After(h, actions)[c].items;
            && (InOrder(items) ==> Linked(h, Sorted(items)))
            && ((forall i :: 0 <= i < |items| ==> items[i].chain != GENESIS) && Linked(h, Sorted(items)) ==> InOrder(items))
  {
    RunKeepsInv(h, actions);
    hide After, Appended, Linked, InOrder;
    var items := After(h, actions)[c].items;
    if InOrder(items) { InOrderVerifies(h, items); }
    if (forall i :: 0 <= i < |items| ==> items[i].chain != GENESIS) && Linked(h, Sorted(items)) {
      VerifiedIsInOrder(h, items);
    }
  }

  /** The run of two appends, the second by the transaction that started earlier. */
  function LateLock(note: Note, first: Digest, second: Digest): seq<Action> {
    [DoCreate("c"), DoAdvance("c", Collecting), DoAppend("c", 2, "a", note, first), DoAppend("c", 1, "b", note, second)]
  }

  lemma AfterOne(h: string -> Digest, actions: seq<Action>, a: Action)
    ensures After(h, actions + [a]) == Apply(h, After(h, actions), a)
  {
    assert (actions + [a])[..|actions|] == actions;
  }

  lemma CaseOpened(h: string -> Digest)
    ensures After(h, [DoCreate("c"), DoAdvance("c", Collecting)]) == map["c" := CaseFile(Collecting, [])]
  {
    AfterOne(h, [], DoCreate("c"));
    AfterOne(h, [] + [DoCreate("c")], DoAdvance("c", Collecting));
    assert After(h, []) == map[];
    hide After;
    assert [] + [DoCreate("c")] + [DoAdvance("c", Collecting)] == [DoCreate("c"), DoAdvance("c", Collecting)];
    assert After(h, [] + [DoCreate("c")]) == map["c" := CaseFile(Open, [])];
  }

  lemma AppendsTo(h: string -> Digest, items: seq<Item>, x: Item)
    requires Storable(x.id, x.note, x.content) && (forall i :: 0 <= i < |items| ==> items[i].id != x.id)
    requires x.prev == Head(items) && x.chain == ChainHash(h, x.prev, x.content) && !ChainTaken(items, x.chain)
    ensures Apply(h, map["c" := CaseFile(Collecting, items)], DoAppend("c", x.at, x.id, x.note, x.content)) ==
            map["c" := CaseFile(Collecting, items + [x])]
  {
    hide Head, ChainHash, ChainTaken, IsHash, Storable;
    assert !IdTaken(map["c" := CaseFile(Collecting, items)], x.id);
  }

  /** A transaction that started earlier but got the case lock later breaks its
      case's chain: two plain appends that the verifier rejects. */
  lemma LateLockBreaksTheChain(h: string -> Digest, note: Note, first: Digest, second: Digest)
    requires 1 <= |note.description| <= 1000 && 1 <= |note.collectedBy| <= 512
    requires h(GENESIS + first) != GENESIS && h(h(GENESIS + first) + second) != h(GENESIS + first)
    ensures var cases := After(h, LateLock(note, first, second));
            "c" in cases && |cases["c"].items| == 2 && !Linked(h, Sorted(cases["c"].items))
  {
    var a := Item(2, "a", note, first, GENESIS, h(GENESIS + first));
    var b := Item(1, "b", note, second, a.chain, h(a.chain + second));
    var start := [DoCreate("c"), DoAdvance("c", Collecting)];
    var one := DoAppend("c", 2, "a", note, first);
    var two := DoAppend("c", 1, "b", note, second);
    assert Storable("a", note, first) && Storable("b", note, second);
    assert LateLock(note, first, second) == start + [one] + [two];
    assert Head([]) == GENESIS && Latest([a]) == a;
    hide After, Apply, IsHash, Storable, Sorted;
    CaseOpened(h);
    AfterOne(h, start, one);
    AfterOne(h, start + [one], two);
    AppendsTo(h, [], a);
    assert [] + [a] == [a];
    AppendsTo(h, [a], b);
    SortTwo(a, b);
    assert !LinkOk(h, [b, a], 0);
  }

  lemma SortTwo(a: Item, b: Item)
    requires !Before(a, b)
    ensures Sorted([a] + [b]) == [b, a]
  {
    assert ([a] + [b])[..1] == [a] && [a][..0] == [];
    assert Sorted([]) == [];
    assert Sorted([a]) == [a];
    assert Insert([a][..0], b) == [b];
    assert Insert([a], b) == [b] + [a];
  }

  // ---- Appending ----

  /** An append is accepted exactly in a collecting case, with storable fields, a new id
      and a new chain hash; and the new item, last in the log, holds what was given. */
  lemma AppendedExactlyWhen(h: string -> Digest, cases: Cases, c: string, at: int, id: string, note: Note, content: string)
    ensures var r := Append(h, cases, c, at, id, note, content);
            && (r == Err(NotFound) <==> c !in cases)
            && (r == Err(InvalidTransition) <==> c in cases && cases[c].stage != Collecting)
            && (r.Ok? <==>
                  && c in cases && cases[c].stage == Collecting && !IdTaken(cases, id) && Text.IsIdentifier(id, 128)
                  && 1 <= |note.description| <= 1000 && 1 <= |note.collectedBy| <= 512 && IsHash(content)
                  && !ChainTaken(cases[c].items, h((if cases[c].items == [] then GENESIS else Latest(cases[c].items).chain) + content)))
            && (r.Ok? ==>
                  && c in cases && cases[c].stage == Collecting && c in r.cases && r.cases[c].stage == Collecting
                  && (forall x :: x in cases && x != c ==> x in r.cases && r.cases[x] == cases[x])
                  && var items, after := cases[c].items, r.cases[c].items;
                     && |after| == |items| + 1 && after[..|items|] == items
                     && var x := after[|items|];
                        && x.at == at && x.id == id && x.note == note && x.content == content
                        && x.prev == (if items == [] then GENESIS else Latest(items).chain)
                        && x.chain == h(x.prev + x.content))
  {
    hide IsHash, Latest, IdTaken, ChainTaken, Text.IsIdentifier;
  }

  // ---- Tampering ----

  function Contents(log: seq<Item>): seq<Digest> { seq(|log|, i requires 0 <= i < |log| => log[i].content) }

  function LogHead(log: seq<Item>): Digest { if log == [] then GENESIS else log[|log| - 1].chain }

  /** Two items whose hashed strings differ and yet have the same digest. */
  ghost predicate Collide(h: string -> Digest, x: Item, y: Item) {
    x.prev + x.content != y.prev + y.content && h(x.prev + x.content) == h(y.prev + y.content)
  }

  /** Some pair of items at the same distance from the ends of the logs collides. */
  ghost predicate CollisionBetween(h: string -> Digest, a: seq<Item>, b: seq<Item>) {
    exists k: nat :: CollideAt(h, a, b, k)
  }

  ghost predicate CollideAt(h: string -> Digest, a: seq<Item>, b: seq<Item>, k: nat) {
    k < |a| && k < |b| && Collide(h, a[|a| - 1 - k], b[|b| - 1 - k])
  }

  ghost predicate HitsGenesis(log: seq<Item>) { exists i :: 0 <= i < |log| && log[i].chain == GENESIS }

  /** Two logs that both verify and end in the same chain hash have the same contents
      in the same order, unless the digest collides on two of their own items, or the
      logs differ in length and the longer one contains the genesis value. */
  lemma {:induction false} SameHeadSameContents(h: string -> Digest, a: seq<Item>, b: seq<Item>)
    requires Linked(h, a) && Linked(h, b) && LogHead(a) == LogHead(b)
    ensures || Contents(a) == Contents(b)
            || CollisionBetween(h, a, b)
            || (|a| < |b| && HitsGenesis(b)) || (|b| < |a| && HitsGenesis(a))
  {
    if a == [] {
      assert b != [] ==> b[|b| - 1].chain == GENESIS;
    } else if b == [] {
      assert a[|a| - 1].chain == GENESIS;
    } else {
      var m, n := |a| - 1, |b| - 1;
      assert LinkOk(h, a, m) && LinkOk(h, b, n);
      if a[m].prev + a[m].content != b[n].prev + b[n].content {
        assert CollideAt(h, a, b, 0);
      } else {
        HalvesEqual(a[m].prev, a[m].content, b[n].prev, b[n].content);
        PrefixLinked(h, a);
        PrefixLinked(h, b);
        SameHeadSameContents(h, a[..m], b[..n]);
        hide Linked;
        LastItemsAgree(h, a, b);
      }
    }
  }

  /** What holds of the logs without their last items holds of the whole logs, if
      those have the same content. */
  lemma LastItemsAgree(h: string -> Digest, a: seq<Item>, b: seq<Item>)
    requires a != [] && b != [] && a[|a| - 1].content == b[|b| - 1].content
    ensures var p, q := a[..|a| - 1], b[..|b| - 1];
            && (Contents(p) == Contents(q) ==> Contents(a) == Contents(b))
            && (CollisionBetween(h, p, q) ==> CollisionBetween(h, a, b))
            && (HitsGenesis(p) ==> HitsGenesis(a)) && (HitsGenesis(q) ==> HitsGenesis(b))
  {
    var m, n := |a| - 1, |b| - 1;
    var p, q := a[..m], b[..n];
    assert Contents(a) == Contents(p) + [a[m].content] && Contents(b) == Contents(q) + [b[n].content];
    hide Collide, Contents;
    if CollisionBetween(h, p, q) {
      var k: nat :| CollideAt(h, p, q, k);
      assert CollideAt(h, a, b, k + 1);
    }
    GenesisInPrefix(a);
    GenesisInPrefix(b);
  }

  lemma GenesisInPrefix(log: seq<Item>)
    requires log != []
    ensures HitsGenesis(log[..|log| - 1]) ==> HitsGenesis(log)
  {
    var p := log[..|log| - 1];
    if HitsGenesis(p) {
      var i :| 0 <= i < |p| && p[i].chain == GENESIS;
      assert log[i] == p[i];
    }
  }

  lemma PrefixLinked(h: string -> Digest, a: seq<Item>)
    requires Linked(h, a) && a != []
    ensures Linked(h, a[..|a| - 1]) && LogHead(a[..|a| - 1]) == a[|a| - 1].prev
  {
    hide ChainHash;
    var m := |a| - 1;
    assert LinkOk(h, a, m);
    forall i | 0 <= i < m ensures LinkOk(h, a[..m], i) {
      assert LinkOk(h, a, i);
    }
  }

  lemma HalvesEqual(p: Digest, c: Digest, p': Digest, c': Digest)
    requires p + c == p' + c'
    ensures p == p' && c == c'
  {
    assert p == (p + c)[..64] && p' == (p' + c')[..64];
    assert c == (p + c)[64..] && c' == (p' + c')[64..];
  }
}
