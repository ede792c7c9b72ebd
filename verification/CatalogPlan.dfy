/** What a whole plan of scripts/reconcile_demo_catalog_identities.py does to the products and to the
    facts that named them: which product rows are dropped, and when facts end at another product. */
module CatalogPlan {
  import opened Prelude
  import opened CatalogRepair

  // ----- which SKUs are taken

  /** After the first `n` repairs a row has the SKU: an original row that has not been repaired yet,
      or a repair has put it there and none has taken it away since. */
  ghost predicate Claimed(products: map<nat, Product>, rs: seq<Repair>, n: nat, sku: string)
    requires n <= |rs|
  {
    || (HasSku(products, sku) && !RepairedAway(rs, 0, n, sku))
    || (exists m: nat :: PutBy(rs, m, n, sku))
  }

  ghost predicate PutBy(rs: seq<Repair>, m: nat, n: nat, sku: string)
    requires n <= |rs|
  {
    m < n && rs[m].newSku == sku && !RepairedAway(rs, m + 1, n, sku)
  }

  ghost predicate HasSku(products: map<nat, Product>, sku: string) { exists i :: i in products && products[i].sku == sku }

  ghost predicate RepairedAway(rs: seq<Repair>, from: nat, n: nat, sku: string)
    requires n <= |rs|
  {
    exists j: nat :: from <= j < n && rs[j].oldSku == sku
  }

  lemma AwayStep(rs: seq<Repair>, from: nat, n: nat, sku: string)
    requires from <= n < |rs|
    ensures RepairedAway(rs, from, n + 1, sku) <==> RepairedAway(rs, from, n, sku) || rs[n].oldSku == sku
  {
    if rs[n].oldSku == sku { assert from <= n < n + 1; }
  }

  /** One more repair takes its old SKU away and puts the new one there. */
  lemma ClaimedStep(products: map<nat, Product>, rs: seq<Repair>, n: nat, sku: string)
    requires n < |rs|
    ensures Claimed(products, rs, n + 1, sku) <==>
      sku == rs[n].newSku || (sku != rs[n].oldSku && Claimed(products, rs, n, sku))
  {
    hide RepairedAway, HasSku;
    var next := n + 1;
    AwayStep(rs, 0, n, sku);
    if sku == rs[n].newSku {
      NothingAway(rs, next, sku);
      assert PutBy(rs, n, next, sku);
    }
    if m: nat :| PutBy(rs, m, next, sku) && m < n {
      AwayStep(rs, m + 1, n, sku);
      assert PutBy(rs, m, n, sku);
    }
    if m: nat :| PutBy(rs, m, n, sku) && sku != rs[n].oldSku {
      AwayStep(rs, m + 1, n, sku);
      assert PutBy(rs, m, next, sku);
    }
  }

  lemma NothingAway(rs: seq<Repair>, n: nat, sku: string)
    requires n <= |rs|
    ensures !RepairedAway(rs, n, n, sku)
  {
  }

  /** What one repair does to the SKUs that are taken, if its old one is. */
  lemma RepairMovesSku(now: map<nat, Product>, r: Repair, sku: string)
    requires r.oldSku != r.newSku && HasSku(now, r.oldSku)
    ensures HasSku(RepairProducts(now, r), sku) <==> sku == r.newSku || (sku != r.oldSku && HasSku(now, sku))
  {
    var next := RepairProducts(now, r);
    if i :| i in now && now[i].sku == sku && sku != r.oldSku {
      assert i in next && next[i].sku == sku;
    }
    if sku == r.newSku {
      var i :| i in now && now[i].sku == r.oldSku;
      if Conflict(now, r) {
        var j :| j in now && now[j].sku == r.newSku;
        assert j in next && next[j].sku == sku;
      } else {
        assert i in next && next[i].sku == sku;
      }
    }
  }

  /** The row that a repair of a full plan was planned for. */
  lemma PlannedRow(src: Source, products: map<nat, Product>, rs: seq<Repair>, k: nat) returns (p: nat)
    requires FullPlan(src, products, rs) && k < |rs|
    ensures p in products && Planned(src, products[p]) == Some(rs[k])
    ensures products[p].sku == rs[k].oldSku && rs[k].oldSku != rs[k].newSku
  {
    assert rs[k] in rs;
    p :| p in products && Planned(src, products[p]) == Some(rs[k]);
  }

  lemma PlannedSku(src: Source, p: Product, r: Repair)
    requires Planned(src, p) == Some(r)
    ensures p.sku == r.oldSku && r.oldSku != r.newSku
  {
  }

  lemma NotYetRepaired(src: Source, products: map<nat, Product>, rs: seq<Repair>, k: nat, p: nat)
    requires FullPlan(src, products, rs) && k < |rs|
    requires p in products && Planned(src, products[p]) == Some(rs[k])
    ensures !Done(src, products[p], rs[..k])
  {
  }

  /** Just before its repair, the planned row is as it was. */
  lemma RowWaits(src: Source, db: Db, rs: seq<Repair>, k: nat, p: nat)
    requires UniqueSkus(db.products) && FullPlan(src, db.products, rs) && k < |rs|
    requires p in db.products && Planned(src, db.products[p]) == Some(rs[k])
    ensures var now := RepairAll(db, rs[..k]).products;
      p in now && now[p] == db.products[p] && UniqueSkus(now)
  {
    PlanProgress(src, db, rs, k);
    NotYetRepaired(src, db.products, rs, k, p);
  }

  lemma NextState(db: Db, rs: seq<Repair>, k: nat)
    requires k < |rs|
    ensures RepairAll(db, rs[..k + 1]) == RepairDb(RepairAll(db, rs[..k]), rs[k])
  {
    assert rs[..k + 1][..k] == rs[..k];
  }

  lemma NothingClaimed(db: Db, rs: seq<Repair>, sku: string)
    ensures HasSku(RepairAll(db, rs[..0]).products, sku) <==> Claimed(db.products, rs, 0, sku)
  {
    NothingAway(rs, 0, sku);
    assert rs[..0] == [];
  }

  lemma RowsSku(now: map<nat, Product>, p: nat)
    requires p in now
    ensures HasSku(now, now[p].sku)
  {
  }

  /** The SKUs taken after each part of a full plan. */
  lemma {:induction false} SkusOfPlan(src: Source, db: Db, rs: seq<Repair>, n: nat, sku: string)
    requires UniqueSkus(db.products) && FullPlan(src, db.products, rs) && n <= |rs|
    ensures HasSku(RepairAll(db, rs[..n]).products, sku) <==> Claimed(db.products, rs, n, sku)
  {
    hide FullPlan, UniqueSkus, RepairProducts, Planned, Claimed, HasSku;
    if n == 0 {
      NothingClaimed(db, rs, sku);
    } else {
      var now := RepairAll(db, rs[..n - 1]).products;
      SkusOfPlan(src, db, rs, n - 1, sku);
      var p := PlannedRow(src, db.products, rs, n - 1);
      RowWaits(src, db, rs, n - 1, p);
      RowsSku(now, p);
      NextState(db, rs, n - 1);
      RepairMovesSku(now, rs[n - 1], sku);
      ClaimedStep(db.products, rs, n - 1, sku);
    }
  }

  // ----- which product rows are dropped

  lemma ConflictMeansTaken(now: map<nat, Product>, r: Repair)
    requires r.oldSku != r.newSku
    ensures Conflict(now, r) <==> HasSku(now, r.newSku)
  {
  }

  lemma OthersSpared(now: map<nat, Product>, r: Repair, q: nat, p: nat)
    requires UniqueSkus(now) && q in now && now[q].sku == r.oldSku && p != q
    ensures var next := RepairProducts(now, r);
      (p in next <==> p in now) && (p in next ==> next[p] == now[p])
  {
  }

  lemma OwnRow(now: map<nat, Product>, r: Repair, p: nat)
    requires p in now && now[p].sku == r.oldSku
    ensures var next := RepairProducts(now, r);
      (p in next <==> !Conflict(now, r)) && (p in next ==> next[p] == Relabel(now[p], r))
  {
  }

  lemma DistinctOldSkus(src: Source, products: map<nat, Product>, rs: seq<Repair>, j: nat, k: nat)
    requires FullPlan(src, products, rs) && j < k < |rs|
    ensures rs[j].oldSku != rs[k].oldSku
  {
  }

  /** A row that has been repaired is not touched again: a later repair of its new SKU would be for
      another row that has had that SKU all along. */
  lemma {:induction false} SettledRowStays(src: Source, db: Db, rs: seq<Repair>, k: nat, p: nat, n: nat)
    requires UniqueSkus(db.products) && FullPlan(src, db.products, rs) && k < n <= |rs|
    requires p in db.products && Planned(src, db.products[p]) == Some(rs[k])
    ensures var before, after := RepairAll(db, rs[..k]).products, RepairAll(db, rs[..n]).products;
      && (p in after <==> !Conflict(before, rs[k]))
      && (p in after ==> after[p] == Relabel(db.products[p], rs[k]))
    decreases n
  {
    hide FullPlan, UniqueSkus, RepairProducts, Conflict, Relabel, RepairAll, Planned;
    PlannedSku(src, db.products[p], rs[k]);
    RowWaits(src, db, rs, k, p);
    NextState(db, rs, n - 1);
    if n == k + 1 {
      OwnRow(RepairAll(db, rs[..k]).products, rs[k], p);
    } else {
      SettledRowStays(src, db, rs, k, p, n - 1);
      var q := PlannedRow(src, db.products, rs, n - 1);
      RowWaits(src, db, rs, n - 1, q);
      DistinctOldSkus(src, db.products, rs, k, n - 1);
      OthersSpared(RepairAll(db, rs[..n - 1]).products, rs[n - 1], q, p);
    }
  }

  /** The product row repaired at position k is dropped exactly when its new SKU is taken by then: by
      another original row that is not repaired before it, or through an earlier repair to the same
      SKU since which none has taken the SKU away. Otherwise it ends with its new SKU. */
  lemma ProductDroppedExactlyWhen(src: Source, db: Db, rs: seq<Repair>, k: nat, p: nat)
    requires UniqueSkus(db.products) && FullPlan(src, db.products, rs) && k < |rs|
    requires p in db.products && db.products[p].sku == rs[k].oldSku
    ensures p !in RepairAll(db, rs).products <==> Claimed(db.products, rs, k, rs[k].newSku)
    ensures p in RepairAll(db, rs).products ==>
      var was, now := db.products[p], RepairAll(db, rs).products[p];
      now == was.(sku := rs[k].newSku, specs := Specs(rs[k].newCategory, was.specs.rest))
  {
    var q := PlannedRow(src, db.products, rs, k);
    assert q == p;
    SettledRowStays(src, db, rs, k, p, |rs|);
    assert rs[..|rs|] == rs;
    SkusOfPlan(src, db, rs, k, rs[k].newSku);
    ConflictMeansTaken(RepairAll(db, rs[..k]).products, rs[k]);
  }

  /** A product row that the plan does not repair stays as it is. */
  lemma OtherProductsStay(src: Source, db: Db, rs: seq<Repair>, p: nat)
    requires UniqueSkus(db.products) && FullPlan(src, db.products, rs)
    requires p in db.products && Planned(src, db.products[p]) == None
    ensures p in RepairAll(db, rs).products && RepairAll(db, rs).products[p] == db.products[p]
  {
    PlanProgress(src, db, rs, |rs|);
    assert rs[..|rs|] == rs;
  }

  lemma OneRowDropped(now: map<nat, Product>, r: Repair, p: nat)
    requires UniqueSkus(now) && p in now && now[p].sku == r.oldSku
    ensures |now| == |RepairProducts(now, r)| + (if Conflict(now, r) then 1 else 0)
  {
    var next := RepairProducts(now, r);
    assert |now| == |now.Keys| && |next| == |next.Keys|;
    if Conflict(now, r) {
      assert next.Keys == now.Keys - {p};
    } else {
      assert next.Keys == now.Keys;
    }
  }

  lemma NothingRepaired(db: Db)
    ensures RepairAll(db, []) == db
  {
  }

  /** The product rows before are the rows after plus the rows counted as merged. */
  lemma {:induction false} PlanConservesProducts(src: Source, db: Db, rs: seq<Repair>, n: nat)
    requires UniqueSkus(db.products) && FullPlan(src, db.products, rs) && n <= |rs|
    ensures |db.products| == |RepairAll(db, rs[..n]).products| + Counted(db, rs[..n], Merged(PRODUCTS_TABLE))
  {
    hide FullPlan, UniqueSkus, RepairProducts, Planned, RepairAll, Conflict;
    if n == 0 {
      assert rs[..0] == [];
      NothingRepaired(db);
    } else {
      PlanConservesProducts(src, db, rs, n - 1);
      var p := PlannedRow(src, db.products, rs, n - 1);
      RowWaits(src, db, rs, n - 1, p);
      NextState(db, rs, n - 1);
      OneRowDropped(RepairAll(db, rs[..n - 1]).products, rs[n - 1], p);
      assert rs[..n][..n - 1] == rs[..n - 1];
    }
  }

  // ----- where the facts end

  /** Fact rows that named a repaired product and survive name it still, under its new SKU. */
  ghost predicate FactsStay(products: map<nat, Product>, rs: seq<Repair>) {
    forall tables: map<string, Table>, t: string, i: nat, k: nat ::
      t in tables && FactOf(tables[t], i, rs, k) ==> EndsAt(RepairAll(Db(products, tables), rs), t, i, rs[k].newSku)
  }

  predicate FactOf(table: Table, i: nat, rs: seq<Repair>, k: nat) {
    k < |rs| && i in table.rows && table.rows[i].sku == rs[k].oldSku
  }

  predicate EndsAt(db: Db, t: string, i: nat, sku: string) {
    t in db.tables && i in db.tables[t].rows ==> db.tables[t].rows[i].sku == sku
  }

  lemma FactEnds(products: map<nat, Product>, tables: map<string, Table>, rs: seq<Repair>, t: string, i: nat, k: nat)
    requires t in tables && FactOf(tables[t], i, rs, k) && Route(rs, rs[k].oldSku) == rs[k].newSku
    ensures EndsAt(RepairAll(Db(products, tables), rs), t, i, rs[k].newSku)
  {
    FactsAreRouted(Db(products, tables), rs, t, i);
  }

  /** In a table without a unique key no row is dropped. */
  lemma {:induction false} UnkeyedRowsSurvive(db: Db, rs: seq<Repair>, t: string, i: nat)
    requires t in db.tables && !db.tables[t].keyed && i in db.tables[t].rows
    ensures t in RepairAll(db, rs).tables && i in RepairAll(db, rs).tables[t].rows
    decreases |rs|
  {
    if rs != [] {
      UnkeyedRowsSurvive(db, rs[..|rs| - 1], t, i);
      FactsAreRouted(db, rs[..|rs| - 1], t, i);
    }
  }

  /** One row in one table, to look at where it goes. */
  function Probe(sku: string): map<string, Table> { map["fact" := Table(map[0 := Fact(sku, None, "")], false)] }

  lemma ProbeEnds(products: map<nat, Product>, rs: seq<Repair>, sku: string)
    ensures var after := RepairAll(Db(products, Probe(sku)), rs);
      "fact" in after.tables && 0 in after.tables["fact"].rows && after.tables["fact"].rows[0].sku == Route(rs, sku)
  {
    var db := Db(products, Probe(sku));
    UnkeyedRowsSurvive(db, rs, "fact", 0);
    FactsAreRouted(db, rs, "fact", 0);
  }

  /** The facts of every repaired product follow it, in every table, exactly when no repair of the
      plan renames to a SKU that a later one renames away. */
  lemma PlanKeepsFactsExactlyWhen(src: Source, products: map<nat, Product>, rs: seq<Repair>)
    requires UniqueSkus(products) && FullPlan(src, products, rs)
    ensures FactsStay(products, rs) <==> !exists i: nat, j: nat :: Handover(rs, i, j)
  {
    forall k: nat | k < |rs| ensures rs[k].oldSku != rs[k].newSku {
      var p := PlannedRow(src, products, rs, k);
    }
    FactsFollowExactlyWhen(rs);
    if FactsFollow(rs) {
      RoutesKeepFacts(products, rs);
    }
    if FactsStay(products, rs) {
      forall k | 0 <= k < |rs| ensures Route(rs, rs[k].oldSku) == rs[k].newSku {
        ProbeEnds(products, rs, rs[k].oldSku);
        assert FactOf(Probe(rs[k].oldSku)["fact"], 0, rs, k);
      }
    }
  }

  lemma RoutesKeepFacts(products: map<nat, Product>, rs: seq<Repair>)
    requires FactsFollow(rs)
    ensures FactsStay(products, rs)
  {
    forall tables: map<string, Table>, t: string, i: nat, k: nat | t in tables && FactOf(tables[t], i, rs, k)
      ensures EndsAt(RepairAll(Db(products, tables), rs), t, i, rs[k].newSku)
    {
      FactEnds(products, tables, rs, t, i, k);
    }
  }

  // ----- the smallest example

  function Verbatim(title: string): string { title }

  const LAPTOPS := Source(Verbatim, [Item("alpha", "LAP-2", "laptop"), Item("beta", "LAP-3", "laptop")])

  const ALPHA := Product("ACC-1", "alpha", Specs("accessory", ""), "")
  const BETA := Product("LAP-2", "beta", Specs("tablet", ""), "")

  const ALPHA_REPAIR := Repair("ACC-1", "LAP-2", "alpha", "accessory", "laptop", "")
  const BETA_REPAIR := Repair("LAP-2", "LAP-3", "beta", "tablet", "laptop", "")

  lemma ChainIsPlanned()
    ensures Planned(LAPTOPS, ALPHA) == Some(ALPHA_REPAIR) && Planned(LAPTOPS, BETA) == Some(BETA_REPAIR)
    ensures IsPlanOf(LAPTOPS, [ALPHA, BETA], [ALPHA_REPAIR, BETA_REPAIR])
  {
    var alpha, beta := LAPTOPS.items[0], LAPTOPS.items[1];
    var items := LAPTOPS.items;
    assert items == [alpha, beta] && items[1..] == [beta] && items[1..][1..] == [];
    assert "alpha"[0] == 'a' && "beta"[0] == 'b';
    assert Matching(LAPTOPS, alpha, "alpha") && !Matching(LAPTOPS, beta, "alpha");
    assert Matching(LAPTOPS, beta, "beta") && !Matching(LAPTOPS, alpha, "beta");
    assert Matches(LAPTOPS, [], "alpha") == [] && Matches(LAPTOPS, [], "beta") == [];
    assert Matches(LAPTOPS, items[1..], "alpha") == [] && Matches(LAPTOPS, items[1..], "beta") == [beta];
    assert Matches(LAPTOPS, items, "alpha") == [alpha] && Matches(LAPTOPS, items, "beta") == [beta];
    var rows, plan := [ALPHA, BETA], [ALPHA_REPAIR, BETA_REPAIR];
    assert rows[..1] == [ALPHA] && rows[..1][..0] == [] && plan[..1] == [ALPHA_REPAIR] && plan[..1][..0] == [];
    assert IsPlanOf(LAPTOPS, rows[..1], plan[..1]);
  }

  lemma AlphaIsDropped()
    ensures RepairProducts(map[1 := ALPHA, 2 := BETA], ALPHA_REPAIR) == map[2 := BETA]
  {
    var products := map[1 := ALPHA, 2 := BETA];
    assert 2 in products && products[2].sku == ALPHA_REPAIR.newSku;
  }

  lemma BetaIsRelabelled()
    ensures RepairProducts(map[2 := BETA], BETA_REPAIR) == map[2 := Relabel(BETA, BETA_REPAIR)]
  {
  }

  /** A chain: alpha is to get the SKU that beta has, and beta another. In this order alpha's row is
      deleted, although nothing in the catalogue was a duplicate of it, and a fact about alpha ends
      as a fact about beta. */
  lemma ChainMisroutesFacts()
    ensures IsPlanOf(LAPTOPS, [ALPHA, BETA], [ALPHA_REPAIR, BETA_REPAIR])
    ensures var after := RepairAll(Db(map[1 := ALPHA, 2 := BETA], Probe("ACC-1")), [ALPHA_REPAIR, BETA_REPAIR]);
      && after.products == map[2 := Relabel(BETA, BETA_REPAIR)]
      && "fact" in after.tables && 0 in after.tables["fact"].rows && after.tables["fact"].rows[0].sku == "LAP-3"
  {
    ChainIsPlanned();
    var products, plan := map[1 := ALPHA, 2 := BETA], [ALPHA_REPAIR, BETA_REPAIR];
    var db := Db(products, Probe("ACC-1"));
    assert plan[..1] == [ALPHA_REPAIR] && plan[..1][..0] == [] && RepairAll(db, []) == db;
    assert Route(plan[..1], "ACC-1") == "LAP-2";
    assert plan[..|plan| - 1] == plan[..1] && plan[1].oldSku == "LAP-2";
    assert Route(plan, "ACC-1") == "LAP-3";
    ProbeEnds(products, plan, "ACC-1");
    hide RepairProducts;
    AlphaIsDropped();
    BetaIsRelabelled();
    assert RepairAll(db, plan[..1]).products == map[2 := BETA];
  }
}
