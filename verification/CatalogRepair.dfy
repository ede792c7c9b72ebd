/** Catalogue identity repair, scripts/reconcile_demo_catalog_identities.py: rows whose SKU is not
    the one the canonical source gives them are renamed, with all the fact rows that name them. */
module CatalogRepair {
  import opened Prelude

  // ----- rows

  /** The parsed `specs` column: its category (blank when absent) and everything else. */
  datatype Specs = Specs(category: string, rest: string)
  datatype Product = Product(sku: string, name: string, specs: Specs, imageUrl: string)

  /** A row of a table that mentions SKUs. `key` is the rest of its business key, if it has one. */
  datatype Fact = Fact(sku: string, key: Option<string>, data: string)

  /** `keyed`: the table has a unique constraint on (sku, key), in which a null key never clashes. */
  datatype Table = Table(rows: map<nat, Fact>, keyed: bool)

  datatype Db = Db(products: map<nat, Product>, tables: map<string, Table>)

  /** An item of the canonical source. */
  datatype Item = Item(name: string, sku: string, category: string)
  datatype Repair = Repair(oldSku: string, newSku: string, name: string, oldCategory: string, newCategory: string, imageUrl: string)

  /** The canonical source and the normalisation of titles. */
  datatype Source = Source(normalized: string -> string, items: seq<Item>)

  ghost predicate UniqueSkus(products: map<nat, Product>) {
    forall i, j :: i in products && j in products && i != j ==> products[i].sku != products[j].sku
  }

  predicate Clash(f: Fact, g: Fact) { f.sku == g.sku && f.key.Some? && f.key == g.key }

  predicate Violates(keyed: bool, rows: map<nat, Fact>) {
    keyed && exists i, j :: i in rows && j in rows && i != j && Clash(rows[i], rows[j])
  }

  ghost predicate ValidDb(db: Db) {
    UniqueSkus(db.products) && forall t :: t in db.tables ==> !Violates(db.tables[t].keyed, db.tables[t].rows)
  }

  // ----- planning

  /** The text before the first dash. */
  function SkuPrefix(sku: string): string {
    if sku == "" || sku[0] == '-' then "" else [sku[0]] + SkuPrefix(sku[1..])
  }

  predicate Matching(src: Source, item: Item, name: string) {
    var e, n := src.normalized(item.name), src.normalized(name);
    e == n || n <= e || e <= n
  }

  function Matches(src: Source, items: seq<Item>, name: string): seq<Item> {
    if items == [] then []
    else (if Matching(src, items[0], name) then [items[0]] else []) + Matches(src, items[1..], name)
  }

  /** The repair of one product row, if it needs one. */
  function Planned(src: Source, p: Product): Option<Repair> {
    var matches := Matches(src, src.items, p.name);
    if |matches| != 1 || matches[0].sku == p.sku then None
    else
      var c := matches[0];
      if p.specs.category == "" then None
      else if c.category == p.specs.category && SkuPrefix(c.sku) == SkuPrefix(p.sku) then None
      else Some(Repair(p.sku, c.sku, p.name, p.specs.category, c.category, p.imageUrl))
  }

  ghost predicate IsPlanOf(src: Source, rows: seq<Product>, repairs: seq<Repair>)
    decreases |rows|
  {
    if rows == [] then repairs == []
    else match Planned(src, rows[|rows| - 1])
      case None => IsPlanOf(src, rows[..|rows| - 1], repairs)
      case Some(r) =>
        repairs != [] && repairs[|repairs| - 1] == r
        && IsPlanOf(src, rows[..|rows| - 1], repairs[..|repairs| - 1])
  }

  // ----- the plan, spelled out on the items and the rows

  predicate Related(src: Source, a: string, b: string) {
    src.normalized(a) <= src.normalized(b) || src.normalized(b) <= src.normalized(a)
  }

  /** `x` is what a SKU has before its first dash, or the whole SKU if it has none. */
  predicate BeforeDash(sku: string, x: string) {
    x <= sku && '-' !in x && (|x| < |sku| ==> sku[|x|] == '-')
  }

  predicate SamePrefix(a: string, b: string) { exists n: nat :: n <= |a| && BeforeDash(a, a[..n]) && BeforeDash(b, a[..n]) }

  /** Item `i` is the only one whose name is that of the row or extends it or is extended by it; it
      gives the row another SKU; the row has a category; and category and SKU prefix do not both agree. */
  ghost predicate Misplaced(src: Source, p: Product, i: nat) {
    && i < |src.items| && Related(src, src.items[i].name, p.name)
    && (forall j :: 0 <= j < |src.items| && j != i ==> !Related(src, src.items[j].name, p.name))
    && src.items[i].sku != p.sku && p.specs.category != ""
    && !(src.items[i].category == p.specs.category && SamePrefix(src.items[i].sku, p.sku))
  }

  function Replacement(src: Source, p: Product, i: nat): Repair
    requires i < |src.items|
  {
    Repair(p.sku, src.items[i].sku, p.name, p.specs.category, src.items[i].category, p.imageUrl)
  }

  lemma {:induction false} SkuPrefixIsBeforeDash(sku: string)
    ensures BeforeDash(sku, SkuPrefix(sku))
  {
    if sku != "" && sku[0] != '-' {
      SkuPrefixIsBeforeDash(sku[1..]);
      assert sku == [sku[0]] + sku[1..];
    }
  }

  lemma OneBeforeDash(sku: string, x: string, y: string)
    requires BeforeDash(sku, x) && BeforeDash(sku, y)
    ensures x == y
  {
    assert x == sku[..|x|] && y == sku[..|y|];
  }

  lemma SamePrefixIsEqual(a: string, b: string)
    ensures SamePrefix(a, b) <==> SkuPrefix(a) == SkuPrefix(b)
  {
    SkuPrefixIsBeforeDash(a);
    SkuPrefixIsBeforeDash(b);
    if SkuPrefix(a) == SkuPrefix(b) {
      assert a[..|SkuPrefix(a)|] == SkuPrefix(a);
    }
    if n: nat :| n <= |a| && BeforeDash(a, a[..n]) && BeforeDash(b, a[..n]) {
      OneBeforeDash(a, a[..n], SkuPrefix(a));
      OneBeforeDash(b, a[..n], SkuPrefix(b));
    }
  }

  /** There is one match exactly when one position matches. */
  lemma {:induction false} OneMatch(src: Source, items: seq<Item>, name: string)
    ensures Matches(src, items, name) == [] <==> forall j :: 0 <= j < |items| ==> !Related(src, items[j].name, name)
    ensures forall i :: 0 <= i < |items| && Related(src, items[i].name, name)
                        && (forall j :: 0 <= j < |items| && j != i ==> !Related(src, items[j].name, name)) ==>
      Matches(src, items, name) == [items[i]]
    ensures |Matches(src, items, name)| == 1 ==>
      exists i :: 0 <= i < |items| && OnlyMatch(src, items, name, i)
  {
    if items != [] {
      var rest := items[1..];
      OneMatch(src, rest, name);
      assert forall j :: 1 <= j < |items| ==> items[j] == rest[j - 1];
      assert Matching(src, items[0], name) <==> Related(src, items[0].name, name);
      if |Matches(src, items, name)| == 1 {
        if Related(src, items[0].name, name) {
          assert OnlyMatch(src, items, name, 0);
        } else {
          var i :| 0 <= i < |rest| && OnlyMatch(src, rest, name, i);
          assert OnlyMatch(src, items, name, i + 1);
        }
      }
    }
  }

  ghost predicate OnlyMatch(src: Source, items: seq<Item>, name: string, i: nat)
    requires i < |items|
  {
    Related(src, items[i].name, name) && forall j :: 0 <= j < |items| && j != i ==> !Related(src, items[j].name, name)
  }

  /** The rows that a plan repairs, in order, and the repairs that they get. */
  ghost predicate PlanOfRows(src: Source, rows: seq<Product>, repairs: seq<Repair>, at: seq<nat>) {
    && |at| == |repairs|
    && (forall j, k :: 0 <= j < k < |at| ==> at[j] < at[k])
    && (forall k :: 0 <= k < |at| ==> at[k] < |rows| && IsReplacement(src, rows[at[k]], repairs[k]))
    && (forall k: nat, i: nat :: k < |rows| && Misplaced(src, rows[k], i) ==> k in at)
  }

  ghost predicate IsReplacement(src: Source, p: Product, r: Repair) {
    exists i: nat :: Misplaced(src, p, i) && r == Replacement(src, p, i)
  }

  /** A row is repaired exactly when it is misplaced. */
  lemma PlannedExactlyWhen(src: Source, p: Product)
    ensures Planned(src, p).Some? ==> IsReplacement(src, p, Planned(src, p).value)
    ensures forall i: nat :: Misplaced(src, p, i) ==> Planned(src, p) == Some(Replacement(src, p, i))
  {
    OneMatch(src, src.items, p.name);
    if Planned(src, p).Some? {
      var i :| 0 <= i < |src.items| && OnlyMatch(src, src.items, p.name, i);
      SamePrefixIsEqual(src.items[i].sku, p.sku);
      assert Misplaced(src, p, i);
    }
    forall i: nat | Misplaced(src, p, i) ensures Planned(src, p) == Some(Replacement(src, p, i)) {
      SamePrefixIsEqual(src.items[i].sku, p.sku);
    }
  }

  lemma {:induction false} PlanSpelledOut(src: Source, rows: seq<Product>, repairs: seq<Repair>) returns (at: seq<nat>)
    requires IsPlanOf(src, rows, repairs)
    ensures PlanOfRows(src, rows, repairs, at)
    decreases |rows|
  {
    if rows == [] {
      at := [];
    } else {
      var init, last := rows[..|rows| - 1], rows[|rows| - 1];
      PlannedExactlyWhen(src, last);
      hide Misplaced, Planned, IsReplacement;
      match Planned(src, last)
      case None =>
        at := PlanSpelledOut(src, init, repairs);
        NoMorePlanned(src, init, last, repairs, at);
        assert init + [last] == rows;
      case Some(r) =>
        at := PlanSpelledOut(src, init, repairs[..|repairs| - 1]);
        OneMorePlanned(src, init, last, repairs[..|repairs| - 1], r, at);
        assert init + [last] == rows && repairs[..|repairs| - 1] + [r] == repairs;
        at := at + [|init|];
    }
  }

  lemma NoMorePlanned(src: Source, init: seq<Product>, last: Product, repairs: seq<Repair>, at: seq<nat>)
    requires PlanOfRows(src, init, repairs, at) && forall i: nat :: !Misplaced(src, last, i)
    ensures PlanOfRows(src, init + [last], repairs, at)
  {
    hide Misplaced, IsReplacement;
  }

  lemma OneMorePlanned(src: Source, init: seq<Product>, last: Product, repairs: seq<Repair>, r: Repair, at: seq<nat>)
    requires PlanOfRows(src, init, repairs, at) && IsReplacement(src, last, r)
    ensures PlanOfRows(src, init + [last], repairs + [r], at + [|init|])
  {
    hide Misplaced, IsReplacement;
    var rows, next := init + [last], at + [|init|];
    forall k: nat, i: nat | k < |rows| && Misplaced(src, rows[k], i) ensures k in next {
      if k < |init| {
        assert rows[k] == init[k];
      } else {
        assert next[|at|] == k;
      }
    }
  }

  /** `plan_repairs`, over the product rows in the order the query returns them. */
  method PlanRepairs(src: Source, rows: seq<Product>) returns (repairs: seq<Repair>)
    ensures IsPlanOf(src, rows, repairs)
    ensures exists at :: PlanOfRows(src, rows, repairs, at)
  {
    repairs := [];
    for i := 0 to |rows|
      invariant IsPlanOf(src, rows[..i], repairs)
    {
      assert rows[..i + 1][..i] == rows[..i];
      var matches := Matches(src, src.items, rows[i].name);
      if |matches| != 1 || matches[0].sku == rows[i].sku {
        continue;
      }
      var canonical, observed := matches[0], rows[i].specs.category;
      if observed == "" {
        continue;
      }
      if canonical.category == observed && SkuPrefix(canonical.sku) == SkuPrefix(rows[i].sku) {
        continue;
      }
      repairs := repairs + [Repair(rows[i].sku, canonical.sku, rows[i].name, observed, canonical.category, rows[i].imageUrl)];
      assert repairs[..|repairs| - 1] + [repairs[|repairs| - 1]] == repairs;
    }
    assert rows[..|rows|] == rows;
    ghost var at := PlanSpelledOut(src, rows, repairs);
  }

  // ----- applying one repair

  predicate Conflict(products: map<nat, Product>, r: Repair) {
    r.newSku != r.oldSku && exists i :: i in products && products[i].sku == r.newSku
  }

  function Relabel(p: Product, r: Repair): Product {
    if p.sku == r.oldSku then p.(sku := r.newSku, specs := p.specs.(category := r.newCategory)) else p
  }

  function RepairProducts(products: map<nat, Product>, r: Repair): map<nat, Product> {
    if Conflict(products, r) then map i | i in products && products[i].sku != r.oldSku :: products[i]
    else map i | i in products :: Relabel(products[i], r)
  }

  function Rename(f: Fact, r: Repair): Fact { if f.sku == r.oldSku then f.(sku := r.newSku) else f }

  function Renamed(rows: map<nat, Fact>, r: Repair): map<nat, Fact> { map i | i in rows :: Rename(rows[i], r) }

  /** The update, or when it would break the unique key, the deletion of the old rows. */
  function RepairTable(t: Table, r: Repair): Table {
    if Violates(t.keyed, Renamed(t.rows, r)) then
      t.(rows := map i | i in t.rows && t.rows[i].sku != r.oldSku :: t.rows[i])
    else t.(rows := Renamed(t.rows, r))
  }

  function RepairDb(db: Db, r: Repair): Db {
    Db(RepairProducts(db.products, r), map t | t in db.tables :: RepairTable(db.tables[t], r))
  }

  function RepairAll(db: Db, rs: seq<Repair>): Db
    decreases |rs|
  {
    if rs == [] then db else RepairDb(RepairAll(db, rs[..|rs| - 1]), rs[|rs| - 1])
  }

  function RowsNaming(rows: map<nat, Fact>, sku: string): set<nat> { set i | i in rows && rows[i].sku == sku }

  // ----- what one repair keeps

  /** SKUs stay unique, and so do the business keys. */
  lemma RepairKeepsValid(db: Db, r: Repair)
    requires ValidDb(db)
    ensures ValidDb(RepairDb(db, r))
  {
    var db' := RepairDb(db, r);
    forall i, j | i in db'.products && j in db'.products && i != j
      ensures db'.products[i].sku != db'.products[j].sku
    {
      if db'.products[i].sku == db'.products[j].sku {
        assert db.products[i].sku != db.products[j].sku;
        assert r.newSku != r.oldSku ==> Conflict(db.products, r);
      }
    }
  }

  /** Nothing names the old SKU any more. */
  lemma RepairRemovesOldSku(db: Db, r: Repair)
    requires r.oldSku != r.newSku
    ensures forall i :: i in RepairDb(db, r).products ==> RepairDb(db, r).products[i].sku != r.oldSku
    ensures forall t, i :: t in db.tables && i in RepairDb(db, r).tables[t].rows ==>
      RepairDb(db, r).tables[t].rows[i].sku != r.oldSku
  {
  }

  ghost predicate NamesProduct(db: Db, sku: string) { exists i :: i in db.products && db.products[i].sku == sku }

  /** A fact row that named a product still names one, if it survives. */
  lemma RepairKeepsReferences(db: Db, r: Repair, t: string, i: nat)
    requires t in db.tables && i in RepairDb(db, r).tables[t].rows
    requires i in db.tables[t].rows && NamesProduct(db, db.tables[t].rows[i].sku)
    ensures NamesProduct(RepairDb(db, r), RepairDb(db, r).tables[t].rows[i].sku)
  {
    var db' := RepairDb(db, r);
    var p :| p in db.products && db.products[p].sku == db.tables[t].rows[i].sku;
    if p in db'.products && db'.products[p].sku == db'.tables[t].rows[i].sku {
    } else {
      var q :| q in db.products && db.products[q].sku == r.newSku;
      assert q in db'.products && db'.products[q].sku == r.newSku;
    }
  }

  /** A row is dropped exactly when it has the old SKU and, in its table, some row with the old SKU
      has the same business key as a row that already has the new one. */
  lemma RowDroppedExactlyWhen(db: Db, r: Repair, t: string, i: nat)
    requires ValidDb(db) && t in db.tables && i in db.tables[t].rows && r.oldSku != r.newSku
    ensures i !in RepairDb(db, r).tables[t].rows <==>
      db.tables[t].rows[i].sku == r.oldSku && KeyTaken(db.tables[t], r)
  {
    var rows := db.tables[t].rows;
    var moved := Renamed(rows, r);
    if Violates(db.tables[t].keyed, moved) {
      var j, k :| j in moved && k in moved && j != k && Clash(moved[j], moved[k]);
      assert !Clash(rows[j], rows[k]);
      assert !Clash(rows[k], rows[j]);
    }
    if KeyTaken(db.tables[t], r) {
      var j, k :| j in rows && k in rows && rows[j].sku == r.oldSku && rows[k].sku == r.newSku
                  && rows[j].key.Some? && rows[j].key == rows[k].key;
      assert Clash(moved[j], moved[k]);
    }
  }

  ghost predicate KeyTaken(t: Table, r: Repair) {
    t.keyed && exists j, k :: j in t.rows && k in t.rows && t.rows[j].sku == r.oldSku && t.rows[k].sku == r.newSku
                              && t.rows[j].key.Some? && t.rows[j].key == t.rows[k].key
  }

  // ----- facts through a sequence of repairs

  /** Where a sequence of repairs takes a SKU. */
  function Route(rs: seq<Repair>, sku: string): string
    decreases |rs|
  {
    if rs == [] then sku
    else
      var s := Route(rs[..|rs| - 1], sku);
      if s == rs[|rs| - 1].oldSku then rs[|rs| - 1].newSku else s
  }

  /** A surviving fact row is the original one with its SKU routed through the repairs in order. */
  lemma {:induction false} FactsAreRouted(db: Db, rs: seq<Repair>, t: string, i: nat)
    requires t in db.tables
    ensures t in RepairAll(db, rs).tables && RepairAll(db, rs).tables[t].keyed == db.tables[t].keyed
    ensures i in RepairAll(db, rs).tables[t].rows ==>
      i in db.tables[t].rows
      && RepairAll(db, rs).tables[t].rows[i] == db.tables[t].rows[i].(sku := Route(rs, db.tables[t].rows[i].sku))
    decreases |rs|
  {
    if rs != [] {
      FactsAreRouted(db, rs[..|rs| - 1], t, i);
    }
  }

  lemma {:induction false} AllKeepsValid(db: Db, rs: seq<Repair>)
    requires ValidDb(db)
    ensures ValidDb(RepairAll(db, rs)) && RepairAll(db, rs).tables.Keys == db.tables.Keys
    decreases |rs|
  {
    if rs != [] {
      AllKeepsValid(db, rs[..|rs| - 1]);
      RepairKeepsValid(RepairAll(db, rs[..|rs| - 1]), rs[|rs| - 1]);
    }
  }

  /** ... and a fact row that named a product names one at the end. */
  lemma {:induction false} AllKeepReferences(db: Db, rs: seq<Repair>, t: string, i: nat)
    requires t in db.tables && i in db.tables[t].rows && NamesProduct(db, db.tables[t].rows[i].sku)
    ensures t in RepairAll(db, rs).tables
    ensures i in RepairAll(db, rs).tables[t].rows ==>
      NamesProduct(RepairAll(db, rs), RepairAll(db, rs).tables[t].rows[i].sku)
    decreases |rs|
  {
    if rs != [] {
      var init := rs[..|rs| - 1];
      AllKeepReferences(db, init, t, i);
      FactsAreRouted(db, rs, t, i);
      FactsAreRouted(db, init, t, i);
      var mid := RepairAll(db, init);
      if i in RepairAll(db, rs).tables[t].rows {
        assert i in mid.tables[t].rows;
        RepairKeepsReferences(mid, rs[|rs| - 1], t, i);
      }
    }
  }

  // ----- a full plan converges

  /** A plan for all the rows, in any order: the planned repairs and nothing else, each SKU once. */
  ghost predicate FullPlan(src: Source, products: map<nat, Product>, rs: seq<Repair>) {
    && (forall r :: r in rs ==> exists i :: i in products && Planned(src, products[i]) == Some(r))
    && (forall i :: i in products && Planned(src, products[i]).Some? ==> Planned(src, products[i]).value in rs)
    && (forall j, k :: 0 <= j < k < |rs| ==> rs[j].oldSku != rs[k].oldSku)
  }

  predicate Done(src: Source, p: Product, past: seq<Repair>) {
    Planned(src, p).Some? && Planned(src, p).value in past
  }

  /** Where a row stands when the repairs `past` have been applied. */
  ghost predicate Progress(src: Source, products: map<nat, Product>, past: seq<Repair>, now: map<nat, Product>) {
    && UniqueSkus(now) && now.Keys <= products.Keys
    && forall i :: i in products ==>
      if Done(src, products[i], past) then i in now ==> Planned(src, now[i]) == None
      else i in now && now[i] == products[i]
  }

  /** A relabelled row is where the source wants it. */
  lemma RelabelledRowIsSettled(src: Source, p: Product, r: Repair)
    requires Planned(src, p) == Some(r)
    ensures Planned(src, Relabel(p, r)) == None
  {
  }

  /** One repair of the plan moves exactly the row it was planned for, or removes it. */
  lemma ProgressStep(src: Source, products: map<nat, Product>, past: seq<Repair>, r: Repair, p: nat, now: map<nat, Product>)
    requires UniqueSkus(products) && Progress(src, products, past, now)
    requires p in products && Planned(src, products[p]) == Some(r) && r !in past
    ensures Progress(src, products, past + [r], RepairProducts(now, r))
  {
    var next := RepairProducts(now, r);
    ProductsStayUnique(now, r);
    assert now[p] == products[p] && now[p].sku == r.oldSku;
    RelabelledRowIsSettled(src, now[p], r);
    forall i | i in products
      ensures if Done(src, products[i], past + [r]) then i in next ==> Planned(src, next[i]) == None
              else i in next && next[i] == products[i]
    {
      if i != p {
        assert products[i].sku != products[p].sku;
        assert Planned(src, products[i]) != Some(r);
        assert Done(src, products[i], past + [r]) == Done(src, products[i], past);
        if i in now { assert now[i].sku != r.oldSku; }
      }
    }
  }

  lemma {:induction false} PlanProgress(src: Source, db: Db, rs: seq<Repair>, n: nat)
    requires UniqueSkus(db.products) && FullPlan(src, db.products, rs) && n <= |rs|
    ensures Progress(src, db.products, rs[..n], RepairAll(db, rs[..n]).products)
  {
    if n > 0 {
      PlanProgress(src, db, rs, n - 1);
      var past, r := rs[..n - 1], rs[n - 1];
      assert rs[..n][..n - 1] == past && rs[..n] == past + [r];
      assert r in rs;
      var p :| p in db.products && Planned(src, db.products[p]) == Some(r);
      ProgressStep(src, db.products, past, r, p, RepairAll(db, past).products);
    }
  }

  lemma ProductsStayUnique(products: map<nat, Product>, r: Repair)
    requires UniqueSkus(products)
    ensures UniqueSkus(RepairProducts(products, r))
  {
    RepairKeepsValid(Db(products, map[]), r);
  }

  /** Repair converges: whatever the order of the plan, and through chains and cycles of SKUs,
      planning again finds nothing to repair. */
  lemma RepairConverges(src: Source, db: Db, rs: seq<Repair>, rows: seq<Product>, again: seq<Repair>)
    requires UniqueSkus(db.products) && FullPlan(src, db.products, rs)
    requires forall p :: p in rows ==> exists i :: i in RepairAll(db, rs).products && RepairAll(db, rs).products[i] == p
    requires IsPlanOf(src, rows, again)
    ensures again == []
  {
    PlanProgress(src, db, rs, |rs|);
    assert rs[..|rs|] == rs;
    var after := RepairAll(db, rs).products;
    forall p | p in rows ensures Planned(src, p) == None {
      var i :| i in after && after[i] == p;
      assert i in db.products;
    }
    NothingPlanned(src, rows, again);
  }

  lemma {:induction false} NothingPlanned(src: Source, rows: seq<Product>, repairs: seq<Repair>)
    requires IsPlanOf(src, rows, repairs) && forall p :: p in rows ==> Planned(src, p) == None
    ensures repairs == []
    decreases |rows|
  {
    if rows != [] {
      assert rows[|rows| - 1] in rows;
      NothingPlanned(src, rows[..|rows| - 1], repairs);
    }
  }

  // ----- what the planner returns is a full plan

  lemma {:induction false} PlanMembers(src: Source, rows: seq<Product>, repairs: seq<Repair>)
    requires IsPlanOf(src, rows, repairs)
    ensures forall p :: p in rows && Planned(src, p).Some? ==> Planned(src, p).value in repairs
    ensures forall r :: r in repairs ==> exists p :: p in rows && Planned(src, p) == Some(r)
    decreases |rows|
  {
    if rows != [] {
      var init, last := rows[..|rows| - 1], rows[|rows| - 1];
      assert rows == init + [last];
      match Planned(src, last)
      case None => PlanMembers(src, init, repairs);
      case Some(r) =>
        PlanMembers(src, init, repairs[..|repairs| - 1]);
        assert repairs == repairs[..|repairs| - 1] + [r];
    }
  }

  lemma {:induction false} PlanHasDistinctSkus(src: Source, rows: seq<Product>, repairs: seq<Repair>)
    requires IsPlanOf(src, rows, repairs)
    requires forall j, k :: 0 <= j < k < |rows| ==> rows[j].sku != rows[k].sku
    ensures forall j, k :: 0 <= j < k < |repairs| ==> repairs[j].oldSku != repairs[k].oldSku
    decreases |rows|
  {
    if rows != [] {
      var init, last := rows[..|rows| - 1], rows[|rows| - 1];
      match Planned(src, last)
      case None => PlanHasDistinctSkus(src, init, repairs);
      case Some(r) =>
        var before := repairs[..|repairs| - 1];
        PlanHasDistinctSkus(src, init, before);
        PlanMembers(src, init, before);
        forall j | 0 <= j < |before| ensures repairs[j].oldSku != r.oldSku {
          assert before[j] in before;
          var p :| p in init && Planned(src, p) == Some(before[j]);
        }
    }
  }

  lemma TwiceMeansTwo<T>(s: seq<T>, j: nat, k: nat)
    requires j < k < |s| && s[j] == s[k]
    ensures multiset(s)[s[j]] >= 2
  {
    assert s == s[..k] + s[k..];
    assert s[..k][j] == s[j] && s[k..][0] == s[j];
  }

  lemma {:induction false} DistinctMeansOne<T>(s: seq<T>, x: T)
    requires forall j, k :: 0 <= j < k < |s| ==> s[j] != s[k]
    ensures multiset(s)[x] <= 1
  {
    if s != [] {
      DistinctMeansOne(s[1..], x);
      assert s == [s[0]] + s[1..];
      if x == s[0] {
        assert x !in s[1..];
      }
    }
  }

  lemma ShuffleKeepsDistinct(repairs: seq<Repair>, shuffled: seq<Repair>)
    requires multiset(shuffled) == multiset(repairs)
    requires forall j, k :: 0 <= j < k < |repairs| ==> repairs[j].oldSku != repairs[k].oldSku
    ensures forall j, k :: 0 <= j < k < |shuffled| ==> shuffled[j].oldSku != shuffled[k].oldSku
  {
    forall j, k | 0 <= j < k < |shuffled| ensures shuffled[j].oldSku != shuffled[k].oldSku {
      if shuffled[j].oldSku == shuffled[k].oldSku {
        assert shuffled[j] in multiset(repairs) && shuffled[k] in multiset(repairs);
        assert shuffled[j] in repairs && shuffled[k] in repairs;
        TwiceMeansTwo(shuffled, j, k);
        DistinctMeansOne(repairs, shuffled[j]);
        assert false;
      }
    }
  }

  /** `rows` is the product table read in the order `ids`. */
  ghost predicate Reads(products: map<nat, Product>, ids: seq<nat>, rows: seq<Product>) {
    && |rows| == |ids|
    && (forall i :: i in ids <==> i in products)
    && (forall j, k :: 0 <= j < k < |ids| ==> ids[j] != ids[k])
    && (forall k :: 0 <= k < |ids| ==> ids[k] in products && rows[k] == products[ids[k]])
  }

  /** What the planner returns, in any order, is a full plan. */
  lemma PlanIsFull(src: Source, products: map<nat, Product>, ids: seq<nat>, rows: seq<Product>,
                   repairs: seq<Repair>, shuffled: seq<Repair>)
    requires UniqueSkus(products) && Reads(products, ids, rows)
    requires IsPlanOf(src, rows, repairs) && multiset(shuffled) == multiset(repairs)
    ensures FullPlan(src, products, shuffled)
  {
    PlanMembers(src, rows, repairs);
    PlanHasDistinctSkus(src, rows, repairs);
    ShuffleKeepsDistinct(repairs, shuffled);
    forall r ensures r in shuffled <==> r in repairs {
      assert r in shuffled <==> r in multiset(shuffled);
      assert r in repairs <==> r in multiset(repairs);
    }
    forall i | i in products ensures products[i] in rows {
      var k :| 0 <= k < |ids| && ids[k] == i;
      assert rows[k] == products[i];
    }
    forall r | r in shuffled ensures exists i :: i in products && Planned(src, products[i]) == Some(r) {
      var p :| p in rows && Planned(src, p) == Some(r);
      var k :| 0 <= k < |rows| && rows[k] == p;
      assert products[ids[k]] == p;
    }
  }

  // ----- do the facts of a repaired product follow it?

  ghost predicate Handover(rs: seq<Repair>, i: nat, j: nat) { i < j < |rs| && rs[i].newSku == rs[j].oldSku }

  lemma {:induction false} RouteOf(rs: seq<Repair>, sku: string, i: nat, n: nat)
    requires i < n <= |rs| && rs[i].oldSku == sku
    requires forall j, k :: 0 <= j < k < |rs| ==> rs[j].oldSku != rs[k].oldSku
    requires forall j :: i < j < n ==> rs[i].newSku != rs[j].oldSku
    ensures Route(rs[..n], sku) == rs[i].newSku
  {
    assert rs[..n][..n - 1] == rs[..n - 1];
    if n == i + 1 {
      Unrouted(rs, sku, i);
    } else {
      RouteOf(rs, sku, i, n - 1);
    }
  }

  lemma {:induction false} Unrouted(rs: seq<Repair>, sku: string, n: nat)
    requires n <= |rs| && forall j :: 0 <= j < n ==> rs[j].oldSku != sku
    ensures Route(rs[..n], sku) == sku
  {
    if n > 0 {
      assert rs[..n][..n - 1] == rs[..n - 1];
      Unrouted(rs, sku, n - 1);
    }
  }

  /** Facts follow: the rows of every repaired product end at that product's new SKU. */
  ghost predicate FactsFollow(rs: seq<Repair>) {
    forall i :: 0 <= i < |rs| ==> Route(rs, rs[i].oldSku) == rs[i].newSku
  }

  lemma LastHandover(rs: seq<Repair>, i: nat, j: nat) returns (i': nat, j': nat)
    requires Handover(rs, i, j)
    ensures Handover(rs, i', j')
    ensures forall k: nat, l: nat :: Handover(rs, k, l) ==> l <= j'
    decreases |rs| - j
  {
    i', j' := i, j;
    if k: nat, l: nat :| Handover(rs, k, l) && l > j {
      i', j' := LastHandover(rs, k, l);
    }
  }

  /** With one repair per SKU the facts of every repaired product follow it exactly when no repair
      renames to a SKU that a later repair renames away. */
  lemma FactsFollowExactlyWhen(rs: seq<Repair>)
    requires forall j, k :: 0 <= j < k < |rs| ==> rs[j].oldSku != rs[k].oldSku
    requires forall j :: 0 <= j < |rs| ==> rs[j].oldSku != rs[j].newSku
    ensures FactsFollow(rs) <==> !exists i: nat, j: nat :: Handover(rs, i, j)
  {
    assert rs[..|rs|] == rs;
    if i0: nat, j0: nat :| Handover(rs, i0, j0) {
      var i, j := LastHandover(rs, i0, j0);
      RouteOf(rs, rs[i].oldSku, i, j);
      assert rs[..j + 1][..j] == rs[..j];
      assert Route(rs[..j + 1], rs[i].oldSku) == rs[j].newSku;
      StaysAfter(rs, rs[i].oldSku, j, |rs|);
      assert Route(rs, rs[i].oldSku) != rs[i].newSku;
    } else {
      forall i | 0 <= i < |rs| ensures Route(rs, rs[i].oldSku) == rs[i].newSku {
        forall j | i < j < |rs| ensures rs[i].newSku != rs[j].oldSku {
          assert !Handover(rs, i, j);
        }
        RouteOf(rs, rs[i].oldSku, i, |rs|);
      }
    }
  }

  lemma {:induction false} StaysAfter(rs: seq<Repair>, sku: string, j: nat, n: nat)
    requires j < n <= |rs| && Route(rs[..j + 1], sku) == rs[j].newSku
    requires forall k: nat, l: nat :: Handover(rs, k, l) ==> l <= j
    ensures Route(rs[..n], sku) == rs[j].newSku
  {
    if n > j + 1 {
      assert rs[..n][..n - 1] == rs[..n - 1];
      StaysAfter(rs, sku, j, n - 1);
      assert !Handover(rs, j, n - 1);
    }
  }

  // ----- the script's own loop

  datatype CountKey = Updated(table: string) | Merged(table: string)

  const PRODUCTS_TABLE := "products"

  function OldRows(t: Table, r: Repair): nat { |RowsNaming(t.rows, r.oldSku)| }

  /** What one repair adds to a counter. */
  function Added(db: Db, r: Repair, key: CountKey): nat {
    match key
    case Updated(t) =>
      if t == PRODUCTS_TABLE then (if Conflict(db.products, r) then 0 else 1)
      else if t in db.tables && !Violates(db.tables[t].keyed, Renamed(db.tables[t].rows, r)) then OldRows(db.tables[t], r)
      else 0
    case Merged(t) =>
      if t == PRODUCTS_TABLE then (if Conflict(db.products, r) then 1 else 0)
      else if t in db.tables && Violates(db.tables[t].keyed, Renamed(db.tables[t].rows, r)) then OldRows(db.tables[t], r)
      else 0
  }

  function Counted(db: Db, rs: seq<Repair>, key: CountKey): nat
    decreases |rs|
  {
    if rs == [] then 0
    else
      var init := rs[..|rs| - 1];
      Counted(db, init, key) + Added(RepairAll(db, init), rs[|rs| - 1], key)
  }

  function Count(counts: map<CountKey, nat>, key: CountKey): nat { if key in counts then counts[key] else 0 }

  function Bump(counts: map<CountKey, nat>, key: CountKey, n: nat): map<CountKey, nat> {
    if n == 0 then counts else counts[key := Count(counts, key) + n]
  }

  class Catalogue {
    var products: map<nat, Product>
    var tables: map<string, Table>

    constructor (products: map<nat, Product>, tables: map<string, Table>)
      ensures State() == Db(products, tables)
    {
      this.products, this.tables := products, tables;
    }

    ghost function State(): Db
      reads this
    {
      Db(products, tables)
    }

    /** `apply_repairs`: one transaction, repair by repair and table by table. */
    method ApplyRepairs(repairs: seq<Repair>) returns (counts: map<CountKey, nat>)
      requires ValidDb(State()) && PRODUCTS_TABLE !in tables
      modifies this
      ensures State() == RepairAll(old(State()), repairs) && ValidDb(State())
      ensures forall key :: Count(counts, key) == Counted(old(State()), repairs, key)
    {
      counts := map[];
      for n := 0 to |repairs|
        invariant State() == RepairAll(old(State()), repairs[..n])
        invariant ValidDb(State()) && PRODUCTS_TABLE !in tables
        invariant forall key :: Count(counts, key) == Counted(old(State()), repairs[..n], key)
      {
        ghost var before := State();
        assert repairs[..n + 1][..n] == repairs[..n];
        counts := ApplyRepair(repairs[n], counts);
        RepairKeepsValid(before, repairs[n]);
      }
      assert repairs[..|repairs|] == repairs;
    }

    /** One repair: the product row, then every fact table, then a conflicting product row. */
    method ApplyRepair(r: Repair, counts0: map<CountKey, nat>) returns (counts: map<CountKey, nat>)
      requires PRODUCTS_TABLE !in tables
      modifies this
      ensures State() == RepairDb(old(State()), r)
      ensures forall key :: Count(counts, key) == Count(counts0, key) + Added(old(State()), r, key)
    {
      ghost var db := State();
      counts := counts0;
      var conflict := Conflict(products, r);
      if !conflict {
        products := map i | i in products :: Relabel(products[i], r);
        counts := Bump(counts, Updated(PRODUCTS_TABLE), 1);
      }
      assert Tallied(db, r, counts0, counts, db.tables.Keys) by { TallyStart(db, r, counts0); }
      counts := RepairTables(r, counts, db, counts0);
      TallyEnd(db, r, counts0, counts);
      if conflict {
        products := map i | i in products && products[i].sku != r.oldSku :: products[i];
        counts := Bump(counts, Merged(PRODUCTS_TABLE), 1);
      }
    }

    /** The loop over the fact tables. */
    method RepairTables(r: Repair, counts1: map<CountKey, nat>, ghost db: Db, ghost counts0: map<CountKey, nat>)
      returns (counts: map<CountKey, nat>)
      requires PRODUCTS_TABLE !in tables && db.tables == tables && Tallied(db, r, counts0, counts1, tables.Keys)
      modifies this`tables
      ensures tables == RepairDb(db, r).tables && Tallied(db, r, counts0, counts, {})
    {
      counts := counts1;
      var todo := tables.Keys;
      while todo != {}
        invariant todo <= tables.Keys == db.tables.Keys
        invariant forall t :: t in tables ==>
          tables[t] == if t in todo then db.tables[t] else RepairTable(db.tables[t], r)
        invariant Tallied(db, r, counts0, counts, todo)
        decreases todo
      {
        var t :| t in todo;
        var table;
        ghost var before := counts;
        table, counts := RepairOneTable(t, tables[t], r, counts);
        TallyStep(db, r, counts0, before, counts, todo, t);
        tables := tables[t := table];
        todo := todo - {t};
      }
    }

    /** An update that breaks a unique key is undone, and the old rows are deleted instead. */
    method RepairOneTable(t: string, table: Table, r: Repair, counts0: map<CountKey, nat>)
      returns (table': Table, counts: map<CountKey, nat>)
      ensures table' == RepairTable(table, r)
      ensures counts == Bump(counts0, if Violates(table.keyed, Renamed(table.rows, r)) then Merged(t) else Updated(t),
                             OldRows(table, r))
    {
      var moved := Renamed(table.rows, r);
      var hit := |RowsNaming(table.rows, r.oldSku)|;
      if Violates(table.keyed, moved) {
        table' := table.(rows := map i | i in table.rows && table.rows[i].sku != r.oldSku :: table.rows[i]);
        counts := Bump(counts0, Merged(t), hit);
      } else {
        table' := table.(rows := moved);
        counts := Bump(counts0, Updated(t), hit);
      }
    }
  }

  /** The counters while the tables `todo`, and a conflicting product row, are still to be done. */
  function AddedSoFar(db: Db, r: Repair, key: CountKey, todo: set<string>): nat {
    if key.table in todo || key == Merged(PRODUCTS_TABLE) then 0 else Added(db, r, key)
  }

  ghost predicate Tallied(db: Db, r: Repair, counts0: map<CountKey, nat>, counts: map<CountKey, nat>, todo: set<string>) {
    forall key :: Count(counts, key) == Count(counts0, key) + AddedSoFar(db, r, key, todo)
  }

  lemma TallyStart(db: Db, r: Repair, counts0: map<CountKey, nat>)
    requires PRODUCTS_TABLE !in db.tables
    ensures Tallied(db, r, counts0, if Conflict(db.products, r) then counts0 else Bump(counts0, Updated(PRODUCTS_TABLE), 1),
                    db.tables.Keys)
  {
  }

  lemma TallyEnd(db: Db, r: Repair, counts0: map<CountKey, nat>, counts: map<CountKey, nat>)
    requires Tallied(db, r, counts0, counts, {})
    ensures forall key ::
      Count(if Conflict(db.products, r) then Bump(counts, Merged(PRODUCTS_TABLE), 1) else counts, key)
      == Count(counts0, key) + Added(db, r, key)
  {
  }

  lemma TallyStep(db: Db, r: Repair, counts0: map<CountKey, nat>, before: map<CountKey, nat>, after: map<CountKey, nat>,
                  todo: set<string>, t: string)
    requires t in todo && t in db.tables && t != PRODUCTS_TABLE && Tallied(db, r, counts0, before, todo)
    requires var table := db.tables[t];
      after == Bump(before, if Violates(table.keyed, Renamed(table.rows, r)) then Merged(t) else Updated(t), OldRows(table, r))
    ensures Tallied(db, r, counts0, after, todo - {t})
  {
    forall key ensures Count(after, key) == Count(counts0, key) + AddedSoFar(db, r, key, todo - {t}) {
      assert Count(before, key) == Count(counts0, key) + AddedSoFar(db, r, key, todo);
    }
  }

  // ----- nothing is lost but what is counted

  lemma SameKeysSameSize(a: map<nat, Fact>, b: map<nat, Fact>)
    requires a.Keys == b.Keys
    ensures |a| == |b|
  {
    assert |a| == |a.Keys| && |b| == |b.Keys|;
  }

  /** Every row with the old SKU is counted, as updated or as merged; and every repair counts one
      product, as updated or as merged. */
  lemma RepairCountsEveryRow(db: Db, r: Repair, t: string)
    requires t in db.tables && t != PRODUCTS_TABLE
    ensures Added(db, r, Updated(t)) + Added(db, r, Merged(t)) == |RowsNaming(db.tables[t].rows, r.oldSku)|
    ensures Added(db, r, Updated(t)) == 0 || Added(db, r, Merged(t)) == 0
    ensures Added(db, r, Updated(PRODUCTS_TABLE)) + Added(db, r, Merged(PRODUCTS_TABLE)) == 1
  {
  }

  lemma {:induction false} EveryRepairIsCounted(db: Db, rs: seq<Repair>)
    ensures Counted(db, rs, Updated(PRODUCTS_TABLE)) + Counted(db, rs, Merged(PRODUCTS_TABLE)) == |rs|
    decreases |rs|
  {
    if rs != [] { EveryRepairIsCounted(db, rs[..|rs| - 1]); }
  }

  lemma RepairConservesRows(db: Db, r: Repair, t: string)
    requires t in db.tables && t != PRODUCTS_TABLE
    ensures |db.tables[t].rows| == |RepairDb(db, r).tables[t].rows| + Added(db, r, Merged(t))
  {
    var rows, rows' := db.tables[t].rows, RepairDb(db, r).tables[t].rows;
    if Violates(db.tables[t].keyed, Renamed(rows, r)) {
      assert rows'.Keys == rows.Keys - RowsNaming(rows, r.oldSku);
      assert RowsNaming(rows, r.oldSku) <= rows.Keys;
      assert |rows'.Keys| == |rows.Keys| - |RowsNaming(rows, r.oldSku)|;
      assert |rows| == |rows.Keys| && |rows'| == |rows'.Keys|;
    } else {
      SameKeysSameSize(rows, rows');
    }
  }

  /** In every fact table, the rows before are the rows after plus the rows counted as merged. */
  lemma {:induction false} AllConserveRows(db: Db, rs: seq<Repair>, t: string)
    requires t in db.tables && t != PRODUCTS_TABLE
    ensures t in RepairAll(db, rs).tables
    ensures |db.tables[t].rows| == |RepairAll(db, rs).tables[t].rows| + Counted(db, rs, Merged(t))
    decreases |rs|
  {
    if rs != [] {
      var init := rs[..|rs| - 1];
      AllConserveRows(db, init, t);
      RepairConservesRows(RepairAll(db, init), rs[|rs| - 1], t);
    }
  }
}
