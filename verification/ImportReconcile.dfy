/** Merging duplicate observations of a product, scripts/seed_inventory_from_txt.py: nothing that
    was observed may be lost, and products whose records differ are held. */
module ImportReconcile {
  import opened Prelude

  datatype Status = Unverified | HeldPriceConflict | HeldIdentityReview

  datatype Observation = Observation(digest: string, text: string, price: Option<int>)

  /** `details` are the specs other than the category and the import record. */
  datatype Row = Row(
    sku: string, name: string, price: Option<int>, category: string, details: string,
    status: Status, observations: seq<Observation>)

  /** A row as the parser makes it: one observation, carrying the price, and never an identity hold. */
  predicate Parsed(r: Row) {
    |r.observations| == 1 && r.observations[0].price == r.price && r.status != HeldIdentityReview
  }

  predicate AllParsed(rows: seq<Row>) { forall r :: r in rows ==> Parsed(r) }

  function Digests(obs: seq<Observation>): set<string> { set o | o in obs :: o.digest }

  function Unknown(obs: seq<Observation>, known: set<string>): seq<Observation> {
    if obs == [] then []
    else (if obs[0].digest in known then [] else [obs[0]]) + Unknown(obs[1..], known)
  }

  /** One further row of a product that is already there. */
  function Merge(prior: Row, row: Row): Row {
    var obs := prior.observations + Unknown(row.observations, Digests(prior.observations));
    var conflict := prior.price != row.price || prior.status == HeldPriceConflict || row.status == HeldPriceConflict;
    if |obs| > 1 then
      prior.(observations := obs, price := None, details := "",
             status := if conflict then HeldPriceConflict else HeldIdentityReview)
    else prior.(observations := obs)
  }

  function MergeAll(rows: seq<Row>): Row
    requires rows != []
    decreases |rows|
  {
    if |rows| == 1 then rows[0] else Merge(MergeAll(rows[..|rows| - 1]), rows[|rows| - 1])
  }

  /** The rows of one product, and the products in order of first appearance. */
  function RowsOf(rows: seq<Row>, sku: string): seq<Row>
    decreases |rows|
  {
    if rows == [] then []
    else RowsOf(rows[..|rows| - 1], sku) + (if rows[|rows| - 1].sku == sku then [rows[|rows| - 1]] else [])
  }

  function FirstSeen(rows: seq<Row>): seq<string>
    decreases |rows|
  {
    if rows == [] then []
    else
      var init := FirstSeen(rows[..|rows| - 1]);
      var sku := rows[|rows| - 1].sku;
      if sku in init then init else init + [sku]
  }

  lemma {:induction false} FirstSeenMembers(rows: seq<Row>)
    ensures forall sku :: sku in FirstSeen(rows) <==> RowsOf(rows, sku) != []
    ensures forall j, k :: 0 <= j < k < |FirstSeen(rows)| ==> FirstSeen(rows)[j] != FirstSeen(rows)[k]
    ensures forall sku, r :: r in RowsOf(rows, sku) ==> r in rows && r.sku == sku
    decreases |rows|
  {
    if rows != [] {
      FirstSeenMembers(rows[..|rows| - 1]);
      assert rows == rows[..|rows| - 1] + [rows[|rows| - 1]];
    }
  }

  ghost predicate Merged(rows: seq<Row>, order: seq<string>, merged: map<string, Row>) {
    && order == FirstSeen(rows)
    && (forall sku :: sku in merged <==> sku in order)
    && (forall sku :: sku in merged ==> IsMergeOf(merged[sku], RowsOf(rows, sku)))
  }

  ghost predicate IsMergeOf(r: Row, own: seq<Row>) { own != [] && r == MergeAll(own) }

  function NextMerged(merged: map<string, Row>, row: Row): map<string, Row> {
    merged[row.sku := if row.sku in merged then Merge(merged[row.sku], row) else row]
  }

  function NextOrder(order: seq<string>, merged: map<string, Row>, row: Row): seq<string> {
    if row.sku in merged then order else order + [row.sku]
  }

  lemma OneMoreRow(rows: seq<Row>, order: seq<string>, merged: map<string, Row>, row: Row)
    requires Merged(rows, order, merged)
    ensures Merged(rows + [row], NextOrder(order, merged, row), NextMerged(merged, row))
  {
    assert FirstSeen(rows + [row]) == NextOrder(order, merged, row) by {
      assert (rows + [row])[..|rows|] == rows;
    }
    forall sku | sku in NextMerged(merged, row)
      ensures IsMergeOf(NextMerged(merged, row)[sku], RowsOf(rows + [row], sku))
    {
      RowsOfAppend(rows, row, sku);
      if sku == row.sku {
        SameSku(rows, order, merged, row);
        assert RowsOf(rows + [row], sku) == RowsOf(rows, sku) + [row];
      } else {
        assert RowsOf(rows + [row], sku) == RowsOf(rows, sku);
        assert IsMergeOf(merged[sku], RowsOf(rows, sku));
      }
    }
  }

  lemma SameSku(rows: seq<Row>, order: seq<string>, merged: map<string, Row>, row: Row)
    requires Merged(rows, order, merged)
    ensures IsMergeOf(NextMerged(merged, row)[row.sku], RowsOf(rows, row.sku) + [row])
  {
    var own := RowsOf(rows, row.sku);
    FirstSeenMembers(rows);
    MergeAllAppend(own, row);
    if row.sku in merged {
      assert IsMergeOf(merged[row.sku], own);
    } else {
      assert own == [];
    }
  }

  lemma RowsOfAppend(rows: seq<Row>, row: Row, sku: string)
    ensures RowsOf(rows + [row], sku) == RowsOf(rows, sku) + (if row.sku == sku then [row] else [])
  {
    assert (rows + [row])[..|rows|] == rows;
  }

  lemma MergeAllAppend(own: seq<Row>, row: Row)
    ensures MergeAll(own + [row]) == if own == [] then row else Merge(MergeAll(own), row)
  {
    assert (own + [row])[..|own|] == own;
  }

  /** `_reconcile_import_rows`: one row per product, products in order of first appearance. */
  method ReconcileImportRows(products: seq<Row>) returns (result: seq<Row>)
    ensures |result| == |FirstSeen(products)|
    ensures forall k :: 0 <= k < |result| ==>
      IsMergeOf(result[k], RowsOf(products, FirstSeen(products)[k]))
  {
    var order, merged := [], map[];
    for i := 0 to |products|
      invariant Merged(products[..i], order, merged)
    {
      var row := products[i];
      assert products[..i + 1] == products[..i] + [row];
      OneMoreRow(products[..i], order, merged, row);
      if row.sku !in merged {
        order := order + [row.sku];
        merged := merged[row.sku := row];
      } else {
        merged := merged[row.sku := Merge(merged[row.sku], row)];
      }
    }
    assert products[..|products|] == products;
    result := seq(|order|, k requires 0 <= k < |order| => assert order[k] in order; merged[order[k]]);
  }

  // ----- nothing observed is lost

  function AllDigests(rows: seq<Row>): set<string> { set r, o | r in rows && o in r.observations :: o.digest }

  ghost predicate NoRepeats(obs: seq<Observation>) {
    forall j, k :: 0 <= j < k < |obs| ==> obs[j].digest != obs[k].digest
  }

  lemma UnknownOfOne(o: Observation, known: set<string>)
    ensures Unknown([o], known) == if o.digest in known then [] else [o]
  {
    assert Unknown([o][1..], known) == [];
  }

  lemma DigestsAppend(obs: seq<Observation>, o: Observation)
    ensures Digests(obs + [o]) == Digests(obs) + {o.digest}
  {
    assert o in obs + [o];
    forall d | d in Digests(obs) ensures d in Digests(obs + [o]) {
      var p :| p in obs && p.digest == d;
      assert p in obs + [o];
    }
  }

  /** What a merge does to the observations, for a row with one observation. */
  lemma MergeOne(prior: Row, row: Row, o: Observation)
    requires row.observations == [o]
    ensures var obs := prior.observations;
      Merge(prior, row).observations == if o.digest in Digests(obs) then obs else obs + [o]
    ensures Merge(prior, row).sku == prior.sku && Merge(prior, row).name == prior.name
  {
    UnknownOfOne(o, Digests(prior.observations));
    assert prior.observations + [] == prior.observations;
  }

  /** ... and to their digests. */
  lemma MergeOneDigest(prior: Row, row: Row, o: Observation)
    requires row.observations == [o] && NoRepeats(prior.observations)
    ensures Digests(Merge(prior, row).observations) == Digests(prior.observations) + {o.digest}
    ensures NoRepeats(Merge(prior, row).observations)
  {
    MergeOne(prior, row, o);
    var obs := prior.observations;
    DigestsAppend(obs, o);
    if o.digest !in Digests(obs) {
      forall k | 0 <= k < |obs| ensures obs[k].digest != o.digest { assert obs[k] in obs; }
    }
  }

  lemma {:induction false} MergeInventsNothing(rows: seq<Row>, o: Observation)
    requires rows != [] && AllParsed(rows) && o in MergeAll(rows).observations
    ensures exists r :: r in rows && o in r.observations
    decreases |rows|
  {
    var init, last := rows[..|rows| - 1], rows[|rows| - 1];
    assert rows == init + [last] && last in rows;
    if |rows| > 1 && o !in last.observations {
      assert last.observations == [last.observations[0]];
      MergeOne(MergeAll(init), last, last.observations[0]);
      MergeInventsNothing(init, o);
    }
  }

  lemma SmallestCases(o: Observation)
    ensures AllDigests([]) == {} && Digests([o]) == {o.digest} && NoRepeats([o])
  {
    assert o in [o];
  }

  /** Merging keeps every distinct observation exactly once. */
  lemma {:induction false} MergeKeepsObservations(rows: seq<Row>)
    requires rows != [] && AllParsed(rows)
    ensures Digests(MergeAll(rows).observations) == AllDigests(rows)
    ensures NoRepeats(MergeAll(rows).observations)
    ensures MergeAll(rows).sku == rows[0].sku && MergeAll(rows).name == rows[0].name
    decreases |rows|
  {
    hide NoRepeats, AllDigests, Digests;
    var init, last := rows[..|rows| - 1], rows[|rows| - 1];
    assert rows == init + [last] && last in rows;
    var o := last.observations[0];
    assert last.observations == [o];
    AllDigestsAppend(init, last);
    SmallestCases(o);
    if |rows| > 1 {
      MergeKeepsObservations(init);
      MergeOneDigest(MergeAll(init), last, o);
      MergeOne(MergeAll(init), last, o);
    } else {
      assert init == [];
    }
  }

  lemma AllDigestsAppend(rows: seq<Row>, r: Row)
    ensures AllDigests(rows + [r]) == AllDigests(rows) + Digests(r.observations)
  {
    forall d ensures d in AllDigests(rows + [r]) <==> d in AllDigests(rows) || d in Digests(r.observations) {
      if d in AllDigests(rows) {
        var q, o :| q in rows && o in q.observations && o.digest == d;
        assert q in rows + [r];
      }
      if d in Digests(r.observations) {
        assert r in rows + [r];
      }
    }
  }

  // ----- price and hold

  predicate SingleDigest(rows: seq<Row>)
    requires AllParsed(rows)
  {
    forall j, k :: 0 <= j < |rows| && 0 <= k < |rows| ==> Digest(rows[j]) == Digest(rows[k])
  }

  function Digest(r: Row): string { if r.observations == [] then "" else r.observations[0].digest }

  /** No earlier row has the digest of row `k`. */
  predicate FirstWith(rows: seq<Row>, k: nat)
    requires k < |rows|
  {
    forall j :: 0 <= j < k ==> Digest(rows[j]) != Digest(rows[k])
  }

  /** The observations are those of the rows at the positions `at`: in order, all rows that are the
      first with their digest. */
  predicate ObservedAt(rows: seq<Row>, obs: seq<Observation>, at: seq<nat>) {
    && |at| == |obs|
    && (forall j, k :: 0 <= j < k < |at| ==> at[j] < at[k])
    && (forall k :: 0 <= k < |at| ==> at[k] < |rows| && FirstWith(rows, at[k]) && rows[at[k]].observations == [obs[k]])
    && (forall k :: 0 <= k < |rows| && FirstWith(rows, k) ==> k in at)
  }

  lemma FirstWithStays(init: seq<Row>, last: Row, k: nat)
    requires k < |init|
    ensures FirstWith(init + [last], k) == FirstWith(init, k)
  {
    hide Digest;
    var rows := init + [last];
    assert forall j :: 0 <= j <= k ==> rows[j] == init[j];
    if FirstWith(init, k) {
      forall j | 0 <= j < k ensures Digest(rows[j]) != Digest(rows[k]) { assert Digest(init[j]) != Digest(init[k]); }
    }
    if FirstWith(rows, k) {
      forall j | 0 <= j < k ensures Digest(init[j]) != Digest(init[k]) { assert Digest(rows[j]) != Digest(rows[k]); }
    }
  }

  lemma SeenBefore(init: seq<Row>, last: Row, obs: seq<Observation>, at: seq<nat>)
    requires ObservedAt(init, obs, at) && !FirstWith(init + [last], |init|)
    ensures ObservedAt(init + [last], obs, at)
  {
    hide FirstWith;
    forall k: nat | k < |init| ensures FirstWith(init + [last], k) == FirstWith(init, k) { FirstWithStays(init, last, k); }
  }

  lemma NotSeenBefore(init: seq<Row>, last: Row, obs: seq<Observation>, at: seq<nat>, o: Observation)
    requires ObservedAt(init, obs, at) && FirstWith(init + [last], |init|) && last.observations == [o]
    ensures ObservedAt(init + [last], obs + [o], at + [|init|])
  {
    hide FirstWith;
    var rows, next := init + [last], at + [|init|];
    forall k: nat | k < |init| ensures FirstWith(rows, k) == FirstWith(init, k) { FirstWithStays(init, last, k); }
    forall k | 0 <= k < |rows| && FirstWith(rows, k) ensures k in next {
      assert next[|at|] == |init|;
      if k < |init| {
        var i :| 0 <= i < |at| && at[i] == k;
        assert next[i] == k;
      }
    }
  }

  predicate SomeHas(rows: seq<Row>, digest: string) { exists j :: 0 <= j < |rows| && Digest(rows[j]) == digest }

  lemma DigestIsOfSome(rows: seq<Row>, digest: string)
    requires AllParsed(rows)
    ensures digest in AllDigests(rows) <==> SomeHas(rows, digest)
  {
    if digest in AllDigests(rows) {
      var r, o :| r in rows && o in r.observations && o.digest == digest;
      var j :| 0 <= j < |rows| && rows[j] == r;
      assert r.observations == [o];
    }
    if j :| 0 <= j < |rows| && Digest(rows[j]) == digest {
      var r := rows[j];
      assert r in rows && r.observations[0] in r.observations;
    }
  }

  lemma FirstWithIsNew(init: seq<Row>, last: Row)
    requires AllParsed(init + [last])
    ensures FirstWith(init + [last], |init|) <==> Digest(last) !in AllDigests(init)
  {
    var rows := init + [last];
    forall r | r in init ensures Parsed(r) { assert r in rows; }
    hide AllDigests, Digest, Parsed;
    DigestIsOfSome(init, Digest(last));
    assert forall j :: 0 <= j < |init| ==> rows[j] == init[j];
  }

  /** Merging keeps, in order, the first observation with each digest. */
  lemma {:induction false} FirstObservationsStay(rows: seq<Row>) returns (at: seq<nat>)
    requires rows != [] && AllParsed(rows)
    ensures ObservedAt(rows, MergeAll(rows).observations, at)
    decreases |rows|
  {
    var init, last := rows[..|rows| - 1], rows[|rows| - 1];
    assert rows == init + [last] && last in rows;
    var o := last.observations[0];
    assert last.observations == [o] && Digest(last) == o.digest;
    FirstWithIsNew(init, last);
    hide ObservedAt, FirstWith, Digest, NoRepeats, Digests, AllDigests;
    if |rows| == 1 {
      at := [0];
      OneObservation(last);
    } else {
      at := FirstObservationsStay(init);
      MergeKeepsObservations(init);
      MergeOne(MergeAll(init), last, o);
      if FirstWith(rows, |init|) {
        NotSeenBefore(init, last, MergeAll(init).observations, at, o);
        at := at + [|init|];
      } else {
        SeenBefore(init, last, MergeAll(init).observations, at);
      }
    }
  }

  lemma OneObservation(r: Row)
    requires |r.observations| == 1
    ensures ObservedAt([r], r.observations, [0])
  {
    assert [0 as nat][0] == 0;
  }

  lemma MergeSameDigest(prior: Row, row: Row)
    requires |prior.observations| == 1 && |row.observations| == 1 && Digest(prior) == Digest(row)
    ensures Merge(prior, row) == prior
  {
    assert row.observations == [row.observations[0]];
    MergeOne(prior, row, row.observations[0]);
    assert prior.observations[0] in prior.observations;
  }

  lemma MergeMakesHold(prior: Row, row: Row)
    requires |row.observations| == 1
    requires |prior.observations| > 1 || (|prior.observations| == 1 && Digest(prior) != Digest(row))
    ensures var m := Merge(prior, row); m.price == None && m.status != Unverified && |m.observations| > 1
  {
    assert row.observations == [row.observations[0]];
    MergeOne(prior, row, row.observations[0]);
  }

  /** With a single digest the first row stays as it was. With several the price is withdrawn and
      the product is held. */
  lemma {:induction false} PriceAndHold(rows: seq<Row>)
    requires rows != [] && AllParsed(rows)
    ensures SingleDigest(rows) ==> MergeAll(rows) == rows[0]
    ensures !SingleDigest(rows) ==>
      MergeAll(rows).price == None && MergeAll(rows).status != Unverified && |MergeAll(rows).observations| > 1
    decreases |rows|
  {
    if |rows| > 1 {
      var init, last := rows[..|rows| - 1], rows[|rows| - 1];
      assert rows == init + [last] && last in rows && rows[0] in rows;
      PriceAndHold(init);
      OneMoreDigest(init, last);
      if SingleDigest(rows) {
        MergeSameDigest(rows[0], last);
      } else {
        MergeMakesHold(MergeAll(init), last);
      }
    }
  }

  lemma OneMoreDigest(rows: seq<Row>, last: Row)
    requires rows != [] && AllParsed(rows) && AllParsed(rows + [last])
    ensures SingleDigest(rows + [last]) <==> SingleDigest(rows) && Digest(last) == Digest(rows[0])
  {
    var all := rows + [last];
    assert all[0] == rows[0] && all[|rows|] == last;
    if SingleDigest(all) {
      forall j, k | 0 <= j < |rows| && 0 <= k < |rows| ensures Digest(rows[j]) == Digest(rows[k]) {
        assert all[j] == rows[j] && all[k] == rows[k];
      }
    }
  }

  /** Of what the first row said of a product with several digests only its SKU, its name and its
      category are kept. */
  lemma {:induction false} HeldRowIsBare(rows: seq<Row>)
    requires rows != [] && AllParsed(rows)
    ensures MergeAll(rows).sku == rows[0].sku && MergeAll(rows).name == rows[0].name
    ensures MergeAll(rows).category == rows[0].category
    ensures !SingleDigest(rows) ==> MergeAll(rows).details == ""
    decreases |rows|
  {
    if |rows| > 1 {
      var init, last := rows[..|rows| - 1], rows[|rows| - 1];
      assert rows == init + [last] && last in rows && rows[0] in rows;
      HeldRowIsBare(init);
      PriceAndHold(init);
      OneMoreDigest(init, last);
      MergeKeepsCategory(MergeAll(init), last);
    }
  }

  lemma MergeKeepsCategory(prior: Row, row: Row)
    requires |row.observations| == 1
    ensures var m := Merge(prior, row);
      && m.sku == prior.sku && m.name == prior.name && m.category == prior.category
      && (|prior.observations| > 1 || (|prior.observations| == 1 && Digest(prior) != Digest(row)) ==> m.details == "")
  {
    assert row.observations == [row.observations[0]];
    MergeOne(prior, row, row.observations[0]);
  }

  // ----- order of the rows

  /** The digest stands for the text, and price and first status are read off the text. */
  ghost predicate DigestDecides(rows: seq<Row>) {
    forall r, s :: r in rows && s in rows && Digest(r) == Digest(s) ==> r.price == s.price && r.status == s.status
  }

  /** Reordering the rows of a product changes neither its digests, nor its price, nor whether it
      is held. */
  lemma OrderDoesNotMatter(rows: seq<Row>, shuffled: seq<Row>)
    requires rows != [] && AllParsed(rows) && DigestDecides(rows) && multiset(rows) == multiset(shuffled)
    ensures shuffled != [] && AllParsed(shuffled)
    ensures Digests(MergeAll(rows).observations) == Digests(MergeAll(shuffled).observations)
    ensures MergeAll(rows).price == MergeAll(shuffled).price
    ensures MergeAll(rows).status == Unverified <==> MergeAll(shuffled).status == Unverified
  {
    assert |multiset(rows)| == |rows| && |multiset(shuffled)| == |shuffled|;
    forall r ensures r in rows <==> r in shuffled {
      assert r in rows <==> r in multiset(rows);
      assert r in shuffled <==> r in multiset(shuffled);
    }
    MergeKeepsObservations(rows);
    MergeKeepsObservations(shuffled);
    assert AllDigests(rows) == AllDigests(shuffled);
    PriceAndHold(rows);
    PriceAndHold(shuffled);
    assert rows[0] in rows && shuffled[0] in shuffled;
    assert SingleDigest(rows) <==> SingleDigest(shuffled) by {
      SingleDigestBySet(rows);
      SingleDigestBySet(shuffled);
    }
    if SingleDigest(rows) {
      SingleDigestBySet(rows);
      assert Digest(rows[0]) == Digest(shuffled[0]);
    }
  }

  lemma SingleDigestBySet(rows: seq<Row>)
    requires AllParsed(rows)
    ensures SingleDigest(rows) <==> forall r, s :: r in rows && s in rows ==> Digest(r) == Digest(s)
  {
    if SingleDigest(rows) {
      forall r, s | r in rows && s in rows ensures Digest(r) == Digest(s) {
        var j :| 0 <= j < |rows| && rows[j] == r;
        var k :| 0 <= k < |rows| && rows[k] == s;
      }
    }
  }

  lemma {:induction false} CountOfRows(rows: seq<Row>, sku: string, r: Row)
    ensures multiset(RowsOf(rows, sku))[r] == if r.sku == sku then multiset(rows)[r] else 0
    decreases |rows|
  {
    if rows != [] {
      var init, last := rows[..|rows| - 1], rows[|rows| - 1];
      CountOfRows(init, sku, r);
      assert rows == init + [last];
      assert multiset(rows) == multiset(init) + multiset{last};
      var own := if last.sku == sku then [last] else [];
      assert multiset(RowsOf(init, sku) + own) == multiset(RowsOf(init, sku)) + multiset(own);
    }
  }

  /** For whole files: the same rows in another order give the same products, with the same digests,
      the same prices, and the same products held. */
  lemma FileOrderDoesNotMatter(rows: seq<Row>, shuffled: seq<Row>, sku: string)
    requires AllParsed(rows) && DigestDecides(rows) && multiset(rows) == multiset(shuffled)
    ensures sku in FirstSeen(rows) <==> sku in FirstSeen(shuffled)
    ensures var own, other := RowsOf(rows, sku), RowsOf(shuffled, sku);
      own != [] && other != [] ==>
        && Digests(MergeAll(own).observations) == Digests(MergeAll(other).observations)
        && MergeAll(own).price == MergeAll(other).price
        && (MergeAll(own).status == Unverified <==> MergeAll(other).status == Unverified)
  {
    var own, other := RowsOf(rows, sku), RowsOf(shuffled, sku);
    forall r ensures multiset(own)[r] == multiset(other)[r] {
      CountOfRows(rows, sku, r);
      CountOfRows(shuffled, sku, r);
    }
    assert multiset(own) == multiset(other);
    assert |multiset(own)| == |own| && |multiset(other)| == |other|;
    FirstSeenMembers(rows);
    FirstSeenMembers(shuffled);
    if own != [] {
      OrderDoesNotMatter(own, other);
    }
  }

  // ----- which hold

  /** Where the second digest of a product first appears. */
  ghost predicate Departs(rows: seq<Row>, k: nat) {
    0 < k < |rows| && Digest(rows[k]) != Digest(rows[0]) && forall j :: 0 <= j < k ==> Digest(rows[j]) == Digest(rows[0])
  }

  predicate Quiet(r: Row) { r.price == None && r.status != HeldPriceConflict }

  /** The two records that first differ agree on the price, neither says the price is in conflict,
      and no later record quotes a price or says so. */
  ghost predicate Agreeable(rows: seq<Row>, k: nat)
    requires k < |rows|
  {
    && rows[0].price == rows[k].price && rows[0].status != HeldPriceConflict && rows[k].status != HeldPriceConflict
    && forall j :: k < j < |rows| ==> Quiet(rows[j])
  }

  lemma MergeLabel(prior: Row, row: Row)
    requires |row.observations| == 1
    requires |prior.observations| > 1 || (|prior.observations| == 1 && Digest(prior) != Digest(row))
    ensures Merge(prior, row).status == HeldIdentityReview <==>
      prior.price == row.price && prior.status != HeldPriceConflict && row.status != HeldPriceConflict
  {
    assert row.observations == [row.observations[0]];
    MergeOne(prior, row, row.observations[0]);
  }

  /** The record that brings the second digest. */
  lemma LabelAtDeparture(init: seq<Row>, last: Row)
    requires init != [] && AllParsed(init + [last]) && Departs(init + [last], |init|)
    ensures MergeAll(init + [last]).status == HeldIdentityReview <==> Agreeable(init + [last], |init|)
  {
    var rows := init + [last];
    assert last in rows && rows[0] in rows && rows[0] == init[0] && rows[|init|] == last;
    MergeAllAppend(init, last);
    assert AllParsed(init) by {
      forall r | r in init ensures Parsed(r) { assert r in rows; }
    }
    assert SingleDigest(init) by {
      forall j | 0 <= j < |init| ensures Digest(init[j]) == Digest(init[0]) { assert rows[j] == init[j]; }
    }
    PriceAndHold(init);
    MergeLabel(init[0], last);
  }

  lemma AgreeableAppend(init: seq<Row>, last: Row, k: nat)
    requires k < |init|
    ensures Agreeable(init + [last], k) <==> Agreeable(init, k) && Quiet(last)
  {
    var rows := init + [last];
    assert rows[|init|] == last && forall j :: 0 <= j < |init| ==> rows[j] == init[j];
  }

  /** A product with several digests is held for identity review, rather than for a price conflict,
      exactly when its records are agreeable. A third record compares its price with one that has
      been withdrawn, so it must not quote any. */
  lemma {:induction false} LabelExactly(rows: seq<Row>, k: nat)
    requires rows != [] && AllParsed(rows) && Departs(rows, k)
    ensures MergeAll(rows).status == HeldIdentityReview <==> Agreeable(rows, k)
    decreases |rows|
  {
    var init, last := rows[..|rows| - 1], rows[|rows| - 1];
    assert rows == init + [last] && last in rows;
    if k == |rows| - 1 {
      LabelAtDeparture(init, last);
    } else {
      hide Agreeable, Quiet, Merge;
      assert Departs(init, k) && init[0] == rows[0] && init[k] == rows[k];
      assert !SingleDigest(init);
      PriceAndHold(init);
      LabelExactly(init, k);
      LaterLabel(MergeAll(init), last);
      MergeAllAppend(init, last);
      AgreeableAppend(init, last, k);
    }
  }

  /** A further record of a held product. */
  lemma LaterLabel(prior: Row, row: Row)
    requires |row.observations| == 1
    requires |prior.observations| > 1 && prior.price == None
    ensures Merge(prior, row).status == HeldIdentityReview <==> prior.status != HeldPriceConflict && Quiet(row)
  {
    MergeLabel(prior, row);
  }

  function Sample(digest: string): Row {
    Row("LAP-1", "laptop", Some(100), "laptop", "", Unverified, [Observation(digest, digest, Some(100))])
  }

  lemma RepeatThenNew(rows: seq<Row>)
    requires rows == [Sample("a"), Sample("a"), Sample("b")]
    ensures MergeAll(rows).status == HeldIdentityReview
  {
    assert Departs(rows, 2) && Agreeable(rows, 2);
    LabelExactly(rows, 2);
  }

  lemma NewThenRepeat(rows: seq<Row>)
    requires rows == [Sample("a"), Sample("b"), Sample("a")]
    ensures MergeAll(rows).status == HeldPriceConflict
  {
    assert Departs(rows, 1) && !Quiet(rows[2]);
    LabelExactly(rows, 1);
    assert Digest(rows[0]) != Digest(rows[1]) && !SingleDigest(rows);
    PriceAndHold(rows);
  }

  /** The label does depend on the order: the same three records, all quoting the same price. */
  lemma LabelDependsOnOrder(late: seq<Row>, early: seq<Row>)
    requires late == [Sample("a"), Sample("a"), Sample("b")] && early == [Sample("a"), Sample("b"), Sample("a")]
    ensures multiset(late) == multiset(early)
    ensures MergeAll(late).status == HeldIdentityReview && MergeAll(early).status == HeldPriceConflict
  {
    RepeatThenNew(late);
    NewThenRepeat(early);
  }

  // ----- when the label is the same in every order

  ghost predicate Shuffle(rows: seq<Row>, shuffled: seq<Row>) { shuffled != [] && multiset(shuffled) == multiset(rows) }

  predicate NoConflict(rows: seq<Row>) { forall r :: r in rows ==> r.status != HeldPriceConflict }

  predicate Unpriced(rows: seq<Row>) { forall r :: r in rows ==> r.price == None }

  predicate PricedBeside(r: Row, s: Row) { s.price.Some? && s != r }

  /** The rows that quote a price all quote the same one and have exactly two digests, and `r` is
      the only row with one of the two. */
  ghost predicate OddOneOut(rows: seq<Row>, r: Row) {
    && r in rows && r.price.Some? && multiset(rows)[r] == 1
    && (exists s :: s in rows && PricedBeside(r, s))
    && (forall s :: s in rows && PricedBeside(r, s) ==> s.price == r.price && Digest(s) != Digest(r))
    && (forall s, t :: s in rows && t in rows && PricedBeside(r, s) && PricedBeside(r, t) ==> Digest(s) == Digest(t))
  }

  /** Both labels are possible. */
  ghost predicate Unsettled(rows: seq<Row>) {
    |rows| >= 3 && NoConflict(rows) && exists r :: OddOneOut(rows, r)
  }

  lemma ShuffleKeeps(rows: seq<Row>, shuffled: seq<Row>)
    requires Shuffle(rows, shuffled)
    ensures |shuffled| == |rows| && forall r :: r in rows <==> r in shuffled
  {
    assert |multiset(rows)| == |rows| && |multiset(shuffled)| == |shuffled|;
    forall r ensures r in rows <==> r in shuffled {
      assert r in rows <==> r in multiset(rows);
      assert r in shuffled <==> r in multiset(shuffled);
    }
  }

  lemma SameRowsSameOddOneOut(rows: seq<Row>, shuffled: seq<Row>, r: Row)
    requires multiset(rows) == multiset(shuffled) && forall s :: s in rows <==> s in shuffled
    ensures OddOneOut(rows, r) ==> OddOneOut(shuffled, r)
  {
    hide PricedBeside, Digest;
  }

  /** All the conditions on the rows of a product are about the rows, not about their order. */
  lemma ShuffleKeepsConditions(rows: seq<Row>, shuffled: seq<Row>)
    requires AllParsed(rows) && Shuffle(rows, shuffled)
    ensures AllParsed(shuffled) && (DigestDecides(rows) ==> DigestDecides(shuffled))
    ensures SingleDigest(shuffled) <==> SingleDigest(rows)
    ensures NoConflict(shuffled) <==> NoConflict(rows)
    ensures Unpriced(shuffled) <==> Unpriced(rows)
    ensures forall r :: OddOneOut(shuffled, r) <==> OddOneOut(rows, r)
  {
    hide OddOneOut, Digest, Parsed;
    ShuffleKeeps(rows, shuffled);
    assert SingleDigest(shuffled) <==> SingleDigest(rows) by {
      SingleDigestBySet(rows);
      SingleDigestBySet(shuffled);
    }
    forall r ensures OddOneOut(shuffled, r) <==> OddOneOut(rows, r) {
      SameRowsSameOddOneOut(rows, shuffled, r);
      SameRowsSameOddOneOut(shuffled, rows, r);
    }
  }

  lemma {:induction false} SomewhereDeparts(rows: seq<Row>) returns (k: nat)
    requires AllParsed(rows) && !SingleDigest(rows)
    ensures Departs(rows, k)
  {
    var i, j :| 0 <= i < |rows| && 0 <= j < |rows| && Digest(rows[i]) != Digest(rows[j]);
    k := 0;
    while k < |rows| && Digest(rows[k]) == Digest(rows[0])
      invariant k <= |rows| && forall l :: 0 <= l < k ==> Digest(rows[l]) == Digest(rows[0])
    {
      k := k + 1;
    }
  }

  lemma OnlyPlace(rows: seq<Row>, k: nat)
    requires k < |rows| && forall j :: 0 <= j < |rows| && j != k ==> rows[j] != rows[k]
    ensures multiset(rows)[rows[k]] == 1
  {
    assert rows == rows[..k] + ([rows[k]] + rows[k + 1..]);
    assert rows[k] !in rows[..k] && rows[k] !in rows[k + 1..];
  }

  /** An order that ends in identity review has a row that is the odd one out, or no prices. */
  lemma ReviewNeeds(rows: seq<Row>, k: nat)
    requires AllParsed(rows) && DigestDecides(rows) && Departs(rows, k) && Agreeable(rows, k)
    ensures NoConflict(rows) && (Unpriced(rows) || OddOneOut(rows, rows[k]))
  {
    var p := rows[0].price;
    forall j | 0 <= j < |rows|
      ensures rows[j].status != HeldPriceConflict && rows[j].price == (if j <= k then p else None)
    {
      assert rows[j] in rows && rows[0] in rows;
      if j > k { assert Quiet(rows[j]); }
    }
    if p.Some? {
      forall j | 0 <= j < |rows| && j != k ensures rows[j] != rows[k] {}
      OnlyPlace(rows, k);
      assert rows[0] in rows && PricedBeside(rows[k], rows[0]);
    }
  }

  /** Without prices and conflicts every order ends in identity review; so does every order of two
      rows of which one is the odd one out. */
  lemma ReviewEnough(rows: seq<Row>, k: nat)
    requires AllParsed(rows) && Departs(rows, k) && NoConflict(rows)
    requires Unpriced(rows) || (|rows| == 2 && exists r :: OddOneOut(rows, r))
    ensures Agreeable(rows, k)
  {
    hide Digest, Parsed;
    assert forall j :: 0 <= j < |rows| ==> rows[j] in rows;
    if !Unpriced(rows) {
      var r :| OddOneOut(rows, r);
      assert rows == [rows[0], rows[1]];
    }
  }

  // ----- two orders with two labels

  /** The rows with a price other than `r`, and the rows without one. */
  function PricedOthers(rows: seq<Row>, r: Row): seq<Row> {
    if rows == [] then [] else (if PricedBeside(r, rows[0]) then [rows[0]] else []) + PricedOthers(rows[1..], r)
  }

  function WithoutPrice(rows: seq<Row>): seq<Row> {
    if rows == [] then [] else (if rows[0].price.None? then [rows[0]] else []) + WithoutPrice(rows[1..])
  }

  lemma {:induction false} PartsOf(rows: seq<Row>, r: Row)
    ensures forall s :: s in PricedOthers(rows, r) <==> s in rows && PricedBeside(r, s)
    ensures forall s :: s in WithoutPrice(rows) <==> s in rows && s.price.None?
    ensures forall s :: s != r ==> multiset(rows)[s] == multiset(PricedOthers(rows, r) + WithoutPrice(rows))[s]
  {
    if rows != [] {
      PartsOf(rows[1..], r);
      assert rows == [rows[0]] + rows[1..];
    }
  }

  lemma CountWith(a: seq<Row>, r: Row, b: seq<Row>, s: Row)
    ensures multiset(a + [r] + b)[s] == multiset(a + b)[s] + (if s == r then 1 else 0)
  {
  }

  lemma SameParts(rows: seq<Row>, a: seq<Row>, r: Row, b: seq<Row>)
    requires multiset(rows)[r] == 1 && r !in a + b
    requires forall s :: s != r ==> multiset(rows)[s] == multiset(a + b)[s]
    ensures multiset(a + [r] + b) == multiset(rows)
  {
    forall s ensures multiset(a + [r] + b)[s] == multiset(rows)[s] {
      CountWith(a, r, b, s);
    }
  }

  /** The odd one out, put after the other priced rows and before the rest. */
  lemma PartsShuffle(rows: seq<Row>, r: Row)
    requires OddOneOut(rows, r)
    ensures Shuffle(rows, PricedOthers(rows, r) + [r] + WithoutPrice(rows))
    ensures PricedOthers(rows, r) != []
  {
    hide PricedOthers, WithoutPrice, Digest;
    PartsOf(rows, r);
    var a, b := PricedOthers(rows, r), WithoutPrice(rows);
    var s :| s in rows && PricedBeside(r, s);
    assert s in a;
    assert r !in a && r !in b;
    SameParts(rows, a, r, b);
  }

  /** An order that starts with `x`, a row that is not odd, and then the odd one out, ends in a
      price conflict unless these are all the rows. */
  lemma ConflictFirst(rows: seq<Row>, r: Row, x: Row, rest: seq<Row>)
    requires AllParsed(rows) && DigestDecides(rows) && OddOneOut(rows, r) && Shuffle(rows, [x, r] + rest)
    requires x != r && (x.price == None || (exists s :: s in rest && PricedBeside(r, s)))
    ensures Departs([x, r] + rest, 1) && !Agreeable([x, r] + rest, 1)
  {
    hide Digest, Parsed;
    var order := [x, r] + rest;
    ShuffleKeeps(rows, order);
    assert order[0] == x && order[1] == r;
    assert x in rows && r in rows;
    assert Digest(x) != Digest(r) by {
      if x.price.Some? { assert PricedBeside(r, x); }
    }
    if x.price != None {
      var s :| s in rest && PricedBeside(r, s);
      var j :| 0 <= j < |rest| && rest[j] == s;
      assert order[j + 2] == s && !Quiet(order[j + 2]);
    }
  }

  /** An unsettled product: one order of each kind. */
  lemma BothLabels(rows: seq<Row>) returns (review: seq<Row>, conflict: seq<Row>)
    requires AllParsed(rows) && DigestDecides(rows) && Unsettled(rows)
    ensures Shuffle(rows, review) && MergeAll(review).status == HeldIdentityReview
    ensures Shuffle(rows, conflict) && MergeAll(conflict).status == HeldPriceConflict
  {
    var r :| OddOneOut(rows, r);
    PartsOf(rows, r);
    PartsShuffle(rows, r);
    var a, b := PricedOthers(rows, r), WithoutPrice(rows);
    review := a + [r] + b;
    OddOrder(rows, r, a, b);
    conflict := ConflictingOrder(rows, r, a, b);
  }

  lemma OddAt(order: seq<Row>, r: Row, k: nat)
    requires NoConflict(order) && OddOneOut(order, r) && 0 < k < |order| && order[k] == r
    requires forall j :: 0 <= j < k ==> PricedBeside(r, order[j])
    requires forall j :: k < j < |order| ==> order[j].price.None?
    ensures Departs(order, k) && Agreeable(order, k)
  {
    assert forall j :: 0 <= j < |order| ==> order[j] in order;
  }

  lemma Places(a: seq<Row>, r: Row, b: seq<Row>)
    ensures (a + [r] + b)[|a|] == r
    ensures forall j :: 0 <= j < |a| ==> (a + [r] + b)[j] in a
    ensures forall j :: |a| < j < |a + [r] + b| ==> (a + [r] + b)[j] in b
  {
  }

  lemma OddOrder(rows: seq<Row>, r: Row, a: seq<Row>, b: seq<Row>)
    requires AllParsed(rows) && NoConflict(rows) && OddOneOut(rows, r)
    requires Shuffle(rows, a + [r] + b) && a != []
    requires (forall s :: s in a ==> PricedBeside(r, s)) && forall s :: s in b ==> s.price.None?
    ensures MergeAll(a + [r] + b).status == HeldIdentityReview
  {
    hide OddOneOut, PricedBeside, NoConflict, Parsed;
    ShuffleKeepsConditions(rows, a + [r] + b);
    Places(a, r, b);
    OddAt(a + [r] + b, r, |a|);
    LabelExactly(a + [r] + b, |a|);
  }

  /** The row to start with, and what follows the odd one out. */
  function Opening(a: seq<Row>, b: seq<Row>): Row
    requires a != []
  {
    if b != [] then b[0] else a[0]
  }

  function Remainder(a: seq<Row>, b: seq<Row>): seq<Row>
    requires a != []
  {
    if b != [] then a + b[1..] else a[1..]
  }

  lemma SplitFirst(s: seq<Row>)
    requires s != []
    ensures multiset(s) == multiset{s[0]} + multiset(s[1..])
  {
    assert s == [s[0]] + s[1..];
  }

  lemma OpeningShuffle(a: seq<Row>, r: Row, b: seq<Row>)
    requires a != []
    ensures multiset([Opening(a, b), r] + Remainder(a, b)) == multiset(a + [r] + b)
  {
    if b != [] {
      SplitFirst(b);
    } else {
      SplitFirst(a);
    }
  }

  lemma ConflictingOrder(rows: seq<Row>, r: Row, a: seq<Row>, b: seq<Row>) returns (order: seq<Row>)
    requires AllParsed(rows) && DigestDecides(rows) && OddOneOut(rows, r) && |rows| >= 3
    requires Shuffle(rows, a + [r] + b) && a != []
    requires (forall s :: s in a ==> PricedBeside(r, s)) && forall s :: s in b ==> s.price.None?
    ensures Shuffle(rows, order) && MergeAll(order).status == HeldPriceConflict
  {
    hide OddOneOut, DigestDecides, Parsed, Agreeable, MergeAll;
    ShuffleKeeps(rows, a + [r] + b);
    var x, rest := Opening(a, b), Remainder(a, b);
    order := [x, r] + rest;
    OpeningShuffle(a, r, b);
    OpeningIsNotOdd(rows, r, a, b);
    ConflictFirst(rows, r, x, rest);
    ShuffleKeepsConditions(rows, order);
    LabelExactly(order, 1);
    assert Digest(order[0]) != Digest(order[1]);
    PriceAndHold(order);
  }

  lemma OpeningIsNotOdd(rows: seq<Row>, r: Row, a: seq<Row>, b: seq<Row>)
    requires OddOneOut(rows, r) && |a + [r] + b| >= 3 && a != []
    requires (forall s :: s in a ==> PricedBeside(r, s)) && forall s :: s in b ==> s.price.None?
    ensures Opening(a, b) != r
    ensures Opening(a, b).price == None || exists s :: s in Remainder(a, b) && PricedBeside(r, s)
  {
    hide Digest;
    if b != [] {
      assert b[0] in b;
    } else {
      assert a[0] in a && a[1] in a && a[1..][0] == a[1];
      assert a[1] in Remainder(a, b) && PricedBeside(r, a[1]);
    }
  }

  /** A product that is not unsettled: all orders get the label of this one. */
  lemma OneLabel(rows: seq<Row>, shuffled: seq<Row>)
    requires AllParsed(rows) && DigestDecides(rows) && !SingleDigest(rows) && !Unsettled(rows) && Shuffle(rows, shuffled)
    ensures MergeAll(shuffled).status ==
      if NoConflict(rows) && (Unpriced(rows) || exists r :: OddOneOut(rows, r)) then HeldIdentityReview else HeldPriceConflict
  {
    hide OddOneOut, Agreeable, Parsed, DigestDecides, MergeAll, SingleDigest, Unpriced, NoConflict;
    ShuffleKeepsConditions(rows, shuffled);
    ShuffleKeeps(rows, shuffled);
    var k := SomewhereDeparts(shuffled);
    LabelExactly(shuffled, k);
    PriceAndHold(shuffled);
    if Agreeable(shuffled, k) {
      ReviewNeeds(shuffled, k);
    } else if NoConflict(rows) && (Unpriced(rows) || exists r :: OddOneOut(rows, r)) {
      ReviewEnough(shuffled, k);
    }
  }

  /** The label of a product with several digests is the same in every order of its records exactly
      when the product is settled: fewer than three records, or one that says the price is in
      conflict, or prices of which none is the odd one out. */
  lemma LabelIgnoresOrderExactlyWhen(rows: seq<Row>)
    requires AllParsed(rows) && DigestDecides(rows) && !SingleDigest(rows)
    ensures (forall s, t :: Shuffle(rows, s) && Shuffle(rows, t) ==> MergeAll(s).status == MergeAll(t).status)
      <==> !Unsettled(rows)
  {
    if Unsettled(rows) {
      var review, conflict := BothLabels(rows);
      assert MergeAll(review).status != MergeAll(conflict).status;
    } else {
      forall s, t | Shuffle(rows, s) && Shuffle(rows, t) ensures MergeAll(s).status == MergeAll(t).status {
        OneLabel(rows, s);
        OneLabel(rows, t);
      }
    }
  }
}
