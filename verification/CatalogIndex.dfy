/** Full indexing of scripts/index_catalog.py: the product table is read page by page and embedded
    batch by batch. */
module CatalogIndex {
  /** A product as the fetcher yields it, and an embedding to be written. */
  datatype Doc = Doc(productId: string, text: string)
  datatype Item = Item(productId: string, embedding: int)

  /** Trimming of strings, and the embedding of a text. */
  datatype Pipeline = Pipeline(strip: string -> string, embed: string -> int)

  /** The items of some products: those without an id or a text are left out. */
  function Items(p: Pipeline, docs: seq<Doc>): seq<Item>
    decreases |docs|
  {
    if docs == [] then []
    else
      var last := docs[|docs| - 1];
      var id, text := p.strip(last.productId), p.strip(last.text);
      Items(p, docs[..|docs| - 1]) + (if id == "" || text == "" then [] else [Item(id, p.embed(text))])
  }

  predicate Indexable(p: Pipeline, d: Doc) { p.strip(d.productId) != "" && p.strip(d.text) != "" }

  /** The items are those of the products at the positions `at`: in order, all that have an id and a
      text left after trimming, each with the embedding of its own text. */
  predicate ItemsOf(p: Pipeline, docs: seq<Doc>, items: seq<Item>, at: seq<nat>) {
    && |at| == |items|
    && (forall j, k :: 0 <= j < k < |at| ==> at[j] < at[k])
    && (forall k :: 0 <= k < |at| ==>
          && at[k] < |docs| && Indexable(p, docs[at[k]])
          && items[k].productId == p.strip(docs[at[k]].productId) && items[k].embedding == p.embed(p.strip(docs[at[k]].text)))
    && (forall k :: 0 <= k < |docs| && Indexable(p, docs[k]) ==> k in at)
  }

  lemma SkippedDoc(p: Pipeline, init: seq<Doc>, last: Doc, items: seq<Item>, at: seq<nat>)
    requires ItemsOf(p, init, items, at) && !Indexable(p, last)
    ensures ItemsOf(p, init + [last], items, at)
  {
    hide Indexable;
  }

  lemma IndexedDoc(p: Pipeline, init: seq<Doc>, last: Doc, items: seq<Item>, at: seq<nat>, item: Item)
    requires ItemsOf(p, init, items, at) && Indexable(p, last)
    requires item == Item(p.strip(last.productId), p.embed(p.strip(last.text)))
    ensures ItemsOf(p, init + [last], items + [item], at + [|init|])
  {
    hide Indexable;
    var docs, next := init + [last], at + [|init|];
    forall k | 0 <= k < |docs| && Indexable(p, docs[k]) ensures k in next {
      if k < |init| {
        assert docs[k] == init[k] && k in at;
      } else {
        assert next[|at|] == k;
      }
    }
  }

  lemma {:induction false} ItemsSpelledOut(p: Pipeline, docs: seq<Doc>) returns (at: seq<nat>)
    ensures ItemsOf(p, docs, Items(p, docs), at)
    decreases |docs|
  {
    at := [];
    if docs != [] {
      var init, last := docs[..|docs| - 1], docs[|docs| - 1];
      at := ItemsSpelledOut(p, init);
      hide ItemsOf;
      assert init + [last] == docs;
      if Indexable(p, last) {
        IndexedDoc(p, init, last, Items(p, init), at, Item(p.strip(last.productId), p.embed(p.strip(last.text))));
        at := at + [|init|];
      } else {
        SkippedDoc(p, init, last, Items(p, init), at);
        assert Items(p, init) + [] == Items(p, init);
      }
    }
  }

  lemma {:induction false} ItemsAppend(p: Pipeline, a: seq<Doc>, b: seq<Doc>)
    ensures Items(p, a + b) == Items(p, a) + Items(p, b)
    decreases |b|
  {
    if b == [] {
      assert a + b == a;
    } else {
      assert (a + b)[..|a + b| - 1] == a + b[..|b| - 1];
      ItemsAppend(p, a, b[..|b| - 1]);
    }
  }

  lemma {:induction false} ItemsAtMost(p: Pipeline, docs: seq<Doc>)
    ensures |Items(p, docs)| <= |docs|
    decreases |docs|
  {
    if docs != [] { ItemsAtMost(p, docs[..|docs| - 1]); }
  }

  function Least(a: nat, b: nat): nat { if a <= b then a else b }

  /** `ORDER BY sku LIMIT limit OFFSET offset` over a table that does not change. */
  function Page(table: seq<Doc>, offset: nat, limit: nat): seq<Doc> {
    table[Least(offset, |table|)..Least(offset + limit, |table|)]
  }

  /** The batches that should be written: the table cut into pieces of `size`, in order. */
  function Batches(p: Pipeline, table: seq<Doc>, size: nat): seq<seq<Item>>
    decreases |table|
  {
    if table == [] || size == 0 then []
    else [Items(p, table[..Least(size, |table|)])] + Batches(p, table[Least(size, |table|)..], size)
  }

  /** The loop that embeds one batch. */
  method EmbedBatch(p: Pipeline, batch: seq<Doc>) returns (items: seq<Item>)
    ensures items == Items(p, batch)
  {
    items := [];
    for i := 0 to |batch|
      invariant items == Items(p, batch[..i])
    {
      assert batch[..i + 1][..i] == batch[..i];
      var text, id := p.strip(batch[i].text), p.strip(batch[i].productId);
      if id == "" || text == "" {
        continue;
      }
      items := items + [Item(id, p.embed(text))];
    }
    assert batch[..|batch|] == batch;
  }

  /** The rows of one page go through the batch, which is empty at the start of every page: a full
      page is written, a short one waits for the end. */
  method ConsumePage(p: Pipeline, rows: seq<Doc>, batchSize: nat, written: seq<seq<Item>>)
    returns (upserts: seq<seq<Item>>, batch: seq<Doc>)
    requires 0 < |rows| <= batchSize
    ensures |rows| == batchSize ==> batch == [] && upserts == written + [Items(p, rows)]
    ensures |rows| < batchSize ==> batch == rows && upserts == written
  {
    upserts, batch := written, [];
    for i := 0 to |rows|
      invariant if i == batchSize then batch == [] && upserts == written + [Items(p, rows)]
                else batch == rows[..i] && upserts == written
    {
      batch := batch + [rows[i]];
      assert batch == rows[..i + 1];
      if |batch| >= batchSize {
        assert rows[..i + 1] == rows;
        var items := EmbedBatch(p, batch);
        upserts := upserts + [items];
        batch := [];
      }
    }
    assert rows[..|rows|] == rows;
  }

  /** `n` is a whole number of pieces. */
  predicate Whole(n: nat, size: nat) { n == 0 || (n >= size > 0 && Whole(n - size, size)) }

  /** Cutting after a whole number of full pieces does not disturb the pieces. */
  lemma {:induction false} BatchesSplit(p: Pipeline, a: seq<Doc>, b: seq<Doc>, size: nat)
    requires Whole(|a|, size)
    ensures Batches(p, a + b, size) == Batches(p, a, size) + Batches(p, b, size)
    decreases |a|
  {
    if a == [] {
      assert a + b == b;
    } else {
      assert (a + b)[..size] == a[..size] && (a + b)[size..] == a[size..] + b;
      BatchesSplit(p, a[size..], b, size);
    }
  }

  lemma OneBatch(p: Pipeline, rows: seq<Doc>, size: nat)
    requires 0 < |rows| <= size
    ensures Batches(p, rows, size) == [Items(p, rows)]
  {
    assert rows[..|rows|] == rows && rows[|rows|..] == [];
    assert Batches(p, rows[|rows|..], size) == [];
  }

  /** A page follows what has been read, and only the last one is short. */
  lemma PageShape(table: seq<Doc>, offset: nat, size: nat)
    requires offset <= |table|
    ensures var rows := Page(table, offset, size);
      && |rows| <= size && offset + |rows| <= |table|
      && (|rows| < size ==> offset + |rows| == |table|) && (size == 0 ==> rows == [])
      && table[..offset + |rows|] == table[..offset] + rows
  {
  }

  /** Reading one more page after some full ones adds one batch to what should be written. */
  lemma NextPage(p: Pipeline, front: seq<Doc>, rows: seq<Doc>, size: nat)
    requires 0 < |rows| <= size && Whole(|front|, size)
    ensures Batches(p, front + rows, size) == Batches(p, front, size) + [Items(p, rows)]
  {
    BatchesSplit(p, front, rows, size);
    OneBatch(p, rows, size);
  }

  /** What has been written, with what still waits in the batch, is the first `read` rows. */
  ghost predicate Covers(p: Pipeline, upserts: seq<seq<Item>>, batch: seq<Doc>, table: seq<Doc>, read: nat, size: nat)
  {
    && read <= |table|
    && upserts + (if batch == [] then [] else [Items(p, batch)]) == Batches(p, table[..read], size)
  }

  /** Writing a page, or leaving it in the batch, covers its rows too. */
  lemma PageCovered(p: Pipeline, written: seq<seq<Item>>, table: seq<Doc>, offset: nat, rows: seq<Doc>, size: nat)
    requires Covers(p, written, [], table, offset, size)
    requires rows != [] && offset + |rows| <= |table|
    requires Batches(p, table[..offset + |rows|], size) == Batches(p, table[..offset], size) + [Items(p, rows)]
    ensures Covers(p, written, rows, table, offset + |rows|, size)
    ensures Covers(p, written + [Items(p, rows)], [], table, offset + |rows|, size)
  {
    assert written + [] == written;
  }

  /** One turn of the fetcher's loop, with the consumer run on the rows of the page. A page whose
      query fails ends the reading, and so do an empty one and a short one. */
  method Turn(p: Pipeline, table: seq<Doc>, batchSize: nat, fails: nat -> bool, offset: nat,
              written: seq<seq<Item>>)
    returns (upserts: seq<seq<Item>>, batch: seq<Doc>, read: nat, more: bool)
    requires Whole(offset, batchSize)
    requires Covers(p, written, [], table, offset, batchSize)
    ensures Covers(p, upserts, batch, table, read, batchSize)
    ensures more ==> batch == [] && offset < read && Whole(read, batchSize)
    ensures !more && read < |table| ==> fails(read) || batchSize == 0
  {
    hide Batches, Items;
    upserts, batch, read, more := written, [], offset, false;
    if fails(offset) {
      return;
    }
    var rows := Page(table, offset, batchSize);
    PageShape(table, offset, batchSize);
    if rows == [] {
      return;
    }
    NextPage(p, table[..offset], rows, batchSize);
    PageCovered(p, written, table, offset, rows, batchSize);
    upserts, batch := ConsumePage(p, rows, batchSize, written);
    read := offset + |rows|;
    more := |rows| == batchSize;
  }

  /** `run_index` for the catalogue: `upserts` is what was handed to the upsert, call by call, and
      `read` how many rows had been fetched. */
  method RunIndex(p: Pipeline, table: seq<Doc>, batchSize: nat, fails: nat -> bool)
    returns (upserts: seq<seq<Item>>, read: nat)
    ensures read <= |table| && upserts == Batches(p, table[..read], batchSize)
    ensures read < |table| ==> fails(read) || batchSize == 0
  {
    upserts, read := [], 0;
    var batch: seq<Doc> := [];
    var more := true;
    while more
      invariant Covers(p, upserts, batch, table, read, batchSize)
      invariant more ==> batch == [] && Whole(read, batchSize)
      invariant !more && read < |table| ==> fails(read) || batchSize == 0
      decreases more, |table| - read
    {
      upserts, batch, read, more := Turn(p, table, batchSize, fails, read, upserts);
    }
    if batch != [] {
      var items := EmbedBatch(p, batch);
      upserts := upserts + [items];
    }
  }

  /** Nothing is lost or repeated at a boundary: put together, the batches are exactly the items of
      the whole table in order, and none is larger than asked. */
  lemma {:induction false} BatchesCoverTheTable(p: Pipeline, table: seq<Doc>, size: nat)
    requires size > 0
    ensures Joined(Batches(p, table, size)) == Items(p, table)
    ensures forall b :: b in Batches(p, table, size) ==> |b| <= size
    decreases |table|
  {
    if table != [] {
      var k := Least(size, |table|);
      BatchesCoverTheTable(p, table[k..], size);
      assert table == table[..k] + table[k..];
      ItemsAppend(p, table[..k], table[k..]);
      ItemsAtMost(p, table[..k]);
    }
  }

  function Joined(batches: seq<seq<Item>>): seq<Item> {
    if batches == [] then [] else batches[0] + Joined(batches[1..])
  }
}
