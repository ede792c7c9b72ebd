/** Baskets and receipts of scripts/generate_demo_transactions_csv.py, with money in whole cents. */
module Receipts {
  /** `title` stands for the name and category of the product. */
  datatype Item = Item(sku: string, title: string, price: nat, qty: nat) {
    function Amount(): nat { price * qty }
  }

  const CAP := 480000

  function Total(items: seq<Item>): nat { if items == [] then 0 else items[0].Amount() + Total(items[1..]) }
  function Quantity(items: seq<Item>): nat { if items == [] then 0 else items[0].qty + Quantity(items[1..]) }

  function Without(items: seq<Item>, i: nat): seq<Item>
    requires i < |items|
  {
    items[..i] + items[i + 1..]
  }

  lemma {:induction false} TotalWithout(items: seq<Item>, i: nat)
    requires i < |items|
    ensures Total(Without(items, i)) + items[i].Amount() == Total(items)
  {
    if i == 0 {
      assert Without(items, 0) == items[1..];
    } else {
      assert Without(items, i)[0] == items[0] && Without(items, i)[1..] == Without(items[1..], i - 1);
      TotalWithout(items[1..], i - 1);
    }
  }

  /** The lines of `a` are lines of `b`, in the same order. */
  predicate Subsequence(a: seq<Item>, b: seq<Item>) {
    a == [] || (b != [] && ((a[0] == b[0] && Subsequence(a[1..], b[1..])) || Subsequence(a, b[1..])))
  }

  lemma {:induction false} WholeIsSubsequence(items: seq<Item>)
    ensures Subsequence(items, items)
  {
    if items != [] { WholeIsSubsequence(items[1..]); }
  }

  lemma {:induction false} DroppingKeepsOrder(a: seq<Item>, b: seq<Item>, i: nat)
    requires Subsequence(a, b) && i < |a|
    ensures Subsequence(Without(a, i), b)
    decreases |b|
  {
    if Subsequence(a, b[1..]) {
      DroppingKeepsOrder(a, b[1..], i);
    } else if i == 0 {
      assert Without(a, 0) == a[1..];
      Widen(a[1..], b);
    } else {
      DroppingKeepsOrder(a[1..], b[1..], i - 1);
      assert Without(a, i)[0] == a[0] && Without(a, i)[1..] == Without(a[1..], i - 1);
    }
  }

  lemma Widen(a: seq<Item>, b: seq<Item>)
    requires b != [] && Subsequence(a, b[1..])
    ensures Subsequence(a, b)
  {
  }

  lemma SplitAt(items: seq<Item>, i: nat)
    requires i < |items|
    ensures multiset(items) == multiset(Without(items, i)) + multiset{items[i]}
  {
    assert items == items[..i] + [items[i]] + items[i + 1..];
  }

  /** What the cap leaves of a basket, in order: lines dropped, none cheaper than a line that stays, and none
      dropped without need. */
  ghost predicate Capped(items: seq<Item>, kept: seq<Item>) {
    && multiset(kept) <= multiset(items) && Subsequence(kept, items)
    && (|kept| <= 1 || Total(kept) <= CAP)
    && (items != [] ==> kept != [])
    && (forall d, k :: d in multiset(items) - multiset(kept) && k in kept ==> k.Amount() <= d.Amount())
    && (kept != items ==> exists d :: d in multiset(items) - multiset(kept) && Total(kept) + d.Amount() > CAP)
  }

  /** The loop that drops the dearest line, the first of them on a tie, while the basket is over the cap. */
  method DropDearest(items: seq<Item>) returns (kept: seq<Item>)
    ensures Capped(items, kept)
  {
    kept := items;
    WholeIsSubsequence(items);
    while |kept| > 1 && Total(kept) > CAP
      invariant Dropping(items, kept) && Subsequence(kept, items)
      decreases |kept|
    {
      var drop := Dearest(kept);
      DropKeeps(items, kept, drop);
      DroppingKeepsOrder(kept, items, drop);
      kept := Without(kept, drop);
    }
  }

  /** The basket while it is being cut. */
  ghost predicate Dropping(items: seq<Item>, kept: seq<Item>) {
    && multiset(kept) <= multiset(items)
    && (items != [] ==> kept != [])
    && (forall d, k :: d in multiset(items) - multiset(kept) && k in kept ==> k.Amount() <= d.Amount())
    && (kept != items ==> exists d :: d in multiset(items) - multiset(kept) && Total(kept) + d.Amount() > CAP)
  }

  lemma MoreDropped(items: multiset<Item>, kept: multiset<Item>, rest: multiset<Item>, line: Item)
    requires kept <= items && kept == rest + multiset{line}
    ensures rest <= items && items - rest == (items - kept) + multiset{line} && line in items - rest
  {
  }

  lemma StillDearer(gone: multiset<Item>, kept: seq<Item>, rest: seq<Item>, line: Item)
    requires forall d, k :: d in gone && k in kept ==> k.Amount() <= d.Amount()
    requires (forall k :: k in kept ==> k.Amount() <= line.Amount()) && forall k :: k in rest ==> k in kept
    ensures forall d, k :: d in gone + multiset{line} && k in rest ==> k.Amount() <= d.Amount()
  {
    hide Item.Amount;
  }

  lemma WithoutMembers(items: seq<Item>, i: nat)
    requires i < |items|
    ensures |Without(items, i)| == |items| - 1 && forall k :: k in Without(items, i) ==> k in items
  {
  }

  lemma DropKeeps(items: seq<Item>, kept: seq<Item>, drop: nat)
    requires Dropping(items, kept) && |kept| > 1 && Total(kept) > CAP
    requires drop < |kept| && forall k :: k in kept ==> k.Amount() <= kept[drop].Amount()
    ensures Dropping(items, Without(kept, drop))
  {
    var line, rest := kept[drop], Without(kept, drop);
    TotalWithout(kept, drop);
    SplitAt(kept, drop);
    WithoutMembers(kept, drop);
    hide Item.Amount, Total, Without;
    MoreDropped(multiset(items), multiset(kept), multiset(rest), line);
    StillDearer(multiset(items) - multiset(kept), kept, rest, line);
  }

  method Dearest(items: seq<Item>) returns (i: nat)
    requires items != []
    ensures i < |items| && forall k :: k in items ==> k.Amount() <= items[i].Amount()
    ensures forall j :: 0 <= j < i ==> items[j].Amount() < items[i].Amount()
  {
    i := 0;
    for n := 1 to |items|
      invariant i < n
      invariant forall j :: 0 <= j < n ==> items[j].Amount() <= items[i].Amount()
      invariant forall j :: 0 <= j < i ==> items[j].Amount() < items[i].Amount()
    {
      if items[n].Amount() > items[i].Amount() {
        i := n;
      }
    }
  }

  /** A single line over the cap is cut to one piece. */
  function SingleCut(kept: seq<Item>): seq<Item> {
    if |kept| == 1 && kept[0].qty > 1 && kept[0].Amount() > CAP then [kept[0].(qty := 1)] else kept
  }

  // ----- receipts

  datatype Tx = Tx(
    receipt: nat, day: nat, subtotal: nat, discount: nat, tax: nat, shipping: nat, total: nat, itemCount: nat,
    columns: map<string, string>)
  datatype Line = Line(receipt: nat, lineNo: nat, sku: string, title: string, unitPrice: nat, qty: nat, lineTotal: nat)

  /** What is drawn for a transaction: the basket, the discount in percent, for shipping whether it
      is free by luck and what it costs otherwise, and the columns on which nothing else depends (time
      of day, segment, channel, payment method, and the scenario of the day). */
  datatype Draw = Draw(basket: seq<Item>, percent: nat, lucky: bool, postage: nat, columns: map<string, string>)

  predicate InRange(d: Draw) { d.percent in {0, 3, 5, 10} && d.postage in {799, 1199, 1599} }

  const FREE_SHIPPING_FROM := 120000

  /** Hundredths rounded to whole numbers, halves to even ones. */
  function Hundredth(n: nat): nat {
    var q, r := n / 100, n % 100;
    if r < 50 || (r == 50 && q % 2 == 0) then q else q + 1
  }

  function LineOf(receipt: nat, lineNo: nat, item: Item): Line {
    Line(receipt, lineNo, item.sku, item.title, item.price, item.qty, item.Amount())
  }

  /** The rows of one receipt, numbered from one. */
  function LinesOf(receipt: nat, items: seq<Item>): (rows: seq<Line>)
    ensures |rows| == |items| && forall i :: 0 <= i < |items| ==> rows[i] == LineOf(receipt, i + 1, items[i])
    decreases |items|
  {
    if items == [] then []
    else LinesOf(receipt, items[..|items| - 1]) + [LineOf(receipt, |items|, items[|items| - 1])]
  }

  function LinesOn(lines: seq<Line>, receipt: nat): seq<Line> {
    if lines == [] then []
    else (if lines[0].receipt == receipt then [lines[0]] else []) + LinesOn(lines[1..], receipt)
  }

  function SumLines(lines: seq<Line>): nat { if lines == [] then 0 else lines[0].lineTotal + SumLines(lines[1..]) }
  function SumQty(lines: seq<Line>): nat { if lines == [] then 0 else lines[0].qty + SumQty(lines[1..]) }

  lemma {:induction false} LinesOnAppend(a: seq<Line>, b: seq<Line>, r: nat)
    ensures LinesOn(a + b, r) == LinesOn(a, r) + LinesOn(b, r)
  {
    if a == [] {
      assert a + b == b;
    } else {
      assert (a + b)[0] == a[0] && (a + b)[1..] == a[1..] + b;
      LinesOnAppend(a[1..], b, r);
      var head := if a[0].receipt == r then [a[0]] else [];
      Regroup(head, LinesOn(a[1..], r), LinesOn(b, r));
    }
  }

  lemma Regroup(a: seq<Line>, b: seq<Line>, c: seq<Line>)
    ensures a + (b + c) == (a + b) + c
  {
  }

  lemma {:induction false} LinesOnOne(lines: seq<Line>, own: nat, r: nat)
    requires forall l :: l in lines ==> l.receipt == own
    ensures LinesOn(lines, r) == if r == own then lines else []
  {
    if lines != [] {
      assert lines[0] in lines && lines == [lines[0]] + lines[1..];
      LinesOnOne(lines[1..], own, r);
    }
  }

  lemma {:induction false} LineSums(items: seq<Item>, lines: seq<Line>)
    requires |lines| == |items|
    requires forall i :: 0 <= i < |items| ==> lines[i].lineTotal == items[i].Amount() && lines[i].qty == items[i].qty
    ensures SumLines(lines) == Total(items) && SumQty(lines) == Quantity(items)
  {
    if items != [] {
      LineSums(items[1..], lines[1..]);
    }
  }

  function TxOf(receipt: nat, day: nat, items: seq<Item>, draw: Draw): Tx {
    var subtotal := Total(items);
    var discount := Hundredth(subtotal * draw.percent);
    var taxable := if subtotal < discount then 0 else subtotal - discount;
    var tax := Hundredth(taxable * 10);
    var shipping := if subtotal >= FREE_SHIPPING_FROM || draw.lucky then 0 else draw.postage;
    Tx(receipt, day, subtotal, discount, tax, shipping, taxable + tax + shipping, Quantity(items), draw.columns)
  }

  /** The amounts of a transaction balance; the discount and the tax are at most a tenth, up to
      rounding; and shipping is free from the threshold on. */
  predicate Balanced(tx: Tx) {
    && tx.total + tx.discount == tx.subtotal + tx.tax + tx.shipping
    && 10 * tx.discount <= tx.subtotal + 5 && tx.discount <= tx.subtotal
    && 10 * (tx.subtotal - tx.discount) - 50 <= 100 * tx.tax <= 10 * (tx.subtotal - tx.discount) + 50
    && (tx.shipping == 0 || (tx.subtotal < FREE_SHIPPING_FROM && tx.shipping in {799, 1199, 1599}))
  }

  lemma HundredthIsNear(n: nat)
    ensures n - 50 <= 100 * Hundredth(n) <= n + 50
  {
  }

  lemma TxBalances(receipt: nat, day: nat, items: seq<Item>, draw: Draw)
    requires InRange(draw)
    ensures Balanced(TxOf(receipt, day, items, draw))
  {
    var subtotal := Total(items);
    HundredthIsNear(subtotal * draw.percent);
    assert subtotal * draw.percent <= subtotal * 10;
    hide Hundredth;
    var discount := Hundredth(subtotal * draw.percent);
    if discount <= subtotal { HundredthIsNear((subtotal - discount) * 10); }
  }

  /** Halves are rounded to even hundredths. */
  lemma HalvesGoToEven(n: nat)
    requires n % 100 == 50
    ensures Hundredth(n) % 2 == 0
  {
  }

  /** What was drawn decides the rest: the discount is the drawn percentage, up to rounding, and
      shipping costs what was drawn unless the subtotal or luck makes it free. */
  predicate FollowsDraw(tx: Tx, draw: Draw) {
    && tx.subtotal * draw.percent - 50 <= 100 * tx.discount <= tx.subtotal * draw.percent + 50
    && (tx.subtotal >= 120000 || draw.lucky ==> tx.shipping == 0)
    && (tx.subtotal < 120000 && !draw.lucky ==> tx.shipping == draw.postage)
    && tx.columns == draw.columns
  }

  lemma TxFollowsDraw(receipt: nat, day: nat, items: seq<Item>, draw: Draw)
    ensures FollowsDraw(TxOf(receipt, day, items, draw), draw)
  {
    HundredthIsNear(Total(items) * draw.percent);
    hide Hundredth;
  }

  /** The days of all receipts, when `counts` are made on each day. */
  function DayList(counts: seq<nat>): seq<nat>
    decreases |counts|
  {
    if counts == [] then []
    else DayList(counts[..|counts| - 1]) + Repeated(|counts| - 1, counts[|counts| - 1])
  }

  function Repeated(day: nat, n: nat): seq<nat> { seq(n, _ => day) }

  /** Receipts are numbered in the order of their days ... */
  lemma {:induction false} DaysAreInOrder(counts: seq<nat>)
    ensures forall j, k :: 0 <= j < k < |DayList(counts)| ==> DayList(counts)[j] <= DayList(counts)[k]
    ensures forall k :: 0 <= k < |DayList(counts)| ==> DayList(counts)[k] < |counts|
    decreases |counts|
  {
    if counts != [] {
      DaysAreInOrder(counts[..|counts| - 1]);
    }
  }

  /** ... and each day has as many as it should. */
  lemma {:induction false} DaysHaveTheirCounts(counts: seq<nat>, d: nat)
    ensures multiset(DayList(counts))[d] == if d < |counts| then counts[d] else 0
    decreases |counts|
  {
    if counts != [] {
      var init, day := counts[..|counts| - 1], |counts| - 1;
      hide Repeated;
      DaysHaveTheirCounts(init, d);
      RepeatedCount(day, counts[day], d);
      CountAppend(DayList(init), Repeated(day, counts[day]), d);
    }
  }

  lemma CountAppend(a: seq<nat>, b: seq<nat>, d: nat)
    ensures multiset(a + b)[d] == multiset(a)[d] + multiset(b)[d]
  {
  }

  lemma {:induction false} RepeatedCount(day: nat, n: nat, d: nat)
    ensures multiset(Repeated(day, n))[d] == if d == day then n else 0
  {
    if n > 0 {
      RepeatedCount(day, n - 1, d);
      assert Repeated(day, n) == Repeated(day, n - 1) + [day];
    }
  }

  /** The receipt rows of all baskets as sold, receipts numbered from one. */
  function AllLines(sold: seq<seq<Item>>): seq<Line>
    decreases |sold|
  {
    if sold == [] then [] else AllLines(sold[..|sold| - 1]) + LinesOf(|sold|, sold[|sold| - 1])
  }

  /** A basket as sold: capped, and cut to one piece if a single line is still too dear. */
  ghost predicate SoldFrom(basket: seq<Item>, items: seq<Item>) {
    exists kept :: Capped(basket, kept) && items == SingleCut(kept)
  }

  /** The books of all transactions: what was sold under each receipt number, and the two files. */
  ghost predicate Books(counts: seq<nat>, draw: nat -> Draw, sold: seq<seq<Item>>, txs: seq<Tx>, lines: seq<Line>) {
    |sold| == |DayList(counts)| && BooksOn(DayList(counts), draw, sold, txs, lines)
  }

  ghost predicate BooksOn(days: seq<nat>, draw: nat -> Draw, sold: seq<seq<Item>>, txs: seq<Tx>, lines: seq<Line>) {
    && |txs| == |sold| <= |days|
    && (forall k :: 0 <= k < |sold| ==> SoldFrom(draw(k + 1).basket, sold[k]))
    && (forall k :: 0 <= k < |sold| ==> txs[k] == TxOf(k + 1, days[k], sold[k], draw(k + 1)))
    && lines == AllLines(sold)
  }

  predicate LineFrom(i: Item, b: Item) { b.sku == i.sku && b.title == i.title && b.price == i.price && i.qty <= b.qty }

  lemma CutLines(kept: seq<Item>)
    ensures |SingleCut(kept)| == |kept| && forall k :: 0 <= k < |kept| ==> LineFrom(SingleCut(kept)[k], kept[k])
  {
  }

  /** No line of a basket as sold is new or larger than drawn, and the basket is never emptied. */
  lemma SoldLines(basket: seq<Item>, items: seq<Item>)
    requires SoldFrom(basket, items)
    ensures basket != [] ==> items != []
    ensures forall i :: i in items ==> exists b :: b in basket && LineFrom(i, b)
  {
    hide SingleCut, LineFrom, Total, Subsequence;
    var kept :| Capped(basket, kept) && items == SingleCut(kept);
    CutLines(kept);
    forall i | i in items ensures exists b :: b in basket && LineFrom(i, b) {
      var k :| 0 <= k < |items| && items[k] == i;
      assert kept[k] in multiset(kept);
      assert kept[k] in multiset(basket);
      assert kept[k] in basket && LineFrom(i, kept[k]);
    }
  }

  predicate AllDear(basket: seq<Item>) { forall b :: b in basket ==> b.Amount() > CAP }

  predicate Cheapest(basket: seq<Item>, k: Item) { k in basket && forall b :: b in basket ==> k.Amount() <= b.Amount() }

  /** What is left of a basket over the cap when only one line is left is a cheapest one. */
  lemma LastIsCheapest(basket: seq<Item>, kept: seq<Item>)
    requires Capped(basket, kept) && |kept| == 1
    ensures Cheapest(basket, kept[0])
  {
    hide Item.Amount, Total, Subsequence;
    assert kept[0] in multiset(kept) && kept[0] in multiset(basket);
    forall b | b in basket ensures kept[0].Amount() <= b.Amount() {
      assert b in multiset(basket);
      if b != kept[0] {
        assert b !in multiset(kept) && b in multiset(basket) - multiset(kept);
      }
    }
  }

  lemma DearTotal(items: seq<Item>)
    requires items != [] && AllDear(items)
    ensures Total(items) > CAP
  {
    assert items[0] in items;
  }

  /** A basket of which some line costs no more than the cap is sold within it. Of any other one only
      a single piece of a cheapest line is sold. */
  lemma SoldWithinCap(basket: seq<Item>, items: seq<Item>)
    requires SoldFrom(basket, items)
    ensures !AllDear(basket) || basket == [] ==> Total(items) <= CAP
    ensures AllDear(basket) && basket != [] ==> exists k :: Cheapest(basket, k) && items == [k.(qty := 1)]
  {
    var kept :| Capped(basket, kept) && items == SingleCut(kept);
    forall k | k in kept ensures k in basket {
      assert k in multiset(kept) && k in multiset(basket);
    }
    hide Item.Amount, Subsequence;
    if |kept| == 1 {
      LastIsCheapest(basket, kept);
      TotalOfOne(kept);
      OnePiece(kept[0]);
    } else if kept != [] && AllDear(basket) {
      DearTotal(kept);
    } else if kept == [] {
      assert basket == [];
    }
  }

  /** Cutting to one piece is the last resort: while some line costs no more than the cap, the lines
      sold are lines of the basket as drawn, and a basket within the cap is sold whole. */
  lemma SoldAsDrawn(basket: seq<Item>, items: seq<Item>)
    requires SoldFrom(basket, items) && !AllDear(basket)
    ensures Capped(basket, items) && (Total(basket) <= CAP ==> items == basket)
  {
    var kept :| Capped(basket, kept) && items == SingleCut(kept);
    if |kept| == 1 { LastIsCheapest(basket, kept); }
    if Total(basket) <= CAP { CappedWithin(basket, kept); }
  }

  /** Part of a basket costs no more than the basket. */
  lemma {:induction false} PartCostsLess(part: seq<Item>, items: seq<Item>)
    requires multiset(part) <= multiset(items)
    ensures Total(part) <= Total(items)
  {
    if part != [] {
      hide Item.Amount, Without;
      assert part == [part[0]] + part[1..];
      assert multiset(part) == multiset(part[1..]) + multiset{part[0]};
      assert part[0] in multiset(part) && part[0] in multiset(items);
      var i :| 0 <= i < |items| && items[i] == part[0];
      SplitAt(items, i);
      TotalWithout(items, i);
      Cancel(multiset(part[1..]), multiset(Without(items, i)), part[0]);
      PartCostsLess(part[1..], Without(items, i));
    }
  }

  lemma Cancel(a: multiset<Item>, b: multiset<Item>, x: Item)
    requires a + multiset{x} <= b + multiset{x}
    ensures a <= b
  {
    forall y ensures a[y] <= b[y] {
      assert (a + multiset{x})[y] <= (b + multiset{x})[y];
    }
  }

  lemma CappedWithin(basket: seq<Item>, kept: seq<Item>)
    requires Capped(basket, kept) && Total(basket) <= CAP
    ensures kept == basket
  {
    hide Item.Amount, Subsequence;
    if kept != basket {
      var d :| d in multiset(basket) - multiset(kept) && Total(kept) + d.Amount() > CAP;
      var part := [d] + kept;
      assert part[0] == d && part[1..] == kept;
      assert multiset(part) == multiset{d} + multiset(kept);
      PartCostsLess(part, basket);
    }
  }

  lemma OnePiece(k: Item)
    ensures k.Amount() > CAP ==> k.qty >= 1 && (k.qty > 1 || k == k.(qty := 1))
  {
    if k.qty == 0 { assert k.Amount() == 0; }
  }

  lemma TotalOfOne(items: seq<Item>)
    requires |items| == 1
    ensures Total(items) == items[0].Amount()
  {
    assert items[1..] == [];
  }

  method Sell(basket: seq<Item>) returns (items: seq<Item>)
    ensures SoldFrom(basket, items)
  {
    items := DropDearest(basket);
    items := SingleCut(items);
  }

  lemma OneMoreReceipt(days: seq<nat>, draw: nat -> Draw, sold: seq<seq<Item>>, txs: seq<Tx>, lines: seq<Line>,
                       items: seq<Item>, tx: Tx)
    requires BooksOn(days, draw, sold, txs, lines) && |sold| < |days| && SoldFrom(draw(|sold| + 1).basket, items)
    requires tx == TxOf(|sold| + 1, days[|sold|], items, draw(|sold| + 1))
    ensures BooksOn(days, draw, sold + [items], txs + [tx], lines + LinesOf(|sold| + 1, items))
  {
    hide TxOf, SoldFrom, LinesOf;
    Init(sold, items);
    Init(txs, tx);
    forall k | 0 <= k <= |sold| ensures SoldFrom(draw(k + 1).basket, (sold + [items])[k]) {
      if k < |sold| { assert (sold + [items])[k] == sold[k]; }
    }
    forall k | 0 <= k <= |sold| ensures (txs + [tx])[k] == TxOf(k + 1, days[k], (sold + [items])[k], draw(k + 1)) {
      if k < |sold| { assert (sold + [items])[k] == sold[k] && (txs + [tx])[k] == txs[k]; }
    }
  }

  lemma Init<T>(s: seq<T>, x: T)
    ensures (s + [x])[..|s|] == s && (s + [x])[|s|] == x
  {
  }

  /** `build_rows`, for the counts of the days and what is drawn for each receipt. */
  method BuildRows(counts: seq<nat>, draw: nat -> Draw) returns (sold: seq<seq<Item>>, txs: seq<Tx>, lines: seq<Line>)
    ensures Books(counts, draw, sold, txs, lines)
  {
    hide BooksOn;
    sold, txs, lines := [], [], [];
    NothingSold(DayList(counts), draw);
    assert DayList(counts[..0]) == [];
    for day := 0 to |counts|
      invariant BooksOn(DayList(counts), draw, sold, txs, lines)
      invariant |sold| == |DayList(counts[..day])|
    {
      DayListPrefix(counts, day);
      sold, txs, lines := SellDay(counts, day, draw, sold, txs, lines);
    }
    assert counts[..|counts|] == counts;
  }

  lemma NothingSold(days: seq<nat>, draw: nat -> Draw)
    ensures BooksOn(days, draw, [], [], [])
  {
  }

  lemma DayListStep(counts: seq<nat>, day: nat)
    requires day < |counts|
    ensures DayList(counts[..day + 1]) == DayList(counts[..day]) + Repeated(day, counts[day])
  {
    assert counts[..day + 1][..day] == counts[..day];
  }

  lemma {:induction false} DayListGrows(counts: seq<nat>, day: nat)
    requires day <= |counts|
    ensures DayList(counts[..day]) <= DayList(counts)
    decreases |counts| - day
  {
    if day == |counts| {
      assert counts[..day] == counts;
    } else {
      DayListGrows(counts, day + 1);
      DayListStep(counts, day);
    }
  }

  /** The receipts of a day come after those of the days before. */
  lemma DayListPrefix(counts: seq<nat>, day: nat)
    requires day < |counts|
    ensures var before, all := |DayList(counts[..day])|, DayList(counts);
      && before + counts[day] == |DayList(counts[..day + 1])| <= |all|
      && forall k :: before <= k < before + counts[day] ==> all[k] == day
  {
    DayListStep(counts, day);
    DayListGrows(counts, day + 1);
    var before, all, upTo := |DayList(counts[..day])|, DayList(counts), DayList(counts[..day + 1]);
    forall k | before <= k < before + counts[day] ensures all[k] == day {
      assert all[k] == upTo[k] == Repeated(day, counts[day])[k - before];
    }
  }

  /** The loop over the transactions of one day; numbering goes on from the day before. */
  method SellDay(counts: seq<nat>, day: nat, draw: nat -> Draw, sold0: seq<seq<Item>>, txs0: seq<Tx>, lines0: seq<Line>)
    returns (sold: seq<seq<Item>>, txs: seq<Tx>, lines: seq<Line>)
    requires day < |counts| && |sold0| + counts[day] <= |DayList(counts)|
    requires forall k :: |sold0| <= k < |sold0| + counts[day] ==> DayList(counts)[k] == day
    requires BooksOn(DayList(counts), draw, sold0, txs0, lines0)
    ensures BooksOn(DayList(counts), draw, sold, txs, lines) && |sold| == |sold0| + counts[day]
  {
    hide BooksOn, TxOf, SoldFrom, DayList;
    sold, txs, lines := sold0, txs0, lines0;
    var receiptSeq := |sold0| + 1;
    for n := 0 to counts[day]
      invariant |sold| == |sold0| + n && receiptSeq == |sold| + 1
      invariant BooksOn(DayList(counts), draw, sold, txs, lines)
    {
      var drawn := draw(receiptSeq);
      var items := Sell(drawn.basket);
      var rows := WriteLines(receiptSeq, items);
      var tx := TxOf(receiptSeq, day, items, drawn);
      OneMoreReceipt(DayList(counts), draw, sold, txs, lines, items, tx);
      sold := sold + [items];
      txs := txs + [tx];
      lines := lines + rows;
      receiptSeq := receiptSeq + 1;
    }
  }

  method WriteLines(receipt: nat, items: seq<Item>) returns (rows: seq<Line>)
    ensures rows == LinesOf(receipt, items)
  {
    rows := [];
    var lineNo := 1;
    for i := 0 to |items|
      invariant lineNo == i + 1 && rows == LinesOf(receipt, items[..i])
    {
      assert items[..i + 1][..i] == items[..i];
      rows := rows + [Line(receipt, lineNo, items[i].sku, items[i].title, items[i].price, items[i].qty, items[i].price * items[i].qty)];
      lineNo := lineNo + 1;
    }
    assert items[..|items|] == items;
  }

  lemma {:induction false} ReceiptNumbers(sold: seq<seq<Item>>)
    ensures forall l :: l in AllLines(sold) ==> 1 <= l.receipt <= |sold|
    decreases |sold|
  {
    if sold != [] { ReceiptNumbers(sold[..|sold| - 1]); }
  }

  lemma {:induction false} LinesOfOneReceipt(sold: seq<seq<Item>>, k: nat)
    requires k < |sold|
    ensures LinesOn(AllLines(sold), k + 1) == LinesOf(k + 1, sold[k])
    decreases |sold|
  {
    var init, rows := sold[..|sold| - 1], LinesOf(|sold|, sold[|sold| - 1]);
    LinesOnAppend(AllLines(init), rows, k + 1);
    LinesOnOne(rows, |sold|, k + 1);
    if k < |init| {
      LinesOfOneReceipt(init, k);
    } else {
      ReceiptNumbers(init);
      NoneOn(AllLines(init), k + 1);
    }
  }

  /** A receipt row shows its place on the receipt and what is sold. */
  predicate Bills(l: Line, lineNo: nat, item: Item) {
    && l.lineNo == lineNo && l.sku == item.sku && l.title == item.title
    && l.unitPrice == item.price && l.qty == item.qty && l.lineTotal == l.unitPrice * l.qty
  }

  /** Every receipt is conserved: its lines in the file are those of its basket, they add up to the
      subtotal and the item count of its transaction, and the amounts of the transaction balance. */
  lemma ReceiptIsConserved(counts: seq<nat>, draw: nat -> Draw, sold: seq<seq<Item>>, txs: seq<Tx>, lines: seq<Line>, k: nat)
    requires Books(counts, draw, sold, txs, lines) && k < |txs| && forall n: nat :: InRange(draw(n))
    ensures txs[k].receipt == k + 1 && txs[k].day == DayList(counts)[k] && Balanced(txs[k]) && FollowsDraw(txs[k], draw(k + 1))
    ensures var own := LinesOn(lines, k + 1);
      && |own| == |sold[k]| && (forall i :: 0 <= i < |own| ==> Bills(own[i], i + 1, sold[k][i]))
      && SumLines(own) == txs[k].subtotal && SumQty(own) == txs[k].itemCount
  {
    LinesOfOneReceipt(sold, k);
    LineSums(sold[k], LinesOf(k + 1, sold[k]));
    assert InRange(draw(k + 1));
    TxBalances(k + 1, DayList(counts)[k], sold[k], draw(k + 1));
    TxFollowsDraw(k + 1, DayList(counts)[k], sold[k], draw(k + 1));
  }

  lemma {:induction false} NoneOn(lines: seq<Line>, r: nat)
    requires forall l :: l in lines ==> l.receipt != r
    ensures LinesOn(lines, r) == []
  {
    if lines != [] {
      assert lines[0] in lines;
      NoneOn(lines[1..], r);
    }
  }
}
