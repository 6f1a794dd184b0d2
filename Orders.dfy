/**
 * An order and its line items. Each line holds an item, a quantity and a
 * unit price copied from the catalog whenever the line is saved; the
 * order's total is the sum of quantity times unit price over its lines.
 *
 * The line rows are kept in the order itself, keyed by item: an order
 * never holds two lines for one item, because a line is only created by
 * `add_item` when none exists for that item. Each line keeps its own row
 * id, by which `remove_item` finds it.
 */
module Orders {

  type ItemId = nat
  type LineId = nat
  type CustomerId = nat
  type RestaurantId = nat

  /** A catalog item: its current price and the restaurant its category belongs to. */
  datatype Item = Item(price: int, restaurant: RestaurantId)

  type Catalog = map<ItemId, Item>

  /** An order line (OrderItem): its row id, quantity and saved unit price. */
  datatype Line = Line(id: LineId, quantity: int, unitPrice: int)

  type Lines = map<ItemId, Line>

  function LineTotal(l: Line): int { l.quantity * l.unitPrice }

  /** Σ quantity × unit_price over the lines; 0 when there are none. */
  ghost function Sum(m: Lines): int
    decreases |m|
  {
    if m == map[] then 0
    else
      var k :| k in m;
      LineTotal(m[k]) + Sum(m - {k})
  }

  /** The sum does not depend on which line is taken first. */
  lemma {:induction false} SumRemove(m: Lines, k: ItemId)
    requires k in m
    ensures Sum(m) == LineTotal(m[k]) + Sum(m - {k})
    decreases |m|
  {
    var j :| j in m && Sum(m) == LineTotal(m[j]) + Sum(m - {j});
    if j != k {
      SumRemove(m - {j}, k);
      SumRemove(m - {k}, j);
      assert m - {j} - {k} == m - {k} - {j};
    }
  }

  /** Replacing or inserting one line changes the sum by the difference of the two line totals. */
  lemma SumUpdate(m: Lines, k: ItemId, l: Line)
    ensures Sum(m[k := l]) == Sum(m) - (if k in m then LineTotal(m[k]) else 0) + LineTotal(l)
  {
    SumRemove(m[k := l], k);
    if k in m {
      SumRemove(m, k);
      assert m[k := l] - {k} == m - {k};
    } else {
      assert m[k := l] - {k} == m;
    }
  }

  /** The quantity of an item in the order, 0 when it has no line. */
  function Quantity(lines: Lines, item: ItemId): int
  {
    if item in lines then lines[item].quantity else 0
  }

  /** Every line has quantity at least 1 and a row id below the next one to
      hand out, and no two lines share a row id. */
  predicate WellFormed(lines: Lines, nextLine: LineId)
  {
    && (forall i :: i in lines ==> lines[i].quantity >= 1 && lines[i].id < nextLine)
    && (forall i, j :: i in lines && j in lines && i != j ==> lines[i].id != lines[j].id)
  }

  /** The item exists and belongs to a category of the restaurant. */
  predicate Sells(catalog: Catalog, restaurant: RestaurantId, item: ItemId)
  {
    item in catalog && catalog[item].restaurant == restaurant
  }

  /** The line table after Order.add_item(item). */
  function AddedLines(lines: Lines, nextLine: LineId, item: ItemId, catalog: Catalog, restaurant: RestaurantId): Lines
  {
    if !Sells(catalog, restaurant, item) then lines
    else if item in lines then lines[item := Line(lines[item].id, lines[item].quantity + 1, catalog[item].price)]
    else lines[item := Line(nextLine, 1, catalog[item].price)]
  }

  /** The next row id after Order.add_item(item): one is used when a line is created. */
  function AddedNext(lines: Lines, nextLine: LineId, item: ItemId, catalog: Catalog, restaurant: RestaurantId): LineId
  {
    if Sells(catalog, restaurant, item) && item !in lines then nextLine + 1 else nextLine
  }

  /** add_item on an item of another restaurant, or on no item, changes nothing.
      Otherwise the item's quantity rises by exactly one (a new line starts
      at one), its unit price becomes the current catalog price, every other
      line is unchanged, the table stays well formed, and the sum changes by
      the re-priced line. */
  lemma AddItemEffect(lines: Lines, nextLine: LineId, item: ItemId, catalog: Catalog, restaurant: RestaurantId)
    requires WellFormed(lines, nextLine)
    ensures var m := AddedLines(lines, nextLine, item, catalog, restaurant);
      && (!Sells(catalog, restaurant, item) ==>
            m == lines && AddedNext(lines, nextLine, item, catalog, restaurant) == nextLine)
      && (Sells(catalog, restaurant, item) ==>
            && item in m
            && Quantity(m, item) == Quantity(lines, item) + 1
            && m[item].unitPrice == catalog[item].price
            && Sum(m) == Sum(lines) - (if item in lines then LineTotal(lines[item]) else 0)
                         + (Quantity(lines, item) + 1) * catalog[item].price)
      && (forall j :: j != item ==> (j in m <==> j in lines) && (j in lines ==> m[j] == lines[j]))
      && WellFormed(m, AddedNext(lines, nextLine, item, catalog, restaurant))
  {
    if Sells(catalog, restaurant, item) {
      var m := AddedLines(lines, nextLine, item, catalog, restaurant);
      SumUpdate(lines, item, m[item]);
    }
  }

  /** When the item's price has not changed since its line was last saved,
      adding it raises the sum by exactly its price. */
  lemma AddAtSavedPrice(lines: Lines, nextLine: LineId, item: ItemId, catalog: Catalog, restaurant: RestaurantId)
    requires WellFormed(lines, nextLine) && Sells(catalog, restaurant, item)
    requires item in lines ==> lines[item].unitPrice == catalog[item].price
    ensures Sum(AddedLines(lines, nextLine, item, catalog, restaurant)) == Sum(lines) + catalog[item].price
  {
    AddItemEffect(lines, nextLine, item, catalog, restaurant);
    var p := catalog[item].price;
    assert (Quantity(lines, item) + 1) * p == Quantity(lines, item) * p + p;
  }

  /** The line table after decrementing the item's line: the line is
      deleted when its quantity drops below one, and otherwise saved again,
      which copies the current price. */
  function Decremented(lines: Lines, item: ItemId, price: int): Lines
    requires item in lines
  {
    var l := lines[item];
    if l.quantity - 1 < 1 then lines - {item}
    else lines[item := Line(l.id, l.quantity - 1, price)]
  }

  /** remove_item lowers the line's quantity by exactly one, deleting it at
      zero; a kept line takes the current price; every other line is
      unchanged; the table stays well formed (so every remaining line has
      quantity at least 1), and the sum changes by the re-priced line. */
  lemma RemoveItemEffect(lines: Lines, nextLine: LineId, item: ItemId, price: int)
    requires WellFormed(lines, nextLine) && item in lines
    ensures var m := Decremented(lines, item, price);
      && Quantity(m, item) == Quantity(lines, item) - 1
      && (item in m <==> lines[item].quantity >= 2)
      && (item in m ==> m[item].unitPrice == price && m[item].id == lines[item].id)
      && (forall j :: j != item ==> (j in m <==> j in lines) && (j in lines ==> m[j] == lines[j]))
      && WellFormed(m, nextLine)
      && Sum(m) == Sum(lines) - LineTotal(lines[item]) + (Quantity(lines, item) - 1) * price
  {
    var l := lines[item];
    if l.quantity - 1 < 1 {
      SumRemove(lines, item);
    } else {
      SumUpdate(lines, item, Line(l.id, l.quantity - 1, price));
    }
  }

  /** The line table after Order.remove_item(lineId): the order's line
      with that row id is decremented; when the order has no such line,
      nothing changes. */
  ghost function RemovedLines(lines: Lines, lineId: LineId, catalog: Catalog): Lines
    requires forall i :: i in lines ==> i in catalog
  {
    if exists i :: i in lines && lines[i].id == lineId then
      var i :| i in lines && lines[i].id == lineId;
      Decremented(lines, i, catalog[i].price)
    else
      lines
  }

  /** Removing a line never adds one. */
  lemma RemovedLinesSubset(lines: Lines, lineId: LineId, catalog: Catalog)
    requires forall i :: i in lines ==> i in catalog
    ensures forall i :: i in RemovedLines(lines, lineId, catalog) ==> i in lines
  {
  }

  /** Row ids are unique, so removing by a line's row id decrements that line. */
  lemma RemovedLinesOf(lines: Lines, nextLine: LineId, item: ItemId, catalog: Catalog)
    requires WellFormed(lines, nextLine) && item in lines
    requires forall i :: i in lines ==> i in catalog
    ensures RemovedLines(lines, lines[item].id, catalog) == Decremented(lines, item, catalog[item].price)
  {
    var i :| i in lines && lines[i].id == lines[item].id && RemovedLines(lines, lines[item].id, catalog) == Decremented(lines, i, catalog[i].price);
    assert i == item;
  }

  /** The aggregate Sum(quantity * unit_price) over the order's lines. */
  method Aggregate(lines: Lines) returns (total: int)
    ensures total == Sum(lines)
  {
    total := 0;
    var rest := lines;
    while rest != map[]
      invariant total + Sum(rest) == Sum(lines)
      decreases |rest|
    {
      var k :| k in rest;
      SumRemove(rest, k);
      total := total + LineTotal(rest[k]);
      rest := rest - {k};
    }
  }

  /** What a request can change about an order. */
  datatype OrderState = OrderState(option: string, lines: Lines, nextLine: LineId, totalPrice: int)

  class Order {
    const customer: CustomerId
    const restaurant: RestaurantId
    var status: string
    var option: string
    var lines: Lines
    var nextLine: LineId
    var totalPrice: int

    /** The table is well formed and the stored total is its sum. */
    ghost predicate Valid()
      reads this
    {
      WellFormed(lines, nextLine) && totalPrice == Sum(lines)
    }

    function State(): OrderState
      reads this
    {
      OrderState(option, lines, nextLine, totalPrice)
    }

    /** A new order with no lines, total 0 and the default option `d`. */
    constructor (customer: CustomerId, restaurant: RestaurantId, status: string)
      ensures this.customer == customer && this.restaurant == restaurant && this.status == status
      ensures option == "d" && lines == map[] && nextLine == 1 && totalPrice == 0
      ensures Valid()
    {
      this.customer := customer;
      this.restaurant := restaurant;
      this.status := status;
      option := "d";
      lines := map[];
      nextLine := 1;
      totalPrice := 0;
    }

    /** Order.refresh_total_price: the total becomes the sum over the lines. */
    method RefreshTotalPrice()
      requires WellFormed(lines, nextLine)
      modifies this`totalPrice
      ensures totalPrice == Sum(lines) && Valid()
    {
      totalPrice := Aggregate(lines);
    }

    /** Order.add_item: get or create the item's line, raise its quantity,
        save it (copying the price), then refresh the total. */
    method AddItem(item: ItemId, catalog: Catalog)
      requires Valid()
      modifies this`lines, this`nextLine, this`totalPrice
      ensures lines == AddedLines(old(lines), old(nextLine), item, catalog, restaurant)
      ensures nextLine == AddedNext(old(lines), old(nextLine), item, catalog, restaurant)
      ensures !Sells(catalog, restaurant, item) ==> totalPrice == old(totalPrice)
      ensures Valid()
    {
      if Sells(catalog, restaurant, item) {
        AddItemEffect(lines, nextLine, item, catalog, restaurant);
        ghost var m := AddedLines(lines, nextLine, item, catalog, restaurant);
        ghost var n := AddedNext(lines, nextLine, item, catalog, restaurant);
        var line: Line;
        if item in lines {
          line := lines[item];
        } else {
          line := Line(nextLine, 0, catalog[item].price);
          nextLine := nextLine + 1;
        }
        line := line.(quantity := line.quantity + 1);
        line := line.(unitPrice := catalog[item].price);
        lines := lines[item := line];
        assert lines == m && nextLine == n;
        totalPrice := totalPrice + line.unitPrice;
        RefreshTotalPrice();
      }
    }

    /** Order.remove_item: find the order's line with this row id; lower its
        quantity, subtract its saved price, delete it below one or save it
        again, then refresh the total. An unknown row id changes nothing.
        Every line's item is in the catalog, as the foreign key guarantees. */
    method RemoveItem(lineId: LineId, catalog: Catalog)
      requires Valid()
      requires forall i :: i in lines ==> i in catalog
      modifies this`lines, this`totalPrice
      ensures lines == RemovedLines(old(lines), lineId, catalog)
      ensures lines == old(lines) ==> totalPrice == old(totalPrice)
      ensures Valid()
    {
      if i :| i in lines && lines[i].id == lineId {
        RemoveItemEffect(lines, nextLine, i, catalog[i].price);
        RemovedLinesOf(lines, nextLine, i, catalog);
        var line := lines[i];
        line := line.(quantity := line.quantity - 1);
        totalPrice := totalPrice - line.unitPrice;
        if line.quantity < 1 {
          lines := lines - {i};
        } else {
          line := line.(unitPrice := catalog[i].price);
          lines := lines[i := line];
        }
        RefreshTotalPrice();
      }
    }
  }

  /** The unit test's restaurant 7 sells items 1, 2 and 3 at 1000, 5000 and 4000. */
  function TestCatalog(): Catalog
  {
    map[1 := Item(1000, 7), 2 := Item(5000, 7), 3 := Item(4000, 7)]
  }

  /** A new order of restaurant 7 with items 1, 2 and 3 added once each. */
  method ThreeItemOrder() returns (o: Order)
    ensures fresh(o) && o.Valid() && o.restaurant == 7
    ensures o.lines == map[1 := Line(1, 1, 1000), 2 := Line(2, 1, 5000), 3 := Line(3, 1, 4000)]
    ensures o.nextLine == 4 && o.totalPrice == 10000
  {
    var catalog := TestCatalog();
    o := new Order(1, 7, "");
    o.AddItem(1, catalog);
    assert o.lines == map[1 := Line(1, 1, 1000)] && o.nextLine == 2;
    AddAtSavedPrice(o.lines, o.nextLine, 2, catalog, 7);
    o.AddItem(2, catalog);
    assert o.lines == map[1 := Line(1, 1, 1000), 2 := Line(2, 1, 5000)] && o.nextLine == 3;
    AddAtSavedPrice(o.lines, o.nextLine, 3, catalog, 7);
    o.AddItem(3, catalog);
    SumUpdate(map[], 1, Line(1, 1, 1000));
    assert map[1 := Line(1, 1, 1000)] == map[][1 := Line(1, 1, 1000)];
  }

  lemma RemovingFirstLine()
    ensures var three := map[1 := Line(1, 1, 1000), 2 := Line(2, 1, 5000), 3 := Line(3, 1, 4000)];
      && WellFormed(three, 4)
      && Decremented(three, 1, 1000) == map[2 := Line(2, 1, 5000), 3 := Line(3, 1, 4000)]
  {
    var three := map[1 := Line(1, 1, 1000), 2 := Line(2, 1, 5000), 3 := Line(3, 1, 4000)];
    assert Decremented(three, 1, 1000) == three - {1};
  }

  lemma SumOfTwoLines()
    ensures Sum(map[2 := Line(2, 1, 5000), 3 := Line(3, 1, 4000)]) == 9000
  {
    var two := map[2 := Line(2, 1, 5000), 3 := Line(3, 1, 4000)];
    SumRemove(two, 2);
    SumRemove(two - {2}, 3);
    assert two - {2} - {3} == map[];
  }

  lemma AfterReAdding()
    ensures var two := map[2 := Line(2, 1, 5000), 3 := Line(3, 1, 4000)];
      var changed := TestCatalog()[2 := Item(100, 7)];
      Sum(two) == 9000 ==> Sum(AddedLines(two, 4, 2, changed, 7)) == 4200
  {
    var two := map[2 := Line(2, 1, 5000), 3 := Line(3, 1, 4000)];
    var changed := TestCatalog()[2 := Item(100, 7)];
    assert WellFormed(two, 4);
    AddItemEffect(two, 4, 2, changed, 7);
  }

  /** The unit test's order: three items at 1000, 5000 and 4000 are added,
      then the first line is removed, leaving 9000. A later price change of
      an ordered item leaves the saved total alone; adding that item again
      saves its line at the new price. */
  method TotalPriceScenario() returns (total: int, afterPriceChange: int, afterReAdd: int)
    ensures total == 9000 && afterPriceChange == 9000 && afterReAdd == 4200
  {
    var o := ThreeItemOrder();
    var catalog := TestCatalog();
    RemovingFirstLine();
    SumOfTwoLines();
    AfterReAdding();
    RemovedLinesOf(o.lines, o.nextLine, 1, catalog);
    o.RemoveItem(1, catalog);
    total := o.totalPrice;
    var changed := catalog[2 := Item(100, 7)];
    afterPriceChange := o.totalPrice;
    o.AddItem(2, changed);
    afterReAdd := o.totalPrice;
  }
}
