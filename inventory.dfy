/**
 * The `inventario` table and the commands that change a product's row: `registrar_venta`
 * (src-tauri/src/main.rs:407-435), `registrar_compra` (438-459) and `actualizar_inventario`
 * (496-513), with the lookup `obtener_item_por_id` (84-99) they rely on. The table is a map
 * from `id` to the row. Opening the database and SQL errors other than a missing row are not
 * modelled.
 */
module Inventory {
  import opened Wrappers
  import opened RustText

  /** A row of `inventario` (`InventarioItem`). */
  datatype Item = Item(id: int, name: string, price: real, quantity: int)

  type Stock = map<int, Item>

  const QuantityNotPositive: string := "La cantidad debe ser mayor a 0"
  /** `format!("No se encontro el producto: {}", e)` for the "no rows" error of the lookup. */
  const ProductMissing: string := "No se encontro el producto: Query returned no rows"
  const StockShortPrefix: string := "Stock insuficiente. Disponible: "
  const RecordMissing: string := "No se encontro el registro para actualizar"

  /** Every row is stored under its own id. */
  ghost predicate KeyedById(stock: Stock) {
    forall id :: id in stock ==> stock[id].id == id
  }

  /** `obtener_item_por_id`. */
  function ItemById(stock: Stock, id: int): (r: Result<Item>)
    ensures r.Success? <==> id in stock
    ensures r.Success? ==> r.value == stock[id]
    ensures r.Failure? ==> r.error == ProductMissing
  {
    if id in stock then Success(stock[id]) else Failure(ProductMissing)
  }

  /**
   * `registrar_venta`: a positive quantity of an existing product, at most its stock, is taken
   * off; the answer is the row with its new quantity.
   */
  function Sell(stock: Stock, id: int, amount: int): (r: Result<Item>)
    ensures r.Success? <==> amount > 0 && id in stock && stock[id].quantity >= amount
    ensures r.Success? ==> r.value == stock[id].(quantity := stock[id].quantity - amount)
    ensures amount <= 0 ==> r == Failure(QuantityNotPositive)
    ensures amount > 0 && id !in stock ==> r == Failure(ProductMissing)
    ensures amount > 0 && id in stock && stock[id].quantity < amount ==>
              r == Failure(StockShortPrefix + IntToString(stock[id].quantity))
  {
    if amount <= 0 then Failure(QuantityNotPositive)
    else
      match ItemById(stock, id)
      case Failure(e) => Failure(e)
      case Success(item) =>
        if item.quantity < amount then Failure(StockShortPrefix + IntToString(item.quantity))
        else Success(item.(quantity := item.quantity - amount))
  }

  /** `registrar_compra`: a positive quantity of an existing product is added to its stock. */
  function Buy(stock: Stock, id: int, amount: int): (r: Result<Item>)
    ensures r.Success? <==> amount > 0 && id in stock
    ensures r.Success? ==> r.value == stock[id].(quantity := stock[id].quantity + amount)
    ensures amount <= 0 ==> r == Failure(QuantityNotPositive)
    ensures amount > 0 && id !in stock ==> r == Failure(ProductMissing)
  {
    if amount <= 0 then Failure(QuantityNotPositive)
    else
      match ItemById(stock, id)
      case Failure(e) => Failure(e)
      case Success(item) => Success(item.(quantity := item.quantity + amount))
  }

  /** The table after a command that answers with a row: that row is written back. */
  function Store(stock: Stock, r: Result<Item>): (s: Stock)
    ensures r.Failure? ==> s == stock
    ensures r.Success? ==> s == stock[r.value.id := r.value]
  {
    if r.Success? then stock[r.value.id := r.value] else stock
  }

  /** A sale changes the quantity of the sold product only, by exactly the amount sold. */
  lemma SaleChangesOneQuantity(stock: Stock, id: int, amount: int)
    requires KeyedById(stock)
    requires Sell(stock, id, amount).Success?
    ensures var after := Store(stock, Sell(stock, id, amount));
      && after.Keys == stock.Keys && KeyedById(after)
      && after[id].quantity == stock[id].quantity - amount
      && after[id].name == stock[id].name && after[id].price == stock[id].price
      && forall other :: other in stock && other != id ==> after[other] == stock[other]
  {
  }

  /** Selling and then buying back the same amount restores the table. */
  lemma SellThenBuyRestores(stock: Stock, id: int, amount: int)
    requires KeyedById(stock)
    requires Sell(stock, id, amount).Success?
    ensures var after := Store(stock, Sell(stock, id, amount));
      Store(after, Buy(after, id, amount)) == stock
  {
    var after := Store(stock, Sell(stock, id, amount));
    assert Buy(after, id, amount).value == stock[id];
    assert stock[id := stock[id]] == stock;
  }

  /**
   * Buying and then selling the same amount restores the table, provided the product's
   * quantity was not negative (otherwise the sale is refused).
   */
  lemma BuyThenSellRestores(stock: Stock, id: int, amount: int)
    requires KeyedById(stock)
    requires Buy(stock, id, amount).Success? && stock[id].quantity >= 0
    ensures var after := Store(stock, Buy(stock, id, amount));
      Sell(after, id, amount).Success? && Store(after, Sell(after, id, amount)) == stock
  {
    var after := Store(stock, Buy(stock, id, amount));
    assert Sell(after, id, amount).value == stock[id];
    assert stock[id := stock[id]] == stock;
  }

  /** No quantity is negative. */
  ghost predicate NoNegativeStock(stock: Stock) {
    forall id :: id in stock ==> stock[id].quantity >= 0
  }

  /** Sales and purchases never make a quantity negative; only a direct update can. */
  lemma StockStaysNonNegative(stock: Stock, id: int, amount: int)
    requires NoNegativeStock(stock) && KeyedById(stock)
    ensures NoNegativeStock(Store(stock, Sell(stock, id, amount)))
    ensures NoNegativeStock(Store(stock, Buy(stock, id, amount)))
  {
  }

  /**
   * `actualizar_inventario`: the row with the id gets the given name, price and quantity as
   * they are, with no check on them; no such row is an error.
   */
  function Update(stock: Stock, id: int, name: string, price: real, quantity: int): (r: (Outcome, Stock))
    ensures r.0 == Pass <==> id in stock
    ensures r.0 != Pass ==> r.0 == Fail(RecordMissing) && r.1 == stock
    ensures r.0 == Pass ==> r.1 == stock[id := Item(id, name, price, quantity)]
  {
    if id in stock then (Pass, stock[id := Item(id, name, price, quantity)]) else (Fail(RecordMissing), stock)
  }

  /** An update can set a negative quantity, which a later sale then refuses. */
  lemma UpdateAcceptsNegativeQuantity(stock: Stock, id: int, name: string, price: real)
    requires id in stock
    ensures var after := Update(stock, id, name, price, -3).1;
      && after[id].quantity == -3
      && Sell(after, id, 1) == Failure(StockShortPrefix + "-3")
  {
    assert IntToString(-3) == "-3";
  }

  /** The table as the backend holds it between commands. */
  class Inventory {
    var items: Stock

    ghost predicate Valid()
      reads this
    {
      KeyedById(items)
    }

    constructor(initial: Stock)
      requires KeyedById(initial)
      ensures Valid() && items == initial
    {
      items := initial;
    }

    /** `registrar_venta`: validate, look the product up, check the stock, write the new quantity. */
    method RegisterSale(id: int, amount: int) returns (r: Result<Item>)
      requires Valid()
      modifies this
      ensures Valid()
      ensures r == Sell(old(items), id, amount)
      ensures items == Store(old(items), r)
    {
      if amount <= 0 {
        return Failure(QuantityNotPositive);
      }
      if id !in items {
        return Failure(ProductMissing);
      }
      var item := items[id];
      if item.quantity < amount {
        return Failure(StockShortPrefix + IntToString(item.quantity));
      }
      var newQuantity := item.quantity - amount;
      items := items[id := item.(quantity := newQuantity)];
      r := Success(item.(quantity := newQuantity));
    }

    /** `registrar_compra`: validate, look the product up, write the new quantity. */
    method RegisterPurchase(id: int, amount: int) returns (r: Result<Item>)
      requires Valid()
      requires id in items && amount > 0 ==> items[id].quantity + amount <= I64Max
      modifies this
      ensures Valid()
      ensures r == Buy(old(items), id, amount)
      ensures items == Store(old(items), r)
    {
      if amount <= 0 {
        return Failure(QuantityNotPositive);
      }
      if id !in items {
        return Failure(ProductMissing);
      }
      var item := items[id];
      var newQuantity := item.quantity + amount;
      items := items[id := item.(quantity := newQuantity)];
      r := Success(item.(quantity := newQuantity));
    }

    /** `actualizar_inventario`: overwrite the row with the id, reporting when there is none. */
    method UpdateItem(id: int, name: string, price: real, quantity: int) returns (r: Outcome)
      requires Valid()
      modifies this
      ensures Valid()
      ensures (r, items) == Update(old(items), id, name, price, quantity)
    {
      if id !in items {
        return Fail(RecordMissing);
      }
      items := items[id := Item(id, name, price, quantity)];
      r := Pass;
    }
  }
}
