/**
 * `normalizeColumns`: one raw record (an object of column name to cell value)
 * becomes a partial `{item, quantity, price}` by classifying each key, in
 * `Object.keys` order, on its lower-cased, trimmed text.
 */
module Columns {
  import opened Wrappers
  import opened JsText
  import opened JsValues
  import opened NumberParse
  import opened Records

  datatype Field = ItemField | QuantityField | PriceField | OtherField

  predicate NamesItem(low: string) {
    Contains(low, "item") || Contains(low, "name") || Contains(low, "desc")
  }

  predicate NamesQuantity(low: string) {
    Contains(low, "qty") || Contains(low, "quantity") || Contains(low, "count")
  }

  predicate NamesPrice(low: string) {
    Contains(low, "price") || Contains(low, "amount") || Contains(low, "cost")
  }

  /** The key as it is tested: `k.toLowerCase().trim()`. */
  function Lowered(key: string): string {
    Trim(ToLower(key))
  }

  /** The branch a key takes: item words first, then quantity words, then price words. */
  function Classify(key: string): (f: Field)
    ensures f == ItemField <==> NamesItem(Lowered(key))
    ensures f == QuantityField <==> !NamesItem(Lowered(key)) && NamesQuantity(Lowered(key))
    ensures f == PriceField <==> !NamesItem(Lowered(key)) && !NamesQuantity(Lowered(key)) && NamesPrice(Lowered(key))
  {
    var low := Lowered(key);
    if NamesItem(low) then ItemField
    else if NamesQuantity(low) then QuantityField
    else if NamesPrice(low) then PriceField
    else OtherField
  }

  /** `!normalized.price`: no price yet, a null one, or zero. */
  predicate PriceFalsy(p: Option<real>) {
    p.None? || p.value == 0.0
  }

  /** A field as the loop body sees it: the branch its key takes, its value and `maybeNumber` of the value. */
  datatype Cell = Cell(field: Field, value: JsValue, number: Option<real>)

  function CellOf(entry: (string, JsValue)): Cell {
    Cell(Classify(entry.0), entry.1, MaybeNumber(entry.1))
  }

  function CellsOf(fields: seq<(string, JsValue)>): (cells: seq<Cell>)
    ensures |cells| == |fields|
    ensures forall k :: 0 <= k < |fields| ==> cells[k] == CellOf(fields[k])
  {
    seq(|fields|, k requires 0 <= k < |fields| => CellOf(fields[k]))
  }

  /** One iteration of the loop over the keys. */
  function Step(n: Normalized, c: Cell): (r: Normalized)
    ensures r.item == (if c.field == ItemField then Some(c.value) else n.item)
    ensures r.quantity == (if c.field == QuantityField then c.number else n.quantity)
    ensures c.field == PriceField ==> r.price == c.number
    ensures c.field == OtherField ==> r.price == (if c.number.Some? && PriceFalsy(n.price) then c.number else n.price)
    ensures c.field == ItemField || c.field == QuantityField ==> r.price == n.price
  {
    match c.field
    case ItemField => n.(item := Some(c.value))
    case QuantityField => n.(quantity := c.number)
    case PriceField => n.(price := c.number)
    case OtherField => if c.number.Some? && PriceFalsy(n.price) then n.(price := c.number) else n
  }

  /** The record after the loop has gone through the cells in order. */
  function Fold(cells: seq<Cell>): (r: Normalized)
    ensures r.item.Some? ==> exists k :: 0 <= k < |cells| && cells[k].field == ItemField && r.item == Some(cells[k].value)
    ensures r.quantity.Some? ==> exists k :: 0 <= k < |cells| && cells[k].field == QuantityField && r.quantity == cells[k].number
    ensures r.price.Some? ==> exists k :: 0 <= k < |cells| && r.price == cells[k].number
  {
    if cells == [] then EmptyNormalized else Step(Fold(cells[..|cells| - 1]), cells[|cells| - 1])
  }

  /** What `normalizeColumns` returns for these fields. */
  function Normalize(fields: seq<(string, JsValue)>): (r: Normalized)
    ensures r.item.Some? ==> exists k :: 0 <= k < |fields| && Classify(fields[k].0) == ItemField && r.item == Some(fields[k].1)
    ensures r.quantity.Some? ==>
      exists k :: 0 <= k < |fields| && Classify(fields[k].0) == QuantityField && r.quantity == MaybeNumber(fields[k].1)
    ensures r.price.Some? ==> exists k :: 0 <= k < |fields| && r.price == MaybeNumber(fields[k].1)
  {
    Fold(CellsOf(fields))
  }

  /** `normalizeColumns(obj)`, with the client's `obj || {}` guard. */
  method NormalizeColumns(obj: JsValue) returns (normalized: Normalized)
    ensures normalized == Normalize(Entries(obj))
  {
    normalized := NormalizeFields(Entries(obj));
  }

  /** The loop of `normalizeColumns` over `Object.keys(obj)` and the values. */
  method NormalizeFields(fields: seq<(string, JsValue)>) returns (normalized: Normalized)
    ensures normalized == Normalize(fields)
  {
    ghost var cells := CellsOf(fields);
    normalized := EmptyNormalized;
    var i := 0;
    while i < |fields|
      invariant 0 <= i <= |fields|
      invariant normalized == Fold(cells[..i])
    {
      var (k, val) := fields[i];
      assert cells[..i + 1][..i] == cells[..i];
      assert cells[i] == CellOf(fields[i]);
      match Classify(k) {
        case ItemField =>
          normalized := normalized.(item := Some(val));
        case QuantityField =>
          normalized := normalized.(quantity := MaybeNumber(val));
        case PriceField =>
          normalized := normalized.(price := MaybeNumber(val));
        case OtherField =>
          var maybe := MaybeNumber(val);
          if maybe.Some? && PriceFalsy(normalized.price) {
            normalized := normalized.(price := maybe);
          }
      }
      i := i + 1;
    }
    assert cells[..i] == cells;
  }

  lemma {:induction false} PrefixOfPrefix<T>(s: seq<T>, i: nat)
    requires i < |s|
    ensures s[..i + 1][..i] == s[..i]
  {
  }

  lemma {:induction false} FoldItemLast(cells: seq<Cell>, j: nat)
    requires j < |cells| && cells[j].field == ItemField
    requires forall k :: j < k < |cells| ==> cells[k].field != ItemField
    ensures Fold(cells).item == Some(cells[j].value)
  {
    if j < |cells| - 1 {
      FoldItemLast(cells[..|cells| - 1], j);
    }
  }

  lemma {:induction false} FoldNoItem(cells: seq<Cell>)
    requires forall k :: 0 <= k < |cells| ==> cells[k].field != ItemField
    ensures Fold(cells).item == None
  {
    if cells != [] {
      FoldNoItem(cells[..|cells| - 1]);
    }
  }

  lemma {:induction false} FoldQuantityLast(cells: seq<Cell>, j: nat)
    requires j < |cells| && cells[j].field == QuantityField
    requires forall k :: j < k < |cells| ==> cells[k].field != QuantityField
    ensures Fold(cells).quantity == cells[j].number
  {
    if j < |cells| - 1 {
      FoldQuantityLast(cells[..|cells| - 1], j);
    }
  }

  lemma {:induction false} FoldNoQuantity(cells: seq<Cell>)
    requires forall k :: 0 <= k < |cells| ==> cells[k].field != QuantityField
    ensures Fold(cells).quantity == None
  {
    if cells != [] {
      FoldNoQuantity(cells[..|cells| - 1]);
    }
  }

  lemma {:induction false} FoldTruthyPriceStays(cells: seq<Cell>, i: nat)
    requires i <= |cells| && !PriceFalsy(Fold(cells[..i]).price)
    requires forall k :: i <= k < |cells| ==> cells[k].field != PriceField
    ensures Fold(cells).price == Fold(cells[..i]).price
  {
    if i < |cells| {
      var init := cells[..|cells| - 1];
      assert init[..i] == cells[..i];
      FoldTruthyPriceStays(init, i);
    } else {
      assert cells[..i] == cells;
    }
  }

  lemma {:induction false} FoldPriceFalsy(cells: seq<Cell>)
    requires forall k :: 0 <= k < |cells| ==> cells[k].field != PriceField
    requires forall k :: 0 <= k < |cells| && cells[k].field == OtherField ==> PriceFalsy(cells[k].number)
    ensures PriceFalsy(Fold(cells).price)
  {
    if cells != [] {
      FoldPriceFalsy(cells[..|cells| - 1]);
    }
  }

  lemma {:induction false} FoldExplicitPriceLast(cells: seq<Cell>, j: nat)
    requires j < |cells| && cells[j].field == PriceField
    requires cells[j].number.Some? && cells[j].number.value != 0.0
    requires forall k :: j < k < |cells| ==> cells[k].field != PriceField
    ensures Fold(cells).price == cells[j].number
  {
    PrefixOfPrefix(cells, j);
    FoldTruthyPriceStays(cells, j + 1);
  }

  lemma {:induction false} FoldFirstNonZero(cells: seq<Cell>, j: nat)
    requires forall k :: 0 <= k < |cells| ==> cells[k].field != PriceField
    requires j < |cells| && cells[j].field == OtherField
    requires cells[j].number.Some? && cells[j].number.value != 0.0
    requires forall k :: 0 <= k < j && cells[k].field == OtherField ==> PriceFalsy(cells[k].number)
    ensures Fold(cells).price == cells[j].number
  {
    FoldPriceFalsy(cells[..j]);
    PrefixOfPrefix(cells, j);
    FoldTruthyPriceStays(cells, j + 1);
  }

  /** The item is the value of the last item key. */
  lemma {:induction false} ItemIsLastItemKey(fields: seq<(string, JsValue)>, j: nat)
    requires j < |fields| && Classify(fields[j].0) == ItemField
    requires forall k :: j < k < |fields| ==> Classify(fields[k].0) != ItemField
    ensures Normalize(fields).item == Some(fields[j].1)
  {
    FoldItemLast(CellsOf(fields), j);
  }

  /** Without an item key there is no item. */
  lemma {:induction false} NoItemKey(fields: seq<(string, JsValue)>)
    requires forall k :: 0 <= k < |fields| ==> Classify(fields[k].0) != ItemField
    ensures Normalize(fields).item == None
  {
    FoldNoItem(CellsOf(fields));
  }

  /** The quantity is `maybeNumber` of the value of the last quantity key. */
  lemma {:induction false} QuantityIsLastQuantityKey(fields: seq<(string, JsValue)>, j: nat)
    requires j < |fields| && Classify(fields[j].0) == QuantityField
    requires forall k :: j < k < |fields| ==> Classify(fields[k].0) != QuantityField
    ensures Normalize(fields).quantity == MaybeNumber(fields[j].1)
  {
    FoldQuantityLast(CellsOf(fields), j);
  }

  /** Without a quantity key there is no quantity. */
  lemma {:induction false} NoQuantityKey(fields: seq<(string, JsValue)>)
    requires forall k :: 0 <= k < |fields| ==> Classify(fields[k].0) != QuantityField
    ensures Normalize(fields).quantity == None
  {
    FoldNoQuantity(CellsOf(fields));
  }

  /** The last explicit price key wins when its value is a non-zero number. */
  lemma {:induction false} LastExplicitPriceWins(fields: seq<(string, JsValue)>, j: nat)
    requires j < |fields| && Classify(fields[j].0) == PriceField
    requires MaybeNumber(fields[j].1).Some? && MaybeNumber(fields[j].1).value != 0.0
    requires forall k :: j < k < |fields| ==> Classify(fields[k].0) != PriceField
    ensures Normalize(fields).price == MaybeNumber(fields[j].1)
  {
    FoldExplicitPriceLast(CellsOf(fields), j);
  }

  /**
   * Without explicit price keys, the price is the first unclassified value that
   * is a non-zero number: a zero found earlier is overwritten.
   */
  lemma {:induction false} FirstNonZeroNumericIsPrice(fields: seq<(string, JsValue)>, j: nat)
    requires forall k :: 0 <= k < |fields| ==> Classify(fields[k].0) != PriceField
    requires j < |fields| && Classify(fields[j].0) == OtherField
    requires MaybeNumber(fields[j].1).Some? && MaybeNumber(fields[j].1).value != 0.0
    requires forall k :: 0 <= k < j && Classify(fields[k].0) == OtherField ==>
      PriceFalsy(MaybeNumber(fields[k].1))
    ensures Normalize(fields).price == MaybeNumber(fields[j].1)
  {
    var cells := CellsOf(fields);
    forall k | 0 <= k < j && cells[k].field == OtherField
      ensures PriceFalsy(cells[k].number)
    {
      assert cells[k] == CellOf(fields[k]);
    }
    FoldFirstNonZero(cells, j);
  }
}
