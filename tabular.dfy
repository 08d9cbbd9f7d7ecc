/**
 * The client's row steps over already-parsed tables: `parseCsvText` over the
 * rows a header-mode CSV parser produced, and the JSON branch of the upload
 * handler over the value `JSON.parse` produced. Both normalise each record,
 * drop the ones with nothing usable and fill in defaults, but with different
 * ideas of "nothing usable".
 */
module Tabular {
  import opened Wrappers
  import opened JsValues
  import opened Records
  import opened Columns

  /** What the CSV parser hands back: its error messages and its data rows. */
  datatype CsvParse = CsvParse(errors: seq<string>, data: seq<JsValue>)

  /** The CSV skip rule: quantity and price null and the item falsy. */
  predicate CsvDrops(n: Normalized) {
    n.quantity.None? && n.price.None? && !(n.item.Some? && Truthy(n.item.value))
  }

  /** The JSON skip rule: item, quantity and price all null or undefined. */
  predicate JsonDrops(n: Normalized) {
    (n.item.None? || IsNullish(n.item.value)) && n.quantity.None? && n.price.None?
  }

  /** What one CSV data row contributes. */
  function CsvRecord(r: JsValue): (o: Option<Row>)
    ensures o.None? <==> CsvDrops(Normalize(Entries(r)))
    ensures o.Some? ==> Truthy(o.value.item)
  {
    var n := Normalize(Entries(r));
    if CsvDrops(n) then None else Some(WithDefaults(n))
  }

  /** What one element of the JSON array contributes: only `typeof "object"` values (null included) are read. */
  function JsonRecord(v: JsValue): (o: Option<Row>)
    ensures !IsObjectType(v) ==> o.None?
    ensures o.Some? ==> Truthy(o.value.item)
  {
    if !IsObjectType(v) then None
    else
      var n := Normalize(Entries(v));
      if JsonDrops(n) then None else Some(WithDefaults(n))
  }

  /** `Array.isArray(json) ? json : [json]`. */
  function JsonElements(json: JsValue): (arr: seq<JsValue>)
    ensures json.JArr? ==> arr == json.elems
    ensures !json.JArr? ==> arr == [json]
  {
    if json.JArr? then json.elems else [json]
  }

  /** What `parseCsvText` returns or throws, for the parser's result. */
  function CsvRows(parsed: CsvParse): (r: Result<seq<Row>, string>)
    ensures r.Failure? <==> |parsed.errors| > 0
    ensures r.Success? ==> |r.value| <= |parsed.data|
  {
    if |parsed.errors| > 0 then Failure("CSV parse error: " + parsed.errors[0])
    else Success(Collect(parsed.data, CsvRecord))
  }

  /** The rows the JSON branch collects from a parsed value. */
  function JsonRows(json: JsValue): (rows: seq<Row>)
    ensures |rows| <= |JsonElements(json)|
  {
    Collect(JsonElements(json), JsonRecord)
  }

  /** `parseCsvText`: the first parser error aborts; otherwise the loop over the data rows. */
  method ParseCsvText(parsed: CsvParse) returns (result: Result<seq<Row>, string>)
    ensures result == CsvRows(parsed)
  {
    if |parsed.errors| > 0 {
      return Failure("CSV parse error: " + parsed.errors[0]);
    }
    var data := parsed.data;
    var out: seq<Row> := [];
    var i := 0;
    while i < |data|
      invariant 0 <= i <= |data|
      invariant out == Collect(data[..i], CsvRecord)
    {
      CollectSnoc(data, CsvRecord, i);
      var n := NormalizeColumns(data[i]);
      assert CsvRecord(data[i]) == if CsvDrops(n) then None else Some(WithDefaults(n));
      if !CsvDrops(n) {
        out := out + [WithDefaults(n)];
      }
      i := i + 1;
    }
    assert data[..i] == data;
    return Success(out);
  }

  /** The loop of the JSON branch of `handleFileUpload`. */
  method ParseJsonRows(json: JsValue) returns (rows: seq<Row>)
    ensures rows == JsonRows(json)
  {
    var arr := if json.JArr? then json.elems else [json];
    rows := [];
    var i := 0;
    while i < |arr|
      invariant 0 <= i <= |arr|
      invariant rows == Collect(arr[..i], JsonRecord)
    {
      CollectSnoc(arr, JsonRecord, i);
      var obj := arr[i];
      if IsObjectType(obj) {
        var n := NormalizeColumns(obj);
        if !JsonDrops(n) {
          rows := rows + [WithDefaults(n)];
        }
      }
      i := i + 1;
    }
    assert arr[..i] == arr;
  }

  /** A parser error aborts whatever the data: the message is that of the first error. */
  lemma {:induction false} CsvErrorAborts(parsed: CsvParse)
    ensures CsvRows(parsed).Failure? <==> |parsed.errors| > 0
    ensures |parsed.errors| > 0 ==> CsvRows(parsed).error == "CSV parse error: " + parsed.errors[0]
  {
  }

  /** Every CSV row is a kept data row with its defaults filled in. */
  lemma {:induction false} CsvRowsFromRecords(parsed: CsvParse, r: Row)
    requires CsvRows(parsed).Success? && r in CsvRows(parsed).value
    ensures exists k :: (0 <= k < |parsed.data| &&
      !CsvDrops(Normalize(Entries(parsed.data[k]))) && r == WithDefaults(Normalize(Entries(parsed.data[k]))))
    ensures Truthy(r.item)
  {
    CollectMember(parsed.data, CsvRecord, r);
    var k :| 0 <= k < |parsed.data| && CsvRecord(parsed.data[k]) == Some(r);
  }

  /** The CSV yields no rows exactly when every data row is dropped. */
  lemma {:induction false} CsvEmptyIffAllDropped(parsed: CsvParse)
    requires |parsed.errors| == 0
    ensures CsvRows(parsed).value == [] <==>
      forall k :: 0 <= k < |parsed.data| ==> CsvDrops(Normalize(Entries(parsed.data[k])))
  {
    CollectEmpty(parsed.data, CsvRecord);
    assert forall k :: 0 <= k < |parsed.data| ==>
      (CsvRecord(parsed.data[k]).None? <==> CsvDrops(Normalize(Entries(parsed.data[k]))));
  }

  /** Every JSON row is a kept object element with its defaults filled in. */
  lemma {:induction false} JsonRowsFromElements(json: JsValue, r: Row)
    requires r in JsonRows(json)
    ensures exists k :: (0 <= k < |JsonElements(json)| && IsObjectType(JsonElements(json)[k]) &&
      var n := Normalize(Entries(JsonElements(json)[k])); !JsonDrops(n) && r == WithDefaults(n))
    ensures Truthy(r.item)
  {
    var arr := JsonElements(json);
    CollectMember(arr, JsonRecord, r);
    var k :| 0 <= k < |arr| && JsonRecord(arr[k]) == Some(r);
  }

  /** The JSON yields no rows exactly when every element is skipped. */
  lemma {:induction false} JsonEmptyIffAllSkipped(json: JsValue)
    ensures JsonRows(json) == [] <==>
      forall k :: 0 <= k < |JsonElements(json)| ==>
        !IsObjectType(JsonElements(json)[k]) || JsonDrops(Normalize(Entries(JsonElements(json)[k])))
  {
    var arr := JsonElements(json);
    CollectEmpty(arr, JsonRecord);
    assert forall k :: 0 <= k < |arr| ==>
      (JsonRecord(arr[k]).None? <==> !IsObjectType(arr[k]) || JsonDrops(Normalize(Entries(arr[k]))));
  }

  /** A `null` element passes the object test but has no fields, so it is skipped too. */
  lemma {:induction false} NullElementSkipped()
    ensures JsonRecord(JNull) == None
  {
    assert Entries(JNull) == [];
    assert Normalize([]) == EmptyNormalized;
  }

  /** Whatever the JSON rule drops, the CSV rule drops too... */
  lemma {:induction false} JsonDropIsCsvDrop(n: Normalized)
    requires JsonDrops(n)
    ensures CsvDrops(n)
  {
  }

  /** ...but not the other way round: a falsy, non-null item is enough for the JSON rule to keep a record. */
  lemma {:induction false} FalsyItemKeptByJsonOnly(item: JsValue)
    requires !Truthy(item) && !IsNullish(item)
    ensures var n := Normalized(Some(item), None, None);
      CsvDrops(n) && !JsonDrops(n) && WithDefaults(n) == Row(UnknownItem, 1.0, 0.0)
  {
  }
}
