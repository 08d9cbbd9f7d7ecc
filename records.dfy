/** The line-item records the ingestion code produces and the metric consumes. */
module Records {
  import opened Wrappers
  import opened JsValues

  /** What `normalizeColumns` returns: each field is absent (or null) until a key sets it. */
  datatype Normalized = Normalized(item: Option<JsValue>, quantity: Option<real>, price: Option<real>)

  const EmptyNormalized := Normalized(None, None, None)

  /** A line item `{item, quantity, price}` as pushed onto an output list. */
  datatype Row = Row(item: JsValue, quantity: real, price: real)

  const UnknownItem := JStr("(unknown)")

  /** The client's `extractedData`: a row count, the rows kept for preview and, after OCR without rows, the recognised text. */
  datatype Extracted = Extracted(rows: nat, preview: seq<Row>, ocrText: Option<string>)

  /** `rows.slice(0, 200)`. */
  function Preview(rows: seq<Row>): (p: seq<Row>)
    ensures |p| == (if |rows| <= 200 then |rows| else 200) && p == rows[..|p|]
    ensures |rows| <= 200 ==> p == rows
  {
    if |rows| <= 200 then rows else rows[..200]
  }

  /** `n.item || "(unknown)"`. */
  function ItemOrUnknown(item: Option<JsValue>): (r: JsValue)
    ensures Truthy(r)
    ensures item.Some? && Truthy(item.value) ==> r == item.value
  {
    if item.Some? && Truthy(item.value) then item.value else UnknownItem
  }

  /** `{ item: n.item || "(unknown)", quantity: n.quantity ?? 1, price: n.price ?? 0 }`. */
  function WithDefaults(n: Normalized): (r: Row)
    ensures Truthy(r.item)
    ensures n.quantity.Some? ==> r.quantity == n.quantity.value
    ensures n.quantity.None? ==> r.quantity == 1.0
    ensures n.price.Some? ==> r.price == n.price.value
    ensures n.price.None? ==> r.price == 0.0
  {
    Row(ItemOrUnknown(n.item), n.quantity.GetOr(1.0), n.price.GetOr(0.0))
  }

  /** What `f` yields for each of `xs`, in order, skipping the ones it rejects: a loop that pushes onto `out`. */
  function Collect<T>(xs: seq<T>, f: T -> Option<Row>): (rows: seq<Row>)
    ensures |rows| <= |xs|
  {
    if xs == [] then []
    else
      var init, last := xs[..|xs| - 1], xs[|xs| - 1];
      Collect(init, f) + match f(last) { case Some(r) => [r] case None => [] }
  }

  /** One more step of the loop: the next input adds what `f` yields for it, if anything. */
  lemma {:induction false} CollectSnoc<T>(xs: seq<T>, f: T -> Option<Row>, i: nat)
    requires i < |xs|
    ensures Collect(xs[..i + 1], f) == Collect(xs[..i], f) + match f(xs[i]) { case Some(r) => [r] case None => [] }
  {
    assert xs[..i + 1][..i] == xs[..i];
  }

  lemma {:induction false} CollectAppend<T>(a: seq<T>, b: seq<T>, f: T -> Option<Row>)
    ensures Collect(a + b, f) == Collect(a, f) + Collect(b, f)
    decreases |b|
  {
    if b == [] {
      assert a + b == a;
    } else {
      var c := a + b;
      assert c[..|c| - 1] == a + b[..|b| - 1];
      CollectAppend(a, b[..|b| - 1], f);
    }
  }

  /** Every collected row is what `f` yields for one of the inputs. */
  lemma {:induction false} CollectMember<T>(xs: seq<T>, f: T -> Option<Row>, r: Row)
    requires r in Collect(xs, f)
    ensures exists k :: 0 <= k < |xs| && f(xs[k]) == Some(r)
    decreases |xs|
  {
    var init := xs[..|xs| - 1];
    if r in Collect(init, f) {
      CollectMember(init, f, r);
      var k :| 0 <= k < |init| && f(init[k]) == Some(r);
      assert xs[k] == init[k];
    } else {
      assert f(xs[|xs| - 1]) == Some(r);
    }
  }

  /** Nothing is collected exactly when `f` rejects every input. */
  lemma {:induction false} CollectEmpty<T>(xs: seq<T>, f: T -> Option<Row>)
    ensures Collect(xs, f) == [] <==> forall k :: 0 <= k < |xs| ==> f(xs[k]).None?
    decreases |xs|
  {
    if xs != [] {
      var init := xs[..|xs| - 1];
      CollectEmpty(init, f);
      if Collect(xs, f) == [] {
        assert Collect(init, f) == [];
        forall k | 0 <= k < |xs|
          ensures f(xs[k]).None?
        {
          if k < |init| {
            assert xs[k] == init[k];
          }
        }
      } else if forall k :: 0 <= k < |xs| ==> f(xs[k]).None? {
        forall k | 0 <= k < |init|
          ensures f(init[k]).None?
        {
          assert xs[k] == init[k];
        }
      }
    }
  }
}
