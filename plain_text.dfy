/**
 * `parsePlainText`, the free-text heuristic: per non-blank line, a comma
 * split with at least three parts is read positionally; otherwise the line
 * is split on white space and its digit-bearing tokens supply price and
 * quantity from the right.
 */
module PlainText {
  import opened Wrappers
  import opened JsText
  import opened JsValues
  import opened NumberParse
  import opened Records

  /** The trimmed, non-blank lines among `pieces`, in order. */
  function NonBlank(pieces: seq<string>): (ls: seq<string>)
    ensures |ls| <= |pieces|
  {
    if pieces == [] then []
    else
      var t := Trim(pieces[0]);
      (if t == [] then [] else [t]) + NonBlank(pieces[1..])
  }

  /**
   * `text.split(/\r?\n/).map(l => l.trim()).filter(Boolean)`. Splitting on
   * `\n` alone gives the same lines: a `\r` before a `\n` ends its piece and
   * `trim` removes it.
   */
  function Lines(text: string): (ls: seq<string>)
    ensures forall k :: 0 <= k < |ls| ==> ls[k] != [] && IsTrimmed(ls[k])
  {
    NonBlankTrimmed(Split(text, '\n'));
    NonBlank(Split(text, '\n'))
  }

  /** `line.split(",").map(p => p.trim())`. */
  function CommaParts(line: string): (parts: seq<string>)
    ensures |parts| == |Split(line, ',')|
  {
    var pieces := Split(line, ',');
    seq(|pieces|, k requires 0 <= k < |pieces| => Trim(pieces[k]))
  }

  /** `{ item: item || "(unknown)", quantity: maybeNumber(qtyRaw) ?? 1, price: maybeNumber(priceRaw) ?? 0 }`. */
  function CommaRow(parts: seq<string>): (r: Row)
    requires |parts| >= 3
    ensures r.item.JStr? && r.item.s != ""
  {
    Row(ItemOrUnknown(Some(JStr(parts[0]))), MaybeNumber(JStr(parts[1])).GetOr(1.0),
      MaybeNumber(JStr(parts[2])).GetOr(0.0))
  }

  /** `parts.filter(p => /[0-9]/.test(p))`. */
  function DigitTokens(parts: seq<string>): (ds: seq<string>)
    ensures |ds| <= |parts|
  {
    if parts == [] then []
    else
      var init, last := parts[..|parts| - 1], parts[|parts| - 1];
      DigitTokens(init) + if HasDigit(last) then [last] else []
  }

  /** `parts.filter(p => /[0-9]/.test(p)).map(p => maybeNumber(p))`. */
  function NumericTokens(parts: seq<string>): (nums: seq<Option<real>>)
    ensures |nums| == |DigitTokens(parts)|
  {
    var ds := DigitTokens(parts);
    seq(|ds|, k requires 0 <= k < |ds| => MaybeNumber(JStr(ds[k])))
  }

  /** The white-space reading of a line already split into tokens. */
  function WhitespaceRow(parts: seq<string>): Option<Row> {
    TokensRow(parts, NumericTokens(parts))
  }

  /** The white-space row built from the tokens and the numbers read from their digit-bearing ones. */
  function TokensRow(parts: seq<string>, nums: seq<Option<real>>): (o: Option<Row>)
    ensures o.Some? <==> |parts| >= 3 && |nums| >= 1
    ensures o.Some? ==> o.value.item.JStr? && o.value.item.s != ""
  {
    if |parts| >= 3 && |nums| >= 1 then
      var price := nums[|nums| - 1];
      var qty := if |nums| > 1 then nums[|nums| - 2] else Some(1.0);
      var item := Join(parts[..|parts| - (if price.Some? then 1 else 0)], " ");
      Some(Row(ItemOrUnknown(Some(JStr(item))), qty.GetOr(1.0), price.GetOr(0.0)))
    else None
  }

  /** What one trimmed, non-blank line contributes: at most one row. */
  function ParseLine(line: string): (o: Option<Row>)
    ensures ',' in line && |CommaParts(line)| >= 3 ==> o.Some?
    ensures o.Some? ==> o.value.item.JStr? && o.value.item.s != ""
  {
    if ',' in line && |CommaParts(line)| >= 3 then Some(CommaRow(CommaParts(line)))
    else WhitespaceRow(SplitWs(line))
  }

  /** What `parsePlainText(text)` returns. */
  function PlainRows(text: string): (rows: seq<Row>)
    ensures |rows| <= |Lines(text)|
  {
    Collect(Lines(text), ParseLine)
  }

  /** `parsePlainText(text)`, shared word for word by the server and the client. */
  method ParsePlainText(text: string) returns (out: seq<Row>)
    ensures out == PlainRows(text)
  {
    var lines := Lines(text);
    out := [];
    var i := 0;
    while i < |lines|
      invariant 0 <= i <= |lines|
      invariant out == Collect(lines[..i], ParseLine)
    {
      CollectSnoc(lines, ParseLine, i);
      var row := ParseLine(lines[i]);
      if row.Some? {
        out := out + [row.value];
      }
      i := i + 1;
    }
    assert lines[..i] == lines;
  }

  // Line structure

  /** Every line kept is trimmed and not empty. */
  lemma {:induction false} NonBlankTrimmed(pieces: seq<string>)
    ensures forall k :: 0 <= k < |NonBlank(pieces)| ==> NonBlank(pieces)[k] != [] && IsTrimmed(NonBlank(pieces)[k])
  {
    if pieces != [] {
      var t := Trim(pieces[0]);
      var head := if t == [] then [] else [t];
      var rest := NonBlank(pieces[1..]);
      NonBlankTrimmed(pieces[1..]);
      assert NonBlank(pieces) == head + rest;
      forall k | 0 <= k < |head + rest|
        ensures (head + rest)[k] != [] && IsTrimmed((head + rest)[k])
      {
        if k >= |head| {
          assert (head + rest)[k] == rest[k - |head|];
          assert rest[k - |head|] != [] && IsTrimmed(rest[k - |head|]);
        } else {
          assert (head + rest)[k] == t;
        }
      }
    }
  }

  lemma {:induction false} NonBlankAppend(a: seq<string>, b: seq<string>)
    ensures NonBlank(a + b) == NonBlank(a) + NonBlank(b)
  {
    if a == [] {
      assert a + b == b;
    } else {
      assert (a + b)[0] == a[0];
      assert (a + b)[1..] == a[1..] + b;
      NonBlankAppend(a[1..], b);
      var t := Trim(a[0]);
      var head := if t == [] then [] else [t];
      calc {
        NonBlank(a + b);
        head + NonBlank(a[1..] + b);
        head + (NonBlank(a[1..]) + NonBlank(b));
        (head + NonBlank(a[1..])) + NonBlank(b);
        NonBlank(a) + NonBlank(b);
      }
    }
  }

  /** The lines of two texts joined by a newline are the lines of each. */
  lemma {:induction false} LinesAppend(a: string, b: string)
    ensures Lines(a + "\n" + b) == Lines(a) + Lines(b)
  {
    SplitAppend(a, b, '\n');
    NonBlankAppend(Split(a, '\n'), Split(b, '\n'));
  }

  /** The text is read line by line: the rows of two texts joined by a newline are the rows of each. */
  lemma {:induction false} PlainRowsAppend(a: string, b: string)
    ensures PlainRows(a + "\n" + b) == PlainRows(a) + PlainRows(b)
  {
    LinesAppend(a, b);
    CollectAppend(Lines(a), Lines(b), ParseLine);
  }

  /** A line holding only white space yields nothing. */
  lemma {:induction false} BlankLineNoLines(s: string)
    requires '\n' !in s
    requires forall k :: 0 <= k < |s| ==> IsSpace(s[k])
    ensures Lines(s) == []
  {
    TrimIsSlice(s);
    assert Split(s, '\n') == [s];
  }

  /** Inserting a blank line between two parts of a text leaves its lines as they were. */
  lemma {:induction false} BlankLineDropped(a: string, blank: string, b: string)
    requires '\n' !in blank
    requires forall k :: 0 <= k < |blank| ==> IsSpace(blank[k])
    ensures Lines(a + "\n" + blank + "\n" + b) == Lines(a + "\n" + b)
  {
    var rest := blank + "\n" + b;
    assert a + "\n" + blank + "\n" + b == a + "\n" + rest;
    BlankLineNoLines(blank);
    LinesAppend(blank, b);
    assert Lines(rest) == Lines(b);
    LinesAppend(a, rest);
    LinesAppend(a, b);
  }

  /** Inserting a blank line between two parts of a text changes nothing. */
  lemma {:induction false} BlankLineIgnored(a: string, blank: string, b: string)
    requires '\n' !in blank
    requires forall k :: 0 <= k < |blank| ==> IsSpace(blank[k])
    ensures PlainRows(a + "\n" + blank + "\n" + b) == PlainRows(a + "\n" + b)
  {
    BlankLineDropped(a, blank, b);
  }

  /** `text || "(unknown)"` is a non-empty string. */
  lemma {:induction false} ItemText(text: string)
    ensures ItemOrUnknown(Some(JStr(text))).JStr? && ItemOrUnknown(Some(JStr(text))).s != ""
  {
  }

  /** Every row comes from one non-blank line and has a non-empty text item. */
  lemma {:induction false} RowsComeFromLines(text: string, r: Row)
    requires r in PlainRows(text)
    ensures exists k :: 0 <= k < |Lines(text)| && ParseLine(Lines(text)[k]) == Some(r)
    ensures r.item.JStr? && r.item.s != ""
  {
    var lines := Lines(text);
    CollectMember(lines, ParseLine, r);
    var k :| 0 <= k < |lines| && ParseLine(lines[k]) == Some(r);
  }

  // The comma reading

  /** A line with a comma and at least three comma parts is read positionally; parts after the third are ignored. */
  lemma {:induction false} CommaLineIsPositional(line: string)
    requires ',' in line && |Split(line, ',')| >= 3
    ensures var ps := Split(line, ',');
      && ParseLine(line).Some?
      && ParseLine(line).value.item == (if Trim(ps[0]) != "" then JStr(Trim(ps[0])) else UnknownItem)
      && ParseLine(line).value.quantity == MaybeNumber(JStr(Trim(ps[1]))).GetOr(1.0)
      && ParseLine(line).value.price == MaybeNumber(JStr(Trim(ps[2]))).GetOr(0.0)
  {
    var ps := Split(line, ',');
    var parts := CommaParts(line);
    assert ParseLine(line) == Some(CommaRow(parts));
    assert parts[0] == Trim(ps[0]) && parts[1] == Trim(ps[1]) && parts[2] == Trim(ps[2]);
    CommaRowFields(parts);
  }

  lemma {:induction false} CommaRowFields(parts: seq<string>)
    requires |parts| >= 3
    ensures && CommaRow(parts).item == (if parts[0] != "" then JStr(parts[0]) else UnknownItem)
      && CommaRow(parts).quantity == MaybeNumber(JStr(parts[1])).GetOr(1.0)
      && CommaRow(parts).price == MaybeNumber(JStr(parts[2])).GetOr(0.0)
  {
  }

  // The white-space reading

  /** Tokens after the last digit-bearing one contribute nothing. */
  lemma {:induction false} DigitTokensPrefix(parts: seq<string>, m: nat)
    requires m <= |parts|
    requires forall k :: m <= k < |parts| ==> !HasDigit(parts[k])
    ensures DigitTokens(parts) == DigitTokens(parts[..m])
    decreases |parts|
  {
    if |parts| > m {
      var init := parts[..|parts| - 1];
      assert init[..m] == parts[..m];
      DigitTokensPrefix(init, m);
    } else {
      assert parts[..m] == parts;
    }
  }

  /** A digit-bearing token is kept. */
  lemma {:induction false} DigitTokensSnoc(parts: seq<string>, j: nat)
    requires j < |parts| && HasDigit(parts[j])
    ensures DigitTokens(parts[..j + 1]) == DigitTokens(parts[..j]) + [parts[j]]
  {
    assert parts[..j + 1][..j] == parts[..j];
  }

  lemma {:induction false} DigitTokensNonEmpty(parts: seq<string>, k: nat)
    requires k < |parts| && HasDigit(parts[k])
    ensures |DigitTokens(parts)| >= 1
    decreases |parts|
  {
    if k < |parts| - 1 {
      DigitTokensNonEmpty(parts[..|parts| - 1], k);
    }
  }

  /** The last digit-bearing token is `parts[j]`. */
  lemma {:induction false} LastDigitToken(parts: seq<string>, j: nat)
    requires j < |parts| && HasDigit(parts[j])
    requires forall k :: j < k < |parts| ==> !HasDigit(parts[k])
    ensures var ds := DigitTokens(parts); |ds| >= 1 && ds[|ds| - 1] == parts[j]
  {
    DigitTokensPrefix(parts, j + 1);
    DigitTokensSnoc(parts, j);
  }

  /** The white-space reading yields a row exactly when there are three tokens and one of them has a digit. */
  lemma {:induction false} WhitespaceRowExists(parts: seq<string>)
    ensures WhitespaceRow(parts).Some? <==>
      |parts| >= 3 && exists k :: 0 <= k < |parts| && HasDigit(parts[k])
  {
    if exists k :: 0 <= k < |parts| && HasDigit(parts[k]) {
      var k :| 0 <= k < |parts| && HasDigit(parts[k]);
      DigitTokensNonEmpty(parts, k);
    } else {
      DigitTokensPrefix(parts, 0);
    }
  }

  /** The last number is that of the last digit-bearing token. */
  lemma {:induction false} LastNumber(parts: seq<string>, j: nat)
    requires j < |parts| && HasDigit(parts[j])
    requires forall k :: j < k < |parts| ==> !HasDigit(parts[k])
    ensures var nums := NumericTokens(parts); |nums| >= 1 && nums[|nums| - 1] == MaybeNumber(JStr(parts[j]))
  {
    var ds := DigitTokens(parts);
    assert |ds| >= 1 && ds[|ds| - 1] == parts[j] by {
      LastDigitToken(parts, j);
    }
    NumericTokenAt(parts, |ds| - 1);
  }

  /** The `k`-th number is that of the `k`-th digit-bearing token. */
  lemma {:induction false} NumericTokenAt(parts: seq<string>, k: nat)
    requires k < |DigitTokens(parts)|
    ensures NumericTokens(parts)[k] == MaybeNumber(JStr(DigitTokens(parts)[k]))
  {
  }

  /** The second-last number is that of the second-last digit-bearing token. */
  lemma {:induction false} SecondLastNumber(parts: seq<string>, i: nat, j: nat)
    requires i < j < |parts| && HasDigit(parts[i]) && HasDigit(parts[j])
    requires forall k :: i < k < |parts| && k != j ==> !HasDigit(parts[k])
    ensures var nums := NumericTokens(parts); |nums| >= 2 && nums[|nums| - 2] == MaybeNumber(JStr(parts[i]))
  {
    DigitTokensPrefix(parts, j + 1);
    DigitTokensSnoc(parts, j);
    LastDigitToken(parts[..j], i);
    var ds := DigitTokens(parts);
    assert ds[|ds| - 2] == parts[i];
  }

  /** The price is the number of the last digit-bearing token (0 when it does not parse). */
  lemma {:induction false} WhitespacePriceIsLastNumber(parts: seq<string>, j: nat)
    requires |parts| >= 3 && j < |parts| && HasDigit(parts[j])
    requires forall k :: j < k < |parts| ==> !HasDigit(parts[k])
    ensures WhitespaceRow(parts).Some?
    ensures WhitespaceRow(parts).value.price == MaybeNumber(JStr(parts[j])).GetOr(0.0)
  {
    var nums := NumericTokens(parts);
    assert |nums| >= 1 && nums[|nums| - 1] == MaybeNumber(JStr(parts[j])) by {
      LastNumber(parts, j);
    }
    TokensRowNumbers(parts, nums);
  }

  /** The quantity is the number of the second-last digit-bearing token (1 when it does not parse). */
  lemma {:induction false} WhitespaceQuantityIsSecondLastNumber(parts: seq<string>, i: nat, j: nat)
    requires |parts| >= 3 && i < j < |parts| && HasDigit(parts[i]) && HasDigit(parts[j])
    requires forall k :: i < k < |parts| && k != j ==> !HasDigit(parts[k])
    ensures WhitespaceRow(parts).Some?
    ensures WhitespaceRow(parts).value.quantity == MaybeNumber(JStr(parts[i])).GetOr(1.0)
  {
    var nums := NumericTokens(parts);
    assert |nums| >= 2 && nums[|nums| - 2] == MaybeNumber(JStr(parts[i])) by {
      SecondLastNumber(parts, i, j);
    }
    TokensRowNumbers(parts, nums);
  }

  /** The price of a white-space row is its last number (0 when it did not parse), the quantity the one before (1 when missing or unparsed). */
  lemma {:induction false} TokensRowNumbers(parts: seq<string>, nums: seq<Option<real>>)
    requires |parts| >= 3 && |nums| >= 1
    ensures && TokensRow(parts, nums).Some?
      && TokensRow(parts, nums).value.price == nums[|nums| - 1].GetOr(0.0)
      && TokensRow(parts, nums).value.quantity == (if |nums| > 1 then nums[|nums| - 2].GetOr(1.0) else 1.0)
  {
  }

  /** With a single digit-bearing token the quantity defaults to 1. */
  lemma {:induction false} WhitespaceSingleNumberQuantityOne(parts: seq<string>, j: nat)
    requires |parts| >= 3 && j < |parts| && HasDigit(parts[j])
    requires forall k :: 0 <= k < |parts| && k != j ==> !HasDigit(parts[k])
    ensures WhitespaceRow(parts).Some?
    ensures WhitespaceRow(parts).value.quantity == 1.0
  {
    var nums := NumericTokens(parts);
    assert |nums| == 1 by {
      DigitTokensPrefix(parts, j + 1);
      DigitTokensSnoc(parts, j);
      DigitTokensPrefix(parts[..j], 0);
    }
    TokensRowNumbers(parts, nums);
  }

  /**
   * When the price parses, the item is every token but the last, joined by
   * spaces: the last token is dropped whether or not it held the price.
   */
  lemma {:induction false} WhitespaceItemDropsLastToken(parts: seq<string>, j: nat)
    requires |parts| >= 3 && j < |parts| && HasDigit(parts[j])
    requires forall k :: j < k < |parts| ==> !HasDigit(parts[k])
    requires MaybeNumber(JStr(parts[j])).Some?
    ensures WhitespaceRow(parts).Some?
    ensures WhitespaceRow(parts).value.item == ItemOrUnknown(Some(JStr(Join(parts[..|parts| - 1], " "))))
  {
    var nums := NumericTokens(parts);
    assert |nums| >= 1 && nums[|nums| - 1].Some? by {
      LastNumber(parts, j);
    }
    WhitespaceItem(parts, nums);
  }

  /** The item of a white-space row: the tokens, less the last one when the price parsed. */
  lemma {:induction false} WhitespaceItem(parts: seq<string>, nums: seq<Option<real>>)
    requires |parts| >= 3 && |nums| >= 1
    ensures && TokensRow(parts, nums).Some?
      && (nums[|nums| - 1].Some? ==> TokensRow(parts, nums).value.item == ItemOrUnknown(Some(JStr(Join(parts[..|parts| - 1], " ")))))
      && (nums[|nums| - 1].None? ==> TokensRow(parts, nums).value.item == ItemOrUnknown(Some(JStr(Join(parts, " ")))))
  {
    assert parts[..|parts| - 0] == parts;
  }

  /** When the price does not parse, the item is every token joined by spaces. */
  lemma {:induction false} WhitespaceItemKeepsTokens(parts: seq<string>, j: nat)
    requires |parts| >= 3 && j < |parts| && HasDigit(parts[j])
    requires forall k :: j < k < |parts| ==> !HasDigit(parts[k])
    requires MaybeNumber(JStr(parts[j])).None?
    ensures WhitespaceRow(parts).Some?
    ensures WhitespaceRow(parts).value.item == ItemOrUnknown(Some(JStr(Join(parts, " "))))
  {
    var nums := NumericTokens(parts);
    assert |nums| >= 1 && nums[|nums| - 1].None? by {
      LastNumber(parts, j);
    }
    WhitespaceItem(parts, nums);
  }
}
