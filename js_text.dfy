/**
 * The JavaScript string operations the ingestion code relies on: `trim`,
 * `toLowerCase`, `includes`, `startsWith`/`endsWith`, `split` on a character,
 * `split(/\s+/)`, `join`, the `/[0-9]/` test, `replace(/[$,]/g, "")` and the
 * decimal rendering of a non-negative integer.
 */
module JsText {

  /** JavaScript's WhiteSpace and LineTerminator characters: what `trim` removes and `\s` matches. */
  predicate IsSpace(c: char) {
    c == ' ' || c == '\t' || c == '\n' || c == '\r' || c == '\U{000B}' || c == '\U{000C}'
    || c == '\U{00A0}' || c == '\U{1680}' || ('\U{2000}' <= c <= '\U{200A}')
    || c == '\U{2028}' || c == '\U{2029}' || c == '\U{202F}' || c == '\U{205F}'
    || c == '\U{3000}' || c == '\U{FEFF}'
  }

  predicate IsDigit(c: char) {
    '0' <= c <= '9'
  }

  /** No white space at either end. */
  predicate IsTrimmed(s: string) {
    s == [] || (!IsSpace(s[0]) && !IsSpace(s[|s| - 1]))
  }

  /** The first index at or after `i` that is not white space, or `|s|`. */
  function SkipSpaces(s: string, i: nat): (j: nat)
    requires i <= |s|
    ensures i <= j <= |s|
    ensures j < |s| ==> !IsSpace(s[j])
    decreases |s| - i
  {
    if i < |s| && IsSpace(s[i]) then SkipSpaces(s, i + 1) else i
  }

  /** Only white space is skipped. */
  lemma {:induction false} SkipSpacesSkipsSpaces(s: string, i: nat)
    requires i <= |s|
    ensures forall k :: i <= k < SkipSpaces(s, i) ==> IsSpace(s[k])
    decreases |s| - i
  {
    if i < |s| && IsSpace(s[i]) {
      SkipSpacesSkipsSpaces(s, i + 1);
    }
  }

  /** Going back from `j`, the end of the last character that is not white space, not below `lo`. */
  function SkipSpacesBack(s: string, lo: nat, j: nat): (e: nat)
    requires lo <= j <= |s|
    ensures lo <= e <= j
    ensures e > lo ==> !IsSpace(s[e - 1])
    decreases j
  {
    if j > lo && IsSpace(s[j - 1]) then SkipSpacesBack(s, lo, j - 1) else j
  }

  lemma {:induction false} SkipSpacesBackSkipsSpaces(s: string, lo: nat, j: nat)
    requires lo <= j <= |s|
    ensures forall k :: SkipSpacesBack(s, lo, j) <= k < j ==> IsSpace(s[k])
    decreases j
  {
    if j > lo && IsSpace(s[j - 1]) {
      SkipSpacesBackSkipsSpaces(s, lo, j - 1);
    }
  }

  /** `s.trim()`: the slice of `s` between its leading and its trailing white space. */
  function Trim(s: string): (r: string)
    ensures IsTrimmed(r)
  {
    var i := SkipSpaces(s, 0);
    s[i..SkipSpacesBack(s, i, |s|)]
  }

  /** `s.trim()` removes white space only, and only at the two ends. */
  lemma {:induction false} TrimIsSlice(s: string)
    ensures var i := SkipSpaces(s, 0); var e := SkipSpacesBack(s, i, |s|);
      && Trim(s) == s[i..e]
      && (forall k :: 0 <= k < i ==> IsSpace(s[k]))
      && (forall k :: e <= k < |s| ==> IsSpace(s[k]))
  {
    var i := SkipSpaces(s, 0);
    SkipSpacesSkipsSpaces(s, 0);
    SkipSpacesBackSkipsSpaces(s, i, |s|);
  }

  lemma {:induction false} TrimOfTrimmed(s: string)
    requires IsTrimmed(s)
    ensures Trim(s) == s
  {
    assert SkipSpaces(s, 0) == 0;
    assert SkipSpacesBack(s, 0, |s|) == |s|;
  }

  /** `s.toLowerCase()` on the ASCII letters. */
  function ToLower(s: string): (r: string)
    ensures |r| == |s|
    ensures forall k :: 0 <= k < |s| ==>
      r[k] == if 'A' <= s[k] <= 'Z' then (s[k] as int + 32) as char else s[k]
  {
    if s == [] then [] else
      var c := s[0];
      [if 'A' <= c <= 'Z' then (c as int + 32) as char else c] + ToLower(s[1..])
  }

  /** `s.includes(sub)`. */
  predicate Contains(s: string, sub: string) {
    exists i :: 0 <= i <= |s| && OccursAt(s, sub, i)
  }

  /** `sub` occurs in `s` starting at index `i`. */
  predicate OccursAt(s: string, sub: string, i: int) {
    0 <= i && i + |sub| <= |s| && s[i..i + |sub|] == sub
  }

  predicate StartsWith(s: string, prefix: string) {
    |prefix| <= |s| && s[..|prefix|] == prefix
  }

  predicate EndsWith(s: string, suffix: string) {
    |suffix| <= |s| && s[|s| - |suffix|..] == suffix
  }

  /** `/[0-9]/.test(s)`. */
  predicate HasDigit(s: string) {
    exists k :: 0 <= k < |s| && IsDigit(s[k])
  }

  /** `s.replace(/[$,]/g, "")`. */
  function StripCurrency(s: string): (r: string)
    ensures '$' !in r && ',' !in r
    ensures |r| <= |s|
  {
    if s == [] then []
    else if s[0] == '$' || s[0] == ',' then StripCurrency(s[1..])
    else [s[0]] + StripCurrency(s[1..])
  }

  lemma {:induction false} StripCurrencyAppend(a: string, b: string)
    ensures StripCurrency(a + b) == StripCurrency(a) + StripCurrency(b)
  {
    if a == [] {
      assert a + b == b;
    } else {
      assert (a + b)[1..] == a[1..] + b;
      StripCurrencyAppend(a[1..], b);
    }
  }

  /** A removed character makes no difference wherever it stands. */
  lemma {:induction false} StripCurrencyDrops(a: string, b: string, c: char)
    requires c == '$' || c == ','
    ensures StripCurrency(a + [c] + b) == StripCurrency(a + b)
  {
    StripCurrencyAppend(a + [c], b);
    StripCurrencyAppend(a, [c]);
    StripCurrencyAppend(a, b);
  }

  lemma {:induction false} StripCurrencyKeeps(s: string)
    requires '$' !in s && ',' !in s
    ensures StripCurrency(s) == s
  {
    if s != [] {
      StripCurrencyKeeps(s[1..]);
    }
  }

  function IndexOf(s: string, c: char): (i: nat)
    requires c in s
    ensures i < |s| && s[i] == c && c !in s[..i]
  {
    if s[0] == c then 0 else 1 + IndexOf(s[1..], c)
  }

  /** `s.split(sep)` for a one-character separator: the pieces between separators, at least one. */
  function Split(s: string, sep: char): (parts: seq<string>)
    ensures |parts| >= 1
    decreases |s|
  {
    if sep !in s then [s]
    else
      var i := IndexOf(s, sep);
      [s[..i]] + Split(s[i + 1..], sep)
  }

  /** `parts.join(sep)`. */
  function Join(parts: seq<string>, sep: string): string {
    if |parts| == 0 then ""
    else if |parts| == 1 then parts[0]
    else parts[0] + sep + Join(parts[1..], sep)
  }

  /** No piece holds the separator. */
  lemma {:induction false} SplitPiecesFree(s: string, sep: char)
    ensures forall k :: 0 <= k < |Split(s, sep)| ==> sep !in Split(s, sep)[k]
    decreases |s|
  {
    if sep in s {
      var i := IndexOf(s, sep);
      SplitPiecesFree(s[i + 1..], sep);
      assert Split(s, sep) == [s[..i]] + Split(s[i + 1..], sep);
    }
  }

  /** Joining the pieces with the separator gives the string back. */
  lemma {:induction false} JoinSplit(s: string, sep: char)
    ensures Join(Split(s, sep), [sep]) == s
    decreases |s|
  {
    if sep in s {
      var i := IndexOf(s, sep);
      var rest := Split(s[i + 1..], sep);
      var parts := Split(s, sep);
      assert parts == [s[..i]] + rest;
      JoinSplit(s[i + 1..], sep);
      calc {
        Join(parts, [sep]);
        { assert parts[1..] == rest; }
        s[..i] + [sep] + Join(rest, [sep]);
        s[..i] + [sep] + s[i + 1..];
        s;
      }
    }
  }

  /** Splitting a join of separator-free pieces gives the pieces back. */
  lemma {:induction false} SplitJoin(parts: seq<string>, sep: char)
    requires |parts| >= 1
    requires forall k :: 0 <= k < |parts| ==> sep !in parts[k]
    ensures Split(Join(parts, [sep]), sep) == parts
  {
    if |parts| > 1 {
      var rest := Join(parts[1..], [sep]);
      var s := parts[0] + [sep] + rest;
      assert s[|parts[0]|] == sep;
      assert s[..|parts[0]|] == parts[0];
      assert IndexOf(s, sep) == |parts[0]|;
      assert s[|parts[0]| + 1..] == rest;
      SplitJoin(parts[1..], sep);
    }
  }

  /** The first occurrence is the one `IndexOf` finds. */
  lemma {:induction false} IndexOfFirst(s: string, c: char, i: nat)
    requires i < |s| && s[i] == c && c !in s[..i]
    ensures IndexOf(s, c) == i
  {
    if i > 0 {
      assert s[0] in s[..i];
      assert s[1..][..i - 1] == s[1..i];
      IndexOfFirst(s[1..], c, i - 1);
    }
  }

  /** Concatenation regroups freely. */
  lemma ConcatAssoc<T>(x: seq<T>, y: seq<T>, z: seq<T>)
    ensures x + (y + z) == (x + y) + z
  {
  }

  /** A string whose first separator is at `i` splits into `s[..i]` and the pieces after it. */
  lemma {:induction false} SplitAt(s: string, sep: char, i: nat)
    requires i < |s| && s[i] == sep && sep !in s[..i]
    ensures Split(s, sep) == [s[..i]] + Split(s[i + 1..], sep)
  {
    assert sep in s;
    IndexOfFirst(s, sep, i);
  }

  /** Splitting two strings joined by the separator splits each of them. */
  lemma {:induction false} SplitAppend(a: string, b: string, sep: char)
    ensures Split(a + [sep] + b, sep) == Split(a, sep) + Split(b, sep)
    decreases |a|
  {
    var s := a + [sep] + b;
    if sep !in a {
      assert s[..|a|] == a && s[|a|] == sep && s[|a| + 1..] == b;
      SplitAt(s, sep, |a|);
      assert Split(a, sep) == [a];
    } else {
      var i := IndexOf(a, sep);
      var tail := a[i + 1..];
      assert sep !in a[..i];
      assert s[..i] == a[..i] && s[i] == sep && s[i + 1..] == tail + [sep] + b;
      SplitAt(s, sep, i);
      SplitAt(a, sep, i);
      SplitAppend(tail, b, sep);
      assert Split(s, sep) == [a[..i]] + (Split(tail, sep) + Split(b, sep));
      assert Split(a, sep) == [a[..i]] + Split(tail, sep);
      ConcatAssoc([a[..i]], Split(tail, sep), Split(b, sep));
    }
  }

  predicate HasSpace(s: string) {
    exists k :: 0 <= k < |s| && IsSpace(s[k])
  }

  function FirstSpace(s: string): (i: nat)
    requires HasSpace(s)
    ensures i < |s| && IsSpace(s[i])
    ensures forall k :: 0 <= k < i ==> !IsSpace(s[k])
  {
    if IsSpace(s[0]) then 0 else
      assert HasSpace(s[1..]) by {
        var k :| 0 <= k < |s| && IsSpace(s[k]);
        assert s[1..][k - 1] == s[k];
      }
      1 + FirstSpace(s[1..])
  }

  /** `s.split(/\s+/)`: the pieces between maximal runs of white space. */
  function SplitWs(s: string): (parts: seq<string>)
    ensures |parts| >= 1
    ensures forall k :: 0 <= k < |parts| ==> !HasSpace(parts[k])
    decreases |s|
  {
    if !HasSpace(s) then [s]
    else
      var i := FirstSpace(s);
      var rest := s[SkipSpaces(s, i)..];
      [s[..i]] + SplitWs(rest)
  }

  /** A non-empty trimmed string splits into non-empty tokens. */
  lemma {:induction false} SplitWsTokensNonEmpty(s: string)
    requires s != [] && IsTrimmed(s)
    ensures forall k :: 0 <= k < |SplitWs(s)| ==> SplitWs(s)[k] != []
    decreases |s|
  {
    if HasSpace(s) {
      var i := FirstSpace(s);
      var j := SkipSpaces(s, i);
      var rest := s[j..];
      assert i > 0;
      SkipSpacesSkipsSpaces(s, i);
      assert j < |s|;
      assert rest[|rest| - 1] == s[|s| - 1];
      SplitWsTokensNonEmpty(rest);
      assert SplitWs(s) == [s[..i]] + SplitWs(rest);
    }
  }

  function DigitChar(d: nat): (c: char)
    requires d < 10
    ensures IsDigit(c)
  {
    ('0' as int + d) as char
  }

  function DigitValue(c: char): (d: nat)
    requires IsDigit(c)
    ensures d < 10
  {
    c as int - '0' as int
  }

  predicate AllDigits(s: string) {
    forall k :: 0 <= k < |s| ==> IsDigit(s[k])
  }

  /** The value of a string of decimal digits, most significant first. */
  function DigitsValue(s: string): nat
    requires AllDigits(s)
  {
    if s == [] then 0 else DigitsValue(s[..|s| - 1]) * 10 + DigitValue(s[|s| - 1])
  }

  /** `n.toString()` for a non-negative integer: decimal, no leading zero. */
  function NatToString(n: nat): (s: string)
    ensures s != [] && AllDigits(s)
    ensures |s| > 1 ==> s[0] != '0'
  {
    if n < 10 then [DigitChar(n)] else NatToString(n / 10) + [DigitChar(n % 10)]
  }

  /** Reading the decimal rendering back gives the number. */
  lemma {:induction false} NatToStringValue(n: nat)
    ensures DigitsValue(NatToString(n)) == n
  {
    if n >= 10 {
      var s := NatToString(n);
      NatToStringValue(n / 10);
      assert s[..|s| - 1] == NatToString(n / 10);
    }
  }
}
