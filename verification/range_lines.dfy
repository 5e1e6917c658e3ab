/**
 * `getFileRangeLines` of the utilities: picks the lines named by a range
 * such as `L3` or `L3-L8` out of a text. The range grammar
 * `^L(\d+)(?:-L(\d+))?$`, the line split on `\r\n` or `\n`, JavaScript's
 * `Array.prototype.slice` and the `\n` join are each modelled explicitly.
 */
module RangeLines {
  import opened Wrappers
  import opened JsText

  // ----- decimal digits (`\d+` and `parseInt(_, 10)`) ------------------------

  predicate AllDigits(s: string) {
    forall i :: 0 <= i < |s| ==> IsDigit(s[i])
  }

  function DigitValue(c: char): nat
    requires IsDigit(c)
  {
    (c as int) - ('0' as int)
  }

  function DigitChar(d: nat): (c: char)
    requires d < 10
    ensures IsDigit(c) && DigitValue(c) == d
  {
    (('0' as int) + d) as char
  }

  /** `parseInt(ds, 10)` of a non-empty run of decimal digits. */
  function DecimalValue(ds: string): nat
    requires AllDigits(ds)
  {
    if ds == [] then 0 else 10 * DecimalValue(ds[..|ds| - 1]) + DigitValue(ds[|ds| - 1])
  }

  /** The decimal numeral of `n`, without leading zeros. */
  function Decimal(n: nat): (ds: string)
    ensures |ds| >= 1 && AllDigits(ds)
  {
    if n < 10 then [DigitChar(n)] else Decimal(n / 10) + [DigitChar(n % 10)]
  }

  lemma {:induction false} DecimalValueOfDecimal(n: nat)
    ensures DecimalValue(Decimal(n)) == n
  {
    if n >= 10 {
      var ds := Decimal(n);
      assert ds[..|ds| - 1] == Decimal(n / 10);
      DecimalValueOfDecimal(n / 10);
    }
  }

  // ----- the range grammar `^L(\d+)(?:-L(\d+))?$` ---------------------------

  /** The two capture groups of a matching range: start digits and optional end digits. */
  datatype RangeSpec = RangeSpec(start: string, end: Option<string>)

  /** A numeral as the range groups capture it: digits, leading zeros allowed. */
  predicate Numeral(ds: string) {
    |ds| >= 1 && AllDigits(ds)
  }

  predicate ValidSpec(sp: RangeSpec) {
    Numeral(sp.start) && (sp.end.Some? ==> Numeral(sp.end.value))
  }

  /** The range text a spec stands for. */
  function Render(sp: RangeSpec): string {
    "L" + sp.start + (match sp.end case None => "" case Some(e) => "-L" + e)
  }

  function DigitRun(s: string, i: nat): (n: nat)
    requires i <= |s|
    ensures i + n <= |s|
    ensures forall j :: i <= j < i + n ==> IsDigit(s[j])
    ensures i + n == |s| || !IsDigit(s[i + n])
  {
    Span(s, i, IsDigit)
  }

  /**
   * `range.match(/^L(\d+)(?:-L(\d+))?$/)`: the capture groups when the whole
   * text matches, `None` when it does not.
   */
  function ParseRange(r: string): (o: Option<RangeSpec>)
    ensures o.Some? ==> ValidSpec(o.value) && Render(o.value) == r
  {
    if |r| == 0 || r[0] != 'L' then None
    else
      var i := 1 + DigitRun(r, 1);
      if i == 1 then None
      else if i == |r| then
        assert r == "L" + r[1..i];
        Some(RangeSpec(r[1..i], None))
      else if i + 2 < |r| && r[i] == '-' && r[i + 1] == 'L' && i + 2 + DigitRun(r, i + 2) == |r| then
        assert r == "L" + r[1..i] + "-L" + r[i + 2..];
        Some(RangeSpec(r[1..i], Some(r[i + 2..])))
      else None
  }

  /** Every spec of the grammar is recognised in its rendering: the parser is complete. */
  lemma ParseRender(sp: RangeSpec)
    requires ValidSpec(sp)
    ensures ParseRange(Render(sp)) == Some(sp)
  {
    var r := Render(sp);
    var i := 1 + |sp.start|;
    assert r[1..i] == sp.start;
    SpanUnique(r, 1, IsDigit, |sp.start|);
    if sp.end.Some? {
      var e := sp.end.value;
      assert r[i] == '-' && r[i + 1] == 'L';
      assert r[i + 2..] == e;
      SpanUnique(r, i + 2, IsDigit, |e|);
    }
  }

  /** A range is recognised exactly when it is the rendering of a spec of the grammar. */
  lemma RangeGrammar(r: string)
    ensures ParseRange(r).Some? <==> exists sp :: ValidSpec(sp) && Render(sp) == r
  {
    if sp :| ValidSpec(sp) && Render(sp) == r {
      ParseRender(sp);
    }
  }

  // ----- `content.split(/\r\n|\n/g)` and `lines.join('\n')` -----------------

  predicate NotNewline(c: char) {
    c != '\n'
  }

  predicate NoNewline(s: string) {
    forall i :: 0 <= i < |s| ==> s[i] != '\n'
  }

  /** The lines of `s`: split at every `\r\n` and every other `\n`. */
  function SplitLines(s: string): (ls: seq<string>)
    ensures |ls| >= 1
    ensures forall i :: 0 <= i < |ls| ==> NoNewline(ls[i])
    decreases |s|
  {
    var n := Span(s, 0, NotNewline);
    if n == |s| then [s]
    else
      var cut := if n > 0 && s[n - 1] == '\r' then n - 1 else n;
      [s[..cut]] + SplitLines(s[n + 1..])
  }

  function JoinLines(ls: seq<string>): string {
    if |ls| == 0 then ""
    else if |ls| == 1 then ls[0]
    else ls[0] + "\n" + JoinLines(ls[1..])
  }

  /** `s.replace(/\r\n/g, '\n')`: the text with Windows line ends made Unix ones. */
  function NormalizeNewlines(s: string): string
    decreases |s|
  {
    if |s| >= 2 && s[0] == '\r' && s[1] == '\n' then "\n" + NormalizeNewlines(s[2..])
    else if s == [] then []
    else [s[0]] + NormalizeNewlines(s[1..])
  }

  lemma {:induction false} NormalizePlainPrefix(a: string, b: string)
    requires NoNewline(a)
    requires a == [] || a[|a| - 1] != '\r' || b == [] || b[0] != '\n'
    ensures NormalizeNewlines(a + b) == a + NormalizeNewlines(b)
    decreases |a|
  {
    if a == [] {
      assert a + b == b;
    } else {
      var s, tail := a + b, a[1..] + b;
      assert s[0] == a[0] && s[1..] == tail;
      assert !(|s| >= 2 && s[0] == '\r' && s[1] == '\n') by {
        if |a| >= 2 {
          assert s[1] == a[1];
        }
      }
      assert NormalizeNewlines(s) == [a[0]] + NormalizeNewlines(tail);
      NormalizePlainPrefix(a[1..], b);
      assert a == [a[0]] + a[1..];
    }
  }

  lemma JoinCons(x: string, ys: seq<string>)
    requires |ys| >= 1
    ensures JoinLines([x] + ys) == x + "\n" + JoinLines(ys)
  {
    assert ([x] + ys)[1..] == ys;
  }

  lemma NormalizeAround(a: string, sep: string, rest: string)
    requires NoNewline(a)
    requires sep == "\n" || sep == "\r\n"
    requires sep == "\n" ==> a == [] || a[|a| - 1] != '\r'
    ensures NormalizeNewlines(a + (sep + rest)) == a + "\n" + NormalizeNewlines(rest)
  {
    NormalizePlainPrefix(a, sep + rest);
    var t := sep + rest;
    if sep == "\n" {
      assert t[0] == '\n' && t[1..] == rest;
    } else {
      assert t[0] == '\r' && t[1] == '\n' && t[2..] == rest;
    }
    var x := NormalizeNewlines(rest);
    assert a + ("\n" + x) == a + "\n" + x;
  }

  lemma PrefixNoNewline(s: string, n: nat)
    requires n <= |s| && n <= Span(s, 0, NotNewline)
    ensures NoNewline(s[..n])
  {
    forall i | 0 <= i < n ensures s[..n][i] != '\n' {
      assert s[..n][i] == s[i] && NotNewline(s[i]);
    }
  }

  /**
   * A line break at `n`, written `\r\n` when the line (the text up to `cut`)
   * is followed by a carriage return and `\n` otherwise, normalises to `\n`.
   */
  lemma NormalizeBreak(s: string, cut: nat, n: nat)
    requires cut <= n < |s| && s[n] == '\n' && NoNewline(s[..cut])
    requires || (cut + 1 == n && s[cut] == '\r')
             || (cut == n && (n == 0 || s[n - 1] != '\r'))
    ensures NormalizeNewlines(s) == s[..cut] + "\n" + NormalizeNewlines(s[n + 1..])
  {
    var a, mid, rest := s[..cut], s[cut..n + 1], s[n + 1..];
    assert mid == "\n" || mid == "\r\n" by {
      if cut + 1 == n {
        assert mid == "\r\n";
      } else {
        assert mid == "\n";
      }
    }
    assert mid == "\n" ==> a == [] || a[|a| - 1] != '\r' by {
      if mid == "\n" {
        assert cut == n;
      }
    }
    assert s == a + (mid + rest) by {
      ThreeParts(s, cut, n + 1);
    }
    NormalizeAround(a, mid, rest);
  }

  /** Splitting then joining with `\n` only turns `\r\n` line ends into `\n`. */
  lemma {:induction false} JoinSplit(s: string)
    ensures JoinLines(SplitLines(s)) == NormalizeNewlines(s)
    decreases |s|
  {
    var n := Span(s, 0, NotNewline);
    if n == |s| {
      assert NoNewline(s);
      NormalizePlainPrefix(s, []);
      assert s + [] == s;
    } else {
      var rest := s[n + 1..];
      JoinSplit(rest);
      var cut := if n > 0 && s[n - 1] == '\r' then n - 1 else n;
      PrefixNoNewline(s, cut);
      NormalizeBreak(s, cut, n);
      assert SplitLines(s) == [s[..cut]] + SplitLines(rest);
      JoinCons(s[..cut], SplitLines(rest));
    }
  }

  /**
   * Joining lines that hold no `\n`, none of them but the last ending in
   * `\r`, and splitting again gives the lines back.
   */
  lemma {:induction false} SplitJoin(ls: seq<string>)
    requires |ls| >= 1
    requires forall i :: 0 <= i < |ls| ==> NoNewline(ls[i])
    requires forall i :: 0 <= i < |ls| - 1 ==> ls[i] == [] || ls[i][|ls[i]| - 1] != '\r'
    ensures SplitLines(JoinLines(ls)) == ls
  {
    var s := JoinLines(ls);
    if |ls| == 1 {
      SpanUnique(s, 0, NotNewline, |s|);
    } else {
      var rest := JoinLines(ls[1..]);
      assert s == ls[0] + "\n" + rest;
      SpanUnique(s, 0, NotNewline, |ls[0]|);
      assert s[..|ls[0]|] == ls[0];
      assert s[|ls[0]| + 1..] == rest;
      SplitJoin(ls[1..]);
    }
  }

  // ----- `Array.prototype.slice` ---------------------------------------------

  /** How `slice` reads a relative index: negative counts from the end, both clamp to the length. */
  function RelIndex(i: int, len: nat): (k: nat)
    ensures k <= len
  {
    if i < 0 then (if len + i > 0 then len + i else 0) else (if i < len then i else len)
  }

  /** `xs.slice(start, end)`. */
  function JsSlice<T>(xs: seq<T>, start: int, end: int): (r: seq<T>)
    ensures |r| <= |xs|
    ensures 0 <= start <= end ==> |r| <= end - start
    ensures 0 <= start <= end <= |xs| ==> r == xs[start..end]
    ensures 0 <= end <= start ==> r == []
  {
    var from := RelIndex(start, |xs|);
    var to := RelIndex(end, |xs|);
    if from < to then xs[from..to] else []
  }

  // ----- getFileRangeLines ---------------------------------------------------

  /**
   * The lines of `content` selected by `range` (`None` for an absent range),
   * re-joined with `\n`; the content itself when the range does not match the
   * grammar.
   */
  function GetFileRangeLines(content: string, range: Option<string>): (r: string)
    ensures range.None? ==> r == content
    ensures range.Some? && ParseRange(range.value).None? ==> r == content
  {
    var spec := if range.Some? then ParseRange(range.value) else None;
    match spec
    case None => content
    case Some(sp) =>
      var lineStart := DecimalValue(sp.start) - 1;
      var lineEnd := match sp.end case Some(e) => DecimalValue(e) case None => lineStart + 1;
      JoinLines(JsSlice(SplitLines(content), lineStart, lineEnd))
  }

  function Min(a: int, b: int): int {
    if a <= b then a else b
  }

  lemma ParseSingle(ds: string)
    requires Numeral(ds)
    ensures ParseRange("L" + ds) == Some(RangeSpec(ds, None))
  {
    var sp := RangeSpec(ds, None);
    assert Render(sp) == "L" + ds;
    ParseRender(sp);
  }

  lemma ParsePair(da: string, db: string)
    requires Numeral(da) && Numeral(db)
    ensures ParseRange("L" + da + "-L" + db) == Some(RangeSpec(da, Some(db)))
  {
    var sp := RangeSpec(da, Some(db));
    assert Render(sp) == "L" + da + "-L" + db;
    ParseRender(sp);
  }

  /**
   * `L<n>` names exactly the n-th line (counting from 1), however the number
   * is spelt: `parseInt` reads `L07` as `L7`.
   */
  lemma SingleLine(content: string, ds: string, n: nat)
    requires Numeral(ds) && DecimalValue(ds) == n
    requires 1 <= n <= |SplitLines(content)|
    ensures GetFileRangeLines(content, Some("L" + ds)) == SplitLines(content)[n - 1]
  {
    ParseSingle(ds);
    var ls := SplitLines(content);
    assert JsSlice(ls, n - 1, n) == [ls[n - 1]];
  }

  /**
   * `L<a>-L<b>` with `1 <= a <= b` names lines `a` through `b`, clipped to the
   * line count: never more than `b - a + 1` of them.
   */
  lemma LineSpan(content: string, da: string, db: string, a: nat, b: nat)
    requires Numeral(da) && DecimalValue(da) == a
    requires Numeral(db) && DecimalValue(db) == b
    requires 1 <= a <= b
    ensures var ls := SplitLines(content);
            var from := Min(a - 1, |ls|);
            var to := Min(b, |ls|);
            && from <= to
            && to - from <= b - a + 1
            && GetFileRangeLines(content, Some("L" + da + "-L" + db)) == JoinLines(ls[from..to])
  {
    var ls := SplitLines(content);
    var r := "L" + da + "-L" + db;
    ParsePair(da, db);
    assert GetFileRangeLines(content, Some(r)) == JoinLines(JsSlice(ls, a - 1, b));
  }

  /** `L<a>-L<b>` with `b < a` names nothing: the result is empty. */
  lemma ReversedSpan(content: string, da: string, db: string, a: nat, b: nat)
    requires Numeral(da) && DecimalValue(da) == a
    requires Numeral(db) && DecimalValue(db) == b
    requires 1 <= a && b < a
    ensures GetFileRangeLines(content, Some("L" + da + "-L" + db)) == ""
  {
    ParsePair(da, db);
  }

  /** `L0` starts at index -1, which `slice` counts from the end; alone it names nothing. */
  lemma ZeroAlone(content: string)
    ensures GetFileRangeLines(content, Some("L0")) == ""
  {
    assert IsDigit("0"[0]);
    ParseSingle("0");
    assert "L" + "0" == "L0";
    assert DecimalValue("0") == 0;
    assert GetFileRangeLines(content, Some("L0")) == JoinLines(JsSlice(SplitLines(content), -1, 0));
  }

  lemma ZeroPairParses(b: nat)
    ensures ParseRange("L0-L" + Decimal(b)) == Some(RangeSpec("0", Some(Decimal(b))))
  {
    var d := Decimal(b);
    var sp := RangeSpec("0", Some(d));
    assert IsDigit("0"[0]);
    var tail := "-L" + d;
    assert Render(sp) == "L0" + tail;
    assert "L0" + tail == "L0-L" + d;
    ParseRender(sp);
  }

  /** `slice(-1, b)` keeps the last element, when `b` reaches it. */
  lemma SliceFromLast<T>(xs: seq<T>, b: nat)
    requires |xs| >= 1
    ensures JsSlice(xs, -1, b) == if |xs| <= b then [xs[|xs| - 1]] else []
  {
  }

  /** `L0-L<b>` names the last line when `b` reaches it, and nothing otherwise. */
  lemma ZeroStart(content: string, b: nat)
    ensures var ls := SplitLines(content);
            GetFileRangeLines(content, Some("L0-L" + Decimal(b)))
            == if |ls| <= b then ls[|ls| - 1] else ""
  {
    var ls := SplitLines(content);
    var d := Decimal(b);
    ZeroPairParses(b);
    assert DecimalValue("0") == 0;
    DecimalValueOfDecimal(b);
    assert GetFileRangeLines(content, Some("L0-L" + d)) == JoinLines(JsSlice(ls, -1, b));
    SliceFromLast(ls, b);
  }

  /** `L1-L<count>` gives the whole text back, with `\r\n` line ends made `\n`. */
  lemma WholeText(content: string)
    ensures GetFileRangeLines(content, Some("L1-L" + Decimal(|SplitLines(content)|)))
            == NormalizeNewlines(content)
  {
    var ls := SplitLines(content);
    assert Decimal(1) == "1";
    DecimalValueOfDecimal(1);
    DecimalValueOfDecimal(|ls|);
    LineSpan(content, "1", Decimal(|ls|), 1, |ls|);
    assert "L" + "1" + "-L" + Decimal(|ls|) == "L1-L" + Decimal(|ls|);
    assert ls[0..|ls|] == ls;
    JoinSplit(content);
  }
}
