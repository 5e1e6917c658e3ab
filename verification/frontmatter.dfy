// `parseCodeFrontmatter` of the block-asset parser: splits a leading
// `/** ... */` comment off a demo's source, turns the comment into YAML text
// and hands it to a YAML loader, which stays an uninterpreted oracle here.
//
// The two regular expressions the parser applies are modelled as explicit
// scans, and `Dissect` is proved to cut the text exactly where the regular
// expressions do (`WellCut`), and to be the only cut that does (`WellCutUnique`).
module Frontmatter {
  import opened Wrappers
  import opened JsText

  /**
   * What `yaml.load` hands back, seen through the only two questions the
   * collector asks of it: is the value truthy, and what does `value[key]` give.
   * `props` holds the keys whose lookup is not `undefined`.
   */
  datatype YamlDoc<V> = YamlDoc(truthy: bool, props: map<string, V>)

  /** A loaded frontmatter: `None` is the `null` left when the loader threw. */
  predicate Truthy<V>(f: Option<YamlDoc<V>>) {
    f.Some? && f.value.truthy
  }

  /** The result of `parseCodeFrontmatter`. */
  datatype Parsed<V> = Parsed(code: string, frontmatter: Option<YamlDoc<V>>)

  // ----- first regular expression: `/^\n\s*/` -------------------------------

  // Length of the head break-line run that `replace(/^\n\s*/, '')` removes.
  function HeadBreakLength(raw: string): (n: nat)
    ensures n <= |raw|
    ensures n == 0 <==> !(|raw| > 0 && raw[0] == '\n')
    ensures forall j :: 0 <= j < n ==> IsSpace(raw[j])
    ensures n > 0 ==> n == |raw| || !IsSpace(raw[n])
  {
    if |raw| > 0 && raw[0] == '\n' then 1 + SpaceRun(raw, 1) else 0
  }

  // ----- second regular expression, group 1: `\/\*\*[^]*?\n\s*\*\/` ---------

  // The comment group can end at `e` using the line break at `k`: `t[k]` is
  // the `\n`, everything up to the closing `*/` is white space.
  ghost predicate ClosesVia(t: string, k: int, e: int) {
    && 3 <= k && k + 3 <= e <= |t|
    && t[k] == '\n'
    && (forall j :: k < j < e - 2 ==> IsSpace(t[j]))
    && t[e - 2] == '*' && t[e - 1] == '/'
  }

  // `t[..e]` matches the comment group: it opens with `/**` and closes as above.
  ghost predicate ClosesAt(t: string, e: int) {
    StartsWith(t, "/**") && exists k :: ClosesVia(t, k, e)
  }

  /** Where the comment would close if the `\n` at `k` started its last line. */
  function CloseFrom(t: string, k: nat): nat
    requires k < |t|
  {
    k + 3 + SpaceRun(t, k + 1)
  }

  predicate ClosesHere(t: string, k: nat)
    requires k < |t|
  {
    var e := CloseFrom(t, k);
    t[k] == '\n' && e <= |t| && t[e - 2] == '*' && t[e - 1] == '/'
  }

  /** A line break determines the end of the comment it closes. */
  lemma ClosesViaExact(t: string, k: int, e: int)
    requires ClosesVia(t, k, e)
    ensures e == CloseFrom(t, k) && ClosesHere(t, k)
  {
    SpanUnique(t, k + 1, IsSpace, e - 3 - k);
  }

  /** A later line break never closes the comment earlier. */
  lemma ClosesViaMonotone(t: string, k1: int, e1: int, k2: int, e2: int)
    requires ClosesVia(t, k1, e1) && ClosesVia(t, k2, e2) && k1 <= k2
    ensures e1 <= e2
  {
    if k2 < e1 - 2 {
      assert ClosesVia(t, k2, e1);
      ClosesViaExact(t, k2, e1);
      ClosesViaExact(t, k2, e2);
    }
  }

  /**
   * The lazy `[^]*?` of the comment group: try the line breaks from `k`
   * onwards, first come first served.
   */
  function FindCommentEnd(t: string, k: nat): (r: Option<nat>)
    requires 3 <= k <= |t|
    ensures r.Some? ==> exists k' :: k <= k' && ClosesVia(t, k', r.value)
    ensures r.Some? ==> forall k', e :: k <= k' && ClosesVia(t, k', e) ==> r.value <= e
    ensures r.None? ==> forall k', e :: k <= k' ==> !ClosesVia(t, k', e)
    decreases |t| - k
  {
    if k == |t| then None
    else if ClosesHere(t, k) then
      var e := CloseFrom(t, k);
      assert ClosesVia(t, k, e);
      FoundIsLeast(t, k, e);
      Some(e)
    else
      var r := FindCommentEnd(t, k + 1);
      NotHere(t, k);
      r
  }

  lemma FoundIsLeast(t: string, k: int, e: int)
    requires ClosesVia(t, k, e)
    ensures forall k', e' :: k <= k' && ClosesVia(t, k', e') ==> e <= e'
  {
    forall k', e' | k <= k' && ClosesVia(t, k', e')
      ensures e <= e'
    {
      ClosesViaMonotone(t, k, e, k', e');
    }
  }

  lemma NotHere(t: string, k: nat)
    requires k < |t| && !ClosesHere(t, k)
    ensures forall e :: !ClosesVia(t, k, e)
  {
    forall e | ClosesVia(t, k, e)
      ensures false
    {
      ClosesViaExact(t, k, e);
    }
  }

  /** End of the comment group, or `None` when the group does not take part. */
  function CommentEnd(t: string): (r: Option<nat>)
    ensures r.Some? ==> ClosesAt(t, r.value) && forall e :: ClosesAt(t, e) ==> r.value <= e
    ensures r.None? ==> forall e :: !ClosesAt(t, e)
  {
    if StartsWith(t, "/**") then FindCommentEnd(t, 3) else None
  }

  // ----- the whole cut ---------------------------------------------------------

  /**
   * How the parser's two regular expressions cut a raw source: the removed
   * head break run, the comment group (1), the white space the pattern skips,
   * and the code group (2).
   */
  datatype Anatomy = Anatomy(lead: string, comment: string, gap: string, code: string)

  /** `lead` is what the head break-line replacement removes from `raw`. */
  ghost predicate LeadCut(raw: string, lead: string) {
    && StartsWith(raw, lead)
    && if |raw| > 0 && raw[0] == '\n'
       then |lead| > 0 && AllSpace(lead) && (|lead| == |raw| || !IsSpace(raw[|lead|]))
       else lead == []
  }

  /** `comment` is what the lazy comment group captures at the start of `t`. */
  ghost predicate CommentCut(t: string, comment: string) {
    && StartsWith(t, comment)
    && if comment == []
       then forall e :: !ClosesAt(t, e)
       else ClosesAt(t, |comment|) && forall e :: ClosesAt(t, e) ==> |comment| <= e
  }

  /** `(?:\s|\n)*([^]+)?$` splits `u` into skipped white space and the code group. */
  ghost predicate GapCut(u: string, gap: string, code: string) {
    u == gap + code && AllSpace(gap) && (code == [] || !IsSpace(code[0]))
  }

  /** `a` is the cut the regular expressions, with their greediness and laziness, produce. */
  ghost predicate WellCut(raw: string, a: Anatomy) {
    && raw == a.lead + a.comment + a.gap + a.code
    && LeadCut(raw, a.lead)
    && CommentCut(raw[|a.lead|..], a.comment)
    && GapCut(raw[|a.lead| + |a.comment|..], a.gap, a.code)
  }

  lemma LeadCutUnique(raw: string, l1: string, l2: string)
    requires LeadCut(raw, l1) && LeadCut(raw, l2)
    ensures l1 == l2
  {
    if |raw| > 0 && raw[0] == '\n' {
      SpanUnique(raw, 0, IsSpace, |l1|);
      SpanUnique(raw, 0, IsSpace, |l2|);
    }
  }

  lemma CommentCutUnique(t: string, c1: string, c2: string)
    requires CommentCut(t, c1) && CommentCut(t, c2)
    ensures c1 == c2
  {
    if c1 != [] && c2 != [] {
      assert |c1| == |c2|;
    }
  }

  lemma GapCutUnique(u: string, g1: string, c1: string, g2: string, c2: string)
    requires GapCut(u, g1, c1) && GapCut(u, g2, c2)
    ensures g1 == g2 && c1 == c2
  {
    SpanUnique(u, 0, IsSpace, |g1|);
    SpanUnique(u, 0, IsSpace, |g2|);
    assert g1 == u[..|g1|] && g2 == u[..|g2|];
  }

  /** Length of the comment group's capture at the start of `t`. */
  function CommentLength(t: string): (e: nat)
    ensures e <= |t| && CommentCut(t, t[..e])
  {
    match CommentEnd(t)
    case Some(e) => e
    case None => 0
  }

  lemma HeadBreakCut(raw: string)
    ensures LeadCut(raw, raw[..HeadBreakLength(raw)])
  {
  }

  lemma GapCutAt(t: string, e: nat)
    requires e <= |t|
    ensures var g := SpaceRun(t, e);
            GapCut(t[e..], t[e..e + g], t[e + g..])
  {
    var g := SpaceRun(t, e);
    assert t[e..] == t[e..e + g] + t[e + g..];
  }

  lemma AssembleCut(raw: string, n: nat, e: nat, g: nat)
    requires n <= |raw| && n + e + g <= |raw|
    requires LeadCut(raw, raw[..n])
    requires CommentCut(raw[n..], raw[n..][..e])
    requires GapCut(raw[n..][e..], raw[n..][e..e + g], raw[n..][e + g..])
    ensures var t := raw[n..];
            WellCut(raw, Anatomy(raw[..n], t[..e], t[e..e + g], t[e + g..]))
  {
    var t := raw[n..];
    var a := Anatomy(raw[..n], t[..e], t[e..e + g], t[e + g..]);
    var u := t[e..];
    assert |a.lead| == n && |a.comment| == e;
    assert raw[|a.lead|..] == t;
    assert raw[|a.lead| + |a.comment|..] == u;
    assert LeadCut(raw, a.lead);
    assert CommentCut(raw[|a.lead|..], a.comment);
    assert GapCut(raw[|a.lead| + |a.comment|..], a.gap, a.code);
    Reassemble(raw, n, e, g);
  }

  lemma Reassemble(raw: string, n: nat, e: nat, g: nat)
    requires n + e + g <= |raw|
    ensures var t := raw[n..];
            raw == raw[..n] + t[..e] + t[e..e + g] + t[e + g..]
  {
    var t := raw[n..];
    var lead, comment, gap, code := raw[..n], t[..e], t[e..e + g], t[e + g..];
    assert t[e..] == gap + code;
    assert t == comment + t[e..];
    assert raw == lead + t;
    assert lead + (comment + (gap + code)) == lead + comment + gap + code;
  }

  /** The cut the parser makes. */
  function Dissect(raw: string): (a: Anatomy)
    ensures WellCut(raw, a)
  {
    var n := HeadBreakLength(raw);
    var t := raw[n..];
    var e := CommentLength(t);
    var g := SpaceRun(t, e);
    HeadBreakCut(raw);
    GapCutAt(t, e);
    AssembleCut(raw, n, e, g);
    Anatomy(raw[..n], t[..e], t[e..e + g], t[e + g..])
  }

  /** Two cuts that both follow the regular expressions are the same cut. */
  lemma WellCutUnique(raw: string, a: Anatomy, b: Anatomy)
    requires WellCut(raw, a) && WellCut(raw, b)
    ensures a == b
  {
    LeadCutUnique(raw, a.lead, b.lead);
    CommentCutUnique(raw[|a.lead|..], a.comment, b.comment);
    GapCutUnique(raw[|a.lead| + |a.comment|..], a.gap, a.code, b.gap, b.code);
  }

  // ----- from comment to YAML text -----------------------------------------

  // `replace(/^\/|\/$/g, '')`: one leading and one trailing slash go.
  function StripSlashes(s: string): (r: string)
    ensures |s| >= 2 && s[0] == '/' && s[|s| - 1] == '/' ==> r == s[1..|s| - 1]
    ensures |s| >= 1 && s[0] == '/' && (|s| == 1 || s[|s| - 1] != '/') ==> r == s[1..]
    ensures |s| >= 1 && s[0] != '/' && s[|s| - 1] == '/' ==> r == s[..|s| - 1]
    ensures (|s| == 0 || s[0] != '/') && (|s| == 0 || s[|s| - 1] != '/') ==> r == s
  {
    var a := if |s| > 0 && s[0] == '/' then 1 else 0;
    var b := if |s| > a && s[|s| - 1] == '/' then |s| - 1 else |s|;
    s[a..b]
  }

  /** A character that survives every white-space and star deletion. */
  predicate Significant(c: char) {
    !IsSpace(c) && c != '*'
  }

  /** The characters of `s` that satisfy `p`, in order. */
  function Keep(s: string, p: char -> bool): (r: string)
    ensures |r| <= |s|
  {
    if s == [] then [] else (if p(s[0]) then [s[0]] else []) + Keep(s[1..], p)
  }

  /** The significant characters of `s`, in order. */
  function Ink(s: string): string {
    Keep(s, Significant)
  }

  lemma {:induction false} KeepConcat(a: string, b: string, p: char -> bool)
    ensures Keep(a + b, p) == Keep(a, p) + Keep(b, p)
  {
    if a == [] {
      assert a + b == b;
    } else {
      var c := if p(a[0]) then [a[0]] else [];
      assert (a + b)[0] == a[0];
      assert (a + b)[1..] == a[1..] + b;
      assert Keep(a + b, p) == c + Keep(a[1..] + b, p);
      KeepConcat(a[1..], b, p);
      assert Keep(a, p) + Keep(b, p) == c + (Keep(a[1..], p) + Keep(b, p));
    }
  }

  lemma {:induction false} KeepNone(s: string, p: char -> bool)
    requires forall j :: 0 <= j < |s| ==> !p(s[j])
    ensures Keep(s, p) == []
  {
    if s != [] {
      KeepNone(s[1..], p);
    }
  }

  /** Deleting characters that are not significant leaves the ink alone. */
  lemma DropBlank(s: string, p: nat, q: nat)
    requires p <= q <= |s|
    requires forall j :: p <= j < q ==> !Significant(s[j])
    ensures Ink(s[p..]) == Ink(s[q..])
  {
    assert s[p..] == s[p..q] + s[q..];
    KeepConcat(s[p..q], s[q..], Significant);
    KeepNone(s[p..q], Significant);
  }

  /** `\s*\*+` matches at `i`: white space up to a star. */
  predicate StarLineAt(s: string, i: nat)
    requires i <= |s|
    decreases |s| - i
  {
    i < |s| && (s[i] == '*' || (IsSpace(s[i]) && StarLineAt(s, i + 1)))
  }

  /** Where the greedy `\s*\*+` that matches at `i` ends. */
  function StarLineEnd(s: string, i: nat): (q: nat)
    requires i <= |s| && StarLineAt(s, i)
    ensures i < q <= |s|
    decreases |s| - i
  {
    if s[i] == '*' then i + 1 + StarRun(s, i + 1) else StarLineEnd(s, i + 1)
  }

  /** How many stars follow from `i` on. */
  function StarRun(s: string, i: nat): (n: nat)
    requires i <= |s|
    ensures i + n <= |s|
    decreases |s| - i
  {
    if i < |s| && s[i] == '*' then 1 + StarRun(s, i + 1) else 0
  }

  lemma {:induction false} StarRunStars(s: string, i: nat)
    requires i <= |s|
    ensures forall j :: i <= j < i + StarRun(s, i) ==> s[j] == '*'
    decreases |s| - i
  {
    if i < |s| && s[i] == '*' {
      StarRunStars(s, i + 1);
    }
  }

  lemma {:induction false} StarRunOver(s: string, i: nat, m: nat)
    requires i + m <= |s|
    requires forall j :: i <= j < i + m ==> s[j] == '*'
    requires i + m == |s| || s[i + m] != '*'
    ensures StarRun(s, i) == m
    decreases m
  {
    if m > 0 {
      StarRunOver(s, i + 1, m - 1);
    }
  }

  /** A star run holds nothing significant. */
  lemma {:induction false} StarLineBlank(s: string, i: nat)
    requires i <= |s| && StarLineAt(s, i)
    ensures forall j :: i <= j < StarLineEnd(s, i) ==> !Significant(s[j])
    decreases |s| - i
  {
    if s[i] != '*' {
      StarLineBlank(s, i + 1);
    } else {
      StarRunStars(s, i + 1);
    }
  }

  /** White space `s[i..i + w]` then `m` stars, and no star after them, is a star run. */
  lemma {:induction false} StarLineOver(s: string, i: nat, w: nat, m: nat)
    requires 0 < m && i + w + m <= |s|
    requires forall j :: i <= j < i + w ==> IsSpace(s[j])
    requires forall j :: i + w <= j < i + w + m ==> s[j] == '*'
    requires i + w + m == |s| || s[i + w + m] != '*'
    ensures StarLineAt(s, i) && StarLineEnd(s, i) == i + w + m
    decreases w
  {
    if w == 0 {
      StarRunOver(s, i + 1, m - 1);
    } else {
      assert IsSpace(s[i]);
      StarLineOver(s, i + 1, w - 1, m);
    }
  }

  /** No `\n\s*\*+` match starts at or after `p`. */
  predicate NoStarLineFrom(s: string, p: nat)
    requires p <= |s|
  {
    forall j :: p <= j < |s| && s[j] == '\n' ==> !StarLineAt(s, j + 1)
  }

  /**
   * The global search of `replace(/(^|\n)\s*\*+/g, '$1')` once it has left
   * the start of the text, resumed at `p`: a run of white space and stars
   * after a line break is dropped, the line break itself is kept.
   */
  function StarReplaceFrom(s: string, p: nat): string
    requires p <= |s|
    decreases |s| - p
  {
    if p == |s| then []
    else if s[p] == '\n' && StarLineAt(s, p + 1) then "\n" + StarReplaceFrom(s, StarLineEnd(s, p + 1))
    else [s[p]] + StarReplaceFrom(s, p + 1)
  }

  /**
   * `replace(/(^|\n)\s*\*+/g, '$1')`. At the start of the text the `^`
   * alternative is tried first, and it matches whenever the `\n` one would,
   * since a line break is white space.
   */
  function StarReplace(s: string): string {
    if StarLineAt(s, 0) then StarReplaceFrom(s, StarLineEnd(s, 0)) else StarReplaceFrom(s, 0)
  }

  lemma {:induction false} StarReplaceFromKeepsInk(s: string, p: nat)
    requires p <= |s|
    ensures Ink(StarReplaceFrom(s, p)) == Ink(s[p..])
    decreases |s| - p
  {
    if p == |s| {
    } else if s[p] == '\n' && StarLineAt(s, p + 1) {
      var q := StarLineEnd(s, p + 1);
      var rest := StarReplaceFrom(s, q);
      StarReplaceFromKeepsInk(s, q);
      assert Ink(s[q..]) == Ink(s[p..]) by {
        StarLineBlank(s, p + 1);
        DropBlank(s, p, q);
      }
      assert Ink("\n" + rest) == Ink(rest) by {
        KeepConcat("\n", rest, Significant);
      }
    } else {
      var rest := StarReplaceFrom(s, p + 1);
      StarReplaceFromKeepsInk(s, p + 1);
      assert Ink(s[p..]) == Ink([s[p]]) + Ink(s[p + 1..]) by {
        assert s[p..] == [s[p]] + s[p + 1..];
        KeepConcat([s[p]], s[p + 1..], Significant);
      }
      assert Ink([s[p]] + rest) == Ink([s[p]]) + Ink(rest) by {
        KeepConcat([s[p]], rest, Significant);
      }
    }
  }

  /** The replacement deletes only white space and stars. */
  lemma StarReplaceKeepsInk(s: string)
    ensures Ink(StarReplace(s)) == Ink(s)
  {
    assert s[0..] == s;
    if StarLineAt(s, 0) {
      var q := StarLineEnd(s, 0);
      StarReplaceFromKeepsInk(s, q);
      StarLineBlank(s, 0);
      DropBlank(s, 0, q);
    } else {
      StarReplaceFromKeepsInk(s, 0);
    }
  }

  lemma {:induction false} StarReplaceFromUnmatched(s: string, p: nat)
    requires p <= |s| && NoStarLineFrom(s, p)
    ensures StarReplaceFrom(s, p) == s[p..]
    decreases |s| - p
  {
    if p < |s| {
      assert !(s[p] == '\n' && StarLineAt(s, p + 1));
      StarReplaceFromUnmatched(s, p + 1);
      assert s[p..] == [s[p]] + s[p + 1..];
    }
  }

  /**
   * Where the pattern matches neither at the start nor after any line break,
   * the text comes through unchanged: stars and white space elsewhere stay.
   */
  lemma StarReplaceUnmatched(s: string)
    requires !StarLineAt(s, 0) && NoStarLineFrom(s, 0)
    ensures StarReplace(s) == s
  {
    StarReplaceFromUnmatched(s, 0);
    assert s[0..] == s;
  }

  /** The text handed to the YAML loader for a comment. */
  function YamlText(comment: string): string {
    StarReplace(StripSlashes(comment))
  }

  // The YAML text of a recognised comment carries exactly the significant
  // characters between its `/**` and its `*/`, in order.
  lemma YamlTextOfComment(t: string, e: int)
    requires ClosesAt(t, e)
    ensures Ink(YamlText(t[..e])) == Ink(t[3..e - 2])
  {
    var k :| ClosesVia(t, k, e);
    var c := t[..e];
    var y := c[1..e - 1];
    assert t[..3][0] == t[0] && t[..3][1] == t[1] && t[..3][2] == t[2];
    assert StripSlashes(c) == y;
    assert y[0] == t[1] && y[1] == t[2] && y[e - 3] == t[e - 2];
    assert y == t[1..e - 1];
    SliceOfSlice(t, 1, e - 1, 2, e - 3);
    InkMiddle(y, 2, e - 3);
    assert y[0..] == y;
    StarReplaceKeepsInk(y);
  }

  /** Only the significant characters count, so blank ends can be cut off. */
  lemma InkMiddle(x: string, i: nat, j: nat)
    requires i <= j <= |x|
    requires forall k :: 0 <= k < i ==> !Significant(x[k])
    requires forall k :: j <= k < |x| ==> !Significant(x[k])
    ensures Ink(x) == Ink(x[i..j])
  {
    var a, b, c := x[..i], x[i..j], x[j..];
    ThreeParts(x, i, j);
    forall k | 0 <= k < |a| ensures !Significant(a[k]) {
      assert a[k] == x[k];
    }
    forall k | 0 <= k < |c| ensures !Significant(c[k]) {
      assert c[k] == x[j + k];
    }
    KeepNone(a, Significant);
    KeepNone(c, Significant);
    KeepConcat(b, c, Significant);
    KeepConcat(a, b + c, Significant);
    assert Ink(b) + [] == Ink(b);
  }

  // ----- the conventional comment layout ---------------------------------------

  /**
   * One line of a frontmatter comment written the usual way: a line break,
   * some indentation, a run of stars, and the text the YAML loader is meant
   * to see.
   */
  datatype StarLine = StarLine(indent: string, stars: nat, text: string)

  /** The text neither spills into the next line nor starts with a star. */
  predicate PlainLine(l: StarLine) {
    && AllSpace(l.indent)
    && l.stars > 0
    && (forall k :: 0 <= k < |l.text| ==> l.text[k] != '\n')
    && (l.text == [] || l.text[0] != '*')
  }

  /** `n` stars. */
  function Stars(n: nat): (r: string)
    ensures |r| == n && forall k :: 0 <= k < n ==> r[k] == '*'
  {
    if n == 0 then [] else "*" + Stars(n - 1)
  }

  /** How the line is written inside the comment. */
  function LineSource(l: StarLine): string {
    "\n" + l.indent + Stars(l.stars) + l.text
  }

  function LinesSource(ls: seq<StarLine>): string {
    if |ls| == 0 then [] else LineSource(ls[0]) + LinesSource(ls[1..])
  }

  /** The texts of the lines, each after its line break. */
  function LinesText(ls: seq<StarLine>): string {
    if |ls| == 0 then [] else "\n" + ls[0].text + LinesText(ls[1..])
  }

  function LineWidth(l: StarLine): nat {
    1 + |l.indent| + l.stars + |l.text|
  }

  function Width(ls: seq<StarLine>): nat {
    if |ls| == 0 then 0 else LineWidth(ls[0]) + Width(ls[1..])
  }

  lemma {:induction false} SourceWidth(ls: seq<StarLine>)
    ensures |LinesSource(ls)| == Width(ls)
  {
    if |ls| > 0 {
      SourceWidth(ls[1..]);
    }
  }

  lemma LinesSourceBreak(ls: seq<StarLine>)
    requires |ls| > 0
    ensures |LinesSource(ls)| > 0 && LinesSource(ls)[0] == '\n'
  {
  }

  // Sequence bookkeeping.

  lemma Chain<T>(a: seq<T>, x: seq<T>, b: seq<T>, y: seq<T>, c: seq<T>)
    requires a == x + b && b == y + c
    ensures a == (x + y) + c
  {
  }

  lemma SliceOfSlice<T>(s: seq<T>, p: nat, q: nat, i: nat, j: nat)
    requires p <= q <= |s| && i <= j <= q - p
    ensures s[p..q][i..j] == s[p + i..p + j]
  {
    var a, b := s[p..q][i..j], s[p + i..p + j];
    assert |a| == |b|;
    forall k | 0 <= k < |a| ensures a[k] == b[k] {
      assert a[k] == s[p..q][i + k] == s[p + i + k];
    }
  }

  /** A slice spelling out `a + b`, with `a` ending at `m`, holds `a` before `m` and `b` after. */
  lemma Halves<T>(s: seq<T>, p: nat, m: nat, e: nat, a: seq<T>, b: seq<T>)
    requires p <= m <= e <= |s| && |a| == m - p && s[p..e] == a + b
    ensures s[p..m] == a && s[m..e] == b
  {
    SliceOfSlice(s, p, e, 0, m - p);
    SliceOfSlice(s, p, e, m - p, e - p);
  }

  /** Where `b` sits in `s`, each character of `s` is the matching one of `b`. */
  lemma SliceAt(s: string, i: nat, e: nat, b: string)
    requires i <= e <= |s| && s[i..e] == b
    ensures forall j :: i <= j < e ==> s[j] == b[j - i]
  {
    forall j | i <= j < e ensures s[j] == b[j - i] {
      assert s[j] == s[i..e][j - i];
    }
  }

  // Single steps of the replacement.

  /** A character other than `\n` is copied. */
  lemma CopyOne(s: string, p: nat)
    requires p < |s| && s[p] != '\n'
    ensures StarReplaceFrom(s, p) == [s[p]] + StarReplaceFrom(s, p + 1)
  {
  }

  /** A line break that starts a star run keeps only itself. */
  lemma CutLine(s: string, p: nat)
    requires p < |s| && s[p] == '\n' && StarLineAt(s, p + 1)
    ensures StarReplaceFrom(s, p) == "\n" + StarReplaceFrom(s, StarLineEnd(s, p + 1))
  {
  }

  /** Characters other than `\n` are copied. */
  lemma {:induction false} CopyPlain(s: string, p: nat, e: nat)
    requires p <= e <= |s|
    requires forall j :: p <= j < e ==> s[j] != '\n'
    ensures StarReplaceFrom(s, p) == s[p..e] + StarReplaceFrom(s, e)
    decreases e - p
  {
    if p == e {
      assert s[p..e] + StarReplaceFrom(s, e) == StarReplaceFrom(s, e);
    } else {
      CopyOne(s, p);
      CopyPlain(s, p + 1, e);
      assert s[p..e] == [s[p]] + s[p + 1..e];
      Chain(StarReplaceFrom(s, p), [s[p]], StarReplaceFrom(s, p + 1), s[p + 1..e],
        StarReplaceFrom(s, e));
    }
  }

  // Lines told by positions.

  /**
   * The line `l` sits at `p` in `s`: it starts with a line break, its star
   * run ends where its text starts, and no line break follows before the
   * text's length is used up.
   */
  ghost predicate LineAt(s: string, p: nat, l: StarLine) {
    var q := p + 1 + |l.indent| + l.stars;
    && p + LineWidth(l) <= |s| && s[p] == '\n'
    && StarLineAt(s, p + 1) && StarLineEnd(s, p + 1) == q
    && (forall j :: q <= j < p + LineWidth(l) ==> s[j] != '\n')
  }

  ghost predicate LinesAt(s: string, p: nat, ls: seq<StarLine>)
    decreases |ls|
  {
    if |ls| == 0 then p <= |s|
    else LineAt(s, p, ls[0]) && LinesAt(s, p + LineWidth(ls[0]), ls[1..])
  }

  /** Where the lines laid out from `p` have their texts, `s` holds those texts. */
  ghost predicate TextsAt(s: string, p: nat, ls: seq<StarLine>)
    decreases |ls|
  {
    if |ls| == 0 then true
    else
      var q, e := p + 1 + |ls[0].indent| + ls[0].stars, p + LineWidth(ls[0]);
      e <= |s| && s[q..e] == ls[0].text && TextsAt(s, e, ls[1..])
  }

  /** One line is cut down to its break and its text. */
  lemma LineCut(s: string, p: nat, l: StarLine)
    requires LineAt(s, p, l)
    ensures StarReplaceFrom(s, p) == "\n" + s[p + 1 + |l.indent| + l.stars..p + LineWidth(l)]
      + StarReplaceFrom(s, p + LineWidth(l))
  {
    CutLine(s, p);
    CopyPlain(s, p + 1 + |l.indent| + l.stars, p + LineWidth(l));
    Chain(StarReplaceFrom(s, p), "\n", StarReplaceFrom(s, p + 1 + |l.indent| + l.stars),
      s[p + 1 + |l.indent| + l.stars..p + LineWidth(l)], StarReplaceFrom(s, p + LineWidth(l)));
  }

  /** A line whose text is where `LineAt` puts it is cut down to that text. */
  lemma LineStep(s: string, p: nat, l: StarLine)
    requires LineAt(s, p, l)
    requires s[p + 1 + |l.indent| + l.stars..p + LineWidth(l)] == l.text
    ensures StarReplaceFrom(s, p) == "\n" + l.text + StarReplaceFrom(s, p + LineWidth(l))
  {
    LineCut(s, p, l);
  }

  /** Where the lines laid out from `p` end. */
  function Stop(p: nat, ls: seq<StarLine>): (e: nat)
    ensures p <= e
    decreases |ls|
  {
    if |ls| == 0 then p else Stop(p + LineWidth(ls[0]), ls[1..])
  }

  lemma {:induction false} StopWidth(p: nat, ls: seq<StarLine>)
    ensures Stop(p, ls) == p + Width(ls)
    decreases |ls|
  {
    if |ls| > 0 {
      StopWidth(p + LineWidth(ls[0]), ls[1..]);
    }
  }

  /** The first line cut, followed by what the other lines are cut to. */
  lemma LinesThen(s: string, p: nat, ls: seq<StarLine>)
    requires |ls| > 0
    requires Stop(p + LineWidth(ls[0]), ls[1..]) <= |s|
    requires StarReplaceFrom(s, p) == "\n" + ls[0].text + StarReplaceFrom(s, p + LineWidth(ls[0]))
    requires StarReplaceFrom(s, p + LineWidth(ls[0]))
      == LinesText(ls[1..]) + StarReplaceFrom(s, Stop(p + LineWidth(ls[0]), ls[1..]))
    ensures Stop(p, ls) <= |s|
    ensures StarReplaceFrom(s, p) == LinesText(ls) + StarReplaceFrom(s, Stop(p, ls))
  {
    Chain(StarReplaceFrom(s, p), "\n" + ls[0].text, StarReplaceFrom(s, p + LineWidth(ls[0])),
      LinesText(ls[1..]), StarReplaceFrom(s, Stop(p + LineWidth(ls[0]), ls[1..])));
  }

  /**
   * Each of the lines laid out from `p` is cut down to its break and text
   * (stated one line at a time, with nothing about where the text sits).
   */
  ghost predicate Steps(s: string, p: nat, ls: seq<StarLine>)
    decreases |ls|
  {
    if |ls| == 0 then p <= |s|
    else
      && p + LineWidth(ls[0]) <= |s|
      && StarReplaceFrom(s, p) == "\n" + ls[0].text + StarReplaceFrom(s, p + LineWidth(ls[0]))
      && Steps(s, p + LineWidth(ls[0]), ls[1..])
  }

  /** Lines laid out from `p`, with their texts in place, are cut one by one. */
  lemma {:induction false} LinesSteps(s: string, p: nat, ls: seq<StarLine>)
    requires LinesAt(s, p, ls) && TextsAt(s, p, ls)
    ensures Steps(s, p, ls)
    decreases |ls|
  {
    if |ls| > 0 {
      LineStep(s, p, ls[0]);
      LinesSteps(s, p + LineWidth(ls[0]), ls[1..]);
    }
  }

  /** Lines cut one by one are cut down to their breaks and texts together. */
  lemma {:induction false} LinesCut(s: string, p: nat, ls: seq<StarLine>)
    requires Steps(s, p, ls)
    ensures Stop(p, ls) <= |s|
    ensures StarReplaceFrom(s, p) == LinesText(ls) + StarReplaceFrom(s, Stop(p, ls))
    decreases |ls|
  {
    if |ls| == 0 {
      assert LinesText(ls) + StarReplaceFrom(s, p) == StarReplaceFrom(s, p);
    } else {
      LinesCut(s, p + LineWidth(ls[0]), ls[1..]);
      LinesThen(s, p, ls);
    }
  }

  // From the written comment to positions.

  lemma LineSourceWidth(l: StarLine)
    ensures |LineSource(l)| == LineWidth(l)
  {
  }

  /** Where a conventional line puts its line break, star run and text. */
  lemma LineChars(s: string, p: nat, l: StarLine)
    requires PlainLine(l)
    requires p + LineWidth(l) < |s|
    requires s[p..p + LineWidth(l)] == LineSource(l)
    requires s[p + LineWidth(l)] == '\n'
    ensures LineAt(s, p, l)
    ensures s[p + 1 + |l.indent| + l.stars..p + LineWidth(l)] == l.text
  {
    var i, j := p + 1, p + 1 + |l.indent|;
    var q, e := j + l.stars, p + LineWidth(l);
    Halves(s, p, q, e, "\n" + l.indent + Stars(l.stars), l.text);
    Halves(s, p, j, q, "\n" + l.indent, Stars(l.stars));
    Halves(s, p, i, j, "\n", l.indent);
    assert s[p] == s[p..i][0];
    SliceAt(s, i, j, l.indent);
    SliceAt(s, j, q, Stars(l.stars));
    SliceAt(s, q, e, l.text);
    StarLineOver(s, i, |l.indent|, l.stars);
  }

  /** Conventional lines spelt out in `s` from `p` sit there as positions say. */
  lemma {:induction false} LinesLayout(s: string, p: nat, ls: seq<StarLine>)
    requires forall i :: 0 <= i < |ls| ==> PlainLine(ls[i])
    requires Stop(p, ls) < |s|
    requires s[p..Stop(p, ls)] == LinesSource(ls)
    requires s[Stop(p, ls)] == '\n'
    ensures LinesAt(s, p, ls) && TextsAt(s, p, ls)
    decreases |ls|
  {
    if |ls| > 0 {
      LayoutHead(s, p, ls);
      LinesLayout(s, p + LineWidth(ls[0]), ls[1..]);
    }
  }

  /** The first of the lines spelt out in `s` from `p`, and where the others are spelt out. */
  lemma LayoutHead(s: string, p: nat, ls: seq<StarLine>)
    requires |ls| > 0 && forall i :: 0 <= i < |ls| ==> PlainLine(ls[i])
    requires Stop(p, ls) < |s|
    requires s[p..Stop(p, ls)] == LinesSource(ls)
    requires s[Stop(p, ls)] == '\n'
    ensures LineAt(s, p, ls[0])
    ensures s[p + 1 + |ls[0].indent| + ls[0].stars..p + LineWidth(ls[0])] == ls[0].text
    ensures var e := p + LineWidth(ls[0]);
      && Stop(e, ls[1..]) < |s|
      && s[e..Stop(e, ls[1..])] == LinesSource(ls[1..])
      && s[Stop(e, ls[1..])] == '\n'
  {
    var e, f := p + LineWidth(ls[0]), Stop(p, ls);
    LineSourceWidth(ls[0]);
    Halves(s, p, e, f, LineSource(ls[0]), LinesSource(ls[1..]));
    assert s[e] == '\n' by {
      if |ls| > 1 {
        LinesSourceBreak(ls[1..]);
        assert s[e] == s[e..f][0];
      }
    }
    LineChars(s, p, ls[0]);
  }

  lemma StripComment(body: string, ws: string)
    ensures StripSlashes("/**" + body + "\n" + ws + "*/") == "**" + body + "\n" + ws + "*"
  {
    var c := "/**" + body + "\n" + ws + "*/";
    assert c[0] == '/' && c[|c| - 1] == '/';
    assert c[1..|c| - 1] == "**" + body + "\n" + ws + "*";
  }

  /** Where the stripped comment has its opening stars, lines and closing run. */
  lemma CommentChars(x: string, body: string, ws: string)
    requires x == "**" + body + "\n" + ws + "*"
    requires AllSpace(ws)
    ensures var e := 2 + |body|;
      && x[0] == '*' && x[1] == '*'
      && x[2..e] == body && x[e] == '\n' && e + 2 + |ws| == |x|
      && (forall j :: e + 1 <= j < e + 1 + |ws| ==> IsSpace(x[j]))
      && x[e + 1 + |ws|] == '*'
  {
    var e := 2 + |body|;
    assert x[0..|x|] == x;
    Halves(x, 0, e + 1, |x|, "**" + body + "\n", ws + "*");
    Halves(x, 0, e, e + 1, "**" + body, "\n");
    Halves(x, 0, 2, e, "**", body);
    assert x[e] == x[e..e + 1][0];
    SliceAt(x, e + 1, |x|, ws + "*");
  }

  /** The replacement on a stripped comment told by positions. */
  lemma ReplaceComment(x: string, ls: seq<StarLine>, ws: nat)
    requires 3 <= |x| && x[0] == '*' && x[1] == '*' && x[2] == '\n'
    requires Steps(x, 2, ls)
    requires var e := Stop(2, ls);
      && e + 2 + ws == |x| && x[e] == '\n'
      && (forall j :: e + 1 <= j < e + 1 + ws ==> IsSpace(x[j]))
      && x[e + 1 + ws] == '*'
    ensures StarReplace(x) == LinesText(ls) + "\n"
  {
    OpeningRun(x);
    ClosingRun(x, Stop(2, ls), ws);
    LinesCut(x, 2, ls);
  }

  /** The opening `**` is a star run of its own and goes. */
  lemma OpeningRun(x: string)
    requires 3 <= |x| && x[0] == '*' && x[1] == '*' && x[2] == '\n'
    ensures StarReplace(x) == StarReplaceFrom(x, 2)
  {
    StarLineOver(x, 0, 0, 2);
  }

  /** The closing line, white space and one star, leaves only its line break. */
  lemma ClosingRun(x: string, e: nat, ws: nat)
    requires e + 2 + ws == |x| && x[e] == '\n'
    requires forall j :: e + 1 <= j < e + 1 + ws ==> IsSpace(x[j])
    requires x[e + 1 + ws] == '*'
    ensures StarReplaceFrom(x, e) == "\n"
  {
    StarLineOver(x, e + 1, ws, 1);
    CutLine(x, e);
    assert StarReplaceFrom(x, |x|) == [];
  }

  /** The stripped comment's lines are cut one by one. */
  lemma CommentSteps(x: string, ls: seq<StarLine>, ws: string)
    requires forall i :: 0 <= i < |ls| ==> PlainLine(ls[i])
    requires AllSpace(ws)
    requires x == "**" + LinesSource(ls) + "\n" + ws + "*"
    ensures Stop(2, ls) == 2 + |LinesSource(ls)| && x[2] == '\n'
    ensures Steps(x, 2, ls)
  {
    var body := LinesSource(ls);
    CommentChars(x, body, ws);
    SourceWidth(ls);
    StopWidth(2, ls);
    assert x[2] == '\n' by {
      if |ls| > 0 {
        LinesSourceBreak(ls);
        assert x[2] == x[2..2 + |body|][0];
      }
    }
    LinesLayout(x, 2, ls);
    LinesSteps(x, 2, ls);
  }

  /**
   * A comment written the usual way, `/**`, conventional lines, then `*/`
   * on a line of its own, gives the loader the lines' texts verbatim, each
   * after its line break: inner stars, indentation after the stars and the
   * line structure all reach the YAML loader.
   */
  lemma YamlTextOfStarLines(ls: seq<StarLine>, ws: string)
    requires forall i :: 0 <= i < |ls| ==> PlainLine(ls[i])
    requires AllSpace(ws)
    ensures YamlText("/**" + LinesSource(ls) + "\n" + ws + "*/") == LinesText(ls) + "\n"
  {
    var x := "**" + LinesSource(ls) + "\n" + ws + "*";
    StripComment(LinesSource(ls), ws);
    CommentSteps(x, ls, ws);
    CommentChars(x, LinesSource(ls), ws);
    ReplaceComment(x, ls, |ws|);
  }

  // ----- parseCodeFrontmatter -------------------------------------------------

  /**
   * Parses the leading frontmatter comment of `raw` with the YAML oracle
   * `yaml` (`None` when it throws). The code loses its comment only when the
   * loaded value is truthy; otherwise it is the raw text, untouched.
   */
  function ParseCodeFrontmatter<V>(raw: string, yaml: string -> Option<YamlDoc<V>>): (r: Parsed<V>)
    ensures forall a :: WellCut(raw, a) ==> r.frontmatter == yaml(YamlText(a.comment))
    ensures !Truthy(r.frontmatter) ==> r.code == raw
    ensures Truthy(r.frontmatter) ==> exists a :: WellCut(raw, a) && r.code == a.code
  {
    var a := Dissect(raw);
    var fm := yaml(YamlText(a.comment));
    forall b | WellCut(raw, b)
      ensures b == a
    {
      WellCutUnique(raw, a, b);
    }
    Parsed(if Truthy(fm) then a.code else raw, fm)
  }

  // A text without line breaks has no frontmatter comment (a one-line
  // `/** x */` does not count): the loader sees the empty text, and as long
  // as it maps that to a falsy value the code is the raw text.
  lemma SingleLineHasNoFrontmatter<V>(raw: string, yaml: string -> Option<YamlDoc<V>>)
    requires forall i :: 0 <= i < |raw| ==> raw[i] != '\n'
    ensures Dissect(raw).comment == []
    ensures ParseCodeFrontmatter(raw, yaml).frontmatter == yaml([])
    ensures !Truthy(yaml([])) ==> ParseCodeFrontmatter(raw, yaml).code == raw
  {
    var a := Dissect(raw);
    assert a.lead == [];
    assert StripSlashes([]) == [];
  }

  /**
   * Truthy frontmatter leaves the code that follows the comment and the white
   * space after it: every character of the comment sits before the code.
   */
  lemma CommentNeverInCode<V>(raw: string, yaml: string -> Option<YamlDoc<V>>)
    requires Truthy(ParseCodeFrontmatter(raw, yaml).frontmatter)
    ensures ParseCodeFrontmatter(raw, yaml).code == Dissect(raw).code
    ensures raw == Dissect(raw).lead + Dissect(raw).comment + Dissect(raw).gap
                   + ParseCodeFrontmatter(raw, yaml).code
  {
    var b :| WellCut(raw, b) && ParseCodeFrontmatter(raw, yaml).code == b.code;
    WellCutUnique(raw, Dissect(raw), b);
  }
}
