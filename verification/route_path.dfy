/**
 * The path part of `getRoutePathFromFsPath`: Windows separators become `/`
 * (`winPath`), then `replace(/((\/|^)index)?\.\w+$/g, '')` drops the file
 * extension together with a directly preceding `index` segment. The final
 * `lodash.kebabCase` is an uninterpreted oracle.
 */
module RoutePath {
  import opened JsText

  /** `winPath`: every backslash becomes a forward slash, nothing else changes. */
  function WinPath(p: string): (r: string)
    ensures |r| == |p|
    ensures forall i :: 0 <= i < |p| ==> r[i] == (if p[i] == '\\' then '/' else p[i])
  {
    if p == [] then [] else [if p[0] == '\\' then '/' else p[0]] + WinPath(p[1..])
  }

  /** A normalised path holds no backslash, and normalising it again changes nothing. */
  lemma WinPathNormalises(p: string)
    ensures forall i :: 0 <= i < |WinPath(p)| ==> WinPath(p)[i] != '\\'
    ensures WinPath(WinPath(p)) == WinPath(p)
  {
  }

  // ----- the suffix pattern ------------------------------------------------------

  /** `\.\w+$` matches at `d`: a dot followed by one or more word characters up to the end. */
  predicate ExtAt(s: string, d: int) {
    0 <= d && d + 1 < |s| && s[d] == '.' && forall i :: d < i < |s| ==> IsWordChar(s[i])
  }

  /** `((\/|^)index)?\.\w+$` matches at `p`, with or without its optional group. */
  predicate SuffixMatchAt(s: string, p: int) {
    || ExtAt(s, p)
    || (p == 0 && |s| >= 5 && s[..5] == "index" && ExtAt(s, 5))
    || (0 <= p && p + 6 <= |s| && s[p..p + 6] == "/index" && ExtAt(s, p + 6))
  }

  /** Number of word characters at the end of `s`. */
  function WordTail(s: string): (n: nat)
    ensures n <= |s|
    ensures forall i :: |s| - n <= i < |s| ==> IsWordChar(s[i])
    ensures n == |s| || !IsWordChar(s[|s| - n - 1])
  {
    if s == [] || !IsWordChar(s[|s| - 1]) then 0 else 1 + WordTail(s[..|s| - 1])
  }

  /** A dot is not a word character, so at most one dot starts an extension. */
  lemma ExtAtIsLastDot(s: string, d: int)
    requires ExtAt(s, d)
    ensures d == |s| - 1 - WordTail(s)
  {
  }

  /**
   * The replacement of `((\/|^)index)?\.\w+$` by the empty string: the
   * leftmost match, if any, is cut off together with everything after it.
   */
  function StripRouteSuffix(s: string): (r: string)
    ensures (forall p :: 0 <= p <= |s| ==> !SuffixMatchAt(s, p)) <==> r == s
    ensures r != s ==> && |r| < |s| && r == s[..|r|]
                       && SuffixMatchAt(s, |r|)
                       && forall p :: 0 <= p < |r| ==> !SuffixMatchAt(s, p)
  {
    var w := WordTail(s);
    var d := |s| - 1 - w;
    if w == 0 || d < 0 || s[d] != '.' then
      NoMatchWithoutExt(s);
      s
    else
      assert ExtAt(s, d);
      MatchesAround(s, d);
      if d >= 6 && s[d - 6..d] == "/index" then s[..d - 6]
      else if d == 5 && s[..5] == "index" then []
      else s[..d]
  }

  /** Without a dot before the trailing word characters there is no extension anywhere. */
  lemma NoMatchWithoutExt(s: string)
    requires var w := WordTail(s); var d := |s| - 1 - w;
             w == 0 || d < 0 || s[d] != '.'
    ensures forall d :: !ExtAt(s, d)
  {
    forall d | ExtAt(s, d)
      ensures false
    {
      ExtAtIsLastDot(s, d);
    }
  }

  /** Every match sits at the extension dot, six before it, or at the start. */
  lemma MatchesAround(s: string, d: int)
    requires ExtAt(s, d)
    ensures forall p :: SuffixMatchAt(s, p) ==>
              || p == d
              || (p == d - 6 && s[d - 6..d] == "/index")
              || (p == 0 && d == 5 && s[..5] == "index")
    ensures SuffixMatchAt(s, d)
    ensures d >= 6 && s[d - 6..d] == "/index" ==> SuffixMatchAt(s, d - 6)
    ensures d == 5 && s[..5] == "index" ==> SuffixMatchAt(s, 0)
  {
    forall p | SuffixMatchAt(s, p)
      ensures || p == d
              || (p == d - 6 && s[d - 6..d] == "/index")
              || (p == 0 && d == 5 && s[..5] == "index")
    {
      if ExtAt(s, p) {
        ExtAtIsLastDot(s, p);
        ExtAtIsLastDot(s, d);
      } else if p == 0 && |s| >= 5 && s[..5] == "index" && ExtAt(s, 5) {
        ExtAtIsLastDot(s, 5);
        ExtAtIsLastDot(s, d);
      } else {
        ExtAtIsLastDot(s, p + 6);
        ExtAtIsLastDot(s, d);
      }
    }
  }

  /** A path whose last dot is not followed by word characters only keeps its tail. */
  lemma NoExtensionKeepsPath(s: string)
    requires forall d :: !ExtAt(s, d)
    ensures StripRouteSuffix(s) == s
  {
  }

  /** `getRoutePathFromFsPath`, with `lodash.kebabCase` as the oracle `kebab`. */
  function GetRoutePathFromFsPath(fsPath: string, kebab: string -> string): string {
    kebab(StripRouteSuffix(WinPath(fsPath)))
  }

  /** Windows and POSIX spellings of a path give the same route. */
  lemma RouteIgnoresSeparatorStyle(fsPath: string, kebab: string -> string)
    ensures GetRoutePathFromFsPath(fsPath, kebab) == GetRoutePathFromFsPath(WinPath(fsPath), kebab)
  {
    WinPathNormalises(fsPath);
  }

  /** The suffix goes from the leftmost match on. */
  lemma StripAt(s: string, p: int)
    requires 0 <= p <= |s| && SuffixMatchAt(s, p)
    requires forall q :: 0 <= q < p ==> !SuffixMatchAt(s, q)
    ensures StripRouteSuffix(s) == s[..p]
  {
  }

  /** `a/index.md` routes to `a`. */
  lemma ExampleIndexInFolder()
    ensures StripRouteSuffix("a/index.md") == "a"
  {
    var s := "a/index.md";
    assert ExtAt(s, 7);
    assert s[1..7] == "/index";
    assert SuffixMatchAt(s, 1);
    assert !SuffixMatchAt(s, 0);
    StripAt(s, 1);
  }

  /** A backslash between two separator-free segments turns into a slash. */
  lemma WinPathSeparator(a: string, b: string)
    requires forall i :: 0 <= i < |a| ==> a[i] != '\\'
    requires forall i :: 0 <= i < |b| ==> b[i] != '\\'
    ensures WinPath(a + ['\\'] + b) == a + ['/'] + b
  {
    WinPathConcat(a + ['\\'], b);
    WinPathConcat(a, ['\\']);
    WinPathKeeps(a);
    WinPathKeeps(b);
    assert WinPath(['\\']) == ['/'];
  }

  /** The rewrite works character by character, so it splits over concatenation. */
  lemma WinPathConcat(x: string, y: string)
    ensures WinPath(x + y) == WinPath(x) + WinPath(y)
  {
    var r, t := WinPath(x + y), WinPath(x) + WinPath(y);
    forall i | 0 <= i < |r|
      ensures r[i] == t[i]
    {
      if i < |x| {
        assert (x + y)[i] == x[i];
      } else {
        assert (x + y)[i] == y[i - |x|];
      }
    }
  }

  /** A path without backslashes is left as it is. */
  lemma WinPathKeeps(x: string)
    requires forall i :: 0 <= i < |x| ==> x[i] != '\\'
    ensures WinPath(x) == x
  {
    assert forall i :: 0 <= i < |x| ==> WinPath(x)[i] == x[i];
  }

  /** `index.md` routes to the empty path. */
  lemma ExampleTopIndex()
    ensures StripRouteSuffix("index.md") == ""
  {
    var s := "index.md";
    assert ExtAt(s, 5);
    assert s[..5] == "index";
    assert SuffixMatchAt(s, 0);
    StripAt(s, 0);
  }

  /** `a/b.tsx` routes to `a/b`. */
  lemma ExampleFile()
    ensures StripRouteSuffix("a/b.tsx") == "a/b"
  {
    var s := "a/b.tsx";
    assert ExtAt(s, 3);
    assert SuffixMatchAt(s, 3);
    forall q | 0 <= q < 3
      ensures !SuffixMatchAt(s, q)
    {
      ExtAtIsLastDot(s, 3);
    }
    StripAt(s, 3);
  }

  /** `a/b.c-d` has no `\.\w+` suffix and keeps its tail. */
  lemma ExampleNoExtension()
    ensures StripRouteSuffix("a/b.c-d") == "a/b.c-d"
  {
    var s := "a/b.c-d";
    assert !IsWordChar(s[5]);
    NoExtensionKeepsPath(s);
  }
}
