/** Python `str` semantics used by the bot: `sub in s`, `startswith`, `s[1:]`,
    `split(sep, maxsplit)`, `split()` and `strip()`, stated on `seq<char>`. */
module PyStr {

  datatype Option<+T> = None | Some(value: T)

  /** Python's `str.isspace()` for one character (the Unicode whitespace set
      CPython uses for `split()` and `strip()` without arguments). */
  predicate IsSpace(c: char)
  {
    ('\t' <= c <= '\r') || ('\U{1C}' <= c <= '\U{1F}') || c == ' '
    || c == '\U{85}' || c == '\U{A0}' || c == '\U{1680}'
    || ('\U{2000}' <= c <= '\U{200A}') || c == '\U{2028}' || c == '\U{2029}'
    || c == '\U{202F}' || c == '\U{205F}' || c == '\U{3000}'
  }

  predicate AllSpace(s: string)
  {
    forall i :: 0 <= i < |s| ==> IsSpace(s[i])
  }

  /** `s[1:]`: drops the first character; empty stays empty. */
  function Tail(s: string): (r: string)
    ensures s == [] ==> r == []
    ensures s != [] ==> s == [s[0]] + r
  {
    if s == [] then [] else s[1..]
  }

  /** `s.startswith(prefix)` */
  predicate StartsWith(s: string, prefix: string)
  {
    |prefix| <= |s| && s[..|prefix|] == prefix
  }

  /** `sub` occurs in `s` starting at index `i`. */
  predicate OccursAt(s: string, sub: string, i: nat)
  {
    i + |sub| <= |s| && s[i..i + |sub|] == sub
  }

  function IndexFrom(s: string, sub: string, from: nat): (r: Option<nat>)
    decreases |s| - from
    ensures r.Some? ==> from <= r.value && OccursAt(s, sub, r.value)
    ensures r.Some? ==> forall j :: from <= j < r.value ==> !OccursAt(s, sub, j)
    ensures r.None? ==> forall j :: from <= j ==> !OccursAt(s, sub, j)
  {
    if |s| < from + |sub| then None
    else if OccursAt(s, sub, from) then Some(from)
    else IndexFrom(s, sub, from + 1)
  }

  /** `s.find(sub)`, with `None` for Python's -1: the first occurrence. */
  function Find(s: string, sub: string): (r: Option<nat>)
    ensures r.Some? ==> OccursAt(s, sub, r.value)
    ensures r.Some? ==> forall j: nat :: j < r.value ==> !OccursAt(s, sub, j)
    ensures r.None? ==> forall j: nat :: !OccursAt(s, sub, j)
  {
    IndexFrom(s, sub, 0)
  }

  /** `sub in s` */
  predicate Contains(s: string, sub: string)
  {
    Find(s, sub).Some?
  }

  /** `s.split(sep, maxsplit)` for a non-empty `sep`; a negative `maxsplit`
      means no limit, as in Python. */
  function Split(s: string, sep: string, maxsplit: int): (parts: seq<string>)
    requires sep != []
    decreases |s|
    ensures parts != []
    ensures maxsplit >= 0 ==> |parts| <= maxsplit + 1
  {
    if maxsplit == 0 then [s]
    else match Find(s, sep)
      case None => [s]
      case Some(i) => [s[..i]] + Split(s[i + |sep|..], sep, maxsplit - 1)
  }

  /** `sep.join(parts)` */
  function Join(parts: seq<string>, sep: string): string
  {
    if |parts| == 0 then []
    else if |parts| == 1 then parts[0]
    else parts[0] + sep + Join(parts[1..], sep)
  }

  /** No proper suffix of `sep` is also a prefix of it, so two occurrences
      never overlap (true of "\r\n", " " and "!"). */
  predicate Unbordered(sep: string)
  {
    forall d :: 0 < d < |sep| ==> sep[d..] != sep[..|sep| - d]
  }

  lemma OccursInPrefix(s: string, sub: string, n: nat, j: nat)
    requires n <= |s|
    ensures OccursAt(s[..n], sub, j) ==> OccursAt(s, sub, j)
    ensures j + |sub| <= n && OccursAt(s, sub, j) ==> OccursAt(s[..n], sub, j)
  {
    if j + |sub| <= n {
      assert s[..n][j..j + |sub|] == s[j..j + |sub|];
    }
  }

  /** `sub in s` holds exactly when `sub` occurs somewhere in `s`. */
  lemma ContainsIff(s: string, sub: string)
    ensures Contains(s, sub) <==> exists j: nat :: OccursAt(s, sub, j)
  {
  }

  /** A string without the first character of `sep` cannot contain `sep`. */
  lemma {:induction false} MissingCharNotContained(s: string, sep: string)
    requires sep != [] && sep[0] !in s
    ensures !Contains(s, sep)
  {
    forall j: nat | j < |s|
      ensures !OccursAt(s, sep, j)
    {
      assert s[j] in s;
      if j + |sep| <= |s| {
        assert s[j..j + |sep|][0] == s[j];
      }
    }
  }

  /** A piece that stops at the first occurrence of `sep` has no `sep` in it. */
  lemma BeforeFirstNotContained(s: string, sep: string)
    requires sep != [] && Find(s, sep).Some?
    ensures !Contains(s[..Find(s, sep).value], sep)
  {
    var i := Find(s, sep).value;
    if Contains(s[..i], sep) {
      var j := Find(s[..i], sep).value;
      OccursInPrefix(s, sep, i, j);
      assert false;
    }
  }

  /** One step of `split`: the piece before the first separator, then the
      split of what follows it. */
  lemma SplitStep(s: string, sep: string, maxsplit: int, i: nat)
    requires sep != [] && maxsplit != 0 && Find(s, sep) == Some(i)
    ensures Split(s, sep, maxsplit) == [s[..i]] + Split(s[i + |sep|..], sep, maxsplit - 1)
  {
  }

  lemma AroundOccurrence(s: string, sep: string, i: nat)
    requires OccursAt(s, sep, i)
    ensures s == s[..i] + sep + s[i + |sep|..]
  {
    assert s == s[..i] + s[i..i + |sep|] + s[i + |sep|..];
  }

  /** Splitting then joining with the same separator gives back the string. */
  lemma {:induction false} SplitJoin(s: string, sep: string, maxsplit: int)
    requires sep != []
    ensures Join(Split(s, sep, maxsplit), sep) == s
    decreases |s|
  {
    var f := Find(s, sep);
    if maxsplit == 0 || f.None? {
      assert Split(s, sep, maxsplit) == [s];
    } else {
      var i := f.value;
      SplitJoin(s[i + |sep|..], sep, maxsplit - 1);
      SplitJoinStep(s, sep, maxsplit, i);
    }
  }

  lemma SplitJoinStep(s: string, sep: string, maxsplit: int, i: nat)
    requires sep != [] && maxsplit != 0 && Find(s, sep) == Some(i)
    requires Join(Split(s[i + |sep|..], sep, maxsplit - 1), sep) == s[i + |sep|..]
    ensures Join(Split(s, sep, maxsplit), sep) == s
  {
    var rest := s[i + |sep|..];
    var tail := Split(rest, sep, maxsplit - 1);
    SplitStep(s, sep, maxsplit, i);
    JoinCons(s[..i], tail, sep);
    AroundOccurrence(s, sep, i);
  }

  lemma JoinCons(p: string, ps: seq<string>, sep: string)
    requires ps != []
    ensures Join([p] + ps, sep) == p + sep + Join(ps, sep)
  {
    assert ([p] + ps)[1..] == ps;
  }

  /** Every piece but the last is free of `sep`; the last one holds `sep`
      only when `maxsplit` splits have been made. */
  lemma {:induction false} SplitPieces(s: string, sep: string, maxsplit: int)
    requires sep != []
    ensures var parts := Split(s, sep, maxsplit);
      (forall k :: 0 <= k < |parts| - 1 ==> !Contains(parts[k], sep))
      && (Contains(parts[|parts| - 1], sep) ==> maxsplit >= 0 && |parts| == maxsplit + 1)
    decreases |s|
  {
    if maxsplit != 0 {
      match Find(s, sep)
      case None =>
      case Some(i) =>
        var tail := Split(s[i + |sep|..], sep, maxsplit - 1);
        SplitStep(s, sep, maxsplit, i);
        var parts := [s[..i]] + tail;
        BeforeFirstNotContained(s, sep);
        SplitPieces(s[i + |sep|..], sep, maxsplit - 1);
        forall k | 0 <= k < |parts| - 1
          ensures !Contains(parts[k], sep)
        {
          if k > 0 {
            assert parts[k] == tail[k - 1];
          }
        }
        assert parts[|parts| - 1] == tail[|tail| - 1];
    }
  }

  /** An occurrence of `sep` in `x + sep + y` that starts inside `x` and
      runs into the following `sep` would make `sep` bordered. */
  lemma StraddleIsBorder(x: string, y: string, sep: string, j: nat)
    requires j < |x| < j + |sep| && OccursAt(x + sep + y, sep, j)
    ensures sep[|x| - j..] == sep[..|sep| - (|x| - j)]
  {
    var s := x + sep + y;
    var d := |x| - j;
    assert s[|x|..|x| + |sep|] == sep;
    calc == {
      sep[d..];
      s[j..j + |sep|][d..];
      s[|x|..j + |sep|];
      s[|x|..|x| + |sep|][..|sep| - d];
      sep[..|sep| - d];
    }
  }

  /** With a non-overlapping separator, the first occurrence of `sep` in
      `x + sep + y` is right after `x` when `x` has none. */
  lemma FindAfterPiece(x: string, y: string, sep: string)
    requires sep != [] && Unbordered(sep) && !Contains(x, sep)
    ensures Find(x + sep + y, sep) == Some(|x|)
  {
    var s := x + sep + y;
    assert s[|x|..|x| + |sep|] == sep;
    assert OccursAt(s, sep, |x|);
    assert s[..|x|] == x;
    forall j: nat | j < |x|
      ensures !OccursAt(s, sep, j)
    {
      if j + |sep| <= |x| {
        OccursInPrefix(s, sep, |x|, j);
      } else if OccursAt(s, sep, j) {
        StraddleIsBorder(x, y, sep, j);
      }
    }
  }

  /** Splitting `x + sep + y` peels off `x` and continues on `y`. */
  lemma SplitAfterPiece(x: string, y: string, sep: string, maxsplit: int)
    requires sep != [] && Unbordered(sep) && !Contains(x, sep) && maxsplit != 0
    ensures Split(x + sep + y, sep, maxsplit) == [x] + Split(y, sep, maxsplit - 1)
  {
    FindAfterPiece(x, y, sep);
    var s := x + sep + y;
    assert s[..|x|] == x;
    assert s[|x| + |sep|..] == y;
  }

  /** A string without `sep` splits into itself alone. */
  lemma SplitWhole(s: string, sep: string, maxsplit: int)
    requires sep != [] && !Contains(s, sep)
    ensures Split(s, sep, maxsplit) == [s]
  {
  }

  /** Joining `sep`-free pieces and splitting again gives back the pieces. */
  lemma {:induction false} JoinSplit(parts: seq<string>, sep: string, maxsplit: int)
    requires sep != [] && Unbordered(sep) && parts != [] && maxsplit < 0
    requires forall k :: 0 <= k < |parts| ==> !Contains(parts[k], sep)
    ensures Split(Join(parts, sep), sep, maxsplit) == parts
  {
    if |parts| == 1 {
      SplitWhole(parts[0], sep, maxsplit);
    } else {
      var tail := parts[1..];
      assert forall k :: 0 <= k < |tail| ==> !Contains(tail[k], sep) by {
        forall k | 0 <= k < |tail| ensures !Contains(tail[k], sep) {
          assert tail[k] == parts[k + 1];
        }
      }
      JoinSplit(tail, sep, maxsplit - 1);
      assert Join(parts, sep) == parts[0] + sep + Join(tail, sep);
      SplitAfterPiece(parts[0], Join(tail, sep), sep, maxsplit);
    }
  }

  /** With a non-empty prefix `p`, `s.split(p, 1)` is `["", s[len(p):]]`. */
  lemma SplitAtPrefix(s: string, p: string)
    requires p != [] && StartsWith(s, p)
    ensures Split(s, p, 1) == ["", s[|p|..]]
  {
    assert OccursAt(s, p, 0);
  }

  /** Length of the leading run of non-space characters. */
  function SpanNonSpace(s: string): (n: nat)
    ensures n <= |s|
    ensures forall i :: 0 <= i < n ==> !IsSpace(s[i])
    ensures n < |s| ==> IsSpace(s[n])
  {
    if s == [] || IsSpace(s[0]) then 0 else 1 + SpanNonSpace(s[1..])
  }

  /** A word of `split()`: non-empty and without whitespace. */
  predicate IsWord(w: string)
  {
    w != [] && forall i :: 0 <= i < |w| ==> !IsSpace(w[i])
  }

  /** Every element is a word (stated recursively so that it unfolds only
      on demand). */
  predicate AllWords(ws: seq<string>)
  {
    ws == [] || (IsWord(ws[0]) && AllWords(ws[1..]))
  }

  /** A list is a list of words exactly when each of its elements is one. */
  lemma {:induction false} AllWordsIndexed(ws: seq<string>)
    ensures AllWords(ws) <==> forall k :: 0 <= k < |ws| ==> IsWord(ws[k])
    decreases |ws|
  {
    if ws != [] {
      AllWordsIndexed(ws[1..]);
      assert forall k :: 0 < k < |ws| ==> ws[k] == ws[1..][k - 1];
    }
  }

  /** `s.split()`: the maximal runs of non-whitespace characters, in order. */
  function Words(s: string): (ws: seq<string>)
    decreases |s|
  {
    if s == [] then []
    else if IsSpace(s[0]) then Words(s[1..])
    else
      var n := SpanNonSpace(s);
      [s[..n]] + Words(s[n..])
  }

  lemma {:induction false} WordsAreWords(s: string)
    ensures forall k :: 0 <= k < |Words(s)| ==> IsWord(Words(s)[k])
    decreases |s|
  {
    if s == [] {
    } else if IsSpace(s[0]) {
      WordsAreWords(s[1..]);
    } else {
      WordsAreWords(s[SpanNonSpace(s)..]);
    }
  }

  /** `split()` finds no word exactly when the string is all whitespace. */
  lemma {:induction false} WordsEmptyIff(s: string)
    ensures Words(s) == [] <==> AllSpace(s)
    decreases |s|
  {
    if s != [] && IsSpace(s[0]) {
      WordsEmptyIff(s[1..]);
      assert forall i :: 0 < i < |s| ==> s[i] == s[1..][i - 1];
    }
  }

  lemma {:induction false} SpanOfWord(w: string, y: string)
    requires forall i :: 0 <= i < |w| ==> !IsSpace(w[i])
    requires y == [] || IsSpace(y[0])
    ensures SpanNonSpace(w + y) == |w|
  {
    if w != [] {
      assert (w + y)[1..] == w[1..] + y;
      SpanOfWord(w[1..], y);
    }
  }

  /** `split()` after joining words with single spaces gives back the words. */
  lemma {:induction false} WordsJoin(ws: seq<string>)
    requires AllWords(ws)
    ensures Words(Join(ws, " ")) == ws
  {
    if |ws| == 1 {
      SpanOfWord(ws[0], []);
      assert ws[0] + [] == ws[0];
    } else if |ws| > 1 {
      var rest := Join(ws[1..], " ");
      WordsJoin(ws[1..]);
      var s := ws[0] + " " + rest;
      assert s == ws[0] + (" " + rest);
      SpanOfWord(ws[0], " " + rest);
      assert s[..|ws[0]|] == ws[0];
      assert s[|ws[0]|..] == " " + rest;
      assert (" " + rest)[1..] == rest;
    }
  }

  /** Whitespace in front, of any kind and length, is skipped by `split()`. */
  lemma {:induction false} WordsSkipSpace(g: string, y: string)
    requires AllSpace(g)
    ensures Words(g + y) == Words(y)
    decreases |g|
  {
    if g != [] {
      assert (g + y)[0] == g[0];
      assert (g + y)[1..] == g[1..] + y;
      assert AllSpace(g[1..]) by {
        assert forall i :: 0 <= i < |g| - 1 ==> g[1..][i] == g[i + 1];
      }
      WordsSkipSpace(g[1..], y);
    } else {
      assert g + y == y;
    }
  }

  /** A word followed by a run of whitespace (or by nothing) is the first
      word of `split()`, which then goes on after the run. */
  lemma WordsPeel(w: string, g: string, y: string)
    requires IsWord(w) && AllSpace(g) && (g != [] || y == [])
    ensures Words(w + g + y) == [w] + Words(y)
  {
    var s := w + g + y;
    assert s == w + (g + y);
    assert g + y == [] || IsSpace((g + y)[0]) by {
      if g != [] {
        assert (g + y)[0] == g[0];
      }
    }
    SpanOfWord(w, g + y);
    assert s[0] == w[0];
    assert s[..|w|] == w;
    assert s[|w|..] == g + y;
    WordsSkipSpace(g, y);
  }

  /** Words laid out with a whitespace run after each, the last run possibly
      empty. */
  function Spaced(ws: seq<string>, gaps: seq<string>): string
    requires |gaps| == |ws|
    decreases |ws|
  {
    if ws == [] then [] else ws[0] + gaps[0] + Spaced(ws[1..], gaps[1..])
  }

  /** `split()` of words separated by runs of any whitespace, with any
      leading and trailing whitespace, is exactly those words. */
  lemma {:induction false} WordsSpaced(lead: string, ws: seq<string>, gaps: seq<string>)
    requires |gaps| == |ws| && AllWords(ws) && AllSpace(lead)
    requires forall k :: 0 <= k < |gaps| ==> AllSpace(gaps[k])
    requires forall k :: 0 <= k < |gaps| - 1 ==> gaps[k] != []
    ensures Words(lead + Spaced(ws, gaps)) == ws
    decreases |ws|
  {
    WordsSkipSpace(lead, Spaced(ws, gaps));
    if ws != [] {
      var rest := Spaced(ws[1..], gaps[1..]);
      assert forall k :: 0 <= k < |gaps| - 1 ==> gaps[1..][k] == gaps[k + 1];
      WordsSpaced([], ws[1..], gaps[1..]);
      assert [] + rest == rest;
      assert rest == [] || gaps[0] != [];
      WordsPeel(ws[0], gaps[0], rest);
      assert [ws[0]] + ws[1..] == ws;
    }
  }

  /** The step of `lstrip`: a leading space in front of what the rest
      strips away is stripped away too. */
  lemma TrimStartStep(s: string, r: string)
    requires s != [] && IsSpace(s[0]) && |r| < |s|
    requires r == s[1..][|s| - 1 - |r|..] && AllSpace(s[1..][..|s| - 1 - |r|])
    ensures r == s[|s| - |r|..] && AllSpace(s[..|s| - |r|])
  {
    var n := |s| - |r|;
    forall i | 0 < i < n
      ensures IsSpace(s[..n][i])
    {
      assert s[..n][i] == s[1..][..n - 1][i - 1];
    }
  }

  /** `s.lstrip()` */
  function TrimStart(s: string): (r: string)
    ensures |r| <= |s| && r == s[|s| - |r|..]
    ensures AllSpace(s[..|s| - |r|])
    ensures r == [] || !IsSpace(r[0])
  {
    if s != [] && IsSpace(s[0]) then
      var r := TrimStart(s[1..]);
      TrimStartStep(s, r);
      r
    else s
  }

  /** The step of `rstrip`: a trailing space behind what the rest strips
      away is stripped away too. */
  lemma TrimEndStep(s: string, r: string)
    requires s != [] && IsSpace(s[|s| - 1]) && |r| < |s|
    requires r == s[..|s| - 1][..|r|] && AllSpace(s[..|s| - 1][|r|..])
    ensures r == s[..|r|] && AllSpace(s[|r|..])
  {
    forall i | 0 <= i < |s| - 1 - |r|
      ensures IsSpace(s[|r|..][i])
    {
      assert s[|r|..][i] == s[..|s| - 1][|r|..][i];
    }
  }

  /** `s.rstrip()` */
  function TrimEnd(s: string): (r: string)
    ensures |r| <= |s| && r == s[..|r|]
    ensures AllSpace(s[|r|..])
    ensures r == [] || !IsSpace(r[|r| - 1])
  {
    if s != [] && IsSpace(s[|s| - 1]) then
      var r := TrimEnd(s[..|s| - 1]);
      TrimEndStep(s, r);
      r
    else s
  }

  /** `s.strip()`: leading and trailing whitespace removed. */
  function Strip(s: string): (r: string)
    ensures r == [] || (!IsSpace(r[0]) && !IsSpace(r[|r| - 1]))
  {
    TrimEnd(TrimStart(s))
  }

  lemma {:induction false} TrimStartOf(a: string, x: string)
    requires AllSpace(a) && (x == [] || !IsSpace(x[0]))
    ensures TrimStart(a + x) == x
  {
    if a != [] {
      assert (a + x)[1..] == a[1..] + x;
      TrimStartOf(a[1..], x);
    }
  }

  lemma {:induction false} TrimEndOf(x: string, b: string)
    requires AllSpace(b) && (x == [] || !IsSpace(x[|x| - 1]))
    ensures TrimEnd(x + b) == x
  {
    if b != [] {
      assert (x + b)[..|x + b| - 1] == x + b[..|b| - 1];
      TrimEndOf(x, b[..|b| - 1]);
    } else {
      assert x + b == x;
    }
  }

  /** `strip()` removes exactly the surrounding whitespace and nothing of a
      core that neither starts nor ends with whitespace. */
  lemma StripOf(a: string, core: string, b: string)
    requires AllSpace(a) && AllSpace(b)
    requires core == [] || (!IsSpace(core[0]) && !IsSpace(core[|core| - 1]))
    ensures Strip(a + core + b) == core
  {
    if core == [] {
      assert a + core + b == a + b;
      assert AllSpace(a + b);
      TrimStartOf(a + b, []);
      assert a + b + [] == a + b;
    } else {
      assert a + core + b == a + (core + b);
      TrimStartOf(a, core + b);
      TrimEndOf(core, b);
    }
  }
}
