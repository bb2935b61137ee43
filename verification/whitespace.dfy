/** Whitespace handling of extension/anchoring.js: `normalizeWs` and the
    normalised-to-original index map built by `findTextNormalized`. */
module Whitespace {

  /** JavaScript's `\s` class, which is also the set `String.prototype.trim`
      removes: tab, line feed, vertical tab, form feed, carriage return,
      space, no-break space, the other space separators, the line and
      paragraph separators, and the byte order mark. */
  predicate IsWs(c: char)
  {
    var n := c as int;
    || (0x09 <= n <= 0x0D) || n == 0x20 || n == 0xA0 || n == 0x1680
    || (0x2000 <= n <= 0x200A) || n == 0x2028 || n == 0x2029
    || n == 0x202F || n == 0x205F || n == 0x3000 || n == 0xFEFF
  }

  predicate AllWs(s: string)
  {
    forall i :: 0 <= i < |s| ==> IsWs(s[i])
  }

  /** Drops the leading whitespace run. */
  function SkipWs(s: string): (r: string)
    ensures |r| <= |s|
    ensures |s| > 0 && IsWs(s[0]) ==> |r| < |s|
    ensures |r| > 0 ==> !IsWs(r[0])
  {
    if |s| > 0 && IsWs(s[0]) then SkipWs(s[1..]) else s
  }

  /** What `SkipWs` drops is a whitespace prefix: the result is the rest. */
  lemma {:induction false} SkipWsSuffix(s: string)
    ensures var r := SkipWs(s); r == s[|s| - |r|..] && AllWs(s[..|s| - |r|])
    decreases |s|
  {
    if |s| > 0 && IsWs(s[0]) {
      SkipWsSuffix(s[1..]);
      var r := SkipWs(s);
      assert s[1..][|s| - 1 - |r|..] == s[|s| - |r|..];
      assert s[..|s| - |r|] == [s[0]] + s[1..][..|s| - 1 - |r|];
    }
  }

  /** Drops the trailing whitespace run. */
  function TrimEnd(s: string): (r: string)
    ensures |r| <= |s|
    ensures |r| > 0 ==> !IsWs(r[|r| - 1])
  {
    if |s| > 0 && IsWs(s[|s| - 1]) then TrimEnd(s[..|s| - 1]) else s
  }

  /** What `TrimEnd` drops is a whitespace suffix: the result is the rest. */
  lemma {:induction false} TrimEndPrefix(s: string)
    ensures var r := TrimEnd(s); r == s[..|r|] && AllWs(s[|r|..])
    decreases |s|
  {
    if |s| > 0 && IsWs(s[|s| - 1]) {
      TrimEndPrefix(s[..|s| - 1]);
      var r := TrimEnd(s);
      assert s[..|s| - 1][..|r|] == s[..|r|];
      assert s[|r|..] == s[..|s| - 1][|r|..] + [s[|s| - 1]];
    }
  }

  /** `String.prototype.trim`. */
  function Trim(s: string): string
  {
    TrimEnd(SkipWs(s))
  }

  /** Whitespace at `i` and at `i + 1`. */
  predicate WsPair(s: string, i: nat)
    requires i + 1 < |s|
  {
    IsWs(s[i]) && IsWs(s[i + 1])
  }

  /** No whitespace other than single spaces, and never two in a row. */
  predicate Collapsed(s: string)
  {
    && (forall i :: 0 <= i < |s| && IsWs(s[i]) ==> s[i] == ' ')
    && (forall i :: 0 <= i < |s| - 1 ==> !WsPair(s, i))
  }

  predicate NoEdgeWs(s: string)
  {
    |s| > 0 ==> !IsWs(s[0]) && !IsWs(s[|s| - 1])
  }

  /** The shape of every `normalizeWs` result. */
  predicate Normal(s: string)
  {
    Collapsed(s) && NoEdgeWs(s)
  }

  /** `str.replace(/\s+/g, " ")`: every maximal whitespace run becomes one
      space; everything else is kept. */
  function CollapseRuns(s: string): (r: string)
    ensures |r| <= |s|
    ensures |s| > 0 <==> |r| > 0
    ensures |s| > 0 ==> r[0] == (if IsWs(s[0]) then ' ' else s[0])
    decreases |s|
  {
    if |s| == 0 then ""
    else if IsWs(s[0]) then " " + CollapseRuns(SkipWs(s))
    else [s[0]] + CollapseRuns(s[1..])
  }

  /** Putting a character in front of a collapsed string keeps it collapsed
      when the character is not whitespace, or is a space before a word. */
  lemma CollapsedCons(c: char, t: string)
    requires Collapsed(t)
    requires IsWs(c) ==> c == ' ' && (|t| > 0 ==> !IsWs(t[0]))
    ensures Collapsed([c] + t)
  {
    var u := [c] + t;
    forall i | 0 <= i < |u| - 1
      ensures !WsPair(u, i)
    {
      if i > 0 {
        assert !WsPair(t, i - 1);
      }
    }
  }

  /** The replacement leaves no whitespace run longer than one space. */
  lemma {:induction false} CollapseRunsCollapsed(s: string)
    ensures Collapsed(CollapseRuns(s))
    decreases |s|
  {
    if |s| > 0 {
      if IsWs(s[0]) {
        CollapseRunsCollapsed(SkipWs(s));
        CollapsedCons(' ', CollapseRuns(SkipWs(s)));
      } else {
        CollapseRunsCollapsed(s[1..]);
        CollapsedCons(s[0], CollapseRuns(s[1..]));
      }
    }
  }

  /** Trimming keeps a string collapsed ... */
  lemma TrimKeepsCollapsed(c: string)
    requires Collapsed(c)
    ensures Collapsed(Trim(c))
  {
    var a, b := TrimIsSlice(c);
    CollapsedSlice(c, a, b);
  }

  /** The trimmed string is a slice of the original. */
  lemma TrimIsSlice(c: string) returns (a: nat, b: nat)
    ensures a <= b <= |c| && Trim(c) == c[a..b]
  {
    var k := SkipWs(c);
    var r := TrimEnd(k);
    SkipWsSuffix(c);
    TrimEndPrefix(k);
    a, b := |c| - |k|, |c| - |k| + |r|;
    assert k == c[a..];
    assert r == k[..|r|];
    assert c[a..b] == k[..|r|];
  }

  /** ... and leaves no whitespace at either end. */
  lemma TrimNoEdgeWs(c: string)
    ensures NoEdgeWs(Trim(c))
  {
    var k := SkipWs(c);
    var r := TrimEnd(k);
    TrimEndPrefix(k);
    if |r| > 0 {
      assert r[0] == k[0];
    }
  }

  /** `normalizeWs(str)`: `str.replace(/\s+/g, " ").trim()`. */
  function NormalizeWs(s: string): (r: string)
    ensures Normal(r)
    ensures |r| <= |s|
  {
    CollapseRunsCollapsed(s);
    TrimKeepsCollapsed(CollapseRuns(s));
    TrimNoEdgeWs(CollapseRuns(s));
    Trim(CollapseRuns(s))
  }

  /** Any slice of a collapsed string is collapsed. */
  lemma CollapsedSlice(s: string, a: nat, b: nat)
    requires Collapsed(s) && a <= b <= |s|
    ensures Collapsed(s[a..b])
  {
    var t := s[a..b];
    forall i | 0 <= i < |t| - 1
      ensures !WsPair(t, i)
    {
      assert !WsPair(s, a + i);
    }
  }

  /** A collapsed string is its own collapse. */
  lemma {:induction false} CollapseRunsKeepsCollapsed(s: string)
    requires Collapsed(s)
    ensures CollapseRuns(s) == s
    decreases |s|
  {
    if |s| > 0 {
      CollapsedUncons(s);
      CollapseRunsKeepsCollapsed(s[1..]);
      assert s == [s[0]] + s[1..];
    }
  }

  /** Taking the first character off a collapsed string leaves it collapsed,
      and collapsing it only sees that one character. */
  lemma CollapsedUncons(s: string)
    requires Collapsed(s) && |s| > 0
    ensures Collapsed(s[1..])
    ensures CollapseRuns(s) == [s[0]] + CollapseRuns(s[1..])
  {
    CollapsedSlice(s, 1, |s|);
    assert s[1..|s|] == s[1..];
    if IsWs(s[0]) {
      assert SkipWs(s) == s[1..] by {
        if |s| > 1 {
          assert !WsPair(s, 0);
          assert SkipWs(s[1..]) == s[1..];
        }
      }
    }
  }

  /** A string without whitespace at either end is its own trim. */
  lemma TrimKeepsNoEdgeWs(s: string)
    requires NoEdgeWs(s)
    ensures Trim(s) == s
  {
    if |s| > 0 {
      assert SkipWs(s) == s;
    }
  }

  /** A string that collapses to text without whitespace at either end
      normalises to that text. */
  lemma NormalizeCollapsedTo(x: string, n: string)
    requires CollapseRuns(x) == n && NoEdgeWs(n)
    ensures NormalizeWs(x) == n
  {
    TrimKeepsNoEdgeWs(n);
  }

  /** `normalizeWs` leaves normalised text alone ... */
  lemma NormalizeWsKeepsNormal(s: string)
    requires Normal(s)
    ensures NormalizeWs(s) == s
  {
    CollapseRunsKeepsCollapsed(s);
    TrimKeepsNoEdgeWs(s);
  }

  /** ... so normalising twice is the same as normalising once. */
  lemma NormalizeWsIdempotent(s: string)
    ensures NormalizeWs(NormalizeWs(s)) == NormalizeWs(s)
  {
    NormalizeWsKeepsNormal(NormalizeWs(s));
  }

  /** The non-whitespace characters of `s`, in order: the text that
      normalisation must keep. */
  function NonWs(s: string): string
  {
    if |s| == 0 then ""
    else (if IsWs(s[0]) then "" else [s[0]]) + NonWs(s[1..])
  }

  lemma {:induction false} NonWsAppend(a: string, b: string)
    ensures NonWs(a + b) == NonWs(a) + NonWs(b)
  {
    if |a| > 0 {
      assert (a + b)[1..] == a[1..] + b;
      NonWsAppend(a[1..], b);
    } else {
      assert a + b == b;
    }
  }

  lemma {:induction false} NonWsEmptyIffAllWs(s: string)
    ensures NonWs(s) == "" <==> AllWs(s)
  {
    if |s| > 0 {
      NonWsEmptyIffAllWs(s[1..]);
      if AllWs(s[1..]) && IsWs(s[0]) {
        assert AllWs(s);
      }
    }
  }

  /** Skipping leading whitespace drops no other character. */
  lemma NonWsSkipWs(s: string)
    ensures NonWs(SkipWs(s)) == NonWs(s)
  {
    var r := SkipWs(s);
    SkipWsSuffix(s);
    var k := |s| - |r|;
    assert s == s[..k] + r;
    NonWsAppend(s[..k], r);
    NonWsEmptyIffAllWs(s[..k]);
  }

  /** Trimming trailing whitespace drops no other character. */
  lemma NonWsTrimEnd(s: string)
    ensures NonWs(TrimEnd(s)) == NonWs(s)
  {
    var r := TrimEnd(s);
    TrimEndPrefix(s);
    assert s == r + s[|r|..];
    NonWsAppend(r, s[|r|..]);
    NonWsEmptyIffAllWs(s[|r|..]);
  }

  /** Collapsing whitespace runs keeps every other character, in order. */
  lemma {:induction false} NonWsCollapseRuns(s: string)
    ensures NonWs(CollapseRuns(s)) == NonWs(s)
    decreases |s|
  {
    if |s| > 0 {
      if IsWs(s[0]) {
        var t := SkipWs(s);
        NonWsCollapseRuns(t);
        NonWsAppend(" ", CollapseRuns(t));
        NonWsSkipWs(s);
      } else {
        NonWsCollapseRuns(s[1..]);
        NonWsAppend([s[0]], CollapseRuns(s[1..]));
      }
    }
  }

  /** Normalisation changes only whitespace: the text without whitespace is
      the same before and after. */
  lemma NonWsNormalizeWs(s: string)
    ensures NonWs(NormalizeWs(s)) == NonWs(s)
  {
    NonWsCollapseRuns(s);
    NonWsSkipWs(CollapseRuns(s));
    NonWsTrimEnd(SkipWs(CollapseRuns(s)));
  }

  /** Text normalises to nothing exactly when it is all whitespace. */
  lemma NormalizeWsEmptyIffAllWs(s: string)
    ensures NormalizeWs(s) == "" <==> AllWs(s)
  {
    var r := NormalizeWs(s);
    NonWsNormalizeWs(s);
    NonWsEmptyIffAllWs(s);
    NonWsEmptyIffAllWs(r);
  }

  /** Skipping a whitespace run stops at the first other character. */
  lemma {:induction false} SkipWsPrefix(x: string, y: string)
    requires AllWs(x) && (|y| > 0 ==> !IsWs(y[0]))
    ensures SkipWs(x + y) == y
    decreases |x|
  {
    if |x| == 0 {
      assert x + y == y;
    } else {
      assert (x + y)[1..] == x[1..] + y;
      SkipWsPrefix(x[1..], y);
    }
  }

  /** A whitespace run in front of a word collapses to one space. */
  lemma CollapseWsPrefix(x: string, y: string)
    requires |x| > 0 && AllWs(x) && (|y| > 0 ==> !IsWs(y[0]))
    ensures CollapseRuns(x + y) == " " + CollapseRuns(y)
  {
    assert (x + y)[0] == x[0];
    SkipWsPrefix(x, y);
  }

  /** Skipping whitespace in front of text that ends in a word stays inside
      that text. */
  lemma {:induction false} SkipWsAppend(a: string, c: string)
    requires |a| > 0 && !IsWs(a[|a| - 1])
    ensures SkipWs(a + c) == SkipWs(a) + c
    ensures |SkipWs(a)| > 0 && SkipWs(a)[|SkipWs(a)| - 1] == a[|a| - 1]
    decreases |a|
  {
    if IsWs(a[0]) {
      assert (a + c)[1..] == a[1..] + c;
      SkipWsAppend(a[1..], c);
    }
  }

  /** Text ending in a word collapses independently of what follows. */
  lemma {:induction false} CollapseRunsAppend(a: string, c: string)
    requires |a| > 0 ==> !IsWs(a[|a| - 1])
    ensures CollapseRuns(a + c) == CollapseRuns(a) + CollapseRuns(c)
    decreases |a|
  {
    if |a| == 0 {
      assert a + c == c;
    } else if IsWs(a[0]) {
      SkipWsAppend(a, c);
      CollapseRunsAppend(SkipWs(a), c);
    } else {
      assert (a + c)[1..] == a[1..] + c;
      CollapseRunsAppend(a[1..], c);
    }
  }

  /** A whitespace run between two words becomes exactly one space: words
      are never joined and never pushed further apart. */
  lemma CollapseSeparatesWords(a: string, w: string, b: string)
    requires |a| > 0 ==> !IsWs(a[|a| - 1])
    requires |w| > 0 && AllWs(w) && (|b| > 0 ==> !IsWs(b[0]))
    ensures CollapseRuns(a + w + b) == CollapseRuns(a) + " " + CollapseRuns(b)
  {
    var x := w + b;
    CollapseWsPrefix(w, b);
    CollapseRunsAppend(a, x);
    assert a + w + b == a + x;
  }

  /** Two normalised words separated by any whitespace normalise to the
      words joined by one space. */
  lemma NormalizeJoinsWithOneSpace(a: string, w: string, b: string)
    requires Normal(a) && Normal(b) && |a| > 0 && |b| > 0
    requires |w| > 0 && AllWs(w)
    ensures NormalizeWs(a + w + b) == a + " " + b
  {
    CollapseSeparatesWords(a, w, b);
    CollapseRunsKeepsCollapsed(a);
    CollapseRunsKeepsCollapsed(b);
    NormalizeCollapsedTo(a + w + b, a + " " + b);
  }

  /** One character of the normalised text (`normalizedChars[k]`) and the
      index of the original text it stands for (`origIndexMap[k]`). */
  datatype Entry = Entry(ch: char, at: nat)

  function Chars(es: seq<Entry>): (t: string)
    ensures |t| == |es|
  {
    seq(|es|, k requires 0 <= k < |es| => es[k].ch)
  }

  /** An entry fits the original text: a non-whitespace character is copied
      from its index, and a space stands for the first character of a
      whitespace run. */
  predicate EntryFits(s: string, e: Entry)
  {
    && e.at < |s|
    && if e.ch == ' '
       then IsWs(s[e.at]) && e.at > 0 && !IsWs(s[e.at - 1])
       else !IsWs(e.ch) && s[e.at] == e.ch
  }

  /** Consecutive entries: after a copied character the next entry is the
      very next index; after a space, the rest of the run is skipped and the
      next entry is a copied character. */
  predicate Linked(s: string, a: Entry, b: Entry)
  {
    && a.at < b.at <= |s|
    && if a.ch == ' ' then AllWs(s[a.at..b.at]) && !IsWs(b.ch) else b.at == a.at + 1
  }

  predicate LinkedAt(s: string, es: seq<Entry>, k: nat)
    requires k + 1 < |es|
  {
    Linked(s, es[k], es[k + 1])
  }

  predicate Shaped(s: string, es: seq<Entry>)
  {
    && (forall k :: 0 <= k < |es| ==> EntryFits(s, es[k]))
    && (forall k :: 0 <= k < |es| - 1 ==> LinkedAt(s, es, k))
  }

  lemma ShapedCons(s: string, e: Entry, rest: seq<Entry>)
    requires EntryFits(s, e) && Shaped(s, rest)
    requires |rest| > 0 ==> Linked(s, e, rest[0])
    ensures Shaped(s, [e] + rest)
  {
    var es := [e] + rest;
    forall k | 0 <= k < |es| - 1
      ensures LinkedAt(s, es, k)
    {
      if k > 0 {
        assert LinkedAt(s, rest, k - 1);
      }
    }
  }

  /** The loop of `findTextNormalized` from index `i` on, with `inSpace`
      recording whether the previous character was whitespace and `started`
      whether anything has been emitted yet. */
  function Scan(s: string, i: nat, inSpace: bool, started: bool): (es: seq<Entry>)
    requires i <= |s|
    requires inSpace == (i > 0 && IsWs(s[i - 1]))
    requires started ==> i > 0
    ensures Shaped(s, es)
    ensures forall k :: 0 <= k < |es| ==> i <= es[k].at
    ensures |es| > 0 ==> es[0].at == i || (AllWs(s[i..es[0].at]) && !IsWs(es[0].ch))
    ensures (inSpace || !started) && |es| > 0 ==> !IsWs(es[0].ch)
    ensures !inSpace && started && i < |s| ==> |es| > 0 && es[0].at == i
    decreases |s| - i
  {
    if i == |s| then []
    else if IsWs(s[i]) then
      var rest := Scan(s, i + 1, true, started);
      if !inSpace && started then
        assert |rest| > 0 ==> AllWs(s[i..rest[0].at]) by {
          if |rest| > 0 && rest[0].at > i + 1 {
            assert s[i..rest[0].at] == [s[i]] + s[i + 1..rest[0].at];
          }
        }
        ShapedCons(s, Entry(' ', i), rest);
        [Entry(' ', i)] + rest
      else
        assert |rest| > 0 ==> AllWs(s[i..rest[0].at]) by {
          if |rest| > 0 && rest[0].at > i + 1 {
            assert s[i..rest[0].at] == [s[i]] + s[i + 1..rest[0].at];
          }
        }
        rest
    else
      var rest := Scan(s, i + 1, false, true);
      ShapedCons(s, Entry(s[i], i), rest);
      [Entry(s[i], i)] + rest
  }

  /** The index map of the whole text. */
  function IndexMap(s: string): (es: seq<Entry>)
    ensures Shaped(s, es)
    ensures |es| > 0 ==> !IsWs(es[0].ch)
  {
    Scan(s, 0, false, false)
  }

  /** The map is strictly increasing. */
  lemma {:induction false} IndexMapIncreasing(s: string, es: seq<Entry>, a: nat, b: nat)
    requires Shaped(s, es) && a < b < |es|
    ensures es[a].at < es[b].at
    decreases b - a
  {
    assert LinkedAt(s, es, a);
    if a + 1 < b {
      IndexMapIncreasing(s, es, a + 1, b);
    }
  }

  /** The original text between two entries, the second a copied character,
      collapses to exactly the normalised text between them. */
  lemma {:induction false} SliceCollapses(s: string, es: seq<Entry>, i: nat, j: nat)
    requires Shaped(s, es) && i <= j < |es| && !IsWs(es[j].ch)
    ensures es[i].at <= es[j].at
    ensures CollapseRuns(s[es[i].at..es[j].at + 1]) == Chars(es[i..j + 1])
    decreases j - i
  {
    assert EntryFits(s, es[j]);
    if i == j {
      CopiedCollapses(s, es[j]);
      assert es[i..j + 1] == [es[j]];
    } else {
      SliceCollapses(s, es, i + 1, j);
      var p, q := es[i], es[i + 1];
      assert LinkedAt(s, es, i);
      assert EntryFits(s, p) && EntryFits(s, q);
      SliceStep(s, p, q, es[j].at + 1, Chars(es[i + 1..j + 1]));
      CharsSliceCons(es, i, j);
    }
  }

  /** The original text between the entries `i` and `j` normalises to `n`,
      the text the entries from `i` to `j` spell, when `n` has no
      whitespace at either end. */
  lemma SliceNormalizes(s: string, es: seq<Entry>, i: nat, j: nat, n: string)
    requires Shaped(s, es) && i <= j < |es|
    requires Chars(es[i..j + 1]) == n && NoEdgeWs(n)
    ensures es[i].at <= es[j].at < |s|
    ensures NormalizeWs(s[es[i].at..es[j].at + 1]) == n
  {
    assert es[j].ch == n[j - i];
    assert EntryFits(s, es[j]);
    SliceCollapses(s, es, i, j);
    NormalizeCollapsedTo(s[es[i].at..es[j].at + 1], n);
  }

  /** A copied character on its own collapses to itself. */
  lemma CopiedCollapses(s: string, e: Entry)
    requires EntryFits(s, e) && !IsWs(e.ch)
    ensures CollapseRuns(s[e.at..e.at + 1]) == [e.ch]
  {
    assert s[e.at..e.at + 1] == [e.ch];
    assert CollapseRuns([e.ch]) == [e.ch] + CollapseRuns([]);
  }

  /** Extending a collapsed slice to the left by one linked entry puts that
      entry's character in front. */
  lemma SliceStep(s: string, p: Entry, q: Entry, e: nat, rest: string)
    requires EntryFits(s, p) && EntryFits(s, q) && Linked(s, p, q) && q.at < e <= |s|
    requires CollapseRuns(s[q.at..e]) == rest
    ensures CollapseRuns(s[p.at..e]) == [p.ch] + rest
  {
    var x, y := s[p.at..q.at], s[q.at..e];
    assert s[p.at..e] == x + y;
    if p.ch == ' ' {
      assert y[0] == s[q.at] == q.ch;
      CollapseWsPrefix(x, y);
    } else {
      assert x == [p.ch];
      assert (x + y)[1..] == y;
    }
  }

  lemma CharsCons(e: Entry, es: seq<Entry>)
    ensures Chars([e] + es) == [e.ch] + Chars(es)
  {
  }

  lemma CharsSliceCons(es: seq<Entry>, i: nat, j: nat)
    requires i < j < |es|
    ensures Chars(es[i..j + 1]) == [es[i].ch] + Chars(es[i + 1..j + 1])
  {
    assert es[i..j + 1] == [es[i]] + es[i + 1..j + 1];
    CharsCons(es[i], es[i + 1..j + 1]);
  }

  /** Skipping whitespace from a whitespace character is skipping from the
      next one. */
  lemma SkipWsStep(s: string, i: nat)
    requires i < |s| && IsWs(s[i])
    ensures SkipWs(s[i..]) == SkipWs(s[i + 1..])
  {
    assert s[i..][1..] == s[i + 1..];
  }

  /** Collapsing from a copied character keeps it and goes on from the next. */
  lemma CollapseStep(s: string, i: nat)
    requires i < |s| && !IsWs(s[i])
    ensures CollapseRuns(s[i..]) == [s[i]] + CollapseRuns(s[i + 1..])
    ensures SkipWs(s[i..]) == s[i..]
  {
    assert s[i..][1..] == s[i + 1..];
  }

  /** What the loop emits from index `i` on is the collapse of the rest of
      the text, without its leading run when the loop is inside a run or has
      emitted nothing yet. */
  lemma {:induction false} ScanCollapses(s: string, i: nat, inSpace: bool, started: bool)
    requires i <= |s|
    requires inSpace == (i > 0 && IsWs(s[i - 1]))
    requires started ==> i > 0
    ensures Chars(Scan(s, i, inSpace, started))
         == if inSpace || !started then CollapseRuns(SkipWs(s[i..])) else CollapseRuns(s[i..])
    decreases |s| - i
  {
    if i < |s| {
      if IsWs(s[i]) {
        var rest := Scan(s, i + 1, true, started);
        ScanCollapses(s, i + 1, true, started);
        SkipWsStep(s, i);
        if !inSpace && started {
          CharsCons(Entry(' ', i), rest);
        }
      } else {
        var rest := Scan(s, i + 1, false, true);
        ScanCollapses(s, i + 1, false, true);
        CharsCons(Entry(s[i], i), rest);
        CollapseStep(s, i);
      }
    }
  }

  /** Collapsing and skipping the leading run commute. */
  lemma SkipCollapseCommute(s: string)
    ensures SkipWs(CollapseRuns(s)) == CollapseRuns(SkipWs(s))
  {
    if |s| > 0 && IsWs(s[0]) {
      SkipWsPrefix([' '], CollapseRuns(SkipWs(s)));
      assert CollapseRuns(s) == [' '] + CollapseRuns(SkipWs(s));
    } else {
      assert SkipWs(s) == s;
    }
  }

  /** A collapsed string ends in at most one whitespace character. */
  lemma CollapsedTail(n: string)
    requires Collapsed(n)
    ensures n == TrimEnd(n) || n == TrimEnd(n) + " "
  {
    if |n| > 0 && IsWs(n[|n| - 1]) {
      var p := n[..|n| - 1];
      if |p| > 0 {
        assert !WsPair(n, |n| - 2);
        assert p[|p| - 1] == n[|n| - 2];
      }
      assert TrimEnd(p) == p;
      assert n == p + " ";
    }
  }

  /** The normalised text the loop builds is `normalizeWs` of the original
      text, except that a trailing whitespace run leaves one trailing space. */
  lemma IndexMapText(s: string)
    ensures NormalizeWs(s) == TrimEnd(Chars(IndexMap(s)))
    ensures Chars(IndexMap(s)) == NormalizeWs(s)
         || Chars(IndexMap(s)) == NormalizeWs(s) + " "
  {
    ScanCollapses(s, 0, false, false);
    assert s[0..] == s;
    SkipCollapseCommute(s);
    CollapseRunsCollapsed(SkipWs(s));
    CollapsedTail(Chars(IndexMap(s)));
  }
}
