/** Text anchoring of extension/anchoring.js with the DOM abstracted away: a
    subtree is the sequence of its text nodes' contents, in document order,
    and a DOM range is a pair of (text node, offset) boundary points. */
module Anchoring {
  import opened Wrappers
  import opened Whitespace

  /** `{ node, start }`: a text node and the index in the concatenated text
      at which its content begins. */
  datatype TextNode = TextNode(text: string, start: nat)

  function End(n: TextNode): nat
  {
    n.start + |n.text|
  }

  /** The concatenation of the node contents (the subtree's `textContent`). */
  function Concat(texts: seq<string>): string
  {
    if |texts| == 0 then "" else texts[0] + Concat(texts[1..])
  }

  lemma {:induction false} ConcatSnoc(texts: seq<string>, t: string)
    ensures Concat(texts + [t]) == Concat(texts) + t
    decreases |texts|
  {
    if |texts| == 0 {
      assert texts + [t] == [t];
    } else {
      assert (texts + [t])[1..] == texts[1..] + [t];
      ConcatSnoc(texts[1..], t);
    }
  }

  predicate StartsAtEnd(nodes: seq<TextNode>, k: nat)
    requires k + 1 < |nodes|
  {
    nodes[k + 1].start == End(nodes[k])
  }

  predicate Holds(full: string, n: TextNode)
  {
    End(n) <= |full| && full[n.start..End(n)] == n.text
  }

  /** The nodes tile the text: they start at 0, each starts where the
      previous one ends, the last ends at the end of the text, and each
      node's content sits at its place in the text. */
  predicate Tiles(nodes: seq<TextNode>, full: string)
  {
    && (|nodes| == 0 ==> |full| == 0)
    && (|nodes| > 0 ==> nodes[0].start == 0 && End(nodes[|nodes| - 1]) == |full|)
    && (forall k :: 0 <= k < |nodes| - 1 ==> StartsAtEnd(nodes, k))
    && (forall k :: 0 <= k < |nodes| ==> Holds(full, nodes[k]))
  }

  datatype Collected = Collected(fullText: string, textNodes: seq<TextNode>)

  /** `collectTextNodes`: walk the text nodes in order, recording for each
      the current length of the text, then appending its content. */
  function CollectTextNodes(texts: seq<string>): (c: Collected)
    ensures c.fullText == Concat(texts)
    ensures |c.textNodes| == |texts|
    ensures Tiles(c.textNodes, c.fullText)
  {
    if |texts| == 0 then Collected("", [])
    else
      var init := texts[..|texts| - 1];
      var last := texts[|texts| - 1];
      var c := CollectTextNodes(init);
      var c' := Collected(c.fullText + last, c.textNodes + [TextNode(last, |c.fullText|)]);
      assert texts == init + [last];
      ConcatSnoc(init, last);
      CollectStep(c.textNodes, c.fullText, last);
      c'
  }

  /** Node `k` holds the content of the `k`-th text node and starts at the
      total length of the nodes before it. */
  lemma {:induction false} CollectTextNodesOffsets(texts: seq<string>)
    ensures var c := CollectTextNodes(texts);
            forall k :: 0 <= k < |texts| ==> c.textNodes[k] == TextNode(texts[k], |Concat(texts[..k])|)
    decreases |texts|
  {
    if |texts| > 0 {
      var init := texts[..|texts| - 1];
      var last := texts[|texts| - 1];
      CollectTextNodesOffsets(init);
      var c := CollectTextNodes(texts);
      var ci := CollectTextNodes(init);
      assert c.textNodes == ci.textNodes + [TextNode(last, |ci.fullText|)];
      forall k | 0 <= k < |texts|
        ensures c.textNodes[k] == TextNode(texts[k], |Concat(texts[..k])|)
      {
        if k < |init| {
          assert texts[..k] == init[..k];
        } else {
          assert texts[..k] == init;
        }
      }
    }
  }

  lemma CollectStep(nodes: seq<TextNode>, full: string, t: string)
    requires Tiles(nodes, full)
    ensures Tiles(nodes + [TextNode(t, |full|)], full + t)
  {
    var nodes' := nodes + [TextNode(t, |full|)];
    var full' := full + t;
    forall k | 0 <= k < |nodes'|
      ensures Holds(full', nodes'[k])
    {
      if k < |nodes| {
        assert Holds(full, nodes[k]);
        assert full'[nodes[k].start..End(nodes[k])] == full[nodes[k].start..End(nodes[k])];
      } else {
        assert full'[|full|..|full'|] == t;
      }
    }
    forall k | 0 <= k < |nodes'| - 1
      ensures StartsAtEnd(nodes', k)
    {
      if k < |nodes| - 1 {
        assert StartsAtEnd(nodes, k);
      }
    }
  }

  /** A DOM boundary point: a text node (by position) and an offset in it. */
  datatype Boundary = Boundary(node: nat, offset: int)

  /** A range over one list of text nodes. It does not record which list:
      the selected container's or the body's. Callers know which list they
      passed to `BuildRange`, and statements about a range name that list. */
  datatype Range = Range(start: Boundary, end: Boundary)

  /** The loop of `buildRange` from node `i` on; `startAt` is the start
      boundary once it has been set. */
  function BuildFrom(nodes: seq<TextNode>, start: nat, end: nat, i: nat, startAt: Option<Boundary>): Option<Range>
    decreases |nodes| - i
  {
    if i >= |nodes| then None
    else
      var tn := nodes[i];
      var startAt' := if startAt.None? && start < End(tn) then Some(Boundary(i, start - tn.start)) else startAt;
      if startAt'.Some? && end <= End(tn) then Some(Range(startAt'.value, Boundary(i, end - tn.start)))
      else BuildFrom(nodes, start, end, i + 1, startAt')
  }

  /** `buildRange(textNodes, start, end)`: the range from global index
      `start` to global index `end`, or null. */
  function BuildRange(nodes: seq<TextNode>, start: nat, end: nat): Option<Range>
  {
    BuildFrom(nodes, start, end, 0, None)
  }

  /** A boundary inside one of the nodes, with its global index. */
  predicate Points(nodes: seq<TextNode>, b: Boundary, at: int)
  {
    b.node < |nodes| && 0 <= b.offset <= |nodes[b.node].text| && nodes[b.node].start + b.offset == at
  }

  /** The induction behind `BuildRangeFinds`: the loop state at node `i`. */
  lemma {:induction false} BuildFromFinds(nodes: seq<TextNode>, full: string, start: nat, end: nat,
                                          i: nat, startAt: Option<Boundary>)
    requires Tiles(nodes, full) && start < end <= |full| && i <= |nodes|
    requires startAt.None? ==> i < |nodes| && nodes[i].start <= start
    requires startAt.Some? ==> (i < |nodes| && nodes[i].start < end
                                && Points(nodes, startAt.value, start) && startAt.value.node < i
                                && startAt.value.offset < |nodes[startAt.value.node].text|)
    ensures var r := BuildFrom(nodes, start, end, i, startAt);
            && r.Some?
            && Points(nodes, r.value.start, start) && Points(nodes, r.value.end, end)
            && r.value.start.node <= r.value.end.node
            && r.value.start.offset < |nodes[r.value.start.node].text|
    decreases |nodes| - i
  {
    var tn := nodes[i];
    assert Holds(full, tn);
    var startAt' := if startAt.None? && start < End(tn) then Some(Boundary(i, start - tn.start)) else startAt;
    if i + 1 < |nodes| {
      assert StartsAtEnd(nodes, i);
    } else {
      assert End(tn) == |full|;
    }
    if !(startAt'.Some? && end <= End(tn)) {
      BuildFromFinds(nodes, full, start, end, i + 1, startAt');
    }
  }

  /** For `0 <= start < end <= |fullText|` the range exists, its boundaries
      lie inside their nodes, and they point back at `start` and `end`. The
      start is strictly inside its node, never at its end. */
  lemma BuildRangeFinds(nodes: seq<TextNode>, full: string, start: nat, end: nat)
    requires Tiles(nodes, full) && start < end <= |full|
    ensures var r := BuildRange(nodes, start, end);
            && r.Some?
            && Points(nodes, r.value.start, start) && Points(nodes, r.value.end, end)
            && r.value.start.node <= r.value.end.node
            && r.value.start.offset < |nodes[r.value.start.node].text|
  {
    BuildFromFinds(nodes, full, start, end, 0, None);
  }

  lemma {:induction false} BuildFromMisses(nodes: seq<TextNode>, full: string, start: nat, end: nat,
                                           i: nat, startAt: Option<Boundary>)
    requires Tiles(nodes, full)
    requires (startAt.None? && start >= |full|) || end > |full|
    ensures BuildFrom(nodes, start, end, i, startAt).None?
    decreases |nodes| - i
  {
    if i < |nodes| {
      assert Holds(full, nodes[i]);
      BuildFromMisses(nodes, full, start, end, i + 1,
                      if startAt.None? && start < End(nodes[i]) then Some(Boundary(i, start - nodes[i].start)) else startAt);
    }
  }

  /** There is no range when `start` or `end` lies beyond the text. */
  lemma BuildRangeMisses(nodes: seq<TextNode>, full: string, start: nat, end: nat)
    requires Tiles(nodes, full) && (start >= |full| || end > |full|)
    ensures BuildRange(nodes, start, end).None?
  {
    BuildFromMisses(nodes, full, start, end, 0, None);
  }

  /** Whether `pat` occurs in `text` at index `j`. */
  predicate MatchAt(text: string, pat: string, j: int)
  {
    0 <= j && j + |pat| <= |text| && text[j..j + |pat|] == pat
  }

  /** `text.indexOf(pat, i)` for the search loop from index `i`. */
  function IndexFrom(text: string, pat: string, i: nat): (r: int)
    ensures r == -1 || (i <= r && MatchAt(text, pat, r))
    ensures r == -1 ==> forall j :: i <= j ==> !MatchAt(text, pat, j)
    ensures r >= 0 ==> forall j :: i <= j < r ==> !MatchAt(text, pat, j)
    decreases |text| + 1 - i
  {
    if i + |pat| > |text| then -1
    else if text[i..i + |pat|] == pat then i
    else IndexFrom(text, pat, i + 1)
  }

  /** `text.indexOf(pat)`: the first occurrence, or -1. */
  function IndexOf(text: string, pat: string): (r: int)
    ensures r == -1 <==> forall j :: !MatchAt(text, pat, j)
    ensures r >= 0 ==> MatchAt(text, pat, r) && forall j :: 0 <= j < r ==> !MatchAt(text, pat, j)
  {
    IndexFrom(text, pat, 0)
  }

  ghost predicate Occurs(text: string, pat: string)
  {
    exists j :: MatchAt(text, pat, j)
  }

  /** `findTextInNode(node, searchText)`: the first exact occurrence. */
  function FindTextInNode(texts: seq<string>, search: string): Option<Range>
  {
    if search == "" then None
    else ExactRange(CollectTextNodes(texts), search)
  }

  /** The search and range-building part of `findTextInNode`. */
  function ExactRange(c: Collected, search: string): Option<Range>
  {
    var index := IndexOf(c.fullText, search);
    if index == -1 then None
    else BuildRange(c.textNodes, index, index + |search|)
  }

  /** The part of the collected text a range covers (`range.toString()`). */
  function Covered(c: Collected, r: Range): string
  {
    var nodes := c.textNodes;
    if r.start.node < |nodes| && r.end.node < |nodes| then
      var a := nodes[r.start.node].start + r.start.offset;
      var b := nodes[r.end.node].start + r.end.offset;
      if 0 <= a <= b <= |c.fullText| then c.fullText[a..b] else ""
    else ""
  }

  /** A range whose boundaries point at `a` and `b` covers `a..b`. */
  lemma CoveredSlice(c: Collected, r: Range, a: int, b: int)
    requires Points(c.textNodes, r.start, a) && Points(c.textNodes, r.end, b)
    requires 0 <= a <= b <= |c.fullText|
    ensures Covered(c, r) == c.fullText[a..b]
  {
  }

  /** The exact search finds something exactly when the search text is
      non-empty and occurs. */
  lemma FindTextInNodeFinds(texts: seq<string>, search: string)
    ensures FindTextInNode(texts, search).Some?
        <==> search != "" && Occurs(CollectTextNodes(texts).fullText, search)
  {
    ExactRangeSpec(CollectTextNodes(texts), search);
  }

  /** What the exact search finds is the first occurrence, so the text it
      covers is the search text itself. */
  lemma FindTextInNodeCovers(texts: seq<string>, search: string)
    requires FindTextInNode(texts, search).Some?
    ensures Covered(CollectTextNodes(texts), FindTextInNode(texts, search).value) == search
    ensures Points(CollectTextNodes(texts).textNodes, FindTextInNode(texts, search).value.start,
                   IndexOf(CollectTextNodes(texts).fullText, search))
  {
    ExactRangeSpec(CollectTextNodes(texts), search);
  }

  lemma ExactRangeSpec(c: Collected, search: string)
    requires Tiles(c.textNodes, c.fullText)
    ensures search != "" ==> (ExactRange(c, search).Some? <==> Occurs(c.fullText, search))
    ensures search != "" && ExactRange(c, search).Some? ==>
              && Covered(c, ExactRange(c, search).value) == search
              && Points(c.textNodes, ExactRange(c, search).value.start, IndexOf(c.fullText, search))
  {
    var index := IndexOf(c.fullText, search);
    if search != "" && index != -1 {
      ExactHit(c, search, index);
      assert ExactRange(c, search) == BuildRange(c.textNodes, index, index + |search|);
    }
  }

  /** An occurrence at `index` gives a range pointing at it and covering
      the search text. */
  lemma ExactHit(c: Collected, search: string, index: int)
    requires Tiles(c.textNodes, c.fullText) && search != ""
    requires MatchAt(c.fullText, search, index)
    ensures var r := BuildRange(c.textNodes, index, index + |search|);
            && r.Some?
            && Covered(c, r.value) == search
            && Points(c.textNodes, r.value.start, index)
  {
    BuildRangeFinds(c.textNodes, c.fullText, index, index + |search|);
    CoveredSlice(c, BuildRange(c.textNodes, index, index + |search|).value, index, index + |search|);
  }

  /** `findTextNormalized(node, searchText)`: search the whitespace-collapsed
      text for the normalised search text, then map the match back through
      the index map. A search text that is all whitespace normalises to the
      empty string; the script then reads an index before the start of the
      map, gets no valid end index, and `buildRange` returns null. */
  function FindTextNormalized(texts: seq<string>, search: string): Option<Range>
  {
    if search == "" then None
    else
      var c := CollectTextNodes(texts);
      NormalizedRange(c, IndexMap(c.fullText), NormalizeWs(search))
  }

  /** The search and mapping-back part of `findTextNormalized`, for the
      index map `es` of the collected text and the normalised search text
      `ns`. */
  function NormalizedRange(c: Collected, es: seq<Entry>, ns: string): Option<Range>
  {
    var idx := IndexOf(Chars(es), ns);
    if idx == -1 || |ns| == 0 then None
    else
      var origStart := es[idx].at;
      var origEnd := es[idx + |ns| - 1].at + 1;
      BuildRange(c.textNodes, origStart, origEnd)
  }

  /** The normalised search finds something exactly when the normalised
      search text is non-empty and occurs in the normalised page text. */
  lemma FindTextNormalizedFinds(texts: seq<string>, search: string)
    ensures FindTextNormalized(texts, search).Some?
        <==> NormalizeWs(search) != "" && Occurs(NormalizeWs(CollectTextNodes(texts).fullText), NormalizeWs(search))
  {
    var c := CollectTextNodes(texts);
    IndexMapText(c.fullText);
    NormalizedRangeFinds(c, IndexMap(c.fullText), NormalizeWs(search), NormalizeWs(c.fullText));
  }

  /** The text the normalised search covers normalises to the normalised
      search text. */
  lemma FindTextNormalizedCovers(texts: seq<string>, search: string)
    requires FindTextNormalized(texts, search).Some?
    ensures NormalizeWs(Covered(CollectTextNodes(texts), FindTextNormalized(texts, search).value)) == NormalizeWs(search)
  {
    var c := CollectTextNodes(texts);
    NormalizedRangeCovers(c, IndexMap(c.fullText), NormalizeWs(search));
  }

  /** `m` is the normalised text, which the index-map text spells up to a
      trailing space. */
  lemma NormalizedRangeFinds(c: Collected, es: seq<Entry>, ns: string, m: string)
    requires Tiles(c.textNodes, c.fullText) && Shaped(c.fullText, es) && Normal(ns)
    requires Chars(es) == m || Chars(es) == m + " "
    ensures NormalizedRange(c, es, ns).Some? <==> ns != "" && Occurs(m, ns)
  {
    if ns != "" {
      OccursInMapText(es, ns, m);
      if IndexOf(Chars(es), ns) != -1 {
        NormalizedRangeHits(c, es, ns);
      }
    }
  }

  lemma NormalizedRangeHits(c: Collected, es: seq<Entry>, ns: string)
    requires Tiles(c.textNodes, c.fullText) && Shaped(c.fullText, es) && Normal(ns)
    requires ns != "" && IndexOf(Chars(es), ns) != -1
    ensures NormalizedRange(c, es, ns).Some?
  {
    var idx := IndexOf(Chars(es), ns);
    NormalizedRangeAt(c, es, ns, idx);
    NormalizedHit(c, es, ns, idx);
  }

  /** Where the normalised text occurs, the normalised search maps its
      first match back through the index map. */
  lemma NormalizedRangeAt(c: Collected, es: seq<Entry>, ns: string, idx: int)
    requires Shaped(c.fullText, es) && |ns| > 0
    requires idx == IndexOf(Chars(es), ns) && idx != -1
    ensures 0 <= idx && idx + |ns| <= |es|
    ensures NormalizedRange(c, es, ns) == BuildRange(c.textNodes, es[idx].at, es[idx + |ns| - 1].at + 1)
  {
  }

  /** A non-empty normalised string occurs in the index-map text exactly
      when it occurs in the normalised text: the two differ at most by a
      trailing space, which such a string cannot end on. */
  lemma OccursInMapText(es: seq<Entry>, ns: string, m: string)
    requires Normal(ns) && ns != ""
    requires Chars(es) == m || Chars(es) == m + " "
    ensures IndexOf(Chars(es), ns) != -1 <==> Occurs(m, ns)
  {
    if Chars(es) != m {
      OccursIgnoringTrailingSpace(m, ns);
    }
  }

  lemma NormalizedRangeCovers(c: Collected, es: seq<Entry>, ns: string)
    requires Tiles(c.textNodes, c.fullText) && Shaped(c.fullText, es) && Normal(ns)
    requires NormalizedRange(c, es, ns).Some?
    ensures NormalizeWs(Covered(c, NormalizedRange(c, es, ns).value)) == ns
  {
    var idx := IndexOf(Chars(es), ns);
    NormalizedRangeAt(c, es, ns, idx);
    NormalizedHit(c, es, ns, idx);
  }

  /** The index-map text at `idx` spells `ns`, which starts and ends with
      non-whitespace: the original text between the mapped ends collapses
      and normalises to `ns`. */
  lemma MappedSliceNormalizes(full: string, es: seq<Entry>, ns: string, idx: nat)
    requires Shaped(full, es) && Normal(ns) && |ns| > 0
    requires idx + |ns| <= |es| && Chars(es)[idx..idx + |ns|] == ns
    ensures es[idx].at <= es[idx + |ns| - 1].at < |full|
    ensures NormalizeWs(full[es[idx].at..es[idx + |ns| - 1].at + 1]) == ns
  {
    CharsSlice(es, idx, idx + |ns|);
    assert Chars(es[idx..idx + |ns|]) == ns;
    SliceNormalizes(full, es, idx, idx + |ns| - 1, ns);
  }

  /** The characters of a slice of the map are the slice of its characters. */
  lemma CharsSlice(es: seq<Entry>, i: nat, j: nat)
    requires i <= j <= |es|
    ensures Chars(es[i..j]) == Chars(es)[i..j]
    ensures forall k :: i <= k < j ==> es[k].ch == Chars(es)[k]
  {
  }

  /** A match of `ns` at `idx` in the index-map text maps back to a range
      whose text normalises to `ns`. */
  lemma NormalizedHit(c: Collected, es: seq<Entry>, ns: string, idx: int)
    requires Tiles(c.textNodes, c.fullText) && Shaped(c.fullText, es)
    requires Normal(ns) && |ns| > 0 && MatchAt(Chars(es), ns, idx)
    ensures var r := BuildRange(c.textNodes, es[idx].at, es[idx + |ns| - 1].at + 1);
            r.Some? && NormalizeWs(Covered(c, r.value)) == ns
  {
    var a, b := es[idx].at, es[idx + |ns| - 1].at + 1;
    MappedSliceNormalizes(c.fullText, es, ns, idx);
    BuildRangeFinds(c.textNodes, c.fullText, a, b);
    CoveredSlice(c, BuildRange(c.textNodes, a, b).value, a, b);
  }

  /** A string that does not end in whitespace occurs in `m + " "` exactly
      when it occurs in `m`. */
  lemma OccursIgnoringTrailingSpace(m: string, ns: string)
    requires |ns| > 0 && !IsWs(ns[|ns| - 1])
    ensures Occurs(m + " ", ns) <==> Occurs(m, ns)
  {
    var n := m + " ";
    if Occurs(m, ns) {
      var j :| MatchAt(m, ns, j);
      assert n[j..j + |ns|] == m[j..j + |ns|];
      assert MatchAt(n, ns, j);
    }
    if Occurs(n, ns) {
      var j :| MatchAt(n, ns, j);
      assert n[j + |ns| - 1] == ns[|ns| - 1];
      assert j + |ns| - 1 != |m|;
      assert m[j..j + |ns|] == n[j..j + |ns|];
      assert MatchAt(m, ns, j);
    }
  }

  /** `prefix || ""` for an optional string. */
  function OrEmpty(o: Option<string>): string
  {
    if o.Some? then o.value else ""
  }

  /** JavaScript truthiness of an optional string. */
  predicate Truthy(o: Option<string>)
  {
    o.Some? && o.value != ""
  }

  /** `findTextWithContext(text, prefix, suffix)`. `body` are the text nodes
      of the document body and `bodyText` is the string the script reads as
      the body's text. */
  function FindTextWithContext(body: seq<string>, bodyText: string, text: string,
                               prefix: Option<string>, suffix: Option<string>): Option<Range>
  {
    var searchString := OrEmpty(prefix) + text + OrEmpty(suffix);
    var index := IndexOf(bodyText, searchString);
    if index != -1 then
      var textStart := index + |OrEmpty(prefix)|;
      FindTextInNode(body, bodyText[textStart..textStart + |text|])
    else if IndexOf(NormalizeWs(bodyText), NormalizeWs(searchString)) != -1 then
      FindTextNormalized(body, text)
    else None
  }

  /** The context search never does anything of its own: when the context
      occurs exactly, the slice it cuts out of the body text is the text
      itself, so it runs the exact search; otherwise it runs the normalised
      search or gives up. The position of the context is not used. */
  lemma ContextSearchDelegates(body: seq<string>, bodyText: string, text: string,
                               prefix: Option<string>, suffix: Option<string>)
    ensures var r := FindTextWithContext(body, bodyText, text, prefix, suffix);
            r.None? || r == FindTextInNode(body, text) || r == FindTextNormalized(body, text)
    ensures Occurs(bodyText, OrEmpty(prefix) + text + OrEmpty(suffix))
        ==> FindTextWithContext(body, bodyText, text, prefix, suffix) == FindTextInNode(body, text)
  {
    if IndexOf(bodyText, OrEmpty(prefix) + text + OrEmpty(suffix)) != -1 {
      ContextExactBranch(body, bodyText, text, prefix, suffix);
    } else {
      ContextNormalizedBranch(body, bodyText, text, prefix, suffix);
    }
  }

  lemma ContextExactBranch(body: seq<string>, bodyText: string, text: string,
                           prefix: Option<string>, suffix: Option<string>)
    requires IndexOf(bodyText, OrEmpty(prefix) + text + OrEmpty(suffix)) != -1
    ensures FindTextWithContext(body, bodyText, text, prefix, suffix) == FindTextInNode(body, text)
  {
    ContextSlice(bodyText, OrEmpty(prefix), text, OrEmpty(suffix));
    ContextExactSlice(body, bodyText, text, prefix, suffix, text);
  }

  /** When the context occurs, the context search is the exact search for
      the slice of the body text after the prefix. */
  lemma ContextExactSlice(body: seq<string>, bodyText: string, text: string,
                          prefix: Option<string>, suffix: Option<string>, sub: string)
    requires IndexOf(bodyText, OrEmpty(prefix) + text + OrEmpty(suffix)) != -1
    requires var textStart := IndexOf(bodyText, OrEmpty(prefix) + text + OrEmpty(suffix)) + |OrEmpty(prefix)|;
             textStart + |text| <= |bodyText| && sub == bodyText[textStart..textStart + |text|]
    ensures FindTextWithContext(body, bodyText, text, prefix, suffix) == FindTextInNode(body, sub)
  {
  }

  lemma ContextNormalizedBranch(body: seq<string>, bodyText: string, text: string,
                                prefix: Option<string>, suffix: Option<string>)
    requires IndexOf(bodyText, OrEmpty(prefix) + text + OrEmpty(suffix)) == -1
    ensures var r := FindTextWithContext(body, bodyText, text, prefix, suffix);
            r.None? || r == FindTextNormalized(body, text)
  {
  }

  /** Where `p + text + sfx` first occurs, the text sits just after `p`. */
  lemma ContextSlice(bodyText: string, p: string, text: string, sfx: string)
    requires IndexOf(bodyText, p + text + sfx) != -1
    ensures var index := IndexOf(bodyText, p + text + sfx);
            bodyText[index + |p|..index + |p| + |text|] == text
  {
    MiddleOfMatch(bodyText, p, text, sfx, IndexOf(bodyText, p + text + sfx));
  }

  /** Inside a match of `p + text + sfx` at `index`, `text` starts at
      `index + |p|`. */
  lemma MiddleOfMatch(t: string, p: string, text: string, sfx: string, index: int)
    requires MatchAt(t, p + text + sfx, index)
    ensures t[index + |p|..index + |p| + |text|] == text
  {
    var w := p + text + sfx;
    forall k | 0 <= k < |text|
      ensures t[index + |p| + k] == text[k]
    {
      assert t[index..index + |w|][|p| + k] == w[|p| + k];
    }
  }

  /** What `document.querySelector(note.css_selector)` gives: it throws for
      an invalid selector, finds nothing, or finds an element with these
      text nodes. */
  datatype SelectorLookup = Throws | NoElement | Element(texts: seq<string>)

  /** The page as the anchoring code sees it: the body's text nodes, its
      `innerText` (empty when the browser provides none) and the outcome of
      the note's selector query. */
  datatype Page = Page(body: seq<string>, innerText: string, selector: SelectorLookup)

  /** The anchoring fields of a note. */
  datatype AnchorNote = AnchorNote(selectedText: string, cssSelector: Option<string>,
                                   textPrefix: Option<string>, textSuffix: Option<string>)

  /** `document.body.innerText || document.body.textContent`. */
  function BodyText(page: Page): string
  {
    if page.innerText != "" then page.innerText else Concat(page.body)
  }

  /** Strategy 1: the exact search inside the selected element; an invalid
      selector counts as a miss. */
  function SelectorStep(note: AnchorNote, page: Page): Option<Range>
  {
    if Truthy(note.cssSelector) && page.selector.Element?
    then FindTextInNode(page.selector.texts, note.selectedText)
    else None
  }

  /** Strategy 2: the exact search in the whole body. */
  function ExactStep(note: AnchorNote, page: Page): Option<Range>
  {
    FindTextInNode(page.body, note.selectedText)
  }

  /** Strategy 3: the context search, tried only with a prefix or suffix. */
  function ContextStep(note: AnchorNote, page: Page): Option<Range>
  {
    if Truthy(note.textPrefix) || Truthy(note.textSuffix)
    then FindTextWithContext(page.body, BodyText(page), note.selectedText, note.textPrefix, note.textSuffix)
    else None
  }

  /** Strategy 4: the whitespace-normalised search in the whole body. */
  function NormalizedStep(note: AnchorNote, page: Page): Option<Range>
  {
    FindTextNormalized(page.body, note.selectedText)
  }

  /** `findTextRange(note)`: the strategies in order, first hit wins. */
  function FindTextRange(note: AnchorNote, page: Page): Option<Range>
  {
    var bySelector := SelectorStep(note, page);
    if bySelector.Some? then bySelector
    else
      var exact := ExactStep(note, page);
      if exact.Some? then exact
      else
        var byContext := ContextStep(note, page);
        if byContext.Some? then byContext
        else NormalizedStep(note, page)
  }

  /** The first hit in a list of attempts. */
  function FirstHit(attempts: seq<Option<Range>>): Option<Range>
  {
    if |attempts| == 0 then None
    else if attempts[0].Some? then attempts[0]
    else FirstHit(attempts[1..])
  }

  /** The first hit among four attempts, spelled out. */
  lemma FirstHitOfFour(a: Option<Range>, b: Option<Range>, c: Option<Range>, d: Option<Range>)
    ensures FirstHit([a, b, c, d]) == if a.Some? then a else if b.Some? then b else if c.Some? then c else d
  {
    assert [d][1..] == [];
    assert FirstHit([d]) == d;
    assert [c, d][1..] == [d];
    assert FirstHit([c, d]) == if c.Some? then c else d;
    assert [b, c, d][1..] == [c, d];
    assert FirstHit([b, c, d]) == if b.Some? then b else FirstHit([c, d]);
    assert [a, b, c, d][1..] == [b, c, d];
  }

  /** The order of the strategies, against the first-hit reference: the
      result is the first non-null strategy result, and null exactly when
      every strategy misses. */
  lemma FindTextRangeOrder(note: AnchorNote, page: Page)
    ensures FindTextRange(note, page)
         == FirstHit([SelectorStep(note, page), ExactStep(note, page),
                      ContextStep(note, page), NormalizedStep(note, page)])
    ensures FindTextRange(note, page).None?
        <==> SelectorStep(note, page).None? && ExactStep(note, page).None?
             && ContextStep(note, page).None? && NormalizedStep(note, page).None?
  {
    FirstHitOfFour(SelectorStep(note, page), ExactStep(note, page),
                   ContextStep(note, page), NormalizedStep(note, page));
  }

  /** A third attempt that can only repeat the second or the fourth never
      changes the first hit. */
  lemma RedundantThirdAttempt(a: Option<Range>, b: Option<Range>, c: Option<Range>, d: Option<Range>)
    requires c.None? || c == b || c == d
    ensures FirstHit([a, b, c, d]) == FirstHit([a, b, None, d])
  {
    FirstHitOfFour(a, b, c, d);
    FirstHitOfFour(a, b, None, d);
  }

  /** The context strategy never changes the outcome: it is reached only
      after the exact search of the body missed, and it can only rerun that
      search or the normalised one that comes next. */
  lemma ContextAddsNothing(note: AnchorNote, page: Page)
    ensures FindTextRange(note, page) == FindTextRange(note.(textPrefix := None, textSuffix := None), page)
  {
    var bare := note.(textPrefix := None, textSuffix := None);
    ContextSearchDelegates(page.body, BodyText(page), note.selectedText, note.textPrefix, note.textSuffix);
    FindTextRangeOrder(note, page);
    FindTextRangeOrder(bare, page);
    assert SelectorStep(bare, page) == SelectorStep(note, page);
    assert ExactStep(bare, page) == ExactStep(note, page);
    assert NormalizedStep(bare, page) == NormalizedStep(note, page);
    assert ContextStep(bare, page) == None;
    RedundantThirdAttempt(SelectorStep(note, page), ExactStep(note, page),
                          ContextStep(note, page), NormalizedStep(note, page));
  }

  /** An invalid selector behaves as no selector at all. */
  lemma InvalidSelectorIsMiss(note: AnchorNote, page: Page)
    requires page.selector.Throws?
    ensures FindTextRange(note, page) == FindTextRange(note.(cssSelector := None), page)
  {
  }

  /** What an anchor covers: the selected text exactly (in the selected
      element or in the body), or the body text up to whitespace. */
  lemma FindTextRangeSound(note: AnchorNote, page: Page)
    requires FindTextRange(note, page).Some?
    ensures var r := FindTextRange(note, page).value;
            || (page.selector.Element? && Covered(CollectTextNodes(page.selector.texts), r) == note.selectedText)
            || Covered(CollectTextNodes(page.body), r) == note.selectedText
            || NormalizeWs(Covered(CollectTextNodes(page.body), r)) == NormalizeWs(note.selectedText)
  {
    ContextAddsNothing(note, page);
    var bare := note.(textPrefix := None, textSuffix := None);
    if SelectorStep(bare, page).Some? {
      FindTextInNodeCovers(page.selector.texts, note.selectedText);
    } else if ExactStep(bare, page).Some? {
      FindTextInNodeCovers(page.body, note.selectedText);
    } else {
      FindTextNormalizedCovers(page.body, note.selectedText);
    }
  }

  /** Anchoring fails exactly when the selector strategy misses, the
      selected text does not occur in the body, and its normalised form is
      empty or does not occur in the normalised body text. */
  lemma FindTextRangeMisses(note: AnchorNote, page: Page)
    ensures var full := CollectTextNodes(page.body).fullText;
            var ns := NormalizeWs(note.selectedText);
            (FindTextRange(note, page).None?
             <==> && SelectorStep(note, page).None?
                  && !(note.selectedText != "" && Occurs(full, note.selectedText))
                  && !(ns != "" && Occurs(NormalizeWs(full), ns)))
  {
    ContextAddsNothing(note, page);
    FindTextInNodeFinds(page.body, note.selectedText);
    FindTextNormalizedFinds(page.body, note.selectedText);
  }
}
