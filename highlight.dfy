/**
 * `highlightRangeByTextAll`: wrapping every occurrence of a note's text in a
 * paragraph in an `ao3-highlight` span.
 *
 * A paragraph is the sequence of its text nodes in document order; a node
 * whose parent is already an `ao3-highlight` span is `Marked`, any other is
 * `Plain`. Wrapping the occurrence at offset `i` of a plain node `s` splits it
 * into the text before the match, a marked node holding the match, and the
 * text after it.
 */
module Highlight {

  datatype Segment = Plain(text: string) | Marked(text: string, noteId: string)

  /** `t` occurs in `s` at offset `i`. */
  predicate OccursAt(s: string, t: string, i: int)
  {
    0 <= i && i + |t| <= |s| && s[i..i + |t|] == t
  }

  /** `indexOf` clamps its start position into `[0, |s|]`. */
  function Clamp(pos: int, len: nat): (r: nat)
    ensures r <= len
    ensures 0 <= pos <= len ==> r == pos
    ensures pos < 0 ==> r == 0
    ensures pos > len ==> r == len
  {
    if pos < 0 then 0 else if pos > len then len else pos
  }

  /** The characters of `t` from the `k`-th on equal those of `s` from `i + k` on: the comparison `indexOf` makes at `i`. */
  predicate MatchesFrom(s: string, t: string, i: nat, k: nat)
    requires i + |t| <= |s| && k <= |t|
    decreases |t| - k
  {
    k == |t| || (s[i + k] == t[k] && MatchesFrom(s, t, i, k + 1))
  }

  lemma {:induction false} MatchesFromIff(s: string, t: string, i: nat, k: nat)
    requires i + |t| <= |s| && k <= |t|
    ensures MatchesFrom(s, t, i, k) <==> s[i + k..i + |t|] == t[k..]
    decreases |t| - k
  {
    if k < |t| {
      MatchesFromIff(s, t, i, k + 1);
      assert s[i + k..i + |t|] == [s[i + k]] + s[i + k + 1..i + |t|];
      assert t[k..] == [t[k]] + t[k + 1..];
    }
  }

  /** The first occurrence of `t` in `s` at or after `i`, or -1. */
  function SearchFrom(s: string, t: string, i: nat): (r: int)
    requires i <= |s|
    ensures r == -1 || (i <= r && r + |t| <= |s|)
    decreases |s| - i
  {
    if i + |t| > |s| then -1
    else if MatchesFrom(s, t, i, 0) then i
    else SearchFrom(s, t, i + 1)
  }

  /** `r` is the least offset at or after `i` where `t` occurs, or -1 when there is none. */
  ghost predicate IsFirstAtOrAfter(s: string, t: string, i: int, r: int)
  {
    && (r == -1 || (i <= r && OccursAt(s, t, r)))
    && (forall k :: i <= k && (r == -1 || k < r) ==> !OccursAt(s, t, k))
  }

  lemma {:induction false} SearchFromSpec(s: string, t: string, i: nat)
    requires i <= |s|
    ensures IsFirstAtOrAfter(s, t, i, SearchFrom(s, t, i))
    decreases |s| - i
  {
    if i + |t| <= |s| {
      MatchesFromIff(s, t, i, 0);
      assert t[0..] == t;
      if !MatchesFrom(s, t, i, 0) {
        SearchFromSpec(s, t, i + 1);
      }
    }
  }

  /** `s.indexOf(t, pos)`. */
  function IndexOf(s: string, t: string, pos: int): (r: int)
    ensures r == -1 || (Clamp(pos, |s|) <= r && r + |t| <= |s|)
  {
    SearchFrom(s, t, Clamp(pos, |s|))
  }

  /** `s.indexOf(t, pos)` is the least offset at or after the clamped `pos` where `t` occurs, or -1. */
  lemma IndexOfSpec(s: string, t: string, pos: int)
    ensures IsFirstAtOrAfter(s, t, Clamp(pos, |s|), IndexOf(s, t, pos))
  {
    SearchFromSpec(s, t, Clamp(pos, |s|));
  }

  /** A found offset is an occurrence. */
  lemma IndexOfFound(s: string, t: string, pos: int)
    ensures IndexOf(s, t, pos) != -1 ==> OccursAt(s, t, IndexOf(s, t, pos))
  {
    IndexOfSpec(s, t, pos);
  }

  /**
   * The offsets the match loop visits in `s` when it starts searching at
   * `from`: the first occurrence, then the first one at or after its end, and so on.
   */
  function Occurrences(s: string, t: string, from: nat): (r: seq<nat>)
    requires |t| > 0 && from <= |s|
    ensures |r| * |t| <= |s| - from
    decreases |s| - from
  {
    var i := IndexOf(s, t, from);
    if i == -1 then [] else [i] + Occurrences(s, t, i + |t|)
  }

  /**
   * `r` lists occurrences of `t` in `s` at or after `from`, each at least
   * `|t|` after the one before: strictly increasing and never overlapping.
   */
  ghost predicate NonOverlapping(s: string, t: string, from: nat, r: seq<nat>)
  {
    && (forall k :: 0 <= k < |r| ==> from <= r[k] && OccursAt(s, t, r[k]))
    && (forall j, k :: 0 <= j < k < |r| ==> r[j] + |t| <= r[k])
  }

  /** The visited offsets are non-overlapping occurrences. */
  lemma {:induction false} OccurrencesSound(s: string, t: string, from: nat)
    requires |t| > 0 && from <= |s|
    ensures NonOverlapping(s, t, from, Occurrences(s, t, from))
    decreases |s| - from
  {
    var i := IndexOf(s, t, from);
    IndexOfFound(s, t, from);
    if i != -1 {
      var rest := Occurrences(s, t, i + |t|);
      OccurrencesSound(s, t, i + |t|);
      assert Occurrences(s, t, from) == [i] + rest;
      NonOverlappingCons(s, t, from, i, rest);
    }
  }

  /** An occurrence followed by non-overlapping occurrences that start after its end. */
  lemma NonOverlappingCons(s: string, t: string, from: nat, i: nat, rest: seq<nat>)
    requires from <= i && OccursAt(s, t, i)
    requires NonOverlapping(s, t, i + |t|, rest)
    ensures NonOverlapping(s, t, from, [i] + rest)
  {
    var r := [i] + rest;
    forall k | 0 <= k < |r| ensures from <= r[k] && OccursAt(s, t, r[k]) {
      if k > 0 {
        assert r[k] == rest[k - 1];
      }
    }
    forall j, k | 0 <= j < k < |r| ensures r[j] + |t| <= r[k] {
      assert r[k] == rest[k - 1];
      if j > 0 {
        assert r[j] == rest[j - 1];
      }
    }
  }

  /**
   * Every occurrence at or after `from` is either visited or overlaps a
   * visited one that starts before it: the visited offsets are exactly the
   * leftmost non-overlapping occurrences.
   */
  lemma {:induction false} OccurrencesComplete(s: string, t: string, from: nat, p: int)
    requires |t| > 0 && from <= |s|
    requires from <= p && OccursAt(s, t, p)
    ensures p in Occurrences(s, t, from)
      || exists k :: 0 <= k < |Occurrences(s, t, from)| && Occurrences(s, t, from)[k] < p < Occurrences(s, t, from)[k] + |t|
    decreases |s| - from
  {
    var i := IndexOf(s, t, from);
    IndexOfSpec(s, t, from);
    var r := Occurrences(s, t, from);
    assert i != -1 && i <= p;
    var rest := Occurrences(s, t, i + |t|);
    assert r == [i] + rest;
    if p >= i + |t| {
      OccurrencesComplete(s, t, i + |t|, p);
      if p !in rest {
        var k :| 0 <= k < |rest| && rest[k] < p < rest[k] + |t|;
        assert r[k + 1] == rest[k];
      }
    } else if p != i {
      assert r[0] < p < r[0] + |t|;
    }
  }

  /** `t` occurs somewhere in `s`: `s.indexOf(t) !== -1`. */
  predicate Contains(s: string, t: string)
  {
    IndexOf(s, t, 0) != -1
  }

  lemma ContainsIff(s: string, t: string)
    ensures Contains(s, t) <==> exists i :: OccursAt(s, t, i)
  {
    IndexOfSpec(s, t, 0);
    if !Contains(s, t) {
      forall i ensures !OccursAt(s, t, i) {
        if 0 <= i {
          assert Clamp(0, |s|) <= i;
        }
      }
    }
  }

  /**
   * The nodes that wrapping every visited occurrence turns the part of a
   * plain text node from `from` on into: the text before the match, a marked
   * node holding the match, and so on, ending with the text after the last match.
   */
  function Pieces(s: string, t: string, id: string, from: nat): (r: seq<Segment>)
    requires |t| > 0 && from <= |s|
    decreases |s| - from
  {
    var i := IndexOf(s, t, from);
    if i == -1 then [Plain(s[from..])]
    else [Plain(s[from..i]), Marked(s[i..i + |t|], id)] + Pieces(s, t, id, i + |t|)
  }

  /** Each visited occurrence adds a marked node and the plain node after it. */
  lemma {:induction false} PiecesCount(s: string, t: string, id: string, from: nat)
    requires |t| > 0 && from <= |s|
    ensures |Pieces(s, t, id, from)| == 2 * |Occurrences(s, t, from)| + 1
    decreases |s| - from
  {
    var i := IndexOf(s, t, from);
    if i != -1 {
      PiecesCount(s, t, id, i + |t|);
    }
  }

  /** The concatenated text of a run of nodes: what the reader sees. */
  function TextOf(segs: seq<Segment>): string
  {
    if segs == [] then [] else TextOf(segs[..|segs| - 1]) + segs[|segs| - 1].text
  }

  lemma {:induction false} TextOfAppend(a: seq<Segment>, b: seq<Segment>)
    ensures TextOf(a + b) == TextOf(a) + TextOf(b)
    decreases |b|
  {
    if b != [] {
      var b' := b[..|b| - 1];
      assert (a + b)[..|a + b| - 1] == a + b';
      TextOfAppend(a, b');
    } else {
      assert a + b == a;
    }
  }

  lemma TextOfPair(x: Segment, y: Segment)
    ensures TextOf([x, y]) == x.text + y.text
  {
    assert [x, y][..1] == [x];
    assert TextOf([x]) == TextOf([]) + x.text;
  }

  /** The text before a match, the match, and nodes spelling the rest spell the whole suffix. */
  lemma TextOfPairThen(s: string, from: nat, i: nat, j: nat, id: string, rest: seq<Segment>)
    requires from <= i <= j <= |s| && TextOf(rest) == s[j..]
    ensures TextOf([Plain(s[from..i]), Marked(s[i..j], id)] + rest) == s[from..]
  {
    var head := [Plain(s[from..i]), Marked(s[i..j], id)];
    TextOfAppend(head, rest);
    TextOfPair(head[0], head[1]);
    assert s[from..i] + s[i..j] + s[j..] == s[from..];
  }

  /** Wrapping matches in spans does not change the text of the node. */
  lemma {:induction false} PiecesText(s: string, t: string, id: string, from: nat)
    requires |t| > 0 && from <= |s|
    ensures TextOf(Pieces(s, t, id, from)) == s[from..]
    decreases |s| - from
  {
    var i := IndexOf(s, t, from);
    if i == -1 {
      assert Pieces(s, t, id, from) == [Plain(s[from..])];
      assert TextOf([Plain(s[from..])]) == TextOf([]) + s[from..];
    } else {
      var rest := Pieces(s, t, id, i + |t|);
      assert Pieces(s, t, id, from) == [Plain(s[from..i]), Marked(s[i..i + |t|], id)] + rest;
      PiecesText(s, t, id, i + |t|);
      TextOfPairThen(s, from, i, i + |t|, id, rest);
    }
  }

  /** Where the marked nodes of `segs` start, as offsets into its text, the first node starting at `base`. */
  function MarkOffsets(segs: seq<Segment>, base: nat): seq<nat>
  {
    if segs == [] then []
    else (if segs[0].Marked? then [base] else []) + MarkOffsets(segs[1..], base + |segs[0].text|)
  }

  /** A plain node holds no span. */
  lemma MarkOffsetsPlain(x: string, base: nat)
    ensures MarkOffsets([Plain(x)], base) == []
  {
    assert [Plain(x)][1..] == [];
  }

  /** The text before a match followed by the match contributes one offset: where the match starts. */
  lemma MarkOffsetsPair(s: string, from: nat, i: nat, j: nat, id: string, rest: seq<Segment>)
    requires from <= i <= j <= |s|
    ensures MarkOffsets([Plain(s[from..i]), Marked(s[i..j], id)] + rest, from) == [i] + MarkOffsets(rest, j)
  {
    var segs := [Plain(s[from..i]), Marked(s[i..j], id)] + rest;
    assert segs[1..] == [Marked(s[i..j], id)] + rest;
    assert segs[1..][1..] == rest;
  }

  /** The spans sit exactly at the offsets the match loop visits. */
  lemma {:induction false} PiecesMarks(s: string, t: string, id: string, from: nat)
    requires |t| > 0 && from <= |s|
    ensures MarkOffsets(Pieces(s, t, id, from), from) == Occurrences(s, t, from)
    decreases |s| - from
  {
    var i := IndexOf(s, t, from);
    if i == -1 {
      assert Pieces(s, t, id, from) == [Plain(s[from..])];
      MarkOffsetsPlain(s[from..], from);
    } else {
      var rest := Pieces(s, t, id, i + |t|);
      assert Pieces(s, t, id, from) == [Plain(s[from..i]), Marked(s[i..i + |t|], id)] + rest;
      assert Occurrences(s, t, from) == [i] + Occurrences(s, t, i + |t|);
      PiecesMarks(s, t, id, i + |t|);
      MarkOffsetsPair(s, from, i, i + |t|, id, rest);
    }
  }

  /** What one node of the paragraph becomes: a node under a highlight is skipped, any other is searched. */
  function Block(seg: Segment, t: string, id: string): seq<Segment>
    requires |t| > 0
  {
    match seg
    case Marked(_, _) => [seg]
    case Plain(s) => Pieces(s, t, id, 0)
  }

  /** The paragraph after `highlightRangeByTextAll(p, t, id)`: every node replaced by its block, in order. */
  function HighlightSpec(para: seq<Segment>, t: string, id: string): (r: seq<Segment>)
    requires |t| > 0
  {
    if para == [] then []
    else HighlightSpec(para[..|para| - 1], t, id) + Block(para[|para| - 1], t, id)
  }

  /** Some node of the paragraph outside a highlight contains `t`: the value `matched` ends with. */
  predicate AnyMatch(para: seq<Segment>, t: string)
  {
    exists k :: 0 <= k < |para| && para[k].Plain? && Contains(para[k].text, t)
  }

  lemma AnyMatchStep(para: seq<Segment>, k: nat, t: string)
    requires k < |para|
    ensures AnyMatch(para[..k + 1], t) <==> AnyMatch(para[..k], t) || (para[k].Plain? && Contains(para[k].text, t))
  {
    assert forall j :: 0 <= j < k ==> para[..k + 1][j] == para[..k][j];
    if para[k].Plain? && Contains(para[k].text, t) {
      assert para[..k + 1][k] == para[k];
    }
  }

  /** One turn of the match loop, for the nodes built. */
  lemma PiecesStep(s: string, t: string, id: string, pieces: seq<Segment>, last: nat, idx: nat)
    requires |t| > 0 && last <= |s| && idx == IndexOf(s, t, last)
    ensures pieces + Pieces(s, t, id, last)
      == (pieces + [Plain(s[last..idx]), Marked(s[idx..idx + |t|], id)]) + Pieces(s, t, id, idx + |t|)
  {
    assert Pieces(s, t, id, last) == [Plain(s[last..idx]), Marked(s[idx..idx + |t|], id)] + Pieces(s, t, id, idx + |t|);
  }

  /**
   * The match loop of one text node `s`: `idx = s.indexOf(t)`, then, while
   * `idx != -1`, wrap the range `[idx, idx + t.length)` in a span for note `id`,
   * set `matched`, and continue with `s.indexOf(t, idx + t.length)`. It
   * returns the nodes `s` has become and whether it wrapped anything. The
   * spans sit at the leftmost non-overlapping occurrences of `t`, in order.
   */
  method FindAll(s: string, t: string, id: string) returns (pieces: seq<Segment>, found: bool)
    requires |t| > 0
    ensures pieces == Pieces(s, t, id, 0)
    ensures found <==> Contains(s, t)
    ensures MarkOffsets(pieces, 0) == Occurrences(s, t, 0)
    ensures NonOverlapping(s, t, 0, Occurrences(s, t, 0))
  {
    pieces, found := [], false;
    var last := 0;
    var idx := IndexOf(s, t, 0);
    while idx != -1
      invariant last <= |s| && idx == IndexOf(s, t, last)
      invariant pieces + Pieces(s, t, id, last) == Pieces(s, t, id, 0)
      invariant found ==> Contains(s, t)
      invariant !found ==> last == 0
      decreases |s| - last
    {
      PiecesStep(s, t, id, pieces, last, idx);
      pieces := pieces + [Plain(s[last..idx]), Marked(s[idx..idx + |t|], id)];
      found := true;
      last := idx + |t|;
      idx := IndexOf(s, t, idx + |t|);
    }
    pieces := pieces + [Plain(s[last..])];
    PiecesMarks(s, t, id, 0);
    OccurrencesSound(s, t, 0);
  }

  /**
   * `highlightRangeByTextAll(p, t, id)` on one paragraph: the walker visits
   * the text nodes in order, skips those already under a highlight, and runs
   * the match loop on the others. `matched` is true exactly when some node
   * outside a highlight contains `t`.
   */
  method HighlightAll(para: seq<Segment>, t: string, id: string) returns (out: seq<Segment>, matched: bool)
    requires |t| > 0
    ensures out == HighlightSpec(para, t, id)
    ensures matched <==> AnyMatch(para, t)
  {
    out := [];
    matched := false;
    var k := 0;
    while k < |para|
      invariant k <= |para|
      invariant out == HighlightSpec(para[..k], t, id)
      invariant matched <==> AnyMatch(para[..k], t)
    {
      var seg := para[k];
      AnyMatchStep(para, k, t);
      assert para[..k + 1][..k] == para[..k];
      if seg.Marked? {
        out := out + [seg];
        k := k + 1;
        continue;
      }
      var pieces, found := FindAll(seg.text, t, id);
      if found {
        matched := true;
      }
      out := out + pieces;
      k := k + 1;
    }
    assert para[..|para|] == para;
  }

  // The DOM performs each wrap by splitting the text node: the node keeps the
  // text before the match, a span holds the match, and a new text node after
  // the span holds the rest. `PrefixSearchEnds` and `SearchInRemainder` show
  // that each step of this split agrees with the search the model runs on the
  // unsplit text, and `DomSplitIsPieces` that the whole split yields `Pieces`.

  /** After a wrap at `idx`, the source searches the shortened node from `idx + |t|` and finds nothing: its inner loop ends. */
  lemma PrefixSearchEnds(s: string, t: string, idx: nat)
    requires |t| > 0 && idx <= |s|
    ensures IndexOf(s[..idx], t, idx + |t|) == -1
  {
  }

  /** Searching the remainder node `s[k..]` from its start finds the occurrence the model finds by searching `s` from `k`. */
  lemma SearchInRemainder(s: string, t: string, k: nat)
    requires k <= |s|
    ensures IndexOf(s[k..], t, 0) == (if IndexOf(s, t, k) == -1 then -1 else IndexOf(s, t, k) - k)
  {
    var r, q := IndexOf(s[k..], t, 0), IndexOf(s, t, k);
    IndexOfSpec(s[k..], t, 0);
    IndexOfSpec(s, t, k);
    forall j | 0 <= j
      ensures OccursAt(s[k..], t, j) <==> OccursAt(s, t, j + k)
    {
      if j + |t| <= |s| - k {
        assert s[k..][j..j + |t|] == s[j + k..j + k + |t|];
      }
    }
    if r != -1 {
      assert OccursAt(s, t, r + k);
    }
    if q != -1 {
      assert OccursAt(s[k..], t, q - k);
    }
  }

  /**
   * The nodes the DOM turns a plain text node `node` into: the first match is
   * wrapped, which ends the search of the shortened node; the walker then
   * steps over the span's own text node, which lies under a highlight, and
   * reaches the remainder node, which it searches from its start.
   */
  function DomSplit(node: string, t: string, id: string): seq<Segment>
    requires |t| > 0
    decreases |node|
  {
    var idx := IndexOf(node, t, 0);
    if idx == -1 then [Plain(node)]
    else [Plain(node[..idx]), Marked(node[idx..idx + |t|], id)] + DomSplit(node[idx + |t|..], t, id)
  }

  /** One split: the first match of the node is wrapped and the remainder split in turn. */
  lemma DomSplitStep(node: string, t: string, id: string, j: nat)
    requires |t| > 0 && IndexOf(node, t, 0) == j
    requires j + |t| <= |node|
    ensures DomSplit(node, t, id) == [Plain(node[..j]), Marked(node[j..j + |t|], id)] + DomSplit(node[j + |t|..], t, id)
  {
  }

  /** One step of the model: the visited occurrence at `i` and the pieces after it. */
  lemma PiecesStepAt(s: string, t: string, id: string, k: nat, i: nat)
    requires |t| > 0 && k <= |s| && IndexOf(s, t, k) == i
    requires i + |t| <= |s|
    ensures Pieces(s, t, id, k) == [Plain(s[k..i]), Marked(s[i..i + |t|], id)] + Pieces(s, t, id, i + |t|)
  {
  }

  /** Splitting node by node yields the nodes the model computes by searching the unsplit text. */
  lemma {:induction false} DomSplitIsPieces(s: string, t: string, id: string, k: nat)
    requires |t| > 0 && k <= |s|
    ensures DomSplit(s[k..], t, id) == Pieces(s, t, id, k)
    decreases |s| - k
  {
    var i := IndexOf(s, t, k);
    SearchInRemainder(s, t, k);
    if i == -1 {
      assert DomSplit(s[k..], t, id) == [Plain(s[k..])];
    } else {
      var node, j := s[k..], i - k;
      DomSplitStep(node, t, id, j);
      PiecesStepAt(s, t, id, k, i);
      assert node[..j] == s[k..i];
      assert node[j..j + |t|] == s[i..i + |t|];
      assert node[j + |t|..] == s[i + |t|..];
      DomSplitIsPieces(s, t, id, i + |t|);
    }
  }

  /** No occurrence of `t` lies inside `s[a..b]`, so the plain node `s[a..b]` does not contain `t`. */
  lemma SliceFree(s: string, t: string, a: nat, b: nat)
    requires a <= b <= |s|
    requires forall k :: a <= k && k + |t| <= b ==> !OccursAt(s, t, k)
    ensures !Contains(s[a..b], t)
  {
    ContainsIff(s[a..b], t);
    if Contains(s[a..b], t) {
      var p :| OccursAt(s[a..b], t, p);
      forall j | 0 <= j < |t| ensures s[a + p..a + p + |t|][j] == t[j] {
        assert s[a..b][p..p + |t|][j] == t[j];
      }
      assert s[a + p..a + p + |t|] == t;
      assert OccursAt(s, t, a + p);
      assert false;
    }
  }

  lemma AnyMatchSingle(seg: Segment, t: string)
    ensures AnyMatch([seg], t) <==> seg.Plain? && Contains(seg.text, t)
  {
    assert [seg][0] == seg;
  }

  lemma AnyMatchAppend(a: seq<Segment>, b: seq<Segment>, t: string)
    ensures AnyMatch(a + b, t) <==> AnyMatch(a, t) || AnyMatch(b, t)
  {
    if AnyMatch(a + b, t) {
      var k :| 0 <= k < |a + b| && (a + b)[k].Plain? && Contains((a + b)[k].text, t);
      if k >= |a| {
        assert b[k - |a|] == (a + b)[k];
      }
    }
    if AnyMatch(a, t) {
      var k :| 0 <= k < |a| && a[k].Plain? && Contains(a[k].text, t);
      assert (a + b)[k] == a[k];
    }
    if AnyMatch(b, t) {
      var k :| 0 <= k < |b| && b[k].Plain? && Contains(b[k].text, t);
      assert (a + b)[k + |a|] == b[k];
    }
  }

  /**
   * No occurrence of `u` lies in `s[a..b]` when `b` is where the search for
   * `t` from `a` stops (`u` is `t`) or when `s` has no occurrence of `u` at all.
   */
  lemma GapFree(s: string, t: string, u: string, a: nat, b: nat)
    requires |t| > 0 && a <= b <= |s|
    requires u == t || !Contains(s, u)
    requires var i := IndexOf(s, t, a); if i == -1 then b == |s| else b == i
    ensures !Contains(s[a..b], u)
  {
    if u == t {
      IndexOfSpec(s, t, a);
    } else {
      ContainsIff(s, u);
    }
    SliceFree(s, u, a, b);
  }

  /** Splitting a text node leaves no plain piece that contains `t`, and if `s` does not contain `u` no plain piece does. */
  lemma {:induction false} PiecesFree(s: string, t: string, id: string, from: nat, u: string)
    requires |t| > 0 && from <= |s|
    requires u == t || !Contains(s, u)
    ensures !AnyMatch(Pieces(s, t, id, from), u)
    decreases |s| - from
  {
    var i := IndexOf(s, t, from);
    if i == -1 {
      GapFree(s, t, u, from, |s|);
      assert s[from..|s|] == s[from..];
      AnyMatchSingle(Plain(s[from..]), u);
    } else {
      var rest := Pieces(s, t, id, i + |t|);
      assert Pieces(s, t, id, from) == [Plain(s[from..i])] + ([Marked(s[i..i + |t|], id)] + rest);
      GapFree(s, t, u, from, i);
      AnyMatchSingle(Plain(s[from..i]), u);
      AnyMatchSingle(Marked(s[i..i + |t|], id), u);
      PiecesFree(s, t, id, i + |t|, u);
      AnyMatchAppend([Marked(s[i..i + |t|], id)], rest, u);
      AnyMatchAppend([Plain(s[from..i])], [Marked(s[i..i + |t|], id)] + rest, u);
    }
  }

  /** Highlighting never changes the paragraph's text. */
  lemma {:induction false} HighlightText(para: seq<Segment>, t: string, id: string)
    requires |t| > 0
    ensures TextOf(HighlightSpec(para, t, id)) == TextOf(para)
    decreases |para|
  {
    if para != [] {
      var init, last := para[..|para| - 1], para[|para| - 1];
      HighlightText(init, t, id);
      TextOfAppend(HighlightSpec(init, t, id), Block(last, t, id));
      match last
      case Marked(_, _) =>
        assert TextOf([last]) == TextOf([]) + last.text;
      case Plain(s) =>
        PiecesText(s, t, id, 0);
        assert s[0..] == s;
    }
  }

  /** When no node outside a highlight contains `t`, highlighting leaves the paragraph as it is. */
  lemma {:induction false} HighlightUnmatched(para: seq<Segment>, t: string, id: string)
    requires |t| > 0 && !AnyMatch(para, t)
    ensures HighlightSpec(para, t, id) == para
    decreases |para|
  {
    if para != [] {
      var init, last := para[..|para| - 1], para[|para| - 1];
      assert para == init + [last];
      AnyMatchAppend(init, [last], t);
      HighlightUnmatched(init, t, id);
      if last.Plain? {
        assert [last][0] == last;
        assert last.text[0..] == last.text;
      }
    }
  }

  /**
   * Highlighting only splits nodes outside a highlight, so a text `u` that no
   * such node contains is still contained by none afterwards; and after
   * highlighting `t`, no node outside a highlight contains `t` any more.
   */
  lemma {:induction false} HighlightFree(para: seq<Segment>, t: string, id: string, u: string)
    requires |t| > 0
    requires u == t || !AnyMatch(para, u)
    ensures !AnyMatch(HighlightSpec(para, t, id), u)
    decreases |para|
  {
    if para != [] {
      var init, last := para[..|para| - 1], para[|para| - 1];
      assert para == init + [last];
      AnyMatchAppend(init, [last], u);
      HighlightFree(init, t, id, u);
      AnyMatchAppend(HighlightSpec(init, t, id), Block(last, t, id), u);
      if last.Plain? {
        assert [last][0] == last;
        PiecesFree(last.text, t, id, 0, u);
      } else {
        assert [last][0] == last;
      }
    }
  }

  /** A second pass with the same text finds nothing left to wrap and changes nothing. */
  lemma HighlightIdempotent(para: seq<Segment>, t: string, id: string, id': string)
    requires |t| > 0
    ensures !AnyMatch(HighlightSpec(para, t, id), t)
    ensures HighlightSpec(HighlightSpec(para, t, id), t, id') == HighlightSpec(para, t, id)
  {
    HighlightFree(para, t, id, t);
    HighlightUnmatched(HighlightSpec(para, t, id), t, id');
  }

  /** The nodes of `segs` under a highlight, in order, leaving out spans of note `id` over `t`. */
  function OtherMarks(segs: seq<Segment>, t: string, id: string): seq<Segment>
  {
    if segs == [] then []
    else
      var last := segs[|segs| - 1];
      OtherMarks(segs[..|segs| - 1], t, id) + (if last.Marked? && last != Marked(t, id) then [last] else [])
  }

  lemma {:induction false} OtherMarksAppend(a: seq<Segment>, b: seq<Segment>, t: string, id: string)
    ensures OtherMarks(a + b, t, id) == OtherMarks(a, t, id) + OtherMarks(b, t, id)
    decreases |b|
  {
    if b == [] {
      assert a + b == a;
    } else {
      assert (a + b)[..|a + b| - 1] == a + b[..|b| - 1];
      OtherMarksAppend(a, b[..|b| - 1], t, id);
    }
  }

  lemma OtherMarksPlain(x: string, t: string, id: string)
    ensures OtherMarks([Plain(x)], t, id) == []
  {
    assert [Plain(x)][..0] == [];
  }

  lemma OtherMarksPair(x: string, t: string, id: string)
    ensures OtherMarks([Plain(x), Marked(t, id)], t, id) == []
  {
    assert [Plain(x), Marked(t, id)][..1] == [Plain(x)];
    OtherMarksPlain(x, t, id);
  }

  /** Every span the match loop creates holds `t` and belongs to note `id`. */
  lemma {:induction false} PiecesOtherMarks(s: string, t: string, id: string, from: nat)
    requires |t| > 0 && from <= |s|
    ensures OtherMarks(Pieces(s, t, id, from), t, id) == []
    decreases |s| - from
  {
    var i := IndexOf(s, t, from);
    if i == -1 {
      OtherMarksPlain(s[from..], t, id);
    } else {
      IndexOfFound(s, t, from);
      var head := [Plain(s[from..i]), Marked(t, id)];
      var rest := Pieces(s, t, id, i + |t|);
      assert s[i..i + |t|] == t;
      assert Pieces(s, t, id, from) == head + rest;
      PiecesOtherMarks(s, t, id, i + |t|);
      OtherMarksAppend(head, rest, t, id);
      OtherMarksPair(s[from..i], t, id);
    }
  }

  /**
   * Nodes already under a highlight are never searched or re-wrapped: apart
   * from the new spans of note `id` over `t`, the highlighted nodes after the
   * pass are exactly those before it, in the same order.
   */
  lemma {:induction false} HighlightKeepsMarks(para: seq<Segment>, t: string, id: string)
    requires |t| > 0
    ensures OtherMarks(HighlightSpec(para, t, id), t, id) == OtherMarks(para, t, id)
    decreases |para|
  {
    if para != [] {
      var init, last := para[..|para| - 1], para[|para| - 1];
      HighlightKeepsMarks(init, t, id);
      OtherMarksAppend(HighlightSpec(init, t, id), Block(last, t, id), t, id);
      if last.Marked? {
        assert [last][..0] == [];
      } else {
        PiecesOtherMarks(last.text, t, id, 0);
      }
    }
  }
}
