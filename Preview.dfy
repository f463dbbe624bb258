/**
 * The search-match highlighter of the preview (v2/web/preview.ts).
 *
 * The first half states, on values, what `highlight` does to a HAST tree:
 * every text node whose value contains the query becomes a `span` element
 * whose children interleave the non-empty leftover pieces with one highlight
 * span per match, and a single counter numbers the matches in document order.
 * The second half models the tree as the mutable objects the source rewrites
 * in place (`HNode`), with `CloneJson`, the visiting walk and the two callers
 * proved against the value-level specification.
 */
module Preview {
  import opened Wrappers
  import opened Strings

  /** A source position carried by every node (unist `Position`). */
  datatype Position = Position(startLine: nat, startColumn: nat, endLine: nat, endColumn: nat)

  /**
   * The value of a HAST node. The sanitised tree holds only these three kinds:
   * the default sanitize schema drops comments, doctypes and raw nodes.
   */
  datatype Node =
    | Text(value: string, position: Option<Position>)
    | Element(tagName: string, properties: map<string, string>, children: seq<Node>, position: Option<Position>)
    | Root(children: seq<Node>, position: Option<Position>)

  const ClassName := "className"
  const SearchText := "search-text"
  const SearchTextCurrent := "search-text-current"

  /** The element built by the local `span` helper for one match. */
  function Span(s: string, current: bool, pos: Option<Position>): Node {
    Element("span", map[ClassName := if current then SearchTextCurrent else SearchText], [Text(s, pos)], pos)
  }

  /** The match numbered `count` is the current one. */
  predicate IsCurrent(index: Option<int>, count: int) {
    index.Some? && index.value == count
  }

  /** A leftover piece becomes a text child only when it is non-empty. */
  function Leftover(s: string, pos: Option<Position>): seq<Node> {
    if |s| > 0 then [Text(s, pos)] else []
  }

  /**
   * The children pushed for the pieces after the first one: a span for the
   * match before each piece (the first numbered `count`), then the piece.
   */
  function Pieces(q: string, index: Option<int>, pos: Option<Position>, rest: seq<string>, count: nat): (r: seq<Node>)
    decreases |rest|
  {
    if rest == [] then []
    else
      Pieces(q, index, pos, rest[..|rest| - 1], count)
      + [Span(q, IsCurrent(index, count + |rest| - 1), pos)]
      + Leftover(rest[|rest| - 1], pos)
  }

  /** One more piece extends the pushed children by a span and that piece. */
  lemma PiecesSnoc(q: string, index: Option<int>, pos: Option<Position>, split: seq<string>, k: nat, count: nat)
    requires 1 <= k < |split|
    ensures Pieces(q, index, pos, split[1..k + 1], count)
         == Pieces(q, index, pos, split[1..k], count) + ([Span(q, IsCurrent(index, count + k - 1), pos)] + Leftover(split[k], pos))
  {
    assert split[1..k + 1][..k - 1] == split[1..k];
  }

  lemma TakeSnoc<T>(s: seq<T>, i: nat)
    requires i < |s|
    ensures s[..i + 1] == s[..i] + [s[i]]
  {}

  lemma AppendAssoc<T>(a: seq<T>, b: seq<T>, c: seq<T>)
    ensures a + b + c == a + (b + c)
  {
  }

  /** The children for the first `k + 1` pieces extend those for the first `k`. */
  lemma TextChildrenStep(q: string, index: Option<int>, pos: Option<Position>, split: seq<string>, k: nat, count: nat,
                         before: seq<Node>)
    requires 1 <= k < |split|
    requires before == Leftover(split[0], pos) + Pieces(q, index, pos, split[1..k], count)
    ensures before + ([Span(q, IsCurrent(index, count + k - 1), pos)] + Leftover(split[k], pos))
         == Leftover(split[0], pos) + Pieces(q, index, pos, split[1..k + 1], count)
  {
    PiecesSnoc(q, index, pos, split, k, count);
    AppendAssoc(Leftover(split[0], pos), Pieces(q, index, pos, split[1..k], count),
                [Span(q, IsCurrent(index, count + k - 1), pos)] + Leftover(split[k], pos));
  }

  /** All children that replace a text node whose value split into `split`. */
  function TextChildren(q: string, index: Option<int>, pos: Option<Position>, split: seq<string>, count: nat): seq<Node>
    requires |split| >= 1
  {
    Leftover(split[0], pos) + Pieces(q, index, pos, split[1..], count)
  }

  /** What the visitor turns one text node into, with the counter after it. */
  function HighlightText(value: string, pos: Option<Position>, q: string, index: Option<int>, count: nat): (Node, nat)
    requires |q| > 0
  {
    var split := Split(value, q);
    if |split| <= 1 then (Text(value, pos), count)
    else (Element("span", map[], TextChildren(q, index, pos, split, count), pos), count + |split| - 1)
  }

  /** The depth-first walk over one node, threading the match counter. */
  function HighlightNode(n: Node, q: string, index: Option<int>, count: nat): (r: (Node, nat))
    requires |q| > 0
    ensures r.1 >= count
    decreases n
  {
    match n
    case Text(v, pos) => HighlightText(v, pos, q, index, count)
    case Element(tag, props, cs, pos) =>
      var (cs', c') := HighlightSeq(cs, q, index, count);
      (Element(tag, props, cs', pos), c')
    case Root(cs, pos) =>
      var (cs', c') := HighlightSeq(cs, q, index, count);
      (Root(cs', pos), c')
  }

  /** The walk over a list of siblings, left to right. */
  function HighlightSeq(ns: seq<Node>, q: string, index: Option<int>, count: nat): (r: (seq<Node>, nat))
    requires |q| > 0
    ensures |r.0| == |ns| && r.1 >= count
    decreases ns
  {
    if ns == [] then ([], count)
    else
      var (pre, c1) := HighlightSeq(ns[..|ns| - 1], q, index, count);
      var (last, c2) := HighlightNode(ns[|ns| - 1], q, index, c1);
      (pre + [last], c2)
  }

  /** The tree `highlight(query, index, tree)` leaves behind. */
  function Highlighted(tree: Node, q: string, index: Option<int>): Node {
    if |q| == 0 then tree else HighlightNode(tree, q, index, 0).0
  }

  // ---------------------------------------------------------------------
  // Reference definitions the highlighter is measured against

  /** The text of a tree, read in document order. */
  function TextContent(n: Node): string
    decreases n
  {
    match n
    case Text(v, _) => v
    case Element(_, _, cs, _) => TextContentSeq(cs)
    case Root(cs, _) => TextContentSeq(cs)
  }

  function TextContentSeq(ns: seq<Node>): string
    decreases ns
  {
    if ns == [] then "" else TextContentSeq(ns[..|ns| - 1]) + TextContent(ns[|ns| - 1])
  }

  /** The number of non-overlapping matches of `q` in the text nodes of a tree. */
  function MatchCount(n: Node, q: string): nat
    requires |q| > 0
    decreases n
  {
    match n
    case Text(v, _) => |Split(v, q)| - 1
    case Element(_, _, cs, _) => MatchCountSeq(cs, q)
    case Root(cs, _) => MatchCountSeq(cs, q)
  }

  function MatchCountSeq(ns: seq<Node>, q: string): nat
    requires |q| > 0
    decreases ns
  {
    if ns == [] then 0 else MatchCountSeq(ns[..|ns| - 1], q) + MatchCount(ns[|ns| - 1], q)
  }

  /** An element styled as a highlight span (current or not). */
  predicate IsMark(n: Node) {
    n.Element? && ClassName in n.properties
    && (n.properties[ClassName] == SearchText || n.properties[ClassName] == SearchTextCurrent)
  }

  /** The "current" flags of the highlight spans of a tree, in document order. */
  function Flags(n: Node): seq<bool>
    decreases n
  {
    match n
    case Text(_, _) => []
    case Element(_, props, cs, _) =>
      (if IsMark(n) then [props[ClassName] == SearchTextCurrent] else []) + FlagsSeq(cs)
    case Root(cs, _) => FlagsSeq(cs)
  }

  function FlagsSeq(ns: seq<Node>): seq<bool>
    decreases ns
  {
    if ns == [] then [] else FlagsSeq(ns[..|ns| - 1]) + Flags(ns[|ns| - 1])
  }

  /** The flags that a run of `m` matches numbered from `count` should carry. */
  function Numbered(index: Option<int>, count: int, m: nat): (r: seq<bool>)
    ensures |r| == m
  {
    seq(m, j requires 0 <= j < m => IsCurrent(index, count + j))
  }

  /** How many flags are set. */
  function CountTrue(bs: seq<bool>): nat {
    if bs == [] then 0 else CountTrue(bs[..|bs| - 1]) + (if bs[|bs| - 1] then 1 else 0)
  }

  // ---------------------------------------------------------------------
  // Folds over siblings distribute over concatenation

  lemma {:induction false} TextContentSeqAppend(a: seq<Node>, b: seq<Node>)
    ensures TextContentSeq(a + b) == TextContentSeq(a) + TextContentSeq(b)
    decreases |b|
  {
    if b == [] {
      assert a + b == a;
    } else {
      var init := b[..|b| - 1];
      assert (a + b)[..|a + b| - 1] == a + init;
      TextContentSeqAppend(a, init);
    }
  }

  lemma {:induction false} FlagsSeqAppend(a: seq<Node>, b: seq<Node>)
    ensures FlagsSeq(a + b) == FlagsSeq(a) + FlagsSeq(b)
    decreases |b|
  {
    if b == [] {
      assert a + b == a;
    } else {
      var init := b[..|b| - 1];
      assert (a + b)[..|a + b| - 1] == a + init;
      FlagsSeqAppend(a, init);
    }
  }

  lemma NumberedAppend(index: Option<int>, count: int, m1: nat, m2: nat)
    ensures Numbered(index, count, m1) + Numbered(index, count + m1, m2) == Numbered(index, count, m1 + m2)
  {
  }

  // ---------------------------------------------------------------------
  // The counter

  /** The walk advances the counter by exactly the number of matches in the tree. */
  lemma {:induction false} HighlightNodeCount(n: Node, q: string, index: Option<int>, count: nat)
    requires |q| > 0
    ensures HighlightNode(n, q, index, count).1 == count + MatchCount(n, q)
    decreases n
  {
    match n
    case Text(_, _) =>
    case Element(_, _, cs, _) => HighlightSeqCount(cs, q, index, count);
    case Root(cs, _) => HighlightSeqCount(cs, q, index, count);
  }

  lemma {:induction false} HighlightSeqCount(ns: seq<Node>, q: string, index: Option<int>, count: nat)
    requires |q| > 0
    ensures HighlightSeq(ns, q, index, count).1 == count + MatchCountSeq(ns, q)
    decreases ns
  {
    if ns != [] {
      var init := ns[..|ns| - 1];
      HighlightSeqCount(init, q, index, count);
      HighlightNodeCount(ns[|ns| - 1], q, index, HighlightSeq(init, q, index, count).1);
    }
  }

  // ---------------------------------------------------------------------
  // The text of the document is preserved

  lemma TextOfLeftover(s: string, pos: Option<Position>)
    ensures TextContentSeq(Leftover(s, pos)) == s
  {
    if |s| > 0 {
      assert Leftover(s, pos)[..0] == [];
    }
  }

  lemma {:induction false} TextOfPieces(q: string, index: Option<int>, pos: Option<Position>, rest: seq<string>, count: nat)
    ensures TextContentSeq(Pieces(q, index, pos, rest, count)) == JoinTail(rest, q)
    decreases |rest|
  {
    if rest != [] {
      var init := rest[..|rest| - 1];
      var last := rest[|rest| - 1];
      var sp := Span(q, IsCurrent(index, count + |rest| - 1), pos);
      TextOfPieces(q, index, pos, init, count);
      var p := Pieces(q, index, pos, init, count);
      TextContentSeqAppend(p + [sp], Leftover(last, pos));
      TextContentSeqAppend(p, [sp]);
      assert [sp][..0] == [];
      assert [Text(q, pos)][..0] == [];
      assert TextContentSeq([Text(q, pos)]) == q;
      assert TextContent(sp) == q;
      assert TextContentSeq([sp]) == q;
      TextOfLeftover(last, pos);
    }
  }

  /** The children that replace a text node spell out its value again. */
  lemma TextOfTextChildren(value: string, q: string, index: Option<int>, pos: Option<Position>, count: nat)
    requires |q| > 0
    ensures TextContentSeq(TextChildren(q, index, pos, Split(value, q), count)) == value
  {
    var split := Split(value, q);
    TextContentSeqAppend(Leftover(split[0], pos), Pieces(q, index, pos, split[1..], count));
    TextOfLeftover(split[0], pos);
    TextOfPieces(q, index, pos, split[1..], count);
    JoinAsTail(split, q);
    JoinSplit(value, q);
  }

  /** Highlighting never changes the text of the document, only its markup. */
  lemma {:induction false} HighlightPreservesText(n: Node, q: string, index: Option<int>, count: nat)
    requires |q| > 0
    ensures TextContent(HighlightNode(n, q, index, count).0) == TextContent(n)
    decreases n
  {
    match n
    case Text(v, pos) =>
      if |Split(v, q)| > 1 {
        TextOfTextChildren(v, q, index, pos, count);
      }
    case Element(_, _, cs, _) => HighlightSeqPreservesText(cs, q, index, count);
    case Root(cs, _) => HighlightSeqPreservesText(cs, q, index, count);
  }

  lemma {:induction false} HighlightSeqPreservesText(ns: seq<Node>, q: string, index: Option<int>, count: nat)
    requires |q| > 0
    ensures TextContentSeq(HighlightSeq(ns, q, index, count).0) == TextContentSeq(ns)
    decreases ns
  {
    if ns != [] {
      var init := ns[..|ns| - 1];
      var (pre, c1) := HighlightSeq(init, q, index, count);
      var (last, _) := HighlightNode(ns[|ns| - 1], q, index, c1);
      HighlightSeqPreservesText(init, q, index, count);
      HighlightPreservesText(ns[|ns| - 1], q, index, c1);
      assert (pre + [last])[..|pre|] == pre;
    }
  }

  // ---------------------------------------------------------------------
  // Zero matches leave the tree as it is

  /** A text node is rewritten exactly when its value contains the query. */
  lemma TextUntouchedIffNoMatch(v: string, pos: Option<Position>, q: string, index: Option<int>, count: nat)
    requires |q| > 0
    ensures HighlightText(v, pos, q, index, count) == (Text(v, pos), count) <==> !Contains(v, q)
  {
    SplitOneIffAbsent(v, q);
  }

  /** A tree without any match comes back unchanged, and so does the counter. */
  lemma {:induction false} NoMatchUnchanged(n: Node, q: string, index: Option<int>, count: nat)
    requires |q| > 0 && MatchCount(n, q) == 0
    ensures HighlightNode(n, q, index, count) == (n, count)
    decreases n
  {
    match n
    case Text(_, _) =>
    case Element(_, _, cs, _) => NoMatchSeqUnchanged(cs, q, index, count);
    case Root(cs, _) => NoMatchSeqUnchanged(cs, q, index, count);
  }

  lemma {:induction false} NoMatchSeqUnchanged(ns: seq<Node>, q: string, index: Option<int>, count: nat)
    requires |q| > 0 && MatchCountSeq(ns, q) == 0
    ensures HighlightSeq(ns, q, index, count) == (ns, count)
    decreases ns
  {
    if ns != [] {
      var init := ns[..|ns| - 1];
      NoMatchSeqUnchanged(init, q, index, count);
      NoMatchUnchanged(ns[|ns| - 1], q, index, count);
      assert init + [ns[|ns| - 1]] == ns;
    }
  }

  // ---------------------------------------------------------------------
  // Which span is current

  /** The tree carries no highlight span yet (true of a freshly parsed document). */
  predicate NoMarks(n: Node) {
    Flags(n) == []
  }

  lemma FlagsOfLeftover(s: string, pos: Option<Position>)
    ensures FlagsSeq(Leftover(s, pos)) == []
  {
    if |s| > 0 {
      assert Leftover(s, pos)[..0] == [];
    }
  }

  /** A span carries exactly its own flag. */
  lemma FlagsOfSpan(q: string, b: bool, pos: Option<Position>)
    ensures FlagsSeq([Span(q, b, pos)]) == [b]
  {
    var sp := Span(q, b, pos);
    assert [sp][..0] == [];
    assert [Text(q, pos)][..0] == [];
    assert FlagsSeq([Text(q, pos)]) == [];
    assert IsMark(sp);
    assert Flags(sp) == [b];
  }

  lemma {:induction false} FlagsOfPieces(q: string, index: Option<int>, pos: Option<Position>, rest: seq<string>, count: nat)
    ensures FlagsSeq(Pieces(q, index, pos, rest, count)) == Numbered(index, count, |rest|)
    decreases |rest|
  {
    if rest != [] {
      var init := rest[..|rest| - 1];
      var last := rest[|rest| - 1];
      var b := IsCurrent(index, count + |rest| - 1);
      var sp := Span(q, b, pos);
      var p := Pieces(q, index, pos, init, count);
      assert Pieces(q, index, pos, rest, count) == p + [sp] + Leftover(last, pos);
      calc {
        FlagsSeq(p + [sp] + Leftover(last, pos));
        { FlagsSeqAppend(p + [sp], Leftover(last, pos)); FlagsOfLeftover(last, pos); }
        FlagsSeq(p + [sp]);
        { FlagsSeqAppend(p, [sp]); FlagsOfSpan(q, b, pos); }
        FlagsSeq(p) + [b];
        { FlagsOfPieces(q, index, pos, init, count); }
        Numbered(index, count, |init|) + [b];
        { assert Numbered(index, count + |init|, 1) == [b]; }
        Numbered(index, count, |init|) + Numbered(index, count + |init|, 1);
        { NumberedAppend(index, count, |init|, 1); }
        Numbered(index, count, |rest|);
      }
    }
  }

  /** The spans that replace a text node are numbered from `count`, one per match. */
  lemma FlagsOfTextChildren(q: string, index: Option<int>, pos: Option<Position>, split: seq<string>, count: nat)
    requires |split| >= 1
    ensures FlagsSeq(TextChildren(q, index, pos, split, count)) == Numbered(index, count, |split| - 1)
  {
    FlagsSeqAppend(Leftover(split[0], pos), Pieces(q, index, pos, split[1..], count));
    FlagsOfLeftover(split[0], pos);
    FlagsOfPieces(q, index, pos, split[1..], count);
  }

  /**
   * On a tree without highlight spans, the walk produces one span per match,
   * in document order, and the span numbered `count + j` is current exactly
   * when `index` is `count + j`.
   */
  lemma {:induction false} HighlightFlags(n: Node, q: string, index: Option<int>, count: nat)
    requires |q| > 0 && NoMarks(n)
    ensures Flags(HighlightNode(n, q, index, count).0) == Numbered(index, count, MatchCount(n, q))
    decreases n
  {
    match n
    case Text(v, pos) =>
      var split := Split(v, q);
      if |split| > 1 {
        FlagsOfTextChildren(q, index, pos, split, count);
      }
    case Element(_, _, cs, _) => HighlightSeqFlags(cs, q, index, count);
    case Root(cs, _) => HighlightSeqFlags(cs, q, index, count);
  }

  lemma {:induction false} HighlightSeqFlags(ns: seq<Node>, q: string, index: Option<int>, count: nat)
    requires |q| > 0 && FlagsSeq(ns) == []
    ensures FlagsSeq(HighlightSeq(ns, q, index, count).0) == Numbered(index, count, MatchCountSeq(ns, q))
    decreases ns
  {
    if ns != [] {
      var init, n := ns[..|ns| - 1], ns[|ns| - 1];
      var (pre, c1) := HighlightSeq(init, q, index, count);
      var last := HighlightNode(n, q, index, c1).0;
      var m1, m2 := MatchCountSeq(init, q), MatchCount(n, q);
      assert HighlightSeq(ns, q, index, count).0 == pre + [last];
      assert MatchCountSeq(ns, q) == m1 + m2;
      assert FlagsSeq(init) == [] && NoMarks(n) by {
        assert FlagsSeq(ns) == FlagsSeq(init) + Flags(n);
      }
      calc {
        FlagsSeq(pre + [last]);
        { assert (pre + [last])[..|pre|] == pre; }
        FlagsSeq(pre) + Flags(last);
        { HighlightSeqFlags(init, q, index, count); HighlightFlags(n, q, index, c1); }
        Numbered(index, count, m1) + Numbered(index, c1, m2);
        { HighlightSeqCount(init, q, index, count); NumberedAppend(index, count, m1, m2); }
        Numbered(index, count, m1 + m2);
      }
    }
  }

  lemma {:induction false} CountTrueNumbered(index: Option<int>, m: nat)
    ensures CountTrue(Numbered(index, 0, m)) == if index.Some? && 0 <= index.value < m then 1 else 0
  {
    if m > 0 {
      CountTrueNumbered(index, m - 1);
      assert Numbered(index, 0, m)[..m - 1] == Numbered(index, 0, m - 1);
    }
  }

  /**
   * After highlighting a tree that had no highlight span, exactly one span is
   * current when `index` numbers one of the matches, and none otherwise (in
   * particular none when `index` is null).
   */
  lemma ExactlyOneCurrent(tree: Node, q: string, index: Option<int>)
    requires |q| > 0 && NoMarks(tree)
    ensures |Flags(Highlighted(tree, q, index))| == MatchCount(tree, q)
    ensures CountTrue(Flags(Highlighted(tree, q, index)))
         == if index.Some? && 0 <= index.value < MatchCount(tree, q) then 1 else 0
  {
    HighlightFlags(tree, q, index, 0);
    CountTrueNumbered(index, MatchCount(tree, q));
  }

  // ---------------------------------------------------------------------
  // The shape of a rewritten text node

  /** `x` is a highlight span around the query. */
  predicate IsSpanOf(x: Node, q: string, pos: Option<Position>) {
    x == Span(q, true, pos) || x == Span(q, false, pos)
  }

  lemma {:induction false} PiecesShape(q: string, index: Option<int>, pos: Option<Position>, rest: seq<string>, count: nat)
    ensures forall x | x in Pieces(q, index, pos, rest, count) ::
      IsSpanOf(x, q, pos) || (x.Text? && x.position == pos && x.value != "" && x.value in rest)
    decreases |rest|
  {
    if rest != [] {
      var init := rest[..|rest| - 1];
      PiecesShape(q, index, pos, init, count);
      forall x | x in Pieces(q, index, pos, init, count) && x.Text? ensures x.value in rest {
        assert x.value in init;
      }
    }
  }

  /**
   * Every child that replaces a text node is either a highlight span whose
   * only child is the query, or a non-empty leftover piece of the value that
   * does not contain the query.
   */
  lemma TextChildrenShape(value: string, q: string, index: Option<int>, pos: Option<Position>, count: nat)
    requires |q| > 0
    ensures forall x | x in TextChildren(q, index, pos, Split(value, q), count) ::
      IsSpanOf(x, q, pos) || (x.Text? && x.position == pos && x.value != "" && !Contains(x.value, q))
  {
    var split := Split(value, q);
    PiecesShape(q, index, pos, split[1..], count);
    forall x | x in TextChildren(q, index, pos, split, count) && !IsSpanOf(x, q, pos)
      ensures x.Text? && x.position == pos && x.value != "" && !Contains(x.value, q)
    {
      if x in Leftover(split[0], pos) {
        SplitPiecesAvoidSeparator(value, q, 0);
      } else {
        var k :| 0 <= k < |split[1..]| && split[1..][k] == x.value;
        SplitPiecesAvoidSeparator(value, q, k + 1);
      }
    }
  }

  // ---------------------------------------------------------------------
  // The tree as the mutable objects the source rewrites in place

  /** The `type` tag of a HAST object. */
  datatype Kind = RootKind | ElementKind | TextKind

  /**
   * One HAST object. `textToElem` changes the kind of a text object to
   * `element` in place and gives it children, so one class carries every
   * field; `value` is left behind on a rewritten node, as in the source.
   */
  class HNode {
    var kind: Kind
    var value: string
    var tagName: string
    var properties: map<string, string>
    var children: seq<HNode>
    var position: Option<Position>
    ghost var Repr: set<object>

    /** The objects below this one form a tree: no sharing, no cycle. */
    ghost predicate Valid()
      reads this, Repr
      decreases Repr
    {
      && this in Repr
      && (kind == TextKind ==> children == [])
      && (forall i :: 0 <= i < |children| ==>
            && children[i] in Repr
            && children[i].Repr <= Repr
            && this !in children[i].Repr
            && children[i].Valid())
      && (forall i, j :: 0 <= i < j < |children| ==> children[i].Repr !! children[j].Repr)
    }

    /** The value this object graph stands for. */
    ghost function Model(): Node
      reads this, Repr
      requires Valid()
      decreases Repr, |children| + 1
    {
      match kind
      case TextKind => Text(value, position)
      case ElementKind => Element(tagName, properties, ChildModels(|children|), position)
      case RootKind => Root(ChildModels(|children|), position)
    }

    /** The values of the first `k` children. */
    ghost function ChildModels(k: nat): (ms: seq<Node>)
      reads this, Repr
      requires Valid() && k <= |children|
      ensures |ms| == k
      decreases Repr, k
    {
      if k == 0 then [] else ChildModels(k - 1) + [children[k - 1].Model()]
    }

    lemma {:induction false} ChildModelsAt(k: nat, j: nat)
      requires Valid() && j < k <= |children|
      ensures ChildModels(k)[j] == children[j].Model()
      decreases k
    {
      if j < k - 1 {
        ChildModelsAt(k - 1, j);
      }
    }

    /** Over children built as a forest, the children's values are the forest's values. */
    lemma ChildModelsOfForest(reprs: set<object>)
      requires Valid() && Forest(children, reprs)
      ensures ChildModels(|children|) == Models(children, reprs)
    {
      forall j | 0 <= j < |children| ensures Models(children, reprs)[j] == children[j].Model() {
        ModelsAt(children, reprs, j);
      }
      ChildModelsAre(Models(children, reprs));
    }

    lemma ChildModelsPointwise()
      requires Valid()
      ensures forall j :: 0 <= j < |children| ==> ChildModels(|children|)[j] == children[j].Model()
    {
      forall j | 0 <= j < |children| ensures ChildModels(|children|)[j] == children[j].Model() {
        ChildModelsAt(|children|, j);
      }
    }

    /** The children's values, one by one, are the children's values all at once. */
    lemma ChildModelsAre(ms: seq<Node>)
      requires Valid() && |ms| == |children|
      requires forall j :: 0 <= j < |ms| ==> ms[j] == children[j].Model()
      ensures ChildModels(|children|) == ms
    {
      forall j | 0 <= j < |ms| ensures ChildModels(|children|)[j] == ms[j] {
        ChildModelsAt(|children|, j);
      }
    }

    /**
     * After child `i` was rewritten inside its own footprint and fresh
     * objects, with nothing else changed but this node's footprint, this node
     * is still valid and only the value of child `i` differs.
     */
    twostate lemma ChildRewritten(i: nat)
      requires old(Valid()) && i < |old(children)|
      requires forall j :: 0 <= j < |old(children)| ==> old(ChildModels(|children|)[j] == children[j].Model())
      requires children == old(children) && kind == old(kind)
      requires Repr == old(Repr) + children[i].Repr
      requires children[i].Valid() && fresh(children[i].Repr - old(children[i].Repr))
      requires unchanged(old(Repr) - old(children[i].Repr) - {this})
      ensures Valid()
      ensures ChildModels(|children|) == old(ChildModels(|children|))[i := children[i].Model()]
    {
      var cs := children;
      forall j | 0 <= j < |cs| && j != i
        ensures cs[j].Valid() && cs[j].Repr == old(cs[j].Repr) && cs[j].Model() == old(cs[j].Model())
      {
        assert old(cs[j].Repr) <= old(Repr) - old(cs[i].Repr) - {this};
        Untouched(cs[j]);
      }
      assert Valid();
      ChildModelsAre(old(ChildModels(|children|))[i := cs[i].Model()]);
    }

    /** The local `text` helper. */
    constructor TextNode(value: string, position: Option<Position>)
      ensures Valid() && fresh(Repr) && Model() == Text(value, position)
    {
      this.kind := TextKind;
      this.value := value;
      this.tagName := "";
      this.properties := map[];
      this.children := [];
      this.position := position;
      this.Repr := {this};
    }

    /** The local `span` helper: a styled `span` around one text child. */
    constructor SpanNode(s: string, current: bool, position: Option<Position>)
      ensures Valid() && fresh(Repr) && Model() == Span(s, current, position)
    {
      var t := new HNode.TextNode(s, position);
      this.kind := ElementKind;
      this.value := "";
      this.tagName := "span";
      this.properties := map[ClassName := if current then SearchTextCurrent else SearchText];
      this.children := [t];
      this.position := position;
      this.Repr := {this} + t.Repr;
      new;
      assert ChildModels(1) == [t.Model()];
    }

    /** A node with the given fields over already built, disjoint children. */
    constructor Copy(kind: Kind, value: string, tagName: string, properties: map<string, string>,
                     children: seq<HNode>, position: Option<Position>, ghost reprs: set<object>)
      requires kind == TextKind ==> children == []
      requires forall i :: 0 <= i < |children| ==> children[i].Valid() && children[i].Repr <= reprs
      requires forall i, j :: 0 <= i < j < |children| ==> children[i].Repr !! children[j].Repr
      ensures Valid() && Repr == {this} + reprs
      ensures this.kind == kind && this.value == value && this.tagName == tagName
      ensures this.properties == properties && this.children == children && this.position == position
    {
      this.kind := kind;
      this.value := value;
      this.tagName := tagName;
      this.properties := properties;
      this.children := children;
      this.position := position;
      this.Repr := {this} + reprs;
    }

    /** `textToElem`: this node becomes, in place, a `span` element over `children`. */
    method TextToElem(children: seq<HNode>, ghost reprs: set<object>)
      requires this !in reprs
      requires forall i :: 0 <= i < |children| ==> children[i].Valid() && children[i].Repr <= reprs
      requires forall i, j :: 0 <= i < j < |children| ==> children[i].Repr !! children[j].Repr
      modifies this
      ensures Valid() && Repr == {this} + reprs
      ensures kind == ElementKind && tagName == "span" && properties == map[] && this.children == children
      ensures value == old(value) && position == old(position)
    {
      kind := ElementKind;
      tagName := "span";
      properties := map[];
      this.children := children;
      Repr := {this} + reprs;
    }
  }

  /**
   * `cloneJson`: a deep copy made of fresh objects that stands for the same
   * value. It modifies nothing, so the tree it copies is left as it was.
   */
  method CloneJson(n: HNode) returns (c: HNode)
    requires n.Valid()
    ensures c.Valid() && fresh(c.Repr)
    ensures c.Model() == n.Model()
    decreases n.Repr, 2
  {
    var children;
    ghost var reprs;
    children, reprs := CloneChildren(n);
    c := new HNode.Copy(n.kind, n.value, n.tagName, n.properties, children, n.position, reprs);
    c.ChildModelsOfForest(reprs);
  }

  /** The `map` over the children array inside `cloneJson`. */
  method CloneChildren(n: HNode) returns (children: seq<HNode>, ghost reprs: set<object>)
    requires n.Valid()
    ensures fresh(reprs) && Forest(children, reprs)
    ensures Models(children, reprs) == n.ChildModels(|n.children|)
    decreases n.Repr, 1
  {
    children := [];
    reprs := {};
    ghost var ms := n.ChildModels(|n.children|);
    var i := 0;
    while i < |n.children|
      invariant 0 <= i <= |n.children| && |children| == i
      invariant fresh(reprs) && Forest(children, reprs)
      invariant Models(children, reprs) == ms[..i]
    {
      n.ChildModelsAt(|ms|, i);
      children, reprs := PushClone(children, reprs, n.children[i], n);
      TakeSnoc(ms, i);
      i := i + 1;
    }
    assert ms[..i] == ms;
  }

  /** One step of that `map`: a deep copy of child `c` of `parent`, appended. */
  method PushClone(children: seq<HNode>, ghost reprs: set<object>, c: HNode, ghost parent: HNode)
    returns (children': seq<HNode>, ghost reprs': set<object>)
    requires Forest(children, reprs) && c.Valid() && c.Repr < parent.Repr
    ensures Forest(children', reprs') && reprs <= reprs' && fresh(reprs' - reprs)
    ensures Models(children', reprs') == Models(children, reprs) + [c.Model()]
    decreases parent.Repr, 0
  {
    var cc := CloneJson(c);
    ForestAppend(children, reprs, cc);
    children', reprs' := children + [cc], reprs + cc.Repr;
  }

  /** Valid nodes with pairwise disjoint footprints, all inside `reprs`. */
  ghost predicate Forest(cs: seq<HNode>, reprs: set<object>)
    reads reprs
  {
    && (forall j :: 0 <= j < |cs| ==> cs[j] in reprs && cs[j].Repr <= reprs && cs[j].Valid())
    && (forall j, l :: 0 <= j < l < |cs| ==> cs[j].Repr !! cs[l].Repr)
  }

  /** The values of a forest's nodes, in order. */
  ghost function Models(cs: seq<HNode>, reprs: set<object>): (ms: seq<Node>)
    reads reprs
    requires Forest(cs, reprs)
    ensures |ms| == |cs|
  {
    if cs == [] then [] else Models(cs[..|cs| - 1], reprs) + [cs[|cs| - 1].Model()]
  }

  lemma {:induction false} ModelsAt(cs: seq<HNode>, reprs: set<object>, j: nat)
    requires Forest(cs, reprs) && j < |cs|
    ensures Models(cs, reprs)[j] == cs[j].Model()
    decreases |cs|
  {
    if j < |cs| - 1 {
      ModelsAt(cs[..|cs| - 1], reprs, j);
    }
  }

  /** A fresh valid node can be added to a forest. */
  lemma ForestAppend(cs: seq<HNode>, reprs: set<object>, o: HNode)
    requires Forest(cs, reprs) && o.Valid() && o.Repr !! reprs
    ensures Forest(cs + [o], reprs + o.Repr)
    ensures Models(cs + [o], reprs + o.Repr) == Models(cs, reprs) + [o.Model()]
  {
    var cs' := cs + [o];
    var r' := reprs + o.Repr;
    assert Forest(cs', r');
    assert cs'[..|cs|] == cs;
    forall j | 0 <= j < |cs| ensures Models(cs, r')[j] == Models(cs, reprs)[j] {
      ModelsAt(cs, r', j);
      ModelsAt(cs, reprs, j);
    }
  }

  /** Appends the text node for a non-empty leftover piece (`text(s, pos)`), and nothing for an empty one. */
  method PushLeftover(children: seq<HNode>, ghost reprs: set<object>, s: string, pos: Option<Position>)
    returns (children': seq<HNode>, ghost reprs': set<object>)
    requires Forest(children, reprs)
    ensures Forest(children', reprs') && reprs <= reprs' && fresh(reprs' - reprs)
    ensures Models(children', reprs') == Models(children, reprs) + Leftover(s, pos)
  {
    children', reprs' := children, reprs;
    if |s| > 0 {
      var t := new HNode.TextNode(s, pos);
      ForestAppend(children, reprs, t);
      children', reprs' := children + [t], reprs + t.Repr;
    }
  }

  /** Appends the highlight span for one match (`span(query, current, pos)`). */
  method PushSpan(children: seq<HNode>, ghost reprs: set<object>, q: string, current: bool, pos: Option<Position>)
    returns (children': seq<HNode>, ghost reprs': set<object>)
    requires Forest(children, reprs)
    ensures Forest(children', reprs') && reprs <= reprs' && fresh(reprs' - reprs)
    ensures Models(children', reprs') == Models(children, reprs) + [Span(q, current, pos)]
  {
    var sp := new HNode.SpanNode(q, current, pos);
    ForestAppend(children, reprs, sp);
    children', reprs' := children + [sp], reprs + sp.Repr;
  }

  /** One step of the loop: the span for a match, then the piece after it. */
  method PushPiece(children: seq<HNode>, ghost reprs: set<object>, q: string, current: bool, s: string, pos: Option<Position>)
    returns (children': seq<HNode>, ghost reprs': set<object>)
    requires Forest(children, reprs)
    ensures Forest(children', reprs') && reprs <= reprs' && fresh(reprs' - reprs)
    ensures Models(children', reprs') == Models(children, reprs) + ([Span(q, current, pos)] + Leftover(s, pos))
  {
    children', reprs' := PushSpan(children, reprs, q, current, pos);
    AppendAssoc(Models(children, reprs), [Span(q, current, pos)], Leftover(s, pos));
    children', reprs' := PushLeftover(children', reprs', s, pos);
  }

  /**
   * The loop that builds the replacement children of a text node whose value
   * split into `split`: the first piece, then for every later piece a span
   * numbered by the running counter followed by the piece; empty pieces are
   * dropped. It only allocates.
   */
  method BuildChildren(q: string, index: Option<int>, pos: Option<Position>, split: seq<string>, count0: nat)
    returns (children: seq<HNode>, ghost reprs: set<object>, count: nat)
    requires |split| >= 1
    ensures fresh(reprs) && Forest(children, reprs)
    ensures count == count0 + |split| - 1
    ensures Models(children, reprs) == TextChildren(q, index, pos, split, count0)
  {
    children, reprs := PushLeftover([], {}, split[0], pos);
    count := count0;
    var k := 1;
    while k < |split|
      invariant 1 <= k <= |split|
      invariant count == count0 + k - 1
      invariant fresh(reprs) && Forest(children, reprs)
      invariant Models(children, reprs) == Leftover(split[0], pos) + Pieces(q, index, pos, split[1..k], count0)
    {
      ghost var before := Models(children, reprs);
      children, reprs := PushPiece(children, reprs, q, IsCurrent(index, count), split[k], pos);
      TextChildrenStep(q, index, pos, split, k, count0, before);
      count := count + 1;
      k := k + 1;
    }
    assert split[1..k] == split[1..];
  }

  /** The visitor: rewrite one text node when its value contains the query. */
  method VisitText(node: HNode, q: string, index: Option<int>, count0: nat) returns (count: nat)
    requires node.Valid() && node.kind == TextKind && |q| > 0
    modifies node
    ensures node.Valid() && fresh(node.Repr - old(node.Repr))
    ensures (node.Model(), count) == HighlightText(old(node.value), old(node.position), q, index, count0)
  {
    var split := Split(node.value, q);
    if |split| <= 1 {
      return count0;
    }
    var pos := node.position;
    var children;
    ghost var reprs;
    children, reprs, count := BuildChildren(q, index, pos, split, count0);
    ghost var want := Models(children, reprs);
    node.TextToElem(children, reprs);
    assert Forest(children, reprs) && Models(children, reprs) == want;
    node.ChildModelsOfForest(reprs);
  }

  /**
   * The depth-first walk of `visit` over one node: a text node goes to the
   * visitor (whose result is not walked again), any other node has its
   * children walked in order.
   */
  method Visit(node: HNode, q: string, index: Option<int>, count0: nat) returns (count: nat)
    requires node.Valid() && |q| > 0
    modifies node.Repr
    ensures node.Valid() && fresh(node.Repr - old(node.Repr))
    ensures (node.Model(), count) == HighlightNode(old(node.Model()), q, index, count0)
    decreases node.Model(), 2
  {
    if node.kind == TextKind {
      count := VisitText(node, q, index, count0);
    } else {
      ghost var ms := node.ChildModels(|node.children|);
      count := VisitChildren(node, q, index, count0);
      assert node.ChildModels(|node.children|) == HighlightSeq(ms, q, index, count0).0;
    }
  }

  /** A valid node none of whose objects changed keeps its validity and its value. */
  twostate lemma Untouched(n: HNode)
    requires old(n.Valid()) && unchanged(old(n.Repr))
    ensures n.Valid() && n.Repr == old(n.Repr) && n.Model() == old(n.Model())
  {
  }

  /**
   * Walking child `i` rewrites that child only. `parent` is the value of the
   * node when its walk began; child `i` still has the value it had there.
   */
  method VisitChild(node: HNode, i: nat, q: string, index: Option<int>, count0: nat, ghost parent: Node)
    returns (count: nat, ghost m: Node)
    requires node.Valid() && node.kind != TextKind && i < |node.children| && |q| > 0
    requires !parent.Text? && i < |parent.children| && node.ChildModels(|node.children|)[i] == parent.children[i]
    modifies node.Repr
    ensures node.Valid() && fresh(node.Repr - old(node.Repr))
    ensures node.kind == old(node.kind) && node.tagName == old(node.tagName)
    ensures node.properties == old(node.properties) && node.position == old(node.position)
    ensures node.children == old(node.children)
    ensures (m, count) == HighlightNode(old(node.ChildModels(|node.children|))[i], q, index, count0)
    ensures node.ChildModels(|node.children|) == old(node.ChildModels(|node.children|))[i := m]
    decreases parent, 0
  {
    node.ChildModelsPointwise();
    var c := node.children[i];
    assert node !in c.Repr && c.Repr <= node.Repr;
    count := Visit(c, q, index, count0);
    node.Repr := node.Repr + c.Repr;
    node.ChildRewritten(i);
    m := c.Model();
  }

  /**
   * Walking the nodes one at a time, each from the counter the previous one
   * left, is walking the whole sequence.
   */
  lemma {:induction false} HighlightSeqSteps(ms: seq<Node>, q: string, index: Option<int>, done: seq<Node>, counts: seq<nat>)
    requires |q| > 0 && |done| == |ms| && |counts| == |ms| + 1
    requires forall j :: 0 <= j < |ms| ==> (done[j], counts[j + 1]) == HighlightNode(ms[j], q, index, counts[j])
    ensures HighlightSeq(ms, q, index, counts[0]) == (done, counts[|ms|])
    decreases |ms|
  {
    if ms != [] {
      var n := |ms| - 1;
      HighlightSeqSteps(ms[..n], q, index, done[..n], counts[..n + 1]);
      assert done == done[..n] + [done[n]];
    }
  }

  /** The walk over the children of a root or element node, left to right. */
  method VisitChildren(node: HNode, q: string, index: Option<int>, count0: nat) returns (count: nat)
    requires node.Valid() && node.kind != TextKind && |q| > 0
    modifies node.Repr
    ensures node.Valid() && fresh(node.Repr - old(node.Repr))
    ensures node.kind == old(node.kind) && node.tagName == old(node.tagName)
    ensures node.properties == old(node.properties) && node.position == old(node.position)
    ensures node.children == old(node.children)
    ensures (node.ChildModels(|node.children|), count)
         == HighlightSeq(old(node.ChildModels(|node.children|)), q, index, count0)
    decreases node.Model(), 1
  {
    ghost var ms := node.ChildModels(|node.children|);
    ghost var cur := ms;
    ghost var counts: seq<nat> := [count0];
    count := count0;
    var i := 0;
    while i < |node.children|
      invariant 0 <= i <= |node.children| == |ms| == |cur|
      invariant node.Valid() && fresh(node.Repr - old(node.Repr))
      invariant node.kind == old(node.kind) && node.tagName == old(node.tagName)
      invariant node.properties == old(node.properties) && node.position == old(node.position)
      invariant node.children == old(node.children)
      invariant node.ChildModels(|node.children|) == cur
      invariant forall j :: i <= j < |ms| ==> cur[j] == ms[j]
      invariant |counts| == i + 1 && counts[0] == count0 && counts[i] == count
      invariant forall j :: 0 <= j < i ==> (cur[j], counts[j + 1]) == HighlightNode(ms[j], q, index, counts[j])
    {
      ghost var m;
      count, m := VisitChild(node, i, q, index, count, old(node.Model()));
      cur := cur[i := m];
      counts := counts + [count];
      i := i + 1;
    }
    HighlightSeqSteps(ms, q, index, cur, counts);
  }

  /**
   * `highlight`: wraps every occurrence of `q` in the text nodes of `tree` in
   * a span, in place; the occurrence numbered `index` is marked current. An
   * empty query leaves the tree alone.
   */
  method Highlight(q: string, index: Option<int>, tree: HNode)
    requires tree.Valid()
    modifies tree.Repr
    ensures tree.Valid() && fresh(tree.Repr - old(tree.Repr))
    ensures tree.Model() == Highlighted(old(tree.Model()), q, index)
    ensures |q| == 0 ==> tree.Repr == old(tree.Repr) && tree.Model() == old(tree.Model())
  {
    if |q| == 0 {
      return;
    }
    var count := Visit(tree, q, index, 0);
  }

  /**
   * `searchHast`: the tree to render for a search. With a query it is a
   * highlighted deep copy; without one it is the cached tree itself. The
   * cached tree is never changed.
   */
  method SearchHast(tree: HNode, q: string, index: Option<int>) returns (r: HNode)
    requires tree.Valid()
    ensures r.Valid() && r.Model() == Highlighted(tree.Model(), q, index)
    ensures |q| == 0 ==> r == tree
    ensures |q| > 0 ==> fresh(r.Repr)
  {
    if |q| > 0 {
      r := CloneJson(tree);
      Highlight(q, index, r);
    } else {
      r := tree;
    }
  }

  /**
   * The plugin inside `parseMarkdown`: with a query, it caches a deep copy of
   * the freshly parsed tree and then highlights the tree being rendered with
   * no current match; without one, the rendered tree itself is the cache.
   */
  method CacheThenHighlight(tree: HNode, q: string) returns (cache: HNode)
    requires tree.Valid()
    modifies tree.Repr
    ensures cache.Valid() && cache.Model() == old(tree.Model())
    ensures tree.Valid() && tree.Model() == Highlighted(old(tree.Model()), q, None)
    ensures |q| > 0 ==> fresh(cache.Repr)
    ensures |q| == 0 ==> cache == tree
  {
    if |q| > 0 {
      cache := CloneJson(tree);
      Highlight(q, None, tree);
    } else {
      cache := tree;
    }
  }
}
