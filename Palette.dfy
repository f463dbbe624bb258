/**
 * The filterable, keyboard-navigable list behind the outline and search
 * pickers (`Palette` in v2/web/components/Palette.tsx): a case-insensitive
 * substring filter, a stored selection index clamped against what is
 * visible, wrap-around navigation and the scroll alignment of the focused
 * row.
 */
module Palette {
  import opened Wrappers
  import opened Strings

  /** A row of the list: its label and whatever the caller attached to it. */
  datatype Item<T> = Item(text: string, payload: T)

  /** A key press as the handler sees it. */
  datatype KeyEvent = KeyEvent(key: string, shiftKey: bool, ctrlKey: bool)

  /** What a key press is taken to mean, in the order the handler tests for it. */
  datatype Command = Next | Prev | Last | First | Confirm | Pass

  /** How the focused row is brought into view. */
  datatype Block = Center | Nearest

  /** What the handler does besides moving the selection. */
  datatype KeyOutcome<T> = KeyOutcome(preventDefault: bool, selected: Option<Item<T>>, blur: bool)

  // ---------------------------------------------------------------------
  // Filtering (line 46)
  // ---------------------------------------------------------------------

  /** The filter's test: the lower-cased label includes the query. */
  predicate Matches<T>(it: Item<T>, query: string) {
    Contains(Lower(it.text), query)
  }

  /** `items.filter(h => h.text.toLowerCase().includes(query))`. */
  function FilterItems<T>(items: seq<Item<T>>, query: string): (r: seq<Item<T>>)
    ensures |r| <= |items|
    ensures forall x :: x in r ==> x in items && Matches(x, query)
    decreases |items|
  {
    if items == [] then []
    else (if Matches(items[0], query) then [items[0]] else []) + FilterItems(items[1..], query)
  }

  /**
   * The items on display. The code skips the filter for an empty query; the
   * short cut changes nothing, so what is on display is always the filtered
   * list.
   */
  function Visible<T>(items: seq<Item<T>>, query: string): (r: seq<Item<T>>)
    ensures r == FilterItems(items, query)
  {
    if query == "" then
      FilterEmptyQuery(items);
      items
    else
      FilterItems(items, query)
  }

  /** `r` is `s` with some elements left out and the rest in their original order. */
  ghost predicate IsSubsequence<T>(r: seq<T>, s: seq<T>)
    decreases |s|
  {
    if r == [] then true
    else if s == [] then false
    else (r[0] == s[0] && IsSubsequence(r[1..], s[1..])) || IsSubsequence(r, s[1..])
  }

  /** Every item that matches is kept: the filter loses nothing it should show. */
  lemma {:induction false} FilterKeepsMatches<T>(items: seq<Item<T>>, query: string, x: Item<T>)
    requires x in items && Matches(x, query)
    ensures x in FilterItems(items, query)
    decreases |items|
  {
    if items[0] != x {
      assert x in items[1..];
      FilterKeepsMatches(items[1..], query, x);
    }
  }

  /** The filter keeps exactly the matching items. */
  lemma FilterMembership<T>(items: seq<Item<T>>, query: string, x: Item<T>)
    ensures x in FilterItems(items, query) <==> x in items && Matches(x, query)
  {
    if x in items && Matches(x, query) {
      FilterKeepsMatches(items, query, x);
    }
  }

  /** The filter keeps the original order. */
  lemma {:induction false} FilterIsSubsequence<T>(items: seq<Item<T>>, query: string)
    ensures IsSubsequence(FilterItems(items, query), items)
    decreases |items|
  {
    if items != [] {
      var rest := FilterItems(items[1..], query);
      FilterIsSubsequence(items[1..], query);
      if Matches(items[0], query) {
        assert FilterItems(items, query) == [items[0]] + rest;
        assert ([items[0]] + rest)[1..] == rest;
      } else {
        assert FilterItems(items, query) == rest;
        if rest != [] {
          assert IsSubsequence(rest, items[1..]);
        }
      }
    }
  }

  /** Filtering a concatenation filters each part. */
  lemma {:induction false} FilterAppend<T>(a: seq<Item<T>>, b: seq<Item<T>>, query: string)
    ensures FilterItems(a + b, query) == FilterItems(a, query) + FilterItems(b, query)
    decreases |a|
  {
    if a != [] {
      assert (a + b)[0] == a[0];
      assert (a + b)[1..] == a[1..] + b;
      FilterAppend(a[1..], b, query);
    } else {
      assert a + b == b;
    }
  }

  /** Filtering twice with the same query is filtering once. */
  lemma {:induction false} FilterIdempotent<T>(items: seq<Item<T>>, query: string)
    ensures FilterItems(FilterItems(items, query), query) == FilterItems(items, query)
    decreases |items|
  {
    if items != [] {
      var head := if Matches(items[0], query) then [items[0]] else [];
      var rest := FilterItems(items[1..], query);
      FilterAppend(head, rest, query);
      FilterIdempotent(items[1..], query);
      if head != [] {
        assert FilterItems(head, query) == head by {
          assert head[1..] == [];
        }
      }
    }
  }

  /** Every string includes the empty string. */
  lemma ContainsEmpty(s: string)
    ensures Contains(s, "")
  {
    assert IsAt(s, "", 0);
  }

  /**
   * The empty-query short cut changes nothing: filtering by the empty query
   * already keeps every item.
   */
  lemma {:induction false} FilterEmptyQuery<T>(items: seq<Item<T>>)
    ensures FilterItems(items, "") == items
    decreases |items|
  {
    if items != [] {
      ContainsEmpty(Lower(items[0].text));
      FilterEmptyQuery(items[1..]);
    }
  }

  // ---------------------------------------------------------------------
  // The selection index (lines 47, 52, 72-90)
  // ---------------------------------------------------------------------

  /** `j` is a row of a list of `len` rows. */
  predicate IsPosition(j: int, len: nat) {
    0 <= j < len
  }

  /** `max(len - 1, 0)`: the greatest position, or 0 for an empty list. */
  function LastIndex(len: nat): (r: nat)
    ensures len > 0 ==> IsPosition(r, len) && forall j :: IsPosition(j, len) ==> j <= r
    ensures len == 0 ==> r == 0
  {
    if len > 0 then len - 1 else 0
  }

  /**
   * The stored index clamped against the visible length: the largest valid
   * position that does not exceed the stored index, or 0 when nothing is
   * visible.
   */
  function ClampIndex(stored: nat, len: nat): (r: nat)
    ensures r <= stored
    ensures len > 0 ==> r < len
    ensures len == 0 ==> r == 0
    ensures stored < len ==> r == stored
    ensures len > 0 && stored >= len ==> r + 1 == len
  {
    if stored < len then stored else LastIndex(len)
  }

  /** Clamping an index that is already clamped changes nothing. */
  lemma ClampIdempotent(stored: nat, len: nat)
    ensures ClampIndex(ClampIndex(stored, len), len) == ClampIndex(stored, len)
  {
  }

  /** Next, with wrap-around at or past the end. */
  function NextIndex(index: nat, len: nat): (r: nat)
    ensures len > 0 ==> r < len
    ensures len == 0 ==> r == 0
  {
    var next := index + 1;
    if next >= len then 0 else next
  }

  /** Previous, wrapping below zero to the last position. */
  function PrevIndex(index: nat, len: nat): (r: nat)
    requires index < len || index == 0
    ensures len > 0 ==> r < len
    ensures len == 0 ==> r == 0
  {
    var next := index - 1;
    if next < 0 then LastIndex(len) else next
  }

  /** On a valid position, next is a step forwards modulo the length. */
  lemma NextIsSuccessorModulo(index: nat, len: nat)
    requires index < len
    ensures NextIndex(index, len) == (index + 1) % len
  {
    if index + 1 == len {
      assert (index + 1) % len == 0;
    }
  }

  /** On a valid position, previous is a step backwards modulo the length. */
  lemma PrevIsPredecessorModulo(index: nat, len: nat)
    requires index < len
    ensures PrevIndex(index, len) == (index - 1) % len
  {
    if index == 0 {
      assert (index - 1) % len == len - 1;
    }
  }

  /** Next, then previous (each on the re-clamped index), comes back on a non-empty list. */
  lemma NextThenPrev(stored: nat, len: nat)
    requires len > 0
    ensures var i := ClampIndex(stored, len);
            PrevIndex(ClampIndex(NextIndex(i, len), len), len) == i
  {
  }

  /** Previous, then next, comes back on a non-empty list. */
  lemma PrevThenNext(stored: nat, len: nat)
    requires len > 0
    ensures var i := ClampIndex(stored, len);
            NextIndex(ClampIndex(PrevIndex(i, len), len), len) == i
  {
  }

  /** `k` presses of next from a valid position. */
  function NextTimes(index: nat, len: nat, k: nat): (r: nat)
    requires index < len
    ensures r < len
    decreases k
  {
    if k == 0 then index else NextIndex(NextTimes(index, len, k - 1), len)
  }

  /** `k` presses of previous from a valid position. */
  function PrevTimes(index: nat, len: nat, k: nat): (r: nat)
    requires index < len
    ensures r < len
    decreases k
  {
    if k == 0 then index else PrevTimes(PrevIndex(index, len), len, k - 1)
  }

  /** `k` presses of next followed by `k` presses of previous come back to where they started. */
  lemma {:induction false} NextTimesThenPrevTimes(index: nat, len: nat, k: nat)
    requires index < len
    ensures PrevTimes(NextTimes(index, len, k), len, k) == index
    decreases k
  {
    if k > 0 {
      var j := NextTimes(index, len, k - 1);
      assert PrevIndex(NextIndex(j, len), len) == j;
      NextTimesThenPrevTimes(index, len, k - 1);
    }
  }

  /** The scroll alignment of the focused row: centred at either end, nearest elsewhere. */
  function ScrollBlock(index: nat, len: nat): Block {
    if index == 0 || index == len - 1 then Center else Nearest
  }

  /** The alignment is the same seen from either end of the list. */
  lemma ScrollBlockSymmetric(index: nat, len: nat)
    requires index < len
    ensures ScrollBlock(index, len) == ScrollBlock(len - 1 - index, len)
  {
  }

  /** With one or two rows every row is at an end, so every row is centred. */
  lemma ShortListsCenter(index: nat, len: nat)
    requires index < len <= 2
    ensures ScrollBlock(index, len) == Center
  {
  }

  // ---------------------------------------------------------------------
  // Key handling (lines 66-106)
  // ---------------------------------------------------------------------

  predicate IsNextKey(e: KeyEvent) {
    || (e.key == "n" && !e.shiftKey && e.ctrlKey)
    || (e.key == "ArrowDown" && !e.ctrlKey)
    || (e.key == "Tab" && !e.shiftKey)
  }

  predicate IsPrevKey(e: KeyEvent) {
    || (e.key == "p" && !e.shiftKey && e.ctrlKey)
    || (e.key == "ArrowUp" && !e.ctrlKey)
    || (e.key == "Tab" && e.shiftKey)
  }

  /** The chain of tests in `handleKeydown`, the first that holds deciding. */
  function CommandOf(e: KeyEvent): (c: Command)
    ensures c == Next <==> IsNextKey(e)
    ensures c == Prev <==> !IsNextKey(e) && IsPrevKey(e)
    ensures c == Last <==> e.key == "ArrowDown" && e.ctrlKey
    ensures c == First <==> e.key == "ArrowUp" && e.ctrlKey
    ensures c == Confirm <==> e.key == "Enter"
  {
    if IsNextKey(e) then Next
    else if IsPrevKey(e) then Prev
    else if e.key == "ArrowDown" && e.ctrlKey then Last
    else if e.key == "ArrowUp" && e.ctrlKey then First
    else if e.key == "Enter" then Confirm
    else Pass
  }

  /** Escape, with or without modifiers, is passed through to the dialog. */
  lemma EscapePasses(e: KeyEvent)
    requires e.key == "Escape"
    ensures CommandOf(e) == Pass
  {
  }

  /** The picker's state: the items it was given, the query typed so far and the stored index. */
  class Palette<T> {
    var items: seq<Item<T>>
    var query: string
    var unadjustedIndex: nat

    /** A freshly opened picker: empty query, first row. */
    constructor (items: seq<Item<T>>)
      ensures this.items == items && query == "" && unadjustedIndex == 0
    {
      this.items := items;
      query := "";
      unadjustedIndex := 0;
    }

    function Shown(): seq<Item<T>>
      reads this
    {
      Visible(items, query)
    }

    /** The index actually used: the stored one clamped against what is shown. */
    function Index(): (i: nat)
      reads this
      ensures |Shown()| > 0 ==> i < |Shown()|
      ensures i <= unadjustedIndex
    {
      ClampIndex(unadjustedIndex, |Shown()|)
    }

    /** Typing: the query becomes the lower-cased input; the stored index stays. */
    method HandleInput(value: string)
      modifies this
      ensures query == Lower(value) && Lower(query) == query
      ensures items == old(items) && unadjustedIndex == old(unadjustedIndex)
    {
      query := Lower(value);
      LowerIdempotent(value);
    }

    /**
     * A key press: navigation keys store the new index and swallow the
     * event, Enter reports the row under the selection when there is one,
     * and every other key is let through (Escape blurring the input first).
     */
    method HandleKeydown(e: KeyEvent) returns (r: KeyOutcome<T>)
      modifies this
      ensures items == old(items) && query == old(query)
      ensures var len, i := |old(Shown())|, old(Index());
              match CommandOf(e)
              case Next => unadjustedIndex == NextIndex(i, len)
              case Prev => unadjustedIndex == PrevIndex(i, len)
              case Last => unadjustedIndex == LastIndex(len)
              case First => unadjustedIndex == 0
              case _ => unadjustedIndex == old(unadjustedIndex)
      ensures r.preventDefault <==> CommandOf(e) != Pass
      ensures r.selected.Some? <==> CommandOf(e) == Confirm && |Shown()| > 0
      ensures r.selected.Some? ==> r.selected.value == Shown()[Index()]
      ensures r.blur <==> e.key == "Escape"
      ensures CommandOf(e) != Pass && CommandOf(e) != Confirm ==>
                unadjustedIndex == Index() && (unadjustedIndex < |Shown()| || |Shown()| == 0)
    {
      var shown := Visible(items, query);
      var index := ClampIndex(unadjustedIndex, |shown|);
      r := KeyOutcome(true, None, false);
      match CommandOf(e)
      case Next =>
        var next := index + 1;
        if next >= |shown| {
          next := 0;
        }
        unadjustedIndex := next;
      case Prev =>
        var next := index - 1;
        if next < 0 {
          next := if |shown| - 1 > 0 then |shown| - 1 else 0;
        }
        unadjustedIndex := next;
      case Last =>
        unadjustedIndex := if |shown| - 1 > 0 then |shown| - 1 else 0;
      case First =>
        unadjustedIndex := 0;
      case Confirm =>
        if index < |shown| {
          r := r.(selected := Some(shown[index]));
        }
      case Pass =>
        r := KeyOutcome(false, None, e.key == "Escape");
    }
  }

  /** Every row handed back by Enter is one of the given items, and it matches the query. */
  lemma SelectedIsVisibleMatch<T>(items: seq<Item<T>>, query: string, stored: nat)
    requires |Visible(items, query)| > 0
    ensures var shown := Visible(items, query);
            var it := shown[ClampIndex(stored, |shown|)];
            it in items && Matches(it, query)
  {
    var shown := Visible(items, query);
    assert shown[ClampIndex(stored, |shown|)] in shown;
  }

  /**
   * Filtering ignores letter case: once `value` has been typed, every item
   * whose label contains `value`, in whatever case, is on display.
   */
  lemma TypedTextFindsItem<T>(p: Palette<T>, value: string, it: Item<T>)
    requires p.query == Lower(value)
    requires it in p.items && Contains(it.text, value)
    ensures it in p.Shown()
  {
    LowerKeepsContains(it.text, value);
    FilterKeepsMatches(p.items, p.query, it);
  }
}
