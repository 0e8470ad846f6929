/**
 * `filterItems` (content.js:318-352) without its rendering: the list of
 * entries it hands to `renderItems`, each with its `originalIndex`.
 */
module Filter {
  import opened Strings
  import opened Items

  /** The filter predicate of content.js:346-348: the lower-cased text contains the match term. */
  predicate Matches(item: Item, term: string) {
    Contains(ToLower(item.text), term)
  }

  /** The filter callback for a match term. */
  function Keep(term: string): Item -> bool {
    item => Matches(item, term)
  }

  /**
   * The match term: the lower-cased search term, without its first character
   * while a search mode is active (`substring(1)` of the empty string is empty).
   */
  function MatchTerm(searchTerm: string, mode: SearchMode): (m: string)
    ensures mode == NoMode ==> m == ToLower(searchTerm)
    ensures mode != NoMode && searchTerm != "" ==> ToLower(searchTerm) == [ToLower(searchTerm)[0]] + m
    ensures mode != NoMode && searchTerm == "" ==> m == ""
  {
    var lower := ToLower(searchTerm);
    if mode == NoMode || lower == [] then lower else lower[1..]
  }

  /** Every palette item, each rendered with its own index: `renderItems(paletteItems)`. */
  function Indexed(items: seq<Item>): (r: seq<Shown>)
    ensures |r| == |items|
    ensures forall k :: 0 <= k < |r| ==> r[k] == Shown(items[k], k)
  {
    seq(|items|, k requires 0 <= k < |items| => Shown(items[k], k))
  }

  /**
   * `items.filter(keep)` from position `from` on: the kept items in their
   * order, each with its index.
   */
  function Select(items: seq<Item>, keep: Item -> bool, from: nat): (r: seq<Shown>)
    requires from <= |items|
    ensures forall k :: 0 <= k < |r| ==>
      from <= r[k].origin < |items| && r[k].item == items[r[k].origin] && keep(r[k].item)
    ensures forall k, l :: 0 <= k < l < |r| ==> r[k].origin < r[l].origin
    decreases |items| - from
  {
    if from == |items| then []
    else
      var rest := Select(items, keep, from + 1);
      if keep(items[from]) then [Shown(items[from], from)] + rest else rest
  }

  /** No kept item from `from` on is left out: item `j` appears with origin `j`. */
  lemma {:induction false} SelectComplete(items: seq<Item>, keep: Item -> bool, from: nat, j: nat)
    requires from <= j < |items| && keep(items[j])
    ensures exists k :: 0 <= k < |Select(items, keep, from)| && Select(items, keep, from)[k].origin == j
    decreases |items| - from
  {
    var r := Select(items, keep, from);
    if j == from {
      assert r[0].origin == j;
    } else {
      SelectComplete(items, keep, from + 1, j);
      var rest := Select(items, keep, from + 1);
      var k :| 0 <= k < |rest| && rest[k].origin == j;
      if keep(items[from]) {
        assert r[k + 1].origin == j;
      } else {
        assert r[k].origin == j;
      }
    }
  }

  /**
   * The entries `filterItems(searchTerm)` renders: all items for an empty
   * term; the placeholder in content mode with a non-empty match term;
   * otherwise the items matching the match term. Every entry is the palette
   * item at its origin, or the placeholder.
   */
  function FilterItems(items: seq<Item>, searchTerm: string, mode: SearchMode): (r: seq<Shown>)
    ensures Consistent(items, r)
  {
    if searchTerm == "" then Indexed(items)
    else
      var m := MatchTerm(searchTerm, mode);
      if mode == Content && m != "" then [Shown(PlaceholderItem, -1)]
      else Select(items, Keep(m), 0)
  }

  /** An empty search term renders exactly the full item list, in order. */
  lemma EmptyTermShowsAll(items: seq<Item>, mode: SearchMode)
    ensures |FilterItems(items, "", mode)| == |items|
    ensures forall k :: 0 <= k < |items| ==> FilterItems(items, "", mode)[k] == Shown(items[k], k)
  {
  }

  /**
   * Outside content mode, and in content mode while the match term is
   * empty, the result lists, in their order in `paletteItems`, exactly the
   * items whose lower-cased text contains the match term.
   */
  lemma FilterSelects(items: seq<Item>, searchTerm: string, mode: SearchMode)
    requires searchTerm != ""
    requires mode != Content || MatchTerm(searchTerm, mode) == ""
    ensures var r, m := FilterItems(items, searchTerm, mode), MatchTerm(searchTerm, mode);
      (forall k :: 0 <= k < |r| ==>
         0 <= r[k].origin < |items| && r[k].item == items[r[k].origin] && Matches(r[k].item, m))
      && (forall k, l :: 0 <= k < l < |r| ==> r[k].origin < r[l].origin)
      && (forall j :: 0 <= j < |items| && Matches(items[j], m) ==>
            exists k :: 0 <= k < |r| && r[k].origin == j)
  {
    var m := MatchTerm(searchTerm, mode);
    var r := FilterItems(items, searchTerm, mode);
    assert r == Select(items, Keep(m), 0);
    forall j | 0 <= j < |items| && Matches(items[j], m)
      ensures exists k :: 0 <= k < |r| && r[k].origin == j
    {
      assert Keep(m)(items[j]);
      SelectComplete(items, Keep(m), 0, j);
    }
  }

  /** In content mode a non-empty match term renders exactly one `message` item. */
  lemma ContentSearchPlaceholder(items: seq<Item>, searchTerm: string)
    requires MatchTerm(searchTerm, Content) != ""
    ensures |FilterItems(items, searchTerm, Content)| == 1
    ensures FilterItems(items, searchTerm, Content)[0].item.kind == Message
    ensures FilterItems(items, searchTerm, Content)[0] == Shown(PlaceholderItem, -1)
  {
  }

  /** With the empty match term every item from `from` on is selected. */
  lemma {:induction false} SelectEmptyTerm(items: seq<Item>, from: nat)
    requires from <= |items|
    ensures Select(items, Keep(""), from) == Indexed(items)[from..]
    decreases |items| - from
  {
    if from < |items| {
      SelectEmptyTerm(items, from + 1);
      ContainsEmpty(ToLower(items[from].text));
      assert Indexed(items)[from..] == [Indexed(items)[from]] + Indexed(items)[from + 1..];
    }
  }

  /** A mode prefix on its own (`@` or `/` just typed) still lists every item. */
  lemma ModePrefixAloneShowsAll(items: seq<Item>, c: char, mode: SearchMode)
    requires mode != NoMode
    ensures FilterItems(items, [c], mode) == Indexed(items)
  {
    assert MatchTerm([c], mode) == "";
    SelectEmptyTerm(items, 0);
  }

  /**
   * Typing more of a term never adds results: every entry selected for the
   * match term `t + u` is also selected for `t`.
   */
  lemma RefiningNarrows(items: seq<Item>, t: string, u: string, k: nat)
    requires k < |Select(items, Keep(t + u), 0)|
    ensures exists l :: 0 <= l < |Select(items, Keep(t), 0)|
                        && Select(items, Keep(t), 0)[l] == Select(items, Keep(t + u), 0)[k]
  {
    var wide, narrow := Select(items, Keep(t), 0), Select(items, Keep(t + u), 0);
    var j := narrow[k].origin;
    assert 0 <= j < |items| && narrow[k].item == items[j] && Matches(items[j], t + u);
    ContainsPrefixOfTerm(ToLower(items[j].text), t, u);
    assert Keep(t)(items[j]);
    SelectComplete(items, Keep(t), 0, j);
    var l :| 0 <= l < |wide| && wide[l].origin == j;
    assert wide[l] == narrow[k];
  }
}
