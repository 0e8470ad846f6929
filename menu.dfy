/**
 * The menu indexer (`populateMenuItems`, content.js:252-315) as functions
 * over an abstract admin menu: the specification that the imperative
 * `Palette.PopulateMenuItems` is proved against.
 */
module Menu {
  import opened Wrappers
  import opened Strings
  import opened Items
  import opened Seqs

  /** An `<a>` element: its `textContent` (untrimmed) and its `href`. */
  datatype Link = Link(text: string, href: string)

  /**
   * One `li.menu-top` of `#adminmenu`: its first link (if any), the class list
   * of its `.wp-menu-image` element (`None` when there is none), and, for each
   * `.wp-submenu li` that is not the submenu head, that item's first link (if any).
   * The entry's link is the first `<a>` anywhere inside the `li`, submenu
   * included: on a real page an entry without a link has no submenu links,
   * and one without a top-level anchor takes its first submenu link as
   * `link`. The type also admits entries no page produces (no link but
   * submenu links); the proved properties hold for those too.
   */
  datatype MenuEntry = MenuEntry(link: Option<Link>, image: Option<seq<string>>, submenu: seq<Option<Link>>)

  const IconPrefix := "dashicons-"

  /** What joins a parent's text to a submenu entry's text: a space, U+203A and a space. */
  const Separator := " \U{203A} "

  /**
   * The icon of a class list: its last class that starts with `dashicons-`,
   * or `""` when no class does.
   */
  function LastDashicon(classes: seq<string>): (r: string)
    ensures r == "" <==> forall k :: 0 <= k < |classes| ==> !StartsWith(classes[k], IconPrefix)
    ensures r != "" ==>
      exists k :: 0 <= k < |classes| && classes[k] == r && StartsWith(r, IconPrefix)
                  && forall j :: k < j < |classes| ==> !StartsWith(classes[j], IconPrefix)
  {
    if classes == [] then ""
    else if StartsWith(classes[|classes| - 1], IconPrefix) then classes[|classes| - 1]
    else LastDashicon(classes[..|classes| - 1])
  }

  /** The icon of an entry's `.wp-menu-image`, `""` when the entry has none. */
  function IconOf(image: Option<seq<string>>): string {
    if image.Some? then LastDashicon(image.value) else ""
  }

  /** The icon-class loop of content.js:266-275: every matching class overwrites the previous one. */
  method IconClass(image: Option<seq<string>>) returns (iconClass: string)
    ensures iconClass == IconOf(image)
  {
    iconClass := "";
    if image.Some? {
      var classes := image.value;
      var i := 0;
      while i < |classes|
        invariant 0 <= i <= |classes|
        invariant iconClass == LastDashicon(classes[..i])
      {
        if StartsWith(classes[i], IconPrefix) {
          iconClass := classes[i];
        }
        i := i + 1;
        assert classes[..i][..i - 1] == classes[..i - 1];
      }
      assert classes[..i] == classes;
    }
  }

  function MenuItem(text: string, url: string, icon: string): Item {
    Item(Menu, text, Some(url), None, icon, None)
  }

  function SubmenuItem(parent: string, icon: string, sub: Link): Item {
    Item(Submenu, parent + Separator + Trim(sub.text), Some(sub.href), Some(parent), icon, None)
  }

  /** The number of present links. */
  function CountLinks(links: seq<Option<Link>>): nat {
    if links == [] then 0
    else CountLinks(links[..|links| - 1]) + (if links[|links| - 1].Some? then 1 else 0)
  }

  /** The submenu items of a parent, one per present link, in order. */
  function SubItems(parent: string, icon: string, subs: seq<Option<Link>>): seq<Item> {
    if subs == [] then []
    else
      var rest := SubItems(parent, icon, subs[..|subs| - 1]);
      match subs[|subs| - 1]
      case None => rest
      case Some(l) => rest + [SubmenuItem(parent, icon, l)]
  }

  /**
   * One submenu item per present link; each is a `submenu` item naming the
   * parent, whose text is the parent's text, the separator and the trimmed
   * link text, and which inherits the parent's icon.
   */
  lemma {:induction false} SubItemsShape(parent: string, icon: string, subs: seq<Option<Link>>)
    ensures |SubItems(parent, icon, subs)| == CountLinks(subs)
    ensures forall k :: 0 <= k < |SubItems(parent, icon, subs)| ==>
      var it := SubItems(parent, icon, subs)[k];
      it.kind == Submenu && it.parent == Some(parent) && it.icon == icon
      && StartsWith(it.text, parent + Separator)
    decreases |subs|
  {
    if subs != [] {
      SubItemsShape(parent, icon, subs[..|subs| - 1]);
      match subs[|subs| - 1]
      case None =>
      case Some(l) =>
        var t := SubmenuItem(parent, icon, l).text;
        assert t[..|parent + Separator|] == parent + Separator;
    }
  }

  /**
   * The present link at position `j` gives the submenu item at position
   * "number of present links before `j`": submenu items keep the order of
   * their links, and each one's text is the parent, the separator and that
   * link's trimmed text.
   */
  lemma {:induction false} SubItemAt(parent: string, icon: string, subs: seq<Option<Link>>, j: nat)
    requires j < |subs| && subs[j].Some?
    ensures CountLinks(subs[..j]) < |SubItems(parent, icon, subs)|
    ensures SubItems(parent, icon, subs)[CountLinks(subs[..j])] == SubmenuItem(parent, icon, subs[j].value)
    decreases |subs|
  {
    var front := subs[..|subs| - 1];
    if j == |subs| - 1 {
      SubItemsShape(parent, icon, front);
    } else {
      assert front[..j] == subs[..j];
      SubItemAt(parent, icon, front, j);
    }
  }

  /**
   * The items one top-level entry contributes: nothing without a link;
   * otherwise its `menu` item (trimmed text, href, icon) followed by its
   * submenu items, which all name it as their parent and share its icon.
   */
  function EntryItems(e: MenuEntry): seq<Item> {
    match e.link
    case None => []
    case Some(l) =>
      var text := Trim(l.text);
      var icon := IconOf(e.image);
      [MenuItem(text, l.href, icon)] + SubItems(text, icon, e.submenu)
  }

  /**
   * The items one top-level entry contributes: nothing without a link;
   * otherwise its `menu` item (trimmed text, href, icon) followed by one
   * submenu item per submenu link, all of which name it as their parent and
   * share its icon.
   */
  lemma EntryItemsShape(e: MenuEntry)
    ensures e.link.None? <==> EntryItems(e) == []
    ensures e.link.Some? ==>
      var r := EntryItems(e);
      |r| == 1 + CountLinks(e.submenu)
      && r[0] == MenuItem(Trim(e.link.value.text), e.link.value.href, IconOf(e.image))
      && forall k :: 1 <= k < |r| ==>
           r[k].kind == Submenu && r[k].parent == Some(r[0].text) && r[k].icon == r[0].icon
           && StartsWith(r[k].text, r[0].text + Separator)
  {
    if e.link.Some? {
      var text := Trim(e.link.value.text);
      var subs := SubItems(text, IconOf(e.image), e.submenu);
      SubItemsShape(text, IconOf(e.image), e.submenu);
      assert forall k :: 1 <= k < |EntryItems(e)| ==> EntryItems(e)[k] == subs[k - 1];
    }
  }

  /** What each top-level entry contributes, in menu order. */
  function Contributions(entries: seq<MenuEntry>): (r: seq<seq<Item>>)
    ensures |r| == |entries|
  {
    seq(|entries|, i requires 0 <= i < |entries| => EntryItems(entries[i]))
  }

  /** The items of all top-level entries, in menu order. */
  function MenuItems(entries: seq<MenuEntry>): seq<Item> {
    Concat(Contributions(entries))
  }

  /**
   * `paletteItems` after `populateMenuItems`: the menu's items (none when
   * there is no `#adminmenu`) and then exactly one `special` item, the
   * settings entry, at the end.
   */
  function IndexMenu(adminMenu: Option<seq<MenuEntry>>): (r: seq<Item>)
    ensures |r| >= 1 && r[|r| - 1] == SettingsItem && r[|r| - 1].action == Some("openSettings")
    ensures forall k :: 0 <= k < |r| - 1 ==> r[k].kind != Special
  {
    if adminMenu.Some? then
      MenuItemsKinds(adminMenu.value);
      MenuItems(adminMenu.value) + [SettingsItem]
    else
      [SettingsItem]
  }

  /** The index of a concatenation of menus is the concatenation of their indexes. */
  lemma MenuItemsAppend(a: seq<MenuEntry>, b: seq<MenuEntry>)
    ensures MenuItems(a + b) == MenuItems(a) + MenuItems(b)
  {
    assert Contributions(a + b) == Contributions(a) + Contributions(b);
    ConcatAppend(Contributions(a), Contributions(b));
  }

  /** Adding an entry at the end appends what it contributes. */
  lemma MenuItemsSnoc(entries: seq<MenuEntry>, e: MenuEntry)
    ensures MenuItems(entries + [e]) == MenuItems(entries) + EntryItems(e)
  {
    MenuItemsAppend(entries, [e]);
    assert Contributions([e]) == [EntryItems(e)];
    assert Concat([EntryItems(e)]) == EntryItems(e) by {
      assert [EntryItems(e)][..0] == [];
    }
  }

  /** The indexed items of the first `i + 1` entries extend those of the first `i` by entry `i`'s. */
  lemma MenuItemsStep(entries: seq<MenuEntry>, i: nat)
    requires i < |entries|
    ensures MenuItems(entries[..i + 1]) == MenuItems(entries[..i]) + EntryItems(entries[i])
  {
    assert entries[..i + 1] == entries[..i] + [entries[i]];
    MenuItemsSnoc(entries[..i], entries[i]);
  }

  /** The menu's items are all `menu` or `submenu` items. */
  lemma {:induction false} MenuItemsKinds(entries: seq<MenuEntry>)
    ensures forall k :: 0 <= k < |MenuItems(entries)| ==>
              MenuItems(entries)[k].kind == Menu || MenuItems(entries)[k].kind == Submenu
    decreases |entries|
  {
    if entries != [] {
      var front, last := entries[..|entries| - 1], entries[|entries| - 1];
      assert entries == front + [last];
      MenuItemsSnoc(front, last);
      MenuItemsKinds(front);
      EntryItemsShape(last);
    }
  }

  /**
   * Entry `i` contributes its items in place: after everything the entries
   * before it contribute and before everything the entries after it do.
   */
  lemma EntryContribution(entries: seq<MenuEntry>, i: nat)
    requires i < |entries|
    ensures MenuItems(entries) == MenuItems(entries[..i]) + EntryItems(entries[i]) + MenuItems(entries[i + 1..])
  {
    assert entries == entries[..i] + [entries[i]] + entries[i + 1..];
    MenuItemsAppend(entries[..i] + [entries[i]], entries[i + 1..]);
    MenuItemsSnoc(entries[..i], entries[i]);
  }

  /** A top-level entry without a link contributes nothing, wherever it stands. */
  lemma UnlinkedContributesNothing(before: seq<MenuEntry>, e: MenuEntry, after: seq<MenuEntry>)
    requires e.link.None?
    ensures MenuItems(before + [e] + after) == MenuItems(before + after)
  {
    MenuItemsAppend(before + [e], after);
    MenuItemsSnoc(before, e);
    MenuItemsAppend(before, after);
  }

  /**
   * Every `submenu` item follows its own parent: the nearest `menu` item
   * before it, with only submenu items in between, is the one whose text it
   * names as parent, whose icon it carries and whose text prefixes its own.
   */
  lemma {:induction false} SubmenuFollowsParent(entries: seq<MenuEntry>, k: nat)
    requires k < |MenuItems(entries)| && MenuItems(entries)[k].kind == Submenu
    ensures exists j ::
              0 <= j < k && MenuItems(entries)[j].kind == Menu
              && MenuItems(entries)[k].parent == Some(MenuItems(entries)[j].text)
              && MenuItems(entries)[k].icon == MenuItems(entries)[j].icon
              && StartsWith(MenuItems(entries)[k].text, MenuItems(entries)[j].text + Separator)
              && forall m :: j < m <= k ==> MenuItems(entries)[m].kind == Submenu
    decreases |entries|
  {
    var r := MenuItems(entries);
    var front, last := entries[..|entries| - 1], entries[|entries| - 1];
    assert entries == front + [last];
    MenuItemsSnoc(front, last);
    var f := MenuItems(front);
    var e := EntryItems(last);
    assert r == f + e;
    if k < |f| {
      SubmenuFollowsParent(front, k);
      var j :| 0 <= j < k && f[j].kind == Menu && f[k].parent == Some(f[j].text)
        && f[k].icon == f[j].icon && StartsWith(f[k].text, f[j].text + Separator)
        && forall m :: j < m <= k ==> f[m].kind == Submenu;
      assert r[j] == f[j] && r[k] == f[k];
      assert forall m :: j < m <= k ==> r[m] == f[m];
    } else {
      EntryItemsShape(last);
      assert r[k] == e[k - |f|];
      var j := |f|;
      assert r[j] == e[0];
      assert forall m :: j < m <= k ==> r[m] == e[m - |f|];
    }
  }

  /** The number of items of one kind. */
  function CountKind(items: seq<Item>, kind: Kind): nat {
    if items == [] then 0
    else CountKind(items[..|items| - 1], kind) + (if items[|items| - 1].kind == kind then 1 else 0)
  }

  /** The number of top-level entries that have a link. */
  function CountLinked(entries: seq<MenuEntry>): nat {
    if entries == [] then 0
    else CountLinked(entries[..|entries| - 1]) + (if entries[|entries| - 1].link.Some? then 1 else 0)
  }

  lemma {:induction false} CountKindAppend(a: seq<Item>, b: seq<Item>, kind: Kind)
    ensures CountKind(a + b, kind) == CountKind(a, kind) + CountKind(b, kind)
    decreases |b|
  {
    if b == [] {
      assert a + b == a;
    } else {
      assert (a + b)[..|a + b| - 1] == a + b[..|b| - 1];
      CountKindAppend(a, b[..|b| - 1], kind);
    }
  }

  lemma {:induction false} CountKindNone(items: seq<Item>, kind: Kind)
    requires forall k :: 0 <= k < |items| ==> items[k].kind != kind
    ensures CountKind(items, kind) == 0
    decreases |items|
  {
    if items != [] {
      CountKindNone(items[..|items| - 1], kind);
    }
  }

  /** Exactly one `menu` item per linked top-level entry. */
  lemma {:induction false} MenuItemPerLinkedEntry(entries: seq<MenuEntry>)
    ensures CountKind(MenuItems(entries), Menu) == CountLinked(entries)
    decreases |entries|
  {
    if entries != [] {
      var front, last := entries[..|entries| - 1], entries[|entries| - 1];
      assert entries == front + [last];
      MenuItemsSnoc(front, last);
      MenuItemPerLinkedEntry(front);
      CountKindAppend(MenuItems(front), EntryItems(last), Menu);
      var e := EntryItems(last);
      EntryItemsShape(last);
      if last.link.Some? {
        assert e == [e[0]] + e[1..];
        CountKindAppend([e[0]], e[1..], Menu);
        CountKindNone(e[1..], Menu);
        assert CountKind([e[0]], Menu) == 1 by {
          assert [e[0]][..0] == [];
        }
      }
    }
  }

  /** Exactly one `special` item in the index, whatever the menu. */
  lemma OneSpecialItem(adminMenu: Option<seq<MenuEntry>>)
    ensures CountKind(IndexMenu(adminMenu), Special) == 1
  {
    var r := IndexMenu(adminMenu);
    var front := r[..|r| - 1];
    assert r == front + [SettingsItem];
    assert forall k :: 0 <= k < |front| ==> front[k].kind != Special;
    CountKindNone(front, Special);
    CountLast(front, SettingsItem, Special);
  }

  /** Appending one item counts it once. */
  lemma CountLast(items: seq<Item>, x: Item, kind: Kind)
    ensures CountKind(items + [x], kind) == CountKind(items, kind) + (if x.kind == kind then 1 else 0)
  {
    assert (items + [x])[..|items + [x]| - 1] == items;
  }
}
