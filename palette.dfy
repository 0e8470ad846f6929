/**
 * The command palette's state machine (content.js:9-13, 166-252, 410-466):
 * the page script's globals as the fields of one object, and its event
 * handlers as methods. The rendered list is the field `shown`; rendering,
 * focus, CSS classes and scrolling are not modelled.
 */
module CommandPalette {
  import opened Wrappers
  import opened Strings
  import opened Items
  import opened Menu
  import opened Filter
  import opened Cursor
  import opened Predicates

  /** What activating an item does to the page. */
  datatype Effect = Navigate(url: string) | SettingsNotice | NoEffect

  /** `paletteItems[originalIndex]`: `None` (undefined) when the index is outside the list. */
  function ResolveItem(items: seq<Item>, s: Shown): Option<Item> {
    if 0 <= s.origin < |items| then Some(items[s.origin]) else None
  }

  /** The effect of an activated item (content.js:457-463): go to a non-empty `url`, else open the settings for the settings action. */
  function EffectOf(item: Option<Item>): Effect {
    if item.Some? && item.value.url.Some? && item.value.url.value != "" then Navigate(item.value.url.value)
    else if item.Some? && item.value.action == Some("openSettings") then SettingsNotice
    else NoEffect
  }

  /**
   * Resolving a rendered entry through its original index acts on exactly
   * the item that is displayed; the placeholder resolves to nothing and
   * does nothing.
   */
  lemma ResolvesDisplayedItem(items: seq<Item>, shown: seq<Shown>, k: nat)
    requires Consistent(items, shown) && k < |shown|
    ensures EffectOf(ResolveItem(items, shown[k])) == EffectOf(Some(shown[k].item))
    ensures shown[k].item == PlaceholderItem ==> EffectOf(ResolveItem(items, shown[k])) == NoEffect
  {
  }

  /** The search mode after an input event with trimmed term `term` (content.js:196-210). */
  function ModeOnInput(mode: SearchMode, term: string): SearchMode {
    if StartsWith(term, "@") && mode == NoMode then Content
    else if StartsWith(term, "/") && mode == NoMode then Command
    else if term == "" && mode != NoMode then NoMode
    else mode
  }

  /**
   * An input event changes the mode only from none to content (`@`) or
   * command (`/`), or from a set mode back to none when the term is empty;
   * in every other case the mode is kept.
   */
  lemma ModeOnInputCases(mode: SearchMode, term: string)
    ensures mode == NoMode && StartsWith(term, "@") ==> ModeOnInput(mode, term) == Content
    ensures mode == NoMode && StartsWith(term, "/") ==> ModeOnInput(mode, term) == Command
    ensures mode != NoMode && term == "" ==> ModeOnInput(mode, term) == NoMode
    ensures ModeOnInput(mode, term) != mode <==>
      (mode == NoMode && (StartsWith(term, "@") || StartsWith(term, "/"))) || (mode != NoMode && term == "")
  {
  }

  /** Input that is only white space ends a search mode, as its trimmed term is empty. */
  lemma BlankInputEndsMode(mode: SearchMode, value: string)
    requires forall k :: 0 <= k < |value| ==> IsSpace(value[k])
    ensures ModeOnInput(mode, Trim(value)) == NoMode
  {
    TrimShape(value);
  }

  /** The palette: its visibility, mode, selection, input text, items and rendered list. */
  class Palette {
    var visible: bool
    var mode: SearchMode
    var selected: nat
    var input: string
    var items: seq<Item>
    var shown: seq<Shown>

    /** Every rendered entry is the palette item at its original index, or the placeholder. */
    ghost predicate Valid()
      reads this
    {
      Consistent(items, shown)
    }

    /** The globals' initial values (content.js:9-13). */
    constructor ()
      ensures Valid()
      ensures !visible && mode == NoMode && selected == 0 && input == "" && items == [] && shown == []
    {
      visible, mode, selected, input, items, shown := false, NoMode, 0, "", [], [];
    }

    /** `populateMenuItems`: rebuild `paletteItems` from the admin menu and render all of it. */
    method PopulateMenuItems(adminMenu: Option<seq<MenuEntry>>)
      modifies this
      ensures Valid()
      ensures items == IndexMenu(adminMenu) && shown == Indexed(items)
      ensures visible == old(visible) && mode == old(mode) && selected == old(selected) && input == old(input)
    {
      items := [];
      if adminMenu.Some? {
        PushEntries(adminMenu.value);
      }
      items := items + [SettingsItem];
      assert items == IndexMenu(adminMenu);
      shown := Indexed(items);
      assert shown == FilterItems(items, "", NoMode);
    }

    /** `populateMenuItems`' loop over the top-level entries of the menu. */
    method PushEntries(entries: seq<MenuEntry>)
      modifies this
      ensures items == old(items) + MenuItems(entries)
      ensures visible == old(visible) && mode == old(mode) && selected == old(selected) && input == old(input)
      ensures shown == old(shown)
    {
      var i := 0;
      while i < |entries|
        invariant 0 <= i <= |entries|
        invariant items == old(items) + MenuItems(entries[..i])
        invariant visible == old(visible) && mode == old(mode) && selected == old(selected) && input == old(input)
        invariant shown == old(shown)
      {
        PushEntry(entries[i]);
        MenuItemsStep(entries, i);
        i := i + 1;
      }
      assert entries[..i] == entries;
    }

    /**
     * One iteration of `populateMenuItems`' loop over the menu: push the
     * entry's top-level item and then one item per linked submenu entry.
     */
    method PushEntry(entry: MenuEntry)
      modifies this
      ensures items == old(items) + EntryItems(entry)
      ensures visible == old(visible) && mode == old(mode) && selected == old(selected) && input == old(input)
      ensures shown == old(shown)
    {
      if entry.link.None? {
        return;
      }
      var text := Trim(entry.link.value.text);
      var url := entry.link.value.href;
      var iconClass := IconClass(entry.image);
      items := items + [Item(Menu, text, Some(url), None, iconClass, None)];
      var subs := entry.submenu;
      var j := 0;
      while j < |subs|
        invariant 0 <= j <= |subs|
        invariant items == old(items) + [MenuItem(text, url, iconClass)] + SubItems(text, iconClass, subs[..j])
        invariant visible == old(visible) && mode == old(mode) && selected == old(selected) && input == old(input)
        invariant shown == old(shown)
      {
        if subs[j].Some? {
          var sublink := subs[j].value;
          var subtext := Trim(sublink.text);
          items := items + [Item(Submenu, text + Separator + subtext, Some(sublink.href), Some(text), iconClass, None)];
        }
        j := j + 1;
        assert subs[..j][..j - 1] == subs[..j - 1];
      }
      assert subs[..j] == subs;
    }

    /** `showCommandPalette` */
    method Show()
      requires Valid()
      modifies this
      ensures Valid()
      ensures visible
      ensures mode == old(mode) && selected == old(selected) && input == old(input)
      ensures items == old(items) && shown == old(shown)
    {
      visible := true;
    }

    /** `hideCommandPalette`: hidden, input cleared, no mode; the selection and the rendered list stay. */
    method Hide()
      requires Valid()
      modifies this
      ensures Valid()
      ensures !visible && input == "" && mode == NoMode
      ensures selected == old(selected) && items == old(items) && shown == old(shown)
    {
      input := "";
      visible := false;
      mode := NoMode;
    }

    /** `togglePalette` */
    method Toggle()
      requires Valid()
      modifies this
      ensures Valid()
      ensures visible == !old(visible)
      ensures old(visible) ==> input == "" && mode == NoMode
      ensures !old(visible) ==> input == old(input) && mode == old(mode)
      ensures selected == old(selected) && items == old(items) && shown == old(shown)
    {
      if visible {
        Hide();
      } else {
        Show();
      }
    }

    /** The document-level `keydown` listener: toggle the palette when the shortcut matches. */
    method ShortcutKeyDown(shortcutKeys: Option<seq<Shortcut>>, e: KeyEvent) returns (fired: bool)
      requires Valid()
      modifies this
      ensures Valid()
      ensures fired == ShortcutFires(shortcutKeys, e)
      ensures visible == (if fired then !old(visible) else old(visible))
      ensures fired && old(visible) ==> input == "" && mode == NoMode
      ensures !(fired && old(visible)) ==> input == old(input) && mode == old(mode)
      ensures selected == old(selected) && items == old(items) && shown == old(shown)
    {
      fired := ShortcutFires(shortcutKeys, e);
      if fired {
        Toggle();
      }
    }

    /** `handleSearchInput` for an input whose new value is `value`. */
    method SearchInput(value: string)
      requires Valid()
      modifies this
      ensures Valid()
      ensures input == value
      ensures mode == ModeOnInput(old(mode), Trim(value))
      ensures shown == FilterItems(items, Trim(value), mode)
      ensures visible == old(visible) && selected == old(selected) && items == old(items)
    {
      input := value;
      var searchTerm := Trim(value);
      if StartsWith(searchTerm, "@") && mode == NoMode {
        mode := Content;
      } else if StartsWith(searchTerm, "/") && mode == NoMode {
        mode := Command;
      } else if searchTerm == "" && mode != NoMode {
        mode := NoMode;
      }
      shown := FilterItems(items, searchTerm, mode);
    }

    /** `selectNextItem` */
    method SelectNext()
      requires Valid()
      modifies this
      ensures Valid()
      ensures selected == Next(old(selected), |shown|)
      ensures visible == old(visible) && mode == old(mode) && input == old(input)
      ensures items == old(items) && shown == old(shown)
    {
      if |shown| == 0 {
        return;
      }
      selected := (selected + 1) % |shown|;
    }

    /** `selectPreviousItem` */
    method SelectPrevious()
      requires Valid()
      modifies this
      ensures Valid()
      ensures selected == Prev(old(selected), |shown|)
      ensures visible == old(visible) && mode == old(mode) && input == old(input)
      ensures items == old(items) && shown == old(shown)
    {
      if |shown| == 0 {
        return;
      }
      selected := (selected - 1 + |shown|) % |shown|;
    }

    /**
     * `activateSelectedItem`: nothing when the selection is outside the
     * rendered list; otherwise the effect of the item found through the
     * entry's original index, which is the displayed item, and the palette
     * is hidden.
     */
    method Activate() returns (effect: Effect)
      requires Valid()
      modifies this
      ensures Valid()
      ensures old(selected) >= |old(shown)| ==>
        effect == NoEffect
        && visible == old(visible) && mode == old(mode) && input == old(input)
      ensures old(selected) < |old(shown)| ==>
        effect == EffectOf(ResolveItem(old(items), old(shown)[old(selected)]))
        && effect == EffectOf(Some(old(shown)[old(selected)].item))
        && !visible && input == "" && mode == NoMode
      ensures selected == old(selected) && items == old(items) && shown == old(shown)
    {
      if |shown| == 0 || selected >= |shown| {
        return NoEffect;
      }
      var item := ResolveItem(items, shown[selected]);
      ResolvesDisplayedItem(items, shown, selected);
      effect := EffectOf(item);
      Hide();
    }

    /** The `mouseover` handler of a rendered entry: select it. */
    method HoverItem(index: nat)
      requires Valid() && index < |shown|
      modifies this
      ensures Valid()
      ensures selected == index
      ensures visible == old(visible) && mode == old(mode) && input == old(input)
      ensures items == old(items) && shown == old(shown)
    {
      selected := index;
    }

    /** The `click` handler of a rendered entry: select it and activate it. */
    method ClickItem(index: nat) returns (effect: Effect)
      requires Valid() && index < |shown|
      modifies this
      ensures Valid()
      ensures selected == index
      ensures effect == EffectOf(Some(old(shown)[index].item))
      ensures !visible && input == "" && mode == NoMode
      ensures items == old(items) && shown == old(shown)
    {
      selected := index;
      effect := Activate();
    }

    /** `handleContainerClick`: a click on the backdrop outside the palette hides it. */
    method ContainerClick(onBackdrop: bool)
      requires Valid()
      modifies this
      ensures Valid()
      ensures onBackdrop ==> !visible && input == "" && mode == NoMode
      ensures !onBackdrop ==> visible == old(visible) && input == old(input) && mode == old(mode)
      ensures selected == old(selected) && items == old(items) && shown == old(shown)
    {
      if onBackdrop {
        Hide();
      }
    }

    /**
     * `handleKeyDown` in the search field: the arrows move the selection,
     * Enter activates, Escape hides, and Tab with no mode set enters
     * content mode by putting `@` in front of the input; any other key, and
     * Tab with a mode already set, changes nothing.
     */
    method KeyDown(key: string) returns (effect: Effect)
      requires Valid()
      modifies this
      ensures Valid()
      ensures key != "Enter" ==> effect == NoEffect
      ensures key == "ArrowDown" ==>
        selected == Next(old(selected), |shown|) && shown == old(shown)
        && visible == old(visible) && mode == old(mode) && input == old(input)
      ensures key == "ArrowUp" ==>
        selected == Prev(old(selected), |shown|) && shown == old(shown)
        && visible == old(visible) && mode == old(mode) && input == old(input)
      ensures key == "Enter" ==>
        shown == old(shown) && selected == old(selected)
        && (old(selected) < |old(shown)| ==>
              effect == EffectOf(Some(old(shown)[old(selected)].item))
              && !visible && input == "" && mode == NoMode)
        && (old(selected) >= |old(shown)| ==>
              effect == NoEffect && visible == old(visible) && input == old(input) && mode == old(mode))
      ensures key == "Escape" ==>
        !visible && input == "" && mode == NoMode && selected == old(selected) && shown == old(shown)
      ensures key == "Tab" && old(mode) == NoMode ==>
        mode == Content && input == "@" + old(input) && shown == FilterItems(items, input, Content)
        && visible == old(visible) && selected == old(selected)
      ensures key == "Tab" && old(mode) != NoMode ==>
        mode == old(mode) && input == old(input) && shown == old(shown)
        && visible == old(visible) && selected == old(selected)
      ensures key !in {"ArrowDown", "ArrowUp", "Enter", "Escape", "Tab"} ==>
        visible == old(visible) && mode == old(mode) && selected == old(selected)
        && input == old(input) && shown == old(shown)
      ensures items == old(items)
    {
      effect := NoEffect;
      if key == "ArrowDown" {
        SelectNext();
      } else if key == "ArrowUp" {
        SelectPrevious();
      } else if key == "Enter" {
        effect := Activate();
      } else if key == "Escape" {
        Hide();
      } else if key == "Tab" {
        if mode == NoMode {
          mode := Content;
          input := "@" + input;
          shown := FilterItems(items, input, Content);
        }
      }
    }
  }

  /** After Tab, the non-empty rest of the input is a content search, so only the placeholder is shown. */
  lemma TabThenTextShowsPlaceholder(items: seq<Item>, input: string)
    requires input != ""
    ensures FilterItems(items, "@" + input, Content) == [Shown(PlaceholderItem, -1)]
  {
    var term := "@" + input;
    assert |MatchTerm(term, Content)| == |input| by {
      assert |ToLower(term)| == |term| == 1 + |input|;
    }
  }

  /** After Tab on an empty input, every item is still listed. */
  lemma TabOnEmptyShowsAll(items: seq<Item>)
    ensures FilterItems(items, "@", Content) == Indexed(items)
  {
    ModePrefixAloneShowsAll(items, '@', Content);
  }
}
