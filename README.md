# Command palette of the WordPress admin extension, in Dafny

The extension's page script (`content.js`) adds a keyboard-driven command
palette to WordPress admin pages. Its logic is modelled here, without the DOM:

- **Menu indexer.** `populateMenuItems` flattens the admin menu into `paletteItems`.
  The admin menu is modelled as a sequence of top-level entries. Each entry has an optional link,
  optional icon classes, and a sequence of optional submenu links.
- **Filter.** `filterItems` is a case-insensitive substring filter. It drops the first character of
  the term when a search mode is set, and shows a placeholder for a content search.
- **Search-mode state machine.** `handleSearchInput` and `handleKeyDown` (Tab) move between no mode,
  content search (`@`) and command mode (`/`).
- **Selection cursor and visibility.** `selectNextItem` and `selectPreviousItem` wrap the index over
  the rendered entries. `activateSelectedItem` resolves and activates the selected item.
  `togglePalette`, `showCommandPalette` and `hideCommandPalette` handle visibility.
- **Predicates.** The keyboard-shortcut matcher and the WordPress admin page test.

The page script's globals (`paletteVisible`, `searchMode`, `selectedItemIndex`, `paletteItems` and the
search box's value) are the fields of the class `CommandPalette.Palette`. The rendered `<li>` list is the
field `shown`. Each entry of `shown` records the item and the index through which activation finds it
again (`paletteItems.indexOf(item)`, which is -1 for the placeholder). The invariant `Valid` says that
every rendered entry is the palette item at that index, or else the placeholder.

Modules:

| file | module | contents |
|---|---|---|
| wrappers.dfy | `Wrappers` | `Option` |
| seqs.dfy | `Seqs` | flattening a sequence of sequences |
| strings.dfy | `Strings` | `includes`, `startsWith`, `toLowerCase`, `trim` |
| items.dfy | `Items` | palette items, rendered entries, search modes |
| menu.dfy | `Menu` | the admin menu and what `populateMenuItems` builds from it |
| filter.dfy | `Filter` | `filterItems` |
| cursor.dfy | `Cursor` | wrap-around selection |
| predicates.dfy | `Predicates` | admin page test, keyboard shortcut match |
| palette.dfy | `CommandPalette` | the palette state and its event handlers |

## Model

| member | source | states |
|---|---|---|
| Strings.StartsWith | content.js:196 | definition of `startsWith`: the first characters of the string are the prefix |
| Strings.Contains | content.js:347 | definition of `includes`; specified by `Strings.ContainsIff` |
| Strings.ContainsIff | content.js:347 | `includes` holds iff the term occurs at some position of the text |
| Strings.ToLower | content.js:325 | the lower-cased string has the same length and no upper-case ASCII letter; upper-case letters move down by 32 and every other character is kept |
| Strings.ToLowerIdempotent | content.js:155 | a fact about the string helper, not behaviour of the program: lower-casing twice is lower-casing once |
| Strings.Trim | content.js:193 | definition of `trim`; specified by `Strings.TrimShape` |
| Strings.TrimShape | content.js:193 | the trimmed string is a contiguous segment of the input, with only white space outside it, and neither begins nor ends with white space; it is empty iff the input is all white space |
| Strings.TrimIdempotent | content.js:263 | a fact about the string helper, not behaviour of the program: trimming a trimmed string changes nothing |
| Items.Consistent | content.js:367-371 | definition of the invariant between `paletteItems` and the rendered entries: each entry is the item at its `originalIndex`, or the placeholder at -1; established by `Filter.FilterItems`, relied on by `CommandPalette.ResolvesDisplayedItem` |
| Items.SettingsItem | content.js:306-311 | definition of the settings item: special, "Turbo Admin Settings", action `openSettings`, icon `dashicons-admin-settings`, no url; specified by `Menu.IndexMenu` and `Menu.OneSpecialItem` |
| Items.PlaceholderItem | content.js:339-343 | definition of the content-search placeholder: a message item with icon `dashicons-search` and no url or action; specified by `Filter.ContentSearchPlaceholder` |
| Menu.IconOf | content.js:265-268 | definition of the `if (icon)` guard: `""` without an icon element, otherwise the last `dashicons-` class; specified by `Menu.LastDashicon` and `Menu.IconClass` |
| Menu.LastDashicon | content.js:266-275 | the icon is `""` iff no class starts with `dashicons-`; otherwise it is such a class, and no later class starts with `dashicons-` |
| Menu.IconClass | content.js:266-275 | the loop over the icon element's classes computes the last `dashicons-` class, or `""` when there is no icon element |
| Menu.MenuItem | content.js:277-282 | definition of the pushed menu item: type menu, the trimmed text, the url and the icon, no parent; specified by `Menu.EntryItemsShape` |
| Menu.SubmenuItem | content.js:289-298 | definition of the pushed submenu item: text `parent › subtext` with the subtext trimmed, the sub-link's url, the parent's text and icon; specified by `Menu.SubItemAt` |
| Menu.SubItems | content.js:285-300 | definition of the submenu loop's pushes; specified by `Menu.SubItemsShape` and `Menu.SubItemAt` |
| Menu.SubItemsShape | content.js:284-300 | one submenu item per linked submenu entry; each has type submenu, text starting with `parent › `, the parent's text as `parent` and the parent's icon |
| Menu.SubItemAt | content.js:286-297 | the linked submenu entry at position `j` becomes the submenu item after those of the linked entries before it, with text `parent › ` plus its trimmed link text and its href as url |
| Menu.EntryItems | content.js:261-301 | definition of one top-level entry's pushes; specified by `Menu.EntryItemsShape` |
| Menu.MenuItems | content.js:258-303 | definition of the pushes of the loop over the menu; specified by `Menu.MenuItemsSnoc`, `Menu.EntryContribution` and `Menu.SubmenuFollowsParent` |
| Menu.EntryItemsShape | content.js:260-301 | an entry without a link contributes nothing; a linked entry contributes its menu item (trimmed text, its url, its icon) followed by one submenu item per submenu link, each naming it as parent and sharing its icon |
| Menu.MenuItemsSnoc | content.js:258-303 | one more top-level entry appends exactly that entry's items |
| Menu.MenuItemsStep | content.js:260-302 | each pass of the loop over the entries extends the items by exactly that entry's items |
| Menu.EntryContribution | content.js:258-303 | the indexed items are those of the entries before an entry, then that entry's items, then those of the entries after it |
| Menu.UnlinkedContributesNothing | content.js:261-262 | removing an entry without a link does not change the indexed items |
| Menu.MenuItemsKinds | content.js:277-298 | the menu part of the index holds only menu and submenu items |
| Menu.SubmenuFollowsParent | content.js:277-298 | every submenu item is preceded by a menu item with only submenu items in between; the submenu item names that item as parent, carries its icon, and its text starts with that item's text and ` › ` |
| Menu.MenuItemPerLinkedEntry | content.js:260-283 | the number of menu items equals the number of entries with a link |
| Menu.IndexMenu | content.js:252-312 | the index always ends with the settings item, whose action is `openSettings`, and no earlier item is special |
| Menu.OneSpecialItem | content.js:306-311 | the index holds exactly one special item |
| Filter.Matches | content.js:346-348 | definition of the filter callback; specified by `Filter.FilterSelects` |
| Filter.MatchTerm | content.js:325-333 | with no mode the match term is the lower-cased term; with a mode it is the lower-cased term without its first character |
| Filter.Select | content.js:346-348 | every kept entry is the item at its original index and satisfies the predicate; original indexes strictly increase |
| Filter.SelectComplete | content.js:346-348 | every item that satisfies the predicate is kept |
| Filter.FilterItems | content.js:318-352 | every rendered entry is the palette item at its original index, or the placeholder |
| Filter.Indexed | content.js:320 | `renderItems(paletteItems)`: one rendered entry per item, in order, each with its own position as `originalIndex` (content.js:367-371) |
| Filter.EmptyTermShowsAll | content.js:319-322 | an empty term renders every item, in order, each at its own index |
| Filter.FilterSelects | content.js:324-348 | outside a non-empty content search, the result is an order-preserving subsequence of the items and holds exactly the items whose lower-cased text contains the match term |
| Filter.ContentSearchPlaceholder | content.js:336-343 | a content search with a non-empty match term renders exactly one message item, the placeholder, which resolves to no item |
| Filter.SelectEmptyTerm | content.js:346-348 | the empty match term keeps every item |
| Filter.ModePrefixAloneShowsAll | content.js:328-334 | a one-character term in a search mode renders every item |
| Filter.RefiningNarrows | content.js:346-348 | extending the match term keeps only items that the shorter term also kept |
| Cursor.Next | content.js:410-416 | no change on an empty list; otherwise the next index is `(i+1) mod n`: in range, one more, or 0 after the last |
| Cursor.Prev | content.js:419-425 | no change on an empty list; otherwise the previous index is `(i-1+n) mod n`: in range, one less, or the last before 0 |
| Cursor.PrevUndoesNext | content.js:410-425 | for an index in range, next then previous returns it |
| Cursor.NextUndoesPrev | content.js:410-425 | for an index in range, previous then next returns it |
| Cursor.StepsCompose | content.js:410-416 | `a` steps down then `b` steps down is `a + b` steps down |
| Cursor.StepsWithin | content.js:410-416 | before the end of the list is reached, each step down moves the selection one place |
| Cursor.FullCycle | content.js:410-416 | `n` steps down from an index in range return to it |
| Predicates.IsWordPressAdminPage | content.js:72-75 | definition of the admin page test; specified by `Predicates.AdminPageIff` |
| Predicates.AdminPageIff | content.js:72-75 | the page is an admin page iff its URL contains `wp-admin` or `wp-login.php` |
| Predicates.AdminPageWithin | content.js:72-75 | a URL that contains an admin page URL is an admin page URL |
| Predicates.DashboardAndLoginAreAdminPages | content.js:72-75 | `…/wp-admin/…` and `…/wp-login.php…` URLs are admin pages |
| Predicates.ShortcutFires | content.js:148-157 | definition of the shortcut comparison; specified by `Predicates.ShortcutFiresIff` |
| Predicates.ShortcutFiresIff | content.js:148-157 | the shortcut fires iff there is a configured shortcut, and the first one's meta, alt, ctrl and shift flags equal the event's, and the keys are equal ignoring case |
| Predicates.NoShortcutNeverFires | content.js:148 | with no settings or an empty shortcut list, no key event fires |
| Predicates.DefaultShortcutFires | background.js:8-16 | the default shortcut fires on Ctrl+Shift+Z even when the event reports an upper-case `Z`, and not without Shift |
| CommandPalette.Palette.Valid | content.js:367-371 | definition of the class invariant: `Items.Consistent` between the palette's items and its rendered entries; kept by every method, relied on by `CommandPalette.Palette.Activate` |
| CommandPalette.ResolveItem | content.js:453-456 | definition of the lookup through `originalIndex`; specified by `CommandPalette.ResolvesDisplayedItem` |
| CommandPalette.EffectOf | content.js:457-463 | definition of the activation effect; specified by `CommandPalette.ResolvesDisplayedItem` and `CommandPalette.Palette.Activate` |
| CommandPalette.ResolvesDisplayedItem | content.js:447-463 | resolving a rendered entry through its original index gives the effect of the displayed item; the placeholder has no effect |
| CommandPalette.ModeOnInput | content.js:196-210 | definition of the mode transitions on input; specified by `CommandPalette.ModeOnInputCases` |
| CommandPalette.ModeOnInputCases | content.js:196-210 | `@` with no mode starts a content search; `/` with no mode starts command mode; an empty term ends a mode; the mode changes in no other case |
| CommandPalette.BlankInputEndsMode | content.js:193-210 | input of only white space ends any search mode |
| CommandPalette.TabThenTextShowsPlaceholder | content.js:230-238 | after Tab on a non-empty input, only the content-search placeholder is rendered |
| CommandPalette.TabOnEmptyShowsAll | content.js:230-238 | after Tab on an empty input, every item is still rendered |
| CommandPalette.Palette.constructor | content.js:9-13 | the palette starts hidden, with no mode, selection 0, empty input and no items |
| CommandPalette.Palette.PopulateMenuItems | content.js:252-315 | `paletteItems` becomes the index of the admin menu and all of it is rendered; visibility, mode, selection and input are kept |
| CommandPalette.Palette.PushEntries | content.js:258-303 | the loop over the top-level entries appends exactly the menu's items |
| CommandPalette.Palette.PushEntry | content.js:260-302 | one pass of the loop over the menu appends exactly that entry's items |
| CommandPalette.Palette.Show | content.js:175-179 | the palette becomes visible; nothing else changes |
| CommandPalette.Palette.Hide | content.js:182-189 | the palette is hidden, the input is cleared and the mode is reset; the selection and the rendered list are kept |
| CommandPalette.Palette.Toggle | content.js:166-172 | visibility flips; hiding also clears the input and the mode |
| CommandPalette.Palette.ShortcutKeyDown | content.js:146-162 | the palette is toggled exactly when the shortcut fires |
| CommandPalette.Palette.SearchInput | content.js:192-214 | the mode moves as `ModeOnInput` says on the trimmed input, and the trimmed term is filtered in the new mode; the selection is kept |
| CommandPalette.Palette.SelectNext | content.js:410-416 | the selection moves to `Next` over the rendered entries; nothing else changes |
| CommandPalette.Palette.SelectPrevious | content.js:419-425 | the selection moves to `Prev` over the rendered entries; nothing else changes |
| CommandPalette.Palette.Activate | content.js:443-466 | with the selection outside the rendered list, nothing happens; otherwise the effect is that of the displayed item and the palette is hidden |
| CommandPalette.Palette.HoverItem | content.js:400-403 | hovering an entry selects it |
| CommandPalette.Palette.ClickItem | content.js:393-397 | clicking an entry selects it, applies the displayed item's effect and hides the palette |
| CommandPalette.Palette.ContainerClick | content.js:244-249 | a click on the backdrop hides the palette; any other click changes nothing |
| CommandPalette.Palette.KeyDown | content.js:217-241 | the arrows move the selection; Enter activates; Escape hides; Tab with no mode prepends `@`, sets content mode and filters the new input; Tab in a mode and other keys change nothing |

## Left out

- Rendering, `innerHTML`, the "No results found" entry, CSS classes, focus, `scrollIntoView` and the mode tag and Tab notice elements. These are page plumbing. The rendered list is kept as the sequence `shown`, and "No results found" is an empty `shown`, which has no selectable entry.
- `createCommandPalette`: the palette's DOM. The class models only the state it feeds.
- `applyUIEnhancements`: notice hiding, `localStorage` writes and the admin bar button. These are side effects on the host page.
- `init`, the `chrome.runtime` message listener and `alert`. These are extension API input and output.
- Navigation is not performed. `Activate`, `ClickItem` and `KeyDown` return it as the value `Navigate(url)`, and the settings alert as `SettingsNotice`.
- background.js: settings storage, the install hooks and the toolbar click relay are extension API wrappers. Its default shortcut appears only as the constant `Predicates.DefaultShortcutKeys`.
- Strings.ToLower: lower-cases ASCII letters only. JavaScript's `toLowerCase` also maps non-ASCII letters.
- Strings: strings are sequences of Unicode scalar values, while JavaScript strings are UTF-16 code units. A surrogate pair counts as one character here and as two in `substring(1)`.
- CommandPalette.Palette.Activate: when `dataset.originalIndex` is empty it would fall back to `dataset.index`. That branch is not modelled, because `indexOf` always produces a non-empty string ("-1" included). The placeholder's "-1" resolves to `undefined`, hence `NoEffect`.
- An item is one value, not an object. `paletteItems.indexOf(item)` finds the first identical object in the source, and that is always the item's own position, so the model records that position in `Shown.origin`.
- Cursor.Next, Cursor.Prev: for a stale selection at or beyond the number of entries, they promise only that the new index is in range, not its value. The function bodies follow the source for that case too.
- CommandPalette.Palette.SearchInput takes the input's new value. The browser has already updated the box when the `input` event fires.
- `preventDefault` on handled keys is not modelled.
- The admin menu is taken as already parsed: an entry's link is the first `<a>` inside its `li` (content.js:261), which can be a submenu link. The `MenuEntry` type also admits entries no page produces, with no link but with submenu links. Every proved property covers those entries too.
