/** The palette's item records and the search modes (content.js:10, 13, 277-311, 339-343). */
module Items {
  import opened Wrappers

  /** The `type` field of an item. */
  datatype Kind = Menu | Submenu | Special | Message

  /**
   * One palette item. `url`, `parent` and `action` are properties that only
   * some kinds of item carry; a missing one is `None`.
   */
  datatype Item = Item(kind: Kind, text: string, url: Option<string>, parent: Option<string>,
                       icon: string, action: Option<string>)

  /** The special item appended after the menu (content.js:306-311). */
  const SettingsItem := Item(Special, "Turbo Admin Settings", None, None,
                             "dashicons-admin-settings", Some("openSettings"))

  /** The placeholder shown for a content search (content.js:339-343). */
  const PlaceholderItem := Item(Message, "Content search will be implemented with WordPress REST API",
                                None, None, "dashicons-search", None)

  /**
   * A rendered list entry: the item and its `originalIndex`, the position of
   * the same object in `paletteItems`, or -1 when it is not one of them.
   */
  datatype Shown = Shown(item: Item, origin: int)

  /** The value of `searchMode`: `null`, `'content'` or `'command'`. */
  datatype SearchMode = NoMode | Content | Command

  /** Every rendered entry is the palette item at its origin, or the placeholder with origin -1. */
  ghost predicate Consistent(items: seq<Item>, shown: seq<Shown>) {
    forall k :: 0 <= k < |shown| ==>
      (0 <= shown[k].origin < |items| && items[shown[k].origin] == shown[k].item)
      || (shown[k].origin == -1 && shown[k].item == PlaceholderItem)
  }
}
