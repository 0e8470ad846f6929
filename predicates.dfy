/**
 * The two pure tests of the page script: whether the page is a WordPress
 * admin page (`isWordPressAdminPage`, content.js:72-75) and whether a key
 * press is the configured palette shortcut (content.js:148-157).
 */
module Predicates {
  import opened Wrappers
  import opened Strings

  /** `isWordPressAdminPage` over `window.location.href`. */
  predicate IsWordPressAdminPage(href: string) {
    Contains(href, "wp-admin") || Contains(href, "wp-login.php")
  }

  /** The page is an admin page exactly when `wp-admin` or `wp-login.php` occurs somewhere in its URL. */
  lemma AdminPageIff(href: string)
    ensures IsWordPressAdminPage(href) <==>
      (exists i :: OccursAt(href, "wp-admin", i)) || (exists i :: OccursAt(href, "wp-login.php", i))
  {
    ContainsIff(href, "wp-admin");
    ContainsIff(href, "wp-login.php");
  }

  /** Any URL that has an admin page's URL inside it is an admin page's URL too. */
  lemma AdminPageWithin(before: string, href: string, after: string)
    requires IsWordPressAdminPage(href)
    ensures IsWordPressAdminPage(before + href + after)
  {
    if Contains(href, "wp-admin") {
      ContainsWithin(before, href, after, "wp-admin");
    } else {
      ContainsWithin(before, href, after, "wp-login.php");
    }
  }

  /** The dashboard and the login page are admin pages. */
  lemma DashboardAndLoginAreAdminPages(site: string, rest: string)
    ensures IsWordPressAdminPage(site + "/wp-admin/" + rest)
    ensures IsWordPressAdminPage(site + "/wp-login.php" + rest)
  {
    assert StartsWith("wp-admin/", "wp-admin");
    assert Contains("wp-admin/", "wp-admin");
    ContainsWithin(site + "/", "wp-admin/", rest, "wp-admin");
    assert site + "/" + "wp-admin/" + rest == site + "/wp-admin/" + rest;
    assert StartsWith("wp-login.php", "wp-login.php");
    assert Contains("wp-login.php", "wp-login.php");
    ContainsWithin(site + "/", "wp-login.php", rest, "wp-login.php");
    assert site + "/" + "wp-login.php" + rest == site + "/wp-login.php" + rest;
  }

  /** One entry of the `shortcutKeys` setting. */
  datatype Shortcut = Shortcut(meta: bool, alt: bool, ctrl: bool, shift: bool, key: string)

  /** The parts of a `keydown` event the matcher reads. */
  datatype KeyEvent = KeyEvent(meta: bool, alt: bool, ctrl: bool, shift: bool, key: string)

  /** The default `shortcutKeys` setting: Ctrl+Shift+Z (background.js:8-16). */
  const DefaultShortcutKeys := [Shortcut(false, false, true, true, "z")]

  /**
   * The matcher of content.js:148-157; `shortcutKeys` is `None` when the
   * settings or their `shortcutKeys` entry are missing.
   */
  predicate ShortcutFires(shortcutKeys: Option<seq<Shortcut>>, e: KeyEvent) {
    shortcutKeys.Some? && |shortcutKeys.value| > 0
    && var s := shortcutKeys.value[0];
       s.meta == e.meta && s.alt == e.alt && s.ctrl == e.ctrl && s.shift == e.shift
       && ToLower(s.key) == ToLower(e.key)
  }

  /** Two keys are equal up to the case of their letters. */
  ghost predicate SameKeyIgnoringCase(a: string, b: string) {
    |a| == |b| && forall i :: 0 <= i < |a| ==> LowerChar(a[i]) == LowerChar(b[i])
  }

  /**
   * The shortcut fires exactly when there is a first configured shortcut
   * whose four modifier flags equal the event's and whose key equals the
   * event's up to case; later shortcuts play no part.
   */
  lemma ShortcutFiresIff(shortcutKeys: Option<seq<Shortcut>>, e: KeyEvent)
    ensures ShortcutFires(shortcutKeys, e) <==>
      shortcutKeys.Some? && |shortcutKeys.value| > 0
      && shortcutKeys.value[0].meta == e.meta && shortcutKeys.value[0].alt == e.alt
      && shortcutKeys.value[0].ctrl == e.ctrl && shortcutKeys.value[0].shift == e.shift
      && SameKeyIgnoringCase(shortcutKeys.value[0].key, e.key)
  {
    if shortcutKeys.Some? && |shortcutKeys.value| > 0 {
      var a, b := shortcutKeys.value[0].key, e.key;
      if SameKeyIgnoringCase(a, b) {
        assert ToLower(a) == ToLower(b) by {
          forall i | 0 <= i < |a| ensures ToLower(a)[i] == ToLower(b)[i] {
            assert ToLower(a)[i] == LowerChar(a[i]);
            assert ToLower(b)[i] == LowerChar(b[i]);
          }
        }
      }
      if ToLower(a) == ToLower(b) {
        forall i | 0 <= i < |a| ensures LowerChar(a[i]) == LowerChar(b[i]) {
          assert ToLower(a)[i] == LowerChar(a[i]);
        }
      }
    }
  }

  /** With no shortcut configured nothing fires. */
  lemma NoShortcutNeverFires(e: KeyEvent)
    ensures !ShortcutFires(None, e) && !ShortcutFires(Some([]), e)
  {
  }

  /** With the default settings Ctrl+Shift+Z, typed with a capital Z as Shift makes it, fires. */
  lemma DefaultShortcutFires()
    ensures ShortcutFires(Some(DefaultShortcutKeys), KeyEvent(false, false, true, true, "Z"))
    ensures !ShortcutFires(Some(DefaultShortcutKeys), KeyEvent(false, false, true, false, "z"))
  {
    assert ToLower("Z") == ToLower("z") == "z";
  }
}
