/**
 * The light/dark theme: on page load the saved theme is added to the body's
 * classes, and each click of the toggle button flips it and saves it under
 * the `theme` key.
 */
module Theme {
  import opened Optional
  import opened Storage

  const ThemeKey: string := "theme"
  const Light: string := "light"
  const Dark: string := "dark"

  /** The body carries exactly one of the two theme classes. */
  predicate OneTheme(classes: set<string>) {
    (Light in classes) != (Dark in classes)
  }

  /** `localStorage.getItem('theme') || 'light'`: the stored text unless it
      is missing or empty. */
  function SavedTheme(stored: Option<Item>): (t: string)
    requires stored.Some? ==> stored.value.Plain?
    ensures t != []
    ensures stored.Some? && stored.value.text != [] ==> t == stored.value.text
    ensures stored.None? || stored.value.text == [] ==> t == Light
  {
    if stored.Some? && stored.value.text != [] then stored.value.text else Light
  }

  /** The theme a click selects: dark when the body is light, light otherwise. */
  function NextTheme(classes: set<string>): (t: string)
  {
    if Light in classes then Dark else Light
  }

  /** The body's classes after a click: both theme classes removed, the new
      one added. */
  function Toggled(classes: set<string>): (r: set<string>)
  {
    classes - {Light, Dark} + {NextTheme(classes)}
  }

  /** A click leaves exactly one theme class, flipped from light to dark and
      otherwise to light, and keeps every other class. */
  lemma ToggledEffect(classes: set<string>)
    ensures OneTheme(Toggled(classes))
    ensures Dark in Toggled(classes) <==> Light in classes
    ensures NextTheme(classes) in Toggled(classes)
    ensures Toggled(classes) - {Light, Dark} == classes - {Light, Dark}
  {
  }

  /** From a body with exactly one theme class, two clicks give it back. */
  lemma ToggleTwice(classes: set<string>)
    requires OneTheme(classes)
    ensures Toggled(Toggled(classes)) == classes
  {
    assert Light in classes ==> Toggled(classes) == classes - {Light} + {Dark};
  }

  /** The body's theme state on a page with the toggle button. */
  class ThemeToggle {
    var bodyClasses: set<string>
    const store: LocalStorage

    /** The script only ever stores text under `theme`. */
    ghost predicate Valid()
      reads this, store
    {
      ThemeKey in store.items ==> store.items[ThemeKey].Plain?
    }

    /** Page load: the saved theme (or `light`) is added to the body. */
    constructor (store: LocalStorage, bodyClasses: set<string>)
      requires ThemeKey in store.items ==> store.items[ThemeKey].Plain?
      ensures Valid()
      ensures this.store == store
      ensures this.bodyClasses == bodyClasses + {SavedTheme(store.GetItem(ThemeKey))}
    {
      this.store := store;
      var saved := SavedTheme(store.GetItem(ThemeKey));
      this.bodyClasses := bodyClasses + {saved};
    }

    /** The click handler of the toggle button. */
    method Toggle()
      requires Valid()
      modifies this, store
      ensures Valid()
      ensures bodyClasses == Toggled(old(bodyClasses))
      ensures store.items == old(store.items)[ThemeKey := Plain(NextTheme(old(bodyClasses)))]
      ensures SavedTheme(store.GetItem(ThemeKey)) in bodyClasses
    {
      var newTheme := if Light in bodyClasses then Dark else Light;
      bodyClasses := bodyClasses - {Light, Dark};
      bodyClasses := bodyClasses + {newTheme};
      store.SetItem(ThemeKey, Plain(newTheme));
    }
  }

  /** A click followed by a page load on a fresh body: the load applies the
      theme the click saved, and a body that starts without theme classes
      ends with exactly that one. */
  method ToggleThenReload(toggle: ThemeToggle, reloaded: set<string>) returns (page: ThemeToggle)
    requires toggle.Valid()
    modifies toggle, toggle.store
    ensures page.Valid() && page.store == toggle.store
    ensures NextTheme(old(toggle.bodyClasses)) in page.bodyClasses
    ensures Light !in reloaded && Dark !in reloaded ==>
      OneTheme(page.bodyClasses) && page.bodyClasses == reloaded + {NextTheme(old(toggle.bodyClasses))}
  {
    toggle.Toggle();
    page := new ThemeToggle(toggle.store, reloaded);
  }
}
