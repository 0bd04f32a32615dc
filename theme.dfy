/**
 The theme switcher: four themes, the chosen one kept in the
 `veltrix_theme` slot (default `aquatic`), shown as the `data-theme`
 attribute of the document, as the label of the theme button and as the
 selected entry of the dropdown.
 */
module Theme {
  import opened Text
  import opened Storage

  datatype ThemeInfo = ThemeInfo(id: string, title: string)

  const Themes: seq<ThemeInfo> := [
    ThemeInfo("aquatic", "Aquatic"),
    ThemeInfo("desert", "Desert"),
    ThemeInfo("dusk", "Dusk"),
    ThemeInfo("night", "Night Sky")
  ]

  const ThemeSlot := "veltrix_theme"
  const DefaultTheme := "aquatic"

  /** `getTheme()`: the stored theme id, or the default when the slot is missing or empty. */
  function StoredTheme(slots: map<string, string>): (id: string)
    ensures id != []
    ensures ThemeSlot in slots && slots[ThemeSlot] != [] ==> id == slots[ThemeSlot]
    ensures ThemeSlot !in slots || slots[ThemeSlot] == [] ==> id == DefaultTheme
  {
    ItemOr(slots, ThemeSlot, DefaultTheme)
  }

  /** `THEMES.find(t => t.id === id)`: the first theme with that id. */
  function FindTheme(id: string): (r: Option<ThemeInfo>)
    ensures r.Some? <==> exists i :: 0 <= i < |Themes| && Themes[i].id == id
    ensures r.Some? ==> r.value in Themes && r.value.id == id
  {
    if Themes[0].id == id then Some(Themes[0])
    else if Themes[1].id == id then Some(Themes[1])
    else if Themes[2].id == id then Some(Themes[2])
    else if Themes[3].id == id then Some(Themes[3])
    else None
  }

  /** Which dropdown entries carry the `selected` class for the theme `id`. */
  predicate IsSelected(marks: seq<bool>, id: string) {
    |marks| == |Themes| && forall i :: 0 <= i < |Themes| ==> marks[i] == (Themes[i].id == id)
  }

  /** The theme ids are distinct, so at most one dropdown entry is selected. */
  lemma ThemeIdsDistinct()
    ensures forall i, j :: 0 <= i < j < |Themes| ==> Themes[i].id != Themes[j].id
  {
  }

  lemma {:induction false} AtMostOneSelected(marks: seq<bool>, id: string, i: nat, j: nat)
    requires IsSelected(marks, id)
    requires i < j < |marks| && marks[i]
    ensures !marks[j]
  {
    ThemeIdsDistinct();
  }

  /** A known theme id selects its own entry. */
  lemma KnownThemeSelected(marks: seq<bool>, id: string)
    requires IsSelected(marks, id) && FindTheme(id).Some?
    ensures exists i :: 0 <= i < |marks| && marks[i]
  {
  }

  /**
   What the page shows of the theme: the `data-theme` attribute of the root
   element, the text of the theme button's label and the `selected` marks of
   the dropdown entries. At start-up `initTheme` runs before
   `buildThemeDropdown`, so its loop finds no entries yet; the marks it is
   given here are the ones `buildThemeDropdown` then writes for the same
   stored theme.
   */
  class ThemeView {
    var dataTheme: Option<string>
    var buttonLabel: string
    var selected: seq<bool>

    ghost predicate Valid()
      reads this
    {
      |selected| == |Themes|
    }

    /** The page before any theme is set: the button shows the markup's label. */
    constructor (initialLabel: string)
      ensures dataTheme == None && buttonLabel == initialLabel
      ensures Valid() && forall i :: 0 <= i < |selected| ==> !selected[i]
    {
      dataTheme := None;
      buttonLabel := initialLabel;
      selected := seq(|Themes|, _ => false);
    }

    /**
     `setTheme(id)`: the attribute and the slot take `id`; each dropdown entry
     is marked exactly when it is that theme; the label changes only when
     `id` is a known theme.
     */
    method SetTheme(store: LocalStorage, id: string)
      requires Valid()
      modifies this, store
      ensures Valid()
      ensures dataTheme == Some(id)
      ensures store.slots == old(store.slots)[ThemeSlot := id]
      ensures IsSelected(selected, id)
      ensures buttonLabel == if FindTheme(id).Some? then FindTheme(id).value.title else old(buttonLabel)
    {
      dataTheme := Some(id);
      store.SetItem(ThemeSlot, id);
      var marks := selected;
      var i := 0;
      while i < |marks|
        invariant 0 <= i <= |marks| == |Themes|
        invariant forall k :: 0 <= k < i ==> marks[k] == (Themes[k].id == id)
      {
        marks := marks[i := Themes[i].id == id];
        i := i + 1;
      }
      selected := marks;
      var active := FindTheme(id);
      if active.Some? {
        buttonLabel := active.value.title;
      }
    }

    /** `initTheme()`: apply the stored theme, writing it back to its slot. */
    method InitTheme(store: LocalStorage)
      requires Valid()
      modifies this, store
      ensures Valid()
      ensures dataTheme == Some(StoredTheme(old(store.slots)))
      ensures store.slots == old(store.slots)[ThemeSlot := StoredTheme(old(store.slots))]
      ensures StoredTheme(store.slots) == StoredTheme(old(store.slots))
      ensures IsSelected(selected, StoredTheme(store.slots))
      ensures buttonLabel == if FindTheme(StoredTheme(old(store.slots))).Some?
                             then FindTheme(StoredTheme(old(store.slots))).value.title
                             else old(buttonLabel)
    {
      var id := StoredTheme(store.slots);
      SetTheme(store, id);
      InitKeepsTheme(old(store.slots));
    }
  }

  /** Applying the stored theme at start-up does not change which theme is stored. */
  lemma InitKeepsTheme(slots: map<string, string>)
    ensures StoredTheme(slots[ThemeSlot := StoredTheme(slots)]) == StoredTheme(slots)
  {
  }

  /** A theme picked from the dropdown is the theme of the next visit. */
  lemma {:induction false} ChosenThemePersists(slots: map<string, string>, i: nat)
    requires i < |Themes|
    ensures StoredTheme(slots[ThemeSlot := Themes[i].id]) == Themes[i].id
  {
    assert Themes[i].id != [];
  }

  /** Writing any other slot leaves the stored theme alone. */
  lemma OtherSlotKeepsTheme(slots: map<string, string>, key: string, value: string)
    requires key != ThemeSlot
    ensures StoredTheme(slots[key := value]) == StoredTheme(slots)
  {
    OtherSlotUnchanged(slots, ThemeSlot, value, key, DefaultTheme);
  }
}
