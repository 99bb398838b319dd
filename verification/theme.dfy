/** Dark-mode preference: normalising a requested mode, deciding whether the `dark`
    class is on, persisting the choice in local storage, and keeping the page (and
    other tabs) in step with what is stored.

    The page's theme state is the `dark` class on the document element; local storage
    is a map from keys to strings; the operating system's colour-scheme preference is a
    boolean parameter. */
module Theme {
  import opened Wrappers

  const DarkModeStorageKey := "tailkit-dark-mode"

  /** Local storage: every key present maps to its string value. */
  type Storage = map<string, string>

  /** What the page shows: the storage it sees and whether the `dark` class is set. */
  datatype Page = Page(storage: Storage, dark: bool)

  /** The three canonical modes. */
  predicate IsCanonical(mode: string)
  {
    mode == "on" || mode == "off" || mode == "system"
  }

  /** Maps any requested mode to a canonical one: "dark"/"on" to "on", "light"/"off"
      to "off", anything else to "system". */
  function NormalizeDarkMode(mode: string): (r: string)
    ensures IsCanonical(r)
    ensures r == "on" <==> mode == "dark" || mode == "on"
    ensures r == "off" <==> mode == "light" || mode == "off"
    ensures IsCanonical(mode) ==> r == mode
  {
    if mode == "dark" || mode == "on" then "on"
    else if mode == "light" || mode == "off" then "off"
    else "system"
  }

  /** Normalising twice is normalising once. */
  lemma NormalizeIdempotent(mode: string)
    ensures NormalizeDarkMode(NormalizeDarkMode(mode)) == NormalizeDarkMode(mode)
  {
  }

  /** The decision `applyDarkMode` makes: is the `dark` class set for `mode` when the
      operating system does (or does not) prefer a dark scheme? Stated on the raw
      requested mode, the class is on exactly for "dark"/"on", and for every
      unrecognised mode when the system prefers dark. */
  function ShouldUseDark(mode: string, systemPrefersDark: bool): (dark: bool)
    ensures dark <==> mode == "dark" || mode == "on"
                      || (mode != "light" && mode != "off" && systemPrefersDark)
  {
    var normalized := NormalizeDarkMode(mode);
    normalized == "on" || (normalized == "system" && systemPrefersDark)
  }

  /** Two modes with the same normal form give the same decision. */
  lemma SameNormalFormSameDecision(a: string, b: string, systemPrefersDark: bool)
    requires NormalizeDarkMode(a) == NormalizeDarkMode(b)
    ensures ShouldUseDark(a, systemPrefersDark) == ShouldUseDark(b, systemPrefersDark)
  {
  }

  /** `applyDarkMode`: the class follows the decision; storage is untouched. */
  function ApplyDarkMode(page: Page, mode: string, systemPrefersDark: bool): (r: Page)
    ensures r.storage == page.storage
    ensures r.dark <==> NormalizeDarkMode(mode) == "on"
                        || (NormalizeDarkMode(mode) == "system" && systemPrefersDark)
  {
    page.(dark := ShouldUseDark(mode, systemPrefersDark))
  }

  /** `localStorage.getItem(key) || "system"`: a missing or empty value reads as "system". */
  function StoredMode(storage: Storage): (mode: string)
    ensures DarkModeStorageKey !in storage ==> mode == "system"
    ensures DarkModeStorageKey in storage && storage[DarkModeStorageKey] == "" ==> mode == "system"
    ensures mode != ""
    ensures DarkModeStorageKey in storage && storage[DarkModeStorageKey] != ""
            ==> mode == storage[DarkModeStorageKey]
  {
    if DarkModeStorageKey in storage && storage[DarkModeStorageKey] != "" then
      storage[DarkModeStorageKey]
    else "system"
  }

  /** The page as the script leaves it on load: the stored mode (or "system") applied.
      A stored "dark"/"on" turns the class on, "light"/"off" turns it off, and any other
      text, the empty one included, follows the system like a missing key. */
  function Load(storage: Storage, systemPrefersDark: bool): (page: Page)
    ensures page.storage == storage
    ensures DarkModeStorageKey !in storage ==> page.dark == systemPrefersDark
    ensures DarkModeStorageKey in storage ==>
              var v := storage[DarkModeStorageKey];
              && (v == "dark" || v == "on" ==> page.dark)
              && (v == "light" || v == "off" ==> !page.dark)
              && (v != "dark" && v != "on" && v != "light" && v != "off"
                  ==> page.dark == systemPrefersDark)
  {
    Page(storage, ShouldUseDark(StoredMode(storage), systemPrefersDark))
  }

  /** A page is in step with its storage when its class is what a reload would give. */
  predicate InSync(page: Page, systemPrefersDark: bool)
  {
    page == Load(page.storage, systemPrefersDark)
  }

  /** `persistDarkMode`: "system" removes the key, any other mode stores its normal
      form; no other key changes; the class follows the persisted mode. */
  function PersistDarkMode(page: Page, mode: string, systemPrefersDark: bool): (r: Page)
    ensures NormalizeDarkMode(mode) == "system" ==> DarkModeStorageKey !in r.storage
    ensures NormalizeDarkMode(mode) != "system" ==>
              DarkModeStorageKey in r.storage
              && r.storage[DarkModeStorageKey] == NormalizeDarkMode(mode)
    ensures forall k :: k != DarkModeStorageKey ==>
              (k in r.storage <==> k in page.storage)
              && (k in r.storage ==> r.storage[k] == page.storage[k])
    ensures r.dark == ShouldUseDark(mode, systemPrefersDark)
  {
    var normalized := NormalizeDarkMode(mode);
    var storage :=
      if normalized == "system" then page.storage - {DarkModeStorageKey}
      else page.storage[DarkModeStorageKey := normalized];
    ApplyDarkMode(page.(storage := storage), normalized, systemPrefersDark)
  }

  /** Round trip: after persisting a mode, reading it back (on reload, under any
      system preference) gives the decision that mode gives, and the page is in step. */
  lemma PersistThenLoad(page: Page, mode: string, before: bool, after: bool)
    ensures Load(PersistDarkMode(page, mode, before).storage, after).dark
            == ShouldUseDark(mode, after)
    ensures InSync(PersistDarkMode(page, mode, before), before)
  {
  }

  /** A `storage` event delivered to another tab; `key` is absent when storage was cleared,
      `newValue` is absent when the key was removed. */
  datatype StorageEvent = StorageEvent(key: Option<string>, newValue: Option<string>)

  /** The cross-tab listener: an event for the dark-mode key applies its new value
      (or "system" when the key was removed or emptied); any other event leaves the page
      alone. */
  function OnStorageEvent(page: Page, event: StorageEvent, systemPrefersDark: bool): (r: Page)
    ensures r.storage == page.storage
    ensures event.key != Some(DarkModeStorageKey) ==> r == page
    ensures event.key == Some(DarkModeStorageKey) && event.newValue == None ==>
              r.dark == systemPrefersDark
    ensures event.key == Some(DarkModeStorageKey) && event.newValue.Some? ==>
              var v := event.newValue.value;
              && (v == "dark" || v == "on" ==> r.dark)
              && (v == "light" || v == "off" ==> !r.dark)
              && (v != "dark" && v != "on" && v != "light" && v != "off"
                  ==> r.dark == systemPrefersDark)
  {
    if event.key == Some(DarkModeStorageKey) then
      var mode := if event.newValue.Some? && event.newValue.value != "" then event.newValue.value
                  else "system";
      ApplyDarkMode(page, mode, systemPrefersDark)
    else page
  }

  /** The event other tabs receive when this tab persists `mode` over `storage`. As the
      web storage rules say, a write that changes nothing (the same value set again,
      a missing key removed) fires no event. */
  function PersistEvent(storage: Storage, mode: string): (e: Option<StorageEvent>)
    ensures e.Some? ==> e.value.key == Some(DarkModeStorageKey)
    ensures e.Some? ==> e.value.newValue == (if NormalizeDarkMode(mode) == "system" then None
                                             else Some(NormalizeDarkMode(mode)))
    ensures e.None? <==> (NormalizeDarkMode(mode) == "system" && DarkModeStorageKey !in storage)
                         || (NormalizeDarkMode(mode) != "system" && DarkModeStorageKey in storage
                             && storage[DarkModeStorageKey] == NormalizeDarkMode(mode))
  {
    var normalized := NormalizeDarkMode(mode);
    if normalized == "system" then
      if DarkModeStorageKey in storage then Some(StorageEvent(Some(DarkModeStorageKey), None))
      else None
    else if DarkModeStorageKey in storage && storage[DarkModeStorageKey] == normalized then None
    else Some(StorageEvent(Some(DarkModeStorageKey), Some(normalized)))
  }

  /** Tabs stay in step: if another tab showed what the shared storage said, then after
      this tab persists `mode` the other tab (having processed the event, if one fired)
      shows the decision `mode` gives. */
  lemma CrossTabSync(other: Page, mode: string, systemPrefersDark: bool)
    requires InSync(other, systemPrefersDark)
    ensures var here := PersistDarkMode(other, mode, systemPrefersDark);
            var event := PersistEvent(other.storage, mode);
            var seen := if event.Some? then OnStorageEvent(other, event.value, systemPrefersDark)
                        else other;
            seen.dark == here.dark && InSync(seen.(storage := here.storage), systemPrefersDark)
  {
  }

  /** `syncSystemDarkMode`, run when the system preference changes: only a page without
      a stored (non-empty) mode follows the new preference. */
  function OnSystemSchemeChange(page: Page, systemPrefersDark: bool): (r: Page)
    ensures r.storage == page.storage
    ensures DarkModeStorageKey !in page.storage ==> r.dark == systemPrefersDark
    ensures DarkModeStorageKey in page.storage && page.storage[DarkModeStorageKey] == ""
            ==> r.dark == systemPrefersDark
    ensures DarkModeStorageKey in page.storage && page.storage[DarkModeStorageKey] != ""
            ==> r == page
  {
    if DarkModeStorageKey !in page.storage || page.storage[DarkModeStorageKey] == "" then
      ApplyDarkMode(page, "system", systemPrefersDark)
    else page
  }

  /** Storage as this script writes it: the key is absent or holds "on" or "off". */
  predicate WrittenByPersist(storage: Storage)
  {
    DarkModeStorageKey in storage ==>
      storage[DarkModeStorageKey] == "on" || storage[DarkModeStorageKey] == "off"
  }

  /** Persisting always leaves storage in the shape the script writes. */
  lemma PersistWritesCanonical(page: Page, mode: string, systemPrefersDark: bool)
    ensures WrittenByPersist(PersistDarkMode(page, mode, systemPrefersDark).storage)
  {
  }

  /** For storage the script wrote itself, reacting to a change of system preference
      keeps the page in step with what a reload would show. */
  lemma SystemChangeKeepsSync(page: Page, before: bool, after: bool)
    requires WrittenByPersist(page.storage)
    requires InSync(page, before)
    ensures InSync(OnSystemSchemeChange(page, after), after)
  {
  }

  /** A non-empty stored value the script never writes itself ("auto", say) is read as
      "system" on load, yet no later change of system preference is followed: the page
      then drifts from what a reload would show. This is why `SystemChangeKeepsSync`
      needs storage the script wrote. */
  lemma UnrecognisedStoredValueDrifts(storage: Storage, before: bool, after: bool)
    requires DarkModeStorageKey in storage
    requires var v := storage[DarkModeStorageKey];
             v != "" && v != "dark" && v != "on" && v != "light" && v != "off"
    requires before != after
    ensures Load(storage, before).dark == before
    ensures !InSync(OnSystemSchemeChange(Load(storage, before), after), after)
  {
  }

  /** The mode a `phx:set-theme` event asks for. `own` is the target's `data-phx-theme`
      attribute and `ancestor` that of the nearest ancestor carrying one. The source reads
      the target's own value, then `closest("[data-phx-theme]")`, which finds the target
      itself when it carries the attribute; so the ancestor is consulted only when the
      target has none, and an empty attribute wherever it is found means "system". */
  function ThemeFromEvent(own: Option<string>, ancestor: Option<string>): (mode: string)
    ensures mode != ""
    ensures own.Some? && own.value != "" ==> mode == own.value
    ensures own.Some? && own.value == "" ==> mode == "system"
    ensures own.None? && ancestor.Some? && ancestor.value != "" ==> mode == ancestor.value
    ensures own.None? && (ancestor.None? || ancestor.value == "") ==> mode == "system"
  {
    var closest := if own.Some? then own else ancestor;
    if own.Some? && own.value != "" then own.value
    else if closest.Some? && closest.value != "" then closest.value
    else "system"
  }

  /** The `phx:set-theme` listener. */
  function OnSetTheme(page: Page, own: Option<string>, ancestor: Option<string>,
                      systemPrefersDark: bool): (r: Page)
    ensures InSync(r, systemPrefersDark)
    ensures r.dark == ShouldUseDark(ThemeFromEvent(own, ancestor), systemPrefersDark)
    ensures var normalized := NormalizeDarkMode(ThemeFromEvent(own, ancestor));
            && (DarkModeStorageKey !in r.storage <==> normalized == "system")
            && (DarkModeStorageKey in r.storage ==> r.storage[DarkModeStorageKey] == normalized)
    ensures forall k :: k != DarkModeStorageKey ==>
              (k in r.storage <==> k in page.storage)
              && (k in r.storage ==> r.storage[k] == page.storage[k])
  {
    PersistDarkMode(page, ThemeFromEvent(own, ancestor), systemPrefersDark)
  }
}
