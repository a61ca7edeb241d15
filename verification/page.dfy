/**
  The editor page (app/page.tsx): the document, its persistence under
  `md-live-preview:content`, the scroll synchroniser, the three stored
  preferences, and the reset action.

  Effects, callbacks and toolbar buttons become the events of `Event`; the
  answer to the reset confirmation dialog is a parameter of the reset event.
  The document is stored as plain text, not JSON, and its load is not gated
  by hydration.
*/
module Page {
  import opened Wrappers
  import Storage
  import Constants
  import ScrollSync
  import PersistedValue
  import TextMetrics

  const ContentKey: string := Constants.StorageKey(Constants.KeyContent)
  const SyncScrollKey: string := Constants.StorageKey(Constants.KeySyncScroll)
  const ThemeKey: string := Constants.StorageKey(Constants.KeyTheme)
  const NavbarKey: string := Constants.StorageKey(Constants.KeyNavbarExpanded)

  /** The page's state, together with the browser storage it reads and writes. */
  datatype Page = Page(
    content: string,
    store: Storage.Store,
    scroll: ScrollSync.State,
    syncScroll: PersistedValue.Hook<bool>,
    dark: PersistedValue.Hook<bool>,
    navbarExpanded: PersistedValue.Hook<bool>)
  {
    ghost predicate Valid() {
      && scroll.Valid()
      && syncScroll.Consistent() && syncScroll.key == SyncScrollKey
      && dark.Consistent() && dark.key == ThemeKey
      && navbarExpanded.Consistent() && navbarExpanded.key == NavbarKey
    }
  }

  /**
    The page as first rendered: the default document, the preferences'
    defaults (sync off, light theme, toolbar expanded), and the scroll guard
    down; the panes are as the layout gives them.
  */
  function Initial(store: Storage.Store, scroll: ScrollSync.State): (p: Page)
    requires scroll.Valid()
    ensures p.Valid() && p.content == Constants.DefaultMarkdown && p.store == store
    ensures !p.syncScroll.value && !p.dark.value && p.navbarExpanded.value
    ensures !p.scroll.guard && p.scroll.editor == scroll.editor && p.scroll.preview == scroll.preview
  {
    Page(Constants.DefaultMarkdown, store, scroll.(guard := false),
      PersistedValue.Fresh(SyncScrollKey, false),
      PersistedValue.Fresh(ThemeKey, false),
      PersistedValue.Fresh(NavbarKey, true))
  }

  /** `getStoredContent`: the stored document, or `None` when the key is absent or reading throws. */
  function StoredContent(store: Storage.Store): (r: Option<string>)
    ensures r.Some? <==> store.readable && ContentKey in store.entries
    ensures r.Some? ==> r.value == store.entries[ContentKey]
  {
    match Storage.GetItem(store, ContentKey)
    case Ok(raw) => raw
    case Err(_) => None
  }

  /** The load effect: a stored document replaces the current one only when it is present and not empty. */
  function LoadContent(p: Page): (p': Page)
    ensures p' == p.(content := p'.content)
    ensures var stored := StoredContent(p.store);
      p'.content == if stored.Some? && stored.value != [] then stored.value else p.content
  {
    match StoredContent(p.store)
    case Some(stored) => if stored != [] then p.(content := stored) else p
    case None => p
  }

  /** The mount: each preference hook hydrates, then the document is loaded. None of this writes. */
  function Mount(p: Page): (p': Page)
    requires p.Valid()
    ensures p'.Valid() && p'.store == p.store && p'.scroll == p.scroll
    ensures p'.syncScroll.hydrated && p'.dark.hydrated && p'.navbarExpanded.hydrated
  {
    var c := PersistedValue.BoolJson;
    LoadContent(p.(
      syncScroll := PersistedValue.Hydrate(p.syncScroll, p.store, c),
      dark := PersistedValue.Hydrate(p.dark, p.store, c),
      navbarExpanded := PersistedValue.Hydrate(p.navbarExpanded, p.store, c)))
  }

  /** `saveContent`: the document text, as is, under the content key; a failed write is ignored. */
  function SaveContent(store: Storage.Store, text: string): (s: Storage.Store)
    ensures store.writable ==> s == store.(entries := store.entries[ContentKey := text])
    ensures !store.writable ==> s == store
  {
    Storage.Write(store, ContentKey, text)
  }

  /** `handleEditorChange`: the editor's new text becomes the document and is stored at once. */
  function EditorChange(p: Page, text: string): (p': Page)
    ensures p'.content == text
    ensures p.store.writable ==> p'.store == p.store.(entries := p.store.entries[ContentKey := text])
    ensures !p.store.writable ==> p'.store == p.store
    ensures p'.scroll == p.scroll && p'.syncScroll == p.syncScroll && p'.dark == p.dark && p'.navbarExpanded == p.navbarExpanded
  {
    p.(content := text, store := SaveContent(p.store, text))
  }

  /**
    `handleReset`: when the document differs from the default and the user
    declines the confirmation, nothing happens; otherwise the default
    document is shown and stored and both panes scroll to the top.
  */
  function Reset(p: Page, confirmed: bool): (p': Page)
    ensures p.content != Constants.DefaultMarkdown && !confirmed ==> p' == p
    ensures p.content == Constants.DefaultMarkdown || confirmed ==>
      && p'.content == Constants.DefaultMarkdown
      && (p.store.writable ==> p'.store == p.store.(entries := p.store.entries[ContentKey := Constants.DefaultMarkdown]))
      && (!p.store.writable ==> p'.store == p.store)
      && p'.scroll == ScrollSync.ScrollToTop(p.scroll)
    ensures p'.syncScroll == p.syncScroll && p'.dark == p.dark && p'.navbarExpanded == p.navbarExpanded
  {
    if p.content != Constants.DefaultMarkdown && !confirmed then p
    else
      p.(content := Constants.DefaultMarkdown,
         store := SaveContent(p.store, Constants.DefaultMarkdown),
         scroll := ScrollSync.ScrollToTop(p.scroll))
  }

  /** The word, character and line counts the toolbar shows. */
  function Stats(p: Page): (r: TextMetrics.Stats)
    ensures r.words == TextMetrics.WordRuns(p.content)
    ensures r.lines == if p.content == [] then 0 else 1 + multiset(p.content)['\n']
    ensures |p.content| <= r.chars <= 2 * |p.content|
  {
    TextMetrics.DocumentStats(p.content)
  }

  /** What can happen to the page. */
  datatype Event =
    | MountEvent
    | Edit(text: string)
    | Scroll(e: ScrollSync.Event)
    | ResetClicked(confirmed: bool)
    | SyncScrollClicked
    | ThemeClicked
    | NavbarClicked

  function Step(p: Page, e: Event): (p': Page)
    requires p.Valid()
    ensures p'.Valid()
  {
    var c := PersistedValue.BoolJson;
    match e
    case MountEvent => Mount(p)
    case Edit(text) => EditorChange(p, text)
    case Scroll(se) =>
      p.(scroll := ScrollSync.Step(p.scroll, p.syncScroll.value, se))
    case ResetClicked(confirmed) => Reset(p, confirmed)
    case SyncScrollClicked =>
      var (h, s) := PersistedValue.SetValue(p.syncScroll, p.store, c, PersistedValue.Put(!p.syncScroll.value));
      p.(syncScroll := h, store := s)
    case ThemeClicked =>
      var (h, s) := PersistedValue.SetValue(p.dark, p.store, c, PersistedValue.Apply((b: bool) => !b));
      p.(dark := h, store := s)
    case NavbarClicked =>
      var (h, s) := PersistedValue.SetValue(p.navbarExpanded, p.store, c, PersistedValue.Apply((b: bool) => !b));
      p.(navbarExpanded := h, store := s)
  }

  // ---------------------------------------------------------------------------
  // Properties

  /** The four storage keys are pairwise different. */
  lemma KeysDistinct()
    ensures ContentKey != SyncScrollKey && ContentKey != ThemeKey && ContentKey != NavbarKey
    ensures SyncScrollKey != ThemeKey && SyncScrollKey != NavbarKey && ThemeKey != NavbarKey
  {
    Constants.StorageKeyInjective(Constants.KeyContent, Constants.KeySyncScroll);
    Constants.StorageKeyInjective(Constants.KeyContent, Constants.KeyTheme);
    Constants.StorageKeyInjective(Constants.KeyContent, Constants.KeyNavbarExpanded);
    Constants.StorageKeyInjective(Constants.KeySyncScroll, Constants.KeyTheme);
    Constants.StorageKeyInjective(Constants.KeySyncScroll, Constants.KeyNavbarExpanded);
    Constants.StorageKeyInjective(Constants.KeyTheme, Constants.KeyNavbarExpanded);
  }

  /**
    At start-up the default document stays unless storage holds a non-empty
    document: a missing key, a failing read and a stored empty string all
    leave the default.
  */
  lemma StartupDocument(store: Storage.Store, scroll: ScrollSync.State)
    requires scroll.Valid()
    ensures var p := Mount(Initial(store, scroll));
      if store.readable && ContentKey in store.entries && store.entries[ContentKey] != []
      then p.content == store.entries[ContentKey]
      else p.content == Constants.DefaultMarkdown
  {
  }

  /** Every edit stores exactly the new text under the content key and leaves the preference keys alone. */
  lemma EditStoresText(p: Page, text: string)
    requires p.store.writable
    ensures var s := EditorChange(p, text).store;
      && ContentKey in s.entries && s.entries[ContentKey] == text
      && (forall k :: k != ContentKey ==> (k in s.entries <==> k in p.store.entries))
      && (forall k :: k in p.store.entries && k != ContentKey ==> s.entries[k] == p.store.entries[k])
  {
  }

  /** A non-empty document survives a reload when storage works. */
  lemma EditSurvivesReload(p: Page, text: string, scroll: ScrollSync.State)
    requires p.store.readable && p.store.writable && text != [] && scroll.Valid()
    ensures Mount(Initial(EditorChange(p, text).store, scroll)).content == text
  {
  }

  /** Clearing the document does not survive a reload: the page comes back with the default document. */
  lemma EmptyDocumentNotRestored(p: Page, scroll: ScrollSync.State)
    requires p.store.readable && p.store.writable && scroll.Valid()
    ensures var s := EditorChange(p, []).store;
      && s.entries[ContentKey] == []
      && Mount(Initial(s, scroll)).content == Constants.DefaultMarkdown
  {
  }

  /** When the document already is the default, the confirmation's answer makes no difference: no question is asked. */
  lemma ResetAtDefaultNeedsNoConfirmation(p: Page)
    requires p.content == Constants.DefaultMarkdown
    ensures Reset(p, false) == Reset(p, true)
  {
  }

  /** A confirmed reset shows and stores the default document and puts both mounted panes at the top. */
  lemma ConfirmedReset(p: Page)
    requires p.store.writable
    ensures var p' := Reset(p, true);
      && p'.content == Constants.DefaultMarkdown
      && p'.store.entries[ContentKey] == Constants.DefaultMarkdown
      && (p'.scroll.editor.Some? ==> p'.scroll.editor.value.top == 0.0)
      && (p'.scroll.preview.Some? ==> p'.scroll.preview.value.top == 0.0)
  {
  }

  /** Before the mount, the preference buttons do nothing at all. */
  lemma PreferenceClicksBeforeMountAreLost(store: Storage.Store, scroll: ScrollSync.State)
    requires scroll.Valid()
    ensures var p := Initial(store, scroll);
      && Step(p, SyncScrollClicked) == p
      && Step(p, ThemeClicked) == p
      && Step(p, NavbarClicked) == p
  {
  }

  /**
    After the mount, switching the theme flips it and stores the new value,
    and a reloaded page starts in that theme.
  */
  lemma ThemeSurvivesReload(p: Page, scroll: ScrollSync.State)
    requires p.Valid() && p.dark.hydrated && p.store.readable && p.store.writable && scroll.Valid()
    ensures var p' := Step(p, ThemeClicked);
      && p'.dark.value == !p.dark.value
      && Mount(Initial(p'.store, scroll)).dark.value == !p.dark.value
  {
    PersistedValue.BoolJsonRoundTrips();
    var c := PersistedValue.BoolJson;
    var (h, s) := PersistedValue.SetValue(p.dark, p.store, c, PersistedValue.Apply((b: bool) => !b));
    assert h.value == !p.dark.value;
    PersistedValue.SetThenReload(p.dark, p.store, c, !p.dark.value, false);
  }
}
