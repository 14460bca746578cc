/**
 * The tab-session manager of the browser window: an ordered list of tabs,
 * one active tab, the address bar, and the load/save protocol around the
 * session file. Buttons, brushes, focus and dispatching to the UI thread are
 * left out; what remains of the presentation is which view is visible, the
 * caption of each tab button and the address-bar text.
 */
module Window {
  import opened Wrappers
  import opened Engine
  import opened TabModel
  import opened SessionModel
  import opened TabLogic
  import opened Initializer

  datatype Key = Enter | OtherKey

  /** The element of `s` at `i`; the term on which `Distinct` is instantiated. */
  ghost function Elem<T>(s: seq<T>, i: int): T
    requires 0 <= i < |s|
  {
    s[i]
  }

  /**
   * No element occurs twice. The quantifier fires only on `Elem` terms, so a
   * proof that needs two positions to differ names them with `Elem`.
   */
  ghost predicate Distinct<T>(s: seq<T>) {
    forall i, j {:trigger Elem(s, i), Elem(s, j)} :: 0 <= i < j < |s| ==> Elem(s, i) != Elem(s, j)
  }

  /** Appending an element that does not occur keeps a sequence distinct. */
  lemma DistinctAppend<T>(s: seq<T>, x: T)
    requires Distinct(s) && x !in s
    ensures Distinct(s + [x])
  {
    var r := s + [x];
    forall i, j | 0 <= i < j < |r| ensures Elem(r, i) != Elem(r, j) {
      if j < |s| {
        assert Elem(r, i) == Elem(s, i) && Elem(r, j) == Elem(s, j);
      } else {
        assert Elem(r, i) == s[i];
      }
    }
  }

  /** `s` without its element at position `k`, the others in order. */
  function RemoveAt<T>(s: seq<T>, k: nat): (r: seq<T>)
    requires k < |s|
    ensures |r| == |s| - 1
    ensures forall i {:trigger r[i]} :: 0 <= i < k ==> r[i] == s[i]
    ensures forall i {:trigger r[i]} :: k <= i < |r| ==> r[i] == s[i + 1]
  {
    s[..k] + s[k + 1..]
  }

  /** Removing one position keeps the others distinct and drops its element altogether. */
  lemma DistinctRemoveAt<T>(s: seq<T>, k: nat)
    requires k < |s| && Distinct(s)
    ensures Distinct(RemoveAt(s, k))
    ensures s[k] !in RemoveAt(s, k)
  {
    var r := RemoveAt(s, k);
    forall i, j | 0 <= i < j < |r| ensures Elem(r, i) != Elem(r, j) {
      assert Elem(r, i) == Elem(s, if i < k then i else i + 1) && Elem(r, j) == Elem(s, if j < k then j else j + 1);
    }
    forall i | 0 <= i < |r| ensures r[i] != s[k] {
      assert r[i] == Elem(s, if i < k then i else i + 1) && s[k] == Elem(s, k);
    }
  }

  /** An element other than the removed one is still there. */
  lemma InRemoveAt<T>(s: seq<T>, k: nat, x: T)
    requires k < |s| && x in s && x != s[k]
    ensures x in RemoveAt(s, k)
  {
    var m :| 0 <= m < |s| && s[m] == x;
    var r := RemoveAt(s, k);
    if m < k {
      assert r[m] == x;
    } else {
      assert r[m - 1] == x;
    }
  }

  /** A position holding `x` with no `x` before it is the first position of `x`. */
  lemma IndexOfFirst<T>(s: seq<T>, x: T, i: int)
    requires 0 <= i < |s| && s[i] == x && x !in s[..i]
    ensures IndexOf(s, x) == i
  {
  }

  /**
   * A new tab record with id `id`, its button captioned `title` and a
   * hidden view that starts loading `url`.
   */
  method NewTabRecord(id: Guid, url: string, title: string) returns (tab: BrowserTab)
    ensures fresh(tab) && fresh(tab.browser) && fresh(tab.tabButton)
    ensures tab.id == id && tab.url == url && tab.title == title && !tab.isLoading
    ensures tab.tabButton != null && tab.tabButton.content == title && tab.tabButton.tag == id
    ensures tab.browser != null && tab.browser.requested == [url]
    ensures !tab.browser.visible && !tab.browser.disposed
  {
    tab := new BrowserTab();
    tab.id, tab.url, tab.title := id, url, title;
    var tabButton := new TabButton(title, tab.id);
    var browser := new View(url);
    tab.tabButton, tab.browser := tabButton, browser;
  }

  /**
   * `ts`, `vs` and `gs` describe the same tabs position by position: each tab
   * has its button, which carries the tab's id, and a view of its own;
   * ids are distinct and below `next`, and no view serves two tabs.
   */
  ghost predicate Registered(ts: seq<BrowserTab>, vs: seq<View>, gs: seq<Guid>, next: Guid)
    reads ts`browser, ts`id, ts`tabButton
  {
    && EmptyGuid < next
    && |vs| == |ts| && |gs| == |ts|
    && (forall i :: 0 <= i < |ts| ==>
          && ts[i].browser == vs[i] && ts[i].id == gs[i]
          && ts[i].tabButton != null && ts[i].tabButton.tag == gs[i]
          && EmptyGuid < gs[i] < next)
    && Distinct(gs) && Distinct(vs)
  }

  /** Exactly the view of `active` is visible. */
  ghost predicate Shown(ts: seq<BrowserTab>, vs: seq<View>, active: BrowserTab?)
    requires |vs| == |ts|
    reads vs`visible
  {
    forall i :: 0 <= i < |ts| ==> (vs[i].visible <==> ts[i] == active)
  }

  /** Removing one position from all three sequences keeps them registered, and drops that tab's view. */
  lemma RegisteredRemoveAt(ts: seq<BrowserTab>, vs: seq<View>, gs: seq<Guid>, next: Guid, k: nat)
    requires Registered(ts, vs, gs, next) && k < |ts|
    ensures Registered(RemoveAt(ts, k), RemoveAt(vs, k), RemoveAt(gs, k), next)
    ensures ts[k] !in RemoveAt(ts, k) && vs[k] !in RemoveAt(vs, k)
  {
    DistinctRemoveAt(gs, k);
    DistinctRemoveAt(vs, k);
    var ts', vs', gs' := RemoveAt(ts, k), RemoveAt(vs, k), RemoveAt(gs, k);
    forall i | 0 <= i < |ts'|
      ensures ts'[i].browser == vs'[i] && ts'[i].id == gs'[i]
      ensures ts'[i].tabButton != null && ts'[i].tabButton.tag == gs'[i]
      ensures EmptyGuid < gs'[i] < next
    {
      var j := if i < k then i else i + 1;
      assert ts'[i] == ts[j] && vs'[i] == vs[j] && gs'[i] == gs[j];
    }
    forall i | 0 <= i < |ts'| ensures ts'[i] != ts[k] {
      assert vs'[i] != vs[k];
    }
  }

  /** Removing one position keeps the same view shown, when it is not the removed one's. */
  lemma ShownRemoveAt(ts: seq<BrowserTab>, vs: seq<View>, active: BrowserTab?, k: nat)
    requires |vs| == |ts| && k < |ts| && Shown(ts, vs, active)
    ensures Shown(RemoveAt(ts, k), RemoveAt(vs, k), active)
  {
    var ts', vs' := RemoveAt(ts, k), RemoveAt(vs, k);
    forall i | 0 <= i < |ts'| ensures vs'[i].visible <==> ts'[i] == active {
      var j := if i < k then i else i + 1;
      assert ts'[i] == ts[j] && vs'[i] == vs[j];
    }
  }

  /**
   * The title notification of a tab's view: a missing title is ignored;
   * otherwise the tab takes the title and its button the caption of it.
   */
  method OnTitleChanged(tab: BrowserTab, newValue: Option<string>)
    requires tab.tabButton != null
    modifies tab`title, tab.tabButton`content
    ensures newValue.None? ==> tab.title == old(tab.title) && tab.tabButton.content == old(tab.tabButton.content)
    ensures newValue.Some? ==> tab.title == newValue.value && tab.tabButton.content == TabLabel(newValue.value)
    ensures |tab.tabButton.content| <= LabelLimit + |Ellipsis| || newValue.None?
  {
    if newValue.None? {
      return;
    }
    tab.title := newValue.value;
    tab.tabButton.content := TabLabel(tab.title);
  }

  /** The loading notification of a tab's view: the tab records the new state. */
  method OnLoadingStateChanged(tab: BrowserTab, isLoading: bool)
    modifies tab`isLoading
    ensures tab.isLoading == isLoading
  {
    tab.isLoading := isLoading;
  }

  /** The session file on disk; `SaveSession` replaces its contents. */
  class SessionStore {
    var file: StoredFile

    constructor (file: StoredFile)
      ensures this.file == file
    {
      this.file := file;
    }
  }

  class BrowserWindow {
    var tabs: seq<BrowserTab>
    var activeTab: BrowserTab?
    /** The text of the address bar; typing into it assigns this field. */
    var addressBar: string
    /** The next tab identifier to hand out; stands for `Guid.NewGuid()`. */
    var nextGuid: Guid
    /** The view of each tab, in tab order. */
    ghost var views: seq<View>
    /** The id of each tab, in tab order. */
    ghost var ids: seq<Guid>

    /** The position of the active tab in the list, or -1. */
    ghost function ActiveIndex(): int
      reads this`tabs, this`activeTab
    {
      IndexOf(tabs, activeTab)
    }

    /** The view of the active tab, the one an activation hides. */
    ghost function ActiveView(): set<View>
      reads this`activeTab, activeTab
    {
      if activeTab == null || activeTab.browser == null then {} else {activeTab.browser}
    }

    /**
     * Every listed tab has its button, which carries the tab's id, and a
     * view of its own; ids are distinct and already handed out.
     */
    ghost predicate WellFormed()
      reads this`tabs, this`views, this`ids, this`nextGuid, tabs`browser, tabs`id, tabs`tabButton
    {
      Registered(tabs, views, ids, nextGuid)
    }

    /** The active tab is a listed tab whenever there is one, and only its view is visible. */
    ghost predicate Valid()
      reads this`tabs, this`views, this`ids, this`nextGuid, this`activeTab
      reads tabs`browser, tabs`id, tabs`tabButton, views`visible
    {
      && WellFormed()
      && (activeTab == null <==> tabs == [])
      && (activeTab != null ==> activeTab in tabs)
      && Shown(tabs, views, activeTab)
    }

    /** Two positions holding the same tab are the same position. */
    lemma TabAt(k: int, t: BrowserTab)
      requires WellFormed() && 0 <= k < |tabs| && tabs[k] == t
      ensures IndexOf(tabs, t) == k
    {
      var j := IndexOf(tabs, t);
      assert t in tabs[..k + 1];
      assert 0 <= j <= k && tabs[j] == t;
      assert Elem(views, j) == Elem(views, k);
    }

    /**
     * The window after start-up: the saved session is restored, and a single
     * home tab is opened when it restores nothing.
     */
    constructor (file: StoredFile)
      ensures Valid() && |tabs| >= 1
      ensures EntriesOf(file) == [] ==>
        && |tabs| == 1 && tabs[0].url == HomeUrl && tabs[0].title == NewTabTitle
        && views[0].requested == [HomeUrl] && ActiveIndex() == 0
      ensures var entries := EntriesOf(file);
        entries != [] ==>
        && Pages() == EntryPages(entries)
        && (forall i :: 0 <= i < |entries| ==> views[i].requested == [entries[i].url])
        && ActiveIndex() == RestoredActive(entries)
    {
      tabs := [];
      activeTab := null;
      addressBar := "";
      nextGuid := EmptyGuid + 1;
      views := [];
      ids := [];
      new;
      LoadSession(file);
      if |tabs| == 0 {
        var home := CreateNewTab();
        TabAt(0, home);
      } else {
        RestoredWindow(EntriesOf(file));
      }
    }

    /** A window holding one tab per entry, with the restored active tab, shows the entries' pages. */
    lemma RestoredWindow(entries: seq<TabData>)
      requires Valid() && entries != [] && |tabs| == |entries|
      requires forall j :: 0 <= j < |entries| ==> tabs[j].url == entries[j].url && tabs[j].title == entries[j].title
      requires activeTab == tabs[RestoredActive(entries)]
      ensures Pages() == EntryPages(entries) && ActiveIndex() == RestoredActive(entries)
    {
      TabAt(RestoredActive(entries), activeTab);
      assert Pages() == EntryPages(entries);
    }

    /**
     * Shows `tab` and hides the previously active view. It is also used
     * half-way through a close, when the active tab has just left the list.
     */
    method ActivateTab(tab: BrowserTab)
      requires WellFormed() && tab in tabs
      requires forall i :: 0 <= i < |tabs| ==> views[i].visible ==> tabs[i] == activeTab
      modifies this`activeTab, this`addressBar, tab.browser`visible, ActiveView()`visible
      ensures Valid()
      ensures activeTab == tab && addressBar == tab.url
      ensures tabs == old(tabs) && views == old(views)
      ensures old(activeTab) == tab && old(tab.browser.visible) ==>
        forall i :: 0 <= i < |tabs| ==> views[i].visible == old(views[i].visible)
    {
      ghost var k := IndexOf(tabs, tab);
      if activeTab != null && activeTab.browser != null {
        activeTab.browser.visible := false;
      }
      activeTab := tab;
      tab.browser.visible := true;
      addressBar := tab.url;
      forall i | 0 <= i < |tabs| ensures views[i].visible <==> tabs[i] == activeTab {
        if i != k {
          assert Elem(views, i) != Elem(views, k);
        }
      }
    }

    /**
     * Opens a tab on `url`: a fresh record with a fresh id, its button and its
     * view, appended to the list and made active.
     */
    method CreateNewTab(url: string := HomeUrl, title: string := NewTabTitle) returns (tab: BrowserTab)
      requires Valid()
      modifies this, ActiveView()`visible
      ensures Valid()
      ensures tabs == old(tabs) + [tab] && views == old(views) + [tab.browser]
      ensures fresh(tab) && fresh(tab.browser) && fresh(tab.tabButton)
      ensures tab.id !in old(ids)
      ensures tab.url == url && tab.title == title && !tab.isLoading
      ensures tab.browser.requested == [url] && tab.tabButton.content == title
      ensures activeTab == tab && addressBar == url
    {
      tab := NewTabRecord(nextGuid, url, title);
      AddTab(tab);
      ghost var listed, shown := tabs, views;
      ActivateTab(tab);
      assert tabs == listed && views == shown;
    }

    /** Adds a new, hidden tab at the end of the list; its id is no longer handed out. */
    method AddTab(tab: BrowserTab)
      requires Valid()
      requires tab.id == nextGuid && tab.tabButton != null && tab.tabButton.tag == tab.id
      requires tab.browser != null && tab.browser !in views && !tab.browser.visible && !tab.browser.disposed
      modifies this`tabs, this`views, this`ids, this`nextGuid
      ensures WellFormed() && tab in tabs
      ensures forall i :: 0 <= i < |tabs| ==> views[i].visible ==> tabs[i] == activeTab
      ensures tabs == old(tabs) + [tab] && views == old(views) + [tab.browser]
      ensures ids == old(ids) + [tab.id] && nextGuid == old(nextGuid) + 1
    {
      DistinctAppend(ids, tab.id);
      DistinctAppend<View>(views, tab.browser);
      tabs, views, ids, nextGuid := tabs + [tab], views + [tab.browser], ids + [tab.id], nextGuid + 1;
    }

    /**
     * Restores the saved session: one tab per entry, in order, then the last
     * entry flagged active is activated (the last-created tab stays active
     * when none is flagged). A missing, unreadable or empty session restores
     * nothing.
     */
    method LoadSession(file: StoredFile)
      requires Valid() && tabs == []
      modifies this
      ensures Valid()
      ensures var entries := EntriesOf(file);
        && |tabs| == |entries|
        && (forall j :: 0 <= j < |entries| ==>
              && tabs[j].url == entries[j].url
              && tabs[j].title == entries[j].title
              && views[j].requested == [entries[j].url])
        && (entries != [] ==> activeTab == tabs[RestoredActive(entries)])
    {
      var entries := EntriesOf(file);
      if |entries| == 0 {
        return;
      }
      var restored := OpenEntries(entries);
      if restored != null {
        ActivateTab(restored);
      }
    }

    /**
     * The loop of `LoadSession`: one new tab per entry, in order; `restored`
     * is the tab of the last entry flagged active, if any.
     */
    method OpenEntries(entries: seq<TabData>) returns (restored: BrowserTab?)
      requires Valid() && tabs == [] && entries != []
      modifies this
      ensures Valid()
      ensures |tabs| == |entries|
      ensures forall j :: 0 <= j < |entries| ==>
              && tabs[j].url == entries[j].url
              && tabs[j].title == entries[j].title
              && views[j].requested == [entries[j].url]
      ensures restored == null ==> activeTab == tabs[RestoredActive(entries)]
      ensures restored != null ==> restored == tabs[RestoredActive(entries)]
      ensures restored != null ==> fresh(restored.browser)
      ensures fresh(activeTab.browser)
    {
      restored := null;
      var k := 0;
      while k < |entries|
        invariant 0 <= k <= |entries|
        invariant Opened(entries, k, restored)
        invariant activeTab != null ==> fresh(activeTab.browser)
        invariant restored != null ==> fresh(restored.browser)
      {
        restored := OpenEntry(entries, k, restored);
        k := k + 1;
      }
      OpenedAll(entries, restored);
    }

    /** The first `k` entries are open, in order, the last one active, and `restored` is the last flagged one. */
    ghost predicate Opened(entries: seq<TabData>, k: nat, restored: BrowserTab?)
      reads this, tabs, views
    {
      && k <= |entries|
      && Valid()
      && |tabs| == k
      && (forall j :: 0 <= j < k ==>
          && tabs[j].url == entries[j].url
          && tabs[j].title == entries[j].title
          && views[j].requested == [entries[j].url])
      && (k > 0 ==> activeTab == tabs[k - 1])
      && (LastActive(entries, k).None? ==> restored == null)
      && (LastActive(entries, k).Some? ==> restored == tabs[LastActive(entries, k).value])
    }

    /** All entries open: the loop's invariant at its exit, in the terms of `OpenEntries`. */
    lemma OpenedAll(entries: seq<TabData>, restored: BrowserTab?)
      requires entries != [] && Opened(entries, |entries|, restored)
      ensures Valid() && |tabs| == |entries|
      ensures forall j :: 0 <= j < |entries| ==>
              && tabs[j].url == entries[j].url
              && tabs[j].title == entries[j].title
              && views[j].requested == [entries[j].url]
      ensures restored == null ==> activeTab == tabs[RestoredActive(entries)]
      ensures restored != null ==> restored == tabs[RestoredActive(entries)]
    {
    }

    /** One turn of the loop of `LoadSession`: opens entry `k` and remembers it when it is flagged. */
    method OpenEntry(entries: seq<TabData>, k: nat, restored: BrowserTab?) returns (r: BrowserTab?)
      requires k < |entries| && Opened(entries, k, restored)
      modifies this, ActiveView()`visible
      ensures Opened(entries, k + 1, r)
      ensures fresh(activeTab.browser)
      ensures r == restored || r == activeTab
    {
      var tab := CreateNewTab(entries[k].url, entries[k].title);
      r := if entries[k].isActive then tab else restored;
    }

    /** Takes the first occurrence of `tab` out of the list, keeping the others in order. */
    method RemoveTab(tab: BrowserTab) returns (k: nat)
      requires WellFormed() && Shown(tabs, views, activeTab) && tab in tabs
      modifies this`tabs, this`views, this`ids
      ensures k < |old(tabs)| && old(tabs)[k] == tab && k == old(IndexOf(tabs, tab))
      ensures tabs == RemoveAt(old(tabs), k) && views == RemoveAt(old(views), k)
      ensures ids == RemoveAt(old(ids), k)
      ensures WellFormed() && Shown(tabs, views, activeTab)
    {
      k := IndexOf(tabs, tab);
      TabAt(k, tab);
      RegisteredRemoveAt(tabs, views, ids, nextGuid, k);
      ShownRemoveAt(tabs, views, activeTab, k);
      tabs, views, ids := RemoveAt(tabs, k), RemoveAt(views, k), RemoveAt(ids, k);
    }

    /**
     * What closing `tab` did, from the state before to the state after. The
     * only tab is sent to the home page and nothing else changes. Otherwise
     * the tab leaves the list and its view leaves the views and is disposed;
     * when it was the active tab the first remaining tab is activated and the
     * address bar shows its address, otherwise the active tab and the address
     * bar stay. No id is drawn, and no other listed view is reloaded or
     * disposed, either way.
     */
    twostate predicate Closed(tab: BrowserTab)
      reads this, tabs, views, tab, tab.browser
    {
      && tab.browser != null && old(tab.browser) == tab.browser
      && tab in old(tabs) && |old(views)| == |old(tabs)|
      && nextGuid == old(nextGuid)
      && (|old(tabs)| <= 1 ==>
            && tabs == old(tabs) && views == old(views)
            && activeTab == old(activeTab) && addressBar == old(addressBar)
            && tab.browser.requested == old(tab.browser.requested) + [HomeUrl]
            && tab.browser.disposed == old(tab.browser.disposed))
      && (|old(tabs)| > 1 ==>
            && tabs == RemoveAt(old(tabs), old(IndexOf(tabs, tab)))
            && views == RemoveAt(old(views), old(IndexOf(tabs, tab)))
            && tab !in tabs && tab.browser !in views && tab.browser.disposed
            // the views still listed are neither reloaded nor disposed
            && (forall v | v in views :: v.requested == old(v.requested) && v.disposed == old(v.disposed))
            && tab.browser.requested == old(tab.browser.requested)
            && (old(activeTab) == tab ==> activeTab == tabs[0] && addressBar == tabs[0].url)
            && (old(activeTab) != tab ==> activeTab == old(activeTab) && addressBar == old(addressBar)))
    }

    /**
     * Closes `tab`. The last tab is never removed: it is sent to the home
     * page instead. Otherwise the tab leaves the list, its view is disposed,
     * and when it was the active tab the first remaining tab is activated.
     */
    method CloseTab(tab: BrowserTab)
      requires Valid() && tab in tabs
      modifies this, tab.browser`requested, tab.browser`disposed, views`visible
      ensures Valid() && |tabs| >= 1
      ensures Closed(tab)
    {
      if |tabs| <= 1 {
        tab.browser.Load(HomeUrl);
      } else {
        DropTab(tab);
      }
    }

    /**
     * The part of `CloseTab` for a window with two tabs or more. The view is
     * disposed before the list is updated; nothing observes the order.
     */
    method DropTab(tab: BrowserTab)
      requires Valid() && tab in tabs && |tabs| > 1
      modifies this`tabs, this`views, this`ids, this`activeTab, this`addressBar, tab.browser`disposed, views`visible
      ensures Valid()
      ensures tabs == RemoveAt(old(tabs), old(IndexOf(tabs, tab)))
      ensures views == RemoveAt(old(views), old(IndexOf(tabs, tab)))
      ensures tab !in tabs && tab.browser !in views && tab.browser.disposed
      ensures old(activeTab) == tab ==> activeTab == tabs[0] && addressBar == tabs[0].url
      ensures old(activeTab) != tab ==> activeTab == old(activeTab) && addressBar == old(addressBar)
    {
      ghost var at := IndexOf(tabs, tab);
      TabAt(at, tab);
      RegisteredRemoveAt(tabs, views, ids, nextGuid, at);
      if activeTab != tab {
        InRemoveAt(tabs, at, activeTab);
      }
      tab.browser.Dispose();
      var k := RemoveTab(tab);
      if tab == activeTab {
        ActivateTab(tabs[0]);
      }
    }

    /**
     * The address notification of a tab's view: a missing address is
     * ignored; otherwise the tab takes it, and the address bar shows it only
     * when that tab is the active one.
     */
    method OnAddressChanged(tab: BrowserTab, newValue: Option<string>)
      modifies tab`url, this`addressBar
      ensures newValue.None? ==> tab.url == old(tab.url) && addressBar == old(addressBar)
      ensures newValue.Some? ==> tab.url == newValue.value
      ensures newValue.Some? && tab == activeTab ==> addressBar == newValue.value
      ensures newValue.Some? && tab != activeTab ==> addressBar == old(addressBar)
    {
      if newValue.None? {
        return;
      }
      tab.url := newValue.value;
      if tab != activeTab {
        return;
      }
      addressBar := tab.url;
    }

    /**
     * Enter in the address bar sends its text, with `https://` added when it
     * names no scheme, to the active tab's view; nothing else is loaded.
     */
    method AddressBarKeyDown(key: Key)
      requires Valid()
      modifies ActiveView()`requested
      ensures key == Enter && activeTab != null ==>
        activeTab.browser.requested == old(activeTab.browser.requested) + [NormalizeAddress(addressBar)]
      ensures key != Enter && activeTab != null ==>
        activeTab.browser.requested == old(activeTab.browser.requested)
    {
      if key != Enter || activeTab == null {
        return;
      }
      var url := addressBar;
      if !(HttpPrefix <= url) && !(HttpsPrefix <= url) {
        url := HttpsPrefix + url;
      }
      activeTab.browser.Load(url);
    }

    /** The first listed tab whose id is `id`, or null when there is none. */
    method FindTab(id: Guid) returns (tab: BrowserTab?)
      requires WellFormed()
      ensures tab == null <==> id !in ids
      ensures tab != null ==> tab.id == id && tab == tabs[IndexOf(ids, id)]
    {
      var i := 0;
      while i < |tabs|
        invariant 0 <= i <= |tabs|
        invariant id !in ids[..i]
      {
        if tabs[i].id == id {
          IndexOfFirst(ids, id, i);
          return tabs[i];
        }
        assert ids[..i + 1] == ids[..i] + [ids[i]];
        i := i + 1;
      }
      assert ids[..i] == ids;
      return null;
    }

    /** The button of the tab at position `i` carries an id that leads back to that tab. */
    lemma ButtonSelectsOwnTab(i: int)
      requires WellFormed() && 0 <= i < |tabs|
      ensures tabs[i].tabButton.tag in ids && IndexOf(ids, tabs[i].tabButton.tag) == i
    {
      forall j | 0 <= j < i ensures ids[..i][j] != ids[i] {
        assert Elem(ids, j) != Elem(ids, i);
      }
      IndexOfFirst(ids, ids[i], i);
    }

    /** A click on a tab's button activates the listed tab with the id it carries, if any. */
    method TabButtonClick(tag: Option<Guid>)
      requires Valid()
      modifies this`activeTab, this`addressBar, views`visible
      ensures Valid() && tabs == old(tabs)
      ensures tag.Some? && tag.value in ids ==>
        activeTab == tabs[IndexOf(ids, tag.value)] && addressBar == activeTab.url
      ensures !(tag.Some? && tag.value in ids) ==>
        && activeTab == old(activeTab) && addressBar == old(addressBar)
        && forall v | v in views :: v.visible == old(v.visible)
    {
      if tag.Some? {
        var tab := FindTab(tag.value);
        if tab != null {
          ActivateTab(tab);
        }
      }
    }

    /**
     * A click on a tab's close button closes the listed tab with the id it
     * carries, if any, as `CloseTab` does; otherwise nothing changes.
     */
    method CloseTabClick(tag: Option<Guid>)
      requires Valid()
      modifies this, views`requested, views`disposed, views`visible
      ensures Valid()
      ensures tag.Some? && tag.value in old(ids) ==> |tabs| >= 1 && Closed(old(tabs[IndexOf(ids, tag.value)]))
      ensures !(tag.Some? && tag.value in old(ids)) ==>
        && unchanged(this)
        && forall v | v in views :: unchanged(v)
    {
      if tag.None? {
        return;
      }
      var tab := FindTab(tag.value);
      if tab != null {
        TabAt(IndexOf(ids, tag.value), tab);
        CloseTab(tab);
      }
    }

    /** The address and title of each tab, in order. */
    ghost function Pages(): (pages: seq<Page>)
      reads this, tabs
      ensures |pages| == |tabs|
      ensures forall i :: 0 <= i < |tabs| ==> pages[i] == Page(tabs[i].url, tabs[i].title)
    {
      seq(|tabs|, i requires 0 <= i < |tabs| reads this, tabs => Page(tabs[i].url, tabs[i].title))
    }

    /**
     * The session document of the window: one entry per tab, in order, with
     * the tab's address and title, flagged when it is the active tab.
     */
    function SessionEntries(): (entries: seq<TabData>)
      reads this, tabs
      ensures |entries| == |tabs|
      ensures forall i :: 0 <= i < |tabs| ==>
        && entries[i].url == tabs[i].url && entries[i].title == tabs[i].title
        && (entries[i].isActive <==> tabs[i] == activeTab)
    {
      seq(|tabs|, i requires 0 <= i < |tabs| reads this, tabs => TabData(tabs[i].url, tabs[i].title, tabs[i] == activeTab))
    }

    /**
     * The saved session copies each tab's address and title in order and
     * flags exactly the active tab's entry.
     */
    lemma SessionEntriesProject()
      requires Valid()
      ensures SessionEntries() == Project(Pages(), ActiveIndex())
    {
      var entries, projected := SessionEntries(), Project(Pages(), ActiveIndex());
      forall i | 0 <= i < |tabs| ensures entries[i] == projected[i] {
        if tabs[i] == activeTab {
          TabAt(i, activeTab);
        }
      }
    }

    /**
     * Writes the session document; a failed write is swallowed. An empty
     * file reads as the JSON `null`, and a proper prefix of the document is
     * not a JSON document, so after a write that failed part-way the next
     * window restores nothing.
     */
    method SaveSession(store: SessionStore, outcome: WriteOutcome)
      modifies store
      ensures outcome == Written ==> store.file == Document(Some(SessionData(Some(SessionEntries()))))
      ensures outcome == NotOpened ==> store.file == old(store.file)
      ensures outcome == LeftEmpty ==> store.file == Document(None)
      ensures outcome == LeftPartial ==> store.file == Unreadable
      ensures outcome == LeftEmpty || outcome == LeftPartial ==> EntriesOf(store.file) == []
    {
      var sessionData := SessionData(Some(SessionEntries()));
      match outcome
      case Written =>
        store.file := Document(Some(sessionData));
      case NotOpened =>
      case LeftEmpty =>
        store.file := Document(None);
      case LeftPartial =>
        store.file := Unreadable;
    }

    /** Closing the window saves the session, then lets the guard forget the engine. */
    method Closing(store: SessionStore, outcome: WriteOutcome, init: CefSharpInitializer)
      requires init.Valid()
      modifies store, init`isInitialized
      ensures outcome == Written ==> store.file == Document(Some(SessionData(Some(SessionEntries()))))
      ensures outcome == NotOpened ==> store.file == old(store.file)
      ensures outcome != Written && outcome != NotOpened ==> EntriesOf(store.file) == []
      ensures init.Valid() && !init.isInitialized && unchanged(init.cef)
    {
      SaveSession(store, outcome);
      init.Shutdown();
    }
  }

  /**
   * Opening a window first makes sure the engine is up; when that fails the
   * window is not created.
   */
  method OpenBrowserWindow(init: CefSharpInitializer, localAppData: string, dirError: Option<string>,
                           engine: StartOutcome, file: StoredFile)
    returns (r: InitResult, w: BrowserWindow?)
    requires init.Valid()
    modifies init, init.cef
    ensures init.Valid() && init.cef.starts <= 1
    ensures r.Failed? <==> w == null
    ensures w != null ==> fresh(w) && w.Valid() && |w.tabs| >= 1 && init.isInitialized
  {
    r := init.Initialize(localAppData, dirError, engine);
    if r.Failed? {
      return r, null;
    }
    w := new BrowserWindow(file);
  }

  /**
   * Saving a window's session and opening a new window on the saved file
   * gives the same addresses and titles, in order, and the same active tab
   * position.
   */
  method SaveAndReopen(w: BrowserWindow, store: SessionStore) returns (w2: BrowserWindow)
    requires w.Valid() && w.tabs != []
    modifies store
    ensures w2.Valid() && w2.Pages() == old(w.Pages()) && w2.ActiveIndex() == old(w.ActiveIndex())
  {
    ghost var pages, active := w.Pages(), w.ActiveIndex();
    w.SessionEntriesProject();
    SaveLoadRoundTrip(pages, active);
    w.SaveSession(store, Written);
    ghost var entries := Project(pages, active);
    assert EntriesOf(store.file) == entries;
    w2 := new BrowserWindow(store.file);
  }
}
