/**
 * The value-level rules of the tab window: the tab-selector caption, the
 * address-bar normalisation, the session projection on save, the choice of
 * tabs and active tab on load, and the context-menu commands.
 */
module TabLogic {
  import opened Wrappers
  import opened TabModel
  import opened SessionModel

  /** The home page, used for a new tab and for the last tab on close. */
  const HomeUrl: string := "https://www.google.com"

  const LabelLimit: nat := 20
  const Ellipsis: string := "..."

  /** The caption a title change puts on the tab-selector button. */
  function TabLabel(title: string): (caption: string)
    ensures |title| <= LabelLimit ==> caption == title
    ensures |title| > LabelLimit ==> caption == title[..LabelLimit] + Ellipsis
    ensures |caption| <= LabelLimit + |Ellipsis|
    ensures caption[..if |title| <= LabelLimit then |title| else LabelLimit] <= title
  {
    if |title| > LabelLimit then title[..LabelLimit] + Ellipsis else title
  }

  /** A caption is its own caption: truncating twice is truncating once. */
  lemma TabLabelIdempotent(title: string)
    ensures TabLabel(TabLabel(title)) == TabLabel(title)
  {
    if |title| > LabelLimit {
      var caption := TabLabel(title);
      assert caption[..LabelLimit] == title[..LabelLimit];
    }
  }

  /** Two titles of at most 20 characters share a caption only when they are equal. */
  lemma TabLabelShortInjective(a: string, b: string)
    requires |a| <= LabelLimit && |b| <= LabelLimit
    ensures TabLabel(a) == TabLabel(b) <==> a == b
  {
  }

  const HttpPrefix: string := "http://"
  const HttpsPrefix: string := "https://"

  /** The address starts with one of the two accepted schemes (ordinal comparison). */
  predicate HasScheme(s: string) {
    HttpPrefix <= s || HttpsPrefix <= s
  }

  /** Address-bar input as it is sent to the view: `https://` is added when no scheme is given. */
  function NormalizeAddress(input: string): (url: string)
    ensures HasScheme(url)
    ensures url == input <==> HasScheme(input)
    ensures !HasScheme(input) ==> url == HttpsPrefix + input
    ensures url[|url| - |input|..] == input
  {
    if HasScheme(input) then input else HttpsPrefix + input
  }

  /** Normalising an address a second time changes nothing. */
  lemma NormalizeAddressIdempotent(input: string)
    ensures NormalizeAddress(NormalizeAddress(input)) == NormalizeAddress(input)
  {
  }

  /** What a tab contributes to a session: its address and its title. */
  datatype Page = Page(url: string, title: string)

  /**
   * The session written on close: one entry per tab, in order, flagged
   * active exactly at the active position.
   */
  function Project(pages: seq<Page>, active: int): (entries: seq<TabData>)
    ensures |entries| == |pages|
    ensures forall i :: 0 <= i < |pages| ==>
      entries[i].url == pages[i].url && entries[i].title == pages[i].title
    ensures forall i :: 0 <= i < |pages| ==> (entries[i].isActive <==> i == active)
  {
    seq(|pages|, i requires 0 <= i < |pages| => TabData(pages[i].url, pages[i].title, i == active))
  }

  /** A projected session flags at most one entry. */
  lemma ProjectFlagsAtMostOne(pages: seq<Page>, active: int, i: int, j: int)
    requires 0 <= i < |pages| && 0 <= j < |pages|
    requires Project(pages, active)[i].isActive && Project(pages, active)[j].isActive
    ensures i == j
  {
  }

  /** The address and title of each entry, in order. */
  function EntryPages(entries: seq<TabData>): (pages: seq<Page>)
    ensures |pages| == |entries|
    ensures forall i :: 0 <= i < |entries| ==> pages[i] == Page(entries[i].url, entries[i].title)
  {
    seq(|entries|, i requires 0 <= i < |entries| => Page(entries[i].url, entries[i].title))
  }

  /** The position of the last entry flagged active among the first `n`, if any. */
  function LastActive(entries: seq<TabData>, n: nat): (k: Option<nat>)
    requires n <= |entries|
    ensures k.Some? ==> k.value < n && entries[k.value].isActive
    ensures k.Some? ==> forall j :: k.value < j < n ==> !entries[j].isActive
    ensures k.None? ==> forall j :: 0 <= j < n ==> !entries[j].isActive
  {
    if n == 0 then None
    else if entries[n - 1].isActive then Some(n - 1)
    else LastActive(entries, n - 1)
  }

  /**
   * The position of the tab active after a load: the last flagged entry, or
   * the last-created tab when none is flagged.
   */
  function RestoredActive(entries: seq<TabData>): (k: nat)
    requires |entries| > 0
    ensures k < |entries|
    ensures entries[k].isActive || (k == |entries| - 1 && forall j :: 0 <= j < |entries| ==> !entries[j].isActive)
    ensures forall j :: k < j < |entries| ==> !entries[j].isActive
  {
    match LastActive(entries, |entries|)
    case Some(k) => k
    case None => |entries| - 1
  }

  /**
   * The entries a load restores: none when the file is missing, unreadable,
   * null or holds a null or empty list.
   */
  function EntriesOf(file: StoredFile): (entries: seq<TabData>)
    ensures (file.Document? && file.data.Some? && file.data.value.tabs.Some?) ==> entries == file.data.value.tabs.value
    ensures !(file.Document? && file.data.Some? && file.data.value.tabs.Some?) ==> entries == []
  {
    match file
    case Document(Some(SessionData(Some(tabs)))) => tabs
    case _ => []
  }

  /** A document without a list of tabs, or with an empty one, loads like no file at all. */
  lemma EmptySessionIsNoSession()
    ensures EntriesOf(Document(Some(DefaultSessionData))) == EntriesOf(NoFile) == []
    ensures EntriesOf(Document(Some(SessionData(None)))) == []
    ensures EntriesOf(Document(None)) == EntriesOf(Unreadable) == []
  {
  }

  /**
   * Saving then loading gives back the addresses and titles in order and
   * the active position.
   */
  lemma SaveLoadRoundTrip(pages: seq<Page>, active: int)
    requires 0 <= active < |pages|
    ensures EntryPages(Project(pages, active)) == pages
    ensures RestoredActive(Project(pages, active)) == active
  {
    var entries := Project(pages, active);
    assert EntryPages(entries) == pages by {
      forall i | 0 <= i < |pages| ensures EntryPages(entries)[i] == pages[i] { }
    }
    assert entries[active].isActive;
  }

  /** The first position of `x` in `s`, or -1. */
  function IndexOf<T(==)>(s: seq<T>, x: T): (i: int)
    ensures -1 <= i < |s|
    ensures i >= 0 ==> s[i] == x && x !in s[..i]
    ensures i < 0 <==> x !in s
  {
    if s == [] then -1
    else if s[0] == x then 0
    else
      var j := IndexOf(s[1..], x);
      if j < 0 then -1
      else
        assert s[..j + 1] == [s[0]] + s[1..][..j];
        j + 1
  }

  /** The custom context-menu commands of the engine view. */
  const OpenLinkInNewTabCommand: int := 26500
  const CopyLinkAddressCommand: int := 26501
  const SearchSelectionCommand: int := 26502

  /** What a context-menu command does: a window action, or left to the engine. */
  datatype MenuAction =
    | OpenInNewTab(url: string)
    | CopyToClipboard(text: string)
    | SearchInNewTab(query: string)
    | LeaveToEngine

  /**
   * The handler of a context-menu command; an empty link or selection stands
   * for a null or empty one.
   */
  function ContextMenuCommand(commandId: int, linkUrl: string, selectionText: string): (a: MenuAction)
    ensures a != LeaveToEngine <==>
      ((commandId == OpenLinkInNewTabCommand || commandId == CopyLinkAddressCommand) && linkUrl != "")
      || (commandId == SearchSelectionCommand && selectionText != "")
    ensures a.OpenInNewTab? ==> commandId == OpenLinkInNewTabCommand && a.url == linkUrl
    ensures a.CopyToClipboard? ==> commandId == CopyLinkAddressCommand && a.text == linkUrl
    ensures a.SearchInNewTab? ==> commandId == SearchSelectionCommand && a.query == selectionText
  {
    if commandId == OpenLinkInNewTabCommand && linkUrl != "" then OpenInNewTab(linkUrl)
    else if commandId == CopyLinkAddressCommand && linkUrl != "" then CopyToClipboard(linkUrl)
    else if commandId == SearchSelectionCommand && selectionText != "" then SearchInNewTab(selectionText)
    else LeaveToEngine
  }
}
