/** The persisted session document and the file that holds it. */
module SessionModel {
  import opened Wrappers
  import opened TabModel

  /** One persisted tab: address, title and whether it was the active one. */
  datatype TabData = TabData(url: string, title: string, isActive: bool)

  /** The document; `tabs` is `None` when the document holds a null list. */
  datatype SessionData = SessionData(tabs: Option<seq<TabData>>)

  /** A fresh entry: empty address, the new-tab title, not active. */
  const DefaultTabData: TabData := TabData("", NewTabTitle, false)

  /** A fresh document holds an empty list. */
  const DefaultSessionData: SessionData := SessionData(Some([]))

  /** An entry as the document spells it: each property may be missing. */
  datatype TabFields = TabFields(url: Option<string>, title: Option<string>, isActive: Option<bool>)

  /**
   * Reading an entry: a property that is present overrides the default of a
   * fresh entry, a missing one keeps it.
   */
  function DecodeTab(fields: TabFields): (d: TabData)
    ensures fields.url.Some? ==> d.url == fields.url.value
    ensures fields.title.Some? ==> d.title == fields.title.value
    ensures fields.isActive.Some? ==> d.isActive == fields.isActive.value
    ensures fields.url.None? ==> d.url == DefaultTabData.url
    ensures fields.title.None? ==> d.title == DefaultTabData.title
    ensures fields.isActive.None? ==> d.isActive == DefaultTabData.isActive
  {
    TabData(
      fields.url.GetOr(DefaultTabData.url),
      fields.title.GetOr(DefaultTabData.title),
      fields.isActive.GetOr(DefaultTabData.isActive))
  }

  /** Writing an entry spells every property; none is left missing. */
  function EncodeTab(d: TabData): (fields: TabFields)
    ensures fields.url.Some? && fields.title.Some? && fields.isActive.Some?
  {
    TabFields(Some(d.url), Some(d.title), Some(d.isActive))
  }

  /** An entry read back after being written is the entry written. */
  lemma DecodeEncodeTab(d: TabData)
    ensures DecodeTab(EncodeTab(d)) == d
  {
  }

  /** An entry with no properties reads as a fresh entry. */
  lemma EmptyEntryIsDefault()
    ensures DecodeTab(TabFields(None, None, None)) == DefaultTabData
    ensures DefaultTabData.url == "" && DefaultTabData.title == "New Tab" && !DefaultTabData.isActive
  {
  }

  /**
   * What the session file yields when it is read: nothing (missing), an
   * error (unreadable or not a document), or a document, possibly the
   * JSON `null`.
   */
  datatype StoredFile = NoFile | Unreadable | Document(data: Option<SessionData>)

  /**
   * How writing the session file ends. `File.WriteAllText` truncates the
   * file before it writes, so a write can fail with the file as it was (it
   * could not be opened), empty (nothing was written), or holding a proper
   * prefix of the text.
   */
  datatype WriteOutcome = Written | NotOpened | LeftEmpty | LeftPartial
}
