/** The live record of one browser tab. */
module TabModel {
  import opened Engine

  /** Tab identifiers; `Guid.Empty` is 0. */
  type Guid = nat

  const EmptyGuid: Guid := 0
  const NewTabTitle: string := "New Tab"

  /** The tab-selector button: its caption and the id of the tab it selects. */
  class TabButton {
    var content: string
    const tag: Guid

    constructor (content: string, tag: Guid)
      ensures this.content == content && this.tag == tag
    {
      this.content := content;
      this.tag := tag;
    }
  }

  /**
   * One tab. `tabButton` and `browser` are unset on a fresh record and are
   * filled in by the window when it creates the tab.
   */
  class BrowserTab {
    var id: Guid
    var url: string
    var title: string
    var tabButton: TabButton?
    var browser: View?
    var isLoading: bool

    /** A fresh record carries the declared defaults. */
    constructor ()
      ensures id == EmptyGuid && url == "" && title == NewTabTitle && !isLoading
      ensures tabButton == null && browser == null
    {
      id := EmptyGuid;
      url := "";
      title := NewTabTitle;
      tabButton := null;
      browser := null;
      isLoading := false;
    }
  }
}
