/** Worked examples of the extraction on small exported pages. */
module Scenarios {
  import opened Wrappers
  import opened JsString
  import opened JsNumber
  import opened Timestamp
  import opened Dom
  import opened Selector
  import opened Bookmarks

  const Stamp: string := "1609459200000000"

  /** The browser's spelling of 1609459200000000 microseconds. */
  lemma StampSpelling()
    ensures DecimalString(1609459200000000) == Stamp
  {
    assert DecimalString(1) == "1";
    assert DecimalString(16) == "16";
    assert DecimalString(160) == "160";
    assert DecimalString(1609) == "1609";
    assert DecimalString(16094) == "16094";
    assert DecimalString(160945) == "160945";
    assert DecimalString(1609459) == "1609459";
    assert DecimalString(16094592) == "16094592";
    assert DecimalString(160945920) == "160945920";
    assert DecimalString(1609459200) == "1609459200";
    assert DecimalString(16094592000) == "16094592000";
    assert DecimalString(160945920000) == "160945920000";
    assert DecimalString(1609459200000) == "1609459200000";
    assert DecimalString(16094592000000) == "16094592000000";
    assert DecimalString(160945920000000) == "160945920000000";
    assert DecimalString(1609459200000000) == "1609459200000000";
  }

  /** `add_date="1609459200000000"` is 2021-01-01T00:00:00.000Z. */
  lemma StampIsNewYear2021()
    ensures ToDateObject(Some(Stamp)) == Some(Valid(1609459200000))
  {
    var us := 1609459200000000;
    assert ToDateObject(Some(DecimalString(us))) == Some(Valid(1609459200000)) by {
      ExportedTimestamp(us);
    }
    StampSpelling();
  }

  const WorkLink: Node := Element("a", map["href" := "https://example.com", "add_date" := Stamp], [Text("Example")])
  const WorkHeading: Node := Element("h3", map["add_date" := Stamp], [Text("Work")])
  const WorkList: Node := Element("dl", map[], [Element("dt", map[], [WorkLink])])
  const WorkFolder: Node := Element("dt", map[], [WorkHeading, WorkList])
  const WorkPage: seq<Node> := [Element("html", map[], [Element("body", map[], [Element("dl", map[], [WorkFolder])])])]

  /** The matches below a single node, seen from the one-element sequence holding it. */
  lemma MatchFromOne(n: Node, anc: seq<string>, pat: Pattern)
    ensures MatchFrom([n], 0, anc, pat) == Under(0, MatchNode(n, anc, pat))
  {
    assert MatchFrom([n], 1, anc, pat) == [];
  }

  lemma UnderOne(k: nat, q: Path)
    ensures Under(k, [q]) == [[k] + q]
  {
  }

  lemma UnderTwo(k: nat, q: Path, r: Path)
    ensures Under(k, [q, r]) == [[k] + q, [k] + r]
  {
  }

  lemma UnderEmpty(k: nat)
    ensures Under(k, []) == []
  {
  }

  const Above: seq<string> := ["html", "body", "dl", "dt"]

  lemma WorkHeadingHasNoFolder()
    ensures MatchNode(WorkHeading, Above, GroupPattern) == []
  {
    var pat := GroupPattern;
    assert (Above + ["h3"])[2..][2] == "h3" && "h3"[0] != pat[2][0];
    MatchFromOne(Text("Work"), Above + ["h3"], pat);
    UnderEmpty(0);
  }

  lemma WorkLinkHasNoFolder()
    ensures MatchNode(Element("dt", map[], [WorkLink]), Above + ["dl"], GroupPattern) == []
  {
    var pat := GroupPattern;
    assert Above + ["dl"] + ["dt"] == Above + ["dl", "dt"];
    assert (Above + ["dl", "dt"])[3..][0] == "dt" && "dt"[0] != pat[0][0];
    assert (Above + ["dl", "dt", "a"])[4..][2] == "a" && "a"[0] != pat[2][0];
    MatchFromOne(Text("Example"), Above + ["dl", "dt", "a"], pat);
    MatchFromOne(WorkLink, Above + ["dl", "dt"], pat);
    UnderEmpty(0);
  }

  lemma WorkListHasNoFolder()
    ensures MatchNode(WorkList, Above, GroupPattern) == []
  {
    var pat := GroupPattern;
    assert (Above + ["dl"])[2..][2] == "dl" && "dl"[1] != pat[2][1];
    WorkLinkHasNoFolder();
    MatchFromOne(Element("dt", map[], [WorkLink]), Above + ["dl"], pat);
    UnderEmpty(0);
  }

  lemma WorkFolderIsFolder()
    ensures MatchNode(WorkFolder, ["html", "body", "dl"], GroupPattern) == [[]]
  {
    var pat := GroupPattern;
    assert ["html", "body", "dl"] + ["dt"] == Above;
    WorkHeadingHasNoFolder();
    WorkListHasNoFolder();
    assert MatchFrom(WorkFolder.children, 2, Above, pat) == [];
    UnderEmpty(1);
    UnderEmpty(0);
    assert MatchFrom(WorkFolder.children, 0, Above, pat) == [];
    assert EndsWith(Above, pat);
  }

  /** An element with one child, which does not match itself, has the matches of its child. */
  lemma MatchOnlyChild(t: string, at: map<string, string>, c: Node, anc: seq<string>, pat: Pattern)
    requires !EndsWith(anc + [t], pat)
    ensures MatchNode(Element(t, at, [c]), anc, pat) == Under(0, MatchNode(c, anc + [t], pat))
  {
    MatchFromOne(c, anc + [t], pat);
  }

  lemma WorkFolderFound()
    ensures MatchPaths(WorkPage, GroupPattern) == [[0, 0, 0, 0]]
  {
    var pat := GroupPattern;
    var dl := Element("dl", map[], [WorkFolder]);
    var body := Element("body", map[], [dl]);
    WorkFolderIsFolder();
    assert ["html", "body"] + ["dl"] == ["html", "body", "dl"];
    assert ["html"] + ["body"] == ["html", "body"];
    assert [] + ["html"] == ["html"];
    assert !EndsWith(["html", "body", "dl"], pat);
    assert !EndsWith(["html", "body"], pat);
    assert !EndsWith(["html"], pat);
    MatchOnlyChild("dl", map[], WorkFolder, ["html", "body"], pat);
    UnderOne(0, []);
    assert [0] + [] == [0];
    assert MatchNode(dl, ["html", "body"], pat) == [[0]];
    MatchOnlyChild("body", map[], dl, ["html"], pat);
    UnderOne(0, [0]);
    assert [0] + [0] == [0, 0];
    assert MatchNode(body, ["html"], pat) == [[0, 0]];
    MatchOnlyChild("html", map[], body, [], pat);
    UnderOne(0, [0, 0]);
    assert [0] + [0, 0] == [0, 0, 0];
    assert MatchNode(WorkPage[0], [], pat) == [[0, 0, 0]];
    assert WorkPage == [WorkPage[0]];
    MatchFromOne(WorkPage[0], [], pat);
    UnderOne(0, [0, 0, 0]);
    assert [0] + [0, 0, 0] == [0, 0, 0, 0];
  }

  /** An element whose only child is text matches, or not, by its own tag alone. */
  lemma MatchTextLeaf(t: string, at: map<string, string>, d: string, anc: seq<string>, pat: Pattern)
    ensures MatchNode(Element(t, at, [Text(d)]), anc, pat) == if EndsWith(anc + [t], pat) then [[]] else []
  {
    MatchFromOne(Text(d), anc + [t], pat);
    UnderEmpty(0);
  }

  /** Matches below a two-element sequence: those of the first node, then those of the second. */
  lemma MatchFromTwo(m: Node, n: Node, anc: seq<string>, pat: Pattern)
    ensures MatchFrom([m, n], 0, anc, pat) == Under(0, MatchNode(m, anc, pat)) + Under(1, MatchNode(n, anc, pat))
  {
    assert MatchFrom([m, n], 2, anc, pat) == [];
  }

  lemma WorkListHeadings()
    ensures MatchNode(WorkList, [], TitlePattern) == []
  {
    var pat := TitlePattern;
    assert [] + ["dl"] == ["dl"] && ["dl"] + ["dt"] == ["dl", "dt"];
    assert ["dl", "dt"] + ["a"] == ["dl", "dt", "a"];
    LastTagDiffers(["dl"], pat);
    LastTagDiffers(["dl", "dt"], pat);
    LastTagDiffers(["dl", "dt", "a"], pat);
    MatchTextLeaf("a", WorkLink.attrs, "Example", ["dl", "dt"], pat);
    MatchOnlyChild("dt", map[], WorkLink, ["dl"], pat);
    UnderEmpty(0);
    MatchOnlyChild("dl", map[], Element("dt", map[], [WorkLink]), [], pat);
  }

  lemma WorkFolderHeadings()
    ensures MatchPaths(WorkFolder.children, TitlePattern) == [[0]]
  {
    var pat := TitlePattern;
    MatchTextLeaf("h3", map["add_date" := Stamp], "Work", [], pat);
    assert [] + ["h3"] == ["h3"] && EndsWith(["h3"], pat);
    WorkListHeadings();
    MatchFromTwo(WorkHeading, WorkList, [], pat);
    UnderOne(0, []);
    UnderEmpty(1);
    assert [0] + [] == [0];
  }

  lemma WorkListLinks()
    ensures MatchNode(WorkList, [], BookmarkPattern) == [[0, 0]]
  {
    var pat := BookmarkPattern;
    assert [] + ["dl"] == ["dl"] && ["dl"] + ["dt"] == ["dl", "dt"];
    assert ["dl", "dt"] + ["a"] == ["dl", "dt", "a"] && EndsWith(["dl", "dt", "a"], pat);
    LastTagDiffers(["dl"], pat);
    LastTagDiffers(["dl", "dt"], pat);
    MatchTextLeaf("a", WorkLink.attrs, "Example", ["dl", "dt"], pat);
    MatchOnlyChild("dt", map[], WorkLink, ["dl"], pat);
    UnderOne(0, []);
    assert [0] + [] == [0];
    MatchOnlyChild("dl", map[], Element("dt", map[], [WorkLink]), [], pat);
    UnderOne(0, [0]);
    assert [0] + [0] == [0, 0];
  }

  lemma WorkFolderLinks()
    ensures MatchPaths(WorkFolder.children, BookmarkPattern) == [[1, 0, 0]]
  {
    var pat := BookmarkPattern;
    MatchTextLeaf("h3", map["add_date" := Stamp], "Work", [], pat);
    assert [] + ["h3"] == ["h3"];
    LastTagDiffers(["h3"], pat);
    WorkListLinks();
    MatchFromTwo(WorkHeading, WorkList, [], pat);
    UnderEmpty(0);
    UnderOne(1, [0, 0]);
    assert [1] + [0, 0] == [1, 0, 0];
  }

  lemma WorkFolderFinds()
    ensures Find(WorkFolder, TitlePattern) == [WorkHeading]
    ensures Find(WorkFolder, BookmarkPattern) == [WorkLink]
  {
    WorkFolderHeadings();
    WorkFolderLinks();
    assert [1, 0, 0][1..] == [0, 0] && [0, 0][1..] == [0] && [0][1..] == [];
    assert NodeAt(WorkFolder.children, [1, 0, 0]) == WorkLink;
  }

  lemma WorkTitle()
    ensures Trim(TextOf([WorkHeading])) == "Work"
  {
    assert TextOf([Text("Work")]) == "Work" + TextOf([]);
    assert TextOf([WorkHeading]) == TextContent(WorkHeading) + TextOf([]);
    assert [] + "Work" + [] == "Work";
    TrimUnique([], "Work", []);
  }

  lemma WorkBookmark()
    ensures ProcessBookmark(WorkLink) == Bookmark("Example", Some("https://example.com"), Some(Stamp), Some(Valid(1609459200000)))
  {
    assert TextOf([Text("Example")]) == "Example" + TextOf([]);
    StampIsNewYear2021();
  }

  /** The folder of the example gives its title, its date, and its one bookmark. */
  lemma WorkGroup()
    ensures ProcessGroup(WorkFolder) ==
      Group("Work", Some(Stamp), Some(Valid(1609459200000)),
            [Bookmark("Example", Some("https://example.com"), Some(Stamp), Some(Valid(1609459200000)))])
  {
    WorkFolderFinds();
    WorkTitle();
    WorkBookmark();
    StampIsNewYear2021();
    assert ProcessLinks([WorkLink]) == [ProcessBookmark(WorkLink)];
  }

  /**
   * A page with one folder "Work" holding one link "Example", both stamped
   * 1609459200000000 microseconds, gives one group dated 2021-01-01T00:00:00Z
   * holding one bookmark of the same date.
   */
  lemma WorkExample()
    ensures ProcessBookmarks(WorkPage) ==
      [Group("Work", Some(Stamp), Some(Valid(1609459200000)),
             [Bookmark("Example", Some("https://example.com"), Some(Stamp), Some(Valid(1609459200000)))])]
  {
    WorkFolderFound();
    WorkGroup();
    assert [0, 0, 0, 0][1..] == [0, 0, 0] && [0, 0, 0][1..] == [0, 0] && [0, 0][1..] == [0] && [0][1..] == [];
    assert NodeAt(WorkPage, [0, 0, 0, 0]) == WorkFolder;
    assert Select(WorkPage, GroupPattern) == [WorkFolder];
  }

  /** An element with two children, which does not match itself, has the matches of its children in order. */
  lemma MatchTwoChildren(t: string, at: map<string, string>, c1: Node, c2: Node, anc: seq<string>, pat: Pattern)
    requires !EndsWith(anc + [t], pat)
    ensures MatchNode(Element(t, at, [c1, c2]), anc, pat) ==
      Under(0, MatchNode(c1, anc + [t], pat)) + Under(1, MatchNode(c2, anc + [t], pat))
  {
    MatchFromTwo(c1, c2, anc + [t], pat);
  }

  lemma LastTagDiffers(tags: seq<string>, pat: Pattern)
    requires |tags| > 0 && |pat| > 0 && tags[|tags| - 1] != pat[|pat| - 1]
    ensures !EndsWith(tags, pat)
  {
  }

  // A folder "Parent" holding a link "A" and a sub-folder "Child" that holds a link "B".
  const LinkA: Node := Element("a", map["href" := "https://a.example"], [Text("A")])
  const LinkB: Node := Element("a", map[], [Text("B")])
  const ParentHeading: Node := Element("h3", map["add_date" := "1000000"], [Text("\n Parent")])
  const ChildHeading: Node := Element("h3", map["add_date" := "2000000"], [Text("Child")])
  const ChildList: Node := Element("dl", map[], [Element("dt", map[], [LinkB])])
  const ChildFolder: Node := Element("dt", map[], [ChildHeading, ChildList])
  const ParentList: Node := Element("dl", map[], [Element("dt", map[], [LinkA]), ChildFolder])
  const ParentFolder: Node := Element("dt", map[], [ParentHeading, ParentList])

  lemma ChildFolderHeadings()
    ensures MatchNode(ChildFolder, ["dl"], TitlePattern) == [[0]]
  {
    var pat := TitlePattern;
    var d, dd := ["dl"], ["dl", "dt"];
    assert d + ["dt"] == dd;
    assert dd + ["h3"] == ["dl", "dt", "h3"] && EndsWith(dd + ["h3"], pat);
    LastTagDiffers(dd, pat);
    LastTagDiffers(dd + ["dl"], pat);
    LastTagDiffers(dd + ["dl", "dt"], pat);
    LastTagDiffers(dd + ["dl", "dt", "a"], pat);
    assert dd + ["dl"] + ["dt"] == dd + ["dl", "dt"];
    assert dd + ["dl", "dt"] + ["a"] == dd + ["dl", "dt", "a"];
    MatchTextLeaf("h3", ChildHeading.attrs, "Child", dd, pat);
    MatchTextLeaf("a", LinkB.attrs, "B", dd + ["dl", "dt"], pat);
    MatchOnlyChild("dt", map[], LinkB, dd + ["dl"], pat);
    MatchOnlyChild("dl", map[], Element("dt", map[], [LinkB]), dd, pat);
    UnderEmpty(0);
    UnderEmpty(1);
    MatchTwoChildren("dt", map[], ChildHeading, ChildList, d, pat);
    UnderOne(0, []);
    assert [0] + [] == [0];
  }

  lemma ParentListHeadings()
    ensures MatchNode(ParentList, [], TitlePattern) == [[1, 0]]
  {
    var pat := TitlePattern;
    var d, dd := ["dl"], ["dl", "dt"];
    assert [] + ["dl"] == d && d + ["dt"] == dd;
    LastTagDiffers(d, pat);
    LastTagDiffers(dd, pat);
    LastTagDiffers(dd + ["a"], pat);
    MatchTextLeaf("a", LinkA.attrs, "A", dd, pat);
    MatchOnlyChild("dt", map[], LinkA, d, pat);
    UnderEmpty(0);
    ChildFolderHeadings();
    MatchTwoChildren("dl", map[], Element("dt", map[], [LinkA]), ChildFolder, [], pat);
    UnderOne(1, [0]);
    assert [1] + [0] == [1, 0];
  }

  lemma ParentHeadings()
    ensures MatchPaths(ParentFolder.children, TitlePattern) == [[0], [1, 1, 0]]
  {
    var pat := TitlePattern;
    assert [] + ["h3"] == ["h3"] && EndsWith(["h3"], pat);
    MatchTextLeaf("h3", ParentHeading.attrs, "\n Parent", [], pat);
    ParentListHeadings();
    MatchFromTwo(ParentHeading, ParentList, [], pat);
    UnderOne(0, []);
    UnderOne(1, [1, 0]);
    assert [0] + [] == [0];
    assert [1] + [1, 0] == [1, 1, 0];
  }

  lemma ChildListLinks()
    ensures MatchNode(ChildList, ["dl", "dt"], BookmarkPattern) == [[0, 0]]
  {
    var pat := BookmarkPattern;
    var dd := ["dl", "dt"];
    LastTagDiffers(dd + ["dl"], pat);
    LastTagDiffers(dd + ["dl", "dt"], pat);
    assert dd + ["dl"] + ["dt"] == dd + ["dl", "dt"];
    assert dd + ["dl", "dt"] + ["a"] == dd + ["dl", "dt", "a"];
    assert (dd + ["dl", "dt", "a"])[2..] == pat && EndsWith(dd + ["dl", "dt", "a"], pat);
    MatchTextLeaf("a", LinkB.attrs, "B", dd + ["dl", "dt"], pat);
    UnderOne(0, []);
    assert [0] + [] == [0];
    MatchOnlyChild("dt", map[], LinkB, dd + ["dl"], pat);
    MatchOnlyChild("dl", map[], Element("dt", map[], [LinkB]), dd, pat);
    UnderOne(0, [0]);
    assert [0] + [0] == [0, 0];
  }

  lemma ChildFolderLinks()
    ensures MatchNode(ChildFolder, ["dl"], BookmarkPattern) == [[1, 0, 0]]
  {
    var pat := BookmarkPattern;
    var d, dd := ["dl"], ["dl", "dt"];
    assert d + ["dt"] == dd;
    LastTagDiffers(dd, pat);
    LastTagDiffers(dd + ["h3"], pat);
    MatchTextLeaf("h3", ChildHeading.attrs, "Child", dd, pat);
    ChildListLinks();
    MatchTwoChildren("dt", map[], ChildHeading, ChildList, d, pat);
    UnderEmpty(0);
    UnderOne(1, [0, 0]);
    assert [1] + [0, 0] == [1, 0, 0];
  }

  lemma LinkAEntryLinks()
    ensures MatchNode(Element("dt", map[], [LinkA]), ["dl"], BookmarkPattern) == [[0]]
  {
    var pat := BookmarkPattern;
    var d, dd := ["dl"], ["dl", "dt"];
    assert d + ["dt"] == dd;
    LastTagDiffers(dd, pat);
    assert (dd + ["a"])[0..] == pat && EndsWith(dd + ["a"], pat);
    MatchTextLeaf("a", LinkA.attrs, "A", dd, pat);
    UnderOne(0, []);
    assert [0] + [] == [0];
    MatchOnlyChild("dt", map[], LinkA, d, pat);
  }

  lemma ParentListLinks()
    ensures MatchNode(ParentList, [], BookmarkPattern) == [[0, 0], [1, 1, 0, 0]]
  {
    var pat := BookmarkPattern;
    assert [] + ["dl"] == ["dl"];
    LastTagDiffers(["dl"], pat);
    LinkAEntryLinks();
    ChildFolderLinks();
    MatchTwoChildren("dl", map[], Element("dt", map[], [LinkA]), ChildFolder, [], pat);
    UnderOne(0, [0]);
    UnderOne(1, [1, 0, 0]);
    assert [0] + [0] == [0, 0];
    assert [1] + [1, 0, 0] == [1, 1, 0, 0];
  }

  lemma ParentLinks()
    ensures MatchPaths(ParentFolder.children, BookmarkPattern) == [[1, 0, 0], [1, 1, 1, 0, 0]]
  {
    var pat := BookmarkPattern;
    assert [] + ["h3"] == ["h3"];
    LastTagDiffers(["h3"], pat);
    MatchTextLeaf("h3", ParentHeading.attrs, "\n Parent", [], pat);
    ParentListLinks();
    MatchFromTwo(ParentHeading, ParentList, [], pat);
    UnderEmpty(0);
    UnderTwo(1, [0, 0], [1, 1, 0, 0]);
    assert [1] + [0, 0] == [1, 0, 0] && [1] + [1, 1, 0, 0] == [1, 1, 1, 0, 0];
  }

  lemma ParentFinds()
    ensures Find(ParentFolder, TitlePattern) == [ParentHeading, ChildHeading]
    ensures Find(ParentFolder, BookmarkPattern) == [LinkA, LinkB]
  {
    ParentHeadings();
    ParentLinks();
    assert [1, 1, 0][1..] == [1, 0] && [1, 0][1..] == [0] && [0][1..] == [];
    assert NodeAt(ParentFolder.children, [1, 1, 0]) == ChildHeading;
    assert [1, 0, 0][1..] == [0, 0] && [0, 0][1..] == [0];
    assert NodeAt(ParentFolder.children, [1, 0, 0]) == LinkA;
    assert [1, 1, 1, 0, 0][1..] == [1, 1, 0, 0] && [1, 1, 0, 0][1..] == [1, 0, 0];
    assert NodeAt(ParentFolder.children, [1, 1, 1, 0, 0]) == LinkB;
  }

  lemma ParentText()
    ensures TextOf([ParentHeading, ChildHeading]) == "\n ParentChild"
  {
    assert [ParentHeading, ChildHeading] == [ParentHeading] + [ChildHeading];
    TextOfAppend([ParentHeading], [ChildHeading]);
    assert TextOf([ParentHeading]) == "\n Parent";
    assert TextOf([ChildHeading]) == "Child";
  }

  /** Both headings of the subtree make the title, trimmed as a whole. */
  lemma ParentTitle()
    ensures Trim(TextOf([ParentHeading, ChildHeading])) == "ParentChild"
  {
    ParentText();
    assert "\n ParentChild" == "\n " + "ParentChild" + [];
    assert IsWhiteSpace('\n') && IsWhiteSpace(' ');
    assert AllWhiteSpace("\n ");
    assert !IsWhiteSpace('P') && !IsWhiteSpace('d');
    TrimUnique("\n ", "ParentChild", []);
  }

  lemma ParentStamp()
    ensures ToDateObject(Some("1000000")) == Some(Valid(1000))
  {
    assert DecimalString(1) == "1";
    assert DecimalString(10) == "10";
    assert DecimalString(100) == "100";
    assert DecimalString(1000) == "1000";
    assert DecimalString(10000) == "10000";
    assert DecimalString(100000) == "100000";
    assert DecimalString(1000000) == "1000000";
    ExportedTimestamp(1000000);
  }

  /** Links without `href` or `add_date` give absent fields; the text is kept as it is. */
  lemma ParentBookmarks()
    ensures ProcessLinks([LinkA, LinkB]) ==
      [Bookmark("A", Some("https://a.example"), None, None), Bookmark("B", None, None, None)]
  {
    assert TextOf([Text("A")]) == "A" + TextOf([]);
    assert TextOf([Text("B")]) == "B" + TextOf([]);
    assert ProcessBookmark(LinkA) == Bookmark("A", Some("https://a.example"), None, None);
    assert ProcessBookmark(LinkB) == Bookmark("B", None, None, None);
    assert ProcessLinks([LinkA, LinkB]) == [ProcessBookmark(LinkA), ProcessBookmark(LinkB)];
  }

  /**
   * A folder holding a sub-folder: the title joins the texts of both
   * headings, the date is the first heading's, and the bookmarks include
   * the sub-folder's link after the folder's own.
   */
  lemma NestedExample()
    ensures ProcessGroup(ParentFolder) ==
      Group("ParentChild", Some("1000000"), Some(Valid(1000)),
            [Bookmark("A", Some("https://a.example"), None, None), Bookmark("B", None, None, None)])
  {
    ParentFinds();
    ParentTitle();
    ParentStamp();
    ParentBookmarks();
  }

  /** A top-level entry holding a link but no folder. */
  const LooseEntry: Node := Element("dt", map[], [Element("a", map["href" := "https://loose.example"], [Text("Loose")])])

  /**
   * A top-level link entry is matched by `body > dl > dt` too, but its group
   * is empty: it has no heading, and its link is not below a `dl` inside the
   * entry, so `dl > dt > a` finds nothing there.
   */
  lemma LooseLinkGivesEmptyGroup()
    ensures ProcessGroup(LooseEntry) == Group("", None, None, [])
  {
    var link := LooseEntry.children[0];
    assert [] + ["dt"] == ["dt"];
    LastTagDiffers(["a"], TitlePattern);
    assert !EndsWith(["a"], BookmarkPattern);
    assert [] + ["a"] == ["a"];
    MatchTextLeaf("a", link.attrs, "Loose", [], TitlePattern);
    MatchTextLeaf("a", link.attrs, "Loose", [], BookmarkPattern);
    MatchFromOne(link, [], TitlePattern);
    MatchFromOne(link, [], BookmarkPattern);
    UnderEmpty(0);
  }
}
