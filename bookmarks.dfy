/**
 * The converter's extraction: one group per top-level folder of the
 * exported bookmarks page, each with its title, its timestamp and the
 * bookmarks found below it.
 */
module Bookmarks {
  import opened Wrappers
  import opened JsString
  import opened Timestamp
  import opened Dom
  import opened Selector

  /** What `getDateProperties` reads from a selection. */
  datatype DateProperties = DateProperties(dateRaw: Option<string>, date: Option<Date>)

  datatype Bookmark = Bookmark(title: string, href: Option<string>, dateRaw: Option<string>, date: Option<Date>)

  datatype Group = Group(groupTitle: string, dateRaw: Option<string>, date: Option<Date>, bookmarks: seq<Bookmark>)

  /** `body > dl > dt`: a top-level folder entry. */
  const GroupPattern: Pattern := ["body", "dl", "dt"]
  /** `h3`: a folder heading. */
  const TitlePattern: Pattern := ["h3"]
  /** `dl > dt > a`: a bookmark link. */
  const BookmarkPattern: Pattern := ["dl", "dt", "a"]

  /**
   * `$(pat, $context)` for a single-node context: the matches among the
   * context's descendants. The context is a folder entry, whose parent is an
   * element, so the whole selector has to match inside its subtree.
   */
  function Find(context: Node, pat: Pattern): (r: seq<Node>)
    ensures !context.Element? ==> r == []
    ensures forall i | 0 <= i < |r| :: r[i].Element? && (|pat| > 0 ==> r[i].tag == pat[|pat| - 1])
  {
    if context.Element? then Select(context.children, pat) else []
  }

  /** `getDateProperties($el)`: the `add_date` attribute of the selection's first node, exactly as written or absent, and the date it denotes. */
  function GetDateProperties(sel: seq<Node>): (r: DateProperties)
    ensures r.dateRaw.Some? <==> |sel| > 0 && sel[0].Element? && "add_date" in sel[0].attrs
    ensures r.dateRaw.Some? ==> r.dateRaw.value == sel[0].attrs["add_date"]
    ensures r.date.None? <==> r.dateRaw.None? || r.dateRaw == Some("")
    ensures r.date == ToDateObject(r.dateRaw)
  {
    var raw := Attr(sel, "add_date");
    DateProperties(raw, ToDateObject(raw))
  }

  /** The record of one link: its text untrimmed, its `href` or absent, and its dates; a missing attribute gives absent, never a failure. */
  function ProcessBookmark(a: Node): (r: Bookmark)
    ensures r.title == TextContent(a)
    ensures r.href.Some? <==> a.Element? && "href" in a.attrs
    ensures r.href.Some? ==> r.href.value == a.attrs["href"]
    ensures DateProperties(r.dateRaw, r.date) == GetDateProperties([a])
  {
    var props := GetDateProperties([a]);
    Bookmark(TextContent(a), Attr([a], "href"), props.dateRaw, props.date)
  }

  /** The `.map(...).toArray()` over the links: one record per link, in the links' order. */
  function ProcessLinks(links: seq<Node>): (r: seq<Bookmark>)
    ensures |r| == |links|
  {
    seq(|links|, i requires 0 <= i < |links| => ProcessBookmark(links[i]))
  }

  /** `processGroup($, $group)`. */
  function ProcessGroup(group: Node): (r: Group)
    ensures IsTrimmed(r.groupTitle)
    ensures r.bookmarks == ProcessLinks(Find(group, BookmarkPattern))
  {
    var titles := Find(group, TitlePattern);
    var props := GetDateProperties(titles);
    Group(Trim(TextOf(titles)), props.dateRaw, props.date, ProcessLinks(Find(group, BookmarkPattern)))
  }

  /** The "Process bookmarks" step: `$('body > dl > dt').map(processGroup)` over the whole document, whose top-level nodes are `doc`. */
  function ProcessBookmarks(doc: seq<Node>): (r: seq<Group>)
    ensures |r| == |Select(doc, GroupPattern)|
  {
    var groups := Select(doc, GroupPattern);
    seq(|groups|, i requires 0 <= i < |groups| => ProcessGroup(groups[i]))
  }

  /**
   * Exactly one group per `body > dl > dt` element of the document, in
   * document order: the i-th group is made from the i-th folder entry, every
   * folder entry has its group, and no entry is taken twice.
   */
  lemma GroupsOnePerFolder(doc: seq<Node>)
    ensures var ps, r := MatchPaths(doc, GroupPattern), ProcessBookmarks(doc);
      && |r| == |ps|
      && (forall i | 0 <= i < |r| ::
            Matches(doc, ps[i], GroupPattern) && r[i] == ProcessGroup(NodeAt(doc, ps[i])))
      && (forall p | Matches(doc, p, GroupPattern) :: p in ps)
      && StrictlyOrdered(ps)
  {
    var ps := MatchPaths(doc, GroupPattern);
    SelectExact(doc, GroupPattern);
    SelectInDocumentOrder(doc, GroupPattern);
    assert forall i | 0 <= i < |ps| :: ps[i] in ps;
  }

  /** The result is empty exactly when the document has no `body > dl > dt` element; in particular an empty document gives []. */
  lemma NoFoldersNoGroups(doc: seq<Node>)
    ensures ProcessBookmarks(doc) == [] <==> forall p :: !Matches(doc, p, GroupPattern)
  {
    var ps := MatchPaths(doc, GroupPattern);
    SelectExact(doc, GroupPattern);
    if ps != [] {
      assert ps[0] in ps;
    }
  }

  /**
   * The title is the trimmed text of every `h3` in the folder's subtree,
   * nested sub-folders' headings included, and trimming it again changes
   * nothing; the dates come from the first of those headings in document order.
   */
  lemma GroupTitleAndDate(group: Node)
    ensures var r, titles := ProcessGroup(group), Find(group, TitlePattern);
      && r.groupTitle == Trim(TextOf(titles))
      && Trim(r.groupTitle) == r.groupTitle
      && DateProperties(r.dateRaw, r.date) == GetDateProperties(titles)
    ensures group.Element? && MatchPaths(group.children, TitlePattern) != [] ==>
      var ps := MatchPaths(group.children, TitlePattern);
      && Matches(group.children, ps[0], TitlePattern)
      && ProcessGroup(group).dateRaw == Attr([NodeAt(group.children, ps[0])], "add_date")
      && forall i | 0 < i < |ps| :: Precedes(ps[0], ps[i])
  {
    TrimIdempotent(TextOf(Find(group, TitlePattern)));
    if group.Element? && MatchPaths(group.children, TitlePattern) != [] {
      FirstHeading(group);
    }
  }

  /** The first heading found is a match, comes before every other one, and supplies the group's `add_date`. */
  lemma FirstHeading(group: Node)
    requires group.Element? && MatchPaths(group.children, TitlePattern) != []
    ensures var ps := MatchPaths(group.children, TitlePattern);
      && Matches(group.children, ps[0], TitlePattern)
      && ProcessGroup(group).dateRaw == Attr([NodeAt(group.children, ps[0])], "add_date")
      && forall i | 0 < i < |ps| :: Precedes(ps[0], ps[i])
  {
    var ps := MatchPaths(group.children, TitlePattern);
    assert Matches(group.children, ps[0], TitlePattern) by {
      SelectExact(group.children, TitlePattern);
      assert ps[0] in ps;
    }
    assert forall i | 0 < i < |ps| :: Precedes(ps[0], ps[i]) by {
      SelectInDocumentOrder(group.children, TitlePattern);
    }
    assert Find(group, TitlePattern)[0] == NodeAt(group.children, ps[0]);
  }

  /**
   * One bookmark per `dl > dt > a` element in the folder's subtree, in
   * document order, anchors of nested sub-folders included.
   */
  lemma BookmarksOnePerAnchor(group: Node)
    requires group.Element?
    ensures var ps, bs := MatchPaths(group.children, BookmarkPattern), ProcessGroup(group).bookmarks;
      && |bs| == |ps|
      && (forall i | 0 <= i < |bs| ::
            Matches(group.children, ps[i], BookmarkPattern)
            && bs[i] == ProcessBookmark(NodeAt(group.children, ps[i])))
      && (forall p | Matches(group.children, p, BookmarkPattern) :: p in ps)
      && StrictlyOrdered(ps)
  {
    var ps := MatchPaths(group.children, BookmarkPattern);
    SelectExact(group.children, BookmarkPattern);
    SelectInDocumentOrder(group.children, BookmarkPattern);
    forall i | 0 <= i < |ps|
      ensures Matches(group.children, ps[i], BookmarkPattern)
      ensures ProcessGroup(group).bookmarks[i] == ProcessBookmark(NodeAt(group.children, ps[i]))
    {
      assert ps[i] in ps;
      BookmarkAt(group, i);
    }
  }

  /** The j-th bookmark is made from the anchor at the j-th matching path. */
  lemma BookmarkAt(group: Node, j: nat)
    requires group.Element? && j < |MatchPaths(group.children, BookmarkPattern)|
    ensures j < |ProcessGroup(group).bookmarks|
    ensures ProcessGroup(group).bookmarks[j] ==
      ProcessBookmark(NodeAt(group.children, MatchPaths(group.children, BookmarkPattern)[j]))
  {
    var links := Find(group, BookmarkPattern);
    assert links == Select(group.children, BookmarkPattern);
    assert ProcessLinks(links)[j] == ProcessBookmark(links[j]);
  }

  /** The bookmark made from the anchor at a matching path. */
  lemma BookmarkOfAnchor(group: Node, p: Path) returns (j: nat)
    requires group.Element? && Matches(group.children, p, BookmarkPattern)
    ensures j < |ProcessGroup(group).bookmarks|
    ensures ProcessGroup(group).bookmarks[j] == ProcessBookmark(NodeAt(group.children, p))
  {
    var ps := MatchPaths(group.children, BookmarkPattern);
    MatchFromExact(group.children, 0, [], BookmarkPattern, p);
    assert [] + TagsAlong(group.children, p) == TagsAlong(group.children, p);
    j :| 0 <= j < |ps| && ps[j] == p;
    BookmarkAt(group, j);
  }

  /** The anchor behind the i-th bookmark. */
  lemma AnchorOfBookmark(group: Node, i: nat) returns (p: Path)
    requires group.Element? && i < |ProcessGroup(group).bookmarks|
    ensures Matches(group.children, p, BookmarkPattern)
    ensures ProcessGroup(group).bookmarks[i] == ProcessBookmark(NodeAt(group.children, p))
  {
    var ps := MatchPaths(group.children, BookmarkPattern);
    p := ps[i];
    MatchFromExact(group.children, 0, [], BookmarkPattern, p);
    assert [] + TagsAlong(group.children, p) == TagsAlong(group.children, p);
    BookmarkAt(group, i);
  }

  /**
   * A sub-folder entry nested anywhere inside a folder loses nothing to it:
   * every bookmark the sub-folder would get, the enclosing folder gets too.
   */
  lemma SubfolderBookmarksRepeated(group: Node, q: Path)
    requires group.Element? && ValidPath(group.children, q) && NodeAt(group.children, q).Element?
    ensures forall b | b in ProcessGroup(NodeAt(group.children, q)).bookmarks :: b in ProcessGroup(group).bookmarks
  {
    var sub := NodeAt(group.children, q);
    var subMarks, marks := ProcessGroup(sub).bookmarks, ProcessGroup(group).bookmarks;
    forall b | b in subMarks ensures b in marks {
      var i :| 0 <= i < |subMarks| && subMarks[i] == b;
      var r := AnchorOfBookmark(sub, i);
      NestedMatch(group.children, q, r, BookmarkPattern);
      var j := BookmarkOfAnchor(group, q + r);
      assert marks[j] == b;
    }
  }
}
