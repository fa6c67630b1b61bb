# google-bookmarks-json, modelled in Dafny

The converter reads a browser's bookmarks export, which is a Netscape bookmark HTML
page, and writes it out as JSON. It makes one *group* for each top-level entry
(`body > dl > dt`), which is normally a folder, and gives each group three things:

- its title, which is the trimmed text of the folder's `h3` headings;
- its `add_date` as written, with the date it denotes;
- its *bookmarks*. There is one bookmark for each `dl > dt > a` link in the folder's subtree. A bookmark holds the link's text, its `href` and its dates.

A timestamp is a decimal count of microseconds. The converter drops its last three
characters and reads what is left as milliseconds for a JavaScript `Date`.

The model covers the part of the converter that only computes:

- `toDateObject`, `getDateProperties`, `processGroup`, and the group extraction of the
  "Process bookmarks" task, all in `src/index.ts`;
- the library behaviour they rely on: JavaScript's `slice`, `trim`, `Number`,
  `new Date`, and cheerio's `.attr`, `.text` and selector search.

The modules:

- `Wrappers`: the `Option` type. `None` stands for JavaScript's `undefined`.
- `JsString`: `String.prototype.slice` with ECMAScript's relative-index clamping, and
  `String.prototype.trim` with ECMAScript's set of white-space and line-terminator code
  points.
- `JsNumber`: `Number(string)` on the strings a timestamp can become. These are the
  empty string (0), digit strings, and signed digit strings. The module also has the
  decimal spelling a browser writes.
- `Timestamp`: `new Date(x)` with the range check of ECMA-262's TimeClip operation,
  and `toDateObject`.
- `Dom`: the parsed page as a tree of element, text and comment nodes. It has paths
  into the tree, the `textContent` that cheerio's `.text()` concatenates, and `.attr()`.
- `Selector`: the three selectors the converter uses. Each is a chain of type selectors
  joined by child combinators. Their matches are searched among the descendants of a
  context and returned in document order (Selectors Level 3, sections 8.1 and 8.2).
  `MatchPaths` enumerates the matches recursively. It is proved exact against
  `Matches`, a reference predicate stated on paths, and proved strictly increasing in
  document order.
- `Bookmarks`: the records and the extraction itself.
- `Scenarios`: worked examples on concrete pages.

How the folder context limits the search: in `$('h3', $group)` the context element has
an element parent, so cheerio's selector engine applies the whole selector inside the
context's subtree. `Find` models this as a search among the context's children and
their descendants. The top-level `$('body > dl > dt')` searches the whole document.

Three consequences of the scoped search are proved, not assumed:

- A folder's title joins the text of *every* `h3` in its subtree, nested sub-folders
  included. Its date comes from the first of those headings (`GroupTitleAndDate`,
  `NestedExample`).
- A folder's bookmarks include every link of its nested sub-folders
  (`SubfolderBookmarksRepeated`, `NestedExample`).
- A top-level entry that holds a link instead of a folder is matched by
  `body > dl > dt` as well. It gives a group with an empty title, no dates and no
  bookmarks, because its link is not below a `dl` inside the entry. Its link
  therefore lands in no group (`LooseLinkGivesEmptyGroup`).

The extraction is a function of the document, so running it twice on the same page
gives the same groups.

Two edge cases of `toDateObject`, as the code behaves:

- `toDateObject` also gives an absent date when `add_date` is the empty string. The
  empty string is falsy in JavaScript, just like `undefined`.
- A non-empty string of at most three characters gives the epoch rather than an
  absent date, because `s.slice(0, -3)` is `""` for such a string, and `Number("")` is 0. For digit
  strings this still agrees with "value divided by 1000": `MicrosecondsToMilliseconds`
  covers every non-empty digit string.

## Model

| member | source | states |
|---|---|---|
| `JsString.Slice` | src/index.ts:38 | `s.slice(start, end)`: both indices are clamped into the string, negative ones counted from the end; the result is the characters from the first index up to the second, and empty when the second does not lie after the first |
| `JsString.SliceDropsLast` | src/index.ts:38 | `s.slice(0, -k)` drops the last `k` characters, and is empty when `s` has no more than `k` |
| `JsString.Trim` | src/index.ts:52 | the trimmed title is a contiguous slice of the text; everything cut off on either side is white space; the result has white space at neither end |
| `JsString.TrimUnique` | src/index.ts:52 | any text made of white space, then a trimmed string, then white space, trims to exactly that string |
| `JsString.TrimIdempotent` | src/index.ts:52 | trimming a title again changes nothing |
| `JsNumber.StringToNumber` | src/index.ts:38 | `Number(s)` on the strings it models: `""` is 0, and a digit string is the number it denotes. Any other accepted string is a sign followed by digits, and a negative value comes only from a leading minus sign. Every other string is NaN (`None`) |
| `JsNumber.DigitsValueAppend` | src/index.ts:38 | the value of a concatenation of digit strings is the first value times 10 to the length of the second, plus the second value |
| `JsNumber.DropThreeDigits` | src/index.ts:38 | dropping the last three digits of a digit string divides its value by 1000, rounding down |
| `JsNumber.DecimalStringValue` | src/index.ts:38 | a browser's decimal spelling of a count is a digit string that reads back as that count |
| `JsNumber.NumberOfDecimalString` | src/index.ts:38 | `Number` inverts the decimal spelling, with or without a minus sign |
| `Timestamp.NewDate` | src/index.ts:38 | `new Date(x)` is valid exactly when `x` is a number of magnitude at most 8.64e15; its time value is then `x` |
| `Timestamp.ToDateObject` | src/index.ts:37-38 | the date is absent exactly when the argument is absent or the empty string |
| `Timestamp.MicrosecondsToMilliseconds` | src/index.ts:38 | for a non-empty digit string, the date is `new Date` of its value divided by 1000, rounding down |
| `Timestamp.ShortStringIsEpoch` | src/index.ts:38 | a non-empty string of at most three characters gives the epoch, not an absent date |
| `Timestamp.ExportedTimestamp` | src/index.ts:37-38 | a browser-written count of `us` microseconds gives the valid date `us / 1000` ms while that is within range, and Invalid Date beyond it |
| `Dom.Attr` | src/index.ts:41 | `.attr(name)` is present exactly when the selection's first node is an element carrying `name`; its value is then the attribute value as written |
| `Dom.TextContent` | src/index.ts:58 | the text of a link: a text node gives its data, a comment gives nothing, and an element with one child gives that child's text |
| `Dom.TextOf` | src/index.ts:52 | `.text()` of a selection: nothing for an empty selection, the node's text for a single node, and nothing for a selection of comments |
| `Dom.TextOfAppend` | src/index.ts:52 | the text of a selection is the text of its first part followed by the text of the rest |
| `Dom.TagsAlongAncestors` | src/index.ts:54 | each entry of a path's tag list is the tag of the ancestor at that depth, and that ancestor is an element. This is what makes `Matches` mean a chain of child combinators |
| `Selector.MatchPaths` | src/index.ts:54 | the selector search: every path it yields leads to an element of the selector's last type |
| `Selector.Select` | src/index.ts:50 | `$(selector, context)` returns the nodes at the enumerated match paths, one node per path, in the same order |
| `Selector.SelectExact` | src/index.ts:54 | a path is enumerated exactly when the reference predicate `Matches` holds for it (both directions) |
| `Selector.SelectInDocumentOrder` | src/index.ts:82 | the enumerated matches are strictly increasing in document order, so each match is returned once |
| `Selector.PrecedesTotal` | src/index.ts:82 | document order relates any two distinct node paths |
| `Selector.PrecedesTransitive` | src/index.ts:82 | document order is transitive |
| `Selector.PrecedesIrreflexive` | src/index.ts:82 | no node comes before itself |
| `Selector.NestedMatch` | src/index.ts:54 | a match below a nested element is also a match below any context containing it, and it is the same node |
| `Bookmarks.Find` | src/index.ts:50 | `$(selector, $group)`, also used at line 54: a non-element context finds nothing, and every node found is an element of the selector's last type. It searches the context's subtree only, which is faithful because a folder entry's parent is an element, so cheerio scopes the whole selector to the subtree |
| `Bookmarks.GetDateProperties` | src/index.ts:40-47 | `dateRaw` is the first node's `add_date` exactly as written, or absent when it is missing, and never a failure; `date` is `toDateObject(dateRaw)`, absent exactly when `dateRaw` is absent or empty |
| `Bookmarks.ProcessBookmark` | src/index.ts:56-61 | `title` is the link's text, untrimmed; `href` is present exactly when the link has one, with its value; the dates come from the link's own `add_date` |
| `Bookmarks.ProcessLinks` | src/index.ts:55-63 | one record per matched link |
| `Bookmarks.ProcessGroup` | src/index.ts:49-65 | the title has white space at neither end; the bookmarks are the records of the `dl > dt > a` matches in the folder's subtree |
| `Bookmarks.ProcessBookmarks` | src/index.ts:82-84 | one group per `body > dl > dt` match of the document |
| `Bookmarks.GroupsOnePerFolder` | src/index.ts:82-84 | the i-th group is made from the i-th folder entry; every `body > dl > dt` element has its group; the entries are in strict document order, so none is taken twice |
| `Bookmarks.NoFoldersNoGroups` | src/index.ts:82-84 | the result is empty exactly when the document has no `body > dl > dt` element |
| `Bookmarks.GroupTitleAndDate` | src/index.ts:50-53 | the title is the trimmed text of every `h3` in the folder's subtree, and trimming it again changes nothing; the date properties are those of the first of these headings, which precedes all the others in document order |
| `Bookmarks.FirstHeading` | src/index.ts:53 | the first heading found is a match, precedes every other heading found, and supplies the group's `add_date` |
| `Bookmarks.BookmarksOnePerAnchor` | src/index.ts:54-63 | one bookmark per `dl > dt > a` element of the folder's subtree, in strict document order, made from that link; every such link has its bookmark |
| `Bookmarks.BookmarkAt` | src/index.ts:54-63 | the j-th bookmark is made from the link at the j-th match path |
| `Bookmarks.BookmarkOfAnchor` | src/index.ts:54-63 | every matching link yields a bookmark of the group |
| `Bookmarks.AnchorOfBookmark` | src/index.ts:54-63 | every bookmark of the group comes from a matching link |
| `Bookmarks.SubfolderBookmarksRepeated` | src/index.ts:54 | every bookmark the group of a nested sub-folder entry would hold is also a bookmark of the enclosing folder's group |
| `Scenarios.StampIsNewYear2021` | src/index.ts:38 | `add_date="1609459200000000"` gives the date 1609459200000 ms, which is 2021-01-01T00:00:00.000Z |
| `Scenarios.ParentStamp` | src/index.ts:38 | `add_date="1000000"` gives the date 1000 ms |
| `Scenarios.WorkGroup` | src/index.ts:49-65 | the folder "Work" with one link "Example" gives its title, its dates and its one bookmark |
| `Scenarios.WorkExample` | src/index.ts:82-84 | a page with one folder "Work" holding one link "Example", both stamped 1609459200000000, gives a single group dated 2021-01-01 holding a single bookmark of the same date |
| `Scenarios.ParentTitle` | src/index.ts:52 | headings "\n Parent" and a nested "Child" make the title "ParentChild" |
| `Scenarios.ParentBookmarks` | src/index.ts:57-61 | a link with no `href` or `add_date` gives absent fields, not a failure |
| `Scenarios.LooseLinkGivesEmptyGroup` | src/index.ts:49-65 | a top-level entry holding only a link gives a group with an empty title, no dates and no bookmarks |
| `Scenarios.NestedExample` | src/index.ts:49-65 | a folder holding a link and a sub-folder with its own link: the title joins both headings, the date is that of the first heading, and the bookmarks hold both links in document order |

## Left out

- Reading the export and writing the JSON file, with their error messages (src/index.ts:19-35), are file I/O.
- JSON serialisation with two-space indentation (src/index.ts:31) is output formatting and is not modelled.
- HTML parsing (`cheerio.load`, src/index.ts:75) is a foreign library. The model takes the parsed tree as input. It assumes tag and attribute names are lower case, and it has no CDATA, processing-instruction or directive nodes.
- Cheerio's general selector engine is not modelled. Only chains of type selectors joined by `>` are, which covers the three selectors the converter uses.
- The Listr task runner, the shared `ctx` object and `tasks.run().catch` (src/index.ts:71-91, 110-112) are orchestration and asynchronous sequencing.
- The boxen banner and the pino logger (src/index.ts:13-15, 95-108) are console presentation.
- Timestamp.ToDateObject: reads every string other than the empty string and optionally signed digit strings as NaN. JavaScript's `Number` also accepts surrounding white space, fractions, exponents, `Infinity`, and `0x`/`0o`/`0b` prefixes. The model represents numbers as integers, not IEEE-754 doubles.
- Timestamp.ToDateObject: `slice` counts Unicode code points, while JavaScript counts UTF-16 code units. The two differ only for an `add_date` containing characters outside the Basic Multilingual Plane.
- Timestamp.NewDate: a `Date` is reduced to its time value in milliseconds. Calendar fields and the `toJSON` rendering are not modelled.
- Dom.Attr: cheerio's special cases of `.attr` for boolean attributes, `option` values and `input` values are not modelled. None of them applies to `add_date` or `href`.
- Bookmarks.ProcessGroup: the output is a `Group` record. Field order and the omission of absent fields in the JSON are serialisation and are not modelled.
