/**
 * What the explorer puts on the page, as values instead of DOM nodes:
 * the breadcrumb trail (`renderNavigation`), the folder view
 * (`renderTreeView`), the grouped file lists (`renderGroupedFiles`), the
 * action a file link performs when clicked, and the page as a whole
 * (`renderFileTree`).
 */
module Render {
  import opened Wrappers
  import opened Strings
  import opened FileTree
  import opened Categorize

  // ---------------------------------------------------------------------
  // Locations and paths
  // ---------------------------------------------------------------------

  /** The location path with one leading `/` removed, and its segments. */
  datatype Location = Location(currentPath: string, parts: seq<string>)

  /** `renderFileTree`'s reading of `window.location.pathname`. */
  function ParseLocation(pathname: string): (loc: Location)
    ensures pathname == loc.currentPath || pathname == [Slash] + loc.currentPath
    ensures |pathname| > 0 && pathname[0] == Slash ==> pathname == [Slash] + loc.currentPath
    ensures loc.parts == [] <==> loc.currentPath == ""
    ensures Join(loc.parts) == loc.currentPath
    ensures forall i :: 0 <= i < |loc.parts| ==> Slash !in loc.parts[i]
  {
    var path := if |pathname| > 0 && pathname[0] == Slash then pathname[1..] else pathname;
    JoinSplit(path);
    Location(path, if path == "" then [] else Split(path))
  }

  /**
   * The store key of an entry of the current folder: `currentPath/name`, or
   * `name` at the root. Its segments are the folder's followed by the name.
   */
  function FullPath(currentPath: string, name: string): (key: string)
    ensures currentPath == "" ==> key == name
    ensures Slash !in name ==>
              Split(key) == (if currentPath == "" then [] else Split(currentPath)) + [name]
  {
    if currentPath == "" then
      SplitNoSlashIfFree(name);
      name
    else
      SegmentsOfChildKey(currentPath, name);
      currentPath + [Slash] + name
  }

  lemma SplitNoSlashIfFree(name: string)
    ensures Slash !in name ==> Split(name) == [name]
  {
    if Slash !in name {
      SplitNoSlash(name);
    }
  }

  /** Below a folder, `folder/name` splits into the folder's segments and the name. */
  lemma SegmentsOfChildKey(folder: string, name: string)
    ensures Slash !in name ==> Split(folder + [Slash] + name) == Split(folder) + [name]
  {
    if Slash !in name {
      var parts := Split(folder) + [name];
      JoinSplit(folder);
      JoinSnoc(Split(folder), name);
      forall i | 0 <= i < |parts| ensures Slash !in parts[i] {
        if i < |parts| - 1 {
          assert parts[i] == Split(folder)[i];
        }
      }
      SplitJoin(parts);
    }
  }

  /** A folder link `'/' + fullPath` leads one level down: its location has the entry's name appended. */
  lemma FolderLinkGoesOneLevelDown(pathname: string, name: string)
    requires Slash !in name
    requires ParseLocation(pathname).currentPath != "" || name != ""
    ensures ParseLocation([Slash] + FullPath(ParseLocation(pathname).currentPath, name)).parts ==
            ParseLocation(pathname).parts + [name]
  {
    var loc := ParseLocation(pathname);
    var target := [Slash] + FullPath(loc.currentPath, name);
    assert target[1..] == FullPath(loc.currentPath, name);
  }

  /**
   * A key that starts with `/` records a top-level folder whose name is the
   * empty string. That folder's link is `/`, the root again, so the folder
   * cannot be opened from the page.
   */
  lemma LeadingSlashKeyIsUnreachable(x: string)
    requires Slash !in x
    ensures Build([[Slash] + x]) == [Entry("", Dir([Entry(x, Leaf)]))]
    ensures ParseLocation([Slash] + FullPath("", "")).parts == []
  {
    var key := [Slash] + x;
    assert [] + [Slash] + x == key;
    SplitCons([], x);
    SplitNoSlash(x);
    assert Split(key) == ["", x];
    assert [key][..0] == [];
    assert ["", x][1..] == [x];
    assert Build([key]) == Insert([], ["", x]);
    assert Insert([], [x]) == [Entry(x, Leaf)];
    assert Child([], "") == [];
  }

  // ---------------------------------------------------------------------
  // Breadcrumbs
  // ---------------------------------------------------------------------

  /** A link, or a bare text node. */
  datatype NavItem = Anchor(href: string, text: string) | Text(text: string)

  /** The text node between two breadcrumb links. */
  const Separator: NavItem := Text(" / ")

  /**
   * A breadcrumb trail for `parts`: a Home link to `/`, then for each
   * segment a separator and a link to the path of the segments up to and
   * including it.
   */
  predicate IsTrail(nav: seq<NavItem>, parts: seq<string>) {
    && |nav| == 1 + 2 * |parts|
    && nav[0] == Anchor([Slash], "Home")
    && forall i :: 0 <= i < |parts| ==>
         nav[2 * i + 1] == Separator && nav[2 * i + 2] == Anchor([Slash] + Join(parts[..i + 1]), parts[i])
  }

  /** `renderNavigation`: `pathSoFar` accumulates the segments seen so far. */
  method RenderNavigation(parts: seq<string>) returns (nav: seq<NavItem>)
    ensures IsTrail(nav, parts)
  {
    nav := [Anchor([Slash], "Home")];
    var pathSoFar := "";
    for i := 0 to |parts|
      invariant |nav| == 1 + 2 * i
      invariant nav[0] == Anchor([Slash], "Home")
      invariant forall k :: 0 <= k < i ==>
                  nav[2 * k + 1] == Separator && nav[2 * k + 2] == Anchor([Slash] + Join(parts[..k + 1]), parts[k])
      invariant pathSoFar == Join(parts[..i])
    {
      nav := nav + [Separator];
      if i == 0 {
        assert parts[..1] == [parts[0]];
        pathSoFar := pathSoFar + parts[i];
      } else {
        assert parts[..i + 1] == parts[..i] + [parts[i]];
        JoinSnoc(parts[..i], parts[i]);
        pathSoFar := pathSoFar + [Slash] + parts[i];
      }
      nav := nav + [Anchor([Slash] + pathSoFar, parts[i])];
    }
  }

  /** The location `/2024/day1` has the segments `2024` and `day1`. */
  lemma ParseExample(pathname: string)
    requires pathname == "/2024/day1"
    ensures ParseLocation(pathname) == Location("2024/day1", ["2024", "day1"])
  {
    assert pathname[1..] == "2024" + [Slash] + "day1";
    SplitCons("2024", "day1");
    SplitNoSlash("day1");
  }

  /** The trail of a two-segment location such as `/2024/day1`: Home, `/2024`, `/2024/day1`. */
  lemma TwoSegmentTrail(a: string, b: string, nav: seq<NavItem>)
    requires IsTrail(nav, [a, b])
    ensures nav == [Anchor([Slash], "Home"), Separator, Anchor([Slash] + a, a), Separator, Anchor([Slash] + a + [Slash] + b, b)]
  {
    var parts := [a, b];
    assert parts[..1] == [a];
    assert parts[..2] == parts;
    assert Join(parts) == a + [Slash] + b;
    assert Join([a]) == a;
    assert nav[2] == Anchor([Slash] + Join([a]), a);
    assert nav[4] == Anchor([Slash] + Join(parts), b);
    var expected := [Anchor([Slash], "Home"), Separator, Anchor([Slash] + a, a), Separator, Anchor([Slash] + a + [Slash] + b, b)];
    assert [Slash] + Join(parts) == [Slash] + a + [Slash] + b;
    assert forall i :: 0 <= i < 5 ==> nav[i] == expected[i];
  }

  /**
   * The breadcrumb for segment `i` leads back to the location made of the
   * first `i + 1` segments, except when segment 0 is empty (a pathname such
   * as `//x`): its breadcrumb is `/`, the root.
   */
  lemma BreadcrumbLeadsToPrefix(pathname: string, i: nat)
    requires i < |ParseLocation(pathname).parts|
    ensures var parts := ParseLocation(pathname).parts;
      i > 0 || parts[0] != "" ==> ParseLocation([Slash] + Join(parts[..i + 1])).parts == parts[..i + 1]
    ensures var parts := ParseLocation(pathname).parts;
      i == 0 && parts[0] == "" ==> ParseLocation([Slash] + Join(parts[..i + 1])).parts == []
  {
    var parts := ParseLocation(pathname).parts;
    if i == 0 && parts[0] == "" {
      assert parts[..1] == [""];
      assert [Slash] + Join(parts[..1]) == [Slash];
    } else {
      var prefix := parts[..i + 1];
      forall k | 0 <= k < |prefix| ensures Slash !in prefix[k] {
        assert prefix[k] == parts[k];
      }
      PrefixLinkParses(prefix);
    }
  }

  /** A link to `/` plus the join of separator-free segments, not just one empty one, parses back to them. */
  lemma PrefixLinkParses(prefix: seq<string>)
    requires prefix != [] && prefix != [""]
    requires forall k :: 0 <= k < |prefix| ==> Slash !in prefix[k]
    ensures ParseLocation([Slash] + Join(prefix)).parts == prefix
  {
    var target := [Slash] + Join(prefix);
    assert target[1..] == Join(prefix);
    if |prefix| == 1 {
      assert Join(prefix) == prefix[0] != "";
    } else {
      assert Join(prefix) == prefix[0] + [Slash] + Join(prefix[1..]);
    }
    SplitJoin(prefix);
  }

  // ---------------------------------------------------------------------
  // Click actions
  // ---------------------------------------------------------------------

  datatype Action =
    | OpenInNewTab  // window.open(fileUrl, '_blank')
    | Download      // fetch the blob and save it under the file's name
    | ShowText      // fetch the text into the file-content area

  /** The click handler's choice, by the lower-cased name's extension; the same in both views. */
  function ClickAction(name: string): (action: Action)
    ensures action == OpenInNewTab <==> EndsWith(ToLower(name), ".html")
    ensures action == Download <==>
              EndsWith(ToLower(name), ".csv") || EndsWith(ToLower(name), ".xlsx") || EndsWith(ToLower(name), ".zip")
  {
    var lower := ToLower(name);
    ExtensionsExclusive(lower);
    EndsWithLastChar(lower, ".html");
    EndsWithLastChar(lower, ".xlsx");
    EndsWithLastChar(lower, ".zip");
    if EndsWith(lower, ".html") then OpenInNewTab
    else if EndsWith(lower, ".csv") || EndsWith(lower, ".xlsx") || EndsWith(lower, ".zip") then Download
    else ShowText
  }

  /**
   * What a click does for the members of each group that renders as links:
   * the spreadsheet, archive and summary groups download, the Thermal &
   * Glide pages open in a new tab, and in Other a fallen-through `.html`
   * still opens and a fallen-through `.csv` still downloads.
   */
  lemma ActionByGroup(name: string)
    requires !IsBlank(name)
    ensures Classify(name) == Some(SummaryXlsx) ==> ClickAction(name) == Download
    ensures Classify(name) == Some(ThermalGlideHtml) ==> ClickAction(name) == OpenInNewTab
    ensures Classify(name) == Some(DownloadIgcs) ==> ClickAction(name) == Download
    ensures Classify(name) == Some(SimplifiedSummaries) ==> ClickAction(name) == Download
    ensures Classify(name) == Some(Other) && EndsWith(ToLower(name), ".html") ==> ClickAction(name) == OpenInNewTab
    ensures Classify(name) == Some(Other) && EndsWith(ToLower(name), ".csv") ==> ClickAction(name) == Download
  {
    ClassifyFollowsChain(name);
    ExtensionsExclusive(ToLower(name));
    EndsWithLastChar(ToLower(name), ".html");
    EndsWithLastChar(ToLower(name), ".xlsx");
    EndsWithLastChar(ToLower(name), ".zip");
    EndsWithLastChar(ToLower(name), ".csv");
  }

  // ---------------------------------------------------------------------
  // Grouped view
  // ---------------------------------------------------------------------

  datatype Widget =
    | RaceResultsLink       // a "Race Results" link that follows the URL stored in the file
    | InlineImage           // an <img> showing the file
    | ActionLink(action: Action)
    | NoWidget              // an empty list item

  /** One list item: the file name, the store key it fetches, and what it shows. */
  datatype Item = Item(name: string, key: string, widget: Widget)

  /** A heading and its non-empty list. */
  datatype Section = Section(heading: string, items: seq<Item>)

  /** How `renderGroupedFiles` renders one file of group `c`. */
  function RenderItem(c: Category, name: string, currentPath: string): (item: Item)
    ensures item.name == name && item.key == FullPath(currentPath, name)
    ensures item.widget == NoWidget <==>
              c == CondorClub && !EndsWith(ToLower(name), ".txt") && !EndsWith(ToLower(name), "_task_image.jpg")
    ensures item.widget.ActionLink? <==> c != CondorClub && c != Images
    ensures c == CondorClub && EndsWith(ToLower(name), ".txt") ==> item.widget == RaceResultsLink
    ensures c == CondorClub && !EndsWith(ToLower(name), ".txt") && EndsWith(ToLower(name), "_task_image.jpg") ==>
              item.widget == InlineImage
    ensures c == Images ==> item.widget == InlineImage
    ensures c != CondorClub && c != Images ==> item.widget == ActionLink(ClickAction(name))
  {
    var lower := ToLower(name);
    var widget :=
      if c == CondorClub then
        (if EndsWith(lower, ".txt") then RaceResultsLink
         else if EndsWith(lower, "_task_image.jpg") then InlineImage
         else NoWidget)
      else if c == Images then InlineImage
      else ActionLink(ClickAction(name));
    Item(name, FullPath(currentPath, name), widget)
  }

  /** The list items of one group, in group order. */
  function RenderItems(c: Category, group: seq<string>, currentPath: string): seq<Item> {
    seq(|group|, i requires 0 <= i < |group| => RenderItem(c, group[i], currentPath))
  }

  /**
   * The sections for the groups of `cats`, in that order: a heading and its
   * items for each group present in `groups` with at least one name.
   */
  function SectionsFor(cats: seq<Category>, groups: Groups, currentPath: string): seq<Section>
    decreases |cats|
  {
    if cats == [] then []
    else
      var rest := SectionsFor(cats[1..], groups, currentPath);
      if cats[0] in groups && groups[cats[0]] != [] then
        [Section(Label(cats[0]), RenderItems(cats[0], groups[cats[0]], currentPath))] + rest
      else rest
  }

  /** The file names of all items of all sections, in page order. */
  function ShownNames(sections: seq<Section>): seq<string>
    decreases |sections|
  {
    if sections == [] then []
    else
      var items := sections[0].items;
      seq(|items|, i requires 0 <= i < |items| => items[i].name) + ShownNames(sections[1..])
  }

  /**
   * `renderGroupedFiles`: group the names, then render the groups in display
   * order; a group with no name gets no heading.
   */
  function RenderGroupedFiles(names: seq<string>, currentPath: string): (sections: seq<Section>)
    ensures ShownNames(sections) == Concat(Classify, names, DisplayOrder)
    ensures forall k :: 0 <= k < |sections| ==> sections[k].items != []
    ensures var occ := Occupied(Classify, names, DisplayOrder);
      && |sections| == |occ|
      && forall k :: 0 <= k < |occ| ==>
           sections[k] == Section(Label(occ[k]), RenderItems(occ[k], Filter(names, occ[k]), currentPath))
  {
    SectionsShowGroups(Classify, names, GroupsOf(names), DisplayOrder, currentPath);
    SectionsAreOccupiedGroups(Classify, names, GroupsOf(names), DisplayOrder, currentPath);
    SectionsFor(DisplayOrder, GroupsOf(names), currentPath)
  }

  /**
   * Over groups made by any classifier, the names shown are the groups'
   * lists one after another, and no section is empty.
   */
  lemma {:induction false} SectionsShowGroups(
    cls: string -> Option<Category>, names: seq<string>, groups: Groups, cats: seq<Category>, currentPath: string)
    requires forall c :: c in groups && groups[c] == GroupOf(cls, names, c)
    ensures ShownNames(SectionsFor(cats, groups, currentPath)) == Concat(cls, names, cats)
    ensures forall k :: 0 <= k < |SectionsFor(cats, groups, currentPath)| ==>
              SectionsFor(cats, groups, currentPath)[k].items != []
    decreases |cats|
  {
    if cats != [] {
      SectionsShowGroups(cls, names, groups, cats[1..], currentPath);
      var group := groups[cats[0]];
      var rest := SectionsFor(cats[1..], groups, currentPath);
      if group != [] {
        var items := RenderItems(cats[0], group, currentPath);
        var sections := [Section(Label(cats[0]), items)] + rest;
        assert sections[1..] == rest;
        assert seq(|items|, i requires 0 <= i < |items| => items[i].name) == group;
      }
    }
  }

  /** The categories of `cats` whose group under `cls` is not empty, in the order of `cats`. */
  function Occupied(cls: string -> Option<Category>, names: seq<string>, cats: seq<Category>): seq<Category>
    decreases |cats|
  {
    if cats == [] then []
    else (if GroupOf(cls, names, cats[0]) != [] then [cats[0]] else []) + Occupied(cls, names, cats[1..])
  }

  /** A category is occupied exactly when it is one of `cats` and its group is not empty. */
  lemma {:induction false} OccupiedMembers(cls: string -> Option<Category>, names: seq<string>, cats: seq<Category>, c: Category)
    ensures c in Occupied(cls, names, cats) <==> c in cats && GroupOf(cls, names, c) != []
    decreases |cats|
  {
    if cats != [] {
      OccupiedMembers(cls, names, cats[1..], c);
      var head := if GroupOf(cls, names, cats[0]) != [] then [cats[0]] else [];
      assert Occupied(cls, names, cats) == head + Occupied(cls, names, cats[1..]);
      assert c in cats <==> c == cats[0] || c in cats[1..];
    }
  }

  /** Distinct categories give distinct occupied categories. */
  lemma {:induction false} OccupiedDistinct(cls: string -> Option<Category>, names: seq<string>, cats: seq<Category>)
    requires forall i, j :: 0 <= i < j < |cats| ==> cats[i] != cats[j]
    ensures var occ := Occupied(cls, names, cats); forall i, j :: 0 <= i < j < |occ| ==> occ[i] != occ[j]
    decreases |cats|
  {
    if cats != [] {
      var tail := cats[1..];
      forall i, j | 0 <= i < j < |tail| ensures tail[i] != tail[j] {
        assert tail[i] == cats[i + 1] && tail[j] == cats[j + 1];
      }
      OccupiedDistinct(cls, names, tail);
      var rest := Occupied(cls, names, tail);
      if GroupOf(cls, names, cats[0]) != [] {
        var occ := [cats[0]] + rest;
        assert Occupied(cls, names, cats) == occ;
        assert cats[0] !in tail;
        OccupiedMembers(cls, names, tail, cats[0]);
        forall i, j | 0 <= i < j < |occ| ensures occ[i] != occ[j] {
          assert occ[j] == rest[j - 1];
          if i > 0 {
            assert occ[i] == rest[i - 1];
          }
        }
      } else {
        assert Occupied(cls, names, cats) == rest;
      }
    }
  }

  /**
   * Over groups made by any classifier, the k-th section is the heading and
   * the rendered list of the k-th occupied category: one section per
   * non-empty group, in the order of `cats`.
   */
  lemma {:induction false} SectionsAreOccupiedGroups(
    cls: string -> Option<Category>, names: seq<string>, groups: Groups, cats: seq<Category>, currentPath: string)
    requires forall c :: c in groups && groups[c] == GroupOf(cls, names, c)
    ensures var occ := Occupied(cls, names, cats); var sections := SectionsFor(cats, groups, currentPath);
      && |sections| == |occ|
      && forall k :: 0 <= k < |occ| ==>
           sections[k] == Section(Label(occ[k]), RenderItems(occ[k], GroupOf(cls, names, occ[k]), currentPath))
    decreases |cats|
  {
    if cats != [] {
      SectionsAreOccupiedGroups(cls, names, groups, cats[1..], currentPath);
      var c := cats[0];
      var rest := SectionsFor(cats[1..], groups, currentPath);
      var occRest := Occupied(cls, names, cats[1..]);
      if GroupOf(cls, names, c) != [] {
        var sections := [Section(Label(c), RenderItems(c, GroupOf(cls, names, c), currentPath))] + rest;
        var occ := [c] + occRest;
        assert SectionsFor(cats, groups, currentPath) == sections;
        assert Occupied(cls, names, cats) == occ;
        forall k | 0 <= k < |occ|
          ensures sections[k] == Section(Label(occ[k]), RenderItems(occ[k], GroupOf(cls, names, occ[k]), currentPath))
        {
          if k > 0 {
            assert sections[k] == rest[k - 1] && occ[k] == occRest[k - 1];
          }
        }
      } else {
        assert SectionsFor(cats, groups, currentPath) == rest;
        assert Occupied(cls, names, cats) == occRest;
      }
    }
  }

  /**
   * The grouped view has one section per non-empty group and no group twice:
   * its headings are those of the occupied groups, in display order.
   */
  lemma GroupedViewSections(names: seq<string>, currentPath: string)
    ensures var occ := Occupied(Classify, names, DisplayOrder); var sections := RenderGroupedFiles(names, currentPath);
      && (forall c :: c in occ <==> Filter(names, c) != [])
      && (forall i, j :: 0 <= i < j < |occ| ==> occ[i] != occ[j])
      && |sections| == |occ|
      && forall k :: 0 <= k < |occ| ==> sections[k].heading == Label(occ[k])
  {
    var occ := Occupied(Classify, names, DisplayOrder);
    forall c ensures c in occ <==> Filter(names, c) != [] {
      DisplayOrderListsEachCategoryOnce(c);
      OccupiedMembers(Classify, names, DisplayOrder, c);
    }
    DisplayOrderListsEachCategoryOnce(SummaryXlsx);
    OccupiedDistinct(Classify, names, DisplayOrder);
  }

  /**
   * In the grouped view every name that is not blank is listed under the
   * heading of its own group, rendered as that group renders it.
   */
  lemma GroupedViewPlacesEachName(names: seq<string>, currentPath: string, n: string)
    requires n in names && !IsBlank(n)
    ensures Classify(n).Some?
    ensures var c := Classify(n).value; var sections := RenderGroupedFiles(names, currentPath);
      exists k, j :: 0 <= k < |sections| && 0 <= j < |sections[k].items| &&
        sections[k].heading == Label(c) && sections[k].items[j] == RenderItem(c, n, currentPath)
  {
    ClassifyTotal(n);
    DisplayOrderListsEachCategoryOnce(Classify(n).value);
    assert RenderGroupedFiles(names, currentPath) == SectionsFor(DisplayOrder, GroupsOf(names), currentPath);
    SectionsPlaceName(Classify, names, GroupsOf(names), DisplayOrder, currentPath, n, Classify(n).value);
  }

  /** Over groups made by any classifier, a name sent to one of `cats` is an item of that group's section. */
  lemma SectionsPlaceName(
    cls: string -> Option<Category>, names: seq<string>, groups: Groups, cats: seq<Category>, currentPath: string,
    n: string, c: Category)
    requires forall c :: c in groups && groups[c] == GroupOf(cls, names, c)
    requires n in names && cls(n) == Some(c) && c in cats
    ensures var sections := SectionsFor(cats, groups, currentPath);
      exists k, j :: 0 <= k < |sections| && 0 <= j < |sections[k].items| &&
        sections[k].heading == Label(c) && sections[k].items[j] == RenderItem(c, n, currentPath)
  {
    var sections := SectionsFor(cats, groups, currentPath);
    var occ := Occupied(cls, names, cats);
    var group := GroupOf(cls, names, c);
    GroupMembers(cls, names, c, n);
    OccupiedMembers(cls, names, cats, c);
    SectionsAreOccupiedGroups(cls, names, groups, cats, currentPath);
    var k :| 0 <= k < |occ| && occ[k] == c;
    var j :| 0 <= j < |group| && group[j] == n;
    assert sections[k] == Section(Label(c), RenderItems(c, group, currentPath));
    assert sections[k].items[j] == RenderItem(c, n, currentPath);
  }

  /** The grouped view shows every file name that is not blank exactly as often as it was listed, and no other. */
  lemma GroupedViewShowsValidNames(names: seq<string>, currentPath: string)
    ensures multiset(ShownNames(RenderGroupedFiles(names, currentPath))) == multiset(ValidNames(names))
  {
    SectionsShowGroups(Classify, names, GroupsOf(names), DisplayOrder, currentPath);
    GroupsPartitionValidNames(names);
  }

  /**
   * How each group's files render: Condor Club files are always a results
   * link (`.txt`) or an inline image, never an empty item; images are
   * inline; every other group is an action link with the same action the
   * folder view would give the file.
   */
  lemma WidgetByGroup(name: string, currentPath: string)
    requires !IsBlank(name)
    ensures Classify(name).Some?
    ensures var c := Classify(name).value; var w := RenderItem(c, name, currentPath).widget;
      && RenderItem(c, name, currentPath).key == FullPath(currentPath, name)
      && (c == CondorClub ==> w == (if EndsWith(ToLower(name), ".txt") then RaceResultsLink else InlineImage))
      && (c == Images ==> w == InlineImage)
      && (c != CondorClub && c != Images ==> w == ActionLink(ClickAction(name)))
      && w != NoWidget
  {
    ClassifyTotal(name);
    ClassifyFollowsChain(name);
  }

  // ---------------------------------------------------------------------
  // Folder view
  // ---------------------------------------------------------------------

  /** One entry of the plain folder listing. */
  datatype ListItem =
    | FileLink(name: string, key: string, action: Action)
    | FolderLink(name: string, href: string)

  datatype View =
    | Grouped(sections: seq<Section>)
    | Listing(items: seq<ListItem>)
      /** `Object.keys(null)` raises a TypeError: the location names a file, not a folder. */
    | NotAFolder

  /** `keys.every(key => subtree[key] === null)`; true of an empty folder. */
  predicate OnlyFiles(level: Level) {
    forall i :: 0 <= i < |level| ==> level[i].node == Leaf
  }

  function ListItemFor(entry: Entry, currentPath: string): ListItem {
    var fullPath := FullPath(currentPath, entry.name);
    if entry.node == Leaf then FileLink(entry.name, fullPath, ClickAction(entry.name))
    else FolderLink(entry.name, [Slash] + fullPath)
  }

  /**
   * `renderTreeView`: a file has no keys to show; a folder of files only is
   * shown grouped; any other folder is listed entry by entry.
   */
  function RenderTreeView(subtree: Node, currentPath: string): (view: View)
    ensures view == NotAFolder <==> subtree == Leaf
    ensures subtree.Dir? ==> (view.Grouped? <==> OnlyFiles(subtree.entries))
    ensures subtree.Dir? && OnlyFiles(subtree.entries) ==>
              view == Grouped(RenderGroupedFiles(Names(subtree.entries), currentPath))
    ensures subtree.Dir? && !OnlyFiles(subtree.entries) ==> view.Listing? && |view.items| == |subtree.entries|
  {
    match subtree
    case Leaf => NotAFolder
    case Dir(level) =>
      if OnlyFiles(level) then Grouped(RenderGroupedFiles(Names(level), currentPath))
      else Listing(seq(|level|, i requires 0 <= i < |level| => ListItemFor(level[i], currentPath)))
  }

  /**
   * A folder of files only lists, counted with repetitions, exactly its entry
   * names that are not blank.
   */
  lemma FolderOfFilesShowsItsNames(level: Level, currentPath: string)
    requires OnlyFiles(level)
    ensures RenderTreeView(Dir(level), currentPath).Grouped?
    ensures multiset(ShownNames(RenderTreeView(Dir(level), currentPath).sections)) == multiset(ValidNames(Names(level)))
  {
    GroupedViewShowsValidNames(Names(level), currentPath);
  }

  /**
   * The grouped view is chosen exactly when every entry is a file (an
   * empty folder included, which shows no section); otherwise every entry
   * is listed in key order, a file with its click action and a folder with
   * a link to its path.
   */
  lemma ViewChoice(level: Level, currentPath: string)
    ensures RenderTreeView(Dir(level), currentPath).Grouped? <==> OnlyFiles(level)
    ensures level == [] ==> RenderTreeView(Dir(level), currentPath) == Grouped([])
    ensures !OnlyFiles(level) ==>
      var items := RenderTreeView(Dir(level), currentPath).items;
      && |items| == |level|
      && forall i :: 0 <= i < |level| ==>
           && items[i].name == level[i].name
           && (level[i].node == Leaf <==> items[i].FileLink?)
           && (items[i].FileLink? ==> items[i].key == FullPath(currentPath, level[i].name)
                                      && items[i].action == ClickAction(level[i].name))
           && (items[i].FolderLink? ==> items[i].href == [Slash] + FullPath(currentPath, level[i].name))
  {
    if level == [] {
      assert Names(level) == [];
      assert RenderGroupedFiles([], currentPath) == [] by {
        forall c ensures Filter([], c) == [] { }
        EmptySections(DisplayOrder, GroupsOf([]), currentPath);
      }
    }
  }

  /** Groups that are all empty or absent give no section. */
  lemma {:induction false} EmptySections(cats: seq<Category>, groups: Groups, currentPath: string)
    requires forall k :: 0 <= k < |cats| ==> cats[k] !in groups || groups[cats[k]] == []
    ensures SectionsFor(cats, groups, currentPath) == []
    decreases |cats|
  {
    if cats != [] {
      EmptySections(cats[1..], groups, currentPath);
    }
  }

  /** The sections of two runs of groups are those of the first run followed by those of the second. */
  lemma {:induction false} SectionsAppend(a: seq<Category>, b: seq<Category>, groups: Groups, currentPath: string)
    ensures SectionsFor(a + b, groups, currentPath) == SectionsFor(a, groups, currentPath) + SectionsFor(b, groups, currentPath)
    decreases |a|
  {
    if a != [] {
      SectionsAppend(a[1..], b, groups, currentPath);
      assert (a + b)[0] == a[0] && (a + b)[1..] == a[1..] + b;
      var c := a[0];
      var first := if c in groups && groups[c] != [] then [Section(Label(c), RenderItems(c, groups[c], currentPath))] else [];
      assert SectionsFor(a, groups, currentPath) == first + SectionsFor(a[1..], groups, currentPath);
      assert SectionsFor(a + b, groups, currentPath) == first + SectionsFor(a[1..] + b, groups, currentPath);
    } else {
      assert a + b == b;
    }
  }

  // ---------------------------------------------------------------------
  // The page
  // ---------------------------------------------------------------------

  datatype Page =
    | NoFilesFound
    | Page(nav: seq<NavItem>, view: View)

  /**
   * What getting the subtree and rendering it yields: a walk that runs
   * into a file raises a TypeError after the breadcrumbs are drawn.
   */
  function ViewFor(walk: Subtree, currentPath: string): View {
    match walk
    case Found(node) => RenderTreeView(node, currentPath)
    case ThroughLeaf(_) => NotAFolder
  }

  /**
   * `renderFileTree`, given the key list the store returned (`None` when
   * the fetch failed or the reply has no key list) and the location path.
   */
  method RenderFileTree(listing: Option<seq<string>>, pathname: string) returns (page: Page)
    ensures listing.None? <==> page == NoFilesFound
    ensures listing.Some? ==>
      var loc := ParseLocation(pathname);
      && IsTrail(page.nav, loc.parts)
      && page.view == ViewFor(Resolve(Dir(Build(listing.value)), loc.parts), loc.currentPath)
  {
    if listing.None? {
      return NoFilesFound;
    }
    var tree := BuildFileTree(listing.value);
    var loc := ParseLocation(pathname);
    var nav := RenderNavigation(loc.parts);
    var subtree := GetSubtree(tree, loc.parts);
    page := Page(nav, ViewFor(subtree, loc.currentPath));
  }

  // ---------------------------------------------------------------------
  // An end-to-end example
  // ---------------------------------------------------------------------

  /** The first key of an empty tree makes a chain of fresh folders ending in a file. */
  lemma ExampleFirstKey(keys: seq<string>, top: string, d1: string, f1: string)
    requires |keys| >= 1 && Split(keys[0]) == [top, d1, f1]
    ensures Build(keys[..1]) == [Entry(top, Dir([Entry(d1, Dir([Entry(f1, Leaf)]))]))]
  {
    assert keys[..1][..0] == [] && keys[..1][0] == keys[0];
    assert [top, d1, f1][1..] == [d1, f1] && [d1, f1][1..] == [f1];
    assert Insert([], [d1, f1]) == [Entry(d1, Dir([Entry(f1, Leaf)]))];
  }

  /** A second key through the same folders adds its file after the first one. */
  lemma ExampleSecondKey(keys: seq<string>, top: string, d1: string, f1: string, f2: string)
    requires |keys| >= 2 && Split(keys[1]) == [top, d1, f2] && f1 != f2
    requires Build(keys[..1]) == [Entry(top, Dir([Entry(d1, Dir([Entry(f1, Leaf)]))]))]
    ensures Build(keys[..2]) == [Entry(top, Dir([Entry(d1, Dir([Entry(f1, Leaf), Entry(f2, Leaf)]))]))]
  {
    var day1 := [Entry(f1, Leaf)];
    assert keys[..2][..1] == keys[..1] && keys[..2][1] == keys[1];
    assert [top, d1, f2][1..] == [d1, f2] && [d1, f2][1..] == [f2];
    assert Put(day1, f2, Leaf) == [Entry(f1, Leaf), Entry(f2, Leaf)];
    assert Insert([Entry(d1, Dir(day1))], [d1, f2]) == [Entry(d1, Dir([Entry(f1, Leaf), Entry(f2, Leaf)]))];
  }

  /** A third key through a new sub-folder appends that sub-folder. */
  lemma ExampleThirdKey(keys: seq<string>, top: string, d1: string, d2: string, day1: Level, f3: string)
    requires |keys| == 3 && Split(keys[2]) == [top, d2, f3] && d1 != d2
    requires Build(keys[..2]) == [Entry(top, Dir([Entry(d1, Dir(day1))]))]
    ensures Build(keys) == [Entry(top, Dir([Entry(d1, Dir(day1)), Entry(d2, Dir([Entry(f3, Leaf)]))]))]
  {
    var folders := [Entry(d1, Dir(day1))];
    var added := Dir([Entry(f3, Leaf)]);
    assert keys[..2] == keys[..|keys| - 1];
    assert [top, d2, f3][1..] == [d2, f3] && [d2, f3][1..] == [f3];
    assert Find(folders, d2) == None by {
      assert folders[1..] == [];
    }
    assert Put(folders, d2, added) == folders + [Entry(d2, added)] by {
      assert folders[1..] == [];
    }
    assert Insert(folders, [d2, f3]) == folders + [Entry(d2, added)];
    assert folders + [Entry(d2, added)] == [Entry(d1, Dir(day1)), Entry(d2, added)];
  }

  /** Three keys under one top folder, the first two in the same sub-folder, build two sub-folders. */
  lemma ExampleTreeShape(keys: seq<string>, top: string, d1: string, d2: string, f1: string, f2: string, f3: string)
    requires |keys| == 3
    requires Split(keys[0]) == [top, d1, f1] && Split(keys[1]) == [top, d1, f2] && Split(keys[2]) == [top, d2, f3]
    requires d1 != d2 && f1 != f2
    ensures Build(keys) ==
      [Entry(top, Dir([Entry(d1, Dir([Entry(f1, Leaf), Entry(f2, Leaf)])), Entry(d2, Dir([Entry(f3, Leaf)]))]))]
  {
    ExampleFirstKey(keys, top, d1, f1);
    ExampleSecondKey(keys, top, d1, f1, f2);
    ExampleThirdKey(keys, top, d1, d2, [Entry(f1, Leaf), Entry(f2, Leaf)], f3);
  }

  /** Two names sent to two different groups make one-name groups and leave the rest empty. */
  lemma ExampleGroups(cls: string -> Option<Category>, f1: string, f2: string, a: Category, b: Category)
    requires cls(f1) == Some(a) && cls(f2) == Some(b) && a != b
    ensures forall c :: GroupOf(cls, [f1, f2], c) == if c == a then [f1] else if c == b then [f2] else []
  {
    var names := [f1, f2];
    GroupOfStep(cls, names, 0);
    GroupOfStep(cls, names, 1);
    assert names[..0] == [] && names[..2] == names;
  }

  /** Groups holding one workbook and one photo render a Summary xlsx section, then an Images section. */
  lemma ExampleSections(groups: Groups, f1: string, f2: string, currentPath: string)
    requires SummaryXlsx in groups && groups[SummaryXlsx] == [f1]
    requires Images in groups && groups[Images] == [f2]
    requires forall c :: c in groups && c != SummaryXlsx && c != Images ==> groups[c] == []
    ensures SectionsFor(DisplayOrder, groups, currentPath) ==
      [Section("Summary xlsx", RenderItems(SummaryXlsx, [f1], currentPath)),
       Section("Images", RenderItems(Images, [f2], currentPath))]
  {
    var middle := [ThermalGlideHtml, DownloadIgcs, SimplifiedSummaries, CondorClub];
    var head := [SummaryXlsx] + middle;
    var all := head + [Images] + [Other];
    assert all == DisplayOrder;
    var x1 := Section("Summary xlsx", RenderItems(SummaryXlsx, [f1], currentPath));
    var x2 := Section("Images", RenderItems(Images, [f2], currentPath));
    SingleSection(groups, SummaryXlsx, f1, currentPath);
    SingleSection(groups, Images, f2, currentPath);
    EmptySections(middle, groups, currentPath);
    EmptySections([Other], groups, currentPath);
    SectionsAppend([SummaryXlsx], middle, groups, currentPath);
    assert SectionsFor(head, groups, currentPath) == [x1];
    SectionsAppend(head, [Images], groups, currentPath);
    assert SectionsFor(head + [Images], groups, currentPath) == [x1, x2];
    SectionsAppend(head + [Images], [Other], groups, currentPath);
    assert SectionsFor(all, groups, currentPath) == [x1, x2];
  }

  /** A group of one name makes one section. */
  lemma SingleSection(groups: Groups, c: Category, name: string, currentPath: string)
    requires c in groups && groups[c] == [name]
    ensures SectionsFor([c], groups, currentPath) == [Section(Label(c), RenderItems(c, [name], currentPath))]
  {
  }

  /** A folder holding a workbook and then a photo shows a Summary xlsx section and an Images section. */
  lemma ExampleGroupedView(f1: string, f2: string, currentPath: string)
    requires Classify(f1) == Some(SummaryXlsx) && Classify(f2) == Some(Images)
    ensures RenderTreeView(Dir([Entry(f1, Leaf), Entry(f2, Leaf)]), currentPath) ==
      Grouped([Section("Summary xlsx", [Item(f1, FullPath(currentPath, f1), ActionLink(Download))]),
               Section("Images", [Item(f2, FullPath(currentPath, f2), InlineImage)])])
  {
    ExampleGroupsOf(f1, f2);
    ActionByGroup(f1);
    ExampleFolderView(f1, f2, currentPath);
  }

  /** The grouping of a workbook and a photo: one name in each of their groups, the rest empty. */
  lemma ExampleGroupsOf(f1: string, f2: string)
    requires Classify(f1) == Some(SummaryXlsx) && Classify(f2) == Some(Images)
    ensures forall c :: c in GroupsOf([f1, f2]) &&
              GroupsOf([f1, f2])[c] == if c == SummaryXlsx then [f1] else if c == Images then [f2] else []
  {
    ExampleGroups(Classify, f1, f2, SummaryXlsx, Images);
  }

  /** With that grouping, the folder of the two files renders the two sections. */
  lemma ExampleFolderView(f1: string, f2: string, currentPath: string)
    requires forall c :: c in GroupsOf([f1, f2]) &&
               GroupsOf([f1, f2])[c] == if c == SummaryXlsx then [f1] else if c == Images then [f2] else []
    requires ClickAction(f1) == Download
    ensures RenderTreeView(Dir([Entry(f1, Leaf), Entry(f2, Leaf)]), currentPath) ==
      Grouped([Section("Summary xlsx", [Item(f1, FullPath(currentPath, f1), ActionLink(Download))]),
               Section("Images", [Item(f2, FullPath(currentPath, f2), InlineImage)])])
  {
    TwoFilesAreGrouped(f1, f2, currentPath);
    ExampleSections(GroupsOf([f1, f2]), f1, f2, currentPath);
    ExampleItems(f1, f2, currentPath);
  }

  /** A workbook that downloads renders as a download link, and a photo renders inline. */
  lemma ExampleItems(f1: string, f2: string, currentPath: string)
    requires ClickAction(f1) == Download
    ensures RenderItems(SummaryXlsx, [f1], currentPath) == [Item(f1, FullPath(currentPath, f1), ActionLink(Download))]
    ensures RenderItems(Images, [f2], currentPath) == [Item(f2, FullPath(currentPath, f2), InlineImage)]
  {
    var link, image := RenderItem(SummaryXlsx, f1, currentPath), RenderItem(Images, f2, currentPath);
    assert link.widget == ActionLink(Download);
    assert image.widget == InlineImage;
    assert RenderItems(SummaryXlsx, [f1], currentPath) == [link];
    assert RenderItems(Images, [f2], currentPath) == [image];
  }

  /** A folder of two files takes the grouped view over its two names in key order. */
  lemma TwoFilesAreGrouped(f1: string, f2: string, currentPath: string)
    ensures RenderTreeView(Dir([Entry(f1, Leaf), Entry(f2, Leaf)]), currentPath) ==
            Grouped(SectionsFor(DisplayOrder, GroupsOf([f1, f2]), currentPath))
  {
    var level := [Entry(f1, Leaf), Entry(f2, Leaf)];
    assert OnlyFiles(level);
    assert Names(level) == [f1, f2];
  }

  /** A key of three separator-free segments splits into them. */
  lemma ThreeSegmentKey(key: string, a: string, b: string, c: string)
    requires Slash !in a && Slash !in b && Slash !in c
    requires key == a + [Slash] + b + [Slash] + c
    ensures Split(key) == [a, b, c]
  {
    var parts := [a, b, c];
    assert parts[1..] == [b, c] && parts[1..][1..] == [c];
    assert Join([b, c]) == b + [Slash] + c;
    assert Join(parts) == a + [Slash] + (b + [Slash] + c);
    assert key == Join(parts);
    SplitJoin(parts);
  }

  /** Walking the top folder and then the first sub-folder of that tree reaches the first sub-folder. */
  lemma ExampleResolve(top: string, d1: string, day1: Level, rest: Level)
    ensures Resolve(Dir([Entry(top, Dir([Entry(d1, Dir(day1))] + rest))]), [top, d1]) == Found(Dir(day1))
  {
    var year := [Entry(d1, Dir(day1))] + rest;
    assert [top, d1][1..] == [d1] && [d1][1..] == [];
    assert Find([Entry(top, Dir(year))], top) == Some(Dir(year));
    assert Find(year, d1) == Some(Dir(day1));
    assert Resolve(Dir(day1), []) == Found(Dir(day1));
    assert Resolve(Dir(year), [d1]) == Found(Dir(day1));
  }

  /** The example keys are made of these separator-free segments. */
  lemma ExampleKeySegments(keys: seq<string>, segments: seq<string>)
    requires keys == ["2024/day1/summary.xlsx", "2024/day1/photo.jpg", "2024/day2/results.zip"]
    requires segments == ["2024", "day1", "day2", "summary.xlsx", "photo.jpg", "results.zip"]
    ensures keys[0] == segments[0] + [Slash] + segments[1] + [Slash] + segments[3]
    ensures keys[1] == segments[0] + [Slash] + segments[1] + [Slash] + segments[4]
    ensures keys[2] == segments[0] + [Slash] + segments[2] + [Slash] + segments[5]
    ensures forall i :: 0 <= i < |segments| ==> Slash !in segments[i]
  {
    assert keys[0] == "2024/day1/summary.xlsx";
    assert keys[1] == "2024/day1/photo.jpg";
    assert keys[2] == "2024/day2/results.zip";
  }

  /**
   * Three keys, two days under one year: the tree has the folders `day1`
   * and `day2` under `2024`, and walking `2024/day1` reaches a folder of
   * two files.
   */
  lemma ExampleTree(keys: seq<string>)
    requires keys == ["2024/day1/summary.xlsx", "2024/day1/photo.jpg", "2024/day2/results.zip"]
    ensures Build(keys) ==
      [Entry("2024", Dir([Entry("day1", Dir([Entry("summary.xlsx", Leaf), Entry("photo.jpg", Leaf)])),
                          Entry("day2", Dir([Entry("results.zip", Leaf)]))]))]
    ensures Resolve(Dir(Build(keys)), ["2024", "day1"]) ==
      Found(Dir([Entry("summary.xlsx", Leaf), Entry("photo.jpg", Leaf)]))
  {
    var segments := ["2024", "day1", "day2", "summary.xlsx", "photo.jpg", "results.zip"];
    ExampleKeySegments(keys, segments);
    ThreeSegmentKey(keys[0], segments[0], segments[1], segments[3]);
    ThreeSegmentKey(keys[1], segments[0], segments[1], segments[4]);
    ThreeSegmentKey(keys[2], segments[0], segments[2], segments[5]);
    ExampleTreeShape(keys, "2024", "day1", "day2", "summary.xlsx", "photo.jpg", "results.zip");
    ExampleResolve("2024", "day1", [Entry("summary.xlsx", Leaf), Entry("photo.jpg", Leaf)],
                   [Entry("day2", Dir([Entry("results.zip", Leaf)]))]);
  }

  /** At `2024/day1`, the workbook is a download under Summary xlsx and the photo is inline under Images. */
  lemma ExampleDayView(f1: string, f2: string, currentPath: string)
    requires f1 == "summary.xlsx" && f2 == "photo.jpg"
    ensures RenderTreeView(Dir([Entry(f1, Leaf), Entry(f2, Leaf)]), currentPath) ==
      Grouped([Section("Summary xlsx", [Item(f1, FullPath(currentPath, f1), ActionLink(Download))]),
               Section("Images", [Item(f2, FullPath(currentPath, f2), InlineImage)])])
  {
    WorkbookIsSummaryXlsx(f1);
    PhotoIsImage(f2);
    ExampleGroupedView(f1, f2, currentPath);
  }
}
