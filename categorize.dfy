/**
 * `groupFiles`: sorting the file names of one folder into seven fixed
 * groups.
 *
 * The reference definition is a table: the groups in priority order, each
 * with the test a name must pass, and a name goes to the first group whose
 * test it passes. `AddFileName` follows the source's own nested `if` chain
 * with its `grouped` flag, `GroupFiles` calls it on each name in turn, and
 * both are proved to agree with the table.
 */
module Categorize {
  import opened Wrappers
  import opened Strings

  datatype Category =
    | SummaryXlsx
    | ThermalGlideHtml
    | DownloadIgcs
    | SimplifiedSummaries
    | CondorClub
    | Images
    | Other

  /** The group's key in the `groups` object, which is also its heading. */
  function Label(c: Category): string {
    match c
    case SummaryXlsx => "Summary xlsx"
    case ThermalGlideHtml => "Thermal & Glide html"
    case DownloadIgcs => "Download IGCs"
    case SimplifiedSummaries => "Simplified Summaries"
    case CondorClub => "Condor Club"
    case Images => "Images"
    case Other => "Other"
  }

  /** The order in which a name is tested against the groups. */
  const PriorityOrder: seq<Category> :=
    [CondorClub, SummaryXlsx, ThermalGlideHtml, DownloadIgcs, SimplifiedSummaries, Images, Other]

  /** Condor Club: a results pointer (`.txt` naming a competition day) or a task image. */
  predicate CondorRule(name: string) {
    var lower := ToLower(name);
    (EndsWith(lower, ".txt") && Contains(name, "Competition_day_")) || EndsWith(lower, "_task_image.jpg")
  }

  /** The test a name must pass to go to group `c`, tried in `PriorityOrder`. */
  predicate Matches(c: Category, name: string) {
    var lower := ToLower(name);
    match c
    case CondorClub => CondorRule(name)
    case SummaryXlsx => EndsWith(lower, ".xlsx")
    case ThermalGlideHtml =>
      EndsWith(lower, ".html") &&
      (Contains(lower, "summaryclimb_interactive") || Contains(lower, "groundspeed_vs_percent_time_spent"))
    case DownloadIgcs => EndsWith(lower, ".zip")
    case SimplifiedSummaries => EndsWith(lower, ".csv") && Contains(lower, "slim_summary")
    case Images => EndsWith(lower, ".jpg") || EndsWith(lower, ".jpeg") || EndsWith(lower, ".png")
    case Other => true
  }

  /** The first group of `order` whose test `name` passes. */
  function FirstMatch(order: seq<Category>, name: string): Option<Category>
    decreases |order|
  {
    if order == [] then None
    else if Matches(order[0], name) then Some(order[0])
    else FirstMatch(order[1..], name)
  }

  /** The group a name goes to; `None` for a blank name, which is logged and left out. */
  function Classify(name: string): Option<Category> {
    if IsBlank(name) then None else FirstMatch(PriorityOrder, name)
  }

  // ---------------------------------------------------------------------
  // First match
  // ---------------------------------------------------------------------

  /** `FirstMatch` only ever picks a group of the list it is given. */
  lemma {:induction false} FirstMatchInOrder(order: seq<Category>, name: string)
    ensures FirstMatch(order, name).Some? ==> FirstMatch(order, name).value in order
    decreases |order|
  {
    if order != [] && !Matches(order[0], name) {
      FirstMatchInOrder(order[1..], name);
    }
  }

  /** `FirstMatch` picks exactly the earliest group whose test passes. */
  lemma {:induction false} FirstMatchIsEarliest(order: seq<Category>, name: string, k: nat)
    requires k < |order|
    requires forall i, j :: 0 <= i < j < |order| ==> order[i] != order[j]
    ensures FirstMatch(order, name) == Some(order[k]) <==>
            Matches(order[k], name) && forall j :: 0 <= j < k ==> !Matches(order[j], name)
    decreases |order|
  {
    if k == 0 {
      if !Matches(order[0], name) {
        FirstMatchInOrder(order[1..], name);
        assert order[0] !in order[1..];
      }
    } else if Matches(order[0], name) {
      assert order[0] != order[k];
    } else {
      FirstMatchIsEarliest(order[1..], name, k - 1);
      forall j | 0 < j < k ensures order[1..][j - 1] == order[j] { }
    }
  }

  /** `FirstMatch` finds a group whenever some group of the list passes its test. */
  lemma {:induction false} FirstMatchFindsSome(order: seq<Category>, name: string, k: nat)
    requires k < |order| && Matches(order[k], name)
    ensures FirstMatch(order, name).Some?
    decreases |order|
  {
    if k > 0 && !Matches(order[0], name) {
      FirstMatchFindsSome(order[1..], name, k - 1);
    }
  }

  /** Every name that is not blank goes to some group: the last test always passes. */
  lemma ClassifyTotal(name: string)
    ensures Classify(name).None? <==> IsBlank(name)
  {
    assert PriorityOrder[6] == Other;
    FirstMatchFindsSome(PriorityOrder, name, 6);
  }


  // ---------------------------------------------------------------------
  // The source's chain
  // ---------------------------------------------------------------------

  /** The extension tests of the chain exclude one another: the last characters differ. */
  lemma ExtensionsExclusive(lower: string)
    ensures EndsWith(lower, ".html") ==>
              !EndsWith(lower, ".txt") && !EndsWith(lower, "_task_image.jpg") && !EndsWith(lower, ".xlsx") &&
              !EndsWith(lower, ".zip") && !EndsWith(lower, ".csv") &&
              !EndsWith(lower, ".jpg") && !EndsWith(lower, ".jpeg") && !EndsWith(lower, ".png")
    ensures EndsWith(lower, ".csv") ==>
              !EndsWith(lower, ".txt") && !EndsWith(lower, "_task_image.jpg") && !EndsWith(lower, ".xlsx") &&
              !EndsWith(lower, ".zip") && !EndsWith(lower, ".html") &&
              !EndsWith(lower, ".jpg") && !EndsWith(lower, ".jpeg") && !EndsWith(lower, ".png")
  {
    EndsWithLastChar(lower, ".html");
    EndsWithLastChar(lower, ".csv");
    EndsWithLastChar(lower, ".txt");
    EndsWithLastChar(lower, "_task_image.jpg");
    EndsWithLastChar(lower, ".xlsx");
    EndsWithLastChar(lower, ".zip");
    EndsWithLastChar(lower, ".jpg");
    EndsWithLastChar(lower, ".jpeg");
    EndsWithLastChar(lower, ".png");
  }

  /**
   * The table agrees with the source's nested chain: Condor Club first, then
   * `.xlsx`, then `.html` (grouped only with one of its two markers, else
   * Other), `.zip`, `.csv` (grouped only with `slim_summary`, else Other),
   * the image extensions, and Other for everything else.
   */
  lemma ClassifyFollowsChain(name: string)
    requires !IsBlank(name)
    ensures var lower := ToLower(name);
      Classify(name) ==
        if CondorRule(name) then Some(CondorClub)
        else if EndsWith(lower, ".xlsx") then Some(SummaryXlsx)
        else if EndsWith(lower, ".html") then
          (if Contains(lower, "summaryclimb_interactive") || Contains(lower, "groundspeed_vs_percent_time_spent")
           then Some(ThermalGlideHtml) else Some(Other))
        else if EndsWith(lower, ".zip") then Some(DownloadIgcs)
        else if EndsWith(lower, ".csv") then
          (if Contains(lower, "slim_summary") then Some(SimplifiedSummaries) else Some(Other))
        else if EndsWith(lower, ".jpg") || EndsWith(lower, ".jpeg") || EndsWith(lower, ".png") then Some(Images)
        else Some(Other)
  {
    ExtensionsExclusive(ToLower(name));
  }

  // ---------------------------------------------------------------------
  // Named consequences
  // ---------------------------------------------------------------------

  /** A `.txt` naming a competition day, or a task image, is Condor Club, ahead of the `.jpg` image rule. */
  lemma CondorClubFirst(name: string)
    requires !IsBlank(name)
    requires (EndsWith(ToLower(name), ".txt") && Contains(name, "Competition_day_"))
          || EndsWith(ToLower(name), "_task_image.jpg")
    ensures Classify(name) == Some(CondorClub)
  {
    ClassifyFollowsChain(name);
  }

  /** An `.html` with neither marker goes to Other, not to any later extension group. */
  lemma HtmlFallsThroughToOther(name: string)
    requires !IsBlank(name)
    requires EndsWith(ToLower(name), ".html")
    requires !Contains(ToLower(name), "summaryclimb_interactive")
    requires !Contains(ToLower(name), "groundspeed_vs_percent_time_spent")
    ensures Classify(name) == Some(Other)
  {
    ClassifyFollowsChain(name);
    ExtensionsExclusive(ToLower(name));
  }

  /** A `.csv` with `slim_summary` is a simplified summary, whatever else it contains. */
  lemma SlimSummaryCsv(name: string)
    requires !IsBlank(name)
    requires EndsWith(ToLower(name), ".csv")
    requires Contains(ToLower(name), "slim_summary")
    ensures Classify(name) == Some(SimplifiedSummaries)
  {
    ClassifyFollowsChain(name);
    ExtensionsExclusive(ToLower(name));
  }

  /** A `.csv` without `slim_summary` goes to Other, not to Images or Simplified Summaries. */
  lemma CsvFallsThroughToOther(name: string)
    requires !IsBlank(name)
    requires EndsWith(ToLower(name), ".csv")
    requires !Contains(ToLower(name), "slim_summary")
    ensures Classify(name) == Some(Other)
  {
    ClassifyFollowsChain(name);
    ExtensionsExclusive(ToLower(name));
  }

  // ---------------------------------------------------------------------
  // The groups of a list of names
  // ---------------------------------------------------------------------

  /**
   * The names a classifier `cls` sends to group `c`, in input order. The
   * lemmas about the groups are stated for any classifier; `Filter`
   * instantiates them with `Classify`.
   */
  function GroupOf(cls: string -> Option<Category>, names: seq<string>, c: Category): seq<string>
    decreases |names|
  {
    if names == [] then []
    else
      var last := names[|names| - 1];
      GroupOf(cls, names[..|names| - 1], c) + (if cls(last) == Some(c) then [last] else [])
  }

  /** The names a classifier sends to some group, in input order. */
  function Assigned(cls: string -> Option<Category>, names: seq<string>): seq<string>
    decreases |names|
  {
    if names == [] then []
    else
      var last := names[|names| - 1];
      Assigned(cls, names[..|names| - 1]) + (if cls(last).Some? then [last] else [])
  }

  /** The indices of the input names that `cls` sends to `c`, in increasing order. */
  function Positions(cls: string -> Option<Category>, names: seq<string>, c: Category): seq<nat>
    decreases |names|
  {
    if names == [] then []
    else
      var n := |names| - 1;
      Positions(cls, names[..n], c) + (if cls(names[n]) == Some(c) then [n] else [])
  }

  /** The names of group `c` after `groupFiles`, in input order. */
  function Filter(names: seq<string>, c: Category): seq<string> {
    GroupOf(Classify, names, c)
  }

  /** The names that are not blank, in input order. */
  function ValidNames(names: seq<string>): seq<string> {
    Assigned(Classify, names)
  }

  /** One more input name extends only the group it is sent to. */
  lemma GroupOfStep(cls: string -> Option<Category>, names: seq<string>, i: nat)
    requires i < |names|
    ensures forall c :: GroupOf(cls, names[..i + 1], c) ==
              GroupOf(cls, names[..i], c) + (if cls(names[i]) == Some(c) then [names[i]] else [])
  {
    assert names[..i + 1][..i] == names[..i];
  }

  /** The seven groups, one list per category. */
  type Groups = map<Category, seq<string>>

  /** The `groups` object `groupFiles` returns, one list per group. */
  function GroupsOf(names: seq<string>): (groups: Groups)
    ensures forall c :: c in groups && groups[c] == Filter(names, c)
  {
    EveryCategoryDisplayed();
    map c | c in DisplayOrder :: Filter(names, c)
  }

  /** Every category has its list. */
  predicate Complete(groups: Groups) {
    forall c :: c in groups
  }

  /**
   * The `forEach` callback of `groupFiles`: a blank name is logged and
   * skipped; any other name is pushed onto the first group of the chain it
   * matches, or onto Other when the `grouped` flag is still false.
   */
  method AddFileName(groups: Groups, fileName: string) returns (result: Groups)
    requires Complete(groups)
    ensures Complete(result)
    ensures Classify(fileName).None? ==> result == groups
    ensures Classify(fileName).Some? ==>
              var c := Classify(fileName).value; result == groups[c := groups[c] + [fileName]]
  {
    result := groups;
    if IsBlank(fileName) {
      // logged as an invalid file name
      return;
    }
    ClassifyFollowsChain(fileName);
    ghost var target := Other;
    var lowerName := ToLower(fileName);
    var grouped := false;
    if (EndsWith(lowerName, ".txt") && Contains(fileName, "Competition_day_"))
       || EndsWith(lowerName, "_task_image.jpg") {
      result := result[CondorClub := result[CondorClub] + [fileName]];
      grouped, target := true, CondorClub;
    } else if EndsWith(lowerName, ".xlsx") {
      result := result[SummaryXlsx := result[SummaryXlsx] + [fileName]];
      grouped, target := true, SummaryXlsx;
    } else if EndsWith(lowerName, ".html") {
      if Contains(lowerName, "summaryclimb_interactive")
         || Contains(lowerName, "groundspeed_vs_percent_time_spent") {
        result := result[ThermalGlideHtml := result[ThermalGlideHtml] + [fileName]];
        grouped, target := true, ThermalGlideHtml;
      }
    } else if EndsWith(lowerName, ".zip") {
      result := result[DownloadIgcs := result[DownloadIgcs] + [fileName]];
      grouped, target := true, DownloadIgcs;
    } else if EndsWith(lowerName, ".csv") {
      if Contains(lowerName, "slim_summary") {
        result := result[SimplifiedSummaries := result[SimplifiedSummaries] + [fileName]];
        grouped, target := true, SimplifiedSummaries;
      }
    } else if EndsWith(lowerName, ".jpg") || EndsWith(lowerName, ".jpeg") || EndsWith(lowerName, ".png") {
      result := result[Images := result[Images] + [fileName]];
      grouped, target := true, Images;
    }
    assert Classify(fileName) == Some(target);
    if !grouped {
      result := result[Other := result[Other] + [fileName]];
    }
  }

  /** The `groups` object before any name is added: seven empty lists. */
  const NoGroups: Groups :=
    map[SummaryXlsx := [], ThermalGlideHtml := [], DownloadIgcs := [],
        SimplifiedSummaries := [], CondorClub := [], Images := [], Other := []]

  lemma NoGroupsAreEmpty(cls: string -> Option<Category>, names: seq<string>)
    ensures forall c :: c in NoGroups && NoGroups[c] == GroupOf(cls, names[..0], c)
  {
    assert names[..0] == [];
    forall c ensures c in NoGroups {
      match c
      case SummaryXlsx =>
      case ThermalGlideHtml =>
      case DownloadIgcs =>
      case SimplifiedSummaries =>
      case CondorClub =>
      case Images =>
      case Other =>
    }
  }

  /** Adding the next name the way the callback does keeps every list equal to its group so far. */
  lemma AddKeepsGroups(cls: string -> Option<Category>, names: seq<string>, i: nat, before: Groups, after: Groups)
    requires i < |names|
    requires forall c :: c in before && before[c] == GroupOf(cls, names[..i], c)
    requires cls(names[i]).None? ==> after == before
    requires cls(names[i]).Some? ==>
               after == before[cls(names[i]).value := before[cls(names[i]).value] + [names[i]]]
    ensures forall c :: c in after && after[c] == GroupOf(cls, names[..i + 1], c)
  {
    GroupOfStep(cls, names, i);
  }

  /** `groupFiles`: every name is handed to the callback, in input order. */
  method GroupFiles(fileNames: seq<string>) returns (groups: Groups)
    ensures groups == GroupsOf(fileNames)
  {
    groups := NoGroups;
    NoGroupsAreEmpty(Classify, fileNames);
    for i := 0 to |fileNames|
      invariant forall c :: c in groups && groups[c] == GroupOf(Classify, fileNames[..i], c)
    {
      var next := AddFileName(groups, fileNames[i]);
      AddKeepsGroups(Classify, fileNames, i, groups, next);
      groups := next;
    }
    assert fileNames[..|fileNames|] == fileNames;
    assert groups.Keys == GroupsOf(fileNames).Keys;
  }

  // ---------------------------------------------------------------------
  // Properties of the groups
  // ---------------------------------------------------------------------

  /** A name is in a group exactly when it is in the input and the classifier sends it there. */
  lemma {:induction false} GroupMembers(cls: string -> Option<Category>, names: seq<string>, c: Category, x: string)
    ensures x in GroupOf(cls, names, c) <==> x in names && cls(x) == Some(c)
    decreases |names|
  {
    if names != [] {
      var init := names[..|names| - 1];
      GroupMembers(cls, init, c, x);
      assert names == init + [names[|names| - 1]];
    }
  }

  /** A name is assigned exactly when it is in the input and the classifier sends it somewhere. */
  lemma {:induction false} AssignedMembers(cls: string -> Option<Category>, names: seq<string>, x: string)
    ensures x in Assigned(cls, names) <==> x in names && cls(x).Some?
    decreases |names|
  {
    if names != [] {
      var init := names[..|names| - 1];
      AssignedMembers(cls, init, x);
      assert names == init + [names[|names| - 1]];
    }
  }

  /** Every name that is not blank is in exactly one group of `groupFiles`; a blank one is in none. */
  lemma ExactlyOneGroup(names: seq<string>, x: string)
    requires x in names
    ensures IsBlank(x) ==> forall c :: x !in Filter(names, c)
    ensures !IsBlank(x) ==> exists c :: x in Filter(names, c)
    ensures forall c, d :: x in Filter(names, c) && x in Filter(names, d) ==> c == d
  {
    ClassifyTotal(x);
    forall c ensures x in Filter(names, c) <==> Classify(x) == Some(c) {
      GroupMembers(Classify, names, c, x);
    }
    if !IsBlank(x) {
      assert x in Filter(names, Classify(x).value);
    }
  }

  /** The names `groupFiles` keeps are exactly the input names that are not blank. */
  lemma ValidNamesAreNotBlank(names: seq<string>, x: string)
    ensures x in ValidNames(names) <==> x in names && !IsBlank(x)
  {
    AssignedMembers(Classify, names, x);
    ClassifyTotal(x);
  }

  /** The lists of the groups in `cats`, one after another. */
  function Concat(cls: string -> Option<Category>, names: seq<string>, cats: seq<Category>): seq<string>
    decreases |cats|
  {
    if cats == [] then [] else GroupOf(cls, names, cats[0]) + Concat(cls, names, cats[1..])
  }

  /** One more input name adds one copy of it to the lists of distinct groups, if it is sent to one of them. */
  lemma {:induction false} ConcatStep(cls: string -> Option<Category>, names: seq<string>, cats: seq<Category>)
    requires names != []
    requires forall i, j :: 0 <= i < j < |cats| ==> cats[i] != cats[j]
    ensures var last := names[|names| - 1];
      multiset(Concat(cls, names, cats)) ==
      multiset(Concat(cls, names[..|names| - 1], cats)) +
      (if cls(last).Some? && cls(last).value in cats then multiset{last} else multiset{})
    decreases |cats|
  {
    if cats != [] {
      ConcatStep(cls, names, cats[1..]);
      var last := names[|names| - 1];
      var init := names[..|names| - 1];
      var group := GroupOf(cls, init, cats[0]);
      var rest, restInit := Concat(cls, names, cats[1..]), Concat(cls, init, cats[1..]);
      var added := if cls(last) == Some(cats[0]) then [last] else [];
      var extra := if cls(last).Some? && cls(last).value in cats then multiset{last} else multiset{};
      var extraRest := if cls(last).Some? && cls(last).value in cats[1..] then multiset{last} else multiset{};
      assert GroupOf(cls, names, cats[0]) == group + added;
      assert multiset(Concat(cls, names, cats)) == multiset(group) + multiset(added) + multiset(rest);
      assert multiset(Concat(cls, init, cats)) == multiset(group) + multiset(restInit);
      assert multiset(rest) == multiset(restInit) + extraRest;
      if cls(last) == Some(cats[0]) {
        assert cats[0] !in cats[1..];
        assert multiset(added) + extraRest == extra;
      } else {
        assert multiset(added) + extraRest == extra;
      }
    }
  }

  /** Every category, in the order the grouped view shows them. */
  const DisplayOrder: seq<Category> :=
    [SummaryXlsx, ThermalGlideHtml, DownloadIgcs, SimplifiedSummaries, CondorClub, Images, Other]

  lemma DisplayOrderListsEachCategoryOnce(c: Category)
    ensures c in DisplayOrder
    ensures forall i, j :: 0 <= i < j < |DisplayOrder| ==> DisplayOrder[i] != DisplayOrder[j]
  {
    match c
    case SummaryXlsx => assert DisplayOrder[0] == c;
    case ThermalGlideHtml => assert DisplayOrder[1] == c;
    case DownloadIgcs => assert DisplayOrder[2] == c;
    case SimplifiedSummaries => assert DisplayOrder[3] == c;
    case CondorClub => assert DisplayOrder[4] == c;
    case Images => assert DisplayOrder[5] == c;
    case Other => assert DisplayOrder[6] == c;
  }

  /** Every category is shown somewhere in the display order. */
  lemma EveryCategoryDisplayed()
    ensures forall c :: c in DisplayOrder
  {
    forall c ensures c in DisplayOrder {
      DisplayOrderListsEachCategoryOnce(c);
    }
  }

  /** Counted with repetitions, the seven groups together hold exactly the assigned names. */
  lemma {:induction false} GroupsPartition(cls: string -> Option<Category>, names: seq<string>)
    ensures multiset(Concat(cls, names, DisplayOrder)) == multiset(Assigned(cls, names))
    decreases |names|
  {
    if names != [] {
      var last := names[|names| - 1];
      GroupsPartition(cls, names[..|names| - 1]);
      if cls(last).Some? {
        DisplayOrderListsEachCategoryOnce(cls(last).value);
      } else {
        DisplayOrderListsEachCategoryOnce(Other);
      }
      ConcatStep(cls, names, DisplayOrder);
    }
  }

  /** Counted with repetitions, the seven groups of `groupFiles` hold exactly the names that are not blank. */
  lemma GroupsPartitionValidNames(names: seq<string>)
    ensures multiset(Concat(Classify, names, DisplayOrder)) == multiset(ValidNames(names))
  {
    GroupsPartition(Classify, names);
  }

  /**
   * A group lists the input names sent to it, in the order they came: its
   * k-th name is the input name at the k-th such index.
   */
  lemma {:induction false} GroupKeepsInputOrder(cls: string -> Option<Category>, names: seq<string>, c: Category)
    ensures |Positions(cls, names, c)| == |GroupOf(cls, names, c)|
    ensures forall k :: 0 <= k < |Positions(cls, names, c)| ==>
              Positions(cls, names, c)[k] < |names| && GroupOf(cls, names, c)[k] == names[Positions(cls, names, c)[k]]
    ensures forall k, l :: 0 <= k < l < |Positions(cls, names, c)| ==>
              Positions(cls, names, c)[k] < Positions(cls, names, c)[l]
    ensures forall i :: 0 <= i < |names| ==> (i in Positions(cls, names, c) <==> cls(names[i]) == Some(c))
    decreases |names|
  {
    if names != [] {
      var n := |names| - 1;
      var init := names[..n];
      GroupKeepsInputOrder(cls, init, c);
      var p0, p := Positions(cls, init, c), Positions(cls, names, c);
      var hit := cls(names[n]) == Some(c);
      assert p == p0 + (if hit then [n] else []);
      assert GroupOf(cls, names, c) == GroupOf(cls, init, c) + (if hit then [names[n]] else []);
      assert n !in p0;
      forall k | 0 <= k < |p| ensures p[k] < |names| && GroupOf(cls, names, c)[k] == names[p[k]] {
        if k < |p0| {
          assert init[p0[k]] == names[p0[k]];
        }
      }
      forall k, l | 0 <= k < l < |p| ensures p[k] < p[l] {
        if l >= |p0| {
          assert p[k] == p0[k];
        }
      }
      forall i | 0 <= i < |names| ensures i in p <==> cls(names[i]) == Some(c) {
        if i < n {
          assert names[i] == init[i];
        }
      }
    }
  }

  // ---------------------------------------------------------------------
  // Groups decided by the extension alone
  // ---------------------------------------------------------------------

  /** `.xlsx` is a summary spreadsheet unless the name is a Condor Club one, which it cannot be. */
  lemma XlsxIsSummary(name: string)
    requires !IsBlank(name)
    requires EndsWith(ToLower(name), ".xlsx")
    ensures Classify(name) == Some(SummaryXlsx)
  {
    EndsWithLastChar(ToLower(name), ".xlsx");
    EndsWithLastChar(ToLower(name), ".txt");
    EndsWithLastChar(ToLower(name), "_task_image.jpg");
    ClassifyFollowsChain(name);
  }

  /** A `.jpg` that is not a task image is an image. */
  lemma JpgIsImage(name: string)
    requires !IsBlank(name)
    requires EndsWith(ToLower(name), ".jpg") && !EndsWith(ToLower(name), "_task_image.jpg")
    ensures Classify(name) == Some(Images)
  {
    var lower := ToLower(name);
    EndsWithLastChar(lower, ".jpg");
    EndsWithLastChar(lower, ".txt");
    EndsWithLastChar(lower, ".xlsx");
    EndsWithLastChar(lower, ".html");
    EndsWithLastChar(lower, ".zip");
    EndsWithLastChar(lower, ".csv");
    ClassifyFollowsChain(name);
  }

  // ---------------------------------------------------------------------
  // Examples
  // ---------------------------------------------------------------------

  /** A results pointer for a competition day is Condor Club, although it also ends in `.txt`. */
  lemma CompetitionDayTxtIsCondorClub(name: string)
    requires name == "Competition_day_1_results.txt"
    ensures Classify(name) == Some(CondorClub)
  {
    assert ToLower(name)[|name| - 4..] == ".txt";
    assert OccursAt(name, "Competition_day_", 0);
    OccursAtContains(name, "Competition_day_", 0);
    NotBlankWhenFirstIsVisible(name);
    CondorClubFirst(name);
  }

  /** An `.html` without either marker goes to Other. */
  lemma PlainHtmlIsOther(name: string)
    requires name == "report.html"
    ensures Classify(name) == Some(Other)
  {
    assert ToLower(name) == name;
    assert EndsWith(name, ".html");
    NotBlankWhenFirstIsVisible(name);
    ContainsNotLonger(name, "summaryclimb_interactive");
    ContainsNotLonger(name, "groundspeed_vs_percent_time_spent");
    HtmlFallsThroughToOther(name);
  }

  /** A `.csv` carrying `slim_summary` is a simplified summary. */
  lemma SlimSummaryCsvIsSimplified(name: string)
    requires name == "data_slim_summary.csv"
    ensures Classify(name) == Some(SimplifiedSummaries)
  {
    SlimSummaryName(name);
    OccursAtContains(name, "slim_summary", 5);
    SlimSummaryCsv(name);
  }

  /** What the simplified-summary example name is made of. */
  lemma SlimSummaryName(name: string)
    requires name == "data_slim_summary.csv"
    ensures ToLower(name) == name && EndsWith(name, ".csv") && OccursAt(name, "slim_summary", 5)
    ensures !IsBlank(name)
  {
    NotBlankWhenFirstIsVisible(name);
  }

  /** A `.csv` without `slim_summary` goes to Other. */
  lemma FullCsvIsOther(name: string)
    requires name == "data_full.csv"
    ensures Classify(name) == Some(Other)
  {
    FullCsvName(name);
    NotContainsWithoutFirstChar(name, "slim_summary");
    CsvFallsThroughToOther(name);
  }

  /** What the plain `.csv` example name is made of. */
  lemma FullCsvName(name: string)
    requires name == "data_full.csv"
    ensures ToLower(name) == name && EndsWith(name, ".csv") && !IsBlank(name)
    ensures forall i :: 0 <= i <= |name| - |"slim_summary"| ==> name[i] != 's'
  {
    NotBlankWhenFirstIsVisible(name);
  }

  /** A workbook is a summary spreadsheet. */
  lemma WorkbookIsSummaryXlsx(name: string)
    requires name == "summary.xlsx"
    ensures Classify(name) == Some(SummaryXlsx)
  {
    assert ToLower(name) == name;
    assert EndsWith(name, ".xlsx");
    NotBlankWhenFirstIsVisible(name);
    XlsxIsSummary(name);
  }

  /** A photo is an image. */
  lemma PhotoIsImage(name: string)
    requires name == "photo.jpg"
    ensures Classify(name) == Some(Images)
  {
    assert ToLower(name) == name;
    assert EndsWith(name, ".jpg");
    assert !EndsWith(name, "_task_image.jpg");
    NotBlankWhenFirstIsVisible(name);
    JpgIsImage(name);
  }

  /** A blank name goes to no group. */
  lemma BlankNameIsDropped(name: string)
    requires name == "" || name == " \t"
    ensures Classify(name) == None
  {
    BlankIffAllWhiteSpace(name);
  }
}
