/**
 * The comparison engine of the folder comparator. Each side is scanned into a map
 * from relative paths ("" is the chosen folder itself) to entries; every path of
 * either side gets a status for each side and a flag saying whether it differs;
 * the paths worth showing when only differences are asked for are those that
 * differ and all of their ancestors.
 */
module FolderCompare {
  import opened Wrappers
  import opened PosixPath

  /** What a scan records for a path: a folder, or a file with its size when it could be read. */
  datatype Entry = Dir | File(size: Option<int>)

  type Entries = map<string, Entry>

  /** The status shown on each side, and whether the path counts as a difference. */
  datatype Status = Status(statusLeft: string, statusRight: string, differs: bool)

  const DIFFERENT_TYPE := "Tipo distinto"
  const MATCHES := "Coincide"
  const DIFFERENT_SIZE := "Tamaño diferente"
  const ONLY_LEFT := "Solo izquierda"
  const ONLY_RIGHT := "Solo derecha"
  const MISSING := "No existe"

  predicate SameKind(a: Entry, b: Entry) {
    a.Dir? == b.Dir?
  }

  /** `_determine_status`: the status of a path from what each side holds for it. */
  function DetermineStatus(left: Option<Entry>, right: Option<Entry>): (s: Status)
    ensures left.Some? && right.Some? && !SameKind(left.value, right.value) ==>
      s == Status(DIFFERENT_TYPE, DIFFERENT_TYPE, true)
    ensures left.Some? && right.Some? && left.value.File? && right.value.File? ==>
      if left.value.size.Some? && right.value.size.Some? && left.value.size != right.value.size
      then s == Status(DIFFERENT_SIZE, DIFFERENT_SIZE, true)
      else s == Status(MATCHES, MATCHES, false)
    ensures left.Some? && right.Some? && left.value.Dir? && right.value.Dir? ==> s == Status(MATCHES, MATCHES, false)
    ensures left.Some? && right.None? ==> s == Status(ONLY_LEFT, MISSING, true)
    ensures left.None? && right.Some? ==> s == Status(MISSING, ONLY_RIGHT, true)
    ensures left.None? && right.None? ==> s == Status("", "", false)
  {
    if left.Some? && right.Some? then
      if left.value.Dir? != right.value.Dir? then Status(DIFFERENT_TYPE, DIFFERENT_TYPE, true)
      else if left.value.File? then
        if left.value.size.Some? && right.value.size.Some? then
          if left.value.size.value == right.value.size.value then Status(MATCHES, MATCHES, false)
          else Status(DIFFERENT_SIZE, DIFFERENT_SIZE, true)
        else Status(MATCHES, MATCHES, false)
      else Status(MATCHES, MATCHES, false)
    else if left.Some? then Status(ONLY_LEFT, MISSING, true)
    else if right.Some? then Status(MISSING, ONLY_RIGHT, true)
    else Status("", "", false)
  }

  /**
   * What the comparator can tell apart: a path differs exactly when it is on one side
   * only, or is a folder on one side and a file on the other, or is a file of known,
   * different sizes on both.
   */
  predicate Distinguishable(left: Option<Entry>, right: Option<Entry>) {
    || left.Some? != right.Some?
    || (left.Some? && right.Some? && !SameKind(left.value, right.value))
    || (left.Some? && right.Some? && left.value.File? && right.value.File?
        && left.value.size.Some? && right.value.size.Some? && left.value.size.value != right.value.size.value)
  }

  lemma DiffersIffDistinguishable(left: Option<Entry>, right: Option<Entry>)
    ensures DetermineStatus(left, right).differs <==> Distinguishable(left, right)
  {
  }

  /**
   * The labels say whether a path differs: it does exactly when its left label is
   * neither "Coincide" nor empty; when both sides hold the path both labels agree.
   */
  lemma StatusLabels(left: Option<Entry>, right: Option<Entry>)
    ensures DetermineStatus(left, right).differs <==>
      DetermineStatus(left, right).statusLeft != MATCHES && DetermineStatus(left, right).statusLeft != ""
    ensures left.Some? && right.Some? ==> DetermineStatus(left, right).statusLeft == DetermineStatus(left, right).statusRight
    ensures DetermineStatus(left, right).statusLeft == "" <==> left.None? && right.None?
  {
  }

  /** Swapping the folders swaps nothing about whether a path differs; a one-sided path moves to the other label pair. */
  lemma DetermineStatusSwap(left: Option<Entry>, right: Option<Entry>)
    ensures DetermineStatus(right, left).differs == DetermineStatus(left, right).differs
    ensures left.Some? && right.Some? ==> DetermineStatus(right, left) == DetermineStatus(left, right)
    ensures left.Some? && right.None? ==>
      DetermineStatus(right, left).statusLeft == DetermineStatus(left, right).statusRight
  {
  }

  /** A path compared with an identical entry never differs. */
  lemma SameEntryMatches(e: Option<Entry>)
    ensures !DetermineStatus(e, e).differs
  {
  }

  /** `_parent_path`: `None` for the chosen folder itself, otherwise the dirname unless it is the path itself. */
  function ParentPath(path: string): (parent: Option<string>)
    ensures path == "" ==> parent.None?
    ensures parent.Some? ==> |parent.value| < |path| && parent.value == path[..|parent.value|]
  {
    if path == "" then None
    else
      var p := DirName(path);
      if p != path then Some(p) else None
  }

  predicate IsRelative(path: string) {
    path == "" || path[0] != SEP
  }

  /**
   * A relative path other than "" always has a parent, itself relative: the walk up
   * from any path of a scan reaches "" and stops there.
   */
  lemma RelativeParent(path: string)
    requires IsRelative(path) && path != ""
    ensures ParentPath(path).Some? && IsRelative(ParentPath(path).value)
  {
    var i := RFind(path, SEP);
    var head := path[..i + 1];
    if head != [] {
      assert head[0] == path[0];
      assert !AllOf(head, SEP);
      assert head[|head| - 1] == SEP;
      var r := RStrip(head, SEP);
      assert |r| < |head|;
    }
    var p := DirName(path);
    assert |p| < |path|;
    if p != "" {
      assert p[0] == path[0];
    }
  }

  /** The parent of `p`, its parent, and so on, while there is one. */
  function Upward(p: Option<string>): set<string>
    decreases if p.Some? then |p.value| + 1 else 0
  {
    match p
    case None => {}
    case Some(q) => {q} + Upward(ParentPath(q))
  }

  /** The ancestors `_build_comparison` marks for a differing path. */
  function Ancestors(path: string): set<string> {
    Upward(ParentPath(path))
  }

  /** The ancestors of an ancestor are ancestors. */
  lemma {:induction false} AncestorsTransitive(path: string, a: string)
    requires a in Ancestors(path)
    ensures Ancestors(a) <= Ancestors(path)
    decreases |path|
  {
    var q := ParentPath(path).value;
    if a != q {
      assert a in Ancestors(q);
      AncestorsTransitive(q, a);
    }
  }

  /** Every ancestor of a relative path is relative, and "" is one of them. */
  lemma {:induction false} RelativeAncestors(path: string)
    requires IsRelative(path) && path != ""
    ensures "" in Ancestors(path)
    ensures forall a :: a in Ancestors(path) ==> IsRelative(a) && |a| < |path|
    decreases |path|
  {
    RelativeParent(path);
    var q := ParentPath(path).value;
    if q != "" {
      RelativeAncestors(q);
    }
  }

  /** The ancestors of every path of `paths`. */
  function AncestorsOf(paths: set<string>): set<string> {
    set p, a | p in paths && a in Ancestors(p) :: a
  }

  /** `comparison`: every path of either side with its status. */
  function Comparison(left: Entries, right: Entries): (c: map<string, Status>)
    ensures c.Keys == left.Keys + right.Keys
  {
    StatusesOf(left, right, left.Keys + right.Keys)
  }

  /** The status of each of `paths`. */
  function StatusesOf(left: Entries, right: Entries, paths: set<string>): (c: map<string, Status>)
    ensures c.Keys == paths
  {
    map p | p in paths :: DetermineStatus(Get(left, p), Get(right, p))
  }

  /** Comparing one more path adds its status and changes no other. */
  lemma StatusesOfAdd(left: Entries, right: Entries, done: set<string>, path: string)
    ensures StatusesOf(left, right, done + {path}) ==
      StatusesOf(left, right, done)[path := DetermineStatus(Get(left, path), Get(right, path))]
  {
  }

  function Get(entries: Entries, path: string): Option<Entry> {
    if path in entries then Some(entries[path]) else None
  }

  /** The compared paths that differ. */
  function Differing(comparison: map<string, Status>): set<string> {
    set p | p in comparison && comparison[p].differs
  }

  /** A newly compared path is among those that differ exactly when its status differs. */
  lemma DifferingAdd(comparison: map<string, Status>, path: string, status: Status)
    requires path !in comparison
    ensures Differing(comparison[path := status]) ==
      if status.differs then Differing(comparison) + {path} else Differing(comparison)
  {
  }

  /** `differing_paths`: the paths that differ and all their ancestors. */
  function Relevant(comparison: map<string, Status>): (r: set<string>)
    ensures Differing(comparison) <= r
    ensures r == {} <==> Differing(comparison) == {}
  {
    Differing(comparison) + AncestorsOf(Differing(comparison))
  }

  predicate ClosedUnderParent(s: set<string>) {
    forall p :: p in s && ParentPath(p).Some? ==> ParentPath(p).value in s
  }

  /** The relevant paths are closed under taking the parent. */
  lemma RelevantClosed(comparison: map<string, Status>)
    ensures ClosedUnderParent(Relevant(comparison))
  {
    var d := Differing(comparison);
    forall p | p in Relevant(comparison) && ParentPath(p).Some?
      ensures ParentPath(p).value in Relevant(comparison)
    {
      var q := ParentPath(p).value;
      assert q in Ancestors(p);
      if p !in d {
        var x :| x in d && p in Ancestors(x);
        AncestorsTransitive(x, p);
      }
    }
  }

  /** A set holding every ancestor chain start holds the whole chain when it is closed under parent. */
  lemma {:induction false} ClosedHoldsAncestors(s: set<string>, path: string)
    requires ClosedUnderParent(s) && path in s
    ensures Ancestors(path) <= s
    decreases |path|
  {
    if ParentPath(path).Some? {
      ClosedHoldsAncestors(s, ParentPath(path).value);
    }
  }

  /**
   * The relevant paths are the least set that holds every differing path and is
   * closed under parent: nothing is marked that is not a differing path or one of
   * its ancestors.
   */
  lemma RelevantIsLeast(comparison: map<string, Status>, s: set<string>)
    requires Differing(comparison) <= s && ClosedUnderParent(s)
    ensures Relevant(comparison) <= s
  {
    forall a | a in AncestorsOf(Differing(comparison)) ensures a in s {
      var p :| p in Differing(comparison) && a in Ancestors(p);
      ClosedHoldsAncestors(s, p);
    }
  }

  /** Adding one path's ancestors to those of a set. */
  lemma AncestorsOfAdd(done: set<string>, path: string)
    ensures AncestorsOf(done + {path}) == AncestorsOf(done) + Ancestors(path)
  {
  }

  /**
   * `_build_comparison`: the status of every path of either side and the paths that
   * differ, together with all their ancestors.
   */
  method BuildComparison(left: Entries, right: Entries) returns (comparison: map<string, Status>, differingPaths: set<string>)
    ensures comparison == Comparison(left, right)
    ensures differingPaths == Relevant(comparison)
  {
    comparison, differingPaths := CompareAll(left, right);
    differingPaths := MarkAncestors(differingPaths);
  }

  /** The first loop of `_build_comparison`: the status of every path of either side, and those that differ. */
  method CompareAll(left: Entries, right: Entries) returns (comparison: map<string, Status>, differingPaths: set<string>)
    ensures comparison == Comparison(left, right)
    ensures differingPaths == Differing(comparison)
  {
    comparison := map[];
    differingPaths := {};
    var allPaths := left.Keys + right.Keys;
    var remaining := allPaths;
    ghost var done: set<string> := {};
    while remaining != {}
      invariant done + remaining == allPaths && done !! remaining
      invariant comparison == StatusesOf(left, right, done)
      invariant differingPaths == Differing(comparison)
      decreases remaining
    {
      var path :| path in remaining;
      var status := DetermineStatus(Get(left, path), Get(right, path));
      StatusesOfAdd(left, right, done, path);
      DifferingAdd(comparison, path, status);
      comparison := comparison[path := status];
      if status.differs {
        differingPaths := differingPaths + {path};
      }
      remaining := remaining - {path};
      done := done + {path};
    }
  }

  /** The second loop of `_build_comparison`: every ancestor of every path of `paths` is added. */
  method MarkAncestors(paths: set<string>) returns (marked: set<string>)
    ensures marked == paths + AncestorsOf(paths)
  {
    marked := paths;
    var toMark := paths;
    while toMark != {}
      invariant toMark <= paths
      invariant marked == paths + AncestorsOf(paths - toMark)
      decreases toMark
    {
      var path :| path in toMark;
      ghost var done := paths - toMark;
      marked := MarkChain(path, marked);
      toMark := toMark - {path};
      assert paths - toMark == done + {path};
      AncestorsOfAdd(done, path);
    }
    assert paths - toMark == paths;
  }

  /** The inner loop: walk up from `path`, adding each parent until there is none. */
  method MarkChain(path: string, marked: set<string>) returns (marked': set<string>)
    ensures marked' == marked + Ancestors(path)
  {
    marked' := marked;
    var parent := ParentPath(path);
    ghost var visited: set<string> := {};
    while parent.Some?
      invariant Ancestors(path) == visited + Upward(parent)
      invariant marked' == marked + visited
      decreases if parent.Some? then |parent.value| + 1 else 0
    {
      marked' := marked' + {parent.value};
      visited := visited + {parent.value};
      parent := ParentPath(parent.value);
    }
  }

  /** Which tree a status is asked for. */
  datatype Side = Left | Right

  /** What an update ends with: a message instead of a comparison, or the two trees to show. */
  datatype UpdateOutcome = FoldersNotSelected | InvalidFolders | Compared(leftView: Entries, rightView: Entries)

  /**
   * The comparator's state: the last comparison, the paths marked relevant, the
   * "differences only" switch and the last scans of both folders.
   */
  class FolderComparator {
    var leftBasePath: Option<string>
    var rightBasePath: Option<string>
    var comparisonData: map<string, Status>
    var differencePaths: set<string>
    var showDifferencesOnly: bool
    var lastLeftEntries: Option<Entries>
    var lastRightEntries: Option<Entries>

    /** The comparison and the marked paths are always those of the last two scans. */
    predicate Valid()
      reads this
    {
      && lastLeftEntries.Some? == lastRightEntries.Some?
      && (lastLeftEntries.Some? ==>
            comparisonData == Comparison(lastLeftEntries.value, lastRightEntries.value))
      && (lastLeftEntries.None? ==> comparisonData == map[])
      && differencePaths == Relevant(comparisonData)
    }

    constructor()
      ensures Valid()
      ensures comparisonData == map[] && differencePaths == {} && !showDifferencesOnly
      ensures lastLeftEntries.None? && lastRightEntries.None? && leftBasePath.None? && rightBasePath.None?
    {
      leftBasePath := None;
      rightBasePath := None;
      comparisonData := map[];
      differencePaths := {};
      showDifferencesOnly := false;
      lastLeftEntries := None;
      lastRightEntries := None;
      new;
      assert Differing(comparisonData) == {};
    }

    /** `_is_path_relevant`: the path differs itself or was marked. */
    predicate IsPathRelevant(path: string)
      reads this
      ensures path in Differing(comparisonData) ==> IsPathRelevant(path)
      ensures path in differencePaths ==> IsPathRelevant(path)
      ensures IsPathRelevant(path) ==> path in Differing(comparisonData) + differencePaths
    {
      (path in comparisonData && comparisonData[path].differs) || path in differencePaths
    }

    /** A path is relevant exactly when it differs or is an ancestor of a path that does. */
    lemma IsPathRelevantMeaning(path: string)
      requires Valid()
      ensures IsPathRelevant(path) <==>
        exists q :: q in comparisonData && comparisonData[q].differs && (q == path || path in Ancestors(q))
    {
      if IsPathRelevant(path) && path !in Differing(comparisonData) {
        var q :| q in Differing(comparisonData) && path in Ancestors(q);
      }
    }

    /** The entries shown: all of them, or with the switch on, the chosen folder and the relevant paths. */
    function View(entries: Entries): (v: Entries)
      reads this
      ensures v.Keys <= entries.Keys && forall p :: p in v ==> v[p] == entries[p]
      ensures "" in entries ==> "" in v
      ensures !showDifferencesOnly ==> v == entries
    {
      if !showDifferencesOnly then entries
      else map p | p in entries && (p == "" || IsPathRelevant(p)) :: entries[p]
    }

    /**
     * With the switch on the view never shows a path without its parent: the parent of
     * a shown path is shown whenever the scan holds it.
     */
    lemma ViewKeepsParents(entries: Entries)
      requires Valid()
      ensures forall p :: p in View(entries) && ParentPath(p).Some? && ParentPath(p).value in entries ==>
        ParentPath(p).value in View(entries)
    {
      RelevantClosed(comparisonData);
    }

    /** With the switch on, a path other than "" is shown exactly when it differs or one of its descendants does. */
    lemma ViewMeaning(entries: Entries, path: string)
      requires Valid() && showDifferencesOnly && path != ""
      ensures path in View(entries) <==> (path in entries &&
        exists q :: q in comparisonData && comparisonData[q].differs && (q == path || path in Ancestors(q)))
    {
      IsPathRelevantMeaning(path);
    }

    /** `_filter_entries_for_display`. */
    method FilterEntriesForDisplay(entries: Entries) returns (filtered: Entries)
      ensures filtered == View(entries)
      ensures filtered.Keys <= entries.Keys
      ensures forall p :: p in filtered ==> filtered[p] == entries[p]
      ensures "" in entries ==> "" in filtered
    {
      if !showDifferencesOnly {
        return entries;
      }
      filtered := map[];
      var remaining := entries.Keys;
      while remaining != {}
        invariant remaining <= entries.Keys
        invariant filtered == map p | p in entries.Keys - remaining && (p == "" || IsPathRelevant(p)) :: entries[p]
        decreases remaining
      {
        var path :| path in remaining;
        if path == "" || IsPathRelevant(path) {
          filtered := filtered[path := entries[path]];
        }
        remaining := remaining - {path};
      }
      assert entries.Keys - remaining == entries.Keys;
    }

    /** `_get_status_for_side`: the label of the path on that side, or "" when it was not compared. */
    function StatusForSide(path: string, side: Side): (shown: string)
      reads this
      ensures shown != "" ==> path in comparisonData
    {
      if path !in comparisonData then ""
      else if side == Left then comparisonData[path].statusLeft
      else comparisonData[path].statusRight
    }

    /** Every path of either scan has a label on both sides; any other path has none. */
    lemma StatusForSideMeaning(path: string, side: Side)
      requires Valid() && lastLeftEntries.Some?
      ensures StatusForSide(path, side) != "" <==> path in lastLeftEntries.value || path in lastRightEntries.value
    {
      if path in comparisonData {
        StatusLabels(Get(lastLeftEntries.value, path), Get(lastRightEntries.value, path));
      }
    }

    /** `_refresh_trees`: the two views of the last scans, if there are any. */
    method RefreshTrees() returns (views: Option<(Entries, Entries)>)
      ensures lastLeftEntries.None? || lastRightEntries.None? ==> views.None?
      ensures lastLeftEntries.Some? && lastRightEntries.Some? ==>
        views == Some((View(lastLeftEntries.value), View(lastRightEntries.value)))
    {
      if lastLeftEntries.None? || lastRightEntries.None? {
        return None;
      }
      var filteredLeft := FilterEntriesForDisplay(lastLeftEntries.value);
      var filteredRight := FilterEntriesForDisplay(lastRightEntries.value);
      return Some((filteredLeft, filteredRight));
    }

    /**
     * `update_comparison`: with both folders chosen and both existing folders, scan
     * them, compare the scans and show the trees; otherwise leave everything as it was.
     * `folders` holds the paths that are existing folders and `scan` is what
     * `_scan_directory` returns for a folder.
     */
    method UpdateComparison(leftDir: string, rightDir: string, folders: set<string>, scan: string -> Entries)
      returns (outcome: UpdateOutcome)
      requires Valid()
      modifies this
      ensures Valid()
      ensures showDifferencesOnly == old(showDifferencesOnly)
      ensures leftDir == "" || rightDir == "" ==> outcome == FoldersNotSelected && unchanged(this)
      ensures leftDir != "" && rightDir != "" && (leftDir !in folders || rightDir !in folders) ==>
        outcome == InvalidFolders && unchanged(this)
      ensures leftDir != "" && rightDir != "" && leftDir in folders && rightDir in folders ==>
        && leftBasePath == Some(leftDir) && rightBasePath == Some(rightDir)
        && lastLeftEntries == Some(scan(leftDir)) && lastRightEntries == Some(scan(rightDir))
        && comparisonData == Comparison(scan(leftDir), scan(rightDir))
        && differencePaths == Relevant(comparisonData)
        && outcome == Compared(View(scan(leftDir)), View(scan(rightDir)))
    {
      if leftDir == "" || rightDir == "" {
        return FoldersNotSelected;
      }
      if leftDir !in folders || rightDir !in folders {
        return InvalidFolders;
      }
      var leftEntries := scan(leftDir);
      var rightEntries := scan(rightDir);
      leftBasePath := Some(leftDir);
      rightBasePath := Some(rightDir);
      lastLeftEntries := Some(leftEntries);
      lastRightEntries := Some(rightEntries);
      comparisonData, differencePaths := BuildComparison(leftEntries, rightEntries);
      var views := RefreshTrees();
      outcome := Compared(views.value.0, views.value.1);
    }

    /**
     * `_on_filter_change` after the switch was set to `show`: without earlier scans a
     * full update runs; otherwise the trees are shown again from the last scans.
     */
    method OnFilterChange(show: bool, leftDir: string, rightDir: string, folders: set<string>, scan: string -> Entries)
      returns (outcome: UpdateOutcome)
      requires Valid()
      modifies this
      ensures Valid()
      ensures showDifferencesOnly == show
      ensures old(lastLeftEntries).Some? ==>
        && leftBasePath == old(leftBasePath) && rightBasePath == old(rightBasePath)
        && comparisonData == old(comparisonData) && differencePaths == old(differencePaths)
        && lastLeftEntries == old(lastLeftEntries) && lastRightEntries == old(lastRightEntries)
        && outcome == Compared(View(lastLeftEntries.value), View(lastRightEntries.value))
      ensures old(lastLeftEntries).None? && (leftDir == "" || rightDir == "" || leftDir !in folders || rightDir !in folders) ==>
        && leftBasePath == old(leftBasePath) && rightBasePath == old(rightBasePath)
        && comparisonData == old(comparisonData) && differencePaths == old(differencePaths)
        && lastLeftEntries == old(lastLeftEntries) && lastRightEntries == old(lastRightEntries)
      ensures old(lastLeftEntries).None? && (leftDir == "" || rightDir == "") ==>
        outcome == FoldersNotSelected
      ensures old(lastLeftEntries).None? && leftDir != "" && rightDir != "" && (leftDir !in folders || rightDir !in folders) ==>
        outcome == InvalidFolders
      ensures old(lastLeftEntries).None? && leftDir != "" && rightDir != "" && leftDir in folders && rightDir in folders ==>
        && leftBasePath == Some(leftDir) && rightBasePath == Some(rightDir)
        && lastLeftEntries == Some(scan(leftDir)) && lastRightEntries == Some(scan(rightDir))
        && comparisonData == Comparison(scan(leftDir), scan(rightDir))
        && differencePaths == Relevant(comparisonData)
        && outcome == Compared(View(scan(leftDir)), View(scan(rightDir)))
    {
      showDifferencesOnly := show;
      if lastLeftEntries.None? || lastRightEntries.None? {
        outcome := UpdateComparison(leftDir, rightDir, folders, scan);
        return;
      }
      var views := RefreshTrees();
      outcome := Compared(views.value.0, views.value.1);
    }
  }
}
