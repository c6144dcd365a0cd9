/**
 * The theme inspector: like the extractor it walks a folder tree and reports the
 * `extLst` elements of every `theme/theme/theme1.xml`, and it also looks for a theme
 * variant manager next to each theme. It keeps the first variant manager it finds and
 * reads that one once, at the end. The walk, the set of existing paths (what
 * `os.path.exists` answers) and the parser are inputs.
 */
module ThemeInspector {
  import opened Wrappers
  import opened PosixPath
  import opened Xml
  import opened DirectoryWalk
  import ThemeExtractor

  const VARIANTS_FOLDER := "themeVariants"

  /** The correct spelling first, then the misspelt one the tool also accepts. */
  const VARIANT_MANAGER_FILE_NAMES: seq<string> := ["themeVariantManager.xml", "themeVarianManager.xml"]

  /** What was found for one theme folder: its theme file and, if any, its variant manager. */
  datatype ThemeFiles = ThemeFiles(themePath: string, variantManagerPath: Option<string>)

  /** The names `names`, in their order, inside `dir`. */
  function InFolder(dir: string, names: seq<string>): (r: seq<string>)
    ensures |r| == |names|
  {
    seq(|names|, k requires 0 <= k < |names| => Join(dir, names[k]))
  }

  /**
   * Where a theme folder's variant manager may lie, in the order they are tried: the
   * folder's "themeVariants" subfolder, the folder itself, and the "themeVariants"
   * folder of the base folder, each with both file names.
   */
  function Candidates(root: string, baseDir: string): (r: seq<string>)
    ensures |r| == 3 * |VARIANT_MANAGER_FILE_NAMES|
  {
    InFolder(Join(root, VARIANTS_FOLDER), VARIANT_MANAGER_FILE_NAMES)
      + InFolder(root, VARIANT_MANAGER_FILE_NAMES)
      + InFolder(Join(baseDir, VARIANTS_FOLDER), VARIANT_MANAGER_FILE_NAMES)
  }

  /** Two names inside each of three folders: folder by folder, and within a folder name by name. */
  lemma {:induction false} InThreeFolders(a: string, b: string, c: string, names: seq<string>)
    requires |names| == 2
    ensures InFolder(a, names) + InFolder(b, names) + InFolder(c, names) == [
      Join(a, names[0]), Join(a, names[1]),
      Join(b, names[0]), Join(b, names[1]),
      Join(c, names[0]), Join(c, names[1])]
  {
    assert InFolder(a, names) == [Join(a, names[0]), Join(a, names[1])];
    assert InFolder(b, names) == [Join(b, names[0]), Join(b, names[1])];
    assert InFolder(c, names) == [Join(c, names[0]), Join(c, names[1])];
  }

  /**
   * The six candidates, in order: the theme folder's "themeVariants" folder, the
   * theme folder, then the base folder's "themeVariants" folder, and in each folder
   * the correct spelling before the misspelt one.
   */
  lemma CandidatesInOrder(root: string, baseDir: string)
    ensures var names := VARIANT_MANAGER_FILE_NAMES;
      var inTheme, inBase := Join(root, VARIANTS_FOLDER), Join(baseDir, VARIANTS_FOLDER);
      Candidates(root, baseDir) == [
        Join(inTheme, names[0]), Join(inTheme, names[1]),
        Join(root, names[0]), Join(root, names[1]),
        Join(inBase, names[0]), Join(inBase, names[1])]
  {
    InThreeFolders(Join(root, VARIANTS_FOLDER), root, Join(baseDir, VARIANTS_FOLDER), VARIANT_MANAGER_FILE_NAMES);
  }

  /** Names without separators, inside a folder, are non-empty paths whose file names are those names. */
  lemma InFolderNames(dir: string, names: seq<string>)
    requires forall k :: 0 <= k < |names| ==> names[k] != "" && SEP !in names[k]
    ensures forall k :: 0 <= k < |names| ==> InFolder(dir, names)[k] != "" && BaseName(InFolder(dir, names)[k]) == names[k]
  {
    forall k | 0 <= k < |names|
      ensures InFolder(dir, names)[k] != "" && BaseName(InFolder(dir, names)[k]) == names[k]
    {
      BaseNameJoin(dir, names[k]);
    }
  }

  lemma VariantManagerFileNamesArePlain()
    ensures |VARIANT_MANAGER_FILE_NAMES| == 2
    ensures forall k :: 0 <= k < 2 ==> VARIANT_MANAGER_FILE_NAMES[k] != "" && SEP !in VARIANT_MANAGER_FILE_NAMES[k]
  {
  }

  /** Every candidate is a non-empty path whose file name is one of the variant manager names. */
  lemma CandidatesAreVariantManagerNames(root: string, baseDir: string)
    ensures |Candidates(root, baseDir)| == 6
    ensures forall k :: 0 <= k < 6 ==>
      Candidates(root, baseDir)[k] != "" && BaseName(Candidates(root, baseDir)[k]) in VARIANT_MANAGER_FILE_NAMES
  {
    VariantManagerFileNamesArePlain();
    var names := VARIANT_MANAGER_FILE_NAMES;
    var a, b, c := InFolder(Join(root, VARIANTS_FOLDER), names), InFolder(root, names), InFolder(Join(baseDir, VARIANTS_FOLDER), names);
    InFolderNames(Join(root, VARIANTS_FOLDER), names);
    InFolderNames(root, names);
    InFolderNames(Join(baseDir, VARIANTS_FOLDER), names);
    var cs := Candidates(root, baseDir);
    forall k | 0 <= k < 6
      ensures cs[k] != "" && BaseName(cs[k]) in names
    {
      if k < 2 {
        assert cs[k] == a[k];
      } else if k < 4 {
        assert cs[k] == b[k - 2];
      } else {
        assert cs[k] == c[k - 4];
      }
    }
  }

  /** `next(path for path in paths if os.path.exists(path))`, with `None` as the default. */
  function FirstExisting(paths: seq<string>, onDisk: set<string>): (r: Option<string>)
    ensures r.Some? ==> r.value in paths && r.value in onDisk
  {
    if paths == [] then None
    else if paths[0] in onDisk then Some(paths[0])
    else FirstExisting(paths[1..], onDisk)
  }

  /** The candidate at `i` exists and no earlier one does. */
  ghost predicate IsFirstExisting(paths: seq<string>, i: int, onDisk: set<string>) {
    0 <= i < |paths| && paths[i] in onDisk && forall j :: 0 <= j < i ==> paths[j] !in onDisk
  }

  /** Nothing is chosen exactly when no candidate exists; a chosen path is a candidate that exists, and every earlier candidate does not. */
  lemma {:induction false} FirstExistingMeaning(paths: seq<string>, onDisk: set<string>)
    ensures FirstExisting(paths, onDisk).None? <==> forall i :: 0 <= i < |paths| ==> paths[i] !in onDisk
    ensures FirstExisting(paths, onDisk).Some? ==>
      exists i :: IsFirstExisting(paths, i, onDisk) && paths[i] == FirstExisting(paths, onDisk).value
  {
    if paths != [] && paths[0] in onDisk {
      assert IsFirstExisting(paths, 0, onDisk);
    } else if paths != [] {
      var rest := paths[1..];
      FirstExistingMeaning(rest, onDisk);
      assert forall i :: 0 <= i < |rest| ==> rest[i] == paths[i + 1];
      if FirstExisting(rest, onDisk).Some? {
        var i :| IsFirstExisting(rest, i, onDisk) && rest[i] == FirstExisting(rest, onDisk).value;
        assert IsFirstExisting(paths, i + 1, onDisk) by {
          forall j | 0 <= j < i + 1 ensures paths[j] !in onDisk {
            if j > 0 {
              assert paths[j] == rest[j - 1];
            }
          }
        }
      } else {
        forall i | 0 <= i < |paths| ensures paths[i] !in onDisk {
          if i > 0 {
            assert paths[i] == rest[i - 1];
          }
        }
      }
    }
  }

  /** The files of a theme folder: its `theme1.xml` and the first of its candidates that exists. */
  function Discovered(e: WalkEntry, baseDir: string, onDisk: set<string>): ThemeFiles {
    ThemeFiles(ThemeExtractor.ThemePath(e), FirstExisting(Candidates(e.root, baseDir), onDisk))
  }

  function Discover(baseDir: string, onDisk: set<string>): WalkEntry -> ThemeFiles {
    e => Discovered(e, baseDir, onDisk)
  }

  /** `find_theme_files`: one `ThemeFiles` per theme folder of the walk, in walk order. */
  function FindThemeFiles(walk: seq<WalkEntry>, baseDir: string, onDisk: set<string>): (r: seq<ThemeFiles>)
    ensures |r| <= |walk|
    ensures forall t :: t in r && t.variantManagerPath.Some? ==> t.variantManagerPath.value in onDisk
  {
    FilterMapSound(walk, ThemeExtractor.IsThemeFolder, Discover(baseDir, onDisk));
    FilterMap(walk, ThemeExtractor.IsThemeFolder, Discover(baseDir, onDisk))
  }

  /** A result is yielded exactly for each theme folder of the walk, with that folder's files. */
  lemma FindThemeFilesMeaning(walk: seq<WalkEntry>, baseDir: string, onDisk: set<string>)
    ensures |FindThemeFiles(walk, baseDir, onDisk)| <= |walk|
    ensures forall t :: t in FindThemeFiles(walk, baseDir, onDisk) <==>
      exists i :: 0 <= i < |walk| && ThemeExtractor.IsThemeFolder(walk[i]) && t == Discovered(walk[i], baseDir, onDisk)
  {
    FilterMapComplete(walk, ThemeExtractor.IsThemeFolder, Discover(baseDir, onDisk));
    FilterMapSound(walk, ThemeExtractor.IsThemeFolder, Discover(baseDir, onDisk));
  }

  /** The theme files of a result, in order. */
  function ThemePaths(themes: seq<ThemeFiles>): (r: seq<string>)
    ensures |r| == |themes|
  {
    seq(|themes|, k requires 0 <= k < |themes| => themes[k].themePath)
  }

  /** The inspector finds the same theme files, in the same order, as the extractor. */
  lemma SameThemesAsExtractor(walk: seq<WalkEntry>, baseDir: string, onDisk: set<string>)
    ensures ThemePaths(FindThemeFiles(walk, baseDir, onDisk)) == ThemeExtractor.FindThemeFiles(walk)
  {
    var project := (t: ThemeFiles) => t.themePath;
    FilterMapProject(walk, ThemeExtractor.IsThemeFolder, ThemeExtractor.ThemePath, Discover(baseDir, onDisk), project);
  }

  /** A variant manager path is kept only when it is present and not empty, as Python's truth test has it. */
  predicate HasVariantManager(t: ThemeFiles) {
    t.variantManagerPath.Some? && t.variantManagerPath.value != ""
  }

  /** The variant manager path `main` keeps after the themes `themes`: the first one found. */
  function FirstVariantManager(themes: seq<ThemeFiles>): (r: Option<string>)
    ensures r.Some? ==> r.value != ""
  {
    if themes == [] then None
    else
      KeepFirst(FirstVariantManager(themes[..|themes| - 1]), themes[|themes| - 1])
  }

  /** One step of the loop of `main`: a theme's variant manager is kept only when none is kept yet. */
  function KeepFirst(kept: Option<string>, t: ThemeFiles): Option<string> {
    if kept.None? && HasVariantManager(t) then t.variantManagerPath else kept
  }

  lemma FirstVariantManagerSnoc(themes: seq<ThemeFiles>, i: nat)
    requires i < |themes|
    ensures FirstVariantManager(themes[..i + 1]) == KeepFirst(FirstVariantManager(themes[..i]), themes[i])
  {
    assert themes[..i + 1][..i] == themes[..i];
  }

  /** The variant manager step of the loop of `main`. */
  method KeepVariantManager(kept: Option<string>, theme: ThemeFiles) returns (kept': Option<string>)
    ensures kept' == KeepFirst(kept, theme)
    ensures kept.Some? ==> kept' == kept
    ensures kept.None? ==> (kept'.Some? <==> HasVariantManager(theme))
    ensures kept.None? && kept'.Some? ==> kept' == theme.variantManagerPath
  {
    kept' := kept;
    if kept.None? && theme.variantManagerPath.Some? && theme.variantManagerPath.value != "" {
      kept' := theme.variantManagerPath;
    }
  }

  /** Nothing is kept exactly when no theme has a variant manager; a kept path is that of the first theme that has one. */
  lemma {:induction false} FirstVariantManagerMeaning(themes: seq<ThemeFiles>)
    ensures FirstVariantManager(themes).None? <==> forall i :: 0 <= i < |themes| ==> !HasVariantManager(themes[i])
    ensures FirstVariantManager(themes).Some? ==>
      exists i :: 0 <= i < |themes| && HasVariantManager(themes[i]) &&
        themes[i].variantManagerPath == FirstVariantManager(themes) &&
        forall j :: 0 <= j < i ==> !HasVariantManager(themes[j])
  {
    if themes != [] {
      var init := themes[..|themes| - 1];
      FirstVariantManagerMeaning(init);
      assert forall i :: 0 <= i < |init| ==> init[i] == themes[i];
    }
  }

  /** The first one wins: once a variant manager is kept, later themes do not replace it. */
  lemma {:induction false} FirstVariantManagerWins(a: seq<ThemeFiles>, b: seq<ThemeFiles>)
    ensures FirstVariantManager(a + b) == if FirstVariantManager(a).Some? then FirstVariantManager(a) else FirstVariantManager(b)
    decreases |b|
  {
    if b == [] {
      assert a + b == a;
    } else {
      var init := b[..|b| - 1];
      assert (a + b)[..|a + b| - 1] == a + init;
      FirstVariantManagerWins(a, init);
    }
  }

  /** For what `find_theme_files` yields, the truth test adds nothing: every found path is a non-empty candidate. */
  lemma DiscoveredPathsAreNotEmpty(walk: seq<WalkEntry>, baseDir: string, onDisk: set<string>)
    ensures forall t :: t in FindThemeFiles(walk, baseDir, onDisk) ==> (HasVariantManager(t) <==> t.variantManagerPath.Some?)
  {
    FindThemeFilesMeaning(walk, baseDir, onDisk);
    forall t | t in FindThemeFiles(walk, baseDir, onDisk)
      ensures HasVariantManager(t) <==> t.variantManagerPath.Some?
    {
      var i :| 0 <= i < |walk| && ThemeExtractor.IsThemeFolder(walk[i]) && t == Discovered(walk[i], baseDir, onDisk);
      var cs := Candidates(walk[i].root, baseDir);
      FirstExistingMeaning(cs, onDisk);
      CandidatesAreVariantManagerNames(walk[i].root, baseDir);
    }
  }

  /** `read_xml_as_string`: the root of the variant manager document, or the message an unparsable file ends the run with. */
  function ReadXml(path: string, doc: Document): (r: Result<Element, string>)
    ensures r.Success? <==> doc.WellFormed?
    ensures r.Success? ==> r.value == doc.root
    ensures r.Failure? ==> r.error == ThemeExtractor.ParseFailureMessage(path, doc.detail)
  {
    match doc
    case Malformed(detail) => Failure(ThemeExtractor.ParseFailureMessage(path, detail))
    case WellFormed(root) => Success(root)
  }

  /** The variant manager `main` shows at the end: where it was found and its document. */
  datatype VariantManagerReport = VariantManagerReport(path: string, root: Element)

  /** What the inspector reports: whether a theme was found, each theme's report and the variant manager, if any. */
  datatype Inspection = Inspection(found: bool, reports: seq<ThemeExtractor.ThemeReport>, variantManager: Option<VariantManagerReport>)

  /**
   * How `main` can end early, with what it printed before the exit: a theme file that
   * does not parse stops the loop after the reports of the themes before it; a variant
   * manager that does not parse stops the run after every report and the heading of
   * its contents.
   */
  datatype Exit =
    | ThemeUnreadable(stopped: ThemeExtractor.Interrupted)
    | VariantManagerUnreadable(reports: seq<ThemeExtractor.ThemeReport>, path: string, message: string)

  /** The closing step of `main`: the kept variant manager, read once, if a theme was found. */
  function Conclusion(found: bool, reports: seq<ThemeExtractor.ThemeReport>, kept: Option<string>, parse: string -> Document)
    : (r: Result<Inspection, Exit>)
    ensures r.Success? ==> r.value.found == found && r.value.reports == reports
    ensures r.Success? ==> (r.value.variantManager.Some? <==> found && kept.Some? && kept.value != "")
    ensures r.Success? && r.value.variantManager.Some? ==>
      parse(kept.value).WellFormed? && r.value.variantManager.value == VariantManagerReport(kept.value, parse(kept.value).root)
    ensures r.Failure? <==> found && kept.Some? && kept.value != "" && parse(kept.value).Malformed?
    ensures r.Failure? ==>
      r.error == VariantManagerUnreadable(reports, kept.value, ThemeExtractor.ParseFailureMessage(kept.value, parse(kept.value).detail))
  {
    if found && kept.Some? && kept.value != "" then
      match ReadXml(kept.value, parse(kept.value))
      case Failure(m) => Failure(VariantManagerUnreadable(reports, kept.value, m))
      case Success(root) => Success(Inspection(found, reports, Some(VariantManagerReport(kept.value, root))))
    else Success(Inspection(found, reports, None))
  }

  /** A kept variant manager implies that some theme was found, so the closing read happens whenever one is kept. */
  lemma KeptImpliesFound(themes: seq<ThemeFiles>)
    ensures FirstVariantManager(themes).Some? ==> themes != [] && FirstVariantManager(themes).value != ""
  {
    FirstVariantManagerMeaning(themes);
  }

  /**
   * The inspector's `main` after the folder has been chosen: every theme is reported in
   * walk order, `found` is set by the first one, the first variant manager found is
   * kept, and it is read at the end; an unparsable file ends the run.
   */
  method InspectThemes(walk: seq<WalkEntry>, baseDir: string, onDisk: set<string>, parse: string -> Document)
    returns (r: Result<Inspection, Exit>)
    ensures r.Success? ==> (r.value.found <==> FindThemeFiles(walk, baseDir, onDisk) != [])
    ensures ThemeExtractor.Reports(ThemeExtractor.FindThemeFiles(walk), parse).Failure? ==>
      r == Failure(ThemeUnreadable(ThemeExtractor.Reports(ThemeExtractor.FindThemeFiles(walk), parse).error))
    ensures ThemeExtractor.Reports(ThemeExtractor.FindThemeFiles(walk), parse).Success? ==>
      r == Conclusion(FindThemeFiles(walk, baseDir, onDisk) != [], ThemeExtractor.Reports(ThemeExtractor.FindThemeFiles(walk), parse).value,
        FirstVariantManager(FindThemeFiles(walk, baseDir, onDisk)), parse)
  {
    var themes := FindThemeFiles(walk, baseDir, onDisk);
    SameThemesAsExtractor(walk, baseDir, onDisk);
    var progress := InspectEach(themes, parse);
    match progress
    case Failure(stopped) =>
      r := Failure(ThemeUnreadable(stopped));
    case Success(Progress(found, reports, kept)) =>
      r := Conclusion(found, reports, kept, parse);
  }

  /** Where the loop of `main` stands: `found`, the reports so far and the variant manager kept. */
  datatype Progress = Progress(found: bool, reports: seq<ThemeExtractor.ThemeReport>, kept: Option<string>)

  /** The loop of `main` over the themes, up to the first theme file that does not parse. */
  method InspectEach(themes: seq<ThemeFiles>, parse: string -> Document) returns (r: Result<Progress, ThemeExtractor.Interrupted>)
    ensures ThemeExtractor.Reports(ThemePaths(themes), parse).Failure? ==>
      r == Failure(ThemeExtractor.Reports(ThemePaths(themes), parse).error)
    ensures ThemeExtractor.Reports(ThemePaths(themes), parse).Success? ==>
      r == Success(Progress(themes != [], ThemeExtractor.Reports(ThemePaths(themes), parse).value, FirstVariantManager(themes)))
  {
    var paths := ThemePaths(themes);
    var found := false;
    var reports: seq<ThemeExtractor.ThemeReport> := [];
    var kept: Option<string> := None;
    for i := 0 to |themes|
      invariant found <==> i > 0
      invariant kept == FirstVariantManager(themes[..i])
      invariant ThemeExtractor.Reports(paths[..i], parse) == Success(reports)
    {
      var theme := themes[i];
      found := true;
      var contents := ThemeExtractor.GetTargetElements(theme.themePath, parse(theme.themePath));
      SequenceSnoc(paths, i, ThemeExtractor.ReportOf(parse));
      if contents.Failure? {
        SequenceFailurePersists(paths, i + 1, ThemeExtractor.ReportOf(parse));
        return Failure(Stopped(reports, theme.themePath, contents.error));
      }
      reports := reports + [ThemeExtractor.ThemeReport(theme.themePath, contents.value)];
      kept := KeepVariantManager(kept, theme);
      FirstVariantManagerSnoc(themes, i);
    }
    assert themes[..|themes|] == themes;
    assert paths[..|themes|] == paths;
    return Success(Progress(found, reports, kept));
  }
}
