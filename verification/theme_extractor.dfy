/**
 * The theme extractor: it walks a folder tree, picks the `theme1.xml` of every
 * `theme/theme` folder, and lists the `extLst` elements of each theme in document
 * order. The directory walk and the parser are inputs: the walk is the sequence of
 * `(folder, subfolders, files)` entries `os.walk` yields, and `parse` maps a path to
 * the parsed document or the parser's failure message.
 */
module ThemeExtractor {
  import opened Wrappers
  import opened PosixPath
  import opened Xml
  import opened DirectoryWalk

  const TARGET_TAG := "a:extLst"
  const THEME_FOLDER_NAME := "theme"
  const THEME_FILE_NAME := "theme1.xml"

  /** A walked folder holds a theme when it and its parent are named "theme" and it contains "theme1.xml". */
  predicate IsThemeFolder(e: WalkEntry) {
    && BaseName(e.root) == THEME_FOLDER_NAME
    && BaseName(DirName(e.root)) == THEME_FOLDER_NAME
    && THEME_FILE_NAME in e.files
  }

  /** The theme file of a theme folder. */
  function ThemePath(e: WalkEntry): string {
    Join(e.root, THEME_FILE_NAME)
  }

  /**
   * `find_theme_files`: the `theme1.xml` path of each theme folder, in walk order; every
   * path yielded names a `theme1.xml` directly inside a `theme/theme` folder.
   */
  function FindThemeFiles(walk: seq<WalkEntry>): (r: seq<string>)
    ensures |r| <= |walk|
    ensures forall p :: p in r ==> IsThemeFilePath(p)
  {
    ThemePathsLocated(walk);
    FilterMap(walk, IsThemeFolder, ThemePath)
  }

  /** `p` ends in `theme/theme/theme1.xml`. */
  predicate IsThemeFilePath(p: string) {
    && BaseName(p) == THEME_FILE_NAME
    && BaseName(DirName(p)) == THEME_FOLDER_NAME
    && BaseName(DirName(DirName(p))) == THEME_FOLDER_NAME
  }

  lemma ThemePathsLocated(walk: seq<WalkEntry>)
    ensures forall p :: p in FilterMap(walk, IsThemeFolder, ThemePath) ==> IsThemeFilePath(p)
  {
    FilterMapSound(walk, IsThemeFolder, ThemePath);
    forall e | IsThemeFolder(e) ensures IsThemeFilePath(ThemePath(e)) {
      ThemePathLocation(e.root);
    }
  }

  /** A path is yielded exactly when some walked folder is a theme folder and the path is its `theme1.xml`. */
  lemma FindThemeFilesMeaning(walk: seq<WalkEntry>)
    ensures |FindThemeFiles(walk)| <= |walk|
    ensures forall p :: p in FindThemeFiles(walk) <==>
      exists i :: 0 <= i < |walk| && IsThemeFolder(walk[i]) && p == ThemePath(walk[i])
  {
    FilterMapComplete(walk, IsThemeFolder, ThemePath);
    FilterMapSound(walk, IsThemeFolder, ThemePath);
  }

  /** Walking two parts of a tree one after the other yields the results of the first part first. */
  lemma FindThemeFilesAppend(a: seq<WalkEntry>, b: seq<WalkEntry>)
    ensures FindThemeFiles(a + b) == FindThemeFiles(a) + FindThemeFiles(b)
  {
    FilterMapAppend(a, b, IsThemeFolder, ThemePath);
  }

  /**
   * The theme file lies directly in its folder: joined to a folder named "theme",
   * "theme1.xml" is the basename of the result and the folder its dirname.
   */
  lemma ThemePathLocation(root: string)
    requires BaseName(root) == THEME_FOLDER_NAME
    ensures BaseName(Join(root, THEME_FILE_NAME)) == THEME_FILE_NAME
    ensures DirName(Join(root, THEME_FILE_NAME)) == root
  {
    assert SEP !in THEME_FILE_NAME;
    assert root[|root| - 1] == 'e';
    BaseNameJoin(root, THEME_FILE_NAME);
    DirNameJoin(root, THEME_FILE_NAME);
  }

  /** `tag.split("}", maxsplit=1)[-1]`: the text after the first "}", or the whole tag when it has none. */
  function LocalName(tag: string): (r: string)
    ensures |r| <= |tag| && r == tag[|tag| - |r|..]
    ensures '}' !in tag ==> r == tag
  {
    var i := Find(tag, '}');
    if i < 0 then tag else tag[i + 1..]
  }

  /** The local name is the whole tag when it has no "}", and otherwise what follows its first "}". */
  lemma LocalNameMeaning(tag: string)
    ensures '}' !in tag ==> LocalName(tag) == tag
    ensures '}' in tag ==> exists k :: 0 <= k < |tag| && tag[k] == '}' && '}' !in tag[..k] && LocalName(tag) == tag[k + 1..]
  {
    var i := Find(tag, '}');
    if '}' in tag {
      assert i >= 0;
      assert '}' !in tag[..i];
    }
  }

  /** `TARGET_TAG.split(":")[-1]`: the text after the last ":". */
  function AfterLastColon(s: string): string {
    s[RFind(s, ':') + 1..]
  }

  /** An element is a target when its local name is "a:extLst" or "extLst". */
  predicate IsTarget(e: Element) {
    IsTargetName(LocalName(e.tag))
  }

  predicate IsTargetName(localName: string) {
    localName == TARGET_TAG || localName == AfterLastColon(TARGET_TAG)
  }

  lemma TargetLocalName()
    ensures AfterLastColon(TARGET_TAG) == "extLst"
  {
    assert TARGET_TAG[1] == ':';
    assert forall j :: 1 < j < |TARGET_TAG| ==> TARGET_TAG[j] != ':';
  }

  /** The namespace part "{uri}" of a tag is stripped, whatever the uri (which cannot contain "}"). */
  lemma LocalNameStripsNamespace(ns: string, local: string)
    requires '}' !in ns
    ensures LocalName("{" + ns + "}" + local) == local
  {
    var t := "{" + ns + "}";
    var tag := t + local;
    assert tag[|t| - 1] == '}';
    forall j | 0 <= j < |t| - 1 ensures tag[j] != '}' {
      if j > 0 {
        assert tag[j] == ns[j - 1];
      }
    }
    assert Find(tag, '}') == |t| - 1;
    assert tag[|t|..] == local;
  }

  /** A namespaced `extLst` is a target; a different local name is not. */
  lemma NamespacedTargets(ns: string, children: seq<Element>)
    requires '}' !in ns
    ensures IsTarget(Element("{" + ns + "}extLst", map[], children))
    ensures !IsTarget(Element("{" + ns + "}ext", map[], children))
  {
    TargetLocalName();
    LocalNameStripsNamespace(ns, "extLst");
    assert "{" + ns + "}" + "extLst" == "{" + ns + "}extLst";
    LocalNameStripsNamespace(ns, "ext");
    assert "{" + ns + "}" + "ext" == "{" + ns + "}ext";
  }

  /** A tag left with its "a:" prefix is a target too. */
  lemma PrefixedTarget(children: seq<Element>)
    ensures IsTarget(Element(TARGET_TAG, map[], children))
  {
    assert forall j :: 0 <= j < |TARGET_TAG| ==> TARGET_TAG[j] != '}';
  }

  /** The targets among `es`, in their order. */
  function Itself(e: Element): Element {
    e
  }

  function Targets(es: seq<Element>): seq<Element> {
    FilterMap(es, IsTarget, Itself)
  }

  /** An element is kept exactly when it is a target. */
  lemma TargetsMeaning(es: seq<Element>)
    ensures |Targets(es)| <= |es|
    ensures forall x :: x in Targets(es) <==> x in es && IsTarget(x)
  {
    FilterMapComplete(es, IsTarget, Itself);
    FilterMapSound(es, IsTarget, Itself);
  }

  /** Keeping targets commutes with concatenation, so document order is kept. */
  lemma TargetsAppend(a: seq<Element>, b: seq<Element>)
    ensures Targets(a + b) == Targets(a) + Targets(b)
  {
    FilterMapAppend(a, b, IsTarget, Itself);
  }

  function ParseFailureMessage(path: string, detail: string): string {
    "No se pudo parsear " + path + ": " + detail
  }

  /** The `extLst` elements of the parsed file at `path`, or the message an unparsable file ends the run with. */
  function TargetsOf(path: string, doc: Document): Result<seq<Element>, string> {
    match doc
    case Malformed(detail) => Failure(ParseFailureMessage(path, detail))
    case WellFormed(root) => Success(Targets(Iter(root)))
  }

  /**
   * `get_target_elements`: the `extLst` elements of the document, the root included,
   * in document order; an unparsable file ends the program with a message, here a
   * `Failure`. The matches are the elements themselves, not their serialisation.
   */
  method GetTargetElements(path: string, doc: Document) returns (r: Result<seq<Element>, string>)
    ensures r == TargetsOf(path, doc)
  {
    if doc.Malformed? {
      return Failure(ParseFailureMessage(path, doc.detail));
    }
    var matches := CollectTargets(Iter(doc.root));
    return Success(matches);
  }

  /** The loop of `get_target_elements` over the elements in document order. */
  method CollectTargets(elements: seq<Element>) returns (matches: seq<Element>)
    ensures matches == Targets(elements)
  {
    matches := [];
    for i := 0 to |elements|
      invariant matches == Targets(elements[..i])
    {
      var element := elements[i];
      var isTarget := MatchesTarget(element);
      if isTarget {
        matches := matches + [element];
      }
      FilterMapSnoc(elements, i, IsTarget, Itself);
    }
    assert elements[..|elements|] == elements;
  }

  /** The test in the loop of `get_target_elements`: strip the namespace, then compare with both spellings. */
  method MatchesTarget(element: Element) returns (b: bool)
    ensures b == IsTarget(element)
  {
    var tagWithoutNs := LocalName(element.tag);
    b := tagWithoutNs == TARGET_TAG || tagWithoutNs == AfterLastColon(TARGET_TAG);
  }

  /** What the extractor reports for one theme. */
  datatype ThemeReport = ThemeReport(themePath: string, matches: seq<Element>)

  /** What the extractor reports in all: whether a theme was found, and each theme's report. */
  datatype Extraction = Extraction(found: bool, reports: seq<ThemeReport>)

  /** The report of the theme file at `path`, or the message an unparsable file ends the run with. */
  function Report(path: string, doc: Document): Result<ThemeReport, string> {
    match TargetsOf(path, doc)
    case Failure(m) => Failure(m)
    case Success(matches) => Success(ThemeReport(path, matches))
  }

  /**
   * Where an unparsable theme file ended the run: the reports printed before it, the
   * path already announced with "Tema encontrado en:", and the exit message.
   */
  type Interrupted = Stopped<ThemeReport, string, string>

  /** The reports for `paths`, in order, or where the first one that does not parse ended the run. */
  function Reports(paths: seq<string>, parse: string -> Document): Result<seq<ThemeReport>, Interrupted> {
    Sequence(paths, ReportOf(parse))
  }

  /** The report step of the loop, for a given parser. */
  function ReportOf(parse: string -> Document): string -> Result<ThemeReport, string> {
    p => Report(p, parse(p))
  }

  /** `reports` are those of `paths`, one for one: each file parsed, and its report lists its targets. */
  ghost predicate ReportsFor(reports: seq<ThemeReport>, paths: seq<string>, parse: string -> Document) {
    && |reports| == |paths|
    && forall i :: 0 <= i < |paths| ==>
         parse(paths[i]).WellFormed? && reports[i] == ThemeReport(paths[i], Targets(Iter(parse(paths[i]).root)))
  }

  /**
   * Successful reports follow the theme paths one for one; the run fails exactly when
   * a theme file does not parse. It then stops at the first such file, with its message
   * and the reports of every theme before it.
   */
  lemma ReportsMeaning(paths: seq<string>, parse: string -> Document)
    ensures Reports(paths, parse).Success? ==> ReportsFor(Reports(paths, parse).value, paths, parse)
    ensures Reports(paths, parse).Failure? <==> exists i :: 0 <= i < |paths| && parse(paths[i]).Malformed?
    ensures Reports(paths, parse).Failure? ==>
      var stop := Reports(paths, parse).error;
      exists i :: 0 <= i < |paths| && parse(paths[i]).Malformed? && stop.at == paths[i]
        && stop.error == ParseFailureMessage(paths[i], parse(paths[i]).detail)
        && ReportsFor(stop.done, paths[..i], parse)
  {
    ReportsSucceed(paths, parse);
    ReportsFailIff(paths, parse);
    ReportsStop(paths, parse);
  }

  /** The report step succeeds exactly on a parsed file, with the report of its targets. */
  lemma ReportStep(p: string, parse: string -> Document)
    ensures ReportOf(parse)(p).Success? <==> parse(p).WellFormed?
    ensures ReportOf(parse)(p).Success? ==> ReportOf(parse)(p).value == ThemeReport(p, Targets(Iter(parse(p).root)))
    ensures ReportOf(parse)(p).Failure? ==> ReportOf(parse)(p).error == ParseFailureMessage(p, parse(p).detail)
  {
  }

  /** Results of the report step, one per path, are the reports of those paths. */
  lemma ReportsForSteps(reports: seq<ThemeReport>, paths: seq<string>, parse: string -> Document)
    requires |reports| == |paths|
    requires forall j :: 0 <= j < |paths| ==> ReportOf(parse)(paths[j]) == Success(reports[j])
    ensures ReportsFor(reports, paths, parse)
  {
    forall j | 0 <= j < |paths|
      ensures parse(paths[j]).WellFormed? && reports[j] == ThemeReport(paths[j], Targets(Iter(parse(paths[j]).root)))
    {
      ReportStep(paths[j], parse);
    }
  }

  lemma ReportsSucceed(paths: seq<string>, parse: string -> Document)
    ensures Reports(paths, parse).Success? ==> ReportsFor(Reports(paths, parse).value, paths, parse)
  {
    SequenceSuccess(paths, ReportOf(parse));
    if Reports(paths, parse).Success? {
      ReportsForSteps(Reports(paths, parse).value, paths, parse);
    }
  }

  lemma ReportsFailIff(paths: seq<string>, parse: string -> Document)
    ensures Reports(paths, parse).Failure? <==> exists i :: 0 <= i < |paths| && parse(paths[i]).Malformed?
  {
    SequenceFailure(paths, ReportOf(parse));
    forall i | 0 <= i < |paths| ensures ReportOf(parse)(paths[i]).Failure? <==> parse(paths[i]).Malformed? {
      ReportStep(paths[i], parse);
    }
  }

  lemma ReportsStop(paths: seq<string>, parse: string -> Document)
    ensures Reports(paths, parse).Failure? ==>
      var stop := Reports(paths, parse).error;
      exists i :: 0 <= i < |paths| && parse(paths[i]).Malformed? && stop.at == paths[i]
        && stop.error == ParseFailureMessage(paths[i], parse(paths[i]).detail)
        && ReportsFor(stop.done, paths[..i], parse)
  {
    SequenceFailure(paths, ReportOf(parse));
    if Reports(paths, parse).Failure? {
      var stop := Reports(paths, parse).error;
      var i :| 0 <= i < |paths| && paths[i] == stop.at && ReportOf(parse)(paths[i]) == Failure(stop.error)
        && Sequence(paths[..i], ReportOf(parse)) == Success(stop.done)
        && forall j :: 0 <= j < i ==> ReportOf(parse)(paths[j]).Success?;
      ReportStep(paths[i], parse);
      SequenceSuccess(paths[..i], ReportOf(parse));
      ReportsForSteps(stop.done, paths[..i], parse);
    }
  }

  /**
   * The extractor's `main` after the folder has been chosen: each theme is reported
   * in walk order, `found` is set by the first one, and an unparsable theme ends the run
   * after the reports of the themes before it.
   */
  method ExtractThemes(walk: seq<WalkEntry>, parse: string -> Document) returns (r: Result<Extraction, Interrupted>)
    ensures r.Success? ==> (r.value.found <==> FindThemeFiles(walk) != [])
    ensures Reports(FindThemeFiles(walk), parse).Success? ==> r.Success? && r.value.reports == Reports(FindThemeFiles(walk), parse).value
    ensures Reports(FindThemeFiles(walk), parse).Failure? ==> r == Failure(Reports(FindThemeFiles(walk), parse).error)
  {
    var themeFiles := FindThemeFiles(walk);
    var found := false;
    var reports: seq<ThemeReport> := [];
    for i := 0 to |themeFiles|
      invariant found <==> i > 0
      invariant Reports(themeFiles[..i], parse) == Success(reports)
    {
      var themeFile := themeFiles[i];
      found := true;
      var contents := GetTargetElements(themeFile, parse(themeFile));
      SequenceSnoc(themeFiles, i, ReportOf(parse));
      if contents.Failure? {
        SequenceFailurePersists(themeFiles, i + 1, ReportOf(parse));
        return Failure(Stopped(reports, themeFile, contents.error));
      }
      reports := reports + [ThemeReport(themeFile, contents.value)];
    }
    assert themeFiles[..|themeFiles|] == themeFiles;
    return Success(Extraction(found, reports));
  }

  /** `found` is set exactly when some walked folder is a theme folder. */
  lemma FoundIffThemeFolder(walk: seq<WalkEntry>)
    ensures FindThemeFiles(walk) != [] <==> exists i :: 0 <= i < |walk| && IsThemeFolder(walk[i])
  {
    FilterMapEmpty(walk, IsThemeFolder, ThemePath);
  }
}
