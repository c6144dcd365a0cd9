# OpenXML theme tools and folder comparator, modelled in Dafny

The repository is a set of small desktop tools for people who take apart Office
theme packages (OpenXML / OPC packages unzipped into folders):

- **`.rels` validator** (`revisar_rel.py`). Every `Relationship` of a
  relationships part must carry an `Id` that is present and unique, a `Type` and
  a `Target`. The Target is resolved against the folder of the part that owns the
  relationships, which is the parent of `_rels`, and must exist on disk.
- **`[Content_Types].xml` validator** (`revisar_content_types.py`). Every `Default`
  needs a unique `Extension` and a `ContentType`. Every `Override` needs a unique
  `PartName` that names an existing file of the package, and a `ContentType`.
- **Theme-family `[Content_Types].xml` validator** (`revisar_thm15themeFamily.py`).
  It runs the same checks and also remembers the last `Override` whose PartName
  names a `themeVariantManager.xml` part.
- **Theme extractor** (`extractor_temas.py`). It walks a folder tree, finds every
  `theme/theme/theme1.xml` and lists the `extLst` elements of each.
- **Theme inspector** (`inspector_temas_openxml.py`). It does what the extractor
  does. It also looks for a variant manager in six candidate places around each
  theme, keeps the first one found, and reads it once at the end.
- **Folder comparator** (`comparador.py`). It compares two scanned folders path by
  path. Each path gets a status per side and a "differs" flag. With "differences
  only" switched on, it shows the differing paths and all their ancestors.

The model is split into modules:

- `Wrappers`: `Option`/`Result`, and `Sequence`, a loop over steps that stops at
  the first failure. It keeps the results of the steps before that failure.
- `Reporting`: the validators' error list and its closing OK sentinel.
- `Xml`: the `ElementTree` surface the tools use: `get`, `iter`, `findall`.
- `PosixPath`: `join`, `dirname`, `basename`, `normpath`, `lstrip`, `lower` and
  `split`, with POSIX semantics.
- `DirectoryWalk`: the entries of `os.walk`, and the filter-then-transform shape
  both theme tools use.
- One module per tool: `Relationships`, `ContentTypes`, `ThemeFamilyContentTypes`,
  `ThemeExtractor`, `ThemeInspector` and `FolderCompare`.

Each validator is written twice:

- a **specification function** (`Findings`, then `Validate`) that lists what is
  wrong, in order;
- a **method** with the source's loop, its set of values seen so far, and its error
  list. The method is proved to return exactly `Validate`.

The comparator's state is the class `FolderCompare.FolderComparator`. Its methods
update the comparison, the marked paths and the last scans in place. They keep the
invariant `Valid()`: the stored comparison and marked paths are always those of the
last two scans.

The environment is passed in as inputs:

- the filesystem is `onDisk`, the set of paths `os.path.exists` accepts;
- the directory walk is `walk`, the sequence `os.walk` yields;
- the folders `os.path.isdir` accepts are `folders`;
- `_scan_directory` is `scan`;
- `ET.parse` is `parse`, a function from a path to either the parsed root or the
  parser's message.

Where a docstring and the code disagree, the model follows the code. The example in
the docstring of `resolve_target_path` (`revisar_rel.py:8-12`) resolves
`../slideMasters` as if `_rels` were the base folder. The code resolves it from the
parent of `_rels`, one level higher, and so does the model.

## Model

| member | source | states |
|---|---|---|
| Reporting.ErrorMessage | revisar_rel.py:63-66 | every error the validators record carries the "[ERROR" tag |
| Reporting.ErrorIsNotOk | revisar_rel.py:109-111 | no error message can be mistaken for the OK sentinel |
| Reporting.Finish | revisar_rel.py:109-116 | the returned list is never empty: the errors unchanged, or the OK sentinel alone when there were none |
| Reporting.FinishIsOkIffClean | revisar_rel.py:109-116 | the result is the OK sentinel alone exactly when no error was recorded |
| Xml.Iter | extractor_temas.py:47 | `iter()` starts with the element itself, so the root is itself a candidate |
| Xml.WithTag | revisar_content_types.py:40-41 | `findall` keeps only elements with the given tag, every one of them, and never more than it is given; WithTagAppend and WithTagCount pin order and multiplicity |
| Xml.WithTagAppend | revisar_content_types.py:40-41 | filtering a concatenation filters each part in turn, so matches keep their document order |
| Xml.WithTagCount | revisar_content_types.py:40-41 | each element with the tag is kept exactly as often as it occurs, and no other element is kept |
| Xml.FindAll | revisar_content_types.py:40-41 | `findall(tag)` gives at most the children, exactly those with that tag |
| Xml.FindAllBelow | revisar_rel.py:48 | `findall(".//" + tag)` gives the matches of `iter()` in document order, without the element itself |
| Xml.PresentValues | revisar_rel.py:52-74 | the set of seen Ids (or Extensions, PartNames) is exactly the non-empty values the earlier elements carry |
| Xml.PresentValuesSnoc | revisar_rel.py:73-74 | one loop step adds the element's value to the seen set only when it is present |
| Xml.SeenIffOccurs | revisar_rel.py:69 | a value is in the seen set exactly when it occurred before |
| PosixPath.Find | extractor_temas.py:48 | the first "}" of a tag, or -1 when there is none |
| PosixPath.RFind | extractor_temas.py:49 | the last occurrence of a character, or -1 |
| PosixPath.RStrip | revisar_rel.py:14 | the trailing run of a character is removed and nothing else |
| PosixPath.LStrip | revisar_content_types.py:19 | the leading run of stripped characters is removed; what is left is a suffix of the input and does not start with one of them |
| PosixPath.LStripRun | revisar_content_types.py:19 | any run of stripped characters in front changes nothing |
| PosixPath.Lower | revisar_thm15themeFamily.py:88 | same length, each ASCII capital turned into its small letter |
| PosixPath.Join | revisar_rel.py:23 | an absolute second part replaces the first; otherwise the result starts with the first part and ends with the second |
| PosixPath.BaseName | extractor_temas.py:29 | the part after the last separator: a suffix of the path with no separator in it |
| PosixPath.DirName | revisar_rel.py:14 | a prefix of the path |
| PosixPath.BaseNameJoin | extractor_temas.py:35 | a plain name joined to a folder is the basename of the result |
| PosixPath.DirNameJoin | revisar_rel.py:14-18 | the dirname of `folder/name` is `folder` |
| PosixPath.SplitPiecesHaveNoSeparator | revisar_rel.py:23 | no piece of a split contains a separator |
| PosixPath.SplitJoinSep | revisar_rel.py:23 | splitting what was joined with '/' gives back the pieces |
| PosixPath.NormPath | revisar_rel.py:23 | `normpath` never returns the empty string |
| PosixPath.NormCompsNormal | revisar_rel.py:23 | the components `normpath` keeps have no empty, "." or separator-bearing entries, no ".." under a root, and every ".." comes before any name |
| PosixPath.NormPathFixedPoint | revisar_rel.py:23 | a path already in normal form is left unchanged by `normpath` |
| PosixPath.NormPathIdempotent | revisar_rel.py:23 | `normpath` is idempotent |
| Relationships.ResolutionBase | revisar_rel.py:14-20 | the base folder is a leading part of the `.rels` path: its own folder, or that folder's parent under a `_rels` folder; RelsFolderBase and PlainFolderBase give its value |
| Relationships.ResolveTargetPath | revisar_rel.py:5-24 | a resolved Target is already normalised; an absolute Target resolves to itself, normalised |
| Relationships.RelsFolderBase | revisar_rel.py:14-18 | Targets in `folder/x_rels/name` are relative to `folder`, the parent of the `_rels` folder |
| Relationships.PlainFolderBase | revisar_rel.py:14-20 | in any other folder Targets are relative to the `.rels` file's own folder |
| Relationships.AbsoluteTargetIgnoresSource | revisar_rel.py:22-24 | an absolute Target resolves the same wherever the `.rels` file lies |
| Relationships.Message | revisar_rel.py:63-104 | every per-relationship message is an error message |
| Relationships.IdFindings | revisar_rel.py:61-75 | "no Id" exactly when Id is absent or empty; "duplicate Id" exactly when the Id was seen before; at most one of them |
| Relationships.TypeFindings | revisar_rel.py:77-84 | "no Type" exactly when Type is absent or empty, naming the Id as Python prints it ("None" when absent) |
| Relationships.TargetFindings | revisar_rel.py:86-104 | "no Target" exactly when Target is absent or empty; otherwise "not found" exactly when the resolved path does not exist |
| Relationships.RelationshipFindingsMeaning | revisar_rel.py:54-104 | each check of one relationship fires exactly under its condition, and the errors come in the order Id, Type, Target |
| Relationships.FindingsPrefix | revisar_rel.py:54-104 | the errors of the first relationships are a prefix of the errors of all of them |
| Relationships.DuplicateIdCount | revisar_rel.py:69-72 | an Id that occurs n >= 1 times yields exactly n - 1 duplicate errors |
| Relationships.MissingIdCount | revisar_rel.py:63-66 | the number of "no Id" errors equals the number of relationships without an Id |
| Relationships.Validate | revisar_rel.py:27-116 | never empty; a parse error is the single message; the OK sentinel alone exactly when the file parses and no relationship has a problem |
| Relationships.ValidateRelsFile | revisar_rel.py:27-116 | the loop with its seen-Id set returns exactly `Validate` |
| Relationships.CheckId | revisar_rel.py:61-75 | appends the Id errors and adds a present Id to the seen set |
| Relationships.CheckType | revisar_rel.py:77-84 | appends exactly the Type errors |
| Relationships.CheckTarget | revisar_rel.py:86-104 | appends exactly the Target and existence errors |
| ContentTypes.ResolvePartPath | revisar_content_types.py:17-20 | a resolved PartName is already normalised |
| ContentTypes.LeadingSeparatorsIgnored | revisar_content_types.py:19-20 | any run of leading '/' or '\' in a PartName is ignored |
| ContentTypes.SamePartWithOrWithoutSeparators | revisar_content_types.py:19-20 | "/a", "\/a" and "a" name the same file |
| ContentTypes.Message | revisar_content_types.py:52-109 | every per-element message is an error message |
| ContentTypes.ExtensionFindings | revisar_content_types.py:49-64 | "no Extension" exactly when it is absent or empty; "duplicate" exactly when seen before; at most one |
| ContentTypes.DefaultContentTypeFindings | revisar_content_types.py:66-71 | the `Default` ContentType error exactly when it is absent or empty |
| ContentTypes.DuplicatePartNameFindings | revisar_content_types.py:86-92 | a duplicate error exactly when the PartName was seen before |
| ContentTypes.PartExistsFindings | revisar_content_types.py:94-102 | a "not found" error exactly when the resolved PartName is not on disk |
| ContentTypes.PartNameFindingsMeaning | revisar_content_types.py:80-102 | "no PartName" exactly when it is absent or empty; a present one is checked for duplication and, duplicate or not, for existence |
| ContentTypes.OverrideContentTypeFindings | revisar_content_types.py:104-109 | the `Override` ContentType error exactly when it is absent or empty |
| ContentTypes.DefaultsBeforeOverrides | revisar_content_types.py:45-109 | every `Default` error precedes every `Override` error |
| ContentTypes.DuplicateExtensionCount | revisar_content_types.py:58-61 | an Extension occurring n >= 1 times (case-sensitive) yields n - 1 duplicate errors |
| ContentTypes.DuplicatePartNameCount | revisar_content_types.py:86-89 | a PartName occurring n >= 1 times yields n - 1 duplicate errors |
| ContentTypes.PartNotFoundCount | revisar_content_types.py:84-102 | a missing file is reported once per `Override` naming it, repeated PartNames included |
| ContentTypes.ExtensionsAreCaseSensitive | revisar_content_types.py:58 | "xml" and "XML" are different Extensions and raise no error |
| ContentTypes.Validate | revisar_content_types.py:23-121 | never empty; a parse error is the single message; the OK sentinel alone exactly when nothing is wrong |
| ContentTypes.ValidateContentTypes | revisar_content_types.py:23-121 | the two loops return exactly `Validate` |
| ContentTypes.CheckDefaults | revisar_content_types.py:46-71 | the `Default` loop yields the messages of the `Default` errors, in order |
| ContentTypes.CheckOverrides | revisar_content_types.py:74-109 | the `Override` loop appends the messages of the `Override` errors, in order |
| ContentTypes.CheckExtension | revisar_content_types.py:49-64 | appends the Extension errors and adds a present Extension to the seen set |
| ContentTypes.CheckDefaultContentType | revisar_content_types.py:66-71 | appends exactly the `Default` ContentType error |
| ContentTypes.CheckPartName | revisar_content_types.py:80-102 | appends the PartName errors and adds a present PartName to the seen set |
| ContentTypes.CheckDuplicatePartName | revisar_content_types.py:86-92 | appends the duplicate error and records the PartName |
| ContentTypes.CheckPartExists | revisar_content_types.py:94-102 | appends the existence error |
| ContentTypes.CheckOverrideContentType | revisar_content_types.py:104-109 | appends exactly the `Override` ContentType error |
| ThemeFamilyContentTypes.VariantManagerPart | revisar_thm15themeFamily.py:77-89 | a remembered PartName is non-empty and ends, case-insensitively, in "themevariantmanager.xml" |
| ThemeFamilyContentTypes.VariantManagerPartNone | revisar_thm15themeFamily.py:77-89 | no variant manager part is remembered exactly when no `Override` names one |
| ThemeFamilyContentTypes.VariantManagerPartIsLast | revisar_thm15themeFamily.py:83-89 | a remembered part is non-empty, ends in "themevariantmanager.xml" ignoring case, and belongs to the last `Override` that names one |
| ThemeFamilyContentTypes.CapitalisedNameRecognised | revisar_thm15themeFamily.py:88 | letter case does not matter when recognising the variant manager |
| ThemeFamilyContentTypes.MisspeltNameNotRecognised | revisar_thm15themeFamily.py:88 | the misspelt "themeVarianManager.xml" is not recognised by this validator |
| ThemeFamilyContentTypes.ValidateThemeFamilyContentTypes | revisar_thm15themeFamily.py:25-133 | the same error list as the plain validator, together with the remembered variant manager part |
| ThemeFamilyContentTypes.CheckOverridesNotingVariant | revisar_thm15themeFamily.py:75-114 | the `Override` loop gives the plain validator's errors and the last variant manager part |
| ThemeFamilyContentTypes.NoteVariantManager | revisar_thm15themeFamily.py:88-89 | a present PartName naming the variant manager replaces the remembered one |
| ThemeExtractor.FindThemeFiles | extractor_temas.py:26-35 | at most one path per walked folder, each a `theme1.xml` directly inside a `theme/theme` folder |
| ThemeExtractor.FindThemeFilesMeaning | extractor_temas.py:26-35 | a path is yielded exactly for each walked folder named "theme" inside a "theme" folder that holds "theme1.xml" |
| ThemeExtractor.FindThemeFilesAppend | extractor_temas.py:28-35 | results follow walk order |
| ThemeExtractor.ThemePathLocation | extractor_temas.py:35 | the yielded path is "theme1.xml" directly inside its theme folder |
| ThemeExtractor.FoundIffThemeFolder | extractor_temas.py:71-73 | `found` is set exactly when some walked folder is a theme folder |
| ThemeExtractor.LocalName | extractor_temas.py:48 | the local name is a suffix of the tag, and the whole tag when the tag has no "}" |
| ThemeExtractor.LocalNameMeaning | extractor_temas.py:48 | the local name is what follows the first "}", or the whole tag |
| ThemeExtractor.LocalNameStripsNamespace | extractor_temas.py:48 | a "{uri}" namespace prefix is stripped, whatever the uri |
| ThemeExtractor.TargetLocalName | extractor_temas.py:49 | the second accepted spelling is "extLst" |
| ThemeExtractor.NamespacedTargets | extractor_temas.py:48-49 | a namespaced `extLst` matches; another local name does not |
| ThemeExtractor.PrefixedTarget | extractor_temas.py:49 | a tag spelt "a:extLst" matches too |
| ThemeExtractor.TargetsMeaning | extractor_temas.py:46-51 | an element is kept exactly when it matches |
| ThemeExtractor.TargetsAppend | extractor_temas.py:47-50 | matches are kept in document order |
| ThemeExtractor.GetTargetElements | extractor_temas.py:38-51 | the matching elements of the document, root included, in document order; an unparsable file ends the run with its message |
| ThemeExtractor.CollectTargets | extractor_temas.py:46-51 | the loop keeps exactly the matching elements, in order |
| ThemeExtractor.MatchesTarget | extractor_temas.py:48-49 | the test is the namespace-stripped comparison with both spellings |
| ThemeExtractor.ReportsMeaning | extractor_temas.py:72-80 | one report per theme, in order, when all parse; otherwise the run stops at the first theme that does not parse, with its path, its message and the reports of every theme before it |
| ThemeExtractor.ExtractThemes | extractor_temas.py:61-85 | `found` iff a theme exists and the reports of every theme; or, on a parse failure, the reports printed before it, the theme announced last and the exit message |
| ThemeInspector.VariantManagerFileNamesArePlain | inspector_temas_openxml.py:28 | both variant manager names are plain file names |
| ThemeInspector.Candidates | inspector_temas_openxml.py:59-68 | two candidates, one per file name, in each of three folders: six in all |
| ThemeInspector.CandidatesInOrder | inspector_temas_openxml.py:59-68 | six candidates: the theme folder's "themeVariants", the theme folder, the base folder's "themeVariants", each with the correct spelling first |
| ThemeInspector.CandidatesAreVariantManagerNames | inspector_temas_openxml.py:59-68 | every candidate is a non-empty path whose file name is one of the two names |
| ThemeInspector.FirstExisting | inspector_temas_openxml.py:70 | a chosen path is one of the candidates and exists |
| ThemeInspector.FirstExistingMeaning | inspector_temas_openxml.py:70 | no path is chosen exactly when no candidate exists; a chosen one exists and every earlier candidate does not |
| ThemeInspector.FindThemeFiles | inspector_temas_openxml.py:39-74 | at most one result per walked folder, and every variant manager path it reports exists |
| ThemeInspector.FindThemeFilesMeaning | inspector_temas_openxml.py:39-74 | one result per theme folder of the walk, with that folder's theme file and first existing candidate |
| ThemeInspector.SameThemesAsExtractor | inspector_temas_openxml.py:48-58 | the inspector finds the same theme files, in the same order, as the extractor |
| ThemeInspector.FirstVariantManager | inspector_temas_openxml.py:135-136 | a kept variant manager path is never empty |
| ThemeInspector.FirstVariantManagerMeaning | inspector_temas_openxml.py:135-136 | nothing is kept exactly when no theme has a variant manager; otherwise the one of the first theme that has one |
| ThemeInspector.FirstVariantManagerWins | inspector_temas_openxml.py:135-136 | a kept variant manager is never replaced by later themes |
| ThemeInspector.DiscoveredPathsAreNotEmpty | inspector_temas_openxml.py:135 | for what the search yields, the truth test on the path adds nothing to "it was found" |
| ThemeInspector.KeptImpliesFound | inspector_temas_openxml.py:139-143 | a kept variant manager implies a theme was found, so it is always read at the end |
| ThemeInspector.ReadXml | inspector_temas_openxml.py:94-102 | the parsed root, or the message an unparsable file ends the run with |
| ThemeInspector.Conclusion | inspector_temas_openxml.py:139-145 | the variant manager is read exactly when a theme was found and one was kept; if it does not parse, the run ends after all the theme reports, with that path and the exit message |
| ThemeInspector.InspectThemes | inspector_temas_openxml.py:113-146 | `found` iff a theme exists; the extractor's reports; the first variant manager found, read at the end; or where a parse failure ended the run, with what was printed before it |
| ThemeInspector.InspectEach | inspector_temas_openxml.py:123-137 | the loop gives `found`, the reports of all themes and the first variant manager; or it stops at the first theme that does not parse, with the reports before it |
| ThemeInspector.KeepVariantManager | inspector_temas_openxml.py:135-136 | a theme's variant manager is kept only while none is kept yet, so the first one found stays |
| FolderCompare.DetermineStatus | comparador.py:472-502 | type mismatch, size mismatch of known sizes, one-sided presence: each gives its pair of labels and "differs"; otherwise "Coincide" |
| FolderCompare.DiffersIffDistinguishable | comparador.py:472-502 | a path differs exactly when it is on one side only, changes kind, or is a file of known different sizes |
| FolderCompare.StatusLabels | comparador.py:472-502 | the left label says whether the path differs; both labels agree when both sides hold the path |
| FolderCompare.DetermineStatusSwap | comparador.py:472-502 | swapping the folders does not change whether a path differs |
| FolderCompare.SameEntryMatches | comparador.py:479-494 | an entry compared with itself never differs |
| FolderCompare.ParentPath | comparador.py:504-511 | "" has no parent; a parent is a strictly shorter prefix of the path |
| FolderCompare.RelativeParent | comparador.py:504-511 | every relative path other than "" has a relative parent |
| FolderCompare.RelativeAncestors | comparador.py:458-462 | walking up from a relative path reaches "" and only meets shorter relative paths |
| FolderCompare.AncestorsTransitive | comparador.py:458-462 | the ancestors of an ancestor are ancestors |
| FolderCompare.Comparison | comparador.py:440-453 | every path of either side, and no other, is compared |
| FolderCompare.Relevant | comparador.py:444-462 | the marked paths hold every differing path, and none is marked exactly when nothing differs |
| FolderCompare.RelevantClosed | comparador.py:455-462 | the marked paths are closed under taking the parent |
| FolderCompare.RelevantIsLeast | comparador.py:455-462 | every set that holds the differing paths and is closed under parent contains the marked paths |
| FolderCompare.BuildComparison | comparador.py:433-470 | returns the status of every path and exactly the differing paths with their ancestors |
| FolderCompare.CompareAll | comparador.py:440-456 | the first loop yields the full comparison and exactly the differing paths |
| FolderCompare.MarkAncestors | comparador.py:458-462 | the second loop adds exactly the ancestors of the differing paths |
| FolderCompare.MarkChain | comparador.py:459-462 | the inner walk adds exactly the ancestors of one path |
| FolderCompare.FolderComparator.constructor | comparador.py:20-42 | starts without scans, comparison or marked paths, filter off |
| FolderCompare.FolderComparator.IsPathRelevant | comparador.py:320-325 | a path is relevant exactly when it differs itself or is among the marked paths |
| FolderCompare.FolderComparator.IsPathRelevantMeaning | comparador.py:320-325 | a path is relevant exactly when it differs or is an ancestor of a path that does |
| FolderCompare.FolderComparator.View | comparador.py:289-318 | the view is a sub-map of the entries with the same values; it keeps "" and, with the switch off, everything |
| FolderCompare.FolderComparator.ViewMeaning | comparador.py:289-318 | with the filter on, a path other than "" is shown exactly when it differs or a descendant does |
| FolderCompare.FolderComparator.ViewKeepsParents | comparador.py:289-318 | with the filter on, a shown path's parent is shown whenever the scan holds it |
| FolderCompare.FolderComparator.FilterEntriesForDisplay | comparador.py:289-318 | the view: a sub-map of the entries with the same values, always keeping "" |
| FolderCompare.FolderComparator.StatusForSide | comparador.py:423-431 | only a compared path has a label |
| FolderCompare.FolderComparator.StatusForSideMeaning | comparador.py:423-431 | a path has a label exactly when one of the last scans holds it |
| FolderCompare.FolderComparator.RefreshTrees | comparador.py:265-287 | no trees before a scan; otherwise the views of both last scans |
| FolderCompare.FolderComparator.UpdateComparison | comparador.py:205-249 | nothing changes when a folder is missing or invalid; otherwise scans, compares and shows both views, keeping the comparison consistent with the scans |
| FolderCompare.FolderComparator.OnFilterChange | comparador.py:251-263 | the switch takes the new value; with earlier scans only the views change and base paths, scans and differences stay; without them a full update runs, which on missing or invalid folders leaves every other field as it was |

## Left out

- The Tk windows, dialogs, message boxes, tree widgets and all console output are
  not modelled. The model returns what the tools print or show: error lists, reports,
  views. When a theme tool stops on a file that does not parse, it returns what was
  printed before the exit: the reports so far and the file announced last.
- Filesystem access is not modelled; it is an input. `os.walk` is the `walk`
  sequence, `os.path.exists` is membership in `onDisk`, `os.path.isdir` is
  membership in `folders`, and `_scan_directory` (with `os.path.getsize`) is the
  `scan` function.
- XML parsing is an input (`parse`), and its error text is taken as given.
- PosixPath.Join, PosixPath.DirName, PosixPath.NormPath: POSIX `posixpath` semantics
  only. Backslashes, drive letters and the `ntpath` rules a Windows run would apply
  are not modelled.
- PosixPath.Lower: only ASCII capitals are lower-cased; Unicode case mapping is not
  modelled.
- ThemeExtractor.GetTargetElements: returns the matching elements themselves rather
  than their `ET.tostring` serialisation.
- ThemeInspector.ReadXml: returns the parsed root rather than its `ET.tostring`
  text.
- `raise SystemExit` on a parse error in the theme tools is modelled as a `Failure`.
  It carries the same message, the reports printed before it and the file that
  failed. The exit itself and the exit status are not modelled.
- The theme tools' checks that the chosen base folder is non-empty and an existing
  folder (`main`, `extractor_temas.py:62-69`) belong to the dialog step and are not
  modelled.
- `find_theme_files` is a lazy generator interleaved with the report loop. With a
  fixed walk and a fixed filesystem the order of results is the same, so the model
  computes the list first.
- `print_theme_variant_manager` (`revisar_thm15themeFamily.py:136-159`) only reads
  and prints a file. The model returns the remembered part instead.
- The comparator's `_populate_tree` (tree layout and sorting), the preview panes,
  the JSON export (`_export_directory`, `_build_export_data`), the debug log with its
  samples of skipped paths, and the title updates are display only. They are not
  modelled.
- The iteration order of Python sets and dicts in `_build_comparison` and
  `_filter_entries_for_display` is not modelled. The loops pick any remaining path;
  their results do not depend on the order.
- The per-relationship and per-element loop bodies of the validators are split into
  one method per check. The order of the checks and of the appended messages is the
  source's.
- The cross-document checks of a theme family (matching theme ids across files) are
  not implemented in the source and are not modelled.
