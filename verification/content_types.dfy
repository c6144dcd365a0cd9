/**
 * Validation of a package's `[Content_Types].xml`: every `Default` must carry a
 * unique non-empty `Extension` and a `ContentType`; every `Override` must carry a
 * unique non-empty `PartName` that names an existing file under the package
 * folder, and a `ContentType`.
 */
module ContentTypes {
  import opened Wrappers
  import opened PosixPath
  import opened Xml
  import opened Reporting

  const NS_TYPES := "{http://schemas.openxmlformats.org/package/2006/content-types}"
  const DEFAULT_TAG := NS_TYPES + "Default"
  const OVERRIDE_TAG := NS_TYPES + "Override"

  /** The characters `resolve_part_path` strips from the front of a PartName. */
  const LEADING_SEPARATORS: set<char> := {'/', '\\'}

  /**
   * `resolve_part_path`: the PartName without its leading separators, joined to the
   * package folder and normalised.
   */
  function ResolvePartPath(baseDir: string, partName: string): (r: string)
    ensures NormPath(r) == r
  {
    var full := Join(baseDir, LStrip(partName, LEADING_SEPARATORS));
    NormPathIdempotent(full);
    NormPath(full)
  }

  /** Any run of leading '/' and '\' in a PartName is ignored. */
  lemma LeadingSeparatorsIgnored(baseDir: string, run: string, partName: string)
    requires forall j :: 0 <= j < |run| ==> run[j] in LEADING_SEPARATORS
    ensures ResolvePartPath(baseDir, run + partName) == ResolvePartPath(baseDir, partName)
  {
    LStripRun(run, partName, LEADING_SEPARATORS);
  }

  /** "/a", "a" and "\/a" name the same file. */
  lemma SamePartWithOrWithoutSeparators(baseDir: string)
    ensures ResolvePartPath(baseDir, "/a") == ResolvePartPath(baseDir, "a")
    ensures ResolvePartPath(baseDir, "\\/a") == ResolvePartPath(baseDir, "a")
  {
    LeadingSeparatorsIgnored(baseDir, "/", "a");
    assert "/" + "a" == "/a";
    LeadingSeparatorsIgnored(baseDir, "\\/", "a");
    assert "\\/" + "a" == "\\/a";
  }

  /** One entry of the error list. */
  datatype Finding =
    | MissingExtension
    | DuplicateExtension(extension: string)
    | DefaultMissingContentType
    | MissingPartName
    | DuplicatePartName(partName: string)
    | PartNotFound(resolved: string)
    | OverrideMissingContentType

  function Message(f: Finding): (m: string)
    ensures IsErrorMessage(m)
  {
    match f
    case MissingExtension => ErrorMessage("El elemento <Default> no tiene atributo Extension.")
    case DuplicateExtension(ext) => ErrorMessage("Extension duplicada: " + ext)
    case DefaultMissingContentType => ErrorMessage("El elemento <Default> no tiene atributo ContentType.")
    case MissingPartName => ErrorMessage("El elemento <Override> no tiene atributo PartName.")
    case DuplicatePartName(pn) => ErrorMessage("PartName duplicado: " + pn)
    case PartNotFound(p) => ErrorMessage("El archivo referenciado NO existe: " + p)
    case OverrideMissingContentType => ErrorMessage("El elemento <Override> no tiene atributo ContentType.")
  }

  function ParseErrorMessage(detail: string): string {
    "[ERROR XML] Archivo mal formado: " + detail
  }

  /** The findings a `Default` element can produce. */
  predicate IsDefaultFinding(f: Finding) {
    f.MissingExtension? || f.DuplicateExtension? || f.DefaultMissingContentType?
  }

  /** The Extension check, given the Extensions seen in earlier `Default` elements. */
  function ExtensionFindings(d: Element, seen: set<string>): (r: seq<Finding>)
    ensures |r| <= 1 && forall f :: f in r ==> f.MissingExtension? || f.DuplicateExtension?
    ensures MissingExtension in r <==> Blank(Get(d, "Extension"))
    ensures forall e :: DuplicateExtension(e) in r <==> e != "" && Get(d, "Extension") == Some(e) && e in seen
  {
    var ext := Get(d, "Extension");
    if Blank(ext) then [MissingExtension]
    else if ext.value in seen then [DuplicateExtension(ext.value)]
    else []
  }

  /** The ContentType check of a `Default` element. */
  function DefaultContentTypeFindings(d: Element): (r: seq<Finding>)
    ensures |r| <= 1 && forall f :: f in r ==> f.DefaultMissingContentType?
    ensures DefaultMissingContentType in r <==> Blank(Get(d, "ContentType"))
  {
    if Blank(Get(d, "ContentType")) then [DefaultMissingContentType] else []
  }

  /** The findings for the `Default` elements, each Extension checked against the earlier ones. */
  function DefaultsFindings(defaults: seq<Element>): seq<Finding> {
    if defaults == [] then []
    else
      var init := defaults[..|defaults| - 1];
      var d := defaults[|defaults| - 1];
      DefaultsFindings(init) + ExtensionFindings(d, PresentValues(init, "Extension")) + DefaultContentTypeFindings(d)
  }

  /**
   * The PartName check, given the PartNames seen in earlier `Override` elements:
   * a present PartName is checked for uniqueness and, duplicate or not, for existence.
   */
  function PartNameFindings(o: Element, seen: set<string>, baseDir: string, onDisk: set<string>): (r: seq<Finding>)
    ensures |r| <= 2
  {
    var pn := Get(o, "PartName");
    if Blank(pn) then [MissingPartName]
    else DuplicatePartNameFindings(pn.value, seen) + PartExistsFindings(pn.value, baseDir, onDisk)
  }

  /** A PartName already seen is a duplicate. */
  function DuplicatePartNameFindings(pn: string, seen: set<string>): (r: seq<Finding>)
    ensures |r| <= 1
    ensures forall f :: f in r <==> pn in seen && f == DuplicatePartName(pn)
  {
    if pn in seen then [DuplicatePartName(pn)] else []
  }

  /** A PartName whose resolved path is not on disk names a missing part. */
  function PartExistsFindings(pn: string, baseDir: string, onDisk: set<string>): (r: seq<Finding>)
    ensures |r| <= 1
    ensures forall f :: f in r <==> ResolvePartPath(baseDir, pn) !in onDisk && f == PartNotFound(ResolvePartPath(baseDir, pn))
  {
    var resolved := ResolvePartPath(baseDir, pn);
    if resolved in onDisk then [] else [PartNotFound(resolved)]
  }

  /** What the PartName check reports, finding by finding. */
  lemma PartNameFindingsMeaning(o: Element, seen: set<string>, baseDir: string, onDisk: set<string>)
    ensures var r := PartNameFindings(o, seen, baseDir, onDisk);
      && (forall f :: f in r ==> f.MissingPartName? || f.DuplicatePartName? || f.PartNotFound?)
      && (MissingPartName in r <==> Blank(Get(o, "PartName")))
      && (forall pn :: DuplicatePartName(pn) in r <==> pn != "" && Get(o, "PartName") == Some(pn) && pn in seen)
      && (forall p :: PartNotFound(p) in r <==>
            !Blank(Get(o, "PartName")) && p == ResolvePartPath(baseDir, Get(o, "PartName").value) && p !in onDisk)
  {
  }

  /** The ContentType check of an `Override` element. */
  function OverrideContentTypeFindings(o: Element): (r: seq<Finding>)
    ensures |r| <= 1 && forall f :: f in r ==> f.OverrideMissingContentType?
    ensures OverrideMissingContentType in r <==> Blank(Get(o, "ContentType"))
  {
    if Blank(Get(o, "ContentType")) then [OverrideMissingContentType] else []
  }

  /** The findings for the `Override` elements, each PartName checked against the earlier ones. */
  function OverridesFindings(overrides: seq<Element>, baseDir: string, onDisk: set<string>): seq<Finding> {
    if overrides == [] then []
    else
      var init := overrides[..|overrides| - 1];
      var o := overrides[|overrides| - 1];
      OverridesFindings(init, baseDir, onDisk)
      + PartNameFindings(o, PresentValues(init, "PartName"), baseDir, onDisk)
      + OverrideContentTypeFindings(o)
  }

  /** `root.findall("{content-types namespace}Default")`: the `Default` children. */
  function DefaultsOf(root: Element): seq<Element> {
    FindAll(root, DEFAULT_TAG)
  }

  /** `root.findall("{content-types namespace}Override")`: the `Override` children. */
  function OverridesOf(root: Element): seq<Element> {
    FindAll(root, OVERRIDE_TAG)
  }

  /** Every finding of a well-formed document: the `Default` ones, then the `Override` ones. */
  function Findings(root: Element, baseDir: string, onDisk: set<string>): seq<Finding> {
    DefaultsFindings(DefaultsOf(root)) + OverridesFindings(OverridesOf(root), baseDir, onDisk)
  }

  /** What `validate_content_types` returns. */
  function Validate(doc: Document, baseDir: string, onDisk: set<string>): (r: seq<string>)
    ensures r != []
    ensures doc.Malformed? ==> r == [ParseErrorMessage(doc.detail)]
    ensures r == [OK_MESSAGE] <==> doc.WellFormed? && Findings(doc.root, baseDir, onDisk) == []
  {
    match doc
    case Malformed(detail) =>
      assert ParseErrorMessage(detail)[1] != OK_MESSAGE[1];
      [ParseErrorMessage(detail)]
    case WellFormed(root) =>
      var errors := Render(Findings(root, baseDir, onDisk), Message);
      FinishIsOkIffClean(errors);
      Finish(errors)
  }

  /**
   * `validate_content_types`: parses, checks the `Default` elements and then the
   * `Override` elements in document order, each against the values seen before it.
   */
  method ValidateContentTypes(doc: Document, baseDir: string, onDisk: set<string>) returns (errors: seq<string>)
    ensures errors == Validate(doc, baseDir, onDisk)
  {
    if doc.Malformed? {
      return [ParseErrorMessage(doc.detail)];
    }
    var defaults := DefaultsOf(doc.root);
    var overrides := OverridesOf(doc.root);
    errors := CheckDefaults(defaults);
    errors := CheckOverrides(overrides, errors, baseDir, onDisk);
    RenderAppend(DefaultsFindings(defaults), OverridesFindings(overrides, baseDir, onDisk), Message);
    if errors == [] {
      errors := errors + [OK_MESSAGE];
    }
  }

  /** The loop over the `Default` elements. */
  method CheckDefaults(defaults: seq<Element>) returns (errors: seq<string>)
    ensures errors == Render(DefaultsFindings(defaults), Message)
  {
    errors := [];
    var extensionsSeen: set<string> := {};
    for i := 0 to |defaults|
      invariant extensionsSeen == PresentValues(defaults[..i], "Extension")
      invariant errors == Render(DefaultsFindings(defaults[..i]), Message)
    {
      ghost var earlier := DefaultsFindings(defaults[..i]);
      ghost var seen := extensionsSeen;
      errors, extensionsSeen := CheckExtension(defaults[i], extensionsSeen, errors);
      errors := CheckDefaultContentType(defaults[i], errors);
      RenderAppend3(earlier, ExtensionFindings(defaults[i], seen), DefaultContentTypeFindings(defaults[i]), Message);
      DefaultsFindingsSnoc(defaults, i);
      PresentValuesSnoc(defaults, i, "Extension");
    }
    assert defaults[..|defaults|] == defaults;
  }

  /** The loop over the `Override` elements, appending to the errors found so far. */
  method CheckOverrides(overrides: seq<Element>, errors: seq<string>, baseDir: string, onDisk: set<string>)
    returns (errors': seq<string>)
    ensures errors' == errors + Render(OverridesFindings(overrides, baseDir, onDisk), Message)
  {
    errors' := errors;
    var partNamesSeen: set<string> := {};
    for i := 0 to |overrides|
      invariant partNamesSeen == PresentValues(overrides[..i], "PartName")
      invariant errors' == errors + Render(OverridesFindings(overrides[..i], baseDir, onDisk), Message)
    {
      ghost var earlier := OverridesFindings(overrides[..i], baseDir, onDisk);
      ghost var seen := partNamesSeen;
      ghost var before := errors';
      errors', partNamesSeen := CheckPartName(overrides[i], partNamesSeen, errors', baseDir, onDisk);
      errors' := CheckOverrideContentType(overrides[i], errors');
      RenderAppend3(earlier, PartNameFindings(overrides[i], seen, baseDir, onDisk), OverrideContentTypeFindings(overrides[i]), Message);
      OverridesFindingsSnoc(overrides, i, baseDir, onDisk);
      PresentValuesSnoc(overrides, i, "PartName");
      Regroup(errors, Render(earlier, Message), Render(PartNameFindings(overrides[i], seen, baseDir, onDisk), Message),
        Render(OverrideContentTypeFindings(overrides[i]), Message));
    }
    assert overrides[..|overrides|] == overrides;
  }

  /** The Extension check of one `Default`: a missing or repeated Extension is an error, a new one is recorded. */
  method CheckExtension(d: Element, seen: set<string>, errors: seq<string>) returns (errors': seq<string>, seen': set<string>)
    ensures errors' == errors + Render(ExtensionFindings(d, seen), Message)
    ensures seen' == seen + (if Blank(Get(d, "Extension")) then {} else {Get(d, "Extension").value})
  {
    errors', seen' := errors, seen;
    var extension := Get(d, "Extension");
    if Blank(extension) {
      errors' := errors' + [Message(MissingExtension)];
    } else if extension.value in seen' {
      errors' := errors' + [Message(DuplicateExtension(extension.value))];
    } else {
      seen' := seen' + {extension.value};
    }
  }

  /** The ContentType check of one `Default`. */
  method CheckDefaultContentType(d: Element, errors: seq<string>) returns (errors': seq<string>)
    ensures errors' == errors + Render(DefaultContentTypeFindings(d), Message)
  {
    errors' := errors;
    if Blank(Get(d, "ContentType")) {
      errors' := errors' + [Message(DefaultMissingContentType)];
    }
  }

  /**
   * The PartName check of one `Override`: missing or repeated PartNames are errors,
   * a new one is recorded, and every present one is looked up on disk.
   */
  method CheckPartName(o: Element, seen: set<string>, errors: seq<string>, baseDir: string, onDisk: set<string>)
    returns (errors': seq<string>, seen': set<string>)
    ensures errors' == errors + Render(PartNameFindings(o, seen, baseDir, onDisk), Message)
    ensures seen' == seen + (if Blank(Get(o, "PartName")) then {} else {Get(o, "PartName").value})
  {
    var partName := Get(o, "PartName");
    if Blank(partName) {
      errors', seen' := errors + [Message(MissingPartName)], seen;
    } else {
      var afterDuplicate, afterExists;
      afterDuplicate, seen' := CheckDuplicatePartName(partName.value, seen, errors);
      afterExists := CheckPartExists(partName.value, afterDuplicate, baseDir, onDisk);
      errors' := afterExists;
      RenderAppend(DuplicatePartNameFindings(partName.value, seen), PartExistsFindings(partName.value, baseDir, onDisk), Message);
      Regroup3(errors, Render(DuplicatePartNameFindings(partName.value, seen), Message),
        Render(PartExistsFindings(partName.value, baseDir, onDisk), Message));
    }
  }

  method CheckDuplicatePartName(pn: string, seen: set<string>, errors: seq<string>) returns (errors': seq<string>, seen': set<string>)
    ensures errors' == errors + Render(DuplicatePartNameFindings(pn, seen), Message)
    ensures seen' == seen + {pn}
  {
    if pn in seen {
      errors', seen' := errors + [Message(DuplicatePartName(pn))], seen;
    } else {
      errors', seen' := errors, seen + {pn};
    }
  }

  method CheckPartExists(pn: string, errors: seq<string>, baseDir: string, onDisk: set<string>) returns (errors': seq<string>)
    ensures errors' == errors + Render(PartExistsFindings(pn, baseDir, onDisk), Message)
  {
    var resolved := ResolvePartPath(baseDir, pn);
    if resolved !in onDisk {
      errors' := errors + [Message(PartNotFound(resolved))];
    } else {
      errors' := errors;
    }
  }

  /** The ContentType check of one `Override`. */
  method CheckOverrideContentType(o: Element, errors: seq<string>) returns (errors': seq<string>)
    ensures errors' == errors + Render(OverrideContentTypeFindings(o), Message)
  {
    errors' := errors;
    if Blank(Get(o, "ContentType")) {
      errors' := errors' + [Message(OverrideMissingContentType)];
    }
  }

  lemma DefaultsFindingsSnoc(defaults: seq<Element>, i: nat)
    requires i < |defaults|
    ensures DefaultsFindings(defaults[..i + 1])
      == DefaultsFindings(defaults[..i]) + (ExtensionFindings(defaults[i], PresentValues(defaults[..i], "Extension"))
         + DefaultContentTypeFindings(defaults[i]))
  {
    assert defaults[..i + 1][..i] == defaults[..i];
  }

  lemma OverridesFindingsSnoc(overrides: seq<Element>, i: nat, baseDir: string, onDisk: set<string>)
    requires i < |overrides|
    ensures OverridesFindings(overrides[..i + 1], baseDir, onDisk)
      == OverridesFindings(overrides[..i], baseDir, onDisk)
         + (PartNameFindings(overrides[i], PresentValues(overrides[..i], "PartName"), baseDir, onDisk)
            + OverrideContentTypeFindings(overrides[i]))
  {
    assert overrides[..i + 1][..i] == overrides[..i];
  }

  /** The `Default` findings are all about `Default` elements. */
  lemma {:induction false} DefaultsFindingsAreDefault(defaults: seq<Element>)
    ensures forall f :: f in DefaultsFindings(defaults) ==> IsDefaultFinding(f)
  {
    if defaults != [] {
      DefaultsFindingsAreDefault(defaults[..|defaults| - 1]);
    }
  }

  /** No `Override` finding is a `Default` finding. */
  lemma {:induction false} OverridesFindingsAreNotDefault(overrides: seq<Element>, baseDir: string, onDisk: set<string>)
    ensures forall f :: f in OverridesFindings(overrides, baseDir, onDisk) ==> !IsDefaultFinding(f)
  {
    if overrides != [] {
      var init, o := overrides[..|overrides| - 1], overrides[|overrides| - 1];
      var seen := PresentValues(init, "PartName");
      OverridesFindingsAreNotDefault(init, baseDir, onDisk);
      PartNameFindingsMeaning(o, seen, baseDir, onDisk);
      assert OverridesFindings(overrides, baseDir, onDisk)
        == OverridesFindings(init, baseDir, onDisk) + PartNameFindings(o, seen, baseDir, onDisk) + OverrideContentTypeFindings(o);
    }
  }

  /** Every `Default` error comes before every `Override` error. */
  lemma DefaultsBeforeOverrides(root: Element, baseDir: string, onDisk: set<string>)
    ensures var fs := Findings(root, baseDir, onDisk);
      forall i, j :: 0 <= i < j < |fs| && IsDefaultFinding(fs[j]) ==> IsDefaultFinding(fs[i])
  {
    DefaultsFindingsAreDefault(DefaultsOf(root));
    OverridesFindingsAreNotDefault(OverridesOf(root), baseDir, onDisk);
    DefaultPrefix(DefaultsFindings(DefaultsOf(root)), OverridesFindings(OverridesOf(root), baseDir, onDisk));
  }

  lemma DefaultPrefix(ds: seq<Finding>, os: seq<Finding>)
    requires forall f :: f in ds ==> IsDefaultFinding(f)
    requires forall f :: f in os ==> !IsDefaultFinding(f)
    ensures forall i, j :: 0 <= i < j < |ds + os| && IsDefaultFinding((ds + os)[j]) ==> IsDefaultFinding((ds + os)[i])
  {
    var fs := ds + os;
    forall i, j | 0 <= i < j < |fs| && IsDefaultFinding(fs[j]) ensures IsDefaultFinding(fs[i]) {
      assert fs[j] in os || j < |ds|;
      assert fs[i] == ds[i];
    }
  }

  /** An Extension that occurs `n >= 1` times (compared exactly, case included) gives `n - 1` duplicate errors. */
  lemma {:induction false} DuplicateExtensionCount(defaults: seq<Element>, ext: string)
    requires ext != ""
    ensures var n := Occurrences(defaults, "Extension", ext);
      multiset(DefaultsFindings(defaults))[DuplicateExtension(ext)] == if n == 0 then 0 else n - 1
  {
    if defaults != [] {
      var init := defaults[..|defaults| - 1];
      var d := defaults[|defaults| - 1];
      var seen := PresentValues(init, "Extension");
      DuplicateExtensionCount(init, ext);
      SeenIffOccurs(init, "Extension", ext);
      var a, b := ExtensionFindings(d, seen), DefaultContentTypeFindings(d);
      assert multiset(a)[DuplicateExtension(ext)] == if Get(d, "Extension") == Some(ext) && ext in seen then 1 else 0;
      assert DuplicateExtension(ext) !in b;
    }
  }

  /** A PartName that occurs `n >= 1` times gives `n - 1` duplicate errors. */
  lemma {:induction false} DuplicatePartNameCount(overrides: seq<Element>, pn: string, baseDir: string, onDisk: set<string>)
    requires pn != ""
    ensures var n := Occurrences(overrides, "PartName", pn);
      multiset(OverridesFindings(overrides, baseDir, onDisk))[DuplicatePartName(pn)] == if n == 0 then 0 else n - 1
  {
    if overrides != [] {
      var init := overrides[..|overrides| - 1];
      var o := overrides[|overrides| - 1];
      var seen := PresentValues(init, "PartName");
      DuplicatePartNameCount(init, pn, baseDir, onDisk);
      SeenIffOccurs(init, "PartName", pn);
      PartNameFindingsCounts(o, seen, baseDir, onDisk, DuplicatePartName(pn));
      assert DuplicatePartName(pn) !in OverrideContentTypeFindings(o);
    }
  }

  /** The PartName check reports each duplicate and each missing file at most once. */
  lemma PartNameFindingsCounts(o: Element, seen: set<string>, baseDir: string, onDisk: set<string>, f: Finding)
    requires f.DuplicatePartName? || f.PartNotFound?
    ensures var pn := Get(o, "PartName");
      multiset(PartNameFindings(o, seen, baseDir, onDisk))[f]
      == if f.DuplicatePartName? then (if pn == Some(f.partName) && f.partName != "" && f.partName in seen then 1 else 0)
         else (if !Blank(pn) && f.resolved == ResolvePartPath(baseDir, pn.value) && f.resolved !in onDisk then 1 else 0)
  {
    var pn := Get(o, "PartName");
    if !Blank(pn) {
      var d, e := DuplicatePartNameFindings(pn.value, seen), PartExistsFindings(pn.value, baseDir, onDisk);
      assert multiset(d + e) == multiset(d) + multiset(e);
      assert multiset(d)[f] == if f in d then 1 else 0;
      assert multiset(e)[f] == if f in e then 1 else 0;
    }
  }

  /** How many of `overrides` carry a PartName that resolves to `p`. */
  function ResolvingTo(overrides: seq<Element>, baseDir: string, p: string): nat {
    if overrides == [] then 0
    else
      var pn := Get(overrides[|overrides| - 1], "PartName");
      ResolvingTo(overrides[..|overrides| - 1], baseDir, p)
      + (if !Blank(pn) && ResolvePartPath(baseDir, pn.value) == p then 1 else 0)
  }

  /**
   * A missing file is reported once for every `Override` naming it, the repeated
   * PartNames included.
   */
  lemma {:induction false} PartNotFoundCount(overrides: seq<Element>, baseDir: string, onDisk: set<string>, p: string)
    requires p !in onDisk
    ensures multiset(OverridesFindings(overrides, baseDir, onDisk))[PartNotFound(p)] == ResolvingTo(overrides, baseDir, p)
  {
    if overrides != [] {
      var init := overrides[..|overrides| - 1];
      var o := overrides[|overrides| - 1];
      var seen := PresentValues(init, "PartName");
      PartNotFoundCount(init, baseDir, onDisk, p);
      PartNameFindingsCounts(o, seen, baseDir, onDisk, PartNotFound(p));
      assert PartNotFound(p) !in OverrideContentTypeFindings(o);
    }
  }

  /** Extensions differing only in case are distinct: "xml" and "XML" together produce no error. */
  lemma ExtensionsAreCaseSensitive(ct: string)
    requires ct != ""
    ensures var lower := Element(DEFAULT_TAG, map["Extension" := "xml", "ContentType" := ct], []);
      var upper := Element(DEFAULT_TAG, map["Extension" := "XML", "ContentType" := ct], []);
      DefaultsFindings([lower, upper]) == []
  {
    var lower := Element(DEFAULT_TAG, map["Extension" := "xml", "ContentType" := ct], []);
    var upper := Element(DEFAULT_TAG, map["Extension" := "XML", "ContentType" := ct], []);
    assert [lower, upper][..1] == [lower];
    assert [lower][..0] == [];
    assert DefaultsFindings([lower]) == [];
    assert PresentValues([lower], "Extension") == {"xml"};
    assert "XML" != "xml" by { assert "XML"[0] != "xml"[0]; }
  }
}
