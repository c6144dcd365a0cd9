/**
 * The `[Content_Types].xml` validator of the theme-family tool. Its checks and its
 * error list are those of the plain content-types validator; in addition, while it
 * walks the `Override` elements it remembers the last PartName that names a theme
 * variant manager part.
 */
module ThemeFamilyContentTypes {
  import opened Wrappers
  import opened PosixPath
  import opened Xml
  import opened Reporting
  import opened ContentTypes

  const VARIANT_MANAGER_SUFFIX := "themevariantmanager.xml"

  /** A PartName names the variant manager when, lower-cased, it ends in "themevariantmanager.xml". */
  predicate IsVariantManagerName(partName: string) {
    EndsWith(Lower(partName), VARIANT_MANAGER_SUFFIX)
  }

  /** `o` carries a PartName that names the variant manager. */
  predicate NamesVariantManager(o: Element) {
    !Blank(Get(o, "PartName")) && IsVariantManagerName(Get(o, "PartName").value)
  }

  /** The PartName remembered after walking `overrides`: the last present one that names the variant manager. */
  function VariantManagerPart(overrides: seq<Element>): (r: Option<string>)
    ensures r.Some? ==> r.value != "" && IsVariantManagerName(r.value)
  {
    if overrides == [] then None
    else
      var o := overrides[|overrides| - 1];
      if NamesVariantManager(o) then Some(Get(o, "PartName").value)
      else VariantManagerPart(overrides[..|overrides| - 1])
  }

  /** Nothing is remembered exactly when no `Override` names the variant manager. */
  lemma {:induction false} VariantManagerPartNone(overrides: seq<Element>)
    ensures VariantManagerPart(overrides).None? <==> forall i :: 0 <= i < |overrides| ==> !NamesVariantManager(overrides[i])
  {
    if overrides != [] {
      var init := overrides[..|overrides| - 1];
      VariantManagerPartNone(init);
      assert forall i :: 0 <= i < |init| ==> init[i] == overrides[i];
    }
  }

  /**
   * A remembered part names the variant manager and is the PartName of an `Override`
   * after which no `Override` names one: the last one wins.
   */
  lemma {:induction false} VariantManagerPartIsLast(overrides: seq<Element>)
    ensures VariantManagerPart(overrides).Some? ==>
      var p := VariantManagerPart(overrides).value;
      p != "" && IsVariantManagerName(p) &&
      exists i :: 0 <= i < |overrides| && Get(overrides[i], "PartName") == Some(p) &&
        forall j :: i < j < |overrides| ==> !NamesVariantManager(overrides[j])
  {
    if overrides != [] {
      var init := overrides[..|overrides| - 1];
      var last := |overrides| - 1;
      if NamesVariantManager(overrides[last]) {
        assert Get(overrides[last], "PartName") == Some(VariantManagerPart(overrides).value);
      } else if VariantManagerPart(init).Some? {
        VariantManagerPartIsLast(init);
        var p := VariantManagerPart(init).value;
        var i :| 0 <= i < |init| && Get(init[i], "PartName") == Some(p) &&
          forall j :: i < j < |init| ==> !NamesVariantManager(init[j]);
        assert forall j :: i < j < |init| ==> init[j] == overrides[j];
        assert Get(overrides[i], "PartName") == Some(p);
      }
    }
  }

  /** Letter case does not matter: the capitalised file name of a theme family is recognised. */
  lemma CapitalisedNameRecognised()
    ensures IsVariantManagerName("/ppt/theme/themeVariants/ThemeVariantManager.xml")
  {
    var s := "/ppt/theme/themeVariants/ThemeVariantManager.xml";
    var l := Lower(s);
    assert l[|l| - |VARIANT_MANAGER_SUFFIX|..] == VARIANT_MANAGER_SUFFIX;
  }

  /** The misspelt "themeVarianManager.xml", which the theme inspector also looks for, is not recognised here. */
  lemma MisspeltNameNotRecognised()
    ensures !IsVariantManagerName("/ppt/theme/themeVariants/themeVarianManager.xml")
  {
    var l := Lower("/ppt/theme/themeVariants/themeVarianManager.xml");
    assert l[|l| - 12] != VARIANT_MANAGER_SUFFIX[11];
  }

  /**
   * `validate_content_types` of the theme-family tool: the same error list as the
   * plain validator, together with the variant manager part it found, if any.
   */
  method ValidateThemeFamilyContentTypes(doc: Document, baseDir: string, onDisk: set<string>)
    returns (errors: seq<string>, themeVariantPart: Option<string>)
    ensures errors == Validate(doc, baseDir, onDisk)
    ensures themeVariantPart == if doc.Malformed? then None else VariantManagerPart(OverridesOf(doc.root))
  {
    if doc.Malformed? {
      return [ParseErrorMessage(doc.detail)], None;
    }
    var defaults := DefaultsOf(doc.root);
    var overrides := OverridesOf(doc.root);
    errors := CheckDefaults(defaults);
    errors, themeVariantPart := CheckOverridesNotingVariant(overrides, errors, baseDir, onDisk);
    RenderAppend(DefaultsFindings(defaults), OverridesFindings(overrides, baseDir, onDisk), Message);
    if errors == [] {
      errors := errors + [OK_MESSAGE];
    }
  }

  /** The loop over the `Override` elements, which also notes the variant manager part. */
  method CheckOverridesNotingVariant(overrides: seq<Element>, errors: seq<string>, baseDir: string, onDisk: set<string>)
    returns (errors': seq<string>, themeVariantPart: Option<string>)
    ensures errors' == errors + Render(OverridesFindings(overrides, baseDir, onDisk), Message)
    ensures themeVariantPart == VariantManagerPart(overrides)
  {
    errors' := errors;
    var partNamesSeen: set<string> := {};
    themeVariantPart := None;
    for i := 0 to |overrides|
      invariant partNamesSeen == PresentValues(overrides[..i], "PartName")
      invariant errors' == errors + Render(OverridesFindings(overrides[..i], baseDir, onDisk), Message)
      invariant themeVariantPart == VariantManagerPart(overrides[..i])
    {
      ghost var earlier := OverridesFindings(overrides[..i], baseDir, onDisk);
      ghost var seen := partNamesSeen;
      themeVariantPart := NoteVariantManager(overrides[i], themeVariantPart);
      errors', partNamesSeen := CheckPartName(overrides[i], partNamesSeen, errors', baseDir, onDisk);
      errors' := CheckOverrideContentType(overrides[i], errors');
      RenderAppend3(earlier, PartNameFindings(overrides[i], seen, baseDir, onDisk), OverrideContentTypeFindings(overrides[i]), Message);
      OverridesFindingsSnoc(overrides, i, baseDir, onDisk);
      PresentValuesSnoc(overrides, i, "PartName");
      Regroup(errors, Render(earlier, Message), Render(PartNameFindings(overrides[i], seen, baseDir, onDisk), Message),
        Render(OverrideContentTypeFindings(overrides[i]), Message));
      VariantManagerPartSnoc(overrides, i);
    }
    assert overrides[..|overrides|] == overrides;
  }

  /** A present PartName naming the variant manager replaces the one remembered so far. */
  method NoteVariantManager(o: Element, remembered: Option<string>) returns (r: Option<string>)
    ensures r == Noted(o, remembered)
  {
    r := remembered;
    var partName := Get(o, "PartName");
    if partName.Some? && partName.value != "" && IsVariantManagerName(partName.value) {
      r := Some(partName.value);
    }
  }

  function Noted(o: Element, remembered: Option<string>): Option<string> {
    if NamesVariantManager(o) then Some(Get(o, "PartName").value) else remembered
  }

  lemma VariantManagerPartSnoc(overrides: seq<Element>, i: nat)
    requires i < |overrides|
    ensures VariantManagerPart(overrides[..i + 1]) == Noted(overrides[i], VariantManagerPart(overrides[..i]))
  {
    assert overrides[..i + 1][..i] == overrides[..i];
  }
}
