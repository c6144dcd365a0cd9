/**
 * Validation of one relationships part (`.rels`): every `Relationship` element must
 * carry a unique non-empty `Id`, a `Type` and a `Target`, and the Target, resolved
 * against the folder of the part the relationships belong to, must exist.
 */
module Relationships {
  import opened Wrappers
  import opened PosixPath
  import opened Xml
  import opened Reporting

  const NS_REL := "{http://schemas.openxmlformats.org/package/2006/relationships}"
  const RELATIONSHIP_TAG := NS_REL + "Relationship"

  /**
   * The folder relative Targets start from: the `.rels` file's own folder, or that
   * folder's parent when the folder's name ends in "_rels" (a plain suffix test).
   */
  function ResolutionBase(relsPath: string): (r: string)
    ensures |r| <= |relsPath| && r == relsPath[..|r|]
  {
    var relsDir := DirName(relsPath);
    if EndsWith(relsDir, "_rels") then DirName(relsDir) else relsDir
  }

  /** `resolve_target_path`: the normalised join of the base folder and the Target. */
  function ResolveTargetPath(relsPath: string, target: string): (r: string)
    ensures NormPath(r) == r
    ensures IsAbsolute(target) ==> r == NormPath(target)
  {
    var full := Join(ResolutionBase(relsPath), target);
    NormPathIdempotent(full);
    NormPath(full)
  }

  /** In `folder/x_rels/name` the Targets are relative to `folder`, whatever precedes "_rels". */
  lemma RelsFolderBase(folder: string, relsDir: string, name: string)
    requires folder != [] && folder[|folder| - 1] != SEP
    requires EndsWith(relsDir, "_rels") && SEP !in relsDir
    requires SEP !in name
    ensures ResolutionBase(folder + [SEP] + relsDir + [SEP] + name) == folder
  {
    var dir := folder + [SEP] + relsDir;
    assert dir[|dir| - 1] == relsDir[|relsDir| - 1] == 's';
    DirNameJoin(dir, name);
    assert EndsWith(dir, "_rels") by {
      assert dir[|dir| - 5..] == relsDir[|relsDir| - 5..];
    }
    assert relsDir != [] && relsDir[0] != SEP by { assert relsDir[0] in relsDir; }
    DirNameJoin(folder, relsDir);
  }

  /** In any other folder the Targets are relative to the `.rels` file's own folder. */
  lemma PlainFolderBase(folder: string, name: string)
    requires folder != [] && folder[|folder| - 1] != SEP
    requires !EndsWith(folder, "_rels")
    requires SEP !in name
    ensures ResolutionBase(folder + [SEP] + name) == folder
  {
    DirNameJoin(folder, name);
  }

  /** A Target starting with "/" resolves to the same path wherever the `.rels` file is. */
  lemma AbsoluteTargetIgnoresSource(relsPath1: string, relsPath2: string, target: string)
    requires IsAbsolute(target)
    ensures ResolveTargetPath(relsPath1, target) == ResolveTargetPath(relsPath2, target)
  {
  }

  /** One entry of the error list. */
  datatype Finding =
    | MissingId
    | DuplicateId(id: string)
    | MissingType(shownId: string)
    | MissingTarget(shownId: string)
    | TargetNotFound(resolved: string)

  function Message(f: Finding): (m: string)
    ensures IsErrorMessage(m)
  {
    match f
    case MissingId => ErrorMessage("Hay una relación sin Id.")
    case DuplicateId(id) => ErrorMessage("Id duplicado: " + id)
    case MissingType(rid) => ErrorMessage("La relación " + rid + " no tiene Type.")
    case MissingTarget(rid) => ErrorMessage("La relación " + rid + " no tiene Target.")
    case TargetNotFound(p) => ErrorMessage("El archivo referenciado NO existe: " + p)
  }

  function ParseErrorMessage(detail: string): string {
    "[ERROR XML] Archivo no válido: " + detail
  }

  /** How a message shows the Id: Python formats a missing one as "None". */
  function ShownId(rid: Option<string>): string {
    if rid.None? then "None" else rid.value
  }

  /** The position of a check within one relationship: Id, Type, Target, existence. */
  function CheckOrder(f: Finding): nat {
    match f
    case MissingId => 0
    case DuplicateId(_) => 0
    case MissingType(_) => 1
    case MissingTarget(_) => 2
    case TargetNotFound(_) => 3
  }

  /** The Id check, given the Ids seen in earlier relationships. */
  function IdFindings(rel: Element, seen: set<string>): (r: seq<Finding>)
    ensures |r| <= 1 && forall f :: f in r ==> CheckOrder(f) == 0
    ensures MissingId in r <==> Blank(Get(rel, "Id"))
    ensures forall id :: DuplicateId(id) in r <==> id != "" && Get(rel, "Id") == Some(id) && id in seen
  {
    var rid := Get(rel, "Id");
    if Blank(rid) then [MissingId]
    else if rid.value in seen then [DuplicateId(rid.value)]
    else []
  }

  /** The Type check. */
  function TypeFindings(rel: Element): (r: seq<Finding>)
    ensures |r| <= 1 && forall f :: f in r ==> CheckOrder(f) == 1
    ensures forall s :: MissingType(s) in r <==> Blank(Get(rel, "Type")) && s == ShownId(Get(rel, "Id"))
  {
    if Blank(Get(rel, "Type")) then [MissingType(ShownId(Get(rel, "Id")))] else []
  }

  /** The Target check and, only for a non-empty Target, the existence check. */
  function TargetFindings(rel: Element, relsPath: string, onDisk: set<string>): (r: seq<Finding>)
    ensures |r| <= 1 && forall f :: f in r ==> CheckOrder(f) >= 2
    ensures forall s :: MissingTarget(s) in r <==> Blank(Get(rel, "Target")) && s == ShownId(Get(rel, "Id"))
    ensures forall p :: TargetNotFound(p) in r <==>
      !Blank(Get(rel, "Target")) && p == ResolveTargetPath(relsPath, Get(rel, "Target").value) && p !in onDisk
  {
    var rtarget := Get(rel, "Target");
    if Blank(rtarget) then [MissingTarget(ShownId(Get(rel, "Id")))]
    else
      var resolved := ResolveTargetPath(relsPath, rtarget.value);
      if resolved in onDisk then [] else [TargetNotFound(resolved)]
  }

  /** The findings for one relationship: Id, then Type, then Target and existence. */
  function RelationshipFindings(rel: Element, seen: set<string>, relsPath: string, onDisk: set<string>)
    : seq<Finding>
  {
    IdFindings(rel, seen) + TypeFindings(rel) + TargetFindings(rel, relsPath, onDisk)
  }

  /**
   * What one relationship yields: each check fires exactly when its attribute is
   * missing (or the Id repeats, or the Target does not exist), in check order.
   */
  lemma RelationshipFindingsMeaning(rel: Element, seen: set<string>, relsPath: string, onDisk: set<string>)
    ensures var r := RelationshipFindings(rel, seen, relsPath, onDisk);
      && (MissingId in r <==> Blank(Get(rel, "Id")))
      && (forall id :: DuplicateId(id) in r <==> id != "" && Get(rel, "Id") == Some(id) && id in seen)
      && (forall s :: MissingType(s) in r <==> Blank(Get(rel, "Type")) && s == ShownId(Get(rel, "Id")))
      && (forall s :: MissingTarget(s) in r <==> Blank(Get(rel, "Target")) && s == ShownId(Get(rel, "Id")))
      && (forall p :: TargetNotFound(p) in r <==>
            !Blank(Get(rel, "Target")) && p == ResolveTargetPath(relsPath, Get(rel, "Target").value) && p !in onDisk)
      && (forall i, j :: 0 <= i < j < |r| ==> CheckOrder(r[i]) < CheckOrder(r[j]))
  {
    IdAndTypeMeaning(rel, seen, relsPath, onDisk);
    TargetMeaning(rel, seen, relsPath, onDisk);
    OrderedPieces(IdFindings(rel, seen), TypeFindings(rel), TargetFindings(rel, relsPath, onDisk));
  }

  /** The Id and Type findings of one relationship are those of their own checks. */
  lemma IdAndTypeMeaning(rel: Element, seen: set<string>, relsPath: string, onDisk: set<string>)
    ensures var r := RelationshipFindings(rel, seen, relsPath, onDisk);
      && (MissingId in r <==> Blank(Get(rel, "Id")))
      && (forall id :: DuplicateId(id) in r <==> id != "" && Get(rel, "Id") == Some(id) && id in seen)
      && (forall s :: MissingType(s) in r <==> Blank(Get(rel, "Type")) && s == ShownId(Get(rel, "Id")))
  {
    PieceMembership(IdFindings(rel, seen), TypeFindings(rel), TargetFindings(rel, relsPath, onDisk));
  }

  /** The Target and existence findings of one relationship are those of the Target check. */
  lemma TargetMeaning(rel: Element, seen: set<string>, relsPath: string, onDisk: set<string>)
    ensures var r := RelationshipFindings(rel, seen, relsPath, onDisk);
      && (forall s :: MissingTarget(s) in r <==> Blank(Get(rel, "Target")) && s == ShownId(Get(rel, "Id")))
      && (forall p :: TargetNotFound(p) in r <==>
            !Blank(Get(rel, "Target")) && p == ResolveTargetPath(relsPath, Get(rel, "Target").value) && p !in onDisk)
  {
    PieceMembership(IdFindings(rel, seen), TypeFindings(rel), TargetFindings(rel, relsPath, onDisk));
  }

  /** A finding of the three checks comes from the check its kind belongs to. */
  lemma PieceMembership(a: seq<Finding>, b: seq<Finding>, c: seq<Finding>)
    requires forall f :: f in a ==> CheckOrder(f) == 0
    requires forall f :: f in b ==> CheckOrder(f) == 1
    requires forall f :: f in c ==> CheckOrder(f) >= 2
    ensures forall f :: CheckOrder(f) == 0 ==> (f in a + b + c <==> f in a)
    ensures forall f :: CheckOrder(f) == 1 ==> (f in a + b + c <==> f in b)
    ensures forall f :: CheckOrder(f) >= 2 ==> (f in a + b + c <==> f in c)
  {
  }

  /** Three checks of at most one finding each, in increasing check order, stay in that order. */
  lemma OrderedPieces(a: seq<Finding>, b: seq<Finding>, c: seq<Finding>)
    requires |a| <= 1 && |b| <= 1 && |c| <= 1
    requires forall f :: f in a ==> CheckOrder(f) == 0
    requires forall f :: f in b ==> CheckOrder(f) == 1
    requires forall f :: f in c ==> CheckOrder(f) >= 2
    ensures forall i, j :: 0 <= i < j < |a + b + c| ==> CheckOrder((a + b + c)[i]) < CheckOrder((a + b + c)[j])
  {
    var r := a + b + c;
    forall i, j | 0 <= i < j < |r| ensures CheckOrder(r[i]) < CheckOrder(r[j]) {
      if i < |a| { assert r[i] in a; } else { assert r[i] == b[0]; assert r[j] in c; }
      if j < |a| + |b| { assert r[j] in b; } else { assert r[j] in c; }
    }
  }

  /** The findings for a list of relationships, each Id checked against the earlier ones. */
  function Findings(rels: seq<Element>, relsPath: string, onDisk: set<string>): seq<Finding> {
    if rels == [] then []
    else
      var init := rels[..|rels| - 1];
      Findings(init, relsPath, onDisk)
      + RelationshipFindings(rels[|rels| - 1], PresentValues(init, "Id"), relsPath, onDisk)
  }

  /** `root.findall(".//{relationships namespace}Relationship")`. */
  function RelationshipsOf(root: Element): seq<Element> {
    FindAllBelow(root, RELATIONSHIP_TAG)
  }

  /** What `validate_rels_file` returns for a `.rels` file at `relsPath`. */
  function Validate(relsPath: string, doc: Document, onDisk: set<string>): (r: seq<string>)
    ensures r != []
    ensures doc.Malformed? ==> r == [ParseErrorMessage(doc.detail)]
    ensures r == [OK_MESSAGE] <==> doc.WellFormed? && Findings(RelationshipsOf(doc.root), relsPath, onDisk) == []
  {
    match doc
    case Malformed(detail) =>
      assert ParseErrorMessage(detail)[1] != OK_MESSAGE[1];
      [ParseErrorMessage(detail)]
    case WellFormed(root) =>
      var errors := Render(Findings(RelationshipsOf(root), relsPath, onDisk), Message);
      FinishIsOkIffClean(errors);
      Finish(errors)
  }

  /**
   * `validate_rels_file`: parses, then checks each relationship in document order,
   * accumulating the errors and the set of Ids seen so far.
   */
  method ValidateRelsFile(path: string, doc: Document, onDisk: set<string>) returns (errors: seq<string>)
    ensures errors == Validate(path, doc, onDisk)
  {
    errors := [];
    if doc.Malformed? {
      errors := errors + [ParseErrorMessage(doc.detail)];
      return;
    }
    var rels := RelationshipsOf(doc.root);
    var ids: set<string> := {};
    for i := 0 to |rels|
      invariant ids == PresentValues(rels[..i], "Id")
      invariant errors == Render(Findings(rels[..i], path, onDisk), Message)
    {
      var rel := rels[i];
      ghost var earlier := Findings(rels[..i], path, onDisk);
      ghost var seen := ids;
      errors, ids := CheckId(rel, ids, errors);
      errors := CheckType(rel, errors);
      errors := CheckTarget(path, rel, errors, onDisk);
      RenderAppend4(earlier, IdFindings(rel, seen), TypeFindings(rel), TargetFindings(rel, path, onDisk), Message);
      FindingsSnoc(rels, i, path, onDisk);
      PresentValuesSnoc(rels, i, "Id");
    }
    assert rels[..|rels|] == rels;
    if errors == [] {
      errors := errors + [OK_MESSAGE];
    }
  }

  /** The Id check of one relationship: a missing or repeated Id is an error, a new one is recorded. */
  method CheckId(rel: Element, ids: set<string>, errors: seq<string>) returns (errors': seq<string>, ids': set<string>)
    ensures errors' == errors + Render(IdFindings(rel, ids), Message)
    ensures ids' == ids + (if Blank(Get(rel, "Id")) then {} else {Get(rel, "Id").value})
  {
    errors', ids' := errors, ids;
    var rid := Get(rel, "Id");
    if Blank(rid) {
      errors' := errors' + [Message(MissingId)];
    } else if rid.value in ids' {
      errors' := errors' + [Message(DuplicateId(rid.value))];
    } else {
      ids' := ids' + {rid.value};
    }
  }

  /** The Type check of one relationship. */
  method CheckType(rel: Element, errors: seq<string>) returns (errors': seq<string>)
    ensures errors' == errors + Render(TypeFindings(rel), Message)
  {
    errors' := errors;
    var rid := Get(rel, "Id");
    var rtype := Get(rel, "Type");
    if Blank(rtype) {
      errors' := errors' + [Message(MissingType(ShownId(rid)))];
    }
  }

  /** The Target check of one relationship and, for a non-empty Target, the existence check. */
  method CheckTarget(path: string, rel: Element, errors: seq<string>, onDisk: set<string>) returns (errors': seq<string>)
    ensures errors' == errors + Render(TargetFindings(rel, path, onDisk), Message)
  {
    errors' := errors;
    var rid := Get(rel, "Id");
    var rtarget := Get(rel, "Target");
    if Blank(rtarget) {
      errors' := errors' + [Message(MissingTarget(ShownId(rid)))];
    } else {
      var resolved := ResolveTargetPath(path, rtarget.value);
      if resolved !in onDisk {
        errors' := errors' + [Message(TargetNotFound(resolved))];
      }
    }
  }

  lemma FindingsSnoc(rels: seq<Element>, i: nat, relsPath: string, onDisk: set<string>)
    requires i < |rels|
    ensures Findings(rels[..i + 1], relsPath, onDisk)
      == Findings(rels[..i], relsPath, onDisk) + RelationshipFindings(rels[i], PresentValues(rels[..i], "Id"), relsPath, onDisk)
  {
    assert rels[..i + 1][..i] == rels[..i];
  }

  /** The errors for the first `k` relationships come first, whatever follows them. */
  lemma {:induction false} FindingsPrefix(rels: seq<Element>, k: nat, relsPath: string, onDisk: set<string>)
    requires k <= |rels|
    ensures Findings(rels[..k], relsPath, onDisk) <= Findings(rels, relsPath, onDisk)
    decreases |rels|
  {
    if k < |rels| {
      var init := rels[..|rels| - 1];
      assert init[..k] == rels[..k];
      FindingsPrefix(init, k, relsPath, onDisk);
    } else {
      assert rels[..k] == rels;
    }
  }

  /** Only the Id check yields the Id findings, so they are counted on it alone. */
  lemma IdFindingCount(rel: Element, seen: set<string>, relsPath: string, onDisk: set<string>, f: Finding)
    requires CheckOrder(f) == 0
    ensures multiset(RelationshipFindings(rel, seen, relsPath, onDisk))[f] == multiset(IdFindings(rel, seen))[f]
  {
    var b, c := TypeFindings(rel), TargetFindings(rel, relsPath, onDisk);
    assert f !in b && f !in c;
    assert multiset(b)[f] == 0 && multiset(c)[f] == 0;
  }

  /** An Id that occurs `n >= 1` times gives exactly `n - 1` duplicate errors. */
  lemma {:induction false} DuplicateIdCount(rels: seq<Element>, id: string, relsPath: string, onDisk: set<string>)
    requires id != ""
    ensures var n := Occurrences(rels, "Id", id);
      multiset(Findings(rels, relsPath, onDisk))[DuplicateId(id)] == if n == 0 then 0 else n - 1
  {
    if rels != [] {
      var init := rels[..|rels| - 1];
      DuplicateIdCount(init, id, relsPath, onDisk);
      SeenIffOccurs(init, "Id", id);
      DuplicateIdStep(rels, id, relsPath, onDisk);
    }
  }

  /** The last relationship adds one duplicate error for `id` when it carries `id` and an earlier one did. */
  lemma DuplicateIdStep(rels: seq<Element>, id: string, relsPath: string, onDisk: set<string>)
    requires rels != [] && id != ""
    ensures var init, last := rels[..|rels| - 1], rels[|rels| - 1];
      multiset(Findings(rels, relsPath, onDisk))[DuplicateId(id)]
        == multiset(Findings(init, relsPath, onDisk))[DuplicateId(id)]
          + (if Get(last, "Id") == Some(id) && id in PresentValues(init, "Id") then 1 else 0)
  {
    var init := rels[..|rels| - 1];
    var last := rels[|rels| - 1];
    var seen := PresentValues(init, "Id");
    var f := DuplicateId(id);
    IdFindingCount(last, seen, relsPath, onDisk, f);
    assert multiset(IdFindings(last, seen))[f] == if Get(last, "Id") == Some(id) && id in seen then 1 else 0;
    assert Findings(rels, relsPath, onDisk) == Findings(init, relsPath, onDisk) + RelationshipFindings(last, seen, relsPath, onDisk);
  }

  /** Each relationship without an Id gives exactly one "no Id" error. */
  lemma {:induction false} MissingIdCount(rels: seq<Element>, relsPath: string, onDisk: set<string>)
    ensures multiset(Findings(rels, relsPath, onDisk))[MissingId] == |BlankIds(rels)|
  {
    if rels != [] {
      var init := rels[..|rels| - 1];
      var last := rels[|rels| - 1];
      var seen := PresentValues(init, "Id");
      MissingIdCount(init, relsPath, onDisk);
      IdFindingCount(last, seen, relsPath, onDisk, MissingId);
      assert multiset(IdFindings(last, seen))[MissingId] == if Blank(Get(last, "Id")) then 1 else 0;
      BlankIdsSnoc(rels);
    }
  }

  /** The positions of the relationships that lack an Id. */
  function BlankIds(rels: seq<Element>): set<nat> {
    set i: nat | i < |rels| && Blank(Get(rels[i], "Id"))
  }

  lemma BlankIdsSnoc(rels: seq<Element>)
    requires rels != []
    ensures var last := |rels| - 1;
      |BlankIds(rels)| == |BlankIds(rels[..last])| + (if Blank(Get(rels[last], "Id")) then 1 else 0)
  {
    var last := |rels| - 1;
    var init := rels[..last];
    var added: set<nat> := if Blank(Get(rels[last], "Id")) then {last} else {};
    forall i ensures i in BlankIds(rels) <==> i in BlankIds(init) || i in added {
      if 0 <= i < last { assert init[i] == rels[i]; }
    }
    assert BlankIds(rels) == BlankIds(init) + added;
    assert last !in BlankIds(init);
  }
}
