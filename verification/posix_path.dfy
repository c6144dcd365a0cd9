/**
 * The string-level path operations the validators rely on, with the semantics of
 * Python's `posixpath` module: `join`, `dirname`, `basename`, `normpath`, and the
 * `str` methods `startswith`, `endswith`, `lstrip`, `lower` and `split` on paths.
 * Only '/' separates path components.
 */
module PosixPath {

  const SEP: char := '/'

  predicate StartsWith(s: string, prefix: string) {
    |prefix| <= |s| && s[..|prefix|] == prefix
  }

  predicate EndsWith(s: string, suffix: string) {
    |suffix| <= |s| && s[|s| - |suffix|..] == suffix
  }

  /** `os.path.isabs`: the path starts with a separator. */
  predicate IsAbsolute(p: string) {
    p != [] && p[0] == SEP
  }

  predicate AllOf(s: string, c: char) {
    forall j :: 0 <= j < |s| ==> s[j] == c
  }

  /** `str.find`: the index of the first `c` in `s`, or -1. */
  function Find(s: string, c: char): (i: int)
    ensures -1 <= i < |s|
    ensures i >= 0 ==> s[i] == c
    ensures forall j :: 0 <= j < |s| && (i < 0 || j < i) ==> s[j] != c
  {
    if s == [] then -1
    else if s[0] == c then 0
    else
      var k := Find(s[1..], c);
      if k < 0 then -1 else k + 1
  }

  /** `str.rfind`: the index of the last `c` in `s`, or -1. */
  function RFind(s: string, c: char): (i: int)
    ensures -1 <= i < |s|
    ensures i >= 0 ==> s[i] == c
    ensures forall j :: i < j < |s| ==> s[j] != c
  {
    if s == [] then -1
    else if s[|s| - 1] == c then |s| - 1
    else RFind(s[..|s| - 1], c)
  }

  /** `str.rstrip(c)`: the longest prefix of `s` that does not end in `c`. */
  function RStrip(s: string, c: char): (r: string)
    ensures |r| <= |s| && r == s[..|r|]
    ensures r == [] || r[|r| - 1] != c
    ensures forall j :: |r| <= j < |s| ==> s[j] == c
  {
    if s != [] && s[|s| - 1] == c then RStrip(s[..|s| - 1], c) else s
  }

  /** `str.lstrip(chars)`: drops every leading character that belongs to `chars`. */
  function LStrip(s: string, chars: set<char>): (r: string)
    ensures EndsWith(s, r)
    ensures r == [] || r[0] !in chars
    ensures forall j :: 0 <= j < |s| - |r| ==> s[j] in chars
  {
    if s != [] && s[0] in chars then LStrip(s[1..], chars) else s
  }

  /** Stripping a run of stripped characters first changes nothing. */
  lemma {:induction false} LStripRun(run: string, s: string, chars: set<char>)
    requires forall j :: 0 <= j < |run| ==> run[j] in chars
    ensures LStrip(run + s, chars) == LStrip(s, chars)
  {
    if run != [] {
      assert (run + s)[1..] == run[1..] + s;
      LStripRun(run[1..], s, chars);
    } else {
      assert run + s == s;
    }
  }

  function LowerChar(c: char): char {
    if 'A' <= c <= 'Z' then (c as int + 32) as char else c
  }

  /** `str.lower` restricted to the ASCII letters. */
  function Lower(s: string): (r: string)
    ensures |r| == |s|
    ensures forall i :: 0 <= i < |s| ==> r[i] == LowerChar(s[i])
  {
    seq(|s|, i requires 0 <= i < |s| => LowerChar(s[i]))
  }

  /** `posixpath.join(a, b)`: an absolute `b` discards `a`; otherwise one separator joins them. */
  function Join(a: string, b: string): (r: string)
    ensures IsAbsolute(b) ==> r == b
    ensures !IsAbsolute(b) ==> StartsWith(r, a) && EndsWith(r, b) && |r| <= |a| + 1 + |b|
  {
    if IsAbsolute(b) then b
    else if a == [] || a[|a| - 1] == SEP then a + b
    else a + [SEP] + b
  }

  /** `posixpath.basename`: what follows the last separator. */
  function BaseName(p: string): (b: string)
    ensures SEP !in b
    ensures EndsWith(p, b)
    ensures |b| < |p| ==> p[|p| - |b| - 1] == SEP
  {
    p[RFind(p, SEP) + 1..]
  }

  /**
   * `posixpath.dirname`: what precedes the last separator, without its trailing
   * separators unless it consists only of separators.
   */
  function DirName(p: string): (d: string)
    ensures |d| <= |p| && d == p[..|d|]
  {
    var head := p[..RFind(p, SEP) + 1];
    if head != [] && !AllOf(head, SEP) then RStrip(head, SEP) else head
  }

  /** The last separator of `p` is at `i`. */
  lemma RFindAt(p: string, i: int)
    requires 0 <= i < |p| && p[i] == SEP
    requires forall j :: i < j < |p| ==> p[j] != SEP
    ensures RFind(p, SEP) == i
  {
  }

  /** A name without separators, joined to a folder, is the basename of the result. */
  lemma BaseNameJoin(d: string, name: string)
    requires SEP !in name
    ensures BaseName(Join(d, name)) == name
  {
    assert !IsAbsolute(name) by {
      if name != [] { assert name[0] in name; }
    }
    if d == [] {
      assert Join(d, name) == name;
      assert RFind(name, SEP) == -1;
    } else if d[|d| - 1] == SEP {
      var p := d + name;
      assert Join(d, name) == p;
      forall j | |d| - 1 < j < |p| ensures p[j] != SEP {
        assert p[j] == name[j - |d|];
        assert name[j - |d|] in name;
      }
      RFindAt(p, |d| - 1);
      assert p[|d|..] == name;
    } else {
      var p := d + [SEP] + name;
      assert Join(d, name) == p;
      forall j | |d| < j < |p| ensures p[j] != SEP {
        assert p[j] == name[j - |d| - 1];
        assert name[j - |d| - 1] in name;
      }
      RFindAt(p, |d|);
      assert p[|d| + 1..] == name;
    }
  }

  /** The folder of `d/name` is `d` when `d` is not empty and does not end in a separator. */
  lemma DirNameJoin(d: string, name: string)
    requires d != [] && d[|d| - 1] != SEP
    requires SEP !in name
    ensures Join(d, name) == d + [SEP] + name
    ensures DirName(Join(d, name)) == d
  {
    assert !IsAbsolute(name) by {
      if name != [] { assert name[0] in name; }
    }
    var p := d + [SEP] + name;
    forall j | |d| < j < |p| ensures p[j] != SEP {
      assert p[j] == name[j - |d| - 1];
      assert name[j - |d| - 1] in name;
    }
    RFindAt(p, |d|);
    var head := p[..|d| + 1];
    assert head == d + [SEP];
    assert !AllOf(head, SEP) by { assert head[|d| - 1] == d[|d| - 1]; }
    var r := RStrip(head, SEP);
  }

  /** `str.split('/')`: the pieces between separators, empty ones included. */
  function Split(s: string): (parts: seq<string>)
    ensures |parts| >= 1
  {
    if s == [] then [""]
    else
      var rest := Split(s[1..]);
      if s[0] == SEP then [""] + rest else [[s[0]] + rest[0]] + rest[1..]
  }

  /** No piece holds a separator. */
  lemma {:induction false} SplitPiecesHaveNoSeparator(s: string)
    ensures forall k :: 0 <= k < |Split(s)| ==> SEP !in Split(s)[k]
  {
    if s != [] {
      SplitPiecesHaveNoSeparator(s[1..]);
    }
  }

  /** A separator in front starts a new, empty, piece. */
  lemma SplitAtSeparator(s: string)
    requires s != [] && s[0] == SEP
    ensures Split(s) == [""] + Split(s[1..])
  {
  }

  /** A run without separators in front is glued to the first piece of what follows. */
  lemma {:induction false} SplitGlued(a: string, rest: string)
    requires SEP !in a
    ensures Split(a + rest) == [a + Split(rest)[0]] + Split(rest)[1..]
  {
    if a != [] {
      var s := a + rest;
      assert s[1..] == a[1..] + rest;
      assert a[0] in a;
      SplitGlued(a[1..], rest);
      assert [a[0]] + (a[1..] + Split(rest)[0]) == a + Split(rest)[0];
    } else {
      assert a + rest == rest;
      assert a + Split(rest)[0] == Split(rest)[0];
      assert [Split(rest)[0]] + Split(rest)[1..] == Split(rest);
    }
  }

  /** `'/'.join(parts)`. */
  function JoinSep(parts: seq<string>): string {
    if parts == [] then ""
    else if |parts| == 1 then parts[0]
    else parts[0] + [SEP] + JoinSep(parts[1..])
  }

  lemma {:induction false} JoinSepHead(parts: seq<string>)
    requires parts != [] && parts[0] != ""
    ensures JoinSep(parts) != "" && JoinSep(parts)[0] == parts[0][0]
  {
  }

  /** Splitting what `JoinSep` built gives the pieces back. */
  lemma {:induction false} SplitJoinSep(parts: seq<string>)
    requires |parts| >= 1
    requires forall k :: 0 <= k < |parts| ==> SEP !in parts[k]
    ensures Split(JoinSep(parts)) == parts
  {
    if |parts| == 1 {
      SplitGlued(parts[0], "");
      assert parts[0] + "" == parts[0];
    } else {
      var rest := JoinSep(parts[1..]);
      SplitJoinSep(parts[1..]);
      SplitAtSeparator([SEP] + rest);
      assert ([SEP] + rest)[1..] == rest;
      assert parts[0] + [SEP] + rest == parts[0] + ([SEP] + rest);
      SplitGlued(parts[0], [SEP] + rest);
      assert parts[0] + "" == parts[0];
    }
  }

  /**
   * The leading separators `normpath` keeps: two stay two (POSIX leaves a leading
   * "//" implementation-defined), one or three-and-more become one.
   */
  function InitialSlashes(p: string): nat {
    if |p| >= 2 && p[0] == SEP && p[1] == SEP && !(|p| >= 3 && p[2] == SEP) then 2
    else if IsAbsolute(p) then 1
    else 0
  }

  function Slashes(n: nat): string {
    if n == 0 then "" else [SEP] + Slashes(n - 1)
  }

  /** One iteration of `normpath`'s loop over the components. */
  function NormStep(acc: seq<string>, comp: string, rooted: bool): seq<string> {
    if comp == "" || comp == "." then acc
    else if comp != ".." || (!rooted && acc == []) || (acc != [] && acc[|acc| - 1] == "..") then acc + [comp]
    else if acc != [] then acc[..|acc| - 1]
    else acc
  }

  function NormComps(comps: seq<string>, rooted: bool): seq<string>
    decreases |comps|
  {
    if comps == [] then []
    else NormStep(NormComps(comps[..|comps| - 1], rooted), comps[|comps| - 1], rooted)
  }

  /** `posixpath.normpath`: drops empty and "." components and resolves "..". */
  function NormPath(p: string): (r: string)
    ensures r != ""
  {
    if p == "" then "."
    else
      var n := InitialSlashes(p);
      var r := Slashes(n) + JoinSep(NormComps(Split(p), n > 0));
      if r == "" then "." else r
  }

  /**
   * The shape of a normalised component list: no empty, "." or separator-bearing
   * component, no ".." under a root, and otherwise every ".." before any name.
   */
  ghost predicate Normal(segs: seq<string>, rooted: bool) {
    && (forall k :: 0 <= k < |segs| ==>
          segs[k] != "" && segs[k] != "." && SEP !in segs[k] && (rooted ==> segs[k] != ".."))
    && (forall j, k :: 0 <= j < k < |segs| && segs[k] == ".." ==> segs[j] == "..")
  }

  lemma NormStepNormal(acc: seq<string>, comp: string, rooted: bool)
    requires Normal(acc, rooted)
    requires SEP !in comp
    ensures Normal(NormStep(acc, comp, rooted), rooted)
  {
    if comp != "" && comp != "." && comp == ".." && acc != [] && acc[|acc| - 1] == ".." {
      assert !rooted;
      forall j | 0 <= j < |acc| ensures acc[j] == ".." {
        if j < |acc| - 1 {
          assert acc[|acc| - 1] == "..";
        }
      }
    }
  }

  lemma {:induction false} NormCompsNormal(comps: seq<string>, rooted: bool)
    requires forall k :: 0 <= k < |comps| ==> SEP !in comps[k]
    ensures Normal(NormComps(comps, rooted), rooted)
    decreases |comps|
  {
    if comps != [] {
      NormCompsNormal(comps[..|comps| - 1], rooted);
      NormStepNormal(NormComps(comps[..|comps| - 1], rooted), comps[|comps| - 1], rooted);
    }
  }

  /** A prefix of a normal component list is normal. */
  lemma NormalPrefix(segs: seq<string>, k: nat, rooted: bool)
    requires k <= |segs| && Normal(segs, rooted)
    ensures Normal(segs[..k], rooted)
  {
  }

  /** A component that keeps the list normal is appended by one step of the loop. */
  lemma NormStepKeeps(acc: seq<string>, comp: string, rooted: bool)
    requires Normal(acc + [comp], rooted)
    ensures NormStep(acc, comp, rooted) == acc + [comp]
  {
    var s := acc + [comp];
    assert s[|acc|] == comp;
    if comp == ".." && acc != [] {
      assert s[|acc| - 1] == acc[|acc| - 1];
    }
  }

  /** Components that are already normal pass through `normpath`'s loop unchanged. */
  lemma {:induction false} NormCompsAppend(pre: seq<string>, segs: seq<string>, rooted: bool)
    requires Normal(NormComps(pre, rooted) + segs, rooted)
    ensures NormComps(pre + segs, rooted) == NormComps(pre, rooted) + segs
    decreases |segs|
  {
    var acc := NormComps(pre, rooted);
    if segs == [] {
      assert pre + segs == pre;
    } else {
      var init := segs[..|segs| - 1];
      var last := segs[|segs| - 1];
      assert (acc + segs)[..|acc| + |init|] == acc + init;
      NormalPrefix(acc + segs, |acc| + |init|, rooted);
      NormCompsAppend(pre, init, rooted);
      assert (pre + segs)[..|pre + segs| - 1] == pre + init;
      assert (pre + segs)[|pre + segs| - 1] == last;
      assert acc + segs == (acc + init) + [last];
      NormStepKeeps(acc + init, last, rooted);
    }
  }

  lemma NormPathOfDot()
    ensures NormPath(".") == "."
  {
    SplitGlued(".", "");
    assert "." + "" == ".";
    assert Split(".") == ["."];
    assert NormComps(["."], false) == [];
  }

  /** `n` empty components, as splitting `n` leading separators yields. */
  function Empties(n: nat): (r: seq<string>)
    ensures |r| == n
  {
    if n == 0 then [] else [""] + Empties(n - 1)
  }

  lemma {:induction false} EmptiesSnoc(n: nat)
    requires n > 0
    ensures Empties(n) == Empties(n - 1) + [""]
  {
    if n > 1 {
      EmptiesSnoc(n - 1);
    }
  }


  lemma {:induction false} SplitSlashes(n: nat, body: string)
    ensures Split(Slashes(n) + body) == Empties(n) + Split(body)
  {
    if n > 0 {
      var s := Slashes(n) + body;
      SplitSlashes(n - 1, body);
      assert s == [SEP] + (Slashes(n - 1) + body);
      assert s[1..] == Slashes(n - 1) + body;
      SplitAtSeparator(s);
      assert [""] + (Empties(n - 1) + Split(body)) == ([""] + Empties(n - 1)) + Split(body);
    } else {
      assert Slashes(0) + body == body;
      assert Empties(0) + Split(body) == Split(body);
    }
  }

  lemma {:induction false} NormCompsEmpties(n: nat, rooted: bool)
    ensures NormComps(Empties(n), rooted) == []
  {
    if n > 0 {
      EmptiesSnoc(n);
      assert Empties(n)[..n - 1] == Empties(n - 1);
      NormCompsEmpties(n - 1, rooted);
    }
  }

  lemma {:induction false} SlashesLength(n: nat)
    ensures |Slashes(n)| == n && forall k :: 0 <= k < n ==> Slashes(n)[k] == SEP
  {
    if n > 0 {
      SlashesLength(n - 1);
    }
  }

  /** Up to two leading separators in front of a body that does not start with one are kept as they are. */
  lemma InitialSlashesOf(n: nat, body: string)
    requires n <= 2 && (body == "" || body[0] != SEP)
    ensures InitialSlashes(Slashes(n) + body) == n
  {
    SlashesLength(n);
    var r := Slashes(n) + body;
    if n < |r| {
      assert r[n] == body[0];
    }
  }

  lemma NormalBody(segs: seq<string>)
    requires segs != [] && Normal(segs, false)
    ensures JoinSep(segs) != "" && JoinSep(segs)[0] != SEP
    ensures Split(JoinSep(segs)) == segs
  {
    SplitJoinSep(segs);
    JoinSepHead(segs);
    assert segs[0][0] in segs[0];
  }

  /** `normpath` of a non-empty path, given its leading separators, split and components. */
  lemma NormPathByParts(r: string, n: nat, segs: seq<string>)
    requires r != "" && InitialSlashes(r) == n && NormComps(Split(r), n > 0) == segs
    requires Slashes(n) + JoinSep(segs) != ""
    ensures NormPath(r) == Slashes(n) + JoinSep(segs)
  {
  }

  /** A normal component list behind at most two leading separators is a fixed point of `normpath`. */
  lemma NormPathFixedPoint(n: nat, segs: seq<string>)
    requires n <= 2 && Normal(segs, n > 0)
    requires Slashes(n) + JoinSep(segs) != ""
    ensures NormPath(Slashes(n) + JoinSep(segs)) == Slashes(n) + JoinSep(segs)
  {
    var body := JoinSep(segs);
    var r := Slashes(n) + body;
    SplitSlashes(n, body);
    if segs == [] {
      assert Split(body) == [""];
      EmptiesSnoc(n + 1);
      NormCompsEmpties(n + 1, n > 0);
    } else {
      NormalBody(segs);
      NormCompsEmpties(n, n > 0);
      assert [] + segs == segs;
      NormCompsAppend(Empties(n), segs, n > 0);
    }
    InitialSlashesOf(n, body);
    NormPathByParts(r, n, segs);
  }

  /** `normpath` is idempotent. */
  lemma NormPathIdempotent(p: string)
    ensures NormPath(NormPath(p)) == NormPath(p)
  {
    if p == "" {
      NormPathOfDot();
    } else {
      var n := InitialSlashes(p);
      var segs := NormComps(Split(p), n > 0);
      SplitPiecesHaveNoSeparator(p);
      NormCompsNormal(Split(p), n > 0);
      var r := Slashes(n) + JoinSep(segs);
      if r == "" {
        NormPathOfDot();
      } else {
        NormPathByParts(p, n, segs);
        NormPathFixedPoint(n, segs);
      }
    }
  }
}
