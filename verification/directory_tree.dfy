/** An abstract directory tree, the pruned walk over it, and the source files it finds. */
module DirectoryTree {
  import opened Wrappers
  import Lex
  import Sorting

  type Path = seq<string>

  datatype Dir = Dir(files: seq<string>, subs: seq<Sub>)
  datatype Sub = Sub(name: string, dir: Dir)

  const EXCLUDED_PARTS := {"contracts", "tests", "output", "sdk", "fixtures", "target", ".git", "__pycache__", ".venv", "node_modules"}

  // ---------- names ----------

  predicate IsExcluded(p: Path) {
    exists i :: 0 <= i < |p| && p[i] in EXCLUDED_PARTS
  }

  function Lower(c: char): char {
    if 'A' <= c <= 'Z' then (c as int + 32) as char else c
  }

  function Normalized(name: string): (n: string) {
    seq(|name|, i requires 0 <= i < |name| => if name[i] == '-' then '_' else Lower(name[i]))
  }

  predicate DomainMatches(name: string, domain: string) {
    var n := Normalized(name);
    || n == domain
    || domain + "_" <= n
    || (|n| >= |domain| + 1 && n[|n| - |domain| - 1..] == "_" + domain)
  }

  /** Where the last dot is, |name| if there is none. */
  function LastDot(name: string): (i: nat)
    ensures i <= |name|
  {
    if name == [] then 0
    else if name[|name| - 1] == '.' then |name| - 1
    else
      var i := LastDot(name[..|name| - 1]);
      if i == |name| - 1 then |name| else i
  }

  /** Path.suffix: from the last dot on, unless the dot is first or last. */
  function Suffix(name: string): (s: string) {
    var i := LastDot(name);
    if 0 < i < |name| - 1 then name[i..] else ""
  }

  function Language(suffix: string): (l: Option<string>) {
    if suffix == ".rs" then Some("rust")
    else if suffix == ".py" then Some("python")
    else if suffix == ".go" then Some("go")
    else None
  }

  predicate IsSource(name: string) {
    Language(Suffix(name)).Some?
  }

  /** A path is excluded by any of these ten names in it. */
  lemma ExcludedExactly(p: Path)
    ensures var names :=
        {"contracts", "tests", "output", "sdk", "fixtures", "target", ".git", "__pycache__", ".venv", "node_modules"};
      IsExcluded(p) <==> exists i :: 0 <= i < |p| && p[i] in names
  {
  }

  /** The three forms of a matching name, after '-' has become '_' and capitals small. */
  lemma MatchesExactly(name: string, domain: string)
    ensures var n := Normalized(name);
      DomainMatches(name, domain) <==>
        n == domain || (exists rest :: n == domain + "_" + rest) || (exists rest :: n == rest + "_" + domain)
  {
    hide Normalized;
    var n := Normalized(name);
    if domain + "_" <= n {
      assert n == domain + "_" + n[|domain| + 1..];
    }
    if |n| >= |domain| + 1 && n[|n| - |domain| - 1..] == "_" + domain {
      var rest := n[..|n| - |domain| - 1];
      assert n == rest + n[|n| - |domain| - 1..] == rest + ("_" + domain) == rest + "_" + domain;
    }
    forall rest | n == rest + "_" + domain
      ensures |n| >= |domain| + 1 && n[|n| - |domain| - 1..] == "_" + domain
    {
      assert n == rest + ("_" + domain);
    }
  }

  lemma NormalizedExactly(name: string)
    ensures |Normalized(name)| == |name|
    ensures (forall i :: 0 <= i < |name| ==>
      Normalized(name)[i] == if name[i] == '-' then '_' else if 'A' <= name[i] <= 'Z' then name[i] - 'A' + 'a' else name[i])
  {
  }

  /** The name ends in the extension, with something in front. */
  ghost predicate Ends(name: string, extension: string) {
    exists stem :: stem != "" && name == stem + extension
  }

  lemma {:induction false} LastDotMeaning(name: string)
    ensures var i := LastDot(name);
      i < |name| ==> name[i] == '.'
    ensures forall k :: LastDot(name) < k < |name| ==> name[k] != '.'
    ensures LastDot(name) == |name| ==> '.' !in name
  {
    if name != [] {
      LastDotMeaning(name[..|name| - 1]);
      assert name == name[..|name| - 1] + [name[|name| - 1]];
    }
  }

  /** The suffix is what a name ends in from its last dot on. */
  lemma SuffixMeaning(name: string, extension: string)
    requires |extension| >= 2 && extension[0] == '.' && '.' !in extension[1..]
    ensures Suffix(name) == extension <==> Ends(name, extension)
  {
    LastDotMeaning(name);
    var i := LastDot(name);
    if Suffix(name) == extension {
      assert name == name[..i] + extension;
      assert Ends(name, extension);
    }
    if stem :| stem != "" && name == stem + extension {
      assert name[|stem|] == '.';
      assert forall k :: |stem| < k < |name| ==> name[k] == extension[1..][k - |stem| - 1];
      assert i == |stem|;
      assert name[i..] == extension;
    }
  }

  /** Which files count, and that files of different extensions have different languages. */
  lemma LanguageExactly(name: string)
    ensures Language(Suffix(name)) == Some("rust") <==> Ends(name, ".rs")
    ensures Language(Suffix(name)) == Some("python") <==> Ends(name, ".py")
    ensures Language(Suffix(name)) == Some("go") <==> Ends(name, ".go")
    ensures IsSource(name) <==> Ends(name, ".rs") || Ends(name, ".py") || Ends(name, ".go")
  {
    assert ".rs"[1..] == "rs" && ".py"[1..] == "py" && ".go"[1..] == "go";
    SuffixMeaning(name, ".rs");
    SuffixMeaning(name, ".py");
    SuffixMeaning(name, ".go");
    assert "rust"[0] == 'r' && "python"[0] == 'p' && "go"[0] == 'g';
    assert ".rs"[1] == 'r' && ".py"[1] == 'p' && ".go"[1] == 'g';
  }

  // ---------- the tree ----------

  predicate DistinctNames(subs: seq<Sub>) {
    forall i, j :: 0 <= i < j < |subs| ==> subs[i].name != subs[j].name
  }

  predicate WellFormed(d: Dir) {
    && DistinctNames(d.subs)
    && (forall i, j :: 0 <= i < j < |d.files| ==> d.files[i] != d.files[j])
    && forall i :: 0 <= i < |d.subs| ==> WellFormed(d.subs[i].dir)
  }

  function FindSub(subs: seq<Sub>, name: string): (d: Option<Dir>)
    ensures d.Some? ==> exists i :: 0 <= i < |subs| && subs[i] == Sub(name, d.value)
    ensures d.None? ==> forall i :: 0 <= i < |subs| ==> subs[i].name != name
  {
    if subs == [] then None
    else if subs[0].name == name then assert subs[0] == Sub(name, subs[0].dir); Some(subs[0].dir)
    else
      var d := FindSub(subs[1..], name);
      assert d.Some? ==> exists i :: 0 <= i < |subs| && subs[i] == Sub(name, d.value) by {
        if d.Some? {
          var i :| 0 <= i < |subs[1..]| && subs[1..][i] == Sub(name, d.value);
          assert subs[i + 1] == Sub(name, d.value);
        }
      }
      d
  }

  /** The directory at a relative path. */
  function At(d: Dir, rel: Path): (e: Option<Dir>)
    decreases |rel|
  {
    if rel == [] then Some(d) else
      match FindSub(d.subs, rel[0])
      case None => None
      case Some(sub) => At(sub, rel[1..])
  }

  /** What is asked of trees: no directory has two children of one kind with one name. */
  lemma WellFormedExactly(d: Dir)
    ensures WellFormed(d) <==>
      && (forall i, j :: 0 <= i < |d.subs| && 0 <= j < |d.subs| && d.subs[i].name == d.subs[j].name ==> i == j)
      && (forall i, j :: 0 <= i < |d.files| && 0 <= j < |d.files| && d.files[i] == d.files[j] ==> i == j)
      && (forall i :: 0 <= i < |d.subs| ==> WellFormed(d.subs[i].dir))
  {
  }

  lemma {:induction false} AtCompose(d: Dir, a: Path, b: Path)
    ensures At(d, a + b) == match At(d, a) case None => None case Some(e) => At(e, b)
  {
    if a == [] {
      assert a + b == b;
    } else {
      assert (a + b)[0] == a[0] && (a + b)[1..] == a[1..] + b;
      match FindSub(d.subs, a[0])
      case None =>
      case Some(sub) => AtCompose(sub, a[1..], b);
    }
  }

  // ---------- os.walk with pruning ----------

  datatype Visit = Visit(path: Path, dir: Dir)

  /** The directories os.walk yields to the loop bodies, top down, an excluded one and
      everything below it left out. */
  function Walk(path: Path, d: Dir): (vs: seq<Visit>)
    decreases d, 1
  {
    if IsExcluded(path) then [] else [Visit(path, d)] + WalkAll(path, d.subs)
  }

  function WalkAll(path: Path, subs: seq<Sub>): (vs: seq<Visit>)
    decreases subs, 0
  {
    if subs == [] then [] else Walk(path + [subs[0].name], subs[0].dir) + WalkAll(path, subs[1..])
  }

  /** p is the directory e somewhere in d, which stands at path, and no part of p is excluded. */
  predicate Reaches(path: Path, d: Dir, v: Visit) {
    path <= v.path && At(d, v.path[|path|..]) == Some(v.dir) && !IsExcluded(v.path)
  }

  predicate ReachesBelow(path: Path, subs: seq<Sub>, v: Visit) {
    && path < v.path
    && FindSub(subs, v.path[|path|]).Some?
    && At(FindSub(subs, v.path[|path|]).value, v.path[|path| + 1..]) == Some(v.dir)
    && !IsExcluded(v.path)
  }

  lemma ExcludedPrefix(p: Path, q: Path)
    requires p <= q && IsExcluded(p)
    ensures IsExcluded(q)
  {
    var i :| 0 <= i < |p| && p[i] in EXCLUDED_PARTS;
    assert q[i] == p[i];
  }

  /** The walk visits exactly the directories of the tree whose whole path is free of
      excluded parts. */
  lemma {:induction false} WalkMeaning(path: Path, d: Dir, v: Visit)
    requires WellFormed(d)
    ensures v in Walk(path, d) <==> Reaches(path, d, v)
    decreases d, 1
  {
    if IsExcluded(path) {
      if path <= v.path { ExcludedPrefix(path, v.path); }
    } else {
      WalkAllMeaning(path, d.subs, v);
      if path < v.path {
        assert v.path[|path|..][0] == v.path[|path|] && v.path[|path|..][1..] == v.path[|path| + 1..];
      } else if path == v.path {
        assert v.path[|path|..] == [];
      }
    }
  }

  lemma {:induction false} WalkAllMeaning(path: Path, subs: seq<Sub>, v: Visit)
    requires DistinctNames(subs) && forall i :: 0 <= i < |subs| ==> WellFormed(subs[i].dir)
    ensures v in WalkAll(path, subs) <==> ReachesBelow(path, subs, v)
    decreases subs, 0
  {
    if subs != [] {
      var first := path + [subs[0].name];
      WalkMeaning(first, subs[0].dir, v);
      WalkAllMeaning(path, subs[1..], v);
      if path < v.path {
        assert first <= v.path <==> v.path[|path|] == subs[0].name;
        if v.path[|path|] == subs[0].name {
          NotInRest(subs);
        }
      }
    }
  }

  lemma NotInRest(subs: seq<Sub>)
    requires subs != [] && DistinctNames(subs)
    ensures FindSub(subs[1..], subs[0].name).None?
  {
    assert forall i :: 0 <= i < |subs[1..]| ==> subs[1..][i] == subs[i + 1];
  }

  lemma {:induction false} WalkDistinct(path: Path, d: Dir, i: nat, j: nat)
    requires WellFormed(d) && i < j < |Walk(path, d)|
    ensures Walk(path, d)[i].path != Walk(path, d)[j].path
    decreases d, 1
  {
    var below := WalkAll(path, d.subs);
    if i == 0 {
      assert below[j - 1] in below;
      WalkAllMeaning(path, d.subs, below[j - 1]);
    } else {
      WalkAllDistinct(path, d.subs, i - 1, j - 1);
    }
  }

  lemma {:induction false} WalkAllDistinct(path: Path, subs: seq<Sub>, i: nat, j: nat)
    requires DistinctNames(subs) && forall k :: 0 <= k < |subs| ==> WellFormed(subs[k].dir)
    requires i < j < |WalkAll(path, subs)|
    ensures WalkAll(path, subs)[i].path != WalkAll(path, subs)[j].path
    decreases subs, 0
  {
    var here, rest := Walk(path + [subs[0].name], subs[0].dir), WalkAll(path, subs[1..]);
    if j < |here| {
      WalkDistinct(path + [subs[0].name], subs[0].dir, i, j);
    } else if i >= |here| {
      WalkAllDistinct(path, subs[1..], i - |here|, j - |here|);
    } else {
      assert here[i] in here && rest[j - |here|] in rest;
      ApartFromRest(path, subs, here[i], rest[j - |here|]);
    }
  }

  lemma ApartFromRest(path: Path, subs: seq<Sub>, a: Visit, b: Visit)
    requires subs != [] && DistinctNames(subs) && forall k :: 0 <= k < |subs| ==> WellFormed(subs[k].dir)
    requires a in Walk(path + [subs[0].name], subs[0].dir) && b in WalkAll(path, subs[1..])
    ensures a.path != b.path
  {
    hide Walk, WalkAll, At, IsExcluded;
    WalkMeaning(path + [subs[0].name], subs[0].dir, a);
    WalkAllMeaning(path, subs[1..], b);
    NotInRest(subs);
  }

  // ---------- source files ----------

  function FilesIn(path: Path, files: seq<string>): (fs: seq<Path>)
  {
    if files == [] then [] else
      var front, f := FilesIn(path, files[..|files| - 1]), files[|files| - 1];
      if IsSource(f) then front + [path + [f]] else front
  }

  function FilesOf(visits: seq<Visit>): (fs: seq<Path>)
  {
    if visits == [] then [] else
      var v := visits[|visits| - 1];
      FilesOf(visits[..|visits| - 1]) + FilesIn(v.path, v.dir.files)
  }

  function PartKey(part: string): (k: seq<int>) {
    seq(|part|, i requires 0 <= i < |part| => part[i] as int + 1) + [0]
  }

  /** Paths compare part by part; no character code reaches zero after the shift. */
  function PathKey(p: Path): (k: seq<int>)
  {
    if p == [] then [] else PartKey(p[0]) + PathKey(p[1..])
  }

  function SourceFiles(path: Path, d: Dir): (fs: seq<Path>)
  {
    Sorting.SortBy(FilesOf(Walk(path, d)), PathKey)
  }

  /** One path before another: by the first part in which they differ. */
  ghost predicate PathBefore(p: Path, q: Path) {
    exists k :: 0 <= k <= |p| && k < |q| && p[..k] == q[..k] && (k == |p| || Lex.StrLess(p[k], q[k]))
  }

  lemma {:induction false} PartOrder(s: string, t: string)
    ensures Lex.Less(PartKey(s), PartKey(t)) <==> Lex.StrLess(s, t)
    ensures PartKey(s) <= PartKey(t) ==> s == t
  {
    if s != [] && t != [] {
      assert PartKey(s)[1..] == PartKey(s[1..]) && PartKey(t)[1..] == PartKey(t[1..]);
      assert Lex.Codes(s)[1..] == Lex.Codes(s[1..]) && Lex.Codes(t)[1..] == Lex.Codes(t[1..]);
      PartOrder(s[1..], t[1..]);
      if PartKey(s) <= PartKey(t) {
        assert PartKey(s)[0] == PartKey(t)[0];
        assert s == [s[0]] + s[1..] && t == [t[0]] + t[1..];
      }
    }
  }

  lemma {:induction false} PathKeyOrder(p: Path, q: Path)
    ensures Lex.Less(PathKey(p), PathKey(q)) <==> PathBefore(p, q)
    ensures PathKey(p) == PathKey(q) ==> p == q
  {
    hide PathBefore, Lex.StrLess, Lex.Less, PathKey, PartKey;
    if p == [] || q == [] {
      NothingBefore(p, q);
    } else if p[0] == q[0] {
      SameFirst(p, q);
      PathKeyOrder(p[1..], q[1..]);
      assert p == [p[0]] + p[1..] && q == [q[0]] + q[1..];
    } else {
      DifferentFirst(p, q);
    }
  }

  lemma NothingBefore(p: Path, q: Path)
    requires p == [] || q == []
    ensures PathBefore(p, q) <==> q != [] && p == []
    ensures Lex.Less(PathKey(p), PathKey(q)) <==> PathBefore(p, q)
    ensures PathKey(p) == PathKey(q) ==> p == q
  {
    if q != [] { assert p[..0] == q[..0]; }
  }

  lemma SameFirst(p: Path, q: Path)
    requires p != [] && q != [] && p[0] == q[0]
    ensures Lex.Less(PathKey(p), PathKey(q)) <==> Lex.Less(PathKey(p[1..]), PathKey(q[1..]))
    ensures PathKey(p) == PathKey(q) ==> PathKey(p[1..]) == PathKey(q[1..])
    ensures PathBefore(p, q) <==> PathBefore(p[1..], q[1..])
  {
    hide PathBefore, PartKey;
    var a := PartKey(p[0]);
    Lex.CommonPrefix(a, PathKey(p[1..]), PathKey(q[1..]));
    assert PathKey(p[1..]) == PathKey(p)[|a|..] && PathKey(q[1..]) == PathKey(q)[|a|..];
    if PathBefore(p, q) { BeforeBehind(p, q); }
    if PathBefore(p[1..], q[1..]) { BeforeFromBehind(p, q); }
  }

  lemma BeforeBehind(p: Path, q: Path)
    requires p != [] && q != [] && p[0] == q[0] && PathBefore(p, q)
    ensures PathBefore(p[1..], q[1..])
  {
    hide Lex.StrLess;
    Lex.Irreflexive(Lex.Codes(p[0]));
    var k :| 0 <= k <= |p| && k < |q| && p[..k] == q[..k] && (k == |p| || Lex.StrLess(p[k], q[k]));
    StrIrreflexive(p[0]);
    assert k > 0;
    assert p[1..][..k - 1] == p[..k][1..] && q[1..][..k - 1] == q[..k][1..];
  }

  lemma StrIrreflexive(s: string)
    ensures !Lex.StrLess(s, s)
  {
    Lex.Irreflexive(Lex.Codes(s));
  }

  lemma BeforeFromBehind(p: Path, q: Path)
    requires p != [] && q != [] && p[0] == q[0] && PathBefore(p[1..], q[1..])
    ensures PathBefore(p, q)
  {
    hide Lex.StrLess;
    var p', q' := p[1..], q[1..];
    var k :| 0 <= k <= |p'| && k < |q'| && p'[..k] == q'[..k] && (k == |p'| || Lex.StrLess(p'[k], q'[k]));
    assert p[..k + 1] == [p[0]] + p'[..k];
    assert q[..k + 1] == [q[0]] + q'[..k];
    assert p[..k + 1] == q[..k + 1];
  }

  lemma DifferentFirst(p: Path, q: Path)
    requires p != [] && q != [] && p[0] != q[0]
    ensures Lex.Less(PathKey(p), PathKey(q)) <==> PathBefore(p, q)
    ensures PathKey(p) != PathKey(q)
  {
    hide PartKey, Lex.StrLess;
    var a, b := PartKey(p[0]), PartKey(q[0]);
    PartOrder(p[0], q[0]);
    PartOrder(q[0], p[0]);
    Lex.Decided(a, b, PathKey(p[1..]), PathKey(q[1..]));
    Lex.Decided(b, a, PathKey(q[1..]), PathKey(p[1..]));
    Lex.Irreflexive(PathKey(p));
    Lex.Total(a, b);
    assert forall k :: 0 < k <= |p| && k < |q| ==> p[..k][0] == p[0] && q[..k][0] == q[0];
    if Lex.StrLess(p[0], q[0]) { assert p[..0] == q[..0]; }
  }

  /** The source files come sorted, part by part. */
  lemma SourceFilesSorted(path: Path, d: Dir, i: nat, j: nat)
    requires i < j < |SourceFiles(path, d)|
    ensures var fs := SourceFiles(path, d); fs[i] == fs[j] || PathBefore(fs[i], fs[j])
  {
    hide PathKey, PathBefore, FilesOf, Walk;
    var fs := SourceFiles(path, d);
    Sorting.SortByMeaning(FilesOf(Walk(path, d)), PathKey);
    assert Lex.Leq(PathKey(fs[i]), PathKey(fs[j]));
    PathKeyOrder(fs[i], fs[j]);
  }

  lemma NextFile(path: Path, files: seq<string>, j: nat)
    requires j < |files|
    ensures FilesIn(path, files[..j + 1])
         == if IsSource(files[j]) then FilesIn(path, files[..j]) + [path + [files[j]]] else FilesIn(path, files[..j])
  {
    assert files[..j + 1][..j] == files[..j];
  }

  lemma NextVisit(visits: seq<Visit>, i: nat)
    requires i < |visits|
    ensures FilesOf(visits[..i + 1]) == FilesOf(visits[..i]) + FilesIn(visits[i].path, visits[i].dir.files)
  {
    assert visits[..i + 1][..i] == visits[..i];
  }

  method SourcesIn(v: Visit) returns (found: seq<Path>)
    ensures found == FilesIn(v.path, v.dir.files)
  {
    hide FilesIn, IsSource;
    found := [];
    NoFiles(v.path);
    for j := 0 to |v.dir.files|
      invariant found == FilesIn(v.path, v.dir.files[..j])
    {
      NextFile(v.path, v.dir.files, j);
      if IsSource(v.dir.files[j]) {
        found := found + [v.path + [v.dir.files[j]]];
      }
    }
    assert v.dir.files[..|v.dir.files|] == v.dir.files;
  }

  lemma NoFiles(path: Path)
    ensures FilesIn(path, []) == [] && FilesOf([]) == []
  {
  }

  method CollectSourceFiles(path: Path, d: Dir) returns (files: seq<Path>)
    ensures files == SourceFiles(path, d)
  {
    hide FilesOf, FilesIn, Walk, Sorting.SortBy;
    var found: seq<Path> := [];
    var visits := Walk(path, d);
    NoFiles(path);
    for i := 0 to |visits|
      invariant found == FilesOf(visits[..i])
    {
      NextVisit(visits, i);
      var here := SourcesIn(visits[i]);
      found := found + here;
    }
    assert visits[..|visits|] == visits;
    return Sorting.SortBy(found, PathKey);
  }

  /** f is a source file in some directory of d, which stands at path, and no directory on
      the way to it is excluded. */
  predicate SourceBelow(path: Path, d: Dir, f: Path) {
    && path < f
    && IsSource(f[|f| - 1])
    && !IsExcluded(f[..|f| - 1])
    && At(d, f[|path|..|f| - 1]).Some?
    && f[|f| - 1] in At(d, f[|path|..|f| - 1]).value.files
  }

  lemma OneFile(path: Path, name: string, f: Path)
    ensures f == path + [name] <==> |f| == |path| + 1 && path < f && f[|path|] == name
  {
    if |f| == |path| + 1 && path < f { assert f == f[..|path|] + [f[|path|]]; }
  }

  lemma {:induction false} FilesInMeaning(path: Path, files: seq<string>, f: Path)
    ensures f in FilesIn(path, files)
       <==> |f| == |path| + 1 && path < f && IsSource(f[|path|]) && f[|path|] in files
  {
    hide IsSource;
    if files != [] {
      var front, last := files[..|files| - 1], files[|files| - 1];
      FilesInMeaning(path, front, f);
      OneFile(path, last, f);
      assert files == front + [last];
      assert f in FilesIn(path, files) <==> f in FilesIn(path, front) || (IsSource(last) && f == path + [last]);
    }
  }

  predicate Yields(v: Visit, f: Path) {
    f in FilesIn(v.path, v.dir.files)
  }

  lemma {:induction false} FilesOfMeaning(visits: seq<Visit>, f: Path)
    ensures f in FilesOf(visits) <==> exists v :: v in visits && Yields(v, f)
  {
    if visits != [] {
      var front, last := visits[..|visits| - 1], visits[|visits| - 1];
      FilesOfMeaning(front, f);
      assert visits == front + [last];
      assert f in FilesOf(visits) <==> f in FilesOf(front) || Yields(last, f);
      if Yields(last, f) { assert last in visits; }
    }
  }

  lemma YieldsMeaning(v: Visit, f: Path)
    ensures Yields(v, f) <==> |f| == |v.path| + 1 && v.path < f && IsSource(f[|v.path|]) && f[|v.path|] in v.dir.files
  {
    FilesInMeaning(v.path, v.dir.files, f);
  }

  lemma YieldedIsBelow(path: Path, d: Dir, v: Visit, f: Path)
    requires Reaches(path, d, v) && Yields(v, f)
    ensures SourceBelow(path, d, f)
  {
    hide Yields, IsSource, IsExcluded, At;
    YieldsMeaning(v, f);
    assert f[..|f| - 1] == v.path;
    assert f[|path|..|f| - 1] == v.path[|path|..];
  }

  lemma BelowIsYielded(path: Path, d: Dir, f: Path)
    requires SourceBelow(path, d, f)
    ensures var v := Visit(f[..|f| - 1], At(d, f[|path|..|f| - 1]).value);
      Reaches(path, d, v) && Yields(v, f)
  {
    hide Yields, IsSource, IsExcluded, At;
    var v := Visit(f[..|f| - 1], At(d, f[|path|..|f| - 1]).value);
    assert v.path[|path|..] == f[|path|..|f| - 1];
    YieldsMeaning(v, f);
  }

  /** collect_source_files finds exactly those files. */
  lemma SourceFilesMeaning(path: Path, d: Dir, f: Path)
    requires WellFormed(d)
    ensures f in SourceFiles(path, d) <==> SourceBelow(path, d, f)
  {
    hide Walk, FilesOf, Yields, SourceBelow, Reaches, Sorting.SortBy;
    var visits := Walk(path, d);
    Sorting.SortByMeaning(FilesOf(visits), PathKey);
    FilesOfMeaning(visits, f);
    if f in FilesOf(visits) {
      var v :| v in visits && Yields(v, f);
      WalkMeaning(path, d, v);
      YieldedIsBelow(path, d, v, f);
    }
    if SourceBelow(path, d, f) {
      FileNotEmpty(path, d, f);
      BelowIsYielded(path, d, f);
      WalkMeaning(path, d, Visit(f[..|f| - 1], At(d, f[|path|..|f| - 1]).value));
    }
  }

  lemma FileNotEmpty(path: Path, d: Dir, f: Path)
    requires SourceBelow(path, d, f)
    ensures |path| < |f| && At(d, f[|path|..|f| - 1]).Some?
  {
  }

  /** The files of a directory are files of every directory above it. */
  lemma FilesMoveUp(path: Path, d: Dir, rel: Path, e: Dir, f: Path)
    requires At(d, rel) == Some(e) && SourceBelow(path + rel, e, f)
    ensures SourceBelow(path, d, f)
  {
    hide At, IsSource, IsExcluded;
    var tail := f[|path + rel|..|f| - 1];
    AtCompose(d, rel, tail);
    assert f[|path|..|f| - 1] == rel + tail by {
      assert f[..|path + rel|] == path + rel;
    }
    assert path < f by { assert f[..|path|] == (path + rel)[..|path|]; }
  }
}
