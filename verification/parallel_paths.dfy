/** The implementation-boundary detector: which directories implement a domain, which of
    them it reports, and how it judges them. */
module ParallelPaths {
  import opened Wrappers
  import opened DirectoryTree
  import Lex
  import Sorting

  datatype Implementation = Implementation(path: Path, languages: set<string>, files: seq<Path>)

  // ---------- candidates ----------

  function LanguagesOf(files: seq<Path>): (ls: set<string>)
    requires forall i :: 0 <= i < |files| ==> files[i] != []
  {
    set i | 0 <= i < |files| && Language(Suffix(files[i][|files[i]| - 1])).Some?
          :: Language(Suffix(files[i][|files[i]| - 1])).value
  }

  lemma FilesNonempty(path: Path, d: Dir)
    requires WellFormed(d)
    ensures forall i :: 0 <= i < |SourceFiles(path, d)| ==> SourceFiles(path, d)[i] != []
  {
    forall i | 0 <= i < |SourceFiles(path, d)|
      ensures SourceFiles(path, d)[i] != []
    {
      assert SourceFiles(path, d)[i] in SourceFiles(path, d);
      SourceFilesMeaning(path, d, SourceFiles(path, d)[i]);
    }
  }

  /** The entry for the subdirectory of the given name, if it is a candidate. */
  predicate Qualifies(path: Path, sub: Sub, domain: string) {
    sub.name !in EXCLUDED_PARTS && DomainMatches(sub.name, domain) && SourceFiles(path + [sub.name], sub.dir) != []
  }

  function Entry(path: Path, d: Dir): (impl: Implementation)
    requires WellFormed(d)
  {
    FilesNonempty(path, d);
    Implementation(path, LanguagesOf(SourceFiles(path, d)), SourceFiles(path, d))
  }

  function CandidatesIn(path: Path, subs: seq<Sub>, domain: string): (cs: seq<Implementation>)
    requires forall i :: 0 <= i < |subs| ==> WellFormed(subs[i].dir)
  {
    if subs == [] then [] else
      var front, sub := CandidatesIn(path, subs[..|subs| - 1], domain), subs[|subs| - 1];
      if Qualifies(path, sub, domain) then front + [Entry(path + [sub.name], sub.dir)] else front
  }

  predicate AllWellFormed(visits: seq<Visit>) {
    forall i :: 0 <= i < |visits| ==> WellFormed(visits[i].dir)
  }

  function CandidatesOf(visits: seq<Visit>, domain: string): (cs: seq<Implementation>)
    requires AllWellFormed(visits)
  {
    if visits == [] then [] else
      var v := visits[|visits| - 1];
      CandidatesOf(visits[..|visits| - 1], domain) + CandidatesIn(v.path, v.dir.subs, domain)
  }

  /** The directory at p matches the domain, lies below the root on a path without excluded
      parts, and has a source file below it. */
  ghost predicate IsCandidate(root: Path, tree: Dir, domain: string, p: Path) {
    && root < p
    && !IsExcluded(p)
    && DomainMatches(p[|p| - 1], domain)
    && At(tree, p[|root|..]).Some?
    && exists f :: SourceBelow(p, At(tree, p[|root|..]).value, f)
  }

  lemma {:induction false} AtWellFormed(d: Dir, rel: Path)
    requires WellFormed(d) && At(d, rel).Some?
    ensures WellFormed(At(d, rel).value)
  {
    if rel != [] {
      var sub := FindSub(d.subs, rel[0]).value;
      var i :| 0 <= i < |d.subs| && d.subs[i] == Sub(rel[0], sub);
      assert WellFormed(d.subs[i].dir);
      AtWellFormed(sub, rel[1..]);
    }
  }

  lemma WalkWellFormed(path: Path, d: Dir)
    requires WellFormed(d)
    ensures AllWellFormed(Walk(path, d))
  {
    forall i | 0 <= i < |Walk(path, d)|
      ensures WellFormed(Walk(path, d)[i].dir)
    {
      var v := Walk(path, d)[i];
      assert v in Walk(path, d);
      WalkMeaning(path, d, v);
      AtWellFormed(d, v.path[|path|..]);
    }
  }

  predicate HasEntryFor(path: Path, subs: seq<Sub>, domain: string, c: Implementation)
    requires forall i :: 0 <= i < |subs| ==> WellFormed(subs[i].dir)
  {
    exists i :: 0 <= i < |subs| && Qualifies(path, subs[i], domain) && c == Entry(path + [subs[i].name], subs[i].dir)
  }

  lemma {:induction false} CandidatesInMeaning(path: Path, subs: seq<Sub>, domain: string, c: Implementation)
    requires forall i :: 0 <= i < |subs| ==> WellFormed(subs[i].dir)
    ensures c in CandidatesIn(path, subs, domain) <==> HasEntryFor(path, subs, domain, c)
  {
    hide Qualifies, Entry;
    if subs != [] {
      var front, last := subs[..|subs| - 1], subs[|subs| - 1];
      CandidatesInMeaning(path, front, domain, c);
      if HasEntryFor(path, front, domain, c) {
        var i :| 0 <= i < |front| && Qualifies(path, front[i], domain) && c == Entry(path + [front[i].name], front[i].dir);
        assert subs[i] == front[i];
      }
      if HasEntryFor(path, subs, domain, c) {
        var i :| 0 <= i < |subs| && Qualifies(path, subs[i], domain) && c == Entry(path + [subs[i].name], subs[i].dir);
        assert i < |front| ==> front[i] == subs[i];
      }
    }
  }

  ghost predicate VisitHas(v: Visit, domain: string, c: Implementation) {
    WellFormed(v.dir) && HasEntryFor(v.path, v.dir.subs, domain, c)
  }

  lemma {:induction false} CandidatesOfMeaning(visits: seq<Visit>, domain: string, c: Implementation)
    requires AllWellFormed(visits)
    ensures c in CandidatesOf(visits, domain) <==> exists v :: v in visits && VisitHas(v, domain, c)
  {
    hide HasEntryFor;
    if visits != [] {
      var front, last := visits[..|visits| - 1], visits[|visits| - 1];
      CandidatesOfMeaning(front, domain, c);
      CandidatesInMeaning(last.path, last.dir.subs, domain, c);
      assert visits == front + [last];
      assert c in CandidatesOf(visits, domain) <==> c in CandidatesOf(front, domain) || VisitHas(last, domain, c);
      if VisitHas(last, domain, c) { assert last in visits; }
    }
  }

  lemma FindsByName(subs: seq<Sub>, i: nat)
    requires DistinctNames(subs) && i < |subs|
    ensures FindSub(subs, subs[i].name) == Some(subs[i].dir)
  {
    var d := FindSub(subs, subs[i].name);
    if d.Some? {
      var j :| 0 <= j < |subs| && subs[j] == Sub(subs[i].name, d.value);
      assert j == i;
    }
  }

  lemma ChildPath(root: Path, tree: Dir, q: Path, name: string)
    requires root <= q
    ensures var p := q + [name];
      && root < p && p[|p| - 1] == name && p[..|p| - 1] == q
      && (IsExcluded(p) <==> IsExcluded(q) || name in EXCLUDED_PARTS)
      && At(tree, p[|root|..]) == match At(tree, q[|root|..]) case None => None case Some(e) => FindSub(e.subs, name)
  {
    var p := q + [name];
    assert p[|root|..] == q[|root|..] + [name];
    AtCompose(tree, q[|root|..], [name]);
    assert [name][1..] == [];
    if IsExcluded(q) { ExcludedPrefix(q, p); }
    if IsExcluded(p) {
      var i :| 0 <= i < |p| && p[i] in EXCLUDED_PARTS;
      assert i < |q| ==> q[i] == p[i];
    }
    if name in EXCLUDED_PARTS { assert p[|q|] in EXCLUDED_PARTS; }
  }

  lemma NonemptyMeansSource(p: Path, d: Dir)
    requires WellFormed(d)
    ensures SourceFiles(p, d) != [] <==> exists f :: SourceBelow(p, d, f)
  {
    hide SourceFiles, SourceBelow;
    var fs := SourceFiles(p, d);
    if fs != [] {
      assert fs[0] in fs;
      SourceFilesMeaning(p, d, fs[0]);
    }
    if f :| SourceBelow(p, d, f) {
      SourceFilesMeaning(p, d, f);
    }
  }

  lemma VisitedChildIsCandidate(root: Path, tree: Dir, domain: string, v: Visit, i: nat)
    requires WellFormed(tree) && Reaches(root, tree, v) && WellFormed(v.dir)
    requires i < |v.dir.subs| && Qualifies(v.path, v.dir.subs[i], domain)
    ensures var p := v.path + [v.dir.subs[i].name];
      && IsCandidate(root, tree, domain, p)
      && At(tree, p[|root|..]) == Some(v.dir.subs[i].dir)
  {
    hide SourceFiles, SourceBelow, DomainMatches, IsExcluded;
    var sub := v.dir.subs[i];
    FindsByName(v.dir.subs, i);
    ChildPath(root, tree, v.path, sub.name);
    NonemptyMeansSource(v.path + [sub.name], sub.dir);
  }

  lemma CandidateIsVisited(root: Path, tree: Dir, domain: string, p: Path)
    returns (v: Visit, i: nat)
    requires WellFormed(tree) && IsCandidate(root, tree, domain, p)
    ensures Reaches(root, tree, v) && i < |v.dir.subs| && Qualifies(v.path, v.dir.subs[i], domain)
    ensures p == v.path + [v.dir.subs[i].name] && At(tree, p[|root|..]) == Some(v.dir.subs[i].dir)
  {
    hide SourceFiles, SourceBelow, DomainMatches, IsExcluded;
    var q, name := p[..|p| - 1], p[|p| - 1];
    assert p == q + [name];
    ChildPath(root, tree, q, name);
    v := Visit(q, At(tree, q[|root|..]).value);
    var d := At(tree, p[|root|..]).value;
    i :| 0 <= i < |v.dir.subs| && v.dir.subs[i] == Sub(name, d);
    AtWellFormed(tree, p[|root|..]);
    NonemptyMeansSource(p, d);
  }

  /** c is the entry of a candidate directory. */
  ghost predicate IsEntry(root: Path, tree: Dir, domain: string, c: Implementation) {
    && IsCandidate(root, tree, domain, c.path)
    && WellFormed(At(tree, c.path[|root|..]).value)
    && c == Entry(c.path, At(tree, c.path[|root|..]).value)
  }

  lemma ListedIsEntry(root: Path, tree: Dir, domain: string, v: Visit, c: Implementation)
    requires WellFormed(tree) && Reaches(root, tree, v) && VisitHas(v, domain, c)
    ensures IsEntry(root, tree, domain, c)
  {
    hide At, IsCandidate, Qualifies, Reaches;
    var i :| 0 <= i < |v.dir.subs| && Qualifies(v.path, v.dir.subs[i], domain)
      && c == Entry(v.path + [v.dir.subs[i].name], v.dir.subs[i].dir);
    VisitedChildIsCandidate(root, tree, domain, v, i);
  }

  lemma EntryIsListed(root: Path, tree: Dir, domain: string, c: Implementation) returns (v: Visit)
    requires WellFormed(tree) && IsEntry(root, tree, domain, c)
    ensures Reaches(root, tree, v) && VisitHas(v, domain, c)
  {
    hide At, IsCandidate, Qualifies;
    var i;
    v, i := CandidateIsVisited(root, tree, domain, c.path);
    AtWellFormed(tree, v.path[|root|..]);
  }

  /** The candidate list holds exactly the candidates, each with its own files. */
  lemma CandidatesMeaning(root: Path, tree: Dir, domain: string, c: Implementation)
    requires WellFormed(tree) && AllWellFormed(Walk(root, tree))
    ensures c in CandidatesOf(Walk(root, tree), domain) <==> IsEntry(root, tree, domain, c)
  {
    hide Walk, CandidatesOf, Reaches, IsEntry, VisitHas;
    CandidatesOfMeaning(Walk(root, tree), domain, c);
    if c in CandidatesOf(Walk(root, tree), domain) {
      var v :| v in Walk(root, tree) && VisitHas(v, domain, c);
      WalkMeaning(root, tree, v);
      ListedIsEntry(root, tree, domain, v, c);
    }
    if IsEntry(root, tree, domain, c) {
      var v := EntryIsListed(root, tree, domain, c);
      WalkMeaning(root, tree, v);
    }
  }

  // ---------- distinct paths ----------

  predicate DistinctPaths(cs: seq<Implementation>) {
    forall i, j :: 0 <= i < j < |cs| ==> cs[i].path != cs[j].path
  }

  lemma {:induction false} ChildrenDistinct(path: Path, subs: seq<Sub>, domain: string)
    requires DistinctNames(subs) && forall i :: 0 <= i < |subs| ==> WellFormed(subs[i].dir)
    ensures DistinctPaths(CandidatesIn(path, subs, domain))
    ensures forall i :: 0 <= i < |CandidatesIn(path, subs, domain)| ==>
      exists k :: 0 <= k < |subs| && CandidatesIn(path, subs, domain)[i].path == path + [subs[k].name]
  {
    hide Qualifies, Entry;
    if subs != [] {
      var front, last := subs[..|subs| - 1], subs[|subs| - 1];
      var before := CandidatesIn(path, front, domain);
      ChildrenDistinct(path, front, domain);
      forall i | 0 <= i < |before|
        ensures before[i].path != path + [last.name]
        ensures exists k :: 0 <= k < |subs| && before[i].path == path + [subs[k].name]
      {
        var k :| 0 <= k < |front| && before[i].path == path + [front[k].name];
        assert subs[k] == front[k];
        assert (path + [front[k].name])[|path|] != (path + [last.name])[|path|];
      }
      EntryPath(path + [last.name], last.dir);
      assert last == subs[|subs| - 1];
    }
  }

  lemma EntryPath(p: Path, d: Dir)
    requires WellFormed(d)
    ensures Entry(p, d).path == p
  {
  }

  predicate DistinctVisits(visits: seq<Visit>) {
    forall i, j :: 0 <= i < j < |visits| ==> visits[i].path != visits[j].path
  }

  ghost predicate ChildOfSome(visits: seq<Visit>, p: Path) {
    p != [] && exists k :: 0 <= k < |visits| && visits[k].path == p[..|p| - 1]
  }

  lemma {:induction false} CandidatesDistinct(visits: seq<Visit>, domain: string)
    requires AllWellFormed(visits) && DistinctVisits(visits)
    ensures DistinctPaths(CandidatesOf(visits, domain))
    ensures forall i :: 0 <= i < |CandidatesOf(visits, domain)| ==> ChildOfSome(visits, CandidatesOf(visits, domain)[i].path)
  {
    hide CandidatesIn;
    if visits != [] {
      var front, last := visits[..|visits| - 1], visits[|visits| - 1];
      var before, here := CandidatesOf(front, domain), CandidatesIn(last.path, last.dir.subs, domain);
      CandidatesDistinct(front, domain);
      ChildrenDistinct(last.path, last.dir.subs, domain);
      forall i | 0 <= i < |here|
        ensures here[i].path != [] && here[i].path[..|here[i].path| - 1] == last.path
      {
        var k :| 0 <= k < |last.dir.subs| && here[i].path == last.path + [last.dir.subs[k].name];
      }
      forall i | 0 <= i < |before|
        ensures before[i].path != [] && before[i].path[..|before[i].path| - 1] != last.path
        ensures ChildOfSome(visits, before[i].path)
      {
        var k :| 0 <= k < |front| && front[k].path == before[i].path[..|before[i].path| - 1];
        assert visits[k] == front[k];
      }
      assert visits[|front|] == last;
    }
  }

  ghost predicate WrittenIn(name: string, l: string) {
    || (l == "rust" && Ends(name, ".rs"))
    || (l == "python" && Ends(name, ".py"))
    || (l == "go" && Ends(name, ".go"))
  }

  lemma WrittenInExactly(name: string, l: string)
    ensures Language(Suffix(name)) == Some(l) <==> WrittenIn(name, l)
  {
    hide Language, Suffix, Ends;
    LanguageExactly(name);
    ThreeLanguages(Suffix(name));
  }

  lemma LanguagesOfFiles(files: seq<Path>, l: string)
    requires forall i :: 0 <= i < |files| ==> files[i] != []
    ensures l in LanguagesOf(files) <==> exists f :: f in files && f != [] && WrittenIn(f[|f| - 1], l)
  {
    hide Language, Suffix, WrittenIn;
    if l in LanguagesOf(files) {
      var i :| 0 <= i < |files| && Language(Suffix(files[i][|files[i]| - 1])) == Some(l);
      WrittenInExactly(files[i][|files[i]| - 1], l);
      assert files[i] in files;
    }
    if f :| f in files && f != [] && WrittenIn(f[|f| - 1], l) {
      WrittenInExactly(f[|f| - 1], l);
      var i :| 0 <= i < |files| && files[i] == f;
    }
  }

  /** Which languages an entry has: those its files' extensions stand for. */
  lemma LanguagesExactly(root: Path, tree: Dir, domain: string, c: Implementation, l: string)
    requires WellFormed(tree) && IsEntry(root, tree, domain, c)
    ensures l in c.languages <==> exists f :: f in c.files && f != [] && WrittenIn(f[|f| - 1], l)
  {
    hide LanguagesOf, SourceFiles, WrittenIn;
    FilesNonempty(c.path, At(tree, c.path[|root|..]).value);
    LanguagesOfFiles(c.files, l);
  }

  lemma ThreeLanguages(suffix: string)
    ensures var l := Language(suffix); l.Some? ==> l.value == "rust" || l.value == "python" || l.value == "go"
  {
  }

  // ---------- selection ----------

  function Joined(p: Path): (s: string) {
    if p == [] then "" else "/" + p[0] + Joined(p[1..])
  }

  /** The text of a path: that of its parent, a slash and the last part. */
  lemma {:induction false} JoinedExactly(p: Path, part: string)
    ensures Joined([]) == ""
    ensures Joined(p + [part]) == Joined(p) + "/" + part
  {
    if p != [] {
      assert (p + [part])[1..] == p[1..] + [part];
      JoinedExactly(p[1..], part);
    } else {
      assert [part][1..] == [];
    }
  }

  function SelectionKey(c: Implementation): (k: seq<int>) {
    [|c.path|] + Lex.Codes(Joined(c.path))
  }

  predicate HasAncestorIn(cs: seq<Implementation>, p: Path) {
    exists i :: 0 <= i < |cs| && cs[i].path < p
  }

  function Select(cs: seq<Implementation>): (selected: seq<Implementation>)
  {
    if cs == [] then [] else
      var front, c := Select(cs[..|cs| - 1]), cs[|cs| - 1];
      if HasAncestorIn(front, c.path) then front else front + [c]
  }

  predicate ByDepth(cs: seq<Implementation>) {
    forall i, j :: 0 <= i < j < |cs| ==> |cs[i].path| <= |cs[j].path|
  }

  lemma {:induction false} SelectedAreListed(cs: seq<Implementation>)
    ensures forall i :: 0 <= i < |Select(cs)| ==> Select(cs)[i] in cs
    ensures DistinctPaths(cs) ==> DistinctPaths(Select(cs))
  {
    if cs != [] {
      var front := cs[..|cs| - 1];
      SelectedAreListed(front);
      forall i | 0 <= i < |Select(front)|
        ensures Select(front)[i] in cs
        ensures DistinctPaths(cs) ==> Select(front)[i].path != cs[|cs| - 1].path
      {
        var k :| 0 <= k < |front| && front[k] == Select(front)[i];
        assert cs[k] == front[k];
      }
    }
  }

  /** Every listed path lies at or below a selected one. */
  lemma {:induction false} Covered(cs: seq<Implementation>, i: nat)
    requires i < |cs|
    ensures exists k :: 0 <= k < |Select(cs)| && Select(cs)[k].path <= cs[i].path
  {
    var front, last := cs[..|cs| - 1], cs[|cs| - 1];
    if i < |front| {
      Covered(front, i);
      var k :| 0 <= k < |Select(front)| && Select(front)[k].path <= front[i].path;
      assert Select(cs)[k] == Select(front)[k];
    } else if HasAncestorIn(Select(front), last.path) {
      var k :| 0 <= k < |Select(front)| && Select(front)[k].path < last.path;
      assert cs[i] == last && Select(cs)[k].path <= last.path;
    } else {
      assert Select(cs)[|Select(front)|] == last;
    }
  }

  /** A selected entry is a listed one that has no listed proper ancestor. */
  lemma {:induction false} SelectMeaning(cs: seq<Implementation>, c: Implementation)
    requires ByDepth(cs)
    ensures c in Select(cs) <==> c in cs && !HasAncestorIn(cs, c.path)
  {
    if cs != [] {
      var front, last := cs[..|cs| - 1], cs[|cs| - 1];
      assert cs == front + [last];
      SelectMeaning(front, c);
      SameAncestors(front, last.path);
      if c in front {
        var i :| 0 <= i < |front| && front[i] == c;
        assert cs[i] == c && |c.path| <= |last.path|;
        assert HasAncestorIn(cs, c.path) <==> HasAncestorIn(front, c.path) by { LastIsNoAncestor(front, last, c.path); }
      }
      assert HasAncestorIn(cs, last.path) <==> HasAncestorIn(front, last.path) by { LastIsNoAncestor(front, last, last.path); }
    }
  }

  lemma LastIsNoAncestor(front: seq<Implementation>, last: Implementation, p: Path)
    requires |p| <= |last.path|
    ensures HasAncestorIn(front + [last], p) <==> HasAncestorIn(front, p)
  {
    var cs := front + [last];
    if HasAncestorIn(cs, p) {
      var i :| 0 <= i < |cs| && cs[i].path < p;
      assert i < |front| && front[i] == cs[i];
    }
    if HasAncestorIn(front, p) {
      var i :| 0 <= i < |front| && front[i].path < p;
      assert cs[i] == front[i];
    }
  }

  /** Looking for ancestors among the selected is looking among all. */
  lemma SameAncestors(cs: seq<Implementation>, p: Path)
    ensures HasAncestorIn(Select(cs), p) <==> HasAncestorIn(cs, p)
  {
    SelectedAreListed(cs);
    if HasAncestorIn(Select(cs), p) {
      var i :| 0 <= i < |Select(cs)| && Select(cs)[i].path < p;
      var k :| 0 <= k < |cs| && cs[k] == Select(cs)[i];
    }
    if HasAncestorIn(cs, p) {
      var i :| 0 <= i < |cs| && cs[i].path < p;
      Covered(cs, i);
      var k :| 0 <= k < |Select(cs)| && Select(cs)[k].path <= cs[i].path;
      assert Select(cs)[k].path < p;
    }
  }

  // ---------- sorting keeps the list ----------

  lemma {:induction false} DistinctIsSet(cs: seq<Implementation>, c: Implementation)
    requires forall i, j :: 0 <= i < j < |cs| ==> cs[i] != cs[j]
    ensures multiset(cs)[c] <= 1
  {
    if cs != [] {
      var front, last := cs[..|cs| - 1], cs[|cs| - 1];
      DistinctIsSet(front, c);
      assert cs == front + [last];
      assert last !in front;
    }
  }

  lemma TwiceCounted(cs: seq<Implementation>, i: nat, j: nat)
    requires i < j < |cs| && cs[i] == cs[j]
    ensures multiset(cs)[cs[i]] >= 2
  {
    assert cs == cs[..j] + [cs[j]] + cs[j + 1..];
    assert cs[..j][i] == cs[i];
    assert cs[i] in multiset(cs[..j]);
  }

  lemma SortedKeepsDistinct(cs: seq<Implementation>, sorted: seq<Implementation>)
    requires DistinctPaths(cs) && multiset(sorted) == multiset(cs)
    requires forall c :: c in sorted <==> c in cs
    ensures DistinctPaths(sorted)
  {
    forall i, j | 0 <= i < j < |sorted|
      ensures sorted[i].path != sorted[j].path
    {
      assert sorted[i] in cs && sorted[j] in cs;
      var a :| 0 <= a < |cs| && cs[a] == sorted[i];
      var b :| 0 <= b < |cs| && cs[b] == sorted[j];
      DistinctIsSet(cs, sorted[i]);
      if sorted[i] == sorted[j] { TwiceCounted(sorted, i, j); }
    }
  }

  lemma SortedByDepth(cs: seq<Implementation>)
    requires Sorting.Sorted(cs, SelectionKey)
    ensures ByDepth(cs)
  {
    forall i, j | 0 <= i < j < |cs|
      ensures |cs[i].path| <= |cs[j].path|
    {
      assert Lex.Leq(SelectionKey(cs[i]), SelectionKey(cs[j]));
      assert SelectionKey(cs[i])[0] == |cs[i].path| && SelectionKey(cs[j])[0] == |cs[j].path|;
    }
  }

  // ---------- find_implementations ----------

  function Candidates(domain: string, root: Path, tree: Dir): (cs: seq<Implementation>)
    requires WellFormed(tree)
  {
    WalkWellFormed(root, tree);
    Sorting.SortBy(CandidatesOf(Walk(root, tree), domain), SelectionKey)
  }

  function Implementations(domain: string, root: Path, tree: Dir): (selected: seq<Implementation>)
    requires WellFormed(tree)
  {
    Select(Candidates(domain, root, tree))
  }

  lemma CandidatesAreGood(domain: string, root: Path, tree: Dir)
    requires WellFormed(tree)
    ensures var cs := Candidates(domain, root, tree);
      && DistinctPaths(cs) && ByDepth(cs)
      && forall c :: c in cs <==> IsEntry(root, tree, domain, c)
  {
    hide Walk, CandidatesOf, Sorting.SortBy, IsEntry;
    WalkWellFormed(root, tree);
    var visits := Walk(root, tree);
    forall i, j | 0 <= i < j < |visits|
      ensures visits[i].path != visits[j].path
    {
      WalkDistinct(root, tree, i, j);
    }
    var list := CandidatesOf(visits, domain);
    CandidatesDistinct(visits, domain);
    Sorting.SortByMeaning(list, SelectionKey);
    SortedKeepsDistinct(list, Sorting.SortBy(list, SelectionKey));
    SortedByDepth(Sorting.SortBy(list, SelectionKey));
    forall c
      ensures c in list <==> IsEntry(root, tree, domain, c)
    {
      CandidatesMeaning(root, tree, domain, c);
    }
  }

  method FindImplementations(domain: string, root: Path, tree: Dir) returns (selected: seq<Implementation>)
    requires WellFormed(tree)
    ensures selected == Implementations(domain, root, tree)
  {
    hide Walk, CandidatesOf, CandidatesIn, Sorting.SortBy, Select, HasAncestorIn;
    WalkWellFormed(root, tree);
    var candidates: seq<Implementation> := [];
    var visits := Walk(root, tree);
    NoCandidates(domain);
    for i := 0 to |visits|
      invariant candidates == CandidatesOf(visits[..i], domain)
    {
      NextCandidates(visits, i, domain);
      var here := CandidatesAt(visits[i], domain);
      candidates := candidates + here;
    }
    assert visits[..|visits|] == visits;
    candidates := Sorting.SortBy(candidates, SelectionKey);
    selected := [];
    for i := 0 to |candidates|
      invariant selected == Select(candidates[..i])
    {
      NextSelected(candidates, i);
      if !HasAncestorIn(selected, candidates[i].path) {
        selected := selected + [candidates[i]];
      }
    }
    assert candidates[..|candidates|] == candidates;
  }

  /** The loop over the directories of one visit. */
  method CandidatesAt(v: Visit, domain: string) returns (found: seq<Implementation>)
    requires WellFormed(v.dir)
    ensures found == CandidatesIn(v.path, v.dir.subs, domain)
  {
    hide CandidatesIn, SourceFiles, DomainMatches;
    found := [];
    var subs := v.dir.subs;
    NoChildren(v.path, domain);
    for i := 0 to |subs|
      invariant found == CandidatesIn(v.path, subs[..i], domain)
    {
      var sub := subs[i];
      NextChild(v.path, subs, i, domain);
      if sub.name in EXCLUDED_PARTS || !DomainMatches(sub.name, domain) {
        continue;
      }
      var files := CollectSourceFiles(v.path + [sub.name], sub.dir);
      if files == [] {
        continue;
      }
      FilesNonempty(v.path + [sub.name], sub.dir);
      found := found + [Implementation(v.path + [sub.name], LanguagesOf(files), files)];
    }
    assert subs[..|subs|] == subs;
  }

  lemma NoCandidates(domain: string)
    ensures CandidatesOf([], domain) == [] && Select([]) == []
  {
  }

  lemma NoChildren(path: Path, domain: string)
    ensures CandidatesIn(path, [], domain) == []
  {
  }

  lemma NextCandidates(visits: seq<Visit>, i: nat, domain: string)
    requires i < |visits| && AllWellFormed(visits)
    ensures CandidatesOf(visits[..i + 1], domain)
         == CandidatesOf(visits[..i], domain) + CandidatesIn(visits[i].path, visits[i].dir.subs, domain)
  {
    assert visits[..i + 1][..i] == visits[..i];
  }

  lemma NextChild(path: Path, subs: seq<Sub>, i: nat, domain: string)
    requires i < |subs| && forall k :: 0 <= k < |subs| ==> WellFormed(subs[k].dir)
    ensures CandidatesIn(path, subs[..i + 1], domain)
         == if Qualifies(path, subs[i], domain)
            then CandidatesIn(path, subs[..i], domain) + [Entry(path + [subs[i].name], subs[i].dir)]
            else CandidatesIn(path, subs[..i], domain)
  {
    assert subs[..i + 1][..i] == subs[..i];
  }

  lemma NextSelected(cs: seq<Implementation>, i: nat)
    requires i < |cs|
    ensures Select(cs[..i + 1])
         == if HasAncestorIn(Select(cs[..i]), cs[i].path) then Select(cs[..i]) else Select(cs[..i]) + [cs[i]]
  {
    assert cs[..i + 1][..i] == cs[..i];
  }

  /** The directories selected are exactly the candidates that have no candidate proper
      ancestor, each once; so none lies below another. */
  lemma SelectedAreMinimal(domain: string, root: Path, tree: Dir)
    requires WellFormed(tree)
    ensures var selected := Implementations(domain, root, tree);
      && (forall c :: c in selected <==>
            IsEntry(root, tree, domain, c) && forall p :: IsCandidate(root, tree, domain, p) ==> !(p < c.path))
      && DistinctPaths(selected)
      && forall i, j :: 0 <= i < |selected| && 0 <= j < |selected| ==> !(selected[i].path < selected[j].path)
  {
    hide Candidates, Select, IsEntry, IsCandidate;
    CandidatesAreGood(domain, root, tree);
    var cs := Candidates(domain, root, tree);
    var selected := Select(cs);
    SelectedAreListed(cs);
    forall c
      ensures c in selected <==>
        IsEntry(root, tree, domain, c) && forall p :: IsCandidate(root, tree, domain, p) ==> !(p < c.path)
    {
      SelectMeaning(cs, c);
      AncestorsAreCandidates(domain, root, tree, cs, c.path);
    }
    forall i, j | 0 <= i < |selected| && 0 <= j < |selected|
      ensures !(selected[i].path < selected[j].path)
    {
      assert selected[j] in selected && selected[i] in cs;
      SelectMeaning(cs, selected[j]);
      var k :| 0 <= k < |cs| && cs[k] == selected[i];
      assert !HasAncestorIn(cs, selected[j].path);
    }
  }

  lemma {:induction false} SelectKeepsOrder(cs: seq<Implementation>)
    requires Sorting.Sorted(cs, SelectionKey)
    ensures Sorting.Sorted(Select(cs), SelectionKey)
  {
    hide SelectionKey, HasAncestorIn;
    if cs != [] {
      var front, c := cs[..|cs| - 1], cs[|cs| - 1];
      SelectKeepsOrder(front);
      SelectedAreListed(front);
      forall i | 0 <= i < |Select(front)|
        ensures Lex.Leq(SelectionKey(Select(front)[i]), SelectionKey(c))
      {
        assert Select(front)[i] in front;
        var j :| 0 <= j < |front| && front[j] == Select(front)[i];
        assert cs[j] == front[j];
      }
    }
  }

  /** The selection comes in the order of the sort: by depth, then by the path's text. */
  lemma SelectedInOrder(domain: string, root: Path, tree: Dir, i: nat, j: nat)
    requires WellFormed(tree) && i < j < |Implementations(domain, root, tree)|
    ensures var selected := Implementations(domain, root, tree);
      var p, q := selected[i].path, selected[j].path;
      |p| < |q| || (|p| == |q| && (Joined(p) == Joined(q) || Lex.StrLess(Joined(p), Joined(q))))
  {
    hide Select, CandidatesOf, Walk, Joined;
    WalkWellFormed(root, tree);
    Sorting.SortByMeaning(CandidatesOf(Walk(root, tree), domain), SelectionKey);
    SelectKeepsOrder(Candidates(domain, root, tree));
    var selected := Implementations(domain, root, tree);
    KeyOrder(selected[i], selected[j]);
  }

  lemma KeyOrder(a: Implementation, b: Implementation)
    requires Lex.Leq(SelectionKey(a), SelectionKey(b))
    ensures |a.path| < |b.path|
      || (|a.path| == |b.path| && (Joined(a.path) == Joined(b.path) || Lex.StrLess(Joined(a.path), Joined(b.path))))
  {
    hide Joined;
    var x, y := Lex.Codes(Joined(a.path)), Lex.Codes(Joined(b.path));
    assert SelectionKey(a)[0] == |a.path| && SelectionKey(b)[0] == |b.path|;
    assert SelectionKey(a)[1..] == x && SelectionKey(b)[1..] == y;
    if x == y { Lex.CodesInjective(Joined(a.path), Joined(b.path)); }
  }

  lemma AncestorsAreCandidates(domain: string, root: Path, tree: Dir, cs: seq<Implementation>, q: Path)
    requires WellFormed(tree) && forall c :: c in cs <==> IsEntry(root, tree, domain, c)
    ensures HasAncestorIn(cs, q) <==> exists p :: IsCandidate(root, tree, domain, p) && p < q
  {
    hide IsCandidate, Entry;
    if HasAncestorIn(cs, q) {
      var i :| 0 <= i < |cs| && cs[i].path < q;
      assert cs[i] in cs;
      EntryIsCandidate(root, tree, domain, cs[i]);
    }
    if p :| IsCandidate(root, tree, domain, p) && p < q {
      var c := EntryFor(root, tree, domain, p);
      var i :| 0 <= i < |cs| && cs[i] == c;
      assert cs[i].path < q;
    }
  }

  lemma EntryIsCandidate(root: Path, tree: Dir, domain: string, c: Implementation)
    requires IsEntry(root, tree, domain, c)
    ensures IsCandidate(root, tree, domain, c.path)
  {
  }

  lemma EntryFor(root: Path, tree: Dir, domain: string, p: Path) returns (c: Implementation)
    requires WellFormed(tree) && IsCandidate(root, tree, domain, p)
    ensures IsEntry(root, tree, domain, c) && c.path == p
  {
    AtWellFormed(tree, p[|root|..]);
    c := Entry(p, At(tree, p[|root|..]).value);
  }

  lemma EntryFiles(root: Path, tree: Dir, domain: string, c: Implementation, f: Path)
    requires IsEntry(root, tree, domain, c)
    ensures root < c.path && At(tree, c.path[|root|..]).Some?
    ensures f in c.files <==> SourceBelow(c.path, At(tree, c.path[|root|..]).value, f)
    ensures f in c.files ==> c.path < f
  {
    hide SourceFiles, At;
    SourceFilesMeaning(c.path, At(tree, c.path[|root|..]).value, f);
  }

  /** Each source file of any candidate belongs to exactly one selected entry. */
  lemma EachFileInOneEntry(domain: string, root: Path, tree: Dir, c: Implementation, f: Path)
    requires WellFormed(tree) && IsEntry(root, tree, domain, c) && f in c.files
    ensures var selected := Implementations(domain, root, tree);
      exists i :: 0 <= i < |selected| && f in selected[i].files && selected[i].path <= c.path
        && forall j :: 0 <= j < |selected| && f in selected[j].files ==> j == i
  {
    hide Candidates, Select, IsEntry;
    CandidatesAreGood(domain, root, tree);
    SelectedAreMinimal(domain, root, tree);
    var cs := Candidates(domain, root, tree);
    var selected := Select(cs);
    var a :| 0 <= a < |cs| && cs[a] == c;
    Covered(cs, a);
    var i :| 0 <= i < |selected| && selected[i].path <= c.path;
    assert selected[i] in selected;
    FilesReachAncestors(root, tree, domain, selected[i], c, f);
    forall j | 0 <= j < |selected| && f in selected[j].files
      ensures j == i
    {
      assert selected[j] in selected;
      EntryFiles(root, tree, domain, selected[i], f);
      EntryFiles(root, tree, domain, selected[j], f);
      PrefixesCompare(selected[i].path, selected[j].path, f);
    }
  }

  lemma PrefixesCompare(p: Path, q: Path, f: Path)
    requires p < f && q < f
    ensures p == q || p < q || q < p
  {
  }

  lemma FilesReachAncestors(root: Path, tree: Dir, domain: string, s: Implementation, c: Implementation, f: Path)
    requires IsEntry(root, tree, domain, s) && IsEntry(root, tree, domain, c)
    requires s.path <= c.path && f in c.files
    ensures f in s.files
  {
    hide IsEntry, SourceBelow, At;
    EntryFiles(root, tree, domain, s, f);
    EntryFiles(root, tree, domain, c, f);
    var rel := c.path[|s.path|..];
    assert c.path == s.path + rel;
    assert c.path[|root|..] == s.path[|root|..] + rel;
    AtCompose(tree, s.path[|root|..], rel);
    FilesMoveUp(s.path, At(tree, s.path[|root|..]).value, rel, At(tree, c.path[|root|..]).value, f);
  }

  // ---------- classification ----------

  datatype Verdict = Fine | Polyglot | Violation

  predicate UsedByAll(impls: seq<Implementation>, l: string) {
    forall i :: 0 <= i < |impls| ==> l in impls[i].languages
  }

  ghost predicate ShareLanguage(impls: seq<Implementation>) {
    exists l :: UsedByAll(impls, l)
  }

  /** Two of the implementations share a language: parallel paths. */
  ghost predicate TwoShareLanguage(impls: seq<Implementation>) {
    exists i, j :: 0 <= i < j < |impls| && impls[i].languages * impls[j].languages != {}
  }

  /** What classify answers. */
  ghost function Judged(impls: seq<Implementation>): (verdict: Verdict)
    ensures verdict.Fine? <==> |impls| <= 1
    ensures verdict.Violation? <==> |impls| > 1 && ShareLanguage(impls)
  {
    if |impls| <= 1 then Fine else if ShareLanguage(impls) then Violation else Polyglot
  }

  /** A violation is a language that all implementations of the domain share. */
  method Classify(impls: seq<Implementation>) returns (verdict: Verdict)
    ensures verdict == Judged(impls)
  {
    if |impls| <= 1 {
      return Fine;
    }
    var shared := impls[0].languages;
    for i := 1 to |impls|
      invariant forall l :: l in shared <==> UsedByAll(impls[..i], l)
    {
      assert impls[..i + 1] == impls[..i] + [impls[i]];
      forall l
        ensures UsedByAll(impls[..i + 1], l) <==> UsedByAll(impls[..i], l) && l in impls[i].languages
      {
        assert impls[..i + 1][i] == impls[i];
        assert forall k :: 0 <= k < i ==> impls[..i + 1][k] == impls[..i][k];
      }
      shared := shared * impls[i].languages;
    }
    assert impls[..|impls|] == impls;
    if shared != {} {
      ghost var l :| l in shared;
      assert UsedByAll(impls, l);
      return Violation;
    }
    return Polyglot;
  }

  /** A violation is an overlap, so what classify reports is real. */
  lemma ViolationIsOverlap(impls: seq<Implementation>)
    requires Judged(impls).Violation?
    ensures TwoShareLanguage(impls)
  {
    var l :| UsedByAll(impls, l);
    assert l in impls[0].languages * impls[1].languages;
  }

  /** What it misses: an overlap goes unreported if and only if no language is common to
      all, and two implementations cannot do that to it. */
  lemma OverlapMissedExactly(impls: seq<Implementation>)
    requires TwoShareLanguage(impls)
    ensures !Judged(impls).Violation? <==> forall l :: !UsedByAll(impls, l)
    ensures |impls| == 2 ==> Judged(impls).Violation?
  {
    if |impls| == 2 {
      var l :| l in impls[0].languages * impls[1].languages;
      assert UsedByAll(impls, l);
    }
  }

  /** From three implementations on, whatever their number, it can: an implementation in a
      language of its own hides the overlap of all the others. */
  lemma PairwiseOverlapIsMissed(same: seq<Implementation>, other: Implementation)
    requires |same| >= 2
    requires exists l :: UsedByAll(same, l)
    requires forall i :: 0 <= i < |same| ==> same[i].languages * other.languages == {}
    ensures TwoShareLanguage(same + [other]) && Judged(same + [other]) == Polyglot
  {
    var impls := same + [other];
    var l :| UsedByAll(same, l);
    assert impls[0] == same[0] && impls[1] == same[1] && impls[|same|] == other;
    assert l in impls[0].languages * impls[1].languages;
    forall k
      ensures !UsedByAll(impls, k)
    {
      assert k !in same[0].languages * other.languages;
    }
  }

  /** For instance, two in Rust and one in Python. */
  lemma RustRustPython(p: Path, q: Path, r: Path)
    ensures var impls := [Implementation(p, {"rust"}, []), Implementation(q, {"rust"}, []), Implementation(r, {"python"}, [])];
      TwoShareLanguage(impls) && Judged(impls) == Polyglot
  {
    var same := [Implementation(p, {"rust"}, []), Implementation(q, {"rust"}, [])];
    var other := Implementation(r, {"python"}, []);
    assert UsedByAll(same, "rust");
    assert "rust"[0] != "python"[0] && {"rust"} * {"python"} == {};
    assert same + [other] == [Implementation(p, {"rust"}, []), Implementation(q, {"rust"}, []), Implementation(r, {"python"}, [])];
    PairwiseOverlapIsMissed(same, other);
  }
}
