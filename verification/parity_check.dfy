/** Canonicalisation of JSON values by recursively sorting object keys. An object is its
    members in the order its map iterates them, each key once. */
module ParityCheck {
  import opened Wrappers
  import Lex
  import Sorting

  datatype Value =
    | Null
    | Bool(b: bool)
    | Number(literal: string)
    | Str(s: string)
    | Array(items: seq<Value>)
    | Object(members: seq<Member>)

  datatype Member = Member(key: string, value: Value)

  function KeyOf(m: Member): seq<int> { Lex.Codes(m.key) }

  /** No object, at any depth, has a key twice. */
  predicate WellFormed(v: Value) {
    match v
    case Array(items) => forall i :: 0 <= i < |items| ==> WellFormed(items[i])
    case Object(ms) =>
      && (forall i :: 0 <= i < |ms| ==> WellFormed(ms[i].value))
      && (forall i, j :: 0 <= i < j < |ms| ==> ms[i].key != ms[j].key)
    case _ => true
  }

  /** Equal up to the order of object members, at every depth. */
  ghost predicate Equiv(u: Value, v: Value)
    decreases u
  {
    match u
    case Array(xs) =>
      v.Array? && |xs| == |v.items| && forall i :: 0 <= i < |xs| ==> Equiv(xs[i], v.items[i])
    case Object(ms) =>
      && v.Object?
      && (forall i :: 0 <= i < |ms| ==> HasKey(v.members, ms[i].key))
      && (forall j :: 0 <= j < |v.members| ==> HasKey(ms, v.members[j].key))
      && (forall i, j :: 0 <= i < |ms| && 0 <= j < |v.members| && ms[i].key == v.members[j].key
            ==> Equiv(ms[i].value, v.members[j].value))
    case _ => u == v
  }

  ghost predicate HasKey(ms: seq<Member>, key: string) {
    exists i :: 0 <= i < |ms| && ms[i].key == key
  }

  // ---------- the canonical form ----------

  /** Every value canonical and, where there are members, sorted by key. */
  function Canon(v: Value): (r: Value)
    decreases v, 1
  {
    match v
    case Array(items) => Array(CanonItems(items))
    case Object(ms) => Object(Sorting.SortBy(CanonMembers(ms), KeyOf))
    case _ => v
  }

  function CanonItems(items: seq<Value>): (r: seq<Value>)
    ensures |r| == |items| && forall i :: 0 <= i < |items| ==> r[i] == Canon(items[i])
    decreases items, 0
  {
    if items == [] then [] else [Canon(items[0])] + CanonItems(items[1..])
  }

  function CanonMembers(ms: seq<Member>): (r: seq<Member>)
    ensures |r| == |ms| && forall i :: 0 <= i < |ms| ==> r[i] == Member(ms[i].key, Canon(ms[i].value))
    decreases ms, 0
  {
    if ms == [] then [] else [Member(ms[0].key, Canon(ms[0].value))] + CanonMembers(ms[1..])
  }

  predicate DistinctKeys(ms: seq<Member>) {
    forall i, j :: 0 <= i < j < |ms| ==> ms[i].key != ms[j].key
  }

  lemma CanonMembersSorted(ms: seq<Member>)
    requires DistinctKeys(ms)
    ensures var r := Sorting.SortBy(CanonMembers(ms), KeyOf);
      && Sorting.StrictlySorted(r, KeyOf)
      && forall m :: m in r <==> m in CanonMembers(ms)
  {
    var cs := CanonMembers(ms);
    forall i, j | 0 <= i < j < |cs|
      ensures KeyOf(cs[i]) != KeyOf(cs[j])
    {
      if KeyOf(cs[i]) == KeyOf(cs[j]) { Lex.CodesInjective(cs[i].key, cs[j].key); }
    }
    Sorting.SortByStrict(cs, KeyOf);
    Sorting.SortByMeaning(cs, KeyOf);
  }

  // ---------- map lookups ----------

  function Get(ms: seq<Member>, key: string): (r: Option<Value>)
    ensures r.Some? ==> exists i :: 0 <= i < |ms| && ms[i] == Member(key, r.value)
    ensures r.None? ==> forall i :: 0 <= i < |ms| ==> ms[i].key != key
  {
    if ms == [] then None
    else if ms[0].key == key then assert ms[0] == Member(key, ms[0].value); Some(ms[0].value)
    else
      var r := Get(ms[1..], key);
      assert r.Some? ==> exists i :: 0 <= i < |ms| && ms[i] == Member(key, r.value) by {
        if r.Some? {
          var i :| 0 <= i < |ms[1..]| && ms[1..][i] == Member(key, r.value);
          assert ms[i + 1] == Member(key, r.value);
        }
      }
      r
  }

  lemma GetMember(ms: seq<Member>, i: nat)
    requires DistinctKeys(ms) && i < |ms|
    ensures Get(ms, ms[i].key) == Some(ms[i].value)
  {
  }

  /** sorted.insert: at the end for a new key, in place for a known one. */
  function Inserted(ms: seq<Member>, m: Member): (r: seq<Member>) {
    if ms == [] then [m]
    else if ms[0].key == m.key then [m] + ms[1..]
    else [ms[0]] + Inserted(ms[1..], m)
  }

  lemma {:induction false} InsertNew(ms: seq<Member>, m: Member)
    requires forall i :: 0 <= i < |ms| ==> ms[i].key != m.key
    ensures Inserted(ms, m) == ms + [m]
  {
    if ms != [] {
      InsertNew(ms[1..], m);
      assert ms + [m] == [ms[0]] + (ms[1..] + [m]);
    }
  }

  lemma {:induction false} InsertKnown(ms: seq<Member>, m: Member, i: nat)
    requires i < |ms| && ms[i].key == m.key && forall j :: 0 <= j < i ==> ms[j].key != m.key
    ensures Inserted(ms, m) == ms[i := m]
  {
    if i > 0 {
      InsertKnown(ms[1..], m, i - 1);
      assert ms[i := m] == [ms[0]] + ms[1..][i - 1 := m];
    }
  }

  function Self(s: string): seq<int> { Lex.Codes(s) }

  /** keys(), sort(), then one recursive call and one insertion per key. */
  method SortJsonValue(value: Value) returns (r: Value)
    requires WellFormed(value)
    ensures r == Canon(value)
    decreases value
  {
    hide CanonMembers, CanonItems, Sorting.SortBy, Get, Inserted;
    match value {
      case Object(ms) =>
        var keys: seq<string> := [];
        for i := 0 to |ms|
          invariant |keys| == i && forall j :: 0 <= j < i ==> keys[j] == ms[j].key
        {
          keys := keys + [ms[i].key];
        }
        var sortedKeys := Sorting.SortBy(keys, Self);
        KeysSorted(ms, keys);
        var sorted: seq<Member> := [];
        for i := 0 to |sortedKeys|
          invariant |sorted| == i
          invariant forall j :: 0 <= j < i ==> sorted[j].key == sortedKeys[j] && sorted[j] in CanonMembers(ms)
        {
          var key := sortedKeys[i];
          KeyIsThere(ms, keys, sortedKeys, i);
          var v := Get(ms, key);
          if v.Some? {
            ghost var at :| 0 <= at < |ms| && ms[at] == Member(key, v.value);
            assert ms[at].value == v.value && WellFormed(ms[at].value);
            var c := SortJsonValue(v.value);
            assert CanonMembers(ms)[at] == Member(key, c);
            InsertNew(sorted, Member(key, c));
            sorted := Inserted(sorted, Member(key, c));
          }
        }
        forall j | 0 <= j < |ms|
          ensures ms[j].key in sortedKeys
        {
          assert keys[j] in keys;
        }
        BuiltIsCanon(ms, sortedKeys, sorted);
        return Object(sorted);
      case Array(items) =>
        var out: seq<Value> := [];
        for i := 0 to |items|
          invariant |out| == i && forall j :: 0 <= j < i ==> out[j] == Canon(items[j])
        {
          var c := SortJsonValue(items[i]);
          out := out + [c];
        }
        assert out == CanonItems(items);
        return Array(out);
      case _ =>
        return value;
    }
  }

  lemma KeysSorted(ms: seq<Member>, keys: seq<string>)
    requires DistinctKeys(ms) && |keys| == |ms| && forall j :: 0 <= j < |ms| ==> keys[j] == ms[j].key
    ensures var r := Sorting.SortBy(keys, Self);
      && Sorting.StrictlySorted(r, Self)
      && (forall i, j :: 0 <= i < j < |r| ==> r[i] != r[j])
      && forall k :: k in r <==> k in keys
  {
    forall i, j | 0 <= i < j < |keys|
      ensures Self(keys[i]) != Self(keys[j])
    {
      if Self(keys[i]) == Self(keys[j]) { Lex.CodesInjective(keys[i], keys[j]); }
    }
    Sorting.SortByStrict(keys, Self);
    Sorting.SortByMeaning(keys, Self);
    var r := Sorting.SortBy(keys, Self);
    forall i, j | 0 <= i < j < |r|
      ensures r[i] != r[j]
    {
      Lex.Irreflexive(Self(r[i]));
    }
  }

  lemma KeyIsThere(ms: seq<Member>, keys: seq<string>, sortedKeys: seq<string>, i: nat)
    requires |keys| == |ms| && (forall j :: 0 <= j < |ms| ==> keys[j] == ms[j].key)
    requires i < |sortedKeys| && forall k :: k in sortedKeys <==> k in keys
    ensures Get(ms, sortedKeys[i]).Some?
  {
    assert sortedKeys[i] in keys;
  }

  lemma BuiltIsCanon(ms: seq<Member>, sortedKeys: seq<string>, sorted: seq<Member>)
    requires DistinctKeys(ms) && |sorted| == |sortedKeys| == |ms|
    requires Sorting.StrictlySorted(sortedKeys, Self)
    requires forall j :: 0 <= j < |ms| ==> ms[j].key in sortedKeys
    requires forall j :: 0 <= j < |sorted| ==> sorted[j].key == sortedKeys[j] && sorted[j] in CanonMembers(ms)
    ensures sorted == Sorting.SortBy(CanonMembers(ms), KeyOf)
  {
    hide CanonMembers, Sorting.SortBy;
    CanonMembersSorted(ms);
    assert Sorting.StrictlySorted(sorted, KeyOf);
    forall m | m in CanonMembers(ms)
      ensures m in sorted
    {
      var i :| 0 <= i < |ms| && CanonMembers(ms)[i] == m;
      assert ms[i].key in sortedKeys;
      var j :| 0 <= j < |sortedKeys| && sortedKeys[j] == m.key;
      SameKeySameMember(ms, m, sorted[j]);
    }
    Sorting.StrictlySortedUnique(sorted, Sorting.SortBy(CanonMembers(ms), KeyOf), KeyOf);
  }

  lemma SameKeySameMember(ms: seq<Member>, a: Member, b: Member)
    requires DistinctKeys(ms) && a in CanonMembers(ms) && b in CanonMembers(ms) && a.key == b.key
    ensures a == b
  {
    hide CanonMembers;
    var i :| 0 <= i < |ms| && CanonMembers(ms)[i] == a;
    var j :| 0 <= j < |ms| && CanonMembers(ms)[j] == b;
    assert ms[i].key == ms[j].key;
  }

  // ---------- one form per value ----------

  lemma CanonOfObject(ms: seq<Member>, m: Member)
    requires DistinctKeys(ms)
    ensures m in Canon(Object(ms)).members <==> m in CanonMembers(ms)
  {
    CanonMembersSorted(ms);
  }

  /** Equivalent values have the same canonical form. */
  lemma {:induction false} EquivMeansSameForm(u: Value, v: Value)
    requires WellFormed(u) && WellFormed(v) && Equiv(u, v)
    ensures Canon(u) == Canon(v)
    decreases u
  {
    match u
    case Array(xs) =>
      forall i | 0 <= i < |xs|
        ensures Canon(xs[i]) == Canon(v.items[i])
      {
        EquivMeansSameForm(xs[i], v.items[i]);
      }
      assert CanonItems(xs) == CanonItems(v.items);
    case Object(ms) =>
      var ns := v.members;
      forall i, j | 0 <= i < |ms| && 0 <= j < |ns| && ms[i].key == ns[j].key
        ensures Canon(ms[i].value) == Canon(ns[j].value)
      {
        EquivMeansSameForm(ms[i].value, ns[j].value);
      }
      SameMembersSameForm(ms, ns);
    case _ =>
  }

  lemma SameMembersSameForm(ms: seq<Member>, ns: seq<Member>)
    requires DistinctKeys(ms) && DistinctKeys(ns)
    requires forall i :: 0 <= i < |ms| ==> HasKey(ns, ms[i].key)
    requires forall j :: 0 <= j < |ns| ==> HasKey(ms, ns[j].key)
    requires forall i, j | 0 <= i < |ms| && 0 <= j < |ns| && ms[i].key == ns[j].key ::
               Canon(ms[i].value) == Canon(ns[j].value)
    ensures Sorting.SortBy(CanonMembers(ms), KeyOf) == Sorting.SortBy(CanonMembers(ns), KeyOf)
  {
    hide CanonMembers, Sorting.SortBy, Canon;
    CanonMembersSorted(ms);
    CanonMembersSorted(ns);
    forall i | 0 <= i < |ms|
      ensures CanonMembers(ms)[i] in CanonMembers(ns)
    {
      var j :| 0 <= j < |ns| && ns[j].key == ms[i].key;
      assert CanonMembers(ns)[j] == CanonMembers(ms)[i];
    }
    forall j | 0 <= j < |ns|
      ensures CanonMembers(ns)[j] in CanonMembers(ms)
    {
      var i :| 0 <= i < |ms| && ms[i].key == ns[j].key;
      assert CanonMembers(ms)[i] == CanonMembers(ns)[j];
    }
    Sorting.StrictlySortedUnique(Sorting.SortBy(CanonMembers(ms), KeyOf), Sorting.SortBy(CanonMembers(ns), KeyOf), KeyOf);
  }

  /** And values with the same canonical form are equivalent. */
  lemma {:induction false} SameFormMeansEquiv(u: Value, v: Value)
    requires WellFormed(u) && WellFormed(v) && Canon(u) == Canon(v)
    ensures Equiv(u, v)
    decreases u
  {
    match u
    case Array(xs) =>
      assert v.Array?;
      forall i | 0 <= i < |xs|
        ensures Equiv(xs[i], v.items[i])
      {
        assert CanonItems(xs)[i] == CanonItems(v.items)[i];
        SameFormMeansEquiv(xs[i], v.items[i]);
      }
    case Object(ms) =>
      assert v.Object?;
      var ns := v.members;
      forall m
        ensures m in CanonMembers(ms) <==> m in CanonMembers(ns)
      {
        CanonOfObject(ms, m);
        CanonOfObject(ns, m);
      }
      KeysCarriedOver(ms, ns);
      KeysCarriedOver(ns, ms);
      forall i, j | 0 <= i < |ms| && 0 <= j < |ns| && ms[i].key == ns[j].key
        ensures Equiv(ms[i].value, ns[j].value)
      {
        SameMembersSameValue(ms, ns, i, j);
        SameFormMeansEquiv(ms[i].value, ns[j].value);
      }
    case _ =>
  }

  lemma KeysCarriedOver(ms: seq<Member>, ns: seq<Member>)
    requires forall m :: m in CanonMembers(ms) ==> m in CanonMembers(ns)
    ensures forall i :: 0 <= i < |ms| ==> HasKey(ns, ms[i].key)
  {
    hide CanonMembers;
    forall i | 0 <= i < |ms|
      ensures HasKey(ns, ms[i].key)
    {
      var m := CanonMembers(ms)[i];
      assert m in CanonMembers(ms);
      var j :| 0 <= j < |ns| && CanonMembers(ns)[j] == m;
      assert ns[j].key == ms[i].key;
    }
  }

  lemma SameMembersSameValue(ms: seq<Member>, ns: seq<Member>, i: nat, j: nat)
    requires DistinctKeys(ns) && i < |ms| && j < |ns| && ms[i].key == ns[j].key
    requires forall m :: m in CanonMembers(ms) <==> m in CanonMembers(ns)
    ensures Canon(ms[i].value) == Canon(ns[j].value)
  {
    hide CanonMembers, Canon;
    assert CanonMembers(ms)[i] in CanonMembers(ms);
    assert CanonMembers(ns)[j] in CanonMembers(ns);
    SameKeySameMember(ns, CanonMembers(ms)[i], CanonMembers(ns)[j]);
  }

  /** A canonical form: two values get the same output exactly when they are equal up to
      the order of keys. */
  lemma Canonical(u: Value, v: Value)
    requires WellFormed(u) && WellFormed(v)
    ensures Canon(u) == Canon(v) <==> Equiv(u, v)
  {
    if Equiv(u, v) { EquivMeansSameForm(u, v); }
    if Canon(u) == Canon(v) { SameFormMeansEquiv(u, v); }
  }

  // ---------- sorted at every depth ----------

  predicate SortedDeep(v: Value) {
    match v
    case Array(items) => forall i :: 0 <= i < |items| ==> SortedDeep(items[i])
    case Object(ms) =>
      && (forall i :: 0 <= i < |ms| ==> SortedDeep(ms[i].value))
      && (forall i, j :: 0 <= i < j < |ms| ==> Lex.StrLess(ms[i].key, ms[j].key))
    case _ => true
  }

  lemma {:induction false} CanonIsSorted(v: Value)
    requires WellFormed(v)
    ensures SortedDeep(Canon(v))
  {
    match v
    case Array(items) =>
      forall i | 0 <= i < |items|
        ensures SortedDeep(CanonItems(items)[i])
      {
        CanonIsSorted(items[i]);
      }
    case Object(ms) =>
      forall i | 0 <= i < |ms|
        ensures SortedDeep(Canon(ms[i].value))
      {
        CanonIsSorted(ms[i].value);
      }
      MembersSorted(ms);
    case _ =>
  }

  lemma MembersSorted(ms: seq<Member>)
    requires DistinctKeys(ms) && forall i :: 0 <= i < |ms| ==> SortedDeep(Canon(ms[i].value))
    ensures SortedDeep(Object(Sorting.SortBy(CanonMembers(ms), KeyOf)))
  {
    hide CanonMembers, Sorting.SortBy, Canon;
    CanonMembersSorted(ms);
    var r := Sorting.SortBy(CanonMembers(ms), KeyOf);
    forall i | 0 <= i < |r|
      ensures SortedDeep(r[i].value)
    {
      assert r[i] in r;
      var k :| 0 <= k < |ms| && CanonMembers(ms)[k] == r[i];
    }
    forall i, j | 0 <= i < j < |r|
      ensures Lex.StrLess(r[i].key, r[j].key)
    {
      assert Lex.Less(KeyOf(r[i]), KeyOf(r[j]));
    }
  }

  /** What is already sorted at every depth is unchanged; so it is with the default map of
      serde_json, which keeps its keys sorted. */
  lemma {:induction false} SortedIsUnchanged(v: Value)
    requires SortedDeep(v)
    ensures Canon(v) == v
  {
    match v
    case Array(items) =>
      forall i | 0 <= i < |items|
        ensures Canon(items[i]) == items[i]
      {
        SortedIsUnchanged(items[i]);
      }
      assert CanonItems(items) == items;
    case Object(ms) =>
      forall i | 0 <= i < |ms|
        ensures Canon(ms[i].value) == ms[i].value
      {
        SortedIsUnchanged(ms[i].value);
      }
      assert CanonMembers(ms) == ms;
      assert Sorting.StrictlySorted(ms, KeyOf);
      Sorting.SortedIsFixed(ms, KeyOf);
    case _ =>
  }

  lemma CanonIsIdempotent(v: Value)
    requires WellFormed(v)
    ensures Canon(Canon(v)) == Canon(v)
  {
    CanonIsSorted(v);
    SortedIsUnchanged(Canon(v));
  }

  // ---------- lookups ----------

  datatype Step = Key(key: string) | Index(i: nat)

  function Lookup(v: Value, path: seq<Step>): (r: Option<Value>)
    decreases |path|
  {
    if path == [] then Some(v) else
      match (path[0], v)
      case (Key(k), Object(ms)) =>
        var m := Get(ms, k);
        if m.None? then None else Lookup(m.value, path[1..])
      case (Index(i), Array(items)) => if i < |items| then Lookup(items[i], path[1..]) else None
      case _ => None
  }

  /** A step into an object finds the one member of that key, a step into an array the item
      at that index; there are no others. */
  lemma LookupExactly(v: Value, path: seq<Step>)
    ensures Lookup(v, []) == Some(v)
    ensures path != [] ==>
      match (path[0], v)
      case (Key(k), Object(ms)) =>
        && (forall i :: 0 <= i < |ms| && ms[i].key == k && DistinctKeys(ms) ==>
              Lookup(v, path) == Lookup(ms[i].value, path[1..]))
        && ((forall i :: 0 <= i < |ms| ==> ms[i].key != k) ==> Lookup(v, path) == None)
      case (Index(i), Array(items)) => Lookup(v, path) == if i < |items| then Lookup(items[i], path[1..]) else None
      case _ => Lookup(v, path) == None
  {
  }

  /** What is asked of values: no object, at any depth, has one key twice. */
  lemma WellFormedExactly(v: Value)
    ensures WellFormed(v) <==>
      match v
      case Array(items) => forall i :: 0 <= i < |items| ==> WellFormed(items[i])
      case Object(ms) =>
        && (forall i, j :: 0 <= i < |ms| && 0 <= j < |ms| && ms[i].key == ms[j].key ==> i == j)
        && forall i :: 0 <= i < |ms| ==> WellFormed(ms[i].value)
      case Null => true
      case Bool(_) => true
      case Number(_) => true
      case Str(_) => true
  {
  }

  lemma GetAfterSorting(ms: seq<Member>, key: string)
    requires DistinctKeys(ms)
    ensures var sorted := Sorting.SortBy(CanonMembers(ms), KeyOf);
      Get(sorted, key) == match Get(ms, key) case None => None case Some(v) => Some(Canon(v))
  {
    hide CanonMembers, Sorting.SortBy, Canon;
    CanonMembersSorted(ms);
    var sorted := Sorting.SortBy(CanonMembers(ms), KeyOf);
    var before, after := Get(ms, key), Get(sorted, key);
    if before.Some? {
      var i :| 0 <= i < |ms| && ms[i] == Member(key, before.value);
      assert CanonMembers(ms)[i] in CanonMembers(ms);
      var j :| 0 <= j < |sorted| && sorted[j] == CanonMembers(ms)[i];
      assert after.Some?;
    }
    if after.Some? {
      var j :| 0 <= j < |sorted| && sorted[j] == Member(key, after.value);
      assert sorted[j] in sorted;
      var i :| 0 <= i < |ms| && CanonMembers(ms)[i] == sorted[j];
      GetMember(ms, i);
    }
  }

  /** Every lookup path finds the same thing before and after: the same leaf, or the same
      array or object in sorted form. */
  lemma {:induction false} LookupsKept(v: Value, path: seq<Step>)
    requires WellFormed(v)
    ensures Lookup(Canon(v), path) == match Lookup(v, path) case None => None case Some(x) => Some(Canon(x))
    decreases |path|
  {
    if path != [] {
      match (path[0], v)
      case (Key(k), Object(ms)) =>
        GetAfterSorting(ms, k);
        var m := Get(ms, k);
        if m.Some? {
          var i :| 0 <= i < |ms| && ms[i] == Member(k, m.value);
          assert WellFormed(ms[i].value);
          LookupsKept(m.value, path[1..]);
        }
      case (Index(i), Array(items)) =>
        if i < |items| { LookupsKept(items[i], path[1..]); }
      case _ =>
    }
  }
}
