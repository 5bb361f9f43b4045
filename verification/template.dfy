/** Template substitution: one str::replace per variable, in whatever order the hash map
    yields them, against a simultaneous substitution of the template's placeholders. */
module Template {

  predicate BraceFree(s: string) {
    '{' !in s && '}' !in s
  }

  /** str::replace: occurrences from left to right, not overlapping. */
  function Replace(s: string, pattern: string, value: string): (r: string)
    requires pattern != []
    decreases |s|
  {
    if s == [] then []
    else if pattern <= s then value + Replace(s[|pattern|..], pattern, value)
    else [s[0]] + Replace(s[1..], pattern, value)
  }

  function Placeholder(key: string): (p: string) {
    "{" + key + "}"
  }

  type Vars = map<string, string>

  /** The loop of render over the keys in the given order. */
  function RenderIn(t: string, vars: Vars, order: seq<string>): (r: string)
    requires forall k :: k in order ==> k in vars
  {
    if order == [] then t else
      var key := order[|order| - 1];
      Replace(RenderIn(t, vars, order[..|order| - 1]), Placeholder(key), vars[key])
  }

  /** An order in which the map may be iterated: each key once. */
  ghost predicate IsOrder(order: seq<string>, vars: Vars) {
    && (forall k :: k in order <==> k in vars)
    && (forall i, j :: 0 <= i < j < |order| ==> order[i] != order[j])
  }

  lemma OrderExactly(order: seq<string>, vars: Vars)
    ensures IsOrder(order, vars) <==> multiset(order) == multiset(vars.Keys)
  {
    if IsOrder(order, vars) {
      forall k: string ensures multiset(order)[k] == multiset(vars.Keys)[k] { OncePerKey(order, k); }
    } else if multiset(order) == multiset(vars.Keys) {
      forall k: string ensures k in order <==> k in vars { assert k in multiset(order) <==> k in multiset(vars.Keys); }
      forall i, j | 0 <= i < j < |order| ensures order[i] != order[j] { TwiceCounts(order, i, j); }
    }
  }

  lemma {:induction false} OncePerKey(order: seq<string>, k: string)
    requires forall i, j :: 0 <= i < j < |order| ==> order[i] != order[j]
    ensures multiset(order)[k] == if k in order then 1 else 0
  {
    if order != [] {
      assert order == [order[0]] + order[1..];
      assert forall i :: 0 <= i < |order[1..]| ==> order[1..][i] == order[i + 1];
      OncePerKey(order[1..], k);
    }
  }

  lemma TwiceCounts(order: seq<string>, i: nat, j: nat)
    requires i < j < |order| && multiset(order)[order[i]] <= 1
    ensures order[i] != order[j]
  {
    assert order == order[..j] + order[j..];
    assert order[..j][i] == order[i] && order[i] in order[..j];
    assert order[j..][0] == order[j] && order[j] in order[j..];
    assert multiset(order) == multiset(order[..j]) + multiset(order[j..]);
  }

  /** str::replace, by its first occurrence: nothing before it changes, it is replaced, and
      the search goes on behind it; without one nothing changes. */
  lemma {:induction false} ReplaceExactly(before: string, pattern: string, behind: string, value: string)
    requires pattern != []
    requires forall i :: 0 <= i < |before| ==> !(pattern <= (before + pattern + behind)[i..])
    ensures Replace(before + pattern + behind, pattern, value) == before + value + Replace(behind, pattern, value)
  {
    if before == [] {
      ReplaceFirst(before + pattern + behind, pattern, behind, value);
    } else {
      var s, t := before + pattern + behind, before[1..] + pattern + behind;
      assert s[0..] == s && s[1..] == t;
      assert forall i :: 0 <= i < |before[1..]| ==> t[i..] == s[i + 1..];
      ReplaceExactly(before[1..], pattern, behind, value);
      assert before == [before[0]] + before[1..];
    }
  }

  lemma ReplaceFirst(s: string, pattern: string, behind: string, value: string)
    requires pattern != [] && s == pattern + behind
    ensures Replace(s, pattern, value) == value + Replace(behind, pattern, value)
  {
    assert s[|pattern|..] == behind;
  }

  lemma {:induction false} ReplacesNothing(s: string, pattern: string, value: string)
    requires pattern != [] && forall i :: 0 <= i < |s| ==> !(pattern <= s[i..])
    ensures Replace(s, pattern, value) == s
  {
    if s != [] {
      assert s[0..] == s && forall i :: 0 <= i < |s[1..]| ==> s[1..][i..] == s[i + 1..];
      ReplacesNothing(s[1..], pattern, value);
    }
  }

  /** The iteration order is the map's business: the method may meet the keys in any. */
  method Render(template: string, vars: Vars) returns (result: string)
    ensures exists order :: IsOrder(order, vars) && result == RenderIn(template, vars, order)
    ensures FlatTemplate(template) && (forall k :: k in vars ==> BraceFree(k) && BraceFree(vars[k])) ==>
      result == Substituted(template, vars)
  {
    result := template;
    ghost var order: seq<string> := [];
    var left := vars.Keys;
    while left != {}
      invariant left <= vars.Keys
      invariant forall k :: k in order <==> k in vars && k !in left
      invariant forall i, j :: 0 <= i < j < |order| ==> order[i] != order[j]
      invariant result == RenderIn(template, vars, order)
    {
      var key :| key in left;
      left := left - {key};
      result := Replace(result, "{" + key + "}", vars[key]);
      assert (order + [key])[..|order|] == order;
      order := order + [key];
    }
    assert IsOrder(order, vars);
    if FlatTemplate(template) && Applicable(vars, order) {
      FlatMeansSubstituted(template, vars, order);
    }
  }

  // ---------- templates as pieces ----------

  /** A placeholder is a pair of braces with no brace between them. */
  datatype Piece = Ch(c: char) | Token(name: string)

  function FirstBrace(s: string): (i: nat)
    ensures i <= |s| && BraceFree(s[..i])
    ensures i < |s| ==> s[i] == '{' || s[i] == '}'
  {
    if s == [] || s[0] == '{' || s[0] == '}' then 0 else
      var i := 1 + FirstBrace(s[1..]);
      assert s[..i] == [s[0]] + s[1..][..i - 1];
      i
  }

  /** The piece t begins with. */
  function HeadPiece(t: string): (p: Piece)
    requires t != []
    ensures p.Token? ==> BraceFree(p.name)
    ensures 1 <= |TextOf(p)| <= |t| && t == TextOf(p) + t[|TextOf(p)|..]
  {
    var i := FirstBrace(t[1..]);
    if t[0] == '{' && i < |t| - 1 && t[1 + i] == '}' then
      assert t[1..][..i] == t[1..1 + i];
      assert t == Placeholder(t[1..1 + i]) + t[i + 2..];
      Token(t[1..1 + i])
    else
      assert t == [t[0]] + t[1..];
      Ch(t[0])
  }

  function Tokenize(t: string): (ps: seq<Piece>)
    decreases |t|
  {
    if t == [] then [] else
      var p := HeadPiece(t);
      [p] + Tokenize(t[|TextOf(p)|..])
  }

  function TextOf(p: Piece): string {
    match p
    case Ch(c) => [c]
    case Token(name) => Placeholder(name)
  }

  function Text(ps: seq<Piece>): (s: string) {
    if ps == [] then [] else TextOf(ps[0]) + Text(ps[1..])
  }

  function Chars(s: string): (ps: seq<Piece>)
    ensures |ps| == |s| && forall i :: 0 <= i < |s| ==> ps[i] == Ch(s[i])
  {
    seq(|s|, i requires 0 <= i < |s| => Ch(s[i]))
  }

  function SubstitutePiece(p: Piece, vars: Vars, keys: set<string>): (qs: seq<Piece>)
  {
    if p.Token? && p.name in keys && p.name in vars then Chars(vars[p.name]) else [p]
  }

  function Substitute(ps: seq<Piece>, vars: Vars, keys: set<string>): (qs: seq<Piece>)
  {
    if ps == [] then [] else SubstitutePiece(ps[0], vars, keys) + Substitute(ps[1..], vars, keys)
  }

  /** The reference: every placeholder of the template is looked up once. */
  function Substituted(t: string, vars: Vars): (s: string) {
    Text(Substitute(Tokenize(t), vars, vars.Keys))
  }

  /** The reference, read off a template: text stays, a pair of braces around a key's name is
      its value, one around any other name stays, and so does a brace without a partner. */
  lemma SubstitutedExactly(text: string, name: string, rest: string, vars: Vars)
    requires BraceFree(text) && BraceFree(name)
    ensures Substituted(text, vars) == text
    ensures Substituted(text + "{" + name + "}" + rest, vars) ==
      text + (if name in vars then vars[name] else "{" + name + "}") + Substituted(rest, vars)
    ensures Substituted(text + "}" + rest, vars) == text + "}" + Substituted(rest, vars)
    ensures Substituted(text + "{" + name + "{" + rest, vars) == text + "{" + Substituted(name + "{" + rest, vars)
    ensures Substituted(text + "{" + name, vars) == text + "{" + name
  {
    hide Substituted;
    TextStays(text, "", vars);
    assert text + "" == text;
    NothingStays(vars);
    TextStays(text, "{" + name + "}" + rest, vars);
    assert text + ("{" + name + "}" + rest) == text + "{" + name + "}" + rest;
    PlaceholderFilled(name, rest, vars);
    TextStays(text, "}" + rest, vars);
    assert text + ("}" + rest) == text + "}" + rest;
    CharStays('}', rest, vars);
    TextStays(text, "{" + (name + "{" + rest), vars);
    assert text + ("{" + (name + "{" + rest)) == text + "{" + name + "{" + rest;
    OpenBraceStays(name, rest, vars);
    TextStays(text, "{" + name, vars);
    assert text + ("{" + name) == text + "{" + name;
    LastBraceStays(name, vars);
  }

  lemma OpenBraceStays(name: string, rest: string, vars: Vars)
    requires BraceFree(name)
    ensures Substituted("{" + (name + "{" + rest), vars) == "{" + Substituted(name + "{" + rest, vars)
  {
    hide Substituted;
    var behind := name + "{" + rest;
    FirstBraceIs(name, "{" + rest);
    assert name + ("{" + rest) == behind && behind[|name|] == '{';
    CharStays('{', behind, vars);
  }

  lemma LastBraceStays(name: string, vars: Vars)
    requires BraceFree(name)
    ensures Substituted("{" + name, vars) == "{" + name
  {
    hide Substituted;
    FirstBraceIs(name, "");
    assert name + "" == name;
    CharStays('{', name, vars);
    TextStays(name, "", vars);
    NothingStays(vars);
  }

  lemma NothingStays(vars: Vars)
    ensures Substituted("", vars) == ""
  {
  }

  lemma {:induction false} FirstBraceIs(a: string, rest: string)
    requires BraceFree(a) && (rest == "" || rest[0] == '{' || rest[0] == '}')
    ensures FirstBrace(a + rest) == |a|
  {
    if a != [] {
      FirstBraceIs(a[1..], rest);
      assert (a + rest)[1..] == a[1..] + rest;
    }
  }

  lemma {:induction false} TextStays(text: string, rest: string, vars: Vars)
    requires BraceFree(text)
    ensures Substituted(text + rest, vars) == text + Substituted(rest, vars)
  {
    hide Substituted;
    if text == [] {
      assert text + rest == rest && text + Substituted(rest, vars) == Substituted(rest, vars);
    } else {
      TextStays(text[1..], rest, vars);
      CharStays(text[0], text[1..] + rest, vars);
      assert text + rest == [text[0]] + (text[1..] + rest) && text == [text[0]] + text[1..];
    }
  }

  lemma CharStays(c: char, rest: string, vars: Vars)
    requires c != '{' || (var i := FirstBrace(rest); i == |rest| || rest[i] == '{')
    ensures Substituted([c] + rest, vars) == [c] + Substituted(rest, vars)
  {
    hide Tokenize, HeadPiece, Substitute, Text;
    CharToken(c, rest);
    SubstituteFirst(Ch(c), Tokenize(rest), vars, vars.Keys);
    TextFirst(Ch(c), Substitute(Tokenize(rest), vars, vars.Keys));
  }

  lemma CharToken(c: char, rest: string)
    requires c != '{' || (var i := FirstBrace(rest); i == |rest| || rest[i] == '{')
    ensures Tokenize([c] + rest) == [Ch(c)] + Tokenize(rest)
  {
    hide FirstBrace;
    var t := [c] + rest;
    assert t[1..] == rest;
    assert HeadPiece(t) == Ch(c);
  }

  lemma PlaceholderFilled(name: string, rest: string, vars: Vars)
    requires BraceFree(name)
    ensures Substituted("{" + name + "}" + rest, vars) ==
      (if name in vars then vars[name] else "{" + name + "}") + Substituted(rest, vars)
  {
    var t := "{" + name + "}" + rest;
    assert t[1..] == name + ("}" + rest);
    FirstBraceIs(name, "}" + rest);
    assert HeadPiece(t) == Token(name) by { assert t[1..1 + |name|] == name; }
    assert TextOf(Token(name)) == "{" + name + "}" && t[|name| + 2..] == rest;
    assert Tokenize(t) == [Token(name)] + Tokenize(rest);
    SubstituteFirst(Token(name), Tokenize(rest), vars, vars.Keys);
    var piece := SubstitutePiece(Token(name), vars, vars.Keys);
    TextAppend(piece, Substitute(Tokenize(rest), vars, vars.Keys));
    if name in vars {
      TextOfChars(vars[name]);
    } else {
      TextFirst(Token(name), []);
      assert piece == [Token(name)] + [];
    }
  }

  predicate NamesBraceFree(ps: seq<Piece>) {
    forall i :: 0 <= i < |ps| && ps[i].Token? ==> BraceFree(ps[i].name)
  }

  /** No placeholder can arise around others: between a lone '{' and the next lone brace,
      with placeholders counted as text, that brace is never '}'. */
  predicate Flat(ps: seq<Piece>, open: bool) {
    if ps == [] then true else
      match ps[0]
      case Token(_) => Flat(ps[1..], open)
      case Ch(c) =>
        if c == '{' then Flat(ps[1..], true)
        else if c == '}' then !open && Flat(ps[1..], false)
        else Flat(ps[1..], open)
  }

  predicate FlatTemplate(t: string) {
    Flat(Tokenize(t), false)
  }

  /** Keys and values without braces, and an order of the map. */
  ghost predicate Applicable(vars: Vars, order: seq<string>) {
    && IsOrder(order, vars)
    && forall k :: k in vars ==> BraceFree(k) && BraceFree(vars[k])
  }

  // ---------- what replace sees ----------

  /** Every placeholder spelled by single characters has at least limit characters between
      its braces; run counts the characters since an open lone '{', -1 if there is none. */
  predicate NoneShort(ps: seq<Piece>, run: int, limit: nat) {
    if ps == [] then true else
      match ps[0]
      case Token(_) => NoneShort(ps[1..], -1, limit)
      case Ch(c) =>
        if c == '{' then NoneShort(ps[1..], 0, limit)
        else if c == '}' then (run < 0 || run >= limit) && NoneShort(ps[1..], -1, limit)
        else NoneShort(ps[1..], if run < 0 then -1 else run + 1, limit)
  }

  lemma {:induction false} FlatHidesNothing(ps: seq<Piece>, open: bool, run: int, limit: nat)
    requires Flat(ps, open) && (run >= 0 ==> open)
    ensures NoneShort(ps, run, limit)
  {
    if ps != [] {
      match ps[0]
      case Token(_) => FlatHidesNothing(ps[1..], open, -1, limit);
      case Ch(c) =>
        if c == '{' { FlatHidesNothing(ps[1..], true, 0, limit); }
        else if c == '}' { FlatHidesNothing(ps[1..], false, -1, limit); }
        else { FlatHidesNothing(ps[1..], open, if run < 0 then -1 else run + 1, limit); }
    }
  }

  lemma {:induction false} LongRunIsFine(ps: seq<Piece>, run: int, limit: nat)
    requires NoneShort(ps, -1, limit) && run >= limit
    ensures NoneShort(ps, run, limit)
  {
    if ps != [] && ps[0].Ch? && ps[0].c != '{' && ps[0].c != '}' {
      LongRunIsFine(ps[1..], run + 1, limit);
    }
  }

  lemma TextFirst(p: Piece, ps: seq<Piece>)
    ensures Text([p] + ps) == TextOf(p) + Text(ps)
  {
    assert ([p] + ps)[1..] == ps;
  }

  lemma Associative(a: string, b: string, c: string)
    ensures (a + b) + c == a + (b + c)
  {
  }

  lemma {:induction false} TextAppend(ps: seq<Piece>, qs: seq<Piece>)
    ensures Text(ps + qs) == Text(ps) + Text(qs)
  {
    hide TextOf;
    if ps == [] {
      assert ps + qs == qs;
    } else {
      TextAppend(ps[1..], qs);
      assert ps + qs == [ps[0]] + (ps[1..] + qs);
      TextFirst(ps[0], ps[1..] + qs);
      Associative(TextOf(ps[0]), Text(ps[1..]), Text(qs));
    }
  }

  lemma {:induction false} TextOfChars(s: string)
    ensures Text(Chars(s)) == s
  {
    if s != [] {
      TextOfChars(s[1..]);
      assert Chars(s)[1..] == Chars(s[1..]);
      assert s == [s[0]] + s[1..];
    }
  }

  /** A short placeholder does not start in the text behind an open lone '{'. */
  lemma {:induction false} NoShortMatch(ps: seq<Piece>, run: nat, limit: nat, key: string)
    requires NoneShort(ps, run, limit) && BraceFree(key) && run + |key| < limit
    ensures !(key + "}" <= Text(ps))
  {
    if ps != [] && key + "}" <= Text(ps) {
      var first := (key + "}")[0];
      assert Text(ps)[0] == first;
      if key != [] {
        assert first == key[0];
        assert ps[0].Ch? && ps[0].c == key[0];
        assert (key + "}")[1..] == key[1..] + "}" && Text(ps)[1..] == Text(ps[1..]);
        NoShortMatch(ps[1..], run + 1, limit, key[1..]);
      }
    }
  }

  lemma {:induction false} SkipsText(s: string, rest: string, pattern: string, value: string)
    requires pattern != [] && pattern[0] == '{' && '{' !in s
    ensures Replace(s + rest, pattern, value) == s + Replace(rest, pattern, value)
  {
    if s == [] {
      assert s + rest == rest;
    } else {
      assert (s + rest)[0] == s[0] && (s + rest)[1..] == s[1..] + rest;
      SkipsText(s[1..], rest, pattern, value);
      Associative([s[0]], s[1..], Replace(rest, pattern, value));
      assert s == [s[0]] + s[1..];
    }
  }

  lemma {:induction false} FirstBraceAt(a: string, rest: string)
    requires BraceFree(a)
    ensures FirstBrace(a + "}" + rest) == |a|
  {
    if a != [] {
      FirstBraceAt(a[1..], rest);
      assert (a + "}" + rest)[0] == a[0] && (a + "}" + rest)[1..] == a[1..] + "}" + rest;
    }
  }

  lemma SameName(a: string, b: string, rest: string)
    requires BraceFree(a) && BraceFree(b) && a + "}" <= b + "}" + rest
    ensures a == b
  {
    var s := b + "}" + rest;
    assert s == a + "}" + s[|a| + 1..];
    FirstBraceAt(a, s[|a| + 1..]);
    FirstBraceAt(b, rest);
    assert a == s[..|a|] && b == s[..|b|];
  }

  function One(key: string, value: string): Vars { map[key := value] }

  lemma PassesOverToken(name: string, rest: string, key: string, value: string)
    requires BraceFree(name) && BraceFree(key) && name != key
    ensures Replace(Placeholder(name) + rest, Placeholder(key), value)
         == Placeholder(name) + Replace(rest, Placeholder(key), value)
  {
    var s := Placeholder(name) + rest;
    var body := name + "}";
    if Placeholder(key) <= s {
      assert Placeholder(key)[1..] == key + "}";
      assert s[1..] == name + "}" + rest;
      SameName(key, name, rest);
    }
    assert s[1..] == body + rest && s[0] == '{';
    SkipsText(body, rest, Placeholder(key), value);
    assert Placeholder(name) == "{" + body;
    Associative("{", body, Replace(rest, Placeholder(key), value));
  }

  lemma TokenHit(rest: string, key: string, value: string)
    ensures Replace(Placeholder(key) + rest, Placeholder(key), value) == value + Replace(rest, Placeholder(key), value)
  {
    assert (Placeholder(key) + rest)[|Placeholder(key)|..] == rest;
  }

  lemma PrefixTail(a: string, b: string)
    requires a != []
    ensures a <= b ==> a[0] == b[0] && a[1..] <= b[1..]
  {
  }

  lemma CharPasses(c: char, rest: string, key: string, value: string)
    requires c == '{' ==> !(key + "}" <= rest)
    ensures Replace([c] + rest, Placeholder(key), value) == [c] + Replace(rest, Placeholder(key), value)
  {
    assert ([c] + rest)[1..] == rest && Placeholder(key)[1..] == key + "}";
    PrefixTail(Placeholder(key), [c] + rest);
  }

  lemma ReplacePiece(p: Piece, rest: string, key: string, value: string)
    requires BraceFree(key) && (p.Token? ==> BraceFree(p.name))
    requires p == Ch('{') ==> !(key + "}" <= rest)
    ensures Replace(TextOf(p) + rest, Placeholder(key), value)
         == Text(SubstitutePiece(p, One(key, value), {key})) + Replace(rest, Placeholder(key), value)
  {
    hide Replace;
    var qs := SubstitutePiece(p, One(key, value), {key});
    if p == Token(key) {
      TokenHit(rest, key, value);
      TextOfChars(value);
      assert Text(qs) == value;
    } else {
      assert qs == [p];
      assert Text([p]) == TextOf(p) by { assert [p][1..] == []; }
      match p {
        case Token(name) => PassesOverToken(name, rest, key, value);
        case Ch(c) => CharPasses(c, rest, key, value);
      }
    }
  }

  /** One replace is the substitution of one placeholder, where none of its length is
      spelled by single characters. */
  lemma {:induction false} ReplaceSubstitutes(ps: seq<Piece>, run: int, key: string, value: string)
    requires NamesBraceFree(ps) && BraceFree(key)
    requires NoneShort(ps, run, |key| + 1)
    ensures Replace(Text(ps), Placeholder(key), value) == Text(Substitute(ps, One(key, value), {key}))
  {
    if ps != [] {
      hide Replace, TextOf, SubstitutePiece, Placeholder;
      var next := if ps[0].Token? || ps[0].c == '}' then -1 else if ps[0].c == '{' then 0 else if run < 0 then -1 else run + 1;
      ReplaceSubstitutes(ps[1..], next, key, value);
      if ps[0] == Ch('{') { NoShortMatch(ps[1..], 0, |key| + 1, key); }
      ReplacePiece(ps[0], Text(ps[1..]), key, value);
      TextAppend(SubstitutePiece(ps[0], One(key, value), {key}), Substitute(ps[1..], One(key, value), {key}));
    } else {
      assert Text(ps) == [];
    }
  }

  // ---------- substitution, one key at a time ----------

  lemma SubstituteFirst(p: Piece, ps: seq<Piece>, vars: Vars, keys: set<string>)
    ensures Substitute([p] + ps, vars, keys) == SubstitutePiece(p, vars, keys) + Substitute(ps, vars, keys)
  {
    assert ([p] + ps)[1..] == ps;
  }

  lemma JoinThree(a: seq<Piece>, b: seq<Piece>, c: seq<Piece>)
    ensures (a + b) + c == a + (b + c)
  {
  }

  lemma {:induction false} SubstituteAppend(ps: seq<Piece>, qs: seq<Piece>, vars: Vars, keys: set<string>)
    ensures Substitute(ps + qs, vars, keys) == Substitute(ps, vars, keys) + Substitute(qs, vars, keys)
  {
    hide SubstitutePiece;
    if ps == [] {
      assert ps + qs == qs;
    } else {
      SubstituteAppend(ps[1..], qs, vars, keys);
      assert ps + qs == [ps[0]] + (ps[1..] + qs);
      SubstituteFirst(ps[0], ps[1..] + qs, vars, keys);
      JoinThree(SubstitutePiece(ps[0], vars, keys), Substitute(ps[1..], vars, keys), Substitute(qs, vars, keys));
    }
  }

  lemma {:induction false} SubstituteChars(s: string, vars: Vars, keys: set<string>)
    ensures Substitute(Chars(s), vars, keys) == Chars(s)
  {
    if s != [] {
      SubstituteChars(s[1..], vars, keys);
      assert Chars(s) == [Ch(s[0])] + Chars(s[1..]);
      SubstituteFirst(Ch(s[0]), Chars(s[1..]), vars, keys);
    }
  }

  lemma SubstituteOne(p: Piece, vars: Vars, keys: set<string>)
    ensures Substitute([p], vars, keys) == SubstitutePiece(p, vars, keys)
  {
    assert [p][1..] == [];
  }

  lemma {:induction false} SubstituteMore(ps: seq<Piece>, vars: Vars, keys: set<string>, key: string)
    requires key in vars
    ensures Substitute(Substitute(ps, vars, keys), One(key, vars[key]), {key}) == Substitute(ps, vars, keys + {key})
  {
    if ps != [] {
      SubstituteMore(ps[1..], vars, keys, key);
      SubstituteAppend(SubstitutePiece(ps[0], vars, keys), Substitute(ps[1..], vars, keys), One(key, vars[key]), {key});
      PieceMore(ps[0], vars, keys, key);
    }
  }

  lemma PieceMore(p: Piece, vars: Vars, keys: set<string>, key: string)
    requires key in vars
    ensures Substitute(SubstitutePiece(p, vars, keys), One(key, vars[key]), {key}) == SubstitutePiece(p, vars, keys + {key})
  {
    if p.Token? && p.name in keys && p.name in vars {
      SubstituteChars(vars[p.name], One(key, vars[key]), {key});
    } else {
      SubstituteOne(p, One(key, vars[key]), {key});
    }
  }

  lemma {:induction false} SubstituteNames(ps: seq<Piece>, vars: Vars, keys: set<string>)
    requires NamesBraceFree(ps)
    ensures NamesBraceFree(Substitute(ps, vars, keys))
  {
    if ps != [] { SubstituteNames(ps[1..], vars, keys); }
  }

  lemma {:induction false} TextIsFlat(s: string, ps: seq<Piece>, open: bool)
    requires BraceFree(s)
    ensures Flat(Chars(s) + ps, open) == Flat(ps, open)
  {
    if s == [] {
      assert Chars(s) + ps == ps;
    } else {
      TextIsFlat(s[1..], ps, open);
      assert (Chars(s) + ps)[1..] == Chars(s[1..]) + ps;
    }
  }

  lemma {:induction false} SubstituteFlat(ps: seq<Piece>, open: bool, vars: Vars, keys: set<string>)
    requires Flat(ps, open) && forall k :: k in vars ==> BraceFree(vars[k])
    ensures Flat(Substitute(ps, vars, keys), open)
  {
    if ps != [] {
      var rest := Substitute(ps[1..], vars, keys);
      match ps[0]
      case Token(name) =>
        SubstituteFlat(ps[1..], open, vars, keys);
        if name in keys && name in vars {
          TextIsFlat(vars[name], rest, open);
        } else {
          assert ([ps[0]] + rest)[1..] == rest;
        }
      case Ch(c) =>
        SubstituteFlat(ps[1..], if c == '{' then true else if c == '}' then false else open, vars, keys);
        assert ([ps[0]] + rest)[1..] == rest;
    }
  }

  lemma {:induction false} SubstituteNothing(ps: seq<Piece>, vars: Vars)
    ensures Substitute(ps, vars, {}) == ps
  {
    if ps != [] { SubstituteNothing(ps[1..], vars); }
  }

  lemma {:induction false} TokenizeText(t: string)
    ensures Text(Tokenize(t)) == t && NamesBraceFree(Tokenize(t))
    decreases |t|
  {
    hide HeadPiece, TextOf;
    if t != [] {
      var rest := t[|TextOf(HeadPiece(t))|..];
      TokenizeText(rest);
      TextFirst(HeadPiece(t), Tokenize(rest));
    }
  }

  function SetOf(order: seq<string>): (ks: set<string>) {
    set k | k in order
  }

  /** Whatever keys have been met, no placeholder short enough to be a key is spelled by
      single characters. */
  ghost predicate NothingHidden(t: string, vars: Vars, order: seq<string>) {
    forall keys: set<string>, k :: keys <= SetOf(order) && k in order
      ==> NoneShort(Substitute(Tokenize(t), vars, keys), -1, |k| + 1)
  }

  /** Then the loop computes the substitution of the keys met so far. */
  lemma {:induction false} RenderSubstitutes(t: string, vars: Vars, order: seq<string>)
    requires forall k :: k in order ==> k in vars && BraceFree(k)
    requires NothingHidden(t, vars, order)
    ensures RenderIn(t, vars, order) == Text(Substitute(Tokenize(t), vars, SetOf(order)))
  {
    hide Tokenize, Substitute, Text, NoneShort, NamesBraceFree, Replace;
    var ps := Tokenize(t);
    TokenizeText(t);
    if order == [] {
      assert SetOf(order) == {};
      SubstituteNothing(ps, vars);
    } else {
      var front, key := order[..|order| - 1], order[|order| - 1];
      assert order == front + [key];
      assert SetOf(order) == SetOf(front) + {key};
      RenderSubstitutes(t, vars, front);
      var qs := Substitute(ps, vars, SetOf(front));
      SubstituteNames(ps, vars, SetOf(front));
      ReplaceSubstitutes(qs, -1, key, vars[key]);
      SubstituteMore(ps, vars, SetOf(front), key);
    }
  }

  lemma FlatHidesNothingEver(t: string, vars: Vars, order: seq<string>)
    requires FlatTemplate(t) && forall k :: k in vars ==> BraceFree(vars[k])
    ensures NothingHidden(t, vars, order)
  {
    forall keys: set<string>, k | keys <= SetOf(order) && k in order
      ensures NoneShort(Substitute(Tokenize(t), vars, keys), -1, |k| + 1)
    {
      SubstituteFlat(Tokenize(t), false, vars, keys);
      FlatHidesNothing(Substitute(Tokenize(t), vars, keys), false, -1, |k| + 1);
    }
  }

  lemma FlatMeansSubstituted(t: string, vars: Vars, order: seq<string>)
    requires FlatTemplate(t) && Applicable(vars, order)
    ensures RenderIn(t, vars, order) == Substituted(t, vars)
  {
    FlatHidesNothingEver(t, vars, order);
    RenderSubstitutes(t, vars, order);
    assert SetOf(order) == vars.Keys;
  }

  // ---------- templates that are not flat ----------

  lemma {:induction false} TokenizeHidesNothing(t: string, run: int, limit: nat)
    requires run >= 0 ==> FirstBrace(t) == |t| || t[FirstBrace(t)] == '{'
    ensures NoneShort(Tokenize(t), run, limit)
    decreases |t|
  {
    if t != [] {
      var p := HeadPiece(t);
      var rest := t[|TextOf(p)|..];
      var next := if p.Token? || p.c == '}' then -1 else if p.c == '{' then 0 else if run < 0 then -1 else run + 1;
      TokenizeHidesNothing(rest, next, limit);
      assert Tokenize(t)[1..] == Tokenize(rest);
    }
  }

  lemma {:induction false} RunThroughText(s: string, ps: seq<Piece>, run: int, limit: nat)
    requires BraceFree(s) && run >= -1
    ensures NoneShort(Chars(s) + ps, run, limit) == NoneShort(ps, if run < 0 then -1 else run + |s|, limit)
  {
    if s == [] {
      assert Chars(s) + ps == ps;
    } else {
      RunThroughText(s[1..], ps, if run < 0 then -1 else run + 1, limit);
      assert (Chars(s) + ps)[1..] == Chars(s[1..]) + ps;
    }
  }

  /** Substituting long values only makes long placeholders. */
  lemma {:induction false} LongValuesHideNothing(ps: seq<Piece>, run: int, run': int, vars: Vars, keys: set<string>, limit: nat)
    requires NoneShort(ps, run, limit) && run >= -1 && (run' == run || run' >= limit)
    requires forall k :: k in keys && k in vars ==> BraceFree(vars[k]) && |vars[k]| >= limit
    ensures NoneShort(Substitute(ps, vars, keys), run', limit)
  {
    if ps != [] {
      var rest := Substitute(ps[1..], vars, keys);
      if ps[0].Token? && ps[0].name in keys && ps[0].name in vars {
        var v := vars[ps[0].name];
        LongValuesHideNothing(ps[1..], -1, if run' < 0 then -1 else run' + |v|, vars, keys, limit);
        RunThroughText(v, rest, run', limit);
      } else {
        var p := ps[0];
        var next := if p.Token? || p.c == '}' then -1 else if p.c == '{' then 0 else if run < 0 then -1 else run + 1;
        var next' := if p.Token? || p.c == '}' then -1 else if p.c == '{' then 0 else if run' < 0 then -1 else run' + 1;
        LongValuesHideNothing(ps[1..], next, next', vars, keys, limit);
        assert ([p] + rest)[1..] == rest;
      }
    }
  }

  lemma {:induction false} NoneShortWeaker(ps: seq<Piece>, run: int, limit: nat, less: nat)
    requires NoneShort(ps, run, limit) && less <= limit
    ensures NoneShort(ps, run, less)
  {
    if ps != [] {
      var p := ps[0];
      var next := if p.Token? || p.c == '}' then -1 else if p.c == '{' then 0 else if run < 0 then -1 else run + 1;
      NoneShortWeaker(ps[1..], next, limit, less);
    }
  }

  predicate NoLoneBrace(ps: seq<Piece>) {
    forall i :: 0 <= i < |ps| ==> ps[i] != Ch('{') && ps[i] != Ch('}')
  }

  /** A template that is not flat has a lone pair of braces around text and placeholders. */
  lemma {:induction false} NestedPair(ps: seq<Piece>, open: bool)
    returns (inside: bool, before: seq<Piece>, middle: seq<Piece>, after: seq<Piece>)
    requires !Flat(ps, open)
    ensures NoLoneBrace(middle)
    ensures inside ==> open && ps == middle + [Ch('}')] + after
    ensures !inside ==> ps == before + [Ch('{')] + middle + [Ch('}')] + after
  {
    var p, rest := ps[0], ps[1..];
    if p == Ch('}') && open {
      return true, [], [], rest;
    }
    inside, before, middle, after := NestedPair(rest, if p == Ch('{') then true else if p == Ch('}') then false else open);
    if !inside {
      before := [p] + before;
    } else if p == Ch('{') {
      inside, before := false, [];
    } else {
      middle := [p] + middle;
    }
  }

  /** Nested placeholders, written out: somewhere a lone '{' is followed, with only text and
      placeholders in between, by a lone '}'. */
  lemma FlatExactly(t: string)
    ensures FlatTemplate(t) <==>
      !(exists before, middle, after :: NoLoneBrace(middle) && Tokenize(t) == before + [Ch('{')] + middle + [Ch('}')] + after)
  {
    hide Tokenize;
    var ps := Tokenize(t);
    if !FlatTemplate(t) {
      var inside, before, middle, after := NestedPair(ps, false);
    }
    if before, middle, after :| NoLoneBrace(middle) && ps == before + [Ch('{')] + middle + [Ch('}')] + after {
      assert ps == before + ([Ch('{')] + (middle + ([Ch('}')] + after)));
      NotFlat(before, middle, after, false);
    }
  }

  lemma {:induction false} NotFlat(before: seq<Piece>, middle: seq<Piece>, after: seq<Piece>, open: bool)
    requires NoLoneBrace(middle)
    ensures !Flat(before + ([Ch('{')] + (middle + ([Ch('}')] + after))), open)
    decreases |before|
  {
    var tail := [Ch('{')] + (middle + ([Ch('}')] + after));
    if before == [] {
      assert before + tail == tail && tail[1..] == middle + ([Ch('}')] + after);
      ClosesOpen(middle, after);
    } else {
      assert (before + tail)[1..] == before[1..] + tail;
      var p := before[0];
      NotFlat(before[1..], middle, after, if p == Ch('{') then true else if p == Ch('}') then false else open);
    }
  }

  lemma {:induction false} ClosesOpen(middle: seq<Piece>, after: seq<Piece>)
    requires NoLoneBrace(middle)
    ensures !Flat(middle + ([Ch('}')] + after), true)
  {
    var tail := [Ch('}')] + after;
    if middle == [] {
      assert middle + tail == tail;
    } else {
      assert (middle + tail)[1..] == middle[1..] + tail;
      ClosesOpen(middle[1..], after);
    }
  }

  function Names(ps: seq<Piece>): (ns: set<string>) {
    set p | p in ps && p.Token? :: p.name
  }

  lemma {:induction false} NamesAreShort(t: string, name: string)
    requires name in Names(Tokenize(t))
    ensures |name| <= |t| && BraceFree(name)
    decreases |t|
  {
    if t != [] {
      var p := HeadPiece(t);
      var rest := t[|TextOf(p)|..];
      if p != Token(name) {
        assert name in Names(Tokenize(rest));
        NamesAreShort(rest, name);
      }
    }
  }

  lemma {:induction false} SameSubstitution(ps: seq<Piece>, vars: Vars, keys: set<string>, vars': Vars, keys': set<string>)
    requires forall n :: n in Names(ps) ==> n in keys && n in vars && n in keys' && n in vars' && vars[n] == vars'[n]
    ensures Substitute(ps, vars, keys) == Substitute(ps, vars', keys')
  {
    if ps != [] {
      assert ps[0] in ps;
      assert forall p :: p in ps[1..] ==> p in ps;
      SameSubstitution(ps[1..], vars, keys, vars', keys');
    }
  }

  lemma {:induction false} FilledIn(ps: seq<Piece>, vars: Vars, keys: set<string>)
    requires NoLoneBrace(ps)
    requires forall n :: n in Names(ps) ==> n in keys && n in vars && BraceFree(vars[n])
    ensures BraceFree(Text(Substitute(ps, vars, keys)))
  {
    if ps != [] {
      assert ps[0] in ps;
      assert forall p :: p in ps[1..] ==> p in ps;
      FilledIn(ps[1..], vars, keys);
      var q := SubstitutePiece(ps[0], vars, keys);
      TextAppend(q, Substitute(ps[1..], vars, keys));
      if ps[0].Token? {
        TextOfChars(vars[ps[0].name]);
      } else {
        TextFirst(ps[0], []);
      }
    }
  }

  lemma {:induction false} RemovalShrinks(s: string, pattern: string)
    requires pattern != []
    ensures |Replace(s, pattern, "")| <= |s|
    decreases |s|
  {
    if s != [] {
      if pattern <= s { RemovalShrinks(s[|pattern|..], pattern); } else { RemovalShrinks(s[1..], pattern); }
    }
  }

  lemma {:induction false} RemovalOfOccurrence(x: string, pattern: string, y: string)
    requires pattern != []
    ensures |Replace(x + pattern + y, pattern, "")| < |x + pattern + y|
  {
    var s := x + pattern + y;
    if pattern <= s {
      RemovalShrinks(s[|pattern|..], pattern);
    } else {
      assert x == [] ==> s == pattern + y;
      assert s[1..] == x[1..] + pattern + y;
      RemovalOfOccurrence(x[1..], pattern, y);
    }
  }

  lemma {:induction false} Enumerate(keys: set<string>) returns (order: seq<string>)
    ensures forall k :: k in order <==> k in keys
    ensures forall i, j :: 0 <= i < j < |order| ==> order[i] != order[j]
    decreases |keys|
  {
    if keys == {} {
      order := [];
    } else {
      var key :| key in keys;
      order := Enumerate(keys - {key});
      order := order + [key];
    }
  }

  function Filled(ps: seq<Piece>, vars: Vars, keys: set<string>): string {
    Text(Substitute(ps, vars, keys))
  }

  lemma FilledAppend(ps: seq<Piece>, qs: seq<Piece>, vars: Vars, keys: set<string>)
    ensures Filled(ps + qs, vars, keys) == Filled(ps, vars, keys) + Filled(qs, vars, keys)
  {
    SubstituteAppend(ps, qs, vars, keys);
    TextAppend(Substitute(ps, vars, keys), Substitute(qs, vars, keys));
  }

  lemma FilledChar(c: char, vars: Vars, keys: set<string>)
    ensures Filled([Ch(c)], vars, keys) == [c]
  {
    SubstituteOne(Ch(c), vars, keys);
    TextFirst(Ch(c), []);
    assert [Ch(c)] + [] == [Ch(c)];
  }

  /** The text of a filled-in nested pair stands between two braces. */
  lemma NestedText(before: seq<Piece>, middle: seq<Piece>, after: seq<Piece>, vars: Vars, keys: set<string>)
    ensures Filled(before + [Ch('{')] + middle + [Ch('}')] + after, vars, keys)
         == Filled(before, vars, keys) + Placeholder(Filled(middle, vars, keys)) + Filled(after, vars, keys)
  {
    hide Filled;
    FilledAppend(before + [Ch('{')] + middle + [Ch('}')], after, vars, keys);
    FilledAppend(before + [Ch('{')] + middle, [Ch('}')], vars, keys);
    FilledAppend(before + [Ch('{')], middle, vars, keys);
    FilledAppend(before, [Ch('{')], vars, keys);
    FilledChar('{', vars, keys);
    FilledChar('}', vars, keys);
    Bracketed(Filled(before, vars, keys), Filled(middle, vars, keys));
  }

  lemma Bracketed(x: string, m: string)
    ensures ((x + "{") + m) + "}" == x + Placeholder(m)
  {
  }

  lemma CharPiece(c: char, vars: Vars, keys: set<string>)
    ensures SubstitutePiece(Ch(c), vars, keys) == [Ch(c)]
  {
  }

  lemma FilledIsText(ps: seq<Piece>, vars: Vars, keys: set<string>)
    ensures Filled(ps, vars, keys) == Text(Substitute(ps, vars, keys))
  {
  }

  /** A filled-in nested pair is longer than any name of the template. */
  lemma NestedIsLong(before: seq<Piece>, middle: seq<Piece>, after: seq<Piece>, vars: Vars, keys: set<string>, limit: nat)
    requires NoneShort(Substitute(before + [Ch('{')] + middle + [Ch('}')] + after, vars, keys), -1, limit)
    requires BraceFree(Filled(middle, vars, keys))
    ensures |Filled(middle, vars, keys)| >= limit
  {
    hide NoneShort, Substitute, SubstitutePiece, Text;
    var tail := middle + [Ch('}')] + after;
    assert before + [Ch('{')] + middle + [Ch('}')] + after == before + ([Ch('{')] + tail);
    SubstituteAppend(before, [Ch('{')] + tail, vars, keys);
    SubstituteFirst(Ch('{'), tail, vars, keys);
    CharPiece('{', vars, keys);
    BehindOpen(Substitute(before, vars, keys), Substitute(tail, vars, keys), -1, limit);
    FilledAppend(middle + [Ch('}')], after, vars, keys);
    FilledAppend(middle, [Ch('}')], vars, keys);
    FilledChar('}', vars, keys);
    FilledIsText(tail, vars, keys);
    if |Filled(middle, vars, keys)| < limit {
      NoShortMatch(Substitute(tail, vars, keys), 0, limit, Filled(middle, vars, keys));
    }
  }

  lemma {:induction false} BehindOpen(ps: seq<Piece>, qs: seq<Piece>, run: int, limit: nat)
    requires NoneShort(ps + ([Ch('{')] + qs), run, limit)
    ensures NoneShort(qs, 0, limit)
  {
    if ps == [] {
      assert (ps + ([Ch('{')] + qs))[1..] == qs;
    } else {
      var p := ps[0];
      assert (ps + ([Ch('{')] + qs))[1..] == ps[1..] + ([Ch('{')] + qs);
      BehindOpen(ps[1..], qs, if p.Token? || p.c == '}' then -1 else if p.c == '{' then 0 else if run < 0 then -1 else run + 1, limit);
    }
  }

  /** Every name of the template stands for a text longer than the template. */
  function LongVars(t: string): (vars: Vars) {
    map n | n in Names(Tokenize(t)) :: seq(|t| + 1, _ => 'x')
  }

  lemma LongVarsAreLong(t: string)
    ensures var vars := LongVars(t);
      && (forall n :: n in vars <==> n in Names(Tokenize(t)))
      && (forall n :: n in vars ==> BraceFree(n) && |n| <= |t| && BraceFree(vars[n]) && |vars[n]| == |t| + 1)
  {
    forall n | n in Names(Tokenize(t))
      ensures |n| <= |t| && BraceFree(n)
    {
      NamesAreShort(t, n);
    }
  }

  /** They build a text inside a nested pair that is no name of the template. */
  lemma BuiltInside(t: string, before: seq<Piece>, middle: seq<Piece>, after: seq<Piece>)
    requires Tokenize(t) == before + [Ch('{')] + middle + [Ch('}')] + after && NoLoneBrace(middle)
    ensures var built := Filled(middle, LongVars(t), LongVars(t).Keys);
      BraceFree(built) && |built| > |t|
  {
    var ps, plain := Tokenize(t), LongVars(t);
    LongVarsAreLong(t);
    TokenizeHidesNothing(t, -1, |t| + 1);
    LongValuesHideNothing(ps, -1, -1, plain, plain.Keys, |t| + 1);
    assert forall p :: p in middle ==> p in ps;
    FilledIn(middle, plain, plain.Keys);
    NestedIsLong(before, middle, after, plain, plain.Keys, |t| + 1);
  }

  // ---------- two orders ----------

  lemma {:induction false} NoRoom(s: string, pattern: string, value: string)
    requires |pattern| > |s|
    ensures Replace(s, pattern, value) == s
  {
    if s != [] { NoRoom(s[1..], pattern, value); }
  }

  /** Meeting a key first is replacing its placeholder in the template. */
  lemma {:induction false} MeetFirst(t: string, vars: Vars, key: string, rest: seq<string>)
    requires key in vars && forall k :: k in rest ==> k in vars
    ensures RenderIn(t, vars, [key] + rest) == RenderIn(Replace(t, Placeholder(key), vars[key]), vars, rest)
  {
    hide Replace;
    var order := [key] + rest;
    if rest == [] {
      assert order[..0] == [];
    } else {
      MeetFirst(t, vars, key, rest[..|rest| - 1]);
      assert order[..|rest|] == [key] + rest[..|rest| - 1];
    }
  }

  /** The variables that show the disagreement: the long ones, and what they build inside
      a nested pair. Met first it is not there yet, met last it is. */
  lemma NestedOrdersDisagree(t: string) returns (vars: Vars, last: seq<string>, first: seq<string>)
    requires !FlatTemplate(t)
    ensures Applicable(vars, last) && Applicable(vars, first)
    ensures RenderIn(t, vars, last) != RenderIn(t, vars, first)
  {
    hide Tokenize, Names, Filled, LongVars, RenderIn, NoLoneBrace;
    var inside, before, middle, after := NestedPair(Tokenize(t), false);
    var plain := LongVars(t);
    LongVarsAreLong(t);
    BuiltInside(t, before, middle, after);
    var built := Filled(middle, plain, plain.Keys);
    NestedText(before, middle, after, plain, plain.Keys);
    var front := Enumerate(plain.Keys);
    assert SetOf(front) == plain.Keys;
    vars, last, first := plain[built := ""], front + [built], [built] + front;
    Disagreement(t, vars, front, built, Filled(before, plain, plain.Keys), Filled(after, plain, plain.Keys), plain);
  }

  lemma Disagreement(t: string, vars: Vars, front: seq<string>, built: string, x: string, y: string, plain: Vars)
    requires forall n :: n in front <==> n in Names(Tokenize(t))
    requires forall n :: n in plain <==> n in front
    requires forall n :: n in plain ==> BraceFree(n) && |n| <= |t| && BraceFree(plain[n]) && |plain[n]| == |t| + 1
    requires built !in plain && BraceFree(built) && |built| > |t| && vars == plain[built := ""]
    requires Filled(Tokenize(t), plain, SetOf(front)) == x + Placeholder(built) + y
    ensures RenderIn(t, vars, front + [built]) != RenderIn(t, vars, [built] + front)
  {
    hide Substitute, Text, NoneShort, Tokenize;
    var ps, order := Tokenize(t), front + [built];
    SameSubstitution(ps, vars, SetOf(front), plain, SetOf(front));
    TokenizeHidesNothing(t, -1, |t| + 1);
    forall keys: set<string>, k | keys <= SetOf(front) && k in front
      ensures NoneShort(Substitute(ps, vars, keys), -1, |k| + 1)
    {
      LongValuesHideNothing(ps, -1, -1, vars, keys, |t| + 1);
      NoneShortWeaker(Substitute(ps, vars, keys), -1, |t| + 1, |k| + 1);
    }
    RenderSubstitutes(t, vars, front);
    assert order[..|front|] == front && order[|front|] == built;
    RemovalOfOccurrence(x, Placeholder(built), y);
    MeetFirst(t, vars, built, front);
    NoRoom(t, Placeholder(built), "");
  }

  /** So one of the two orders is not the substitution. */
  lemma NestedDisagrees(t: string) returns (vars: Vars, order: seq<string>)
    requires !FlatTemplate(t)
    ensures Applicable(vars, order) && RenderIn(t, vars, order) != Substituted(t, vars)
  {
    hide FlatTemplate, RenderIn, Substituted;
    var last, first;
    vars, last, first := NestedOrdersDisagree(t);
    order := if RenderIn(t, vars, last) == Substituted(t, vars) then first else last;
  }

  /** When render is a simultaneous substitution: for every map without braces in keys and
      values and every iteration order of it, exactly when the template is flat. */
  lemma RenderSubstitutesExactlyWhenFlat(t: string)
    ensures FlatTemplate(t) <==>
      forall vars, order :: Applicable(vars, order) ==> RenderIn(t, vars, order) == Substituted(t, vars)
  {
    if FlatTemplate(t) {
      forall vars, order | Applicable(vars, order)
        ensures RenderIn(t, vars, order) == Substituted(t, vars)
      {
        FlatMeansSubstituted(t, vars, order);
      }
    } else {
      var vars, order := NestedDisagrees(t);
    }
  }

  /** And when the map's iteration order plays no part: for exactly the same templates. */
  lemma OrderIrrelevantExactlyWhenFlat(t: string)
    ensures FlatTemplate(t) <==>
      forall vars, o1, o2 :: Applicable(vars, o1) && Applicable(vars, o2) ==>
        RenderIn(t, vars, o1) == RenderIn(t, vars, o2)
  {
    hide FlatTemplate, RenderIn, Substituted;
    if FlatTemplate(t) {
      forall vars, o1, o2 | Applicable(vars, o1) && Applicable(vars, o2)
        ensures RenderIn(t, vars, o1) == RenderIn(t, vars, o2)
      {
        FlatMeansSubstituted(t, vars, o1);
        FlatMeansSubstituted(t, vars, o2);
      }
    } else {
      var vars, last, first := NestedOrdersDisagree(t);
    }
  }

  /** The doubled braces of the Go templates are not flat: "{{a}}" comes out as "{b}" or as
      "c", depending on the iteration order. */
  lemma DoubledBracesDependOnOrder()
    ensures !FlatTemplate("{{a}}")
    ensures var vars := map["a" := "b", "b" := "c"];
      && RenderIn("{{a}}", vars, ["a", "b"]) == "c"
      && RenderIn("{{a}}", vars, ["b", "a"]) == "{b}"
  {
    hide Replace, Flat, Tokenize;
    var t, vars: Vars := "{{a}}", map["a" := "b", "b" := "c"];
    DoubledIsNotFlat();
    InnerFirst();
    OuterFirst();
    assert Placeholder("a") == "{a}" && Placeholder("b") == "{b}";
    assert ["a", "b"][..1] == ["a"] && ["b", "a"][..1] == ["b"] && ["a"][..0] == [] && ["b"][..0] == [];
    assert RenderIn(t, vars, ["a"]) == Replace(t, "{a}", "b");
    assert RenderIn(t, vars, ["b"]) == Replace(t, "{b}", "c");
  }

  lemma DoubledIsNotFlat()
    ensures !FlatTemplate("{{a}}")
  {
    hide Tokenize;
    DoubledPieces();
    var ps := [Ch('{'), Token("a"), Ch('}')];
    assert ps[1..] == [Token("a"), Ch('}')] && ps[1..][1..] == [Ch('}')];
    assert !Flat(ps[1..][1..], true);
    assert !Flat(ps[1..], true);
  }

  lemma DoubledPieces()
    ensures Tokenize("{{a}}") == [Ch('{'), Token("a"), Ch('}')]
  {
    var t, inner := "{{a}}", "{a}}";
    assert t[1..] == inner && inner[1..] == "a}}" && inner[3..] == "}" && "}"[1..] == "";
    FirstBraceAt("a", "}");
    assert "a" + "}" + "}" == "a}}";
    assert inner[1..2] == "a";
    assert Tokenize("}") == [Ch('}')] + Tokenize("");
    assert HeadPiece(inner) == Token("a") && HeadPiece(t) == Ch('{');
  }

  lemma InnerFirst()
    ensures Replace("{{a}}", "{a}", "b") == "{b}" && Replace("{b}", "{b}", "c") == "c"
  {
    var t := "{{a}}";
    assert t[1] == '{' && !("{a}" <= t);
    assert t[1..] == "{a}}" && "{a}" <= "{a}}" && "{a}}"[3..] == "}" && "}"[1..] == "";
    assert Replace("}", "{a}", "b") == "}";
    assert Replace("{a}}", "{a}", "b") == "b" + "}";
    assert "{b}"[3..] == "";
    assert Replace("{b}", "{b}", "c") == "c" + Replace("", "{b}", "c");
  }

  lemma OuterFirst()
    ensures Replace("{{a}}", "{b}", "c") == "{{a}}"
  {
    var t, inner := "{{a}}", "{a}}";
    assert t[1..] == inner && inner[1..] == "a}}";
    assert "{b}"[1] == 'b' && t[1] == '{' && inner[1] == 'a';
    SkipsText("a}}", "", "{b}", "c");
    assert "a}}" + "" == "a}}";
  }
}
