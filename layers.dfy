/** Layer descriptors as the catalog lists them, the names derived from them
    (workspace and display name), and the search filter over the catalog. */
module Layers {
  import opened Text

  /** One entry of the catalog: a layer name, `workspace:layer` or bare `layer`. */
  datatype Layer = Layer(name: string)

  /** The group label of a layer whose name has no workspace prefix. */
  const DefaultWorkspace: string := "Default"

  /** The workspace of a layer: `name.split(':')[0]` when the name has a colon. */
  function WorkspaceOf(name: string): string
  {
    if ':' in name then Split(name, ':')[0] else DefaultWorkspace
  }

  /** The label shown in the list: `name.split(':')[1]` when the name has a colon. */
  function DisplayName(name: string): string
  {
    if ':' in name then Split(name, ':')[1] else name
  }

  /** The workspace is the text before the first colon, or "Default" when there is none. */
  lemma WorkspaceIsTextBeforeFirstColon(name: string)
    ensures ':' !in name ==> WorkspaceOf(name) == DefaultWorkspace
    ensures ':' in name ==>
      var w := WorkspaceOf(name);
      |w| < |name| && name[..|w|] == w && name[|w|] == ':' && ':' !in w
  {
    if ':' in name {
      var i := IndexOf(name, ':');
      assert WorkspaceOf(name) == name[..i];
    }
  }

  /** A colon-free prefix followed by a colon is the workspace. */
  lemma WorkspaceOfPrefixed(w: string, rest: string)
    requires ':' !in w
    ensures WorkspaceOf(w + ":" + rest) == w
  {
    var name := w + ":" + rest;
    assert name[|w|] == ':';
    var i := IndexOf(name, ':');
    assert name[..|w|] == w;
    assert WorkspaceOf(name) == name[..i];
  }

  /** The display name is the field between the first and the second colon
      (or the end of the name), or the whole name when there is no colon. */
  lemma DisplayNameIsSecondField(name: string)
    ensures ':' !in name ==> DisplayName(name) == name
    ensures ':' in name ==>
      var w, d := WorkspaceOf(name), DisplayName(name);
      var n := |w| + 1 + |d|;
      && ':' !in d
      && n <= |name|
      && name[..n] == w + ":" + d
      && (n == |name| || name[n] == ':')
  {
    if ':' in name {
      var i := IndexOf(name, ':');
      var rest := name[i + 1..];
      FieldsOfColonName(name);
      var d := Split(rest, ':')[0];
      FirstFieldOfRest(rest);
      FieldsAroundColon(name, i, d);
      assert |WorkspaceOf(name)| == i && DisplayName(name) == d;
    }
  }

  /** A name with a colon splits into the text before its first colon and the fields
      of what follows it. */
  lemma SplitAtFirstColon(name: string)
    requires ':' in name
    ensures Split(name, ':') == [name[..IndexOf(name, ':')]] + Split(name[IndexOf(name, ':') + 1..], ':')
  {
  }

  /** So the workspace is the text before the first colon, and the display name the
      first field of what follows it. */
  lemma FieldsOfColonName(name: string)
    requires ':' in name
    ensures var i := IndexOf(name, ':');
      && WorkspaceOf(name) == name[..i]
      && DisplayName(name) == Split(name[i + 1..], ':')[0]
  {
    var i := IndexOf(name, ':');
    var first, more := name[..i], Split(name[i + 1..], ':');
    SplitAtFirstColon(name);
    assert ([first] + more)[0] == first && ([first] + more)[1] == more[0];
  }

  /** The text before a colon at `i`, the colon, and a prefix `d` of what follows. */
  lemma FieldsAroundColon(name: string, i: nat, d: string)
    requires i < |name| && name[i] == ':'
    requires |d| <= |name| - i - 1 && name[i + 1..][..|d|] == d
    ensures name[..i + 1 + |d|] == name[..i] + ":" + d
    ensures i + 1 + |d| < |name| ==> name[i + 1 + |d|] == name[i + 1..][|d|]
  {
    var n := i + 1 + |d|;
    assert name[..n] == name[..i] + [':'] + name[i + 1..n];
    assert name[i + 1..n] == name[i + 1..][..|d|];
  }

  /** The first field of what follows the first colon is the display name. */
  lemma FirstFieldOfRest(rest: string)
    ensures var d := Split(rest, ':')[0];
      && ':' !in d
      && |d| <= |rest|
      && rest[..|d|] == d
      && (|d| == |rest| || rest[|d|] == ':')
  {
    SplitFieldsFree(rest, ':');
    assert Split(rest, ':')[0] in Split(rest, ':');
  }

  /** A name with exactly one colon is its workspace, a colon and its display name. */
  lemma NameFromWorkspaceAndDisplayName(name: string)
    requires ':' in name
    requires ':' !in name[IndexOf(name, ':') + 1..]
    ensures name == WorkspaceOf(name) + ":" + DisplayName(name)
  {
    var i := IndexOf(name, ':');
    assert Split(name, ':') == [name[..i], name[i + 1..]];
    assert name == name[..i] + [':'] + name[i + 1..];
  }

  /** The search test: the lower-cased name includes the lower-cased term. */
  predicate Matches(layer: Layer, term: string)
  {
    Includes(Lower(layer.name), Lower(term))
  }

  /** `s.filter(keep)`: the layers of `s` that `keep` accepts, in input order. */
  function Select(s: seq<Layer>, keep: Layer -> bool): seq<Layer>
  {
    if s == [] then []
    else (if keep(s[0]) then [s[0]] else []) + Select(s[1..], keep)
  }

  /** `a` can be obtained from `b` by deleting elements: `a` keeps `b`'s order. */
  ghost predicate IsSubsequence(a: seq<Layer>, b: seq<Layer>)
    decreases |b|
  {
    if a == [] then true
    else if b == [] then false
    else (a[0] == b[0] && IsSubsequence(a[1..], b[1..])) || IsSubsequence(a, b[1..])
  }

  /** Putting a layer in front puts it in front of the selection when it is accepted. */
  lemma SelectCons(x: Layer, s: seq<Layer>, keep: Layer -> bool)
    ensures Select([x] + s, keep) == (if keep(x) then [x] else []) + Select(s, keep)
  {
    var xs := [x] + s;
    assert xs[0] == x && xs[1..] == s;
  }

  /** Selecting from a concatenation concatenates the selections. */
  lemma {:induction false} SelectAppend(a: seq<Layer>, b: seq<Layer>, keep: Layer -> bool)
    ensures Select(a + b, keep) == Select(a, keep) + Select(b, keep)
  {
    if a == [] {
      assert a + b == b;
    } else {
      var x, t := a[0], a[1..];
      var h := if keep(x) then [x] else [];
      calc {
        Select(a + b, keep);
        == { assert a + b == [x] + (t + b); }
        Select([x] + (t + b), keep);
        == { SelectCons(x, t + b, keep); }
        h + Select(t + b, keep);
        == { SelectAppend(t, b, keep); }
        h + (Select(t, keep) + Select(b, keep));
        ==
        (h + Select(t, keep)) + Select(b, keep);
        == { SelectCons(x, t, keep); assert a == [x] + t; }
        Select(a, keep) + Select(b, keep);
      }
    }
  }

  /** The selection is a subsequence of the input: it keeps input order. */
  lemma {:induction false} SelectKeepsOrder(s: seq<Layer>, keep: Layer -> bool)
    ensures IsSubsequence(Select(s, keep), s)
  {
    if s != [] {
      SelectKeepsOrder(s[1..], keep);
      var r := Select(s, keep);
      if keep(s[0]) {
        assert r[0] == s[0] && r[1..] == Select(s[1..], keep);
      } else {
        assert r == Select(s[1..], keep);
      }
    }
  }

  /** Every accepted layer is kept as often as it occurs, and nothing else is. */
  lemma {:induction false} SelectCount(s: seq<Layer>, keep: Layer -> bool)
    ensures forall x :: multiset(Select(s, keep))[x] == (if keep(x) then multiset(s)[x] else 0)
  {
    if s != [] {
      SelectCount(s[1..], keep);
      assert s == [s[0]] + s[1..];
    }
  }

  /** A layer is selected exactly when it is in the input and accepted. */
  lemma SelectMembership(s: seq<Layer>, keep: Layer -> bool, x: Layer)
    ensures x in Select(s, keep) <==> x in s && keep(x)
  {
    SelectCount(s, keep);
    assert x in Select(s, keep) <==> multiset(Select(s, keep))[x] > 0;
  }

  /** When `keep` accepts every layer of `s`, the selection is `s` itself. */
  lemma {:induction false} SelectAll(s: seq<Layer>, keep: Layer -> bool)
    requires forall x :: x in s ==> keep(x)
    ensures Select(s, keep) == s
  {
    if s != [] {
      SelectAll(s[1..], keep);
      assert s[0] in s;
      assert s == [s[0]] + s[1..];
    }
  }

  /** Two tests that agree on every layer select the same layers. */
  lemma {:induction false} SelectSameTest(s: seq<Layer>, p: Layer -> bool, q: Layer -> bool)
    requires forall x :: p(x) == q(x)
    ensures Select(s, p) == Select(s, q)
  {
    if s != [] {
      SelectSameTest(s[1..], p, q);
    }
  }

  /** Selecting twice with the same test is selecting once. */
  lemma SelectIdempotent(s: seq<Layer>, keep: Layer -> bool)
    ensures Select(Select(s, keep), keep) == Select(s, keep)
  {
    forall x | x in Select(s, keep) ensures keep(x) {
      SelectMembership(s, keep, x);
    }
    SelectAll(Select(s, keep), keep);
  }

  /** `allLayers.filter(layer => layer.name.toLowerCase().includes(term))`. */
  function FilterLayers(layers: seq<Layer>, term: string): seq<Layer>
  {
    Select(layers, (x: Layer) => Matches(x, term))
  }

  /** The filtered list is a subsequence of the catalog: it keeps catalog order. */
  lemma FilterKeepsOrder(layers: seq<Layer>, term: string)
    ensures IsSubsequence(FilterLayers(layers, term), layers)
  {
    SelectKeepsOrder(layers, (x: Layer) => Matches(x, term));
  }

  /** Every matching layer of the catalog is kept as often as it occurs, and nothing else is. */
  lemma FilterKeepsExactlyMatches(layers: seq<Layer>, term: string)
    ensures forall x :: multiset(FilterLayers(layers, term))[x]
                        == (if Matches(x, term) then multiset(layers)[x] else 0)
  {
    SelectCount(layers, (x: Layer) => Matches(x, term));
  }

  /** A layer is in the filtered list exactly when it is in the catalog and matches. */
  lemma FilterMembership(layers: seq<Layer>, term: string, x: Layer)
    ensures x in FilterLayers(layers, term) <==> x in layers && Matches(x, term)
  {
    SelectMembership(layers, (y: Layer) => Matches(y, term), x);
  }

  /** An empty search box keeps every layer, in catalog order. */
  lemma FilterEmptyTermKeepsAll(layers: seq<Layer>)
    ensures FilterLayers(layers, "") == layers
  {
    forall x: Layer ensures Matches(x, "") {
      IncludesEmpty(Lower(x.name));
    }
    SelectAll(layers, (x: Layer) => Matches(x, ""));
  }

  /** The test ignores the case of the term: lower-casing it first changes nothing. */
  lemma FilterIgnoresTermCase(layers: seq<Layer>, term: string)
    ensures FilterLayers(layers, Lower(term)) == FilterLayers(layers, term)
  {
    LowerIdempotent(term);
    SelectSameTest(layers, (x: Layer) => Matches(x, Lower(term)), (x: Layer) => Matches(x, term));
  }

  /** Filtering twice with the same term is filtering once. */
  lemma FilterIdempotent(layers: seq<Layer>, term: string)
    ensures FilterLayers(FilterLayers(layers, term), term) == FilterLayers(layers, term)
  {
    SelectIdempotent(layers, (x: Layer) => Matches(x, term));
  }
}
