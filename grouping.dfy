/** `groupByWorkspace`: the buckets the layer list is drawn in, one per workspace.
    The object the source builds is a map from workspace to bucket together with
    the order its keys were created in. The list shows the blocks in that order
    unless a workspace name is an array index (see README, Left out). */
module Grouping {
  import opened Layers

  /** The workspaces of `s`, each once, in order of first appearance. */
  function WorkspaceOrder(s: seq<Layer>): seq<string>
  {
    if s == [] then []
    else
      var order := WorkspaceOrder(s[..|s| - 1]);
      var w := WorkspaceOf(s[|s| - 1].name);
      if w in order then order else order + [w]
  }

  /** The layers of `s` in workspace `w`, in input order. */
  function Members(s: seq<Layer>, w: string): seq<Layer>
  {
    Select(s, (x: Layer) => WorkspaceOf(x.name) == w)
  }

  /** Some layer of `s` belongs to workspace `w`. */
  ghost predicate HasWorkspace(s: seq<Layer>, w: string)
  {
    exists x :: x in s && WorkspaceOf(x.name) == w
  }

  ghost predicate Distinct(ws: seq<string>)
  {
    forall i, j :: 0 <= i < j < |ws| ==> ws[i] != ws[j]
  }

  /** The bucket of a concatenation is the concatenation of the buckets. */
  lemma MembersAppend(a: seq<Layer>, b: seq<Layer>, w: string)
    ensures Members(a + b, w) == Members(a, w) + Members(b, w)
  {
    SelectAppend(a, b, (x: Layer) => WorkspaceOf(x.name) == w);
  }

  /** Appending one layer appends it to its own bucket and to no other. */
  lemma MembersSnoc(s: seq<Layer>, x: Layer, w: string)
    ensures Members(s + [x], w) == Members(s, w) + (if WorkspaceOf(x.name) == w then [x] else [])
  {
    MembersAppend(s, [x], w);
    SelectCons(x, [], (y: Layer) => WorkspaceOf(y.name) == w);
    assert [x] + [] == [x];
  }

  /** A bucket holds exactly the layers of its workspace, as often as they occur. */
  lemma MembersAreExactlyTheWorkspace(s: seq<Layer>, w: string)
    ensures forall x :: multiset(Members(s, w))[x]
                        == (if WorkspaceOf(x.name) == w then multiset(s)[x] else 0)
  {
    SelectCount(s, (x: Layer) => WorkspaceOf(x.name) == w);
  }

  /** A bucket keeps the input order. */
  lemma MembersKeepOrder(s: seq<Layer>, w: string)
    ensures IsSubsequence(Members(s, w), s)
  {
    SelectKeepsOrder(s, (x: Layer) => WorkspaceOf(x.name) == w);
  }

  /** A workspace is listed exactly when some layer belongs to it, and no workspace twice. */
  lemma {:induction false} WorkspaceOrderSpec(s: seq<Layer>)
    ensures Distinct(WorkspaceOrder(s))
    ensures forall w :: w in WorkspaceOrder(s) <==> HasWorkspace(s, w)
  {
    if s != [] {
      var p := s[..|s| - 1];
      WorkspaceOrderSpec(p);
      assert s == p + [s[|s| - 1]];
      forall w ensures HasWorkspace(s, w) <==> HasWorkspace(p, w) || w == WorkspaceOf(s[|s| - 1].name)
      {
        if HasWorkspace(s, w) {
          var x :| x in s && WorkspaceOf(x.name) == w;
          if x != s[|s| - 1] {
            assert x in p;
          }
        }
      }
    }
  }

  /** A workspace that is not listed has an empty bucket. */
  lemma MembersOfUnlisted(s: seq<Layer>, w: string)
    requires w !in WorkspaceOrder(s)
    ensures Members(s, w) == []
  {
    WorkspaceOrderSpec(s);
    MembersAreExactlyTheWorkspace(s, w);
    forall x ensures multiset(Members(s, w))[x] == 0 {
      if x in s {
        assert WorkspaceOf(x.name) != w;
      }
    }
    assert multiset(Members(s, w)) == multiset{};
  }

  /** Each layer lies in the bucket of its own workspace, which is listed, and in no other. */
  lemma EachLayerInExactlyOneGroup(s: seq<Layer>, x: Layer)
    requires x in s
    ensures WorkspaceOf(x.name) in WorkspaceOrder(s)
    ensures x in Members(s, WorkspaceOf(x.name))
    ensures forall w :: x in Members(s, w) ==> w == WorkspaceOf(x.name)
  {
    WorkspaceOrderSpec(s);
    MembersAreExactlyTheWorkspace(s, WorkspaceOf(x.name));
    assert multiset(Members(s, WorkspaceOf(x.name)))[x] > 0;
    forall w | x in Members(s, w) ensures w == WorkspaceOf(x.name) {
      MembersAreExactlyTheWorkspace(s, w);
      assert multiset(Members(s, w))[x] > 0;
    }
  }

  /** The workspaces are listed in order of first appearance: every layer of a later
      listed workspace comes after some layer of an earlier listed one. */
  lemma {:induction false} WorkspaceOrderIsFirstAppearance(s: seq<Layer>, i: nat, j: nat, k: nat)
    requires i < j < |WorkspaceOrder(s)|
    requires k < |s| && WorkspaceOf(s[k].name) == WorkspaceOrder(s)[j]
    ensures exists k' :: 0 <= k' < k && WorkspaceOf(s[k'].name) == WorkspaceOrder(s)[i]
    decreases |s|
  {
    var p := s[..|s| - 1];
    var order, before := WorkspaceOrder(s), WorkspaceOrder(p);
    OrderOfPrefix(s);
    var m := k;
    if k == |p| {
      if j < |before| {
        m := FirstLayerOf(p, order[j]);
      } else {
        m := FirstLayerOf(p, order[i]);
        assert s[m] == p[m];
        return;
      }
    } else {
      assert p[k] == s[k];
      ListedWorkspace(p, k);
    }
    WorkspaceOrderIsFirstAppearance(p, i, j, m);
    var k' :| 0 <= k' < m && WorkspaceOf(p[k'].name) == before[i];
    assert s[k'] == p[k'];
  }

  /** The order for a list extends the order for the list without its last layer by at
      most the last layer's workspace, which is then new. */
  lemma OrderOfPrefix(s: seq<Layer>)
    requires s != []
    ensures var order, before := WorkspaceOrder(s), WorkspaceOrder(s[..|s| - 1]);
      && |before| <= |order| <= |before| + 1
      && order[..|before|] == before
      && (|order| > |before| ==> WorkspaceOf(s[|s| - 1].name) !in before)
  {
    var p, x := s[..|s| - 1], s[|s| - 1];
    assert s == p + [x];
    WorkspaceOrderSnoc(p, x);
  }

  /** The workspace of every layer is listed. */
  lemma ListedWorkspace(s: seq<Layer>, k: nat)
    requires k < |s|
    ensures WorkspaceOf(s[k].name) in WorkspaceOrder(s)
  {
    WorkspaceOrderSpec(s);
    assert s[k] in s;
  }

  /** A listed workspace has a layer. */
  lemma FirstLayerOf(s: seq<Layer>, w: string) returns (m: nat)
    requires w in WorkspaceOrder(s)
    ensures m < |s| && WorkspaceOf(s[m].name) == w
  {
    WorkspaceOrderSpec(s);
    var y :| y in s && WorkspaceOf(y.name) == w;
    m :| m < |s| && s[m] == y;
  }

  /** The buckets of `ws`, one after the other. */
  function Flatten(s: seq<Layer>, ws: seq<string>): seq<Layer>
  {
    if ws == [] then [] else Members(s, ws[0]) + Flatten(s, ws[1..])
  }

  /** The sum of the bucket sizes of `ws`. */
  function TotalSize(s: seq<Layer>, ws: seq<string>): nat
  {
    if ws == [] then 0 else |Members(s, ws[0])| + TotalSize(s, ws[1..])
  }

  lemma {:induction false} FlattenSnoc(s: seq<Layer>, ws: seq<string>, w: string)
    ensures Flatten(s, ws + [w]) == Flatten(s, ws) + Members(s, w)
  {
    if ws == [] {
      assert Flatten(s, [w]) == Members(s, w) + Flatten(s, []);
    } else {
      assert (ws + [w])[1..] == ws[1..] + [w];
      FlattenSnoc(s, ws[1..], w);
    }
  }

  /** Dropping the first workspace of a list without repeats leaves one without repeats. */
  lemma DistinctTail(ws: seq<string>)
    requires ws != [] && Distinct(ws)
    ensures Distinct(ws[1..]) && ws[0] !in ws[1..]
  {
    forall i, j | 0 <= i < j < |ws[1..]| ensures ws[1..][i] != ws[1..][j] {
      assert ws[1..][i] == ws[i + 1] && ws[1..][j] == ws[j + 1];
    }
  }

  /** Inserting `own` after `a` and growing the rest by `more` grows the whole by both. */
  lemma MultisetOfSplice(a: seq<Layer>, own: seq<Layer>, b: seq<Layer>, b': seq<Layer>, more: multiset<Layer>)
    requires multiset(b') == multiset(b) + more
    ensures multiset(a + own + b') == multiset(a + b) + multiset(own) + more
  {
  }

  /** Appending a layer adds it to the buckets of `ws` once if its workspace is listed
      there, and not at all otherwise. */
  lemma {:induction false} FlattenAddLayer(s: seq<Layer>, x: Layer, ws: seq<string>)
    requires Distinct(ws)
    ensures multiset(Flatten(s + [x], ws))
         == multiset(Flatten(s, ws)) + (if WorkspaceOf(x.name) in ws then multiset{x} else multiset{})
  {
    if ws != [] {
      var w0, rest := ws[0], ws[1..];
      var k := WorkspaceOf(x.name);
      DistinctTail(ws);
      FlattenAddLayer(s, x, rest);
      MembersSnoc(s, x, w0);
      var own := if k == w0 then [x] else [];
      var more := if k in rest then multiset{x} else multiset{};
      assert Flatten(s + [x], ws) == Members(s, w0) + own + Flatten(s + [x], rest);
      assert Flatten(s, ws) == Members(s, w0) + Flatten(s, rest);
      MultisetOfSplice(Members(s, w0), own, Flatten(s, rest), Flatten(s + [x], rest), more);
      assert k in ws <==> k == w0 || k in rest;
    }
  }

  /** Appending a layer to a list whose buckets hold exactly its layers keeps that so. */
  lemma PartitionSnoc(p: seq<Layer>, x: Layer)
    requires multiset(Flatten(p, WorkspaceOrder(p))) == multiset(p)
    ensures multiset(Flatten(p + [x], WorkspaceOrder(p + [x]))) == multiset(p + [x])
  {
    var order := WorkspaceOrder(p);
    var w := WorkspaceOf(x.name);
    WorkspaceOrderSpec(p);
    WorkspaceOrderSnoc(p, x);
    FlattenAddLayer(p, x, order);
    assert multiset(p + [x]) == multiset(p) + multiset{x};
    if w !in order {
      FlattenSnoc(p + [x], order, w);
      MembersSnoc(p, x, w);
      MembersOfUnlisted(p, w);
    }
  }

  /** The buckets together hold exactly the input layers: grouping is a partition. */
  lemma {:induction false} GroupsPartitionInput(s: seq<Layer>)
    ensures multiset(Flatten(s, WorkspaceOrder(s))) == multiset(s)
  {
    if s != [] {
      var p, x := s[..|s| - 1], s[|s| - 1];
      assert s == p + [x];
      GroupsPartitionInput(p);
      PartitionSnoc(p, x);
    }
  }

  lemma {:induction false} TotalSizeIsFlattenLength(s: seq<Layer>, ws: seq<string>)
    ensures TotalSize(s, ws) == |Flatten(s, ws)|
  {
    if ws != [] {
      TotalSizeIsFlattenLength(s, ws[1..]);
    }
  }

  /** The group sizes add up to the number of input layers. */
  lemma GroupSizesSumToLength(s: seq<Layer>)
    ensures TotalSize(s, WorkspaceOrder(s)) == |s|
  {
    GroupsPartitionInput(s);
    TotalSizeIsFlattenLength(s, WorkspaceOrder(s));
    assert |multiset(Flatten(s, WorkspaceOrder(s)))| == |multiset(s)|;
  }

  /** The loop state of `groupByWorkspace` after a prefix `p`: the workspaces seen so
      far, in order, and the bucket of each. */
  ghost predicate GroupedUpTo(p: seq<Layer>, order: seq<string>, groups: map<string, seq<Layer>>)
  {
    && order == WorkspaceOrder(p)
    && (forall w :: w in groups <==> w in order)
    && (forall w :: w in groups ==> groups[w] == Members(p, w))
  }

  /** Appending a layer lists its workspace at the end when it is new, and changes
      nothing in the order otherwise. */
  lemma WorkspaceOrderSnoc(p: seq<Layer>, x: Layer)
    ensures var w := WorkspaceOf(x.name);
      WorkspaceOrder(p + [x]) == if w in WorkspaceOrder(p) then WorkspaceOrder(p) else WorkspaceOrder(p) + [w]
  {
    assert (p + [x])[..|p|] == p;
  }

  /** Pushing `x` onto its (possibly new) bucket gives the buckets of `p + [x]`. */
  lemma BucketsSnoc(p: seq<Layer>, x: Layer, order: seq<string>, groups: map<string, seq<Layer>>)
    requires GroupedUpTo(p, order, groups)
    ensures var w := WorkspaceOf(x.name);
      var g := if w in groups then groups else groups[w := []];
      var g' := g[w := g[w] + [x]];
      forall v :: v in g' ==> g'[v] == Members(p + [x], v)
  {
    var w := WorkspaceOf(x.name);
    if w !in groups {
      MembersOfUnlisted(p, w);
    }
    forall v ensures Members(p + [x], v) == Members(p, v) + (if w == v then [x] else []) {
      MembersSnoc(p, x, v);
    }
  }

  /** One step of the loop on layer `s[i]`: create its bucket and list its workspace
      when the workspace is new, then push the layer onto the bucket. */
  lemma GroupStep(s: seq<Layer>, i: nat, order: seq<string>, groups: map<string, seq<Layer>>)
    requires i < |s|
    requires GroupedUpTo(s[..i], order, groups)
    ensures var w := WorkspaceOf(s[i].name);
      var g := if w in groups then groups else groups[w := []];
      var o := if w in groups then order else order + [w];
      GroupedUpTo(s[..i + 1], o, g[w := g[w] + [s[i]]])
  {
    var p, x := s[..i], s[i];
    assert s[..i + 1] == p + [x];
    WorkspaceOrderSnoc(p, x);
    BucketsSnoc(p, x, order, groups);
  }

  /** `groupByWorkspace(layers)`: one pass over the layers, creating a bucket the first
      time a workspace is seen and pushing each layer onto its bucket. */
  method GroupByWorkspace(layers: seq<Layer>) returns (order: seq<string>, groups: map<string, seq<Layer>>)
    ensures order == WorkspaceOrder(layers)
    ensures forall w :: w in groups <==> w in order
    ensures forall w :: w in groups ==> groups[w] == Members(layers, w)
  {
    order, groups := [], map[];
    var i := 0;
    while i < |layers|
      invariant 0 <= i <= |layers|
      invariant GroupedUpTo(layers[..i], order, groups)
    {
      var layer := layers[i];
      var workspace := WorkspaceOf(layer.name);
      GroupStep(layers, i, order, groups);
      if workspace !in groups {
        groups := groups[workspace := []];
        order := order + [workspace];
      }
      groups := groups[workspace := groups[workspace] + [layer]];
      i := i + 1;
    }
    assert layers[..i] == layers;
  }

  /** Property names every plain JavaScript object inherits from `Object.prototype`. */
  const InheritedKeys: set<string> := {
    "__proto__", "constructor", "hasOwnProperty", "isPrototypeOf", "propertyIsEnumerable",
    "toLocaleString", "toString", "valueOf",
    "__defineGetter__", "__defineSetter__", "__lookupGetter__", "__lookupSetter__"
  }

  datatype Outcome =
    | Grouped(order: seq<string>, groups: map<string, seq<Layer>>)
    | TypeError(workspace: string)

  /** `groupByWorkspace` as written, on the plain object `{}`: for an inherited name
      `groups[workspace]` is already truthy, so no bucket is created, and the
      following `groups[workspace].push(layer)` throws a TypeError. */
  function GroupAsWritten(s: seq<Layer>): Outcome
  {
    if s == [] then Grouped([], map[])
    else
      match GroupAsWritten(s[..|s| - 1])
      case TypeError(w) => TypeError(w)
      case Grouped(order, groups) =>
        var x := s[|s| - 1];
        var w := WorkspaceOf(x.name);
        if w in groups then Grouped(order, groups[w := groups[w] + [x]])
        else if w in InheritedKeys then TypeError(w)
        else Grouped(order + [w], groups[w := [x]])
  }

  /** The code as written never creates a bucket under an inherited name. */
  lemma {:induction false} GroupAsWrittenOwnKeys(s: seq<Layer>)
    ensures GroupAsWritten(s).Grouped? ==> forall w :: w in GroupAsWritten(s).groups ==> w !in InheritedKeys
  {
    if s != [] {
      GroupAsWrittenOwnKeys(s[..|s| - 1]);
    }
  }

  /** The code as written throws exactly when some layer's workspace is an inherited name. */
  lemma {:induction false} GroupAsWrittenThrowsIff(s: seq<Layer>)
    ensures GroupAsWritten(s).TypeError? <==> exists x :: x in s && WorkspaceOf(x.name) in InheritedKeys
  {
    if exists x :: x in s && WorkspaceOf(x.name) in InheritedKeys {
      ThrowsOnInheritedName(s);
    } else {
      GroupAsWrittenAgreesOtherwise(s);
    }
  }

  lemma {:induction false} ThrowsOnInheritedName(s: seq<Layer>)
    requires exists x :: x in s && WorkspaceOf(x.name) in InheritedKeys
    ensures GroupAsWritten(s).TypeError?
  {
    var p, last := s[..|s| - 1], s[|s| - 1];
    assert s == p + [last];
    var x :| x in s && WorkspaceOf(x.name) in InheritedKeys;
    if x in p {
      ThrowsOnInheritedName(p);
    } else {
      assert x == last;
      GroupAsWrittenOwnKeys(p);
    }
  }

  /** For instance, a catalog whose first layer is `toString:roads`. */
  lemma GroupAsWrittenExample(rest: seq<Layer>)
    ensures GroupAsWritten([Layer("toString:roads")] + rest).TypeError?
  {
    assert "toString:roads" == "toString" + ":" + "roads";
    WorkspaceOfPrefixed("toString", "roads");
    ThrowsOnFirstLayer(Layer("toString:roads"), rest);
  }

  lemma ThrowsOnFirstLayer(x: Layer, rest: seq<Layer>)
    requires WorkspaceOf(x.name) in InheritedKeys
    ensures GroupAsWritten([x] + rest).TypeError?
  {
    assert x in [x] + rest;
    ThrowsOnInheritedName([x] + rest);
  }

  /** Where no workspace is an inherited name, the code as written computes exactly
      the buckets of `GroupByWorkspace`. */
  lemma {:induction false} GroupAsWrittenAgreesOtherwise(s: seq<Layer>)
    requires forall x :: x in s ==> WorkspaceOf(x.name) !in InheritedKeys
    ensures GroupAsWritten(s).Grouped?
    ensures GroupAsWritten(s).order == WorkspaceOrder(s)
    ensures forall w :: w in GroupAsWritten(s).groups <==> w in WorkspaceOrder(s)
    ensures forall w :: w in GroupAsWritten(s).groups ==> GroupAsWritten(s).groups[w] == Members(s, w)
  {
    if s != [] {
      var n := |s| - 1;
      var p, x := s[..n], s[n];
      assert forall y :: y in p ==> y in s;
      GroupAsWrittenAgreesOtherwise(p);
      var order, groups := GroupAsWritten(p).order, GroupAsWritten(p).groups;
      GroupStep(s, n, order, groups);
      GroupAsWrittenStep(s);
      var w := WorkspaceOf(x.name);
      if w !in groups {
        assert [] + [x] == [x];
        UpdateTwice(groups, w, [], [x]);
      }
      assert s[..n + 1] == s;
      assert GroupedUpTo(s, GroupAsWritten(s).order, GroupAsWritten(s).groups);
    }
  }

  /** One more layer whose workspace is not inherited: the code as written pushes it
      onto its bucket, or creates the bucket and lists the workspace when it is new. */
  lemma GroupAsWrittenStep(s: seq<Layer>)
    requires s != [] && GroupAsWritten(s[..|s| - 1]).Grouped?
    requires WorkspaceOf(s[|s| - 1].name) !in InheritedKeys
    ensures var order, groups := GroupAsWritten(s[..|s| - 1]).order, GroupAsWritten(s[..|s| - 1]).groups;
      var w, x := WorkspaceOf(s[|s| - 1].name), s[|s| - 1];
      && (w in groups ==> GroupAsWritten(s) == Grouped(order, groups[w := groups[w] + [x]]))
      && (w !in groups ==> GroupAsWritten(s) == Grouped(order + [w], groups[w := [x]]))
  {
  }

  /** Setting a key twice keeps the second value. */
  lemma UpdateTwice(m: map<string, seq<Layer>>, k: string, a: seq<Layer>, b: seq<Layer>)
    ensures m[k := a][k := b] == m[k := b]
  {
  }
}
