/** `sortLayers` and `applyActiveFirst`: the orderings the layer list can be shown in.
    `Array.prototype.sort` is stable, so a sort by a comparator is the stable
    insertion sort `SortBy` below, over one of the three comparators the list uses. */
module Sorting {
  import opened Layers

  /** Name order standing in for `localeCompare`: lexicographic on character codes. */
  predicate NameLe(a: string, b: string)
  {
    if a == [] then true
    else if b == [] then false
    else if a[0] != b[0] then a[0] < b[0]
    else NameLe(a[1..], b[1..])
  }

  lemma {:induction false} NameLeTotal(a: string, b: string)
    ensures NameLe(a, b) || NameLe(b, a)
  {
    if a != [] && b != [] && a[0] == b[0] {
      NameLeTotal(a[1..], b[1..]);
    }
  }

  lemma {:induction false} NameLeTransitive(a: string, b: string, c: string)
    requires NameLe(a, b) && NameLe(b, c)
    ensures NameLe(a, c)
  {
    if a != [] && b != [] && c != [] && a[0] == b[0] == c[0] {
      NameLeTransitive(a[1..], b[1..], c[1..]);
    }
  }

  lemma {:induction false} NameLeAntisymmetric(a: string, b: string)
    requires NameLe(a, b) && NameLe(b, a)
    ensures a == b
  {
    if a != [] && b != [] {
      NameLeAntisymmetric(a[1..], b[1..]);
      assert a == [a[0]] + a[1..] && b == [b[0]] + b[1..];
    }
  }

  /** The comparators handed to `Array.prototype.sort`. */
  datatype Order =
    | ByNameAsc             // (a, b) => a.name.localeCompare(b.name)
    | ByNameDesc            // (a, b) => b.name.localeCompare(a.name)
    | ByActive(active: set<string>)  // active layers first, others tie

  /** `cmp(a, b) <= 0`: `a` may stay in front of `b`. */
  predicate Leq(o: Order, a: Layer, b: Layer)
  {
    match o
    case ByNameAsc => NameLe(a.name, b.name)
    case ByNameDesc => NameLe(b.name, a.name)
    case ByActive(active) => a.name in active || b.name !in active
  }

  lemma LeqTotal(o: Order, a: Layer, b: Layer)
    ensures Leq(o, a, b) || Leq(o, b, a)
  {
    NameLeTotal(a.name, b.name);
  }

  lemma LeqTransitive(o: Order, a: Layer, b: Layer, c: Layer)
    requires Leq(o, a, b) && Leq(o, b, c)
    ensures Leq(o, a, c)
  {
    match o
    case ByNameAsc => NameLeTransitive(a.name, b.name, c.name);
    case ByNameDesc => NameLeTransitive(c.name, b.name, a.name);
    case ByActive(_) =>
  }

  /** Every element is `Leq` every later element. */
  predicate Sorted(o: Order, s: seq<Layer>)
  {
    forall i, j :: 0 <= i < j < |s| ==> Leq(o, s[i], s[j])
  }

  /** Inserts `x` in front of the first element it may precede. */
  function Insert(o: Order, x: Layer, s: seq<Layer>): seq<Layer>
  {
    if s == [] || Leq(o, x, s[0]) then [x] + s else [s[0]] + Insert(o, x, s[1..])
  }

  /** Stable sort: earlier elements end up in front of later elements they tie with. */
  function SortBy(o: Order, s: seq<Layer>): seq<Layer>
  {
    if s == [] then [] else Insert(o, s[0], SortBy(o, s[1..]))
  }

  lemma {:induction false} InsertPermutes(o: Order, x: Layer, s: seq<Layer>)
    ensures multiset(Insert(o, x, s)) == multiset{x} + multiset(s)
  {
    if s != [] && !Leq(o, x, s[0]) {
      InsertPermutes(o, x, s[1..]);
      assert s == [s[0]] + s[1..];
    }
  }

  /** Putting in front of a sorted list an element `Leq` all of it keeps it sorted. */
  lemma ConsSorted(o: Order, h: Layer, t: seq<Layer>)
    requires Sorted(o, t)
    requires forall y :: y in t ==> Leq(o, h, y)
    ensures Sorted(o, [h] + t)
  {
    var r := [h] + t;
    forall i, j | 0 <= i < j < |r| ensures Leq(o, r[i], r[j]) {
      assert r[j] == t[j - 1];
      if i > 0 {
        assert r[i] == t[i - 1];
      }
    }
  }

  /** Every element inserted into a list, or already in it, is in the result. */
  lemma InsertMembers(o: Order, x: Layer, s: seq<Layer>, y: Layer)
    requires y in Insert(o, x, s)
    ensures y == x || y in s
  {
    InsertPermutes(o, x, s);
    assert y in multiset(Insert(o, x, s));
  }

  lemma {:induction false} InsertSorted(o: Order, x: Layer, s: seq<Layer>)
    requires Sorted(o, s)
    ensures Sorted(o, Insert(o, x, s))
  {
    if s == [] {
    } else if Leq(o, x, s[0]) {
      forall y | y in s ensures Leq(o, x, y) {
        HeadIsLeast(o, s, y);
        LeqTransitive(o, x, s[0], y);
      }
      ConsSorted(o, x, s);
    } else {
      var h, t := s[0], s[1..];
      LeqTotal(o, x, h);
      SortedTail(o, s);
      InsertSorted(o, x, t);
      forall y | y in Insert(o, x, t) ensures Leq(o, h, y) {
        InsertMembers(o, x, t, y);
        if y != x {
          HeadIsLeast(o, s, y);
        }
      }
      ConsSorted(o, h, Insert(o, x, t));
    }
  }

  /** A sort returns a permutation of its input ... */
  lemma {:induction false} SortByPermutes(o: Order, s: seq<Layer>)
    ensures multiset(SortBy(o, s)) == multiset(s)
  {
    if s != [] {
      SortByPermutes(o, s[1..]);
      InsertPermutes(o, s[0], SortBy(o, s[1..]));
      assert s == [s[0]] + s[1..];
    }
  }

  /** ... that is sorted by its comparator. */
  lemma {:induction false} SortBySorts(o: Order, s: seq<Layer>)
    ensures Sorted(o, SortBy(o, s))
  {
    if s != [] {
      SortBySorts(o, s[1..]);
      InsertSorted(o, s[0], SortBy(o, s[1..]));
    }
  }

  /** Sorting an already sorted list changes nothing. */
  lemma {:induction false} SortBySortedIsIdentity(o: Order, s: seq<Layer>)
    requires Sorted(o, s)
    ensures SortBy(o, s) == s
  {
    if s != [] {
      SortedTail(o, s);
      SortBySortedIsIdentity(o, s[1..]);
      assert s == [s[0]] + s[1..];
    }
  }

  /** Sorting is idempotent. */
  lemma SortByIdempotent(o: Order, s: seq<Layer>)
    ensures SortBy(o, SortBy(o, s)) == SortBy(o, s)
  {
    SortBySorts(o, s);
    SortBySortedIsIdentity(o, SortBy(o, s));
  }

  lemma SortedTail(o: Order, s: seq<Layer>)
    requires s != [] && Sorted(o, s)
    ensures Sorted(o, s[1..])
  {
    forall i, j | 0 <= i < j < |s[1..]| ensures Leq(o, s[1..][i], s[1..][j]) {
      assert s[1..][i] == s[i + 1] && s[1..][j] == s[j + 1];
    }
  }

  lemma TailMultiset(s: seq<Layer>)
    requires s != []
    ensures multiset(s[1..]) == multiset(s) - multiset{s[0]}
  {
    assert s == [s[0]] + s[1..];
  }

  /** The first element of a sorted list is `Leq` every element of the list. */
  lemma HeadIsLeast(o: Order, s: seq<Layer>, y: Layer)
    requires s != [] && Sorted(o, s) && y in s
    ensures Leq(o, s[0], y)
  {
    LeqTotal(o, s[0], s[0]);
    var i :| 0 <= i < |s| && s[i] == y;
    if i > 0 { assert Leq(o, s[0], s[i]); }
  }

  /** Under a name order, two sorted permutations of each other start alike. */
  lemma NameSortedSameHead(o: Order, a: seq<Layer>, b: seq<Layer>)
    requires o == ByNameAsc || o == ByNameDesc
    requires a != [] && b != []
    requires Sorted(o, a) && Sorted(o, b) && multiset(a) == multiset(b)
    ensures a[0] == b[0]
  {
    assert a[0] in multiset(b) && b[0] in multiset(a);
    HeadIsLeast(o, a, b[0]);
    HeadIsLeast(o, b, a[0]);
    NameLeAntisymmetric(a[0].name, b[0].name);
  }

  /** Under a name order, a sorted permutation is unique. */
  lemma {:induction false} NameSortedUnique(o: Order, a: seq<Layer>, b: seq<Layer>)
    requires o == ByNameAsc || o == ByNameDesc
    requires Sorted(o, a) && Sorted(o, b) && multiset(a) == multiset(b)
    ensures a == b
    decreases |a|
  {
    assert |a| == |multiset(a)| == |multiset(b)| == |b|;
    if a != [] {
      NameSortedSameHead(o, a, b);
      TailMultiset(a);
      TailMultiset(b);
      SortedTail(o, a);
      SortedTail(o, b);
      NameSortedUnique(o, a[1..], b[1..]);
      assert a == [a[0]] + a[1..] && b == [b[0]] + b[1..];
    }
  }

  /** `[...layers].reverse()`. */
  function Reverse(s: seq<Layer>): (r: seq<Layer>)
    ensures |r| == |s|
  {
    if s == [] then [] else Reverse(s[1..]) + [s[0]]
  }

  lemma {:induction false} ReverseAt(s: seq<Layer>, k: nat)
    requires k < |s|
    ensures Reverse(s)[k] == s[|s| - 1 - k]
  {
    if k < |s| - 1 {
      ReverseAt(s[1..], k);
    }
  }

  lemma ReversePermutes(s: seq<Layer>)
    ensures multiset(Reverse(s)) == multiset(s)
  {
    if s != [] {
      ReversePermutes(s[1..]);
      assert s == [s[0]] + s[1..];
    }
  }

  /** Reversing twice is the identity. */
  lemma ReverseInvolution(s: seq<Layer>)
    ensures Reverse(Reverse(s)) == s
  {
    forall k | 0 <= k < |s| ensures Reverse(Reverse(s))[k] == s[k] {
      ReverseAt(Reverse(s), k);
      ReverseAt(s, |s| - 1 - k);
    }
  }

  /** Sorting by descending name is the reverse of sorting by ascending name. */
  lemma DescendingIsReversedAscending(s: seq<Layer>)
    ensures SortBy(ByNameDesc, s) == Reverse(SortBy(ByNameAsc, s))
  {
    var asc := SortBy(ByNameAsc, s);
    var r := Reverse(asc);
    SortBySorts(ByNameAsc, s);
    SortBySorts(ByNameDesc, s);
    SortByPermutes(ByNameAsc, s);
    SortByPermutes(ByNameDesc, s);
    ReversePermutes(asc);
    forall i, j | 0 <= i < j < |r| ensures Leq(ByNameDesc, r[i], r[j]) {
      ReverseAt(asc, i);
      ReverseAt(asc, j);
    }
    NameSortedUnique(ByNameDesc, SortBy(ByNameDesc, s), r);
  }

  /** `sortLayers(layers, sortType)`. Modes other than the three named ones,
      `workspace` and `active` among them, leave the list as it is. */
  function SortLayers(layers: seq<Layer>, sortType: string): seq<Layer>
  {
    if sortType == "name-asc" then SortBy(ByNameAsc, layers)
    else if sortType == "name-desc" then SortBy(ByNameDesc, layers)
    else if sortType == "recent" then Reverse(layers)
    else layers
  }

  /** Every sort mode returns a permutation of its input; the name modes sort it. */
  lemma SortLayersSpec(layers: seq<Layer>, sortType: string)
    ensures multiset(SortLayers(layers, sortType)) == multiset(layers)
    ensures sortType == "name-asc" ==> Sorted(ByNameAsc, SortLayers(layers, sortType))
    ensures sortType == "name-desc" ==> Sorted(ByNameDesc, SortLayers(layers, sortType))
    ensures sortType == "recent" ==> Reverse(SortLayers(layers, sortType)) == layers
    ensures sortType !in {"name-asc", "name-desc", "recent"} ==> SortLayers(layers, sortType) == layers
  {
    SortBySorts(ByNameAsc, layers);
    SortBySorts(ByNameDesc, layers);
    SortByPermutes(ByNameAsc, layers);
    SortByPermutes(ByNameDesc, layers);
    ReversePermutes(layers);
    if sortType == "recent" {
      ReverseInvolution(layers);
    }
  }

  /** The sublist of layers whose activity is `wanted`, in input order. */
  function WithActivity(s: seq<Layer>, active: set<string>, wanted: bool): seq<Layer>
  {
    Select(s, (x: Layer) => (x.name in active) == wanted)
  }

  /** `applyActiveFirst(layers)`, with `active` the keys of the registry. */
  function ApplyActiveFirst(layers: seq<Layer>, active: set<string>): seq<Layer>
  {
    SortBy(ByActive(active), layers)
  }

  /** Inserting an inactive layer in front of an all-inactive list, behind an all-active one. */
  lemma {:induction false} InsertInactive(active: set<string>, x: Layer, p: seq<Layer>, q: seq<Layer>)
    requires x.name !in active
    requires forall y :: y in p ==> y.name in active
    requires forall y :: y in q ==> y.name !in active
    ensures Insert(ByActive(active), x, p + q) == p + [x] + q
  {
    if p != [] {
      assert (p + q)[0] == p[0] && (p + q)[1..] == p[1..] + q;
      InsertInactive(active, x, p[1..], q);
    }
  }

  /** Active-first is a stable partition: the active layers in input order, then the
      inactive ones in input order. */
  lemma {:induction false} ActiveFirstIsStablePartition(layers: seq<Layer>, active: set<string>)
    ensures ApplyActiveFirst(layers, active)
         == WithActivity(layers, active, true) + WithActivity(layers, active, false)
  {
    if layers != [] {
      var x := layers[0];
      var p := WithActivity(layers[1..], active, true);
      var q := WithActivity(layers[1..], active, false);
      ActiveFirstIsStablePartition(layers[1..], active);
      WithActivityMembers(layers[1..], active, true);
      WithActivityMembers(layers[1..], active, false);
      if x.name in active {
        assert [x] + (p + q) == ([x] + p) + q;
      } else {
        InsertInactive(active, x, p, q);
      }
    }
  }

  /** Each part holds only layers of the wanted activity. */
  lemma WithActivityMembers(s: seq<Layer>, active: set<string>, wanted: bool)
    ensures forall y :: y in WithActivity(s, active, wanted) ==> (y.name in active) == wanted
  {
    forall y | y in WithActivity(s, active, wanted) ensures (y.name in active) == wanted {
      SelectMembership(s, (x: Layer) => (x.name in active) == wanted, y);
    }
  }

  /** Active-first returns a permutation in which no inactive layer precedes an active one. */
  lemma ActiveFirstPermutesAndSeparates(layers: seq<Layer>, active: set<string>)
    ensures multiset(ApplyActiveFirst(layers, active)) == multiset(layers)
    ensures var r := ApplyActiveFirst(layers, active);
      forall i, j :: 0 <= i < j < |r| && r[j].name in active ==> r[i].name in active
  {
    SortByPermutes(ByActive(active), layers);
    SortBySorts(ByActive(active), layers);
  }

  /** `[A, B*, C, D*]` becomes `[B, D, A, C]`. */
  lemma ActiveFirstExample()
    ensures ApplyActiveFirst([Layer("A"), Layer("B"), Layer("C"), Layer("D")], {"B", "D"})
         == [Layer("B"), Layer("D"), Layer("A"), Layer("C")]
  {
    ActiveFirstIsStablePartition([Layer("A"), Layer("B"), Layer("C"), Layer("D")], {"B", "D"});
  }
}
