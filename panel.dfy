/** The layer panel: the catalog, the active-layer registry, the list options and
    what the list shows, with `displayLayers`, `toggleLayer` and the input handlers. */
module Panel {
  import opened Text
  import opened Layers
  import opened Sorting
  import opened Grouping
  import Config

  /** The WMS tile layer `toggleLayer` puts on the map for one layer name: the options
      it is created with stand for the map library's opaque handle. */
  datatype WmsLayer = WmsLayer(url: string, layers: string, format: string, transparent: bool)

  /** The WMS endpoint `toggleLayer` uses, written out in the script. */
  const WmsServiceUrl: string := "http://localhost:8080/geoserver/wms"

  function NewWmsLayer(name: string): WmsLayer
  {
    WmsLayer(WmsServiceUrl, name, "image/png", true)
  }

  /** The address written out in the script is the configured WMS endpoint of the
      shipped settings. */
  lemma WmsHandleUsesConfiguredEndpoint(name: string)
    ensures NewWmsLayer(name).url == Config.WmsUrl(Config.Defaults)
    ensures NewWmsLayer(name).layers == name
  {
    Config.DefaultEndpoints();
  }

  /** `activeLayers`: layer name to the handle drawing it. */
  type Registry = map<string, WmsLayer>

  /** Every handle in the registry draws exactly the layer it is filed under. */
  ghost predicate HandlesScoped(reg: Registry)
  {
    forall n :: n in reg ==> reg[n] == NewWmsLayer(n)
  }

  /** The registry part of `toggleLayer(name)`. */
  function Toggle(reg: Registry, name: string): (r: Registry)
    ensures name in r <==> name !in reg
    ensures name in r ==> r[name] == NewWmsLayer(name)
    ensures forall k :: k != name ==> (k in r <==> k in reg)
    ensures forall k :: k in r && k != name ==> r[k] == reg[k]
  {
    if name in reg then reg - {name} else reg[name := NewWmsLayer(name)]
  }

  /** Toggling twice restores the set of active names. */
  lemma ToggleTwiceRestoresKeys(reg: Registry, name: string)
    ensures Toggle(Toggle(reg, name), name).Keys == reg.Keys
  {
  }

  /** Toggling an inactive layer on and off again restores the registry exactly. */
  lemma ToggleOnOffIsIdentity(reg: Registry, name: string)
    requires name !in reg
    ensures Toggle(Toggle(reg, name), name) == reg
  {
  }

  /** With every handle scoped to its own name, toggling twice restores the registry. */
  lemma ToggleTwiceIsIdentity(reg: Registry, name: string)
    requires HandlesScoped(reg)
    ensures HandlesScoped(Toggle(reg, name))
    ensures Toggle(Toggle(reg, name), name) == reg
  {
  }

  /** The catalog order the list is drawn in (`displayLayers`, before grouping):
      a sorted copy, then the optional active-first pass. */
  function Arrange(layers: seq<Layer>, sortType: string, activeFirst: bool, active: set<string>): seq<Layer>
  {
    var sorted := SortLayers(layers, sortType);
    if activeFirst then ApplyActiveFirst(sorted, active) else sorted
  }

  /** The arranged list is a permutation of the input; with active-first on it is the
      sorted list's active layers, then its inactive ones, each in sorted order. */
  lemma ArrangeSpec(layers: seq<Layer>, sortType: string, activeFirst: bool, active: set<string>)
    ensures multiset(Arrange(layers, sortType, activeFirst, active)) == multiset(layers)
    ensures !activeFirst ==> Arrange(layers, sortType, activeFirst, active) == SortLayers(layers, sortType)
    ensures activeFirst ==>
      var sorted := SortLayers(layers, sortType);
      Arrange(layers, sortType, activeFirst, active)
        == WithActivity(sorted, active, true) + WithActivity(sorted, active, false)
  {
    SortLayersSpec(layers, sortType);
    ActiveFirstPermutesAndSeparates(SortLayers(layers, sortType), active);
    ActiveFirstIsStablePartition(SortLayers(layers, sortType), active);
  }

  /** One workspace block of the list: its header label and its layers. */
  datatype Section = Section(workspace: string, layers: seq<Layer>)

  /** The blocks for the workspaces `ws` over the arranged list `s`. */
  function SectionsOf(s: seq<Layer>, ws: seq<string>): seq<Section>
  {
    if ws == [] then [] else [Section(ws[0], Members(s, ws[0]))] + SectionsOf(s, ws[1..])
  }

  /** The list as shown: one block per workspace, in order of first appearance. */
  function Sections(s: seq<Layer>): seq<Section>
  {
    SectionsOf(s, WorkspaceOrder(s))
  }

  /** All layers of all blocks, top to bottom. */
  function ShownLayers(sections: seq<Section>): seq<Layer>
  {
    if sections == [] then [] else sections[0].layers + ShownLayers(sections[1..])
  }

  lemma {:induction false} SectionsOfSnoc(s: seq<Layer>, ws: seq<string>, w: string)
    ensures SectionsOf(s, ws + [w]) == SectionsOf(s, ws) + [Section(w, Members(s, w))]
  {
    if ws == [] {
      assert SectionsOf(s, [w]) == [Section(w, Members(s, w))] + SectionsOf(s, []);
    } else {
      assert (ws + [w])[1..] == ws[1..] + [w];
      SectionsOfSnoc(s, ws[1..], w);
    }
  }

  /** Drawing the workspace after the first `i` adds its block after theirs. */
  lemma SectionsOfPrefix(s: seq<Layer>, ws: seq<string>, i: nat)
    requires i < |ws|
    ensures SectionsOf(s, ws[..i + 1]) == SectionsOf(s, ws[..i]) + [Section(ws[i], Members(s, ws[i]))]
  {
    assert ws[..i + 1] == ws[..i] + [ws[i]];
    SectionsOfSnoc(s, ws[..i], ws[i]);
  }

  lemma {:induction false} ShownLayersIsFlatten(s: seq<Layer>, ws: seq<string>)
    ensures ShownLayers(SectionsOf(s, ws)) == Flatten(s, ws)
  {
    if ws != [] {
      assert SectionsOf(s, ws)[1..] == SectionsOf(s, ws[1..]);
      ShownLayersIsFlatten(s, ws[1..]);
    }
  }

  /** The list shows every input layer exactly as often as it occurs, under its own
      workspace, and the block sizes add up to the number of input layers. */
  lemma ListShowsEachLayerOnce(layers: seq<Layer>, sortType: string, activeFirst: bool, active: set<string>)
    ensures var shown := Sections(Arrange(layers, sortType, activeFirst, active));
      && multiset(ShownLayers(shown)) == multiset(layers)
      && |ShownLayers(shown)| == |layers|
      && forall i :: 0 <= i < |shown| ==>
           forall x :: x in shown[i].layers ==> WorkspaceOf(x.name) == shown[i].workspace
  {
    var s := Arrange(layers, sortType, activeFirst, active);
    ArrangeSpec(layers, sortType, activeFirst, active);
    ShownLayersIsFlatten(s, WorkspaceOrder(s));
    GroupsPartitionInput(s);
    assert |multiset(ShownLayers(Sections(s)))| == |multiset(layers)|;
    SectionsLabelled(s, WorkspaceOrder(s));
  }

  /** After a search, a layer is shown exactly when it is in the catalog and its name
      contains the search text, ignoring case, whatever the sort and active options. */
  lemma SearchShowsExactlyTheMatches(catalog: seq<Layer>, searchValue: string, sortType: string,
                                     activeFirst: bool, active: set<string>, x: Layer)
    ensures x in ShownLayers(Sections(Arrange(FilterLayers(catalog, Lower(searchValue)), sortType, activeFirst, active)))
        <==> x in catalog && Matches(x, searchValue)
  {
    var filtered := FilterLayers(catalog, Lower(searchValue));
    ListShowsEachLayerOnce(filtered, sortType, activeFirst, active);
    var shown := ShownLayers(Sections(Arrange(filtered, sortType, activeFirst, active)));
    assert x in shown <==> x in multiset(shown);
    assert x in filtered <==> x in multiset(filtered);
    FilterIgnoresTermCase(catalog, searchValue);
    FilterMembership(catalog, searchValue, x);
  }

  lemma {:induction false} SectionsLabelled(s: seq<Layer>, ws: seq<string>)
    ensures forall i :: 0 <= i < |SectionsOf(s, ws)| ==>
      forall x :: x in SectionsOf(s, ws)[i].layers ==> WorkspaceOf(x.name) == SectionsOf(s, ws)[i].workspace
  {
    if ws != [] {
      SectionsLabelled(s, ws[1..]);
      forall x | x in Members(s, ws[0]) ensures WorkspaceOf(x.name) == ws[0] {
        MembersAreExactlyTheWorkspace(s, ws[0]);
        assert multiset(Members(s, ws[0]))[x] > 0;
      }
      assert forall i :: 0 < i < |SectionsOf(s, ws)| ==> SectionsOf(s, ws)[i] == SectionsOf(s, ws[1..])[i - 1];
    }
  }

  /** The page-level state of the layer panel. */
  class LayerPanel {
    var allLayers: seq<Layer>         // the catalog, as last fetched
    var activeLayers: Registry        // the active-layer registry
    var currentSort: string           // the sort selector's value
    var activeFirst: bool             // the "active first" checkbox
    var shown: seq<Section>           // what the layer list currently shows

    ghost predicate Valid()
      reads this
    {
      HandlesScoped(activeLayers)
    }

    /** The list for the current catalog, search text and options. */
    function View(searchValue: string): seq<Section>
      reads this
    {
      Sections(Arrange(FilterLayers(allLayers, Lower(searchValue)), currentSort, activeFirst, activeLayers.Keys))
    }

    /** The page's initial state. */
    constructor ()
      ensures Valid()
      ensures allLayers == [] && activeLayers == map[] && shown == []
      ensures currentSort == "name-asc" && !activeFirst
    {
      allLayers := [];
      activeLayers := map[];
      currentSort := "name-asc";
      activeFirst := false;
      shown := [];
    }

    /** `displayLayers(layers)`: sorts a copy, optionally moves active layers first,
        groups by workspace and draws one block per workspace. */
    method DisplayLayers(layers: seq<Layer>)
      modifies this`shown
      ensures shown == Sections(Arrange(layers, currentSort, activeFirst, activeLayers.Keys))
      ensures allLayers == old(allLayers)
    {
      var sorted := SortLayers(layers, currentSort);
      if activeFirst {
        sorted := ApplyActiveFirst(sorted, activeLayers.Keys);
      }
      assert sorted == Arrange(layers, currentSort, activeFirst, activeLayers.Keys);
      var order, groups := GroupByWorkspace(sorted);
      var sections: seq<Section> := [];
      var i := 0;
      while i < |order|
        invariant 0 <= i <= |order|
        invariant sections == SectionsOf(sorted, order[..i])
      {
        var workspace := order[i];
        assert workspace in groups && groups[workspace] == Members(sorted, workspace);
        SectionsOfPrefix(sorted, order, i);
        sections := sections + [Section(workspace, groups[workspace])];
        i := i + 1;
      }
      assert order[..i] == order;
      shown := sections;
    }

    /** `loadLayers` after a successful fetch: the catalog is replaced and drawn. */
    method SetCatalog(layers: seq<Layer>)
      modifies this`allLayers, this`shown
      ensures allLayers == layers
      ensures shown == Sections(Arrange(layers, currentSort, activeFirst, activeLayers.Keys))
    {
      allLayers := layers;
      DisplayLayers(allLayers);
    }

    /** Typing in the search box. */
    method OnSearchInput(value: string)
      modifies this`shown
      ensures shown == View(value)
    {
      var filtered := FilterLayers(allLayers, Lower(value));
      DisplayLayers(filtered);
    }

    /** Choosing a sort option; `searchValue` is the search box's content. */
    method OnSortChange(value: string, searchValue: string)
      modifies this`currentSort, this`shown
      ensures currentSort == value
      ensures shown == View(searchValue)
    {
      currentSort := value;
      var filtered := FilterLayers(allLayers, Lower(searchValue));
      DisplayLayers(filtered);
    }

    /** Ticking or clearing "active first". */
    method OnActiveFirstChange(checked: bool, searchValue: string)
      modifies this`activeFirst, this`shown
      ensures activeFirst == checked
      ensures shown == View(searchValue)
    {
      activeFirst := checked;
      var filtered := FilterLayers(allLayers, Lower(searchValue));
      DisplayLayers(filtered);
    }

    /** `toggleLayer(name)`: removes the layer's handle if it is active, creates and
        files one otherwise; redraws the list only when "active first" is on. */
    method ToggleLayer(name: string, searchValue: string)
      requires Valid()
      modifies this`activeLayers, this`shown
      ensures Valid()
      ensures activeLayers == Toggle(old(activeLayers), name)
      ensures shown == if activeFirst then View(searchValue) else old(shown)
    {
      if name in activeLayers {
        activeLayers := activeLayers - {name};
      } else {
        var layer := NewWmsLayer(name);
        activeLayers := activeLayers[name := layer];
      }
      if activeFirst {
        var filtered := FilterLayers(allLayers, Lower(searchValue));
        DisplayLayers(filtered);
      }
    }
  }
}
