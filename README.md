# RETIGIS layer panel, modelled in Dafny

RETIGIS is a browser map viewer for layers served by a GeoServer instance. This project
models its layer panel: the view-model that turns the layer catalog into the list the user
sees, and the active-layer registry behind the layer checkboxes. It also models the small
string logic of the central configuration.

The list is built in fixed steps. A search filter keeps the layers whose lower-cased name
contains the lower-cased search text. `sortLayers` then orders a copy by name, ascending or
descending, reverses it for "recent", or leaves it alone. An optional "active first" pass
moves active layers to the front. Finally `groupByWorkspace` buckets the result by the text
before the first `:` in the name, or `Default` when there is none. Each bucket becomes one
block of the list under a workspace header, and each layer in it is labelled by its
display name: `split(':')[1]`, the segment between the first and the second `:`, so
`a:b:c` shows `b`. A name without a colon is shown whole.

The registry maps a layer name to the WMS tile layer drawing it. `toggleLayer` removes an
active name and adds an inactive one. It redraws the list when "active first" is on.

The configuration derives the base, REST, WMS and WFS URLs from the host and context path.
It builds the basic-auth header and decides whether `restFetch` uses a path as it is or
appends it to the REST URL.

Files, one module each:

- `text.dfy` (`Text`): lower-casing, `includes`, the index of the first separator (where `split` cuts), and `split`/`join` on a character.
- `layers.dfy` (`Layers`): the layer descriptor, workspace and display-name derivation, the order-keeping filter `Select` (`Array.prototype.filter`) and the search filter built on it. The workspace buckets and the active and inactive parts are `Select` with their own tests.
- `sorting.dfy` (`Sorting`): the name order, a stable insertion sort over the list's three comparators, `sortLayers`, `applyActiveFirst`.
- `grouping.dfy` (`Grouping`): `groupByWorkspace` as an imperative loop proved against its specification functions. It also holds the code as written on a plain JavaScript object (see Findings).
- `panel.dfy` (`Panel`): the registry and `toggleLayer`, the `displayLayers` pipeline, and the class `LayerPanel` holding the page state and its event handlers.
- `config.dfy` (`Config`): settings, derived URLs, `buildAuthHeader`, `restFetch`'s URL and options.

Modelling choices:

- `Array.prototype.sort` is stable, so sorting with a comparator is the stable insertion sort `Sorting.SortBy`. The comparator `cmp` becomes the test `cmp(a, b) <= 0` (`Sorting.Leq`).
- `localeCompare` is modelled as lexicographic order on character codes.
- `toLowerCase` is modelled on ASCII letters only.
- A layer descriptor is its name, as the code reads nothing else from it. Two descriptors with the same name are therefore equal, and a name-sorted permutation is unique.
- The browser's `btoa` is a function parameter of `Config.BuildAuthHeader` and `Config.RestFetch`.
- The search box value and the checkbox value are parameters of the handler methods. The list the page draws is the field `shown`: one `Section` (workspace label, layers) per block.

Two points about the code that the model follows as written:

- `sortLayers` (script.js:138-149) has no case for `workspace` or `active`. Both fall to `default` and return the list unchanged (`Sorting.SortLayersSpec`).
- `toggleLayer` calls `map.removeLayer` without checking the handle. The registry only ever holds handles it created (`Panel.HandlesScoped`).

## Model

| member | source | states |
|---|---|---|
| `Text.Lower` | script.js:318-320 | definition of `toLowerCase` on ASCII letters: the result has the input's length and each character lower-cased on its own (`Text.LowerIdempotent`) |
| `Text.Includes` | script.js:319-321 | definition of `includes` as a left-to-right scan; its meaning is stated by `Text.IncludesIffOccurs` |
| `Text.Split` | script.js:80 | definition of `split` on one character (also used at script.js:127): at least one field, and more than one exactly when the separator occurs; round trip with `join` in `Text.SplitThenJoin` and `Text.JoinThenSplit` |
| `Text.IncludesIffOccurs` | script.js:319-321 | `includes` holds exactly when the term occurs at some index of the string |
| `Text.IndexOf` | script.js:127 | the index of the first separator, where `split` cuts: it holds the separator and no earlier index does; defined only for a string holding the separator, the only case `split` uses it |
| `Text.SplitFieldsFree` | script.js:127 | no field produced by `split(':')` contains a colon |
| `Text.SplitThenJoin` | script.js:80 | joining the fields of `split(':')` with colons gives back the name |
| `Text.JoinThenSplit` | script.js:80 | splitting a colon-join of colon-free fields gives back those fields |
| `Text.LowerIdempotent` | script.js:318-320 | lower-casing a lower-cased string changes nothing |
| `Layers.WorkspaceOf` | script.js:127 | definition: `split(':')[0]` when the name includes a colon, else `Default`; characterised by `Layers.WorkspaceIsTextBeforeFirstColon` |
| `Layers.DisplayName` | script.js:80 | definition: `split(':')[1]` when the name includes a colon, else the name; characterised by `Layers.DisplayNameIsSecondField` |
| `Layers.WorkspaceIsTextBeforeFirstColon` | script.js:127 | the workspace is the colon-free text before the first colon, or `Default` when the name has no colon |
| `Layers.WorkspaceOfPrefixed` | script.js:127 | a colon-free prefix followed by a colon is the workspace, whatever follows |
| `Layers.SplitAtFirstColon` | script.js:80 | helper: `split(':')` of a name with a colon is the text before the first colon followed by the fields of what comes after it |
| `Layers.FieldsOfColonName` | script.js:80 | for a name with a colon, `split(':')[0]` is the text before the first colon and `split(':')[1]` the first field after it |
| `Layers.FieldsAroundColon` | script.js:80 | helper: the text before a colon, the colon and a prefix of what follows make up the start of the name |
| `Layers.DisplayNameIsSecondField` | script.js:80 | the display name is the colon-free field after the first colon, ending at the second colon or the end of the name; without a colon it is the whole name |
| `Layers.NameFromWorkspaceAndDisplayName` | script.js:80 | a name with one colon is its workspace, a colon and its display name |
| `Layers.Select` | script.js:319-321 | definition of `Array.prototype.filter`: the accepted elements in input order; characterised by `Layers.SelectKeepsOrder` and `Layers.SelectCount` |
| `Layers.SelectCons` | script.js:319-321 | helper: a layer put in front of the list comes first in the selection when it is accepted, and the rest is selected as before |
| `Layers.SelectAppend` | script.js:319-321 | filtering a concatenation concatenates the two filtered parts |
| `Layers.SelectKeepsOrder` | script.js:319-321 | a filtered list is a subsequence of its input |
| `Layers.SelectCount` | script.js:319-321 | each accepted layer is kept as often as it occurs in the input, and no other layer is kept |
| `Layers.SelectMembership` | script.js:319-321 | a layer is kept exactly when it is in the input and accepted |
| `Layers.SelectAll` | script.js:319-321 | a test that accepts every layer of the input keeps the input unchanged |
| `Layers.SelectSameTest` | script.js:319-321 | two tests that agree on every layer keep the same layers |
| `Layers.SelectIdempotent` | script.js:319-321 | filtering a filtered list again by the same test changes nothing |
| `Layers.Matches` | script.js:320 | definition of the search test: the lower-cased name includes the lower-cased term |
| `Layers.FilterLayers` | script.js:319-321 | definition: `filter` with the search test; characterised by `Layers.FilterKeepsExactlyMatches` and `Layers.FilterKeepsOrder` |
| `Layers.FilterKeepsOrder` | script.js:319-321 | the filtered list is a subsequence of the catalog, so catalog order is kept |
| `Layers.FilterKeepsExactlyMatches` | script.js:319-321 | each matching layer is kept as often as it occurs in the catalog, and no other layer is kept |
| `Layers.FilterMembership` | script.js:319-321 | a layer is in the filtered list exactly when it is in the catalog and its lower-cased name includes the lower-cased term |
| `Layers.FilterEmptyTermKeepsAll` | script.js:317-323 | an empty search box keeps the whole catalog in order |
| `Layers.FilterIgnoresTermCase` | script.js:318 | lower-casing the term before the test changes nothing |
| `Layers.FilterIdempotent` | script.js:319-321 | filtering the filtered list again by the same term changes nothing |
| `Sorting.NameLe` | script.js:141 | definition of `a.localeCompare(b) <= 0` as lexicographic order on character codes (see Left out); a total order by `NameLeTotal`, `NameLeTransitive` and `NameLeAntisymmetric` |
| `Sorting.Leq` | script.js:141-159 | definition of `cmp(a, b) <= 0` for the three comparators: name ascending, name descending, active before inactive with ties otherwise |
| `Sorting.SortBy` | script.js:141-152 | definition of the stable `Array.prototype.sort` as insertion sort; specified by `SortByPermutes`, `SortBySorts` and `NameSortedUnique` |
| `Sorting.NameLeTotal` | script.js:141 | any two names are comparable in the name order |
| `Sorting.NameLeTransitive` | script.js:141 | the name order is transitive |
| `Sorting.NameLeAntisymmetric` | script.js:141 | two names that compare both ways are equal |
| `Sorting.LeqTotal` | script.js:141-158 | each of the three comparators relates any two layers one way or the other |
| `Sorting.LeqTransitive` | script.js:141-158 | each of the three comparators is transitive |
| `Sorting.InsertPermutes` | script.js:141-158 | inserting adds exactly the inserted layer |
| `Sorting.ConsSorted` | script.js:141-158 | a layer that precedes every element of a sorted list may be put in front of it |
| `Sorting.InsertMembers` | script.js:141-158 | inserting brings in only the inserted layer |
| `Sorting.InsertSorted` | script.js:141-158 | inserting into a sorted list keeps it sorted |
| `Sorting.SortByPermutes` | script.js:141-158 | a sort returns a permutation of its input |
| `Sorting.SortBySorts` | script.js:141-158 | a sort returns a list sorted by its comparator |
| `Sorting.SortBySortedIsIdentity` | script.js:141-158 | sorting an already sorted list leaves it unchanged |
| `Sorting.SortByIdempotent` | script.js:141-158 | sorting twice by the same comparator is sorting once |
| `Sorting.SortedTail` | script.js:141-143 | helper: the tail of a sorted list is sorted |
| `Sorting.TailMultiset` | script.js:141-143 | helper: the tail of a list holds its elements minus the head |
| `Sorting.HeadIsLeast` | script.js:141-143 | the head of a sorted list precedes every element in the order |
| `Sorting.NameSortedSameHead` | script.js:141-143 | two name-sorted permutations of the same layers start with the same layer |
| `Sorting.NameSortedUnique` | script.js:141-143 | two name-sorted permutations of the same layers are equal |
| `Sorting.DescendingIsReversedAscending` | script.js:140-143 | `name-desc` returns exactly the reverse of `name-asc` |
| `Sorting.Reverse` | script.js:145 | definition of `[...layers].reverse()`: the result has the input's length; `ReverseAt` gives each position |
| `Sorting.ReverseAt` | script.js:145 | element `k` of the reversed list is element `n-1-k` of the input |
| `Sorting.ReversePermutes` | script.js:145 | reversing returns a permutation of the input |
| `Sorting.ReverseInvolution` | script.js:145 | reversing twice gives back the input |
| `Sorting.SortLayers` | script.js:138-149 | definition: `name-asc`/`name-desc` sort by the name order, `recent` reverses, any other mode returns the list as given; specified by `SortLayersSpec` |
| `Sorting.SortLayersSpec` | script.js:138-149 | every mode returns a permutation; `name-asc` and `name-desc` return sorted lists; `recent` returns the reverse of the input; any other mode returns the input unchanged |
| `Sorting.InsertInactive` | script.js:151-160 | an inactive layer inserted into active-then-inactive lands after the active ones and before the inactive ones |
| `Sorting.WithActivityMembers` | script.js:153-154 | the active part holds only active layers and the inactive part only inactive ones |
| `Sorting.ApplyActiveFirst` | script.js:151-160 | definition: the stable sort by the active-first comparator, with the registry's keys as the active names; specified by `ActiveFirstIsStablePartition` |
| `Sorting.ActiveFirstIsStablePartition` | script.js:151-160 | active-first returns the active layers in input order followed by the inactive layers in input order |
| `Sorting.ActiveFirstPermutesAndSeparates` | script.js:151-160 | active-first returns a permutation in which no inactive layer precedes an active one |
| `Sorting.ActiveFirstExample` | script.js:151-160 | `[A, B*, C, D*]` becomes `[B, D, A, C]` |
| `Grouping.WorkspaceOrder` | script.js:126-131 | definition of the key creation order of `groups`: each workspace once, in order of first appearance (`WorkspaceOrderSpec`, `WorkspaceOrderIsFirstAppearance`) |
| `Grouping.Members` | script.js:129-132 | definition of one bucket: the layers of the workspace in input order (`MembersAreExactlyTheWorkspace`, `MembersKeepOrder`) |
| `Grouping.MembersAppend` | script.js:126-133 | the bucket of a concatenation is the concatenation of the buckets |
| `Grouping.MembersSnoc` | script.js:132 | pushing a layer extends its own bucket by it and leaves every other bucket alone |
| `Grouping.MembersAreExactlyTheWorkspace` | script.js:126-133 | a bucket holds exactly the layers of its workspace, each as often as it occurs |
| `Grouping.MembersKeepOrder` | script.js:132 | a bucket keeps input order |
| `Grouping.WorkspaceOrderSpec` | script.js:129-131 | the bucket keys are distinct, and a workspace has a bucket exactly when some layer belongs to it |
| `Grouping.MembersOfUnlisted` | script.js:129-131 | a workspace without a key has no layers |
| `Grouping.EachLayerInExactlyOneGroup` | script.js:126-133 | each layer lies in the bucket of its own workspace and in no other |
| `Grouping.WorkspaceOrderIsFirstAppearance` | script.js:126-131 | for listed workspaces `i < j`, every layer of workspace `j` comes after some layer of workspace `i`: the keys are in order of first appearance |
| `Grouping.OrderOfPrefix` | script.js:129-131 | helper: the key order of a list extends that of the list without its last layer by at most that layer's workspace, which is then new |
| `Grouping.ListedWorkspace` | script.js:127-131 | helper: the workspace of every layer is listed |
| `Grouping.FirstLayerOf` | script.js:127-131 | helper: a listed workspace has a layer in the list |
| `Grouping.FlattenSnoc` | script.js:45-46 | the blocks of a longer key list end with the new key's bucket |
| `Grouping.FlattenAddLayer` | script.js:126-133 | adding a layer adds it once to the concatenated buckets when its workspace is listed |
| `Grouping.PartitionSnoc` | script.js:126-133 | pushing one more layer keeps the buckets holding exactly the layers seen so far |
| `Grouping.GroupsPartitionInput` | script.js:123-136 | the buckets, concatenated in key order, are a permutation of the input |
| `Grouping.TotalSizeIsFlattenLength` | script.js:53 | the sum of bucket sizes is the length of the concatenated buckets |
| `Grouping.GroupSizesSumToLength` | script.js:123-136 | the bucket sizes add up to the number of input layers |
| `Grouping.DistinctTail` | script.js:129-131 | helper: dropping the first key of a key list without repeats leaves a list without repeats that does not hold it |
| `Grouping.WorkspaceOrderSnoc` | script.js:129-131 | helper: one more layer lists its workspace at the end when it is new and changes nothing otherwise |
| `Grouping.BucketsSnoc` | script.js:129-132 | pushing a layer onto its bucket, created empty when new, gives the buckets of the longer list |
| `Grouping.GroupStep` | script.js:125-133 | one turn of the loop takes the keys and buckets of a prefix to those of the prefix one layer longer |
| `Grouping.GroupByWorkspace` | script.js:123-136 | the loop returns the workspaces in first-appearance order (`WorkspaceOrderIsFirstAppearance`), exactly one bucket per listed workspace, each bucket holding that workspace's layers in input order; this is the corrected grouping, equal to the code as written when no workspace is inherited (`GroupAsWrittenAgreesOtherwise`) |
| `Grouping.GroupAsWritten` | script.js:123-136 | definition of the loop on `{}` as written: pushes onto an own bucket, throws a TypeError for an inherited name, else creates the bucket; properties in `GroupAsWrittenThrowsIff` and `GroupAsWrittenAgreesOtherwise` |
| `Grouping.GroupAsWrittenOwnKeys` | script.js:129-131 | the code as written never creates a bucket under an inherited property name |
| `Grouping.GroupAsWrittenThrowsIff` | script.js:129-132 | the code as written throws exactly when some layer's workspace is an inherited property name |
| `Grouping.ThrowsOnInheritedName` | script.js:129-132 | one layer with an inherited workspace name makes the code as written throw |
| `Grouping.ThrowsOnFirstLayer` | script.js:129-132 | a first layer with an inherited workspace name makes the code as written throw |
| `Grouping.GroupAsWrittenExample` | script.js:129-132 | a catalog starting with `toString:roads` makes the code as written throw |
| `Grouping.GroupAsWrittenStep` | script.js:129-132 | helper: on a workspace that is not inherited, the code as written pushes onto the existing bucket, or creates the bucket and lists the workspace |
| `Grouping.GroupAsWrittenAgreesOtherwise` | script.js:123-136 | without inherited workspace names, the code as written builds the same keys and buckets as `GroupByWorkspace` |
| `Panel.NewWmsLayer` | script.js:169-173 | definition of the options `L.tileLayer.wms` is created with: the written-out WMS URL, the layer name, `image/png`, transparent (`WmsHandleUsesConfiguredEndpoint`) |
| `Panel.WmsHandleUsesConfiguredEndpoint` | script.js:169-173 | the handle for a name draws that name from the configured WMS endpoint of the shipped settings |
| `Panel.Toggle` | script.js:162-177 | the toggled name is present exactly when it was absent, with a handle for that name; every other name and handle is unchanged |
| `Panel.ToggleTwiceRestoresKeys` | script.js:162-177 | toggling twice restores the set of active names |
| `Panel.ToggleOnOffIsIdentity` | script.js:162-177 | toggling an inactive name on and off restores the registry exactly |
| `Panel.ToggleTwiceIsIdentity` | script.js:162-177 | toggling keeps every handle scoped to its own name, and with scoped handles toggling twice restores the registry, up to handle identity and registry order (see Left out) |
| `Panel.Arrange` | script.js:34-39 | definition: `sortLayers` on a copy, then `applyActiveFirst` when the flag is set; specified by `ArrangeSpec` |
| `Panel.ArrangeSpec` | script.js:34-39 | the arranged list is a permutation of the input; without active-first it is the sorted list; with it, the sorted list's active layers, then its inactive ones |
| `Panel.Sections` | script.js:42-120 | definition of the drawn blocks: one block per workspace in key order, labelled with the workspace and holding its bucket (`ListShowsEachLayerOnce`, `SectionsLabelled`) |
| `Panel.SectionsOfSnoc` | script.js:45-120 | drawing one more workspace appends one block |
| `Panel.SectionsOfPrefix` | script.js:45-120 | drawing the next workspace of the order appends its block after the blocks drawn so far |
| `Panel.ShownLayersIsFlatten` | script.js:45-102 | the layers of the drawn blocks are the buckets in key order |
| `Panel.ListShowsEachLayerOnce` | script.js:34-102 | the list shows each input layer once per occurrence, under its own workspace label; block sizes add up to the input length |
| `Panel.SearchShowsExactlyTheMatches` | script.js:317-323 | after a search, a layer is shown exactly when it is in the catalog and its name includes the search text, ignoring case, for every sort and active option |
| `Panel.SectionsLabelled` | script.js:53 | every layer in a block belongs to the workspace the block is labelled with |
| `Panel.LayerPanel.View` | script.js:180-186 | definition of the list a redraw shows (also at script.js:328-332 and script.js:338-342): the catalog filtered by the lower-cased search text, arranged by the current options, in blocks (`SearchShowsExactlyTheMatches`) |
| `Panel.LayerPanel.constructor` | script.js:7-10 | the page starts with an empty catalog, an empty registry, sort `name-asc` and active-first off |
| `Panel.LayerPanel.DisplayLayers` | script.js:29-120 | the list becomes the blocks of the sorted, optionally active-first copy, one per workspace in first-appearance order; the catalog is untouched |
| `Panel.LayerPanel.SetCatalog` | script.js:22-23 | a fetched catalog replaces the old one and is drawn |
| `Panel.LayerPanel.OnSearchInput` | script.js:317-323 | the list becomes the view of the catalog filtered by the search text |
| `Panel.LayerPanel.OnSortChange` | script.js:326-333 | the sort mode becomes the chosen value and the list is redrawn from the filtered catalog |
| `Panel.LayerPanel.OnActiveFirstChange` | script.js:336-343 | the active-first flag becomes the checkbox value and the list is redrawn from the filtered catalog |
| `Panel.LayerPanel.ToggleLayer` | script.js:162-187 | the registry becomes `Toggle` of the old one and stays scoped; the list is redrawn only when active-first is on |
| `Config.BaseUrl` | config.js:21 | definition of `GEOSERVER_BASE_URL`: host, `/`, context (`DerivedUrlsSpec`) |
| `Config.RestUrl` | config.js:22 | definition of `REST_URL`: the base URL and `/rest` (`DerivedUrlsSpec`) |
| `Config.WmsUrl` | config.js:23 | definition of `WMS_URL`: the base URL and `/wms` (`DerivedUrlsSpec`) |
| `Config.WfsUrl` | config.js:24 | definition of `WFS_URL`: the base URL and `/wfs` (`DerivedUrlsSpec`) |
| `Config.DerivedUrlsSpec` | config.js:21-24 | the base URL is host, slash and context; REST, WMS and WFS are the base followed by `/rest`, `/wms` and `/wfs`, and the three differ |
| `Config.DefaultEndpoints` | config.js:5-24 | with the shipped settings the endpoints are `http://localhost:8080/geoserver/rest`, `/wms` and `/wfs` |
| `Config.IsAbsolute` | config.js:36 | definition of `/^https?:/i.test(path)`, character by character; equal to a prefix test by `IsAbsoluteIffSchemePrefix` |
| `Config.IsAbsoluteIffSchemePrefix` | config.js:36 | `/^https?:/i` holds exactly when the lower-cased path starts with `http:` or `https:` |
| `Config.ResolveUrl` | config.js:36 | an absolute path is used verbatim; any other path comes after the REST URL |
| `Config.AbsoluteExtends` | config.js:36 | property of the model only, not a promise of `restFetch`, which resolves each path once: a string that begins with an absolute URL is absolute |
| `Config.ResolveUrlIdempotent` | config.js:36 | property of the model only, not a promise of `restFetch`, which resolves each path once: with an http(s) host, resolving an already resolved URL changes nothing |
| `Config.BuildAuthHeader` | config.js:27-32 | the header map holds every extra header with its value plus `Authorization`; `Authorization` is `Basic ` and the encoded `user:password` unless the extras supply their own |
| `Config.RestFetch` | config.js:35-42 | the request goes to the resolved URL; the caller's other options are kept and its headers are merged with the auth header (none given counts as none) |

## Left out

- DOM work: header markup and counts, checkbox and `active` class state, zoom buttons and event wiring. Only the blocks the list draws are modelled (`LayerPanel.shown`).
- Collapsing and expanding a workspace block (the `collapsedWorkspaces` set, script.js:60-65 and 105-116): it only switches the block's visibility.
- Panel.LayerPanel.DisplayLayers: draws the corrected grouping. The TypeError of script.js:129-132 is modelled only by `Grouping.GroupAsWritten` (`Grouping.GroupAsWrittenThrowsIff`). So `SetCatalog`, `OnSearchInput`, `OnSortChange`, `OnActiveFirstChange` and `ToggleLayer` also draw a block where the code throws after emptying the list. The same holds for the lemmas about what is drawn, `Panel.ListShowsEachLayerOnce`, `Panel.SearchShowsExactlyTheMatches` and `Panel.SectionsLabelled`: they describe the corrected grouping, and for a catalog with `toString:roads` the code draws nothing.
- Panel.ToggleTwiceIsIdentity: equality is up to handle identity and the `Map`'s insertion order. Toggling an active name off and on files a new handle at the end of `activeLayers` (script.js:165, then script.js:174), and the map click handler (script.js:197-216, left out) visits the registry in that order and stops at the first layer with a feature. The model's `Registry` is an unordered map.
- Stability of `SortBy` on unsorted input is stated only for the active-first comparator (`Sorting.ActiveFirstIsStablePartition`). Under the name orders two layers tie only when they are equal, because a layer is its name, so stability says nothing there.
- The map library: map creation, `addTo` and `removeLayer`. A WMS layer handle is modelled as the options it is created with (`Panel.WmsLayer`), so handle identity is not captured.
- Network I/O and asynchrony: the fetch in `loadLayers` and its error message, `zoomToLayer`, the map click handler querying GetFeatureInfo, `showAttributes`/`hideAttributes`, and the `fetch` call in `restFetch`. Only the successful catalog replacement is modelled (`LayerPanel.SetCatalog`).
- Sorting in place: `Array.prototype.sort` sorts the copy `[...layers]` in place. The model sorts immutable sequences, so the copy and its aliasing are not modelled. `DisplayLayers` cannot reorder its argument, and the catalog field is outside its frame.
- `localeCompare` locale rules: names are compared by character code.
- `toLowerCase` and the `/i` flag beyond ASCII: only `A`-`Z` are folded. For the `/i` regular expression this is exact, as a non-Unicode pattern does not fold non-ASCII characters onto ASCII ones.
- JavaScript key order for the buckets object: `Object.keys` lists integer-like keys first, in numeric order. The model lists workspaces in first-appearance order (`Grouping.WorkspaceOrder`).
- `btoa` is a parameter. Its error on characters outside Latin-1 is not modelled.
- HTTP header names are case-insensitive when sent. `Config.BuildAuthHeader` treats `authorization` and `Authorization` as different keys, as the object spread does.
- `FetchOptions` carries the method, body and headers of `restFetch`'s options; other option members are not modelled.
- `MAX_FEATURES` is part of `Config.Settings` and is not used by the modelled code.
- The popup-attribute configuration and the table row matching do not appear in `script.js` or `config.js`, so they are not part of this model.

## Findings

| source | as written | input that shows it | evidently intended | confidence | as-written member | corrected member |
|---|---|---|---|---|---|---|
| script.js:124-132 | buckets live in the plain object `{}` and a bucket is created only when `!groups[workspace]` | a layer named `toString:roads` (or `constructor:x`, `__proto__:x`): `groups['toString']` is the inherited function, so no bucket is made and `.push` throws a TypeError, and the whole list fails to draw | every workspace name gets its own bucket | high; not executed | `Grouping.GroupAsWrittenThrowsIff` | `Grouping.GroupByWorkspace` |
