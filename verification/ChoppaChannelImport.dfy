/**
 * Copying channels out of the layouts of other installations, once (src/util/ChoppaChannelImport.cpp).
 *
 * A JSON text is its tree, and two channels are compared by the trees of their identities.
 */
module ChannelImport {

  // ----- JSON, as Qt reads it ---------------------------------------------------------------------------------

  datatype Json =
    | Object(fields: JsonObject)
    | Array(items: seq<Json>)
    | String(text: string)
    | OtherValue(value: int)

  type JsonObject = map<string, Json>

  /** A value that is no object reads as an empty one; the same goes for arrays and texts. */
  function ToObject(value: Json): JsonObject {
    if value.Object? then value.fields else map[]
  }

  function ObjectAt(node: JsonObject, key: string): JsonObject {
    if key in node then ToObject(node[key]) else map[]
  }

  function ItemsAt(node: JsonObject, key: string): seq<Json> {
    if key in node && node[key].Array? then node[key].items else []
  }

  function TextAt(node: JsonObject, key: string): string {
    if key in node && node[key].String? then node[key].text else ""
  }

  // ----- Which channels a tab shows ---------------------------------------------------------------------------

  /** Deeper nodes than this are not looked at. */
  const MAX_DEPTH := 32

  /** Names are compared without case. */
  function FoldedName(fold: string -> string, data: JsonObject): JsonObject {
    if "name" in data then data["name" := String(fold(TextAt(data, "name")))] else data
  }

  /** The channels in a tree of splits, and how they are arranged; empty when there are none. */
  function ChannelIdentity(fold: string -> string, node: JsonObject, depth: nat): JsonObject
    decreases MAX_DEPTH + 1 - depth, 0
  {
    var kind := TextAt(node, "type");
    if depth > MAX_DEPTH then map[]
    else if kind == "split" then
      var data := ObjectAt(node, "data");
      if TextAt(data, "type") == "" || TextAt(data, "type") == "empty" then map[]
      else map["data" := Object(FoldedName(fold, data))]
    else if kind != "horizontal" && kind != "vertical" then map[]
    else
      var items := ItemsAt(node, "items");
      var children := ChildIdentities(fold, items, depth + 1, |items|);
      if children == [] then map[] else map[kind := Array(children)]
  }

  /** The identities of the first `k` children that have one. */
  function ChildIdentities(fold: string -> string, items: seq<Json>, depth: nat, k: nat): seq<Json>
    requires k <= |items| && depth <= MAX_DEPTH + 1
    decreases MAX_DEPTH + 1 - depth, k + 1
  {
    if k == 0 then []
    else
      var identity := ChannelIdentity(fold, ToObject(items[k - 1]), depth);
      ChildIdentities(fold, items, depth, k - 1) + if identity == map[] then [] else [Object(identity)]
  }

  // ----- What an identity tells apart -------------------------------------------------------------------------

  /** The tree shows a channel, at most 32 levels down. */
  predicate HasChannels(node: JsonObject, depth: nat)
    decreases MAX_DEPTH + 1 - depth, 0
  {
    depth <= 32
    && (if TextAt(node, "type") == "split"
        then TextAt(ObjectAt(node, "data"), "type") != "" && TextAt(ObjectAt(node, "data"), "type") != "empty"
        else (TextAt(node, "type") == "horizontal" || TextAt(node, "type") == "vertical")
             && var items := ItemsAt(node, "items"); WithChannels(items, depth + 1, |items|) != [])
  }

  /** Those of the first `k` children that show a channel. */
  function WithChannels(items: seq<Json>, depth: nat, k: nat): seq<Json>
    requires k <= |items| && depth <= MAX_DEPTH + 1
    decreases MAX_DEPTH + 1 - depth, k + 1
  {
    if k == 0 then []
    else if HasChannels(ToObject(items[k - 1]), depth) then WithChannels(items, depth, k - 1) + [items[k - 1]]
    else WithChannels(items, depth, k - 1)
  }

  /** The same channel: the same name, case aside, and otherwise the same data. */
  predicate SameData(fold: string -> string, a: JsonObject, b: JsonObject) {
    a - {"name"} == b - {"name"} && ("name" in a <==> "name" in b)
    && ("name" in a ==> fold(TextAt(a, "name")) == fold(TextAt(b, "name")))
  }

  /** The same channels, arranged in the same way; splits that show none are not looked at. */
  predicate SameChannels(fold: string -> string, a: JsonObject, b: JsonObject, depth: nat)
    decreases MAX_DEPTH + 1 - depth, 0
  {
    HasChannels(a, depth) && HasChannels(b, depth) && TextAt(a, "type") == TextAt(b, "type")
    && if TextAt(a, "type") == "split" then SameData(fold, ObjectAt(a, "data"), ObjectAt(b, "data"))
       else SameChildren(fold, ItemsAt(a, "items"), ItemsAt(b, "items"), depth + 1)
  }

  predicate SameChildren(fold: string -> string, as': seq<Json>, bs: seq<Json>, depth: nat)
    requires depth <= MAX_DEPTH + 1
    decreases MAX_DEPTH + 1 - depth, |as'| + |bs| + 2
  {
    var shownA, shownB := WithChannels(as', depth, |as'|), WithChannels(bs, depth, |bs|);
    |shownA| == |shownB|
    && forall i :: 0 <= i < |shownA| ==> SameChannels(fold, ToObject(shownA[i]), ToObject(shownB[i]), depth)
  }

  lemma {:induction false} FoldedAgree(fold: string -> string, a: JsonObject, b: JsonObject)
    ensures FoldedName(fold, a) == FoldedName(fold, b) <==> SameData(fold, a, b)
  {
    var foldedA, foldedB := FoldedName(fold, a), FoldedName(fold, b);
    assert foldedA - {"name"} == a - {"name"} && foldedB - {"name"} == b - {"name"};
    if SameData(fold, a, b) {
      forall key | key in foldedA ensures key in foldedB && foldedA[key] == foldedB[key] {
        if key != "name" {
          assert key in a - {"name"} && (a - {"name"})[key] == a[key];
        }
      }
      forall key | key in foldedB ensures key in foldedA {
        if key != "name" {
          assert key in b - {"name"};
        }
      }
    }
    assert "name" in a ==> foldedA["name"] == String(fold(TextAt(a, "name")));
    assert "name" in b ==> foldedB["name"] == String(fold(TextAt(b, "name")));
  }

  lemma {:induction false} KindsDiffer()
    ensures "split" != "horizontal" && "split" != "vertical" && "horizontal" != "vertical"
    ensures "data" != "horizontal" && "data" != "vertical"
  {
    assert "split"[0] != "horizontal"[0] && "split"[0] != "vertical"[0] && "horizontal"[0] != "vertical"[0];
    assert "data"[0] != "horizontal"[0] && "data"[0] != "vertical"[0];
  }

  /** A tree is identified exactly if it shows a channel. */
  lemma {:induction false} IdentifiedIfShown(fold: string -> string, node: JsonObject, depth: nat)
    ensures ChannelIdentity(fold, node, depth) != map[] <==> HasChannels(node, depth)
    decreases MAX_DEPTH + 1 - depth, 0
  {
    var kind, identity := TextAt(node, "type"), ChannelIdentity(fold, node, depth);
    KindsDiffer();
    if depth <= MAX_DEPTH {
      if kind == "split" {
        assert identity != map[] ==> "data" in identity;
        assert HasChannels(node, depth) ==> "data" in identity;
      } else if kind == "horizontal" || kind == "vertical" {
        var items := ItemsAt(node, "items");
        ChildrenAreShown(fold, items, depth + 1, |items|);
        assert HasChannels(node, depth) ==> kind in identity;
      }
    }
  }

  /** The identities of the children are those of the children that show a channel, in order. */
  lemma {:induction false} ChildrenAreShown(fold: string -> string, items: seq<Json>, depth: nat, k: nat)
    requires k <= |items| && depth <= MAX_DEPTH + 1
    ensures var identities, shown := ChildIdentities(fold, items, depth, k), WithChannels(items, depth, k);
      |identities| == |shown|
      && forall i :: 0 <= i < |shown| ==> HasChannels(ToObject(shown[i]), depth)
                                          && identities[i] == Object(ChannelIdentity(fold, ToObject(shown[i]), depth))
    decreases MAX_DEPTH + 1 - depth, k + 1
  {
    if k > 0 {
      ChildrenAreShown(fold, items, depth, k - 1);
      IdentifiedIfShown(fold, ToObject(items[k - 1]), depth);
    }
  }

  lemma {:induction false} SplitsAgree(fold: string -> string, a: JsonObject, b: JsonObject, depth: nat)
    requires HasChannels(a, depth) && HasChannels(b, depth)
    requires TextAt(a, "type") == "split" && TextAt(b, "type") == "split"
    ensures ChannelIdentity(fold, a, depth) == ChannelIdentity(fold, b, depth)
       <==> SameData(fold, ObjectAt(a, "data"), ObjectAt(b, "data"))
  {
    var x, y := ChannelIdentity(fold, a, depth), ChannelIdentity(fold, b, depth);
    FoldedAgree(fold, ObjectAt(a, "data"), ObjectAt(b, "data"));
    assert x["data"] == Object(FoldedName(fold, ObjectAt(a, "data")));
    assert y["data"] == Object(FoldedName(fold, ObjectAt(b, "data")));
  }

  /** The identity of a container: its kind, and the identities of its children. */
  lemma {:induction false} ContainersAgree(fold: string -> string, a: JsonObject, b: JsonObject, depth: nat)
    requires HasChannels(a, depth) && HasChannels(b, depth) && TextAt(a, "type") != "split"
    ensures TextAt(a, "type") in ChannelIdentity(fold, a, depth) && TextAt(a, "type") != "data"
    ensures ChannelIdentity(fold, a, depth) == ChannelIdentity(fold, b, depth)
       <==> TextAt(a, "type") == TextAt(b, "type")
            && ChildIdentities(fold, ItemsAt(a, "items"), depth + 1, |ItemsAt(a, "items")|)
            == ChildIdentities(fold, ItemsAt(b, "items"), depth + 1, |ItemsAt(b, "items")|)
  {
    KindsDiffer();
    IdentifiedIfShown(fold, a, depth);
    IdentifiedIfShown(fold, b, depth);
    var x, y := ChannelIdentity(fold, a, depth), ChannelIdentity(fold, b, depth);
    var kind, items := TextAt(a, "type"), ItemsAt(a, "items");
    assert x == map[kind := Array(ChildIdentities(fold, items, depth + 1, |items|))];
    assert kind in x && x[kind].Array?;
  }

  lemma {:induction false} SameContainers(fold: string -> string, a: JsonObject, b: JsonObject, depth: nat)
    requires HasChannels(a, depth) && HasChannels(b, depth) && TextAt(a, "type") != "split"
    ensures depth <= MAX_DEPTH
    ensures SameChannels(fold, a, b, depth)
       <==> TextAt(a, "type") == TextAt(b, "type")
            && SameChildren(fold, ItemsAt(a, "items"), ItemsAt(b, "items"), depth + 1)
  {
  }

  lemma {:induction false} SameSplits(fold: string -> string, a: JsonObject, b: JsonObject, depth: nat)
    requires HasChannels(a, depth) && HasChannels(b, depth) && TextAt(a, "type") == "split"
    ensures SameChannels(fold, a, b, depth)
       <==> TextAt(b, "type") == "split" && SameData(fold, ObjectAt(a, "data"), ObjectAt(b, "data"))
  {
  }

  /** What a split and another tree are identified by. */
  lemma {:induction false} SplitTellsApart(fold: string -> string, a: JsonObject, b: JsonObject, depth: nat)
    requires HasChannels(a, depth) && HasChannels(b, depth) && TextAt(a, "type") == "split"
    ensures ChannelIdentity(fold, a, depth) == ChannelIdentity(fold, b, depth) <==> SameChannels(fold, a, b, depth)
  {
    SameSplits(fold, a, b, depth);
    if TextAt(b, "type") == "split" {
      SplitsAgree(fold, a, b, depth);
    } else {
      ContainersAgree(fold, b, a, depth);
    }
  }

  /** What a container is identified by, given what its children are. */
  lemma {:induction false} ContainerTellsApart(fold: string -> string, a: JsonObject, b: JsonObject, depth: nat)
    requires HasChannels(a, depth) && HasChannels(b, depth) && TextAt(a, "type") != "split" && depth <= MAX_DEPTH
    requires var as', bs := ItemsAt(a, "items"), ItemsAt(b, "items");
      ChildIdentities(fold, as', depth + 1, |as'|) == ChildIdentities(fold, bs, depth + 1, |bs|)
      <==> SameChildren(fold, as', bs, depth + 1)
    ensures ChannelIdentity(fold, a, depth) == ChannelIdentity(fold, b, depth) <==> SameChannels(fold, a, b, depth)
  {
    SameContainers(fold, a, b, depth);
    ContainersAgree(fold, a, b, depth);
  }

  /** Identities tell apart exactly what does not show the same channels in the same arrangement. */
  lemma {:induction false} IdentityTellsApart(fold: string -> string, a: JsonObject, b: JsonObject, depth: nat)
    requires HasChannels(a, depth) && HasChannels(b, depth)
    ensures ChannelIdentity(fold, a, depth) == ChannelIdentity(fold, b, depth) <==> SameChannels(fold, a, b, depth)
    decreases MAX_DEPTH + 1 - depth, 0
  {
    if TextAt(a, "type") == "split" {
      SplitTellsApart(fold, a, b, depth);
    } else {
      ChildrenTellApart(fold, ItemsAt(a, "items"), ItemsAt(b, "items"), depth + 1);
      ContainerTellsApart(fold, a, b, depth);
    }
  }

  lemma {:induction false} ChildrenTellApart(fold: string -> string, as': seq<Json>, bs: seq<Json>, depth: nat)
    requires depth <= MAX_DEPTH + 1
    ensures ChildIdentities(fold, as', depth, |as'|) == ChildIdentities(fold, bs, depth, |bs|)
       <==> SameChildren(fold, as', bs, depth)
    decreases MAX_DEPTH + 1 - depth, 1
  {
    var x, y := ChildIdentities(fold, as', depth, |as'|), ChildIdentities(fold, bs, depth, |bs|);
    var shownA, shownB := WithChannels(as', depth, |as'|), WithChannels(bs, depth, |bs|);
    ChildrenAreShown(fold, as', depth, |as'|);
    ChildrenAreShown(fold, bs, depth, |bs|);
    forall i | 0 <= i < |shownA| && i < |shownB|
      ensures x[i] == y[i] <==> SameChannels(fold, ToObject(shownA[i]), ToObject(shownB[i]), depth)
    {
      IdentityTellsApart(fold, ToObject(shownA[i]), ToObject(shownB[i]), depth);
    }
    if SameChildren(fold, as', bs, depth) {
      forall i | 0 <= i < |x| ensures x[i] == y[i] {
      }
    }
  }

  // ----- Tabs without filters ---------------------------------------------------------------------------------

  /** The tree of splits without the filters of the other installation. */
  function WithoutForeignFilters(node: JsonObject, depth: nat): JsonObject
    decreases MAX_DEPTH + 1 - depth, 0
  {
    if depth > MAX_DEPTH then map[]
    else
      var kept := node - {"filters"};
      if "items" in node then
        var items := ItemsAt(node, "items");
        kept["items" := Array(ChildrenWithoutFilters(items, depth + 1, |items|))]
      else kept
  }

  function ChildrenWithoutFilters(items: seq<Json>, depth: nat, k: nat): (r: seq<Json>)
    requires k <= |items| && depth <= MAX_DEPTH + 1
    ensures |r| == k
    decreases MAX_DEPTH + 1 - depth, k + 1
  {
    if k == 0 then []
    else ChildrenWithoutFilters(items, depth, k - 1) + [Object(WithoutForeignFilters(ToObject(items[k - 1]), depth))]
  }

  /** What the identity looks at is kept, but for the items. */
  lemma {:induction false} KeptFields(node: JsonObject, depth: nat)
    requires depth <= MAX_DEPTH
    ensures var kept, items := WithoutForeignFilters(node, depth), ItemsAt(node, "items");
      TextAt(kept, "type") == TextAt(node, "type") && ObjectAt(kept, "data") == ObjectAt(node, "data")
      && ItemsAt(kept, "items") == ChildrenWithoutFilters(items, depth + 1, |items|)
      && "filters" !in kept
  {
    assert "type"[0] != "filters"[0] && "data"[0] != "filters"[0] && "items"[0] != "filters"[0];
    assert "type"[0] != "items"[0] && "data"[0] != "items"[0];
  }

  /** Nodes of the same kind with the same data and the same identities below them are identified in the same way. */
  lemma {:induction false} SameIdentity(fold: string -> string, a: JsonObject, b: JsonObject, depth: nat)
    requires depth <= MAX_DEPTH
    requires TextAt(a, "type") == TextAt(b, "type") && ObjectAt(a, "data") == ObjectAt(b, "data")
    requires ChildIdentities(fold, ItemsAt(a, "items"), depth + 1, |ItemsAt(a, "items")|)
          == ChildIdentities(fold, ItemsAt(b, "items"), depth + 1, |ItemsAt(b, "items")|)
    ensures ChannelIdentity(fold, a, depth) == ChannelIdentity(fold, b, depth)
  {
  }

  /** Taking the filters away does not change which channels there are, at any depth. */
  lemma {:induction false} FiltersAreNotIdentity(fold: string -> string, node: JsonObject, depth: nat)
    ensures ChannelIdentity(fold, WithoutForeignFilters(node, depth), depth) == ChannelIdentity(fold, node, depth)
    decreases MAX_DEPTH + 1 - depth, 0
  {
    if depth <= MAX_DEPTH {
      var items := ItemsAt(node, "items");
      KeptFields(node, depth);
      ChildrenKeepIdentity(fold, items, ChildrenWithoutFilters(items, depth + 1, |items|), depth + 1, |items|);
      SameIdentity(fold, WithoutForeignFilters(node, depth), node, depth);
    }
  }

  lemma {:induction false} ChildrenKeepIdentity(fold: string -> string, items: seq<Json>, stripped: seq<Json>,
      depth: nat, k: nat)
    requires k <= |items| && k <= |stripped| && depth <= MAX_DEPTH + 1
    requires stripped[..k] == ChildrenWithoutFilters(items, depth, k)
    ensures ChildIdentities(fold, stripped, depth, k) == ChildIdentities(fold, items, depth, k)
    decreases MAX_DEPTH + 1 - depth, k + 1
  {
    if k > 0 {
      assert stripped[..k - 1] == stripped[..k][..k - 1];
      assert stripped[k - 1] == stripped[..k][k - 1];
      ChildrenKeepIdentity(fold, items, stripped, depth, k - 1);
      FiltersAreNotIdentity(fold, ToObject(items[k - 1]), depth);
    }
  }

  /** No node of the tree has filters. */
  predicate NoFilters(node: JsonObject, depth: nat)
    decreases MAX_DEPTH + 1 - depth, 0
  {
    "filters" !in node
    && (depth <= MAX_DEPTH ==> var items := ItemsAt(node, "items"); NoFiltersIn(items, depth + 1, |items|))
  }

  predicate NoFiltersIn(items: seq<Json>, depth: nat, k: nat)
    requires k <= |items| && depth <= MAX_DEPTH + 1
    decreases MAX_DEPTH + 1 - depth, k + 1
  {
    k == 0 || (NoFiltersIn(items, depth, k - 1) && NoFilters(ToObject(items[k - 1]), depth))
  }

  lemma {:induction false} FiltersAreGone(node: JsonObject, depth: nat)
    ensures NoFilters(WithoutForeignFilters(node, depth), depth)
    decreases MAX_DEPTH + 1 - depth, 0
  {
    if depth <= MAX_DEPTH {
      var items := ItemsAt(node, "items");
      KeptFields(node, depth);
      ChildrenHaveNone(items, ChildrenWithoutFilters(items, depth + 1, |items|), depth + 1, |items|);
    }
  }

  lemma {:induction false} ChildrenHaveNone(items: seq<Json>, stripped: seq<Json>, depth: nat, k: nat)
    requires k <= |items| && k <= |stripped| && depth <= MAX_DEPTH + 1
    requires stripped[..k] == ChildrenWithoutFilters(items, depth, k)
    ensures NoFiltersIn(stripped, depth, k)
    decreases MAX_DEPTH + 1 - depth, k + 1
  {
    if k > 0 {
      assert stripped[..k - 1] == stripped[..k][..k - 1];
      assert stripped[k - 1] == stripped[..k][k - 1];
      ChildrenHaveNone(items, stripped, depth, k - 1);
      FiltersAreGone(ToObject(items[k - 1]), depth);
    }
  }

  /** The second tree is the first one, but for filters and for what is too deep to be looked at. */
  predicate OnlyFiltersGone(before: JsonObject, after: JsonObject, depth: nat)
    decreases MAX_DEPTH + 1 - depth, 0
  {
    if depth > 32 then after == map[]
    else
      var items, items' := ItemsAt(before, "items"), ItemsAt(after, "items");
      after - {"items"} == before - {"items", "filters"}
      && ("items" in after <==> "items" in before)
      && |items'| == |items| && OnlyFiltersGoneIn(items, items', depth + 1, |items|)
  }

  predicate OnlyFiltersGoneIn(items: seq<Json>, items': seq<Json>, depth: nat, k: nat)
    requires k <= |items| == |items'| && depth <= MAX_DEPTH + 1
    decreases MAX_DEPTH + 1 - depth, k + 1
  {
    k == 0 || (OnlyFiltersGoneIn(items, items', depth, k - 1)
               && OnlyFiltersGone(ToObject(items[k - 1]), ToObject(items'[k - 1]), depth))
  }

  lemma {:induction false} NothingElseIsGone(node: JsonObject, depth: nat)
    ensures OnlyFiltersGone(node, WithoutForeignFilters(node, depth), depth)
    decreases MAX_DEPTH + 1 - depth, 0
  {
    if depth <= MAX_DEPTH {
      var items := ItemsAt(node, "items");
      KeptFields(node, depth);
      NothingElseIsGoneIn(items, ChildrenWithoutFilters(items, depth + 1, |items|), depth + 1, |items|);
    }
  }

  lemma {:induction false} NothingElseIsGoneIn(items: seq<Json>, stripped: seq<Json>, depth: nat, k: nat)
    requires k <= |items| == |stripped| && depth <= MAX_DEPTH + 1
    requires stripped[..k] == ChildrenWithoutFilters(items, depth, k)
    ensures OnlyFiltersGoneIn(items, stripped, depth, k)
    decreases MAX_DEPTH + 1 - depth, k + 1
  {
    if k > 0 {
      assert stripped[..k - 1] == stripped[..k][..k - 1];
      assert stripped[k - 1] == stripped[..k][k - 1];
      NothingElseIsGoneIn(items, stripped, depth, k - 1);
      NothingElseIsGone(ToObject(items[k - 1]), depth);
    }
  }

  // ----- Which tabs are imported ------------------------------------------------------------------------------

  /** What identifies the channels of a tab. */
  type Identifier = Json -> JsonObject

  function TabIdentity(fold: string -> string): Identifier {
    tab => ChannelIdentity(fold, ObjectAt(ToObject(tab), "splits2"), 0)
  }

  /** A tab as it is imported. */
  function Cleaned(tab: Json): Json {
    var fields := ToObject(tab);
    Object((fields - {"selected"})["splits2" := Object(WithoutForeignFilters(ObjectAt(fields, "splits2"), 0))])
  }

  /** Cleaning takes away the selection and the filters, and nothing else. */
  lemma {:induction false} CleanedKeepsTheRest(tab: Json)
    ensures var before, after := ToObject(tab), ToObject(Cleaned(tab));
      "selected" !in after && after - {"splits2"} == before - {"selected", "splits2"}
      && NoFilters(ObjectAt(after, "splits2"), 0)
      && OnlyFiltersGone(ObjectAt(before, "splits2"), ObjectAt(after, "splits2"), 0)
  {
    assert "selected"[1] != "splits2"[1];
    FiltersAreGone(ObjectAt(ToObject(tab), "splits2"), 0);
    NothingElseIsGone(ObjectAt(ToObject(tab), "splits2"), 0);
  }

  /** Cleaning a tab does not change what identifies it. */
  ghost predicate SurvivesCleaning(id: Identifier) {
    forall tab :: id(Cleaned(tab)) == id(tab)
  }

  lemma {:induction false} IdentitySurvivesCleaning(fold: string -> string)
    ensures SurvivesCleaning(TabIdentity(fold))
  {
    forall tab ensures TabIdentity(fold)(Cleaned(tab)) == TabIdentity(fold)(tab) {
      FiltersAreNotIdentity(fold, ObjectAt(ToObject(tab), "splits2"), 0);
    }
  }

  /** The identities seen so far, and the tabs that are imported. */
  datatype Scan = Scan(seen: set<JsonObject>, imported: seq<Json>)

  function ScanTab(id: Identifier, scan: Scan, tab: Json): Scan {
    var identity := id(tab);
    if identity == map[] || identity in scan.seen then scan
    else Scan(scan.seen + {identity}, scan.imported + [Cleaned(tab)])
  }

  /** After the first `k` tabs. */
  function ScanTabs(id: Identifier, scan: Scan, tabs: seq<Json>, k: nat): Scan
    requires k <= |tabs|
  {
    if k == 0 then scan else ScanTab(id, ScanTabs(id, scan, tabs, k - 1), tabs[k - 1])
  }

  function ScanAll(id: Identifier, scan: Scan, tabs: seq<Json>): Scan {
    ScanTabs(id, scan, tabs, |tabs|)
  }

  /** The identities among the first `k` tabs; tabs without channels have none. */
  function IdentitiesOf(id: Identifier, tabs: seq<Json>, k: nat): set<JsonObject>
    requires k <= |tabs|
  {
    if k == 0 then {} else
      var identity := id(tabs[k - 1]);
      IdentitiesOf(id, tabs, k - 1) + if identity == map[] then {} else {identity}
  }

  /** How many of the first `k` tabs show just these channels. */
  function CountOf(id: Identifier, tabs: seq<Json>, identity: JsonObject, k: nat): nat
    requires k <= |tabs|
  {
    if k == 0 then 0 else
      CountOf(id, tabs, identity, k - 1) + if id(tabs[k - 1]) == identity then 1 else 0
  }

  function Count(id: Identifier, tabs: seq<Json>, identity: JsonObject): nat {
    CountOf(id, tabs, identity, |tabs|)
  }

  lemma {:induction false} CountPrefix(id: Identifier, tabs: seq<Json>, more: seq<Json>, identity: JsonObject, k: nat)
    requires k <= |tabs|
    ensures CountOf(id, tabs + more, identity, k) == CountOf(id, tabs, identity, k)
  {
    if k > 0 {
      CountPrefix(id, tabs, more, identity, k - 1);
    }
  }

  lemma {:induction false} CountConcat(id: Identifier, tabs: seq<Json>, more: seq<Json>, identity: JsonObject, k: nat)
    requires k <= |more|
    ensures CountOf(id, tabs + more, identity, |tabs| + k) == Count(id, tabs, identity) + CountOf(id, more, identity, k)
  {
    if k == 0 {
      CountPrefix(id, tabs, more, identity, |tabs|);
    } else {
      CountConcat(id, tabs, more, identity, k - 1);
    }
  }

  lemma {:induction false} CountsAdd(id: Identifier, tabs: seq<Json>, more: seq<Json>, identity: JsonObject)
    ensures Count(id, tabs + more, identity) == Count(id, tabs, identity) + Count(id, more, identity)
  {
    CountConcat(id, tabs, more, identity, |more|);
  }

  lemma {:induction false} CountedIsIdentity(id: Identifier, tabs: seq<Json>, identity: JsonObject, k: nat)
    requires k <= |tabs| && identity != map[]
    ensures identity in IdentitiesOf(id, tabs, k) <==> CountOf(id, tabs, identity, k) > 0
  {
    if k > 0 {
      CountedIsIdentity(id, tabs, identity, k - 1);
    }
  }

  lemma {:induction false} ScanTabCounts(id: Identifier, scan: Scan, tab: Json, identity: JsonObject)
    requires SurvivesCleaning(id) && identity != map[]
    ensures Count(id, ScanTab(id, scan, tab).imported, identity)
         == Count(id, scan.imported, identity) + if id(tab) == identity && identity !in scan.seen then 1 else 0
    ensures identity in ScanTab(id, scan, tab).seen <==> identity in scan.seen || id(tab) == identity
  {
    CountsAdd(id, scan.imported, [Cleaned(tab)], identity);
    assert CountOf(id, [Cleaned(tab)], identity, 1) == if id(tab) == identity then 1 else 0;
  }

  /** Of every identity that was not seen before, one tab is imported if there is one; of the others none. */
  lemma {:induction false} ScanCounts(id: Identifier, seen: set<JsonObject>, tabs: seq<Json>, k: nat,
      identity: JsonObject)
    requires SurvivesCleaning(id) && k <= |tabs| && identity != map[]
    ensures var scan := ScanTabs(id, Scan(seen, []), tabs, k);
      (identity in scan.seen <==> identity in seen || CountOf(id, tabs, identity, k) > 0)
      && Count(id, scan.imported, identity) == if identity !in seen && CountOf(id, tabs, identity, k) > 0 then 1 else 0
  {
    if k > 0 {
      ScanCounts(id, seen, tabs, k - 1, identity);
      ScanTabCounts(id, ScanTabs(id, Scan(seen, []), tabs, k - 1), tabs[k - 1], identity);
    }
  }

  /** Nothing is imported exactly if nothing is new. */
  lemma {:induction false} NothingNew(id: Identifier, seen: set<JsonObject>, tabs: seq<Json>, k: nat)
    requires k <= |tabs|
    ensures ScanTabs(id, Scan(seen, []), tabs, k).imported == [] <==> IdentitiesOf(id, tabs, k) <= seen
    ensures ScanTabs(id, Scan(seen, []), tabs, k).seen == seen + IdentitiesOf(id, tabs, k)
  {
    if k > 0 {
      NothingNew(id, seen, tabs, k - 1);
    }
  }

  /** Tab `p` is the first one with its channels, and they were not seen before. */
  predicate IsNew(id: Identifier, seen: set<JsonObject>, tabs: seq<Json>, p: nat)
    requires p < |tabs|
  {
    id(tabs[p]) != map[] && id(tabs[p]) !in seen && id(tabs[p]) !in IdentitiesOf(id, tabs, p)
  }

  /** The new ones among the first `k` tabs, in order, as they are imported. */
  function Picks(id: Identifier, seen: set<JsonObject>, tabs: seq<Json>, k: nat): seq<Json>
    requires k <= |tabs|
  {
    if k == 0 then []
    else Picks(id, seen, tabs, k - 1) + if IsNew(id, seen, tabs, k - 1) then [Cleaned(tabs[k - 1])] else []
  }

  /** The scan, which remembers what it has seen, imports exactly the new tabs, in order. */
  lemma {:induction false} ScanPicks(id: Identifier, seen: set<JsonObject>, tabs: seq<Json>, k: nat)
    requires k <= |tabs|
    ensures ScanTabs(id, Scan(seen, []), tabs, k).imported == Picks(id, seen, tabs, k)
  {
    if k > 0 {
      ScanPicks(id, seen, tabs, k - 1);
      NothingNew(id, seen, tabs, k - 1);
    }
  }

  // ----- Layouts ----------------------------------------------------------------------------------------------

  function TabsOf(window: Json): seq<Json> {
    ItemsAt(ToObject(window), "tabs")
  }

  function Windows(layout: JsonObject): seq<Json> {
    ItemsAt(layout, "windows")
  }

  /** The tabs of the first `k` windows. */
  function TabsUpTo(windows: seq<Json>, k: nat): seq<Json>
    requires k <= |windows|
  {
    if k == 0 then [] else TabsUpTo(windows, k - 1) + TabsOf(windows[k - 1])
  }

  function AllTabs(layout: JsonObject): seq<Json> {
    TabsUpTo(Windows(layout), |Windows(layout)|)
  }

  predicate IsMain(window: Json) {
    "type" in ToObject(window) && ToObject(window)["type"] == String("main")
  }

  /** The last main window among the first `k`, or -1. */
  function MainIndex(windows: seq<Json>, k: nat): (i: int)
    requires k <= |windows|
    ensures -1 <= i < k && (i >= 0 ==> IsMain(windows[i]))
    ensures forall j :: i < j < k ==> !IsMain(windows[j])
  {
    if k == 0 then -1 else if IsMain(windows[k - 1]) then k - 1 else MainIndex(windows, k - 1)
  }

  const NEW_MAIN := Object(map["type" := String("main"), "width" := OtherValue(780), "height" := OtherValue(510)])

  function WithTabs(window: Json, imported: seq<Json>): Json {
    Object(ToObject(window)["tabs" := Array(TabsOf(window) + imported)])
  }

  /** The windows, with a main window if there was none, to which the imported tabs are added. */
  function WithImported(windows: seq<Json>, imported: seq<Json>): seq<Json> {
    var i := MainIndex(windows, |windows|);
    if i < 0 then windows + [WithTabs(NEW_MAIN, imported)] else windows[i := WithTabs(windows[i], imported)]
  }

  function LayoutWith(layout: JsonObject, imported: seq<Json>): JsonObject {
    layout["windows" := Array(WithImported(Windows(layout), imported))]
  }

  /** Every window stays, with all it has; only behind its tabs there may be more of them. */
  ghost predicate WindowExtends(before: Json, after: Json) {
    after == before || (ToObject(after) - {"tabs"} == ToObject(before) - {"tabs"} && TabsOf(before) <= TabsOf(after))
  }

  ghost predicate LayoutExtends(before: JsonObject, after: JsonObject) {
    after - {"windows"} == before - {"windows"} && |Windows(before)| <= |Windows(after)|
    && forall i :: 0 <= i < |Windows(before)| ==> WindowExtends(Windows(before)[i], Windows(after)[i])
  }

  lemma {:induction false} WindowExtendsTwice(a: Json, b: Json, c: Json)
    requires WindowExtends(a, b) && WindowExtends(b, c)
    ensures WindowExtends(a, c)
  {
  }

  lemma {:induction false} LayoutExtendsTwice(a: JsonObject, b: JsonObject, c: JsonObject)
    requires LayoutExtends(a, b) && LayoutExtends(b, c)
    ensures LayoutExtends(a, c)
  {
    forall i | 0 <= i < |Windows(a)| ensures WindowExtends(Windows(a)[i], Windows(c)[i]) {
      WindowExtendsTwice(Windows(a)[i], Windows(b)[i], Windows(c)[i]);
    }
  }

  lemma {:induction false} WithTabsExtends(window: Json, imported: seq<Json>)
    ensures WindowExtends(window, WithTabs(window, imported))
    ensures TabsOf(WithTabs(window, imported)) == TabsOf(window) + imported
  {
    assert ToObject(WithTabs(window, imported)) - {"tabs"} == ToObject(window) - {"tabs"};
  }

  lemma {:induction false} ImportExtends(layout: JsonObject, imported: seq<Json>)
    ensures LayoutExtends(layout, LayoutWith(layout, imported))
  {
    var windows := Windows(layout);
    var i := MainIndex(windows, |windows|);
    if i >= 0 {
      WithTabsExtends(windows[i], imported);
    }
    assert Windows(LayoutWith(layout, imported)) == WithImported(windows, imported);
    assert LayoutWith(layout, imported) - {"windows"} == layout - {"windows"};
  }

  /** Where the imported tabs go: behind those of the last main window, or into a new one. */
  lemma {:induction false} ImportLands(windows: seq<Json>, imported: seq<Json>, i: nat)
    ensures (forall j :: 0 <= j < |windows| ==> !IsMain(windows[j])) ==>
      var after := WithImported(windows, imported);
      |after| == |windows| + 1 && after[..|windows|] == windows
      && IsMain(after[|windows|]) && TabsOf(after[|windows|]) == imported
    ensures i < |windows| && IsMain(windows[i]) && (forall j :: i < j < |windows| ==> !IsMain(windows[j])) ==>
      var after := WithImported(windows, imported);
      |after| == |windows| && after == windows[i := after[i]]
      && IsMain(after[i]) && TabsOf(after[i]) == TabsOf(windows[i]) + imported
  {
    assert "type" != "tabs" by { assert "type"[1] != "tabs"[1]; }
    var m := MainIndex(windows, |windows|);
    if m < 0 {
      WithTabsExtends(NEW_MAIN, imported);
      assert "tabs" !in ToObject(NEW_MAIN) by {
        assert "tabs"[0] != "width"[0] && "tabs"[0] != "height"[0];
      }
      assert TabsOf(WithTabs(NEW_MAIN, imported)) == imported;
    } else {
      WithTabsExtends(windows[m], imported);
    }
  }

  // ----- How many tabs show the same channels ---------------------------------------------------------------------

  /** Windows that differ only in window `i`, which has more tabs in the second list. */
  lemma {:induction false} CountWithMore(id: Identifier, windows: seq<Json>, i: nat, after: Json, imported: seq<Json>,
                                         identity: JsonObject, k: nat)
    requires i < |windows| && k <= |windows| && TabsOf(after) == TabsOf(windows[i]) + imported
    ensures Count(id, TabsUpTo(windows[i := after], k), identity)
         == Count(id, TabsUpTo(windows, k), identity) + if i < k then Count(id, imported, identity) else 0
  {
    if k > 0 {
      CountWithMore(id, windows, i, after, imported, identity, k - 1);
      CountsAdd(id, TabsUpTo(windows, k - 1), TabsOf(windows[k - 1]), identity);
      CountsAdd(id, TabsUpTo(windows[i := after], k - 1), TabsOf(windows[i := after][k - 1]), identity);
      CountsAdd(id, TabsOf(windows[i]), imported, identity);
    }
  }

  lemma {:induction false} TabsPrefix(windows: seq<Json>, more: seq<Json>, k: nat)
    requires k <= |windows|
    ensures TabsUpTo(windows + more, k) == TabsUpTo(windows, k)
  {
    if k > 0 {
      TabsPrefix(windows, more, k - 1);
    }
  }

  lemma {:induction false} NewMainCounts(id: Identifier, windows: seq<Json>, imported: seq<Json>, identity: JsonObject)
    ensures var after := windows + [WithTabs(NEW_MAIN, imported)];
      Count(id, TabsUpTo(after, |after|), identity)
      == Count(id, TabsUpTo(windows, |windows|), identity) + Count(id, imported, identity)
  {
    var window := WithTabs(NEW_MAIN, imported);
    WithTabsExtends(NEW_MAIN, imported);
    assert TabsOf(NEW_MAIN) == [];
    assert TabsOf(window) == imported;
    TabsPrefix(windows, [window], |windows|);
    CountsAdd(id, TabsUpTo(windows, |windows|), imported, identity);
  }

  lemma {:induction false} WindowsCount(id: Identifier, windows: seq<Json>, imported: seq<Json>, identity: JsonObject)
    ensures var after := WithImported(windows, imported);
      Count(id, TabsUpTo(after, |after|), identity)
      == Count(id, TabsUpTo(windows, |windows|), identity) + Count(id, imported, identity)
  {
    var i := MainIndex(windows, |windows|);
    if i < 0 {
      NewMainCounts(id, windows, imported, identity);
    } else {
      WithTabsExtends(windows[i], imported);
      CountWithMore(id, windows, i, WithTabs(windows[i], imported), imported, identity, |windows|);
    }
  }

  /** The layout has just the imported tabs in addition. */
  lemma {:induction false} ImportCounts(id: Identifier, layout: JsonObject, imported: seq<Json>, identity: JsonObject)
    ensures Count(id, AllTabs(LayoutWith(layout, imported)), identity)
         == Count(id, AllTabs(layout), identity) + Count(id, imported, identity)
  {
    assert Windows(LayoutWith(layout, imported)) == WithImported(Windows(layout), imported);
    WindowsCount(id, Windows(layout), imported, identity);
  }

  // ----- Files and runs -------------------------------------------------------------------------------------------

  /** What is at a path; `Garbled` is a file that holds no JSON. */
  datatype File = Absent | Garbled | Holds(document: Json)

  datatype Disk = Disk(destination: File, backup: File, marker: bool)

  /** A layout of another installation; its path may turn out to be that of the destination. */
  datatype Source = Source(isDestination: bool, file: File)

  /** How texts are compared, and which documents can be opened and are not too large. */
  datatype Environment = Environment(fold: string -> string, fits: Json -> bool)

  /**
   * Which of the steps on the disk succeed.  A process that is stopped before a step leaves the same
   * files behind as one in which that step failed.
   */
  datatype Fate = Fate(copied: bool, committed: bool, marked: bool)

  datatype Outcome = Outcome(disk: Disk, imported: nat)

  /** The layout in a file, or an empty object for a file that holds none. */
  function ReadLayout(fits: Json -> bool, file: File): JsonObject {
    if file.Holds? && fits(file.document) && file.document.Object?
       && "windows" in file.document.fields && file.document.fields["windows"].Array?
    then file.document.fields
    else map[]
  }

  function SourceTabs(fits: Json -> bool, source: Source): seq<Json> {
    if source.isDestination then [] else AllTabs(ReadLayout(fits, source.file))
  }

  /** The tabs of the first `k` sources. */
  function TabsOfSources(fits: Json -> bool, sources: seq<Source>, k: nat): seq<Json>
    requires k <= |sources|
  {
    if k == 0 then [] else TabsOfSources(fits, sources, k - 1) + SourceTabs(fits, sources[k - 1])
  }

  function Offered(fits: Json -> bool, sources: seq<Source>): seq<Json> {
    TabsOfSources(fits, sources, |sources|)
  }

  function SeenIn(id: Identifier, tabs: seq<Json>): set<JsonObject> {
    IdentitiesOf(id, tabs, |tabs|)
  }

  /** The offered tabs with channels that the layout does not have yet. */
  function NewTabs(id: Identifier, layout: JsonObject, offered: seq<Json>): seq<Json> {
    ScanAll(id, Scan(SeenIn(id, AllTabs(layout)), []), offered).imported
  }

  /** Writing the layout with the imported tabs, behind a backup. */
  function Written(disk: Disk, layout: JsonObject, imported: seq<Json>, fate: Fate): Outcome {
    var needsBackup := disk.destination != Absent && disk.backup == Absent;
    if needsBackup && !fate.copied then Outcome(disk, 0)
    else
      var safe := if needsBackup then disk.(backup := disk.destination) else disk;
      if !fate.committed then Outcome(safe, 0)
      else Outcome(Disk(Holds(Object(LayoutWith(layout, imported))), safe.backup, fate.marked), |imported|)
  }

  /** One run of the import. */
  function Import(env: Environment, disk: Disk, sources: seq<Source>, fate: Fate): Outcome {
    var layout := ReadLayout(env.fits, disk.destination);
    var imported := NewTabs(TabIdentity(env.fold), layout, Offered(env.fits, sources));
    if disk.marker || (disk.destination != Absent && layout == map[]) || imported == [] then Outcome(disk, 0)
    else Written(disk, layout, imported, fate)
  }

  // ----- The loops ------------------------------------------------------------------------------------------------

  lemma {:induction false} IdentitiesConcat(id: Identifier, a: seq<Json>, b: seq<Json>, k: nat)
    requires k <= |b|
    ensures IdentitiesOf(id, a + b, |a| + k) == SeenIn(id, a) + IdentitiesOf(id, b, k)
  {
    if k == 0 {
      IdentitiesPrefix(id, a, b, |a|);
    } else {
      IdentitiesConcat(id, a, b, k - 1);
    }
  }

  lemma {:induction false} IdentitiesPrefix(id: Identifier, a: seq<Json>, b: seq<Json>, k: nat)
    requires k <= |a|
    ensures IdentitiesOf(id, a + b, k) == IdentitiesOf(id, a, k)
  {
    if k > 0 {
      IdentitiesPrefix(id, a, b, k - 1);
    }
  }

  lemma {:induction false} ScanPrefix(id: Identifier, scan: Scan, a: seq<Json>, b: seq<Json>, k: nat)
    requires k <= |a|
    ensures ScanTabs(id, scan, a + b, k) == ScanTabs(id, scan, a, k)
  {
    if k > 0 {
      ScanPrefix(id, scan, a, b, k - 1);
    }
  }

  lemma {:induction false} ScanConcat(id: Identifier, scan: Scan, a: seq<Json>, b: seq<Json>, k: nat)
    requires k <= |b|
    ensures ScanTabs(id, scan, a + b, |a| + k) == ScanTabs(id, ScanTabs(id, scan, a, |a|), b, k)
  {
    if k == 0 {
      ScanPrefix(id, scan, a, b, |a|);
    } else {
      ScanConcat(id, scan, a, b, k - 1);
    }
  }

  lemma {:induction false} ScanAllConcat(id: Identifier, scan: Scan, a: seq<Json>, b: seq<Json>)
    ensures ScanAll(id, scan, a + b) == ScanAll(id, ScanAll(id, scan, a), b)
  {
    ScanConcat(id, scan, a, b, |b|);
  }

  lemma {:induction false} ScanNextWindow(id: Identifier, scan: Scan, windows: seq<Json>, i: nat)
    requires i < |windows|
    ensures ScanAll(id, scan, TabsUpTo(windows, i + 1))
         == ScanAll(id, ScanAll(id, scan, TabsUpTo(windows, i)), TabsOf(windows[i]))
  {
    ScanAllConcat(id, scan, TabsUpTo(windows, i), TabsOf(windows[i]));
  }

  lemma {:induction false} ScanNextSource(id: Identifier, fits: Json -> bool, scan: Scan, sources: seq<Source>, i: nat)
    requires i < |sources|
    ensures ScanAll(id, scan, TabsOfSources(fits, sources, i + 1))
         == ScanAll(id, ScanAll(id, scan, TabsOfSources(fits, sources, i)), SourceTabs(fits, sources[i]))
  {
    ScanAllConcat(id, scan, TabsOfSources(fits, sources, i), SourceTabs(fits, sources[i]));
  }

  lemma {:induction false} SeeNextWindow(id: Identifier, windows: seq<Json>, i: nat)
    requires i < |windows|
    ensures SeenIn(id, TabsUpTo(windows, i + 1)) == SeenIn(id, TabsUpTo(windows, i)) + SeenIn(id, TabsOf(windows[i]))
  {
    IdentitiesConcat(id, TabsUpTo(windows, i), TabsOf(windows[i]), |TabsOf(windows[i])|);
  }

  method CollectIdentities(id: Identifier, tabs: seq<Json>, seen: set<JsonObject>) returns (all: set<JsonObject>)
    ensures all == seen + SeenIn(id, tabs)
  {
    all := seen;
    for k := 0 to |tabs|
      invariant all == seen + IdentitiesOf(id, tabs, k)
    {
      var identity := id(tabs[k]);
      if identity != map[] {
        all := all + {identity};
      }
    }
  }

  /** The identities in the windows of the destination, and its last main window. */
  method CollectSeen(id: Identifier, windows: seq<Json>) returns (seen: set<JsonObject>, mainIndex: int)
    ensures seen == SeenIn(id, TabsUpTo(windows, |windows|)) && mainIndex == MainIndex(windows, |windows|)
  {
    seen, mainIndex := {}, -1;
    for i := 0 to |windows|
      invariant seen == SeenIn(id, TabsUpTo(windows, i)) && mainIndex == MainIndex(windows, i)
    {
      if IsMain(windows[i]) {
        mainIndex := i;
      }
      SeeNextWindow(id, windows, i);
      seen := CollectIdentities(id, TabsOf(windows[i]), seen);
    }
  }

  /** The tabs of one list that were not seen yet. */
  method CollectTabs(id: Identifier, tabs: seq<Json>, scan: Scan) returns (next: Scan)
    ensures next == ScanAll(id, scan, tabs)
  {
    var seen, imported := scan.seen, scan.imported;
    for k := 0 to |tabs|
      invariant Scan(seen, imported) == ScanTabs(id, scan, tabs, k)
    {
      var identity := id(tabs[k]);
      if identity != map[] && identity !in seen {
        seen := seen + {identity};
        imported := imported + [Cleaned(tabs[k])];
      }
    }
    next := Scan(seen, imported);
  }

  method CollectWindows(id: Identifier, windows: seq<Json>, scan: Scan) returns (next: Scan)
    ensures next == ScanAll(id, scan, TabsUpTo(windows, |windows|))
  {
    next := scan;
    for i := 0 to |windows|
      invariant next == ScanAll(id, scan, TabsUpTo(windows, i))
    {
      ScanNextWindow(id, scan, windows, i);
      next := CollectTabs(id, TabsOf(windows[i]), next);
    }
  }

  /** The tabs of one source; the destination itself is no source. */
  method CollectSource(id: Identifier, fits: Json -> bool, source: Source, scan: Scan) returns (next: Scan)
    ensures next == ScanAll(id, scan, SourceTabs(fits, source))
  {
    next := scan;
    if !source.isDestination {
      next := CollectWindows(id, Windows(ReadLayout(fits, source.file)), scan);
    }
  }

  method CollectNew(id: Identifier, fits: Json -> bool, sources: seq<Source>,
      seen: set<JsonObject>) returns (imported: seq<Json>)
    ensures imported == ScanAll(id, Scan(seen, []), Offered(fits, sources)).imported
  {
    var start := Scan(seen, []);
    var scan := start;
    for i := 0 to |sources|
      invariant scan == ScanAll(id, start, TabsOfSources(fits, sources, i))
    {
      ScanNextSource(id, fits, start, sources, i);
      scan := CollectSource(id, fits, sources[i], scan);
    }
    imported := scan.imported;
  }

  /** Adds the imported tabs to the main window, which is made if there is none. */
  method AddToMain(windows: seq<Json>, mainIndex: int, imported: seq<Json>) returns (after: seq<Json>)
    requires mainIndex == MainIndex(windows, |windows|)
    ensures after == WithImported(windows, imported)
  {
    var i := mainIndex;
    after := windows;
    if i < 0 {
      i := |windows|;
      after := after + [NEW_MAIN];
    }
    after := after[i := WithTabs(after[i], imported)];
  }

  /** The files that the import works on. */
  class Profile {
    var destination: File
    var backup: File
    var marker: bool

    constructor (disk: Disk)
      ensures OnDisk() == disk
    {
      destination, backup, marker := disk.destination, disk.backup, disk.marker;
    }

    function OnDisk(): Disk
      reads this
    {
      Disk(destination, backup, marker)
    }

    /** Backup, layout and marker are written one after the other. */
    method Write(layout: JsonObject, windows: seq<Json>, ghost imported: seq<Json>, count: nat,
        fate: Fate) returns (written: nat)
      requires windows == WithImported(Windows(layout), imported) && count == |imported|
      modifies this
      ensures Outcome(OnDisk(), written) == Written(old(OnDisk()), layout, imported, fate)
    {
      if destination != Absent && backup == Absent {
        if !fate.copied {
          return 0;
        }
        backup := destination;
      }
      if !fate.committed {
        return 0;
      }
      destination := Holds(Object(layout["windows" := Array(windows)]));
      marker := fate.marked;
      return count;
    }

    /** The import; the result is the number of imported tabs. */
    method ImportChoppaChannels(env: Environment, sources: seq<Source>, fate: Fate) returns (count: nat)
      modifies this
      ensures Outcome(OnDisk(), count) == Import(env, old(OnDisk()), sources, fate)
    {
      if marker {
        return 0;
      }
      var target := ReadLayout(env.fits, destination);
      if destination != Absent && target == map[] {
        return 0;
      }
      var seen, mainIndex := CollectSeen(TabIdentity(env.fold), Windows(target));
      var imported := CollectNew(TabIdentity(env.fold), env.fits, sources, seen);
      if imported == [] {
        return 0;
      }
      var windows := AddToMain(Windows(target), mainIndex, imported);
      count := Write(target, windows, imported, |imported|, fate);
    }
  }

  // ----- Any number of runs -----------------------------------------------------------------------------------------

  datatype Run = Run(sources: seq<Source>, fate: Fate)

  function After(env: Environment, disk: Disk, runs: seq<Run>): Disk
    decreases |runs|
  {
    if runs == [] then disk else After(env, Import(env, disk, runs[0].sources, runs[0].fate).disk, runs[1..])
  }

  predicate HoldsLayout(file: File) {
    file.Holds? && file.document.Object?
  }

  /** A file is left alone, or made, or its windows and tabs are all still there, in place and in order. */
  ghost predicate FileExtends(before: File, after: File) {
    after == before
    || (HoldsLayout(after)
        && (before == Absent || (HoldsLayout(before) && LayoutExtends(before.document.fields, after.document.fields))))
  }

  lemma {:induction false} FileExtendsTwice(a: File, b: File, c: File)
    requires FileExtends(a, b) && FileExtends(b, c)
    ensures FileExtends(a, c)
  {
    if a != b && b != c && a != Absent {
      LayoutExtendsTwice(a.document.fields, b.document.fields, c.document.fields);
    }
  }

  lemma {:induction false} ImportKeepsTabs(env: Environment, disk: Disk, sources: seq<Source>, fate: Fate)
    ensures FileExtends(disk.destination, Import(env, disk, sources, fate).disk.destination)
  {
    var layout := ReadLayout(env.fits, disk.destination);
    ImportExtends(layout, NewTabs(TabIdentity(env.fold), layout, Offered(env.fits, sources)));
  }

  /** Whatever is imported, and wherever it is interrupted: the original tabs stay, in place and in order. */
  lemma {:induction false} RunsKeepTabs(env: Environment, disk: Disk, runs: seq<Run>)
    ensures FileExtends(disk.destination, After(env, disk, runs).destination)
    decreases |runs|
  {
    if runs != [] {
      var next := Import(env, disk, runs[0].sources, runs[0].fate).disk;
      ImportKeepsTabs(env, disk, runs[0].sources, runs[0].fate);
      RunsKeepTabs(env, next, runs[1..]);
      FileExtendsTwice(disk.destination, next.destination, After(env, next, runs[1..]).destination);
    }
  }

  /** How many tabs in a file show just these channels. */
  function CountIn(id: Identifier, file: File, identity: JsonObject): nat {
    Count(id, AllTabs(if HoldsLayout(file) then file.document.fields else map[]), identity)
  }

  /** The tab count that one run leaves: one more, exactly if there was none and one is offered. */
  lemma {:induction false} ImportAddsOnce(env: Environment, disk: Disk, sources: seq<Source>, fate: Fate,
      identity: JsonObject)
    requires identity != map[]
    ensures var id, outcome := TabIdentity(env.fold), Import(env, disk, sources, fate);
      var before, after := CountIn(id, disk.destination, identity), CountIn(id, outcome.disk.destination, identity);
      if outcome.imported > 0 && before == 0 && Count(id, Offered(env.fits, sources), identity) > 0 then after == 1
      else after == before
  {
    var id, layout := TabIdentity(env.fold), ReadLayout(env.fits, disk.destination);
    var offered := Offered(env.fits, sources);
    IdentitySurvivesCleaning(env.fold);
    CountedIsIdentity(id, AllTabs(layout), identity, |AllTabs(layout)|);
    ScanCounts(id, SeenIn(id, AllTabs(layout)), offered, |offered|, identity);
    ImportCounts(id, layout, NewTabs(id, layout, offered), identity);
  }

  /** No channels are ever imported a second time, or when they were there already. */
  lemma {:induction false} RunsAddOnce(env: Environment, disk: Disk, runs: seq<Run>, identity: JsonObject)
    requires identity != map[]
    ensures var id := TabIdentity(env.fold);
      var before := CountIn(id, disk.destination, identity);
      var after := CountIn(id, After(env, disk, runs).destination, identity);
      if before > 0 then after == before else after <= 1
    decreases |runs|
  {
    if runs != [] {
      ImportAddsOnce(env, disk, runs[0].sources, runs[0].fate, identity);
      RunsAddOnce(env, Import(env, disk, runs[0].sources, runs[0].fate).disk, runs[1..], identity);
    }
  }

  lemma {:induction false} IdentitiesAreNotEmpty(id: Identifier, tabs: seq<Json>, k: nat)
    requires k <= |tabs|
    ensures map[] !in IdentitiesOf(id, tabs, k)
  {
    if k > 0 {
      IdentitiesAreNotEmpty(id, tabs, k - 1);
    }
  }

  /** After an import, everything that was offered is in the layout. */
  lemma {:induction false} OfferedIsThere(id: Identifier, layout: JsonObject, offered: seq<Json>, identity: JsonObject)
    requires SurvivesCleaning(id) && identity in SeenIn(id, offered) && identity != map[]
    ensures identity in SeenIn(id, AllTabs(LayoutWith(layout, NewTabs(id, layout, offered))))
  {
    var tabs, imported := AllTabs(layout), NewTabs(id, layout, offered);
    var after := AllTabs(LayoutWith(layout, imported));
    CountedIsIdentity(id, offered, identity, |offered|);
    CountedIsIdentity(id, tabs, identity, |tabs|);
    CountedIsIdentity(id, after, identity, |after|);
    ScanCounts(id, SeenIn(id, tabs), offered, |offered|, identity);
    ImportCounts(id, layout, imported, identity);
  }

  // ----- What is imported, by the channels that tabs show --------------------------------------------------------

  predicate TabHasChannels(tab: Json) {
    HasChannels(ObjectAt(ToObject(tab), "splits2"), 0)
  }

  /** Both tabs show channels, and they are the same ones in the same arrangement. */
  predicate ShowSame(fold: string -> string, a: Json, b: Json) {
    SameChannels(fold, ObjectAt(ToObject(a), "splits2"), ObjectAt(ToObject(b), "splits2"), 0)
  }

  lemma {:induction false} TabIdentified(fold: string -> string, tab: Json)
    ensures TabIdentity(fold)(tab) != map[] <==> TabHasChannels(tab)
  {
    IdentifiedIfShown(fold, ObjectAt(ToObject(tab), "splits2"), 0);
  }

  lemma {:induction false} TabsToldApart(fold: string -> string, a: Json, b: Json)
    ensures ShowSame(fold, a, b) <==> TabHasChannels(a) && TabIdentity(fold)(a) == TabIdentity(fold)(b)
  {
    var x, y := ObjectAt(ToObject(a), "splits2"), ObjectAt(ToObject(b), "splits2");
    TabIdentified(fold, a);
    TabIdentified(fold, b);
    if HasChannels(x, 0) && HasChannels(y, 0) {
      IdentityTellsApart(fold, x, y, 0);
    }
  }

  /** Some tab shows the same as `tab`. */
  ghost predicate IsAmong(fold: string -> string, tab: Json, tabs: seq<Json>) {
    exists i :: 0 <= i < |tabs| && ShowSame(fold, tabs[i], tab)
  }

  lemma {:induction false} IdentityHasTab(id: Identifier, tabs: seq<Json>, k: nat, identity: JsonObject)
      returns (i: nat)
    requires k <= |tabs| && identity in IdentitiesOf(id, tabs, k)
    ensures i < k && id(tabs[i]) == identity != map[]
  {
    if id(tabs[k - 1]) == identity && identity != map[] {
      i := k - 1;
    } else {
      i := IdentityHasTab(id, tabs, k - 1, identity);
    }
  }

  lemma {:induction false} TabHasIdentity(id: Identifier, tabs: seq<Json>, k: nat, i: nat)
    requires i < k <= |tabs| && id(tabs[i]) != map[]
    ensures id(tabs[i]) in IdentitiesOf(id, tabs, k)
  {
    if i < k - 1 {
      TabHasIdentity(id, tabs, k - 1, i);
    }
  }

  lemma {:induction false} SeenIsAmong(fold: string -> string, id: Identifier, tab: Json, tabs: seq<Json>)
    requires id == TabIdentity(fold) && id(tab) in SeenIn(id, tabs)
    ensures IsAmong(fold, tab, tabs)
  {
    var i := IdentityHasTab(id, tabs, |tabs|, id(tab));
    TabIdentified(fold, tabs[i]);
    TabsToldApart(fold, tabs[i], tab);
  }

  lemma {:induction false} AmongIsSeen(fold: string -> string, id: Identifier, tab: Json, tabs: seq<Json>)
    requires id == TabIdentity(fold) && IsAmong(fold, tab, tabs)
    ensures id(tab) in SeenIn(id, tabs)
  {
    var i :| 0 <= i < |tabs| && ShowSame(fold, tabs[i], tab);
    TabsToldApart(fold, tabs[i], tab);
    TabIdentified(fold, tabs[i]);
    TabHasIdentity(id, tabs, |tabs|, i);
  }

  /** The tab is offered and shows channels, and no tab of the layout shows the same. */
  ghost predicate IsMissing(fold: string -> string, tabs: seq<Json>, offered: seq<Json>, i: int) {
    0 <= i < |offered| && TabHasChannels(offered[i]) && !IsAmong(fold, offered[i], tabs)
  }

  lemma {:induction false} NewIsMissing(fold: string -> string, id: Identifier, tabs: seq<Json>, offered: seq<Json>)
      returns (i: nat)
    requires id == TabIdentity(fold) && !(SeenIn(id, offered) <= SeenIn(id, tabs))
    ensures IsMissing(fold, tabs, offered, i)
  {
    var identity :| identity in SeenIn(id, offered) && identity !in SeenIn(id, tabs);
    i := IdentityHasTab(id, offered, |offered|, identity);
    TabIdentified(fold, offered[i]);
    if IsAmong(fold, offered[i], tabs) {
      AmongIsSeen(fold, id, offered[i], tabs);
      assert false;
    }
  }

  lemma {:induction false} MissingIsNew(fold: string -> string, id: Identifier, tabs: seq<Json>, offered: seq<Json>,
      i: nat)
    requires id == TabIdentity(fold) && IsMissing(fold, tabs, offered, i)
    ensures !(SeenIn(id, offered) <= SeenIn(id, tabs))
  {
    TabIdentified(fold, offered[i]);
    TabHasIdentity(id, offered, |offered|, i);
    if id(offered[i]) in SeenIn(id, tabs) {
      SeenIsAmong(fold, id, offered[i], tabs);
      assert false;
    }
  }

  /** There is something to import exactly if an offered tab is missing. */
  lemma {:induction false} NewIfMissing(fold: string -> string, layout: JsonObject, offered: seq<Json>)
    ensures NewTabs(TabIdentity(fold), layout, offered) != []
       <==> exists i :: IsMissing(fold, AllTabs(layout), offered, i)
  {
    var id, tabs := TabIdentity(fold), AllTabs(layout);
    NothingNew(id, SeenIn(id, tabs), offered, |offered|);
    if NewTabs(id, layout, offered) != [] {
      var i := NewIsMissing(fold, id, tabs, offered);
    }
    if i :| IsMissing(fold, tabs, offered, i) {
      MissingIsNew(fold, id, tabs, offered, i);
    }
  }

  /** Every offered tab with channels is shown by the layout with the new tabs. */
  lemma {:induction false} OfferedIsAmong(fold: string -> string, layout: JsonObject, offered: seq<Json>, i: nat)
    requires i < |offered| && TabHasChannels(offered[i])
    ensures var after := AllTabs(LayoutWith(layout, NewTabs(TabIdentity(fold), layout, offered)));
      IsAmong(fold, offered[i], after)
  {
    var id := TabIdentity(fold);
    var after := AllTabs(LayoutWith(layout, NewTabs(id, layout, offered)));
    IdentitySurvivesCleaning(fold);
    TabIdentified(fold, offered[i]);
    TabHasIdentity(id, offered, |offered|, i);
    OfferedIsThere(id, layout, offered, id(offered[i]));
    SeenIsAmong(fold, id, offered[i], after);
  }

  lemma {:induction false} CountAll(id: Identifier, tabs: seq<Json>, identity: JsonObject, k: nat)
    requires k <= |tabs| && forall tab :: id(tab) == identity
    ensures CountOf(id, tabs, identity, k) == k
  {
    if k > 0 {
      CountAll(id, tabs, identity, k - 1);
    }
  }

  lemma {:induction false} ImportLength(layout: JsonObject, imported: seq<Json>)
    ensures |AllTabs(LayoutWith(layout, imported))| == |AllTabs(layout)| + |imported|
  {
    var all: Identifier := tab => map[];
    var after := AllTabs(LayoutWith(layout, imported));
    ImportCounts(all, layout, imported, map[]);
    CountAll(all, after, map[], |after|);
    CountAll(all, AllTabs(layout), map[], |AllTabs(layout)|);
    CountAll(all, imported, map[], |imported|);
  }

  /** A JSON object with a list of windows, in a file that can be opened and is not too large. */
  predicate IsLayout(fits: Json -> bool, file: File) {
    file.Holds? && fits(file.document) && file.document.Object?
    && "windows" in file.document.fields && file.document.fields["windows"].Array?
  }

  /** There is no marker, and no layout that cannot be read. */
  predicate MayImport(env: Environment, disk: Disk) {
    !disk.marker && (disk.destination == Absent || IsLayout(env.fits, disk.destination))
  }

  /** The layout can be written: it needs no backup or gets one, and writing it succeeds. */
  predicate GetsWritten(disk: Disk, fate: Fate) {
    fate.committed && (disk.destination != Absent && disk.backup == Absent ==> fate.copied)
  }

  /** A marked profile, and one with a layout that cannot be read, are left alone. */
  lemma {:induction false} LeftAlone(env: Environment, disk: Disk, sources: seq<Source>, fate: Fate)
    ensures !MayImport(env, disk) ==> Import(env, disk, sources, fate) == Outcome(disk, 0)
    ensures disk.destination == Absent || IsLayout(env.fits, disk.destination)
       <==> disk.destination == Absent || ReadLayout(env.fits, disk.destination) != map[]
  {
    assert IsLayout(env.fits, disk.destination) ==> "windows" in ReadLayout(env.fits, disk.destination);
  }

  /**
   * Something is imported exactly if the import is allowed, an offered tab with channels is missing, and
   * the layout gets written.  Then there is a tab for every offered one with channels, the count is that
   * of the tabs that came in addition, and the marker is there unless the import was stopped before it.
   */
  lemma {:induction false} ImportsExactly(env: Environment, disk: Disk, sources: seq<Source>, fate: Fate)
    ensures var layout, offered := ReadLayout(env.fits, disk.destination), Offered(env.fits, sources);
      var outcome := Import(env, disk, sources, fate);
      (outcome.imported > 0 <==>
        MayImport(env, disk) && GetsWritten(disk, fate)
        && exists i :: IsMissing(env.fold, AllTabs(layout), offered, i))
      && (outcome.imported == 0 ==>
            outcome.disk.destination == disk.destination && outcome.disk.marker == disk.marker)
      && (outcome.imported > 0 ==>
            HoldsLayout(outcome.disk.destination) && outcome.disk.marker == fate.marked
            && var after := AllTabs(outcome.disk.destination.document.fields);
               |after| == |AllTabs(layout)| + outcome.imported
               && forall i :: 0 <= i < |offered| && TabHasChannels(offered[i]) ==>
                    IsAmong(env.fold, offered[i], after))
  {
    var layout, offered := ReadLayout(env.fits, disk.destination), Offered(env.fits, sources);
    var imported := NewTabs(TabIdentity(env.fold), layout, offered);
    LeftAlone(env, disk, sources, fate);
    NewIfMissing(env.fold, layout, offered);
    ImportLength(layout, imported);
    forall i | 0 <= i < |offered| && TabHasChannels(offered[i])
      ensures var after := AllTabs(LayoutWith(layout, imported)); IsAmong(env.fold, offered[i], after)
    {
      OfferedIsAmong(env.fold, layout, offered, i);
    }
  }

  // ----- Doing it again ---------------------------------------------------------------------------------------------

  lemma {:induction false} NothingNewTwice(id: Identifier, layout: JsonObject, offered: seq<Json>)
    requires SurvivesCleaning(id)
    ensures NewTabs(id, LayoutWith(layout, NewTabs(id, layout, offered)), offered) == []
  {
    var again := LayoutWith(layout, NewTabs(id, layout, offered));
    IdentitiesAreNotEmpty(id, offered, |offered|);
    forall identity | identity in SeenIn(id, offered) ensures identity in SeenIn(id, AllTabs(again)) {
      OfferedIsThere(id, layout, offered, identity);
    }
    NothingNew(id, SeenIn(id, AllTabs(again)), offered, |offered|);
  }

  /** Once a run has imported something, another one with the same sources changes nothing, marker or not. */
  lemma {:induction false} ImportIsIdempotent(env: Environment, disk: Disk, sources: seq<Source>, fate: Fate,
      again: Fate)
    requires Import(env, disk, sources, fate).imported > 0
    ensures var next := Import(env, disk, sources, fate).disk; Import(env, next, sources, again) == Outcome(next, 0)
  {
    IdentitySurvivesCleaning(env.fold);
    NothingNewTwice(TabIdentity(env.fold), ReadLayout(env.fits, disk.destination), Offered(env.fits, sources));
  }

  /**
   * A run that was stopped anywhere and is then done again leaves the same layout and the same backup
   * as a run that was not stopped.  Only the marker is not made up for: if the first run got as far as
   * the layout but not to the marker, the second one imports nothing and makes no marker either.
   */
  lemma {:induction false} StoppedRunIsMadeUpFor(env: Environment, disk: Disk, sources: seq<Source>, stopped: Fate)
    ensures var good := Fate(true, true, true);
      var first := Import(env, disk, sources, stopped);
      var made, once := Import(env, first.disk, sources, good).disk, Import(env, disk, sources, good).disk;
      made == if first.imported > 0 then once.(marker := stopped.marked) else once
  {
    if Import(env, disk, sources, stopped).imported > 0 {
      ImportIsIdempotent(env, disk, sources, stopped, Fate(true, true, true));
    }
  }

  /** What is overwritten has been saved: the backup is an earlier one, or what was there at first. */
  ghost predicate Saved(before: Disk, after: Disk) {
    before.destination != Absent ==>
      (after.backup == before.backup || (before.backup == Absent && after.backup == before.destination))
      && (after.destination != before.destination ==> after.backup != Absent)
  }

  lemma {:induction false} RunsSaveOriginal(env: Environment, disk: Disk, runs: seq<Run>)
    ensures Saved(disk, After(env, disk, runs))
    decreases |runs|
  {
    if runs != [] {
      RunsSaveOriginal(env, Import(env, disk, runs[0].sources, runs[0].fate).disk, runs[1..]);
    }
  }
}

/** An import that was stopped between the layout and the marker. */
module ChannelImportExamples {
  import opened ChannelImport

  /** Texts are compared as they are, and every document can be read. */
  const EXACT: Environment := Environment(text => text, _ => true)

  const CHANNEL: JsonObject := map["type" := String("twitch")]

  const SPLIT: JsonObject := map["type" := String("split"), "data" := Object(CHANNEL)]

  const TAB: Json := Object(map["splits2" := Object(SPLIT)])

  const FOREIGN: Source := Source(false, Holds(Object(map["windows" := Array([Object(map["tabs" := Array([TAB])])])])))

  const NEW_PROFILE: Disk := Disk(Absent, Absent, false)

  lemma {:induction false} ExampleHasChannels()
    ensures TabIdentity(EXACT.fold)(TAB) == map["data" := Object(CHANNEL)]
    ensures TabIdentity(EXACT.fold)(TAB) != map[]
  {
    assert "twitch" != "empty" by { assert "twitch"[0] != "empty"[0]; }
    assert "type" != "data" by { assert "type"[0] != "data"[0]; }
    assert "name" !in CHANNEL by { assert "name"[0] != "type"[0]; }
    assert "data" in map["data" := Object(CHANNEL)];
  }

  lemma {:induction false} ExampleIsOffered()
    ensures Offered(EXACT.fits, [FOREIGN]) == [TAB]
  {
    var layout := FOREIGN.file.document.fields;
    assert ReadLayout(EXACT.fits, FOREIGN.file) == layout;
    assert TabsUpTo(Windows(layout), 0) == [];
    assert AllTabs(layout) == [TAB];
    assert TabsOfSources(EXACT.fits, [FOREIGN], 0) == [];
  }

  /** A process that is stopped between the layout and the marker: the marker is missing ever after. */
  lemma {:induction false} MarkerStaysMissing()
    ensures var first := Import(EXACT, NEW_PROFILE, [FOREIGN], Fate(true, true, false));
      first.imported == 1 && !first.disk.marker
      && Import(EXACT, first.disk, [FOREIGN], Fate(true, true, true)) == Outcome(first.disk, 0)
  {
    var id := TabIdentity(EXACT.fold);
    ExampleHasChannels();
    ExampleIsOffered();
    assert AllTabs(map[]) == [] && SeenIn(id, []) == {};
    assert ScanTabs(id, Scan({}, []), [TAB], 0) == Scan({}, []);
    assert NewTabs(id, map[], [TAB]) == [Cleaned(TAB)];
    ImportIsIdempotent(EXACT, NEW_PROFILE, [FOREIGN], Fate(true, true, false), Fate(true, true, true));
  }
}
