/**
 * The parts of a compiled AndroidManifest.xml that the split sanitiser reads:
 * attributes with an optional framework resource id, the `<application>`
 * element and its child elements. Elements are identified by a `node` handle,
 * standing for object identity in the parsed chunk tree.
 */
module ManifestModel {
  import opened Wrappers

  /** Framework attribute ids (android.R.attr): android:name, android:value, android:resource. */
  const ID_name: nat := 0x0101_0003
  const ID_value: nat := 0x0101_0024
  const ID_resource: nat := 0x0101_0025

  /** The meta-data name whose value references the split resource to drop. */
  const SPLITS_NAME: string := "com.android.vending.splits"

  /** Value-type tags of a compiled attribute (Res_value data types). */
  datatype ValueType =
    | Null | Reference | AttributeRef | String | Float | Dimension | Fraction
    | IntDec | IntHex | IntBoolean | IntColor

  /**
   * One compiled attribute. `valueAsString` is the string the attribute
   * reports as its value; the parser decides it and it is an input here.
   */
  datatype Attribute = Attribute(
    resourceId: Option<nat>,
    name: string,
    valueType: ValueType,
    data: int,
    valueAsString: Option<string>)

  datatype Element = Element(node: nat, tag: string, attributes: seq<Attribute>)

  datatype Application = Application(attributes: seq<Attribute>, children: seq<Element>)

  /**
   * `extractNativeLibs` is what the manifest reports for
   * android:extractNativeLibs (None when the attribute is absent).
   */
  datatype Manifest = Manifest(
    attributes: seq<Attribute>,
    application: Application,
    extractNativeLibs: Option<bool>)

  /** Position of the first attribute carrying resource id `id`. */
  function IndexOfResourceId(attrs: seq<Attribute>, id: nat): (r: Option<nat>)
    ensures r.Some? ==> r.value < |attrs| && attrs[r.value].resourceId == Some(id)
    ensures r.Some? ==> forall j :: 0 <= j < r.value ==> attrs[j].resourceId != Some(id)
    ensures r.None? <==> forall j :: 0 <= j < |attrs| ==> attrs[j].resourceId != Some(id)
    decreases |attrs|
  {
    if |attrs| == 0 then None
    else if attrs[0].resourceId == Some(id) then Some(0)
    else match IndexOfResourceId(attrs[1..], id)
      case None => None
      case Some(k) => Some(k + 1)
  }

  /** searchAttributeByResourceId: the first attribute with that id, if any. */
  function SearchAttributeByResourceId(e: Element, id: nat): (r: Option<Attribute>)
    ensures r.Some? <==> exists j :: 0 <= j < |e.attributes| && e.attributes[j].resourceId == Some(id)
    ensures r.Some? ==> r.value.resourceId == Some(id) && r.value in e.attributes
  {
    match IndexOfResourceId(e.attributes, id)
    case None => None
    case Some(k) => Some(e.attributes[k])
  }

  /** The value attribute of a meta-data element: android:value, else android:resource. */
  function ValueAttribute(meta: Element): (r: Option<Attribute>)
    ensures r.Some? ==> r.value in meta.attributes
    ensures r.Some? ==> r.value.resourceId == Some(ID_value) || r.value.resourceId == Some(ID_resource)
    ensures r.None? <==> forall j :: 0 <= j < |meta.attributes| ==>
      meta.attributes[j].resourceId != Some(ID_value) && meta.attributes[j].resourceId != Some(ID_resource)
  {
    var v := SearchAttributeByResourceId(meta, ID_value);
    if v.Some? then v else SearchAttributeByResourceId(meta, ID_resource)
  }

  /**
   * The manifest half of the guard chain of removeSplitsTableEntry: the
   * resource id referenced by a `com.android.vending.splits` meta-data
   * element, or None when the element is not one.
   */
  function SplitsReference(meta: Element): (r: Option<int>)
    ensures r.Some? ==>
      && SearchAttributeByResourceId(meta, ID_name).Some?
      && SearchAttributeByResourceId(meta, ID_name).value.valueAsString == Some(SPLITS_NAME)
      && ValueAttribute(meta).Some? && ValueAttribute(meta).value.valueType == Reference
      && r.value == ValueAttribute(meta).value.data
  {
    match SearchAttributeByResourceId(meta, ID_name)
    case None => None
    case Some(nameAttribute) =>
      if nameAttribute.valueAsString != Some(SPLITS_NAME) then None
      else match ValueAttribute(meta)
        case None => None
        case Some(valueAttribute) =>
          if valueAttribute.valueType != Reference then None
          else Some(valueAttribute.data)
  }

  /**
   * The guard chain stated declaratively: a reference is found exactly when
   * the element has an android:name attribute whose string value is the
   * splits marker and a REFERENCE-typed value attribute (android:value, or
   * android:resource when android:value is absent), and then it is that
   * attribute's data.
   */
  lemma SplitsReferenceCharacterised(meta: Element)
    ensures SplitsReference(meta).Some? <==>
      (exists j :: 0 <= j < |meta.attributes| && meta.attributes[j].resourceId == Some(ID_name)) &&
      SearchAttributeByResourceId(meta, ID_name).value.valueAsString == Some(SPLITS_NAME) &&
      ValueAttribute(meta).Some? && ValueAttribute(meta).value.valueType == Reference
    ensures SplitsReference(meta).Some? ==> SplitsReference(meta).value == ValueAttribute(meta).value.data
  {
  }

  /**
   * The fallback to android:resource is taken only when no android:value
   * attribute exists: an android:value of another type is not overridden.
   */
  lemma ValueAttributePrefersValue(meta: Element, j: nat)
    requires j < |meta.attributes| && meta.attributes[j].resourceId == Some(ID_value)
    ensures ValueAttribute(meta).Some? && ValueAttribute(meta).value.resourceId == Some(ID_value)
  {
  }

  /** application.remove(meta): drops the first child that is `meta` (same node). */
  function RemoveChild(app: Application, meta: Element): (r: Application)
    ensures r.attributes == app.attributes
    ensures forall e :: e in r.children ==> e in app.children
    ensures (exists i :: 0 <= i < |app.children| && app.children[i].node == meta.node) ==>
      |r.children| == |app.children| - 1
    ensures (forall i :: 0 <= i < |app.children| ==> app.children[i].node != meta.node) ==> r == app
  {
    app.(children := RemoveNode(app.children, meta.node))
  }

  /** Drops the first element with the given node; the others stay, in order. */
  function RemoveNode(xs: seq<Element>, node: nat): (r: seq<Element>)
    ensures forall e :: e in r ==> e in xs
    ensures (exists i :: 0 <= i < |xs| && xs[i].node == node) ==> |r| == |xs| - 1
    ensures (forall i :: 0 <= i < |xs| ==> xs[i].node != node) ==> r == xs
  {
    if xs == [] then []
    else if xs[0].node == node then xs[1..]
    else [xs[0]] + RemoveNode(xs[1..], node)
  }

  /** Children kept by a filter that drops every node in `nodes`. */
  function WithoutNodes(xs: seq<Element>, nodes: set<nat>): (r: seq<Element>)
  {
    if xs == [] then []
    else if xs[0].node in nodes then WithoutNodes(xs[1..], nodes)
    else [xs[0]] + WithoutNodes(xs[1..], nodes)
  }

  predicate DistinctNodes(xs: seq<Element>)
  {
    forall i, j :: 0 <= i < j < |xs| ==> xs[i].node != xs[j].node
  }

  function Nodes(metas: seq<Element>): set<nat>
  {
    set i | 0 <= i < |metas| :: metas[i].node
  }

  /** Removing the metas one after the other, in list order. */
  function RemoveChildren(app: Application, metas: seq<Element>): (r: Application)
    ensures r.attributes == app.attributes
    ensures forall e :: e in r.children ==> e in app.children
  {
    if metas == [] then app
    else RemoveChild(RemoveChildren(app, metas[..|metas| - 1]), metas[|metas| - 1])
  }

  lemma {:induction false} WithoutNodesSubset(xs: seq<Element>, nodes: set<nat>)
    ensures forall e :: e in WithoutNodes(xs, nodes) ==> e in xs && e.node !in nodes
    ensures DistinctNodes(xs) ==> DistinctNodes(WithoutNodes(xs, nodes))
  {
    if xs != [] {
      WithoutNodesSubset(xs[1..], nodes);
      if DistinctNodes(xs) {
        var rest := WithoutNodes(xs[1..], nodes);
        assert DistinctNodes(xs[1..]) by {
          forall i, j | 0 <= i < j < |xs[1..]| ensures xs[1..][i].node != xs[1..][j].node {
            assert xs[1..][i] == xs[i + 1] && xs[1..][j] == xs[j + 1];
          }
        }
        forall e | e in rest ensures e.node != xs[0].node {
          var k :| 0 <= k < |xs[1..]| && xs[1..][k] == e;
          assert xs[k + 1] == e;
        }
      }
    }
  }

  lemma {:induction false} RemoveNodeIsFilter(xs: seq<Element>, node: nat)
    requires DistinctNodes(xs)
    ensures RemoveNode(xs, node) == WithoutNodes(xs, {node})
  {
    if xs != [] {
      assert DistinctNodes(xs[1..]) by {
        forall i, j | 0 <= i < j < |xs[1..]| ensures xs[1..][i].node != xs[1..][j].node {
          assert xs[1..][i] == xs[i + 1] && xs[1..][j] == xs[j + 1];
        }
      }
      if xs[0].node == node {
        WithoutNodesAbsent(xs[1..], node);
      } else {
        RemoveNodeIsFilter(xs[1..], node);
      }
    }
  }

  lemma {:induction false} WithoutNodesAbsent(xs: seq<Element>, node: nat)
    requires forall i :: 0 <= i < |xs| ==> xs[i].node != node
    ensures WithoutNodes(xs, {node}) == xs
  {
    if xs != [] {
      WithoutNodesAbsent(xs[1..], node);
    }
  }

  lemma {:induction false} WithoutNodesTwice(xs: seq<Element>, a: set<nat>, b: set<nat>)
    ensures WithoutNodes(WithoutNodes(xs, a), b) == WithoutNodes(xs, a + b)
  {
    if xs != [] {
      WithoutNodesTwice(xs[1..], a, b);
    }
  }

  /**
   * Removing every listed meta-data element one by one leaves exactly the
   * children whose node is not listed, in their original order (children are
   * distinct objects; a listed element that is not a child changes nothing).
   */
  lemma {:induction false} RemoveChildrenRemovesAll(app: Application, metas: seq<Element>)
    requires DistinctNodes(app.children)
    ensures RemoveChildren(app, metas).attributes == app.attributes
    ensures RemoveChildren(app, metas).children == WithoutNodes(app.children, Nodes(metas))
  {
    if metas == [] {
      assert Nodes(metas) == {};
      WithoutNodesNone(app.children);
    } else {
      var init := metas[..|metas| - 1];
      var last := metas[|metas| - 1];
      RemoveChildrenRemovesAll(app, init);
      var mid := RemoveChildren(app, init);
      WithoutNodesSubset(app.children, Nodes(init));
      RemoveNodeIsFilter(mid.children, last.node);
      WithoutNodesTwice(app.children, Nodes(init), {last.node});
      assert Nodes(metas) == Nodes(init) + {last.node} by {
        forall n | n in Nodes(metas) ensures n in Nodes(init) + {last.node} {
          var i :| 0 <= i < |metas| && metas[i].node == n;
          if i < |metas| - 1 { assert init[i] == metas[i]; }
        }
        forall n | n in Nodes(init) ensures n in Nodes(metas) {
          var i :| 0 <= i < |init| && init[i].node == n;
          assert metas[i] == init[i];
        }
      }
    }
  }

  lemma {:induction false} WithoutNodesNone(xs: seq<Element>)
    ensures WithoutNodes(xs, {}) == xs
  {
    if xs != [] {
      WithoutNodesNone(xs[1..]);
    }
  }

}
