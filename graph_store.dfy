/**
 * The graph the page draws into (the Cytoscape instance `cy`), updated in
 * place by the row loop of `wikidataToCytoscape` (index.mjs).
 */
module GraphStore {
  import opened Wrappers
  import opened Labels
  import opened Terms
  import opened GraphModel

  /** The layout the page asks for after each batch. */
  datatype Layout = Layout(name: string, nodeSeparation: nat)

  const Relayout := Layout("avsdf", 120)

  class Graph {
    /** Every node and edge, by id. */
    var elements: Store

    ghost predicate Valid()
      reads this
    {
      Consistent(elements)
    }

    /** An empty graph. */
    constructor ()
      ensures Valid() && elements == map[]
    {
      elements := map[];
    }

    /** `cy.getElementById(id).length != 0`: nodes and edges share one id space. */
    method GetElementById(id: string) returns (found: bool)
      ensures found <==> id in elements
    {
      found := id in elements;
    }

    /**
     * `cy.add` of a node; callers add only ids that are not present, with the
     * short form of the label.
     */
    method AddNode(id: string, fullLabel: string, shortLabel: string)
      requires Valid() && id !in elements && shortLabel == ShortenLabel(fullLabel)
      modifies this
      ensures Valid()
      ensures elements == old(elements)[id := Node(fullLabel, shortLabel, {})]
    {
      elements := elements[id := Node(fullLabel, shortLabel, {})];
    }

    /** `cy.add` of an edge between two present elements. */
    method AddEdge(id: string, source: string, target: string, fullLabel: string, shortLabel: string, classes: set<string>)
      requires Valid() && id !in elements && source in elements && target in elements
      requires shortLabel == ShortenLabel(fullLabel)
      modifies this
      ensures Valid()
      ensures elements == old(elements)[id := Edge(source, target, fullLabel, shortLabel, classes)]
    {
      elements := elements[id := Edge(source, target, fullLabel, shortLabel, classes)];
    }

    /** `node.addClass(cls)` on a present node. */
    method AddClass(id: string, cls: string)
      requires Valid() && id in elements && elements[id].Node?
      modifies this
      ensures Valid()
      ensures elements == old(elements)[id := Node(old(elements)[id].fullLabel, old(elements)[id].shortLabel,
                                                   old(elements)[id].classes + {cls})]
    {
      var n := elements[id];
      assert ShortLabelDerived(elements[id]);
      elements := elements[id := Node(n.fullLabel, n.shortLabel, n.classes + {cls})];
    }

    /**
     * `cy.add` of a node with its label and short label, then
     * `addClass('wikidata')` when its id is a Wikidata URL.
     */
    method AddTaggedNode(id: string, fullLabel: string, isWikidata: bool)
      requires Valid() && id !in elements
      modifies this
      ensures Valid()
      ensures elements == old(elements)[id := Node(fullLabel, ShortenLabel(fullLabel), WikidataTag(isWikidata))]
    {
      AddNode(id, fullLabel, ShortenLabel(fullLabel));
      if isWikidata {
        AddClass(id, WikidataClass);
      }
      assert elements[id].classes == WikidataTag(isWikidata);
    }

    /** `addClass('image')` on a present node when `isImage` holds. */
    method TagImage(id: string, isImage: bool)
      requires Valid() && id in elements && elements[id].Node?
      modifies this
      ensures Valid()
      ensures elements == old(elements)[id := Node(old(elements)[id].fullLabel, old(elements)[id].shortLabel,
                                                   old(elements)[id].classes + ImageTag(isImage))]
    {
      if isImage {
        AddClass(id, ImageClass);
      } else {
        assert elements[id].classes + ImageTag(false) == elements[id].classes;
      }
    }

    /** Adds the subject node of a row unless its id is present. */
    method AddSubject(res: Resolved, row: Row) returns (failure: Option<Failure>)
      requires Valid()
      modifies this
      ensures Valid()
      ensures Applied(elements, failure) == SubjectStep(old(elements), res, row)
    {
      failure := None;
      var present := GetElementById(res.itemId);
      if !present {
        var l := LabelOf(row, ItemLabelField);
        if l.None? {
          return Some(BadField(ItemLabelField));
        }
        AddTaggedNode(res.itemId, l.value, res.itemIsWikidata);
      }
    }

    /** Adds the target node of a row unless its id is present. */
    method AddTarget(res: Resolved, row: Row) returns (failure: Option<Failure>)
      requires Valid()
      modifies this
      ensures Valid()
      ensures Applied(elements, failure) == TargetStep(old(elements), res, row)
    {
      failure := None;
      var present := GetElementById(res.targetId);
      if !present {
        var l := LabelOf(row, TargetLabelField);
        if l.None? {
          return Some(BadField(TargetLabelField));
        }
        AddTaggedNode(res.targetId, l.value, res.targetIsWikidata);
        ghost var node := Node(l.value, ShortenLabel(l.value), WikidataTag(res.targetIsWikidata));
        var property := Get(row, PropertyField);
        if !(property.Some? && property.value.UrlVal?) {
          assert TargetStep(old(elements), res, row)
            == Applied(old(elements)[res.targetId := node], Some(BadField(PropertyField)));
          return Some(BadField(PropertyField));
        }
        var isImage := EndsWith(property.value.url.pathname, ImageProperty);
        assert TargetStep(old(elements), res, row)
          == Applied(old(elements)[res.targetId := Node(node.fullLabel, node.shortLabel, node.classes + ImageTag(isImage))], None);
        TagImage(res.targetId, isImage);
      }
    }

    /** Adds the statement edge of a row unless its id is present. */
    method AddStatement(res: Resolved, row: Row) returns (failure: Option<Failure>)
      requires Valid() && res.itemId in elements && res.targetId in elements
      modifies this
      ensures Valid()
      ensures Applied(elements, failure) == EdgeStep(old(elements), res, row)
    {
      failure := None;
      var present := GetElementById(res.statementId);
      if !present {
        var l := LabelOf(row, PropertyLabelField);
        if l.None? {
          return Some(BadField(PropertyLabelField));
        }
        AddEdge(res.statementId, res.itemId, res.targetId, l.value, ShortenLabel(l.value), {EdgeClass});
      }
    }

    /** One pass of the row loop. */
    method AddRow(host: Host, row: Row) returns (failure: Option<Failure>)
      requires Valid()
      modifies this
      ensures Valid()
      ensures Applied(elements, failure) == ApplyRow(host, old(elements), row)
    {
      var resolved := Resolve(host, row);
      if resolved.Err? {
        return Some(resolved.error);
      }
      var res := resolved.value;
      failure := AddSubject(res, row);
      if failure.Some? {
        return;
      }
      ghost var afterSubject := elements;
      failure := AddTarget(res, row);
      if failure.Some? {
        return;
      }
      assert Extends(afterSubject, elements);
      failure := AddStatement(res, row);
    }

    /** The row loop over a decoded batch, stopping at the first row that throws. */
    method AddRows(host: Host, items: seq<Row>) returns (failure: Option<Failure>)
      requires Valid()
      modifies this
      ensures Valid()
      ensures Applied(elements, failure) == ApplyRows(host, old(elements), items)
    {
      var i := 0;
      while i < |items|
        invariant 0 <= i <= |items|
        invariant Valid()
        invariant ApplyRows(host, old(elements), items) == ApplyRows(host, elements, items[i..])
      {
        assert items[i..][0] == items[i] && items[i..][1..] == items[i + 1..];
        failure := AddRow(host, items[i]);
        if failure.Some? {
          return;
        }
        i := i + 1;
      }
      return None;
    }

    /**
     * `wikidataToCytoscape`: decodes the whole batch, runs the row loop and,
     * when no row threw, asks for the layout once.
     */
    method Incorporate(host: Host, rows: seq<RawRow>) returns (failure: Option<Failure>, layout: Option<Layout>)
      requires Valid()
      modifies this
      ensures Valid()
      ensures Applied(elements, failure) == Incorporation(host, old(elements), rows)
      ensures layout == if failure.None? then Some(Relayout) else None
    {
      var decoded := DecodeRows(host, rows);
      if decoded.Err? {
        return Some(decoded.error), None;
      }
      failure := AddRows(host, decoded.value);
      layout := if failure.None? then Some(Relayout) else None;
    }
  }
}
