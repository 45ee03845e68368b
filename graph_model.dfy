/**
 * What one batch of query result rows does to the graph (index.mjs,
 * `parseWikidataItem` and `wikidataToCytoscape`), stated on values: the
 * store is a map from element id to element, one shared id space for nodes
 * and edges, as `cy.getElementById` sees it.
 */
module GraphModel {
  import opened Wrappers
  import opened Labels
  import opened Terms

  /** A graph element: a node, or an edge between two element ids. */
  datatype Element =
    | Node(fullLabel: string, shortLabel: string, classes: set<string>)
    | Edge(source: string, target: string, fullLabel: string, shortLabel: string, classes: set<string>)

  /** The graph store, keyed by element id. */
  type Store = map<string, Element>

  /** Classes the row loop gives to elements. */
  const WikidataClass := "wikidata"
  const ImageClass := "image"
  const EdgeClass := "autororate"

  /** A target reached through this property ("image") is tagged as an image. */
  const ImageProperty := "P18"

  /** The variables of a result row that the row loop reads. */
  const ItemField := "item"
  const ItemLabelField := "itemLabel"
  const StatementField := "statement"
  const TargetField := "statementTarget"
  const TargetLabelField := "statementTargetLabel"
  const PropertyField := "property"
  const PropertyLabelField := "wdItemLabel"

  /** One variable binding of a raw result row. */
  datatype Binding = Binding(name: string, term: Term)

  /** A raw result row: its bindings in `Object.entries` order. */
  type RawRow = seq<Binding>

  /** One decoded field of a row. */
  datatype Field = Field(name: string, value: Value)

  /** A decoded row (`parseWikidataItem`'s result). */
  type Row = seq<Field>

  /**
   * Decoding of a row, field by field in order; the first term that does not
   * decode makes the whole row fail with its error.
   */
  function ParseRow(host: Host, raw: RawRow): (r: Result<Row, Failure>)
    ensures r.Ok? <==> forall j :: 0 <= j < |raw| ==> Decode(host, raw[j].term).Ok?
    ensures r.Ok? ==> |r.value| == |raw|
    ensures r.Ok? ==> forall j :: 0 <= j < |raw| ==>
      r.value[j] == Field(raw[j].name, Decode(host, raw[j].term).value)
    ensures r.Err? ==> exists j :: 0 <= j < |raw| && Decode(host, raw[j].term) == Err(r.error)
    decreases |raw|
  {
    if raw == [] then Ok([])
    else
      match Decode(host, raw[0].term)
      case Err(e) => Err(e)
      case Ok(v) =>
        assert forall j :: 1 <= j < |raw| ==> raw[j] == raw[1..][j - 1];
        match ParseRow(host, raw[1..])
        case Err(e) => Err(e)
        case Ok(rest) => Ok([Field(raw[0].name, v)] + rest)
  }

  /** Decoding of a batch, row by row (`wikidataItems.map(parseWikidataItem)`). */
  function DecodeRows(host: Host, rows: seq<RawRow>): (r: Result<seq<Row>, Failure>)
    ensures r.Ok? <==> forall i :: 0 <= i < |rows| ==> ParseRow(host, rows[i]).Ok?
    ensures r.Ok? ==> |r.value| == |rows|
    ensures r.Ok? ==> forall i :: 0 <= i < |rows| ==> r.value[i] == ParseRow(host, rows[i]).value
    ensures r.Err? ==> exists i :: 0 <= i < |rows| && ParseRow(host, rows[i]) == Err(r.error)
    decreases |rows|
  {
    if rows == [] then Ok([])
    else
      match ParseRow(host, rows[0])
      case Err(e) => Err(e)
      case Ok(row) =>
        assert forall i :: 1 <= i < |rows| ==> rows[i] == rows[1..][i - 1];
        match DecodeRows(host, rows[1..])
        case Err(e) => Err(e)
        case Ok(rest) => Ok([row] + rest)
  }

  /** The value a row binds to `name`; a name bound twice keeps its last binding. */
  function Get(row: Row, name: string): (r: Option<Value>)
    ensures r.None? <==> forall j :: 0 <= j < |row| ==> row[j].name != name
    ensures r.Some? ==>
      exists j :: 0 <= j < |row| && row[j] == Field(name, r.value)
                  && (forall k :: j < k < |row| ==> row[k].name != name)
    decreases |row|
  {
    if row == [] then None
    else if row[|row| - 1].name == name then Some(row[|row| - 1].value)
    else Get(row[..|row| - 1], name)
  }

  /** The label a row binds to `name`, when it is a string. */
  function LabelOf(row: Row, name: string): Option<string>
  {
    match Get(row, name)
    case Some(Str(s)) => Some(s)
    case _ => None
  }

  /** The row binds its property to a URL (`property.pathname` is readable). */
  predicate PropertyIsUrl(row: Row)
  {
    Get(row, PropertyField).Some? && Get(row, PropertyField).value.UrlVal?
  }

  /**
   * The row's property is a URL whose path ends with the image property; a
   * property that is absent or not a URL never is.
   */
  predicate IsImageProperty(row: Row)
  {
    match Get(row, PropertyField)
    case Some(UrlVal(u)) => EndsWith(u.pathname, ImageProperty)
    case _ => false
  }

  /** What the row loop computes before touching the graph. */
  datatype Resolved = Resolved(
    itemId: string,
    statementId: string,
    targetId: string,
    itemIsWikidata: bool,
    targetIsWikidata: bool)

  /** The three ids a row touches. */
  function IdSet(res: Resolved): set<string>
  {
    {res.itemId, res.statementId, res.targetId}
  }

  /**
   * The ids and classifications of a row; converting an absent item,
   * statement or target to a string throws.
   */
  function Resolve(host: Host, row: Row): (r: Result<Resolved, Failure>)
    ensures r.Ok? <==> Get(row, ItemField).Some? && Get(row, StatementField).Some? && Get(row, TargetField).Some?
    ensures Get(row, ItemField).None? ==> r == Err(BadField(ItemField))
    ensures Get(row, ItemField).Some? && Get(row, StatementField).None? ==> r == Err(BadField(StatementField))
    ensures Get(row, ItemField).Some? && Get(row, StatementField).Some? && Get(row, TargetField).None?
      ==> r == Err(BadField(TargetField))
  {
    match (Get(row, ItemField), Get(row, StatementField), Get(row, TargetField))
    case (None, _, _) => Err(BadField(ItemField))
    case (Some(_), None, _) => Err(BadField(StatementField))
    case (Some(_), Some(_), None) => Err(BadField(TargetField))
    case (Some(item), Some(statement), Some(target)) =>
      Ok(Resolved(Text(host, item), Text(host, statement), Text(host, target),
                  IsWikidataUrl(item), IsWikidataUrl(target)))
  }

  /**
   * A row's ids are the strings its item, statement and target convert to,
   * and its flags their classification.
   */
  lemma ResolveReadsFields(host: Host, row: Row)
    ensures Resolve(host, row).Ok? ==>
      var res := Resolve(host, row).value;
      && res.itemId == Text(host, Get(row, ItemField).value)
      && res.statementId == Text(host, Get(row, StatementField).value)
      && res.targetId == Text(host, Get(row, TargetField).value)
      && (res.itemIsWikidata <==> IsWikidataUrl(Get(row, ItemField).value))
      && (res.targetIsWikidata <==> IsWikidataUrl(Get(row, TargetField).value))
  {
  }

  /** A store, and the error that stopped the work on it, if any. */
  datatype Applied = Applied(store: Store, failure: Option<Failure>)

  /** `t` keeps every element of `s` exactly as it was. */
  predicate Extends(s: Store, t: Store)
  {
    s.Keys <= t.Keys && forall id :: id in s ==> t[id] == s[id]
  }

  /** Every edge's endpoints are elements of the store. */
  predicate EndpointsPresent(s: Store)
  {
    forall id :: id in s && s[id].Edge? ==> s[id].source in s && s[id].target in s
  }

  /** An element's short label is the shortened form of its label. */
  predicate ShortLabelDerived(e: Element)
  {
    e.shortLabel == ShortenLabel(e.fullLabel)
  }

  /** Every element's short label is the shortened form of its label. */
  predicate LabelsShortened(s: Store)
  {
    forall id {:trigger ShortLabelDerived(s[id])} :: id in s ==> ShortLabelDerived(s[id])
  }

  /** What the row loop keeps true of the graph: endpoints present, short labels derived. */
  predicate Consistent(s: Store)
  {
    EndpointsPresent(s) && LabelsShortened(s)
  }

  /** The classes a new node gets from its own id's classification. */
  function WikidataTag(isWikidata: bool): set<string>
  {
    if isWikidata then {WikidataClass} else {}
  }

  /** The class a new target node gets from the row's property. */
  function ImageTag(isImage: bool): set<string>
  {
    if isImage then {ImageClass} else {}
  }

  /** The subject node of a row, added when its id is new. */
  function SubjectStep(s: Store, res: Resolved, row: Row): (r: Applied)
    ensures Extends(s, r.store) && r.store.Keys <= s.Keys + {res.itemId}
    ensures Consistent(s) ==> Consistent(r.store)
    ensures r.failure.None? <==> res.itemId in s || LabelOf(row, ItemLabelField).Some?
    ensures r.failure.None? <==> res.itemId in r.store
    ensures r.failure.Some? ==> r == Applied(s, Some(BadField(ItemLabelField)))
    ensures res.itemId !in s && res.itemId in r.store ==>
      && LabelOf(row, ItemLabelField).Some?
      && var l := LabelOf(row, ItemLabelField).value;
         r.store[res.itemId] == Node(l, ShortenLabel(l), WikidataTag(res.itemIsWikidata))
  {
    if res.itemId in s then Applied(s, None)
    else
      match LabelOf(row, ItemLabelField)
      case None => Applied(s, Some(BadField(ItemLabelField)))
      case Some(l) => Applied(s[res.itemId := Node(l, ShortenLabel(l), WikidataTag(res.itemIsWikidata))], None)
  }

  /**
   * The target node of a row, added when its id is new; the property's path
   * is read after the node is in the store.
   */
  function TargetStep(s: Store, res: Resolved, row: Row): (r: Applied)
    ensures Extends(s, r.store) && r.store.Keys <= s.Keys + {res.targetId}
    ensures Consistent(s) ==> Consistent(r.store)
    ensures r.failure.None? <==>
      res.targetId in s || (LabelOf(row, TargetLabelField).Some? && PropertyIsUrl(row))
    ensures res.targetId in r.store <==> res.targetId in s || LabelOf(row, TargetLabelField).Some?
    ensures res.targetId !in s && LabelOf(row, TargetLabelField).None? ==>
      r == Applied(s, Some(BadField(TargetLabelField)))
    ensures res.targetId !in s && LabelOf(row, TargetLabelField).Some? && !PropertyIsUrl(row) ==>
      r.failure == Some(BadField(PropertyField))
    ensures res.targetId !in s && res.targetId in r.store ==>
      && LabelOf(row, TargetLabelField).Some?
      && var l := LabelOf(row, TargetLabelField).value;
         r.store[res.targetId]
           == Node(l, ShortenLabel(l), WikidataTag(res.targetIsWikidata) + ImageTag(IsImageProperty(row)))
  {
    if res.targetId in s then Applied(s, None)
    else
      match LabelOf(row, TargetLabelField)
      case None => Applied(s, Some(BadField(TargetLabelField)))
      case Some(l) =>
        match Get(row, PropertyField)
        case Some(UrlVal(u)) =>
          var classes := WikidataTag(res.targetIsWikidata) + ImageTag(EndsWith(u.pathname, ImageProperty));
          Applied(s[res.targetId := Node(l, ShortenLabel(l), classes)], None)
        case _ =>
          Applied(s[res.targetId := Node(l, ShortenLabel(l), WikidataTag(res.targetIsWikidata))],
                  Some(BadField(PropertyField)))
  }

  /** The statement edge of a row, added when its id is new. */
  function EdgeStep(s: Store, res: Resolved, row: Row): (r: Applied)
    requires res.itemId in s && res.targetId in s
    ensures Extends(s, r.store) && r.store.Keys <= s.Keys + {res.statementId}
    ensures Consistent(s) ==> Consistent(r.store)
    ensures r.failure.None? <==> res.statementId in s || LabelOf(row, PropertyLabelField).Some?
    ensures r.failure.None? <==> res.statementId in r.store
    ensures r.failure.Some? ==> r == Applied(s, Some(BadField(PropertyLabelField)))
    ensures res.statementId !in s && res.statementId in r.store ==>
      && LabelOf(row, PropertyLabelField).Some?
      && var l := LabelOf(row, PropertyLabelField).value;
         r.store[res.statementId] == Edge(res.itemId, res.targetId, l, ShortenLabel(l), {EdgeClass})
  {
    if res.statementId in s then Applied(s, None)
    else
      match LabelOf(row, PropertyLabelField)
      case None => Applied(s, Some(BadField(PropertyLabelField)))
      case Some(l) => Applied(s[res.statementId := Edge(res.itemId, res.targetId, l, ShortenLabel(l), {EdgeClass})], None)
  }

  /**
   * What a row may add: its item and target as nodes, and its statement as an
   * edge from its item to its target, both present.
   */
  predicate RowAdditions(s: Store, t: Store, res: Resolved)
  {
    forall id :: id in t && id !in s ==>
      if t[id].Edge? then
        && id == res.statementId
        && t[id].source == res.itemId && t[id].target == res.targetId
        && res.itemId in t && res.targetId in t
      else
        id == res.itemId || id == res.targetId
  }

  /** The body of the row loop, for one decoded row. */
  function ApplyRow(host: Host, s: Store, row: Row): (r: Applied)
    // first write wins: nothing present is re-added, relabelled or reclassified
    ensures Extends(s, r.store)
    ensures Consistent(s) ==> Consistent(r.store)
    ensures Resolve(host, row).Err? ==> r == Applied(s, Some(Resolve(host, row).error))
    ensures Resolve(host, row).Ok? ==> r.store.Keys <= s.Keys + IdSet(Resolve(host, row).value)
    ensures r.failure.None? ==> Resolve(host, row).Ok? && IdSet(Resolve(host, row).value) <= r.store.Keys
    ensures Resolve(host, row).Ok? ==> RowAdditions(s, r.store, Resolve(host, row).value)
  {
    match Resolve(host, row)
    case Err(e) => Applied(s, Some(e))
    case Ok(res) =>
      var a := SubjectStep(s, res, row);
      if a.failure.Some? then a
      else
        var b := TargetStep(a.store, res, row);
        if b.failure.Some? then b
        else EdgeStep(b.store, res, row)
  }

  /**
   * When a resolved row goes through: every one of its elements that is new
   * has a string label, and a new target node's property is a URL.
   */
  predicate RowGoesThrough(s: Store, res: Resolved, row: Row)
  {
    && (res.itemId in s || LabelOf(row, ItemLabelField).Some?)
    && (res.targetId in s || res.targetId == res.itemId
        || (LabelOf(row, TargetLabelField).Some? && PropertyIsUrl(row)))
    && (res.statementId in s || res.statementId == res.itemId || res.statementId == res.targetId
        || LabelOf(row, PropertyLabelField).Some?)
  }

  /** A row goes through exactly when it resolves and the steps that add something can read what they need. */
  lemma ApplyRowGoesThrough(host: Host, s: Store, row: Row)
    ensures ApplyRow(host, s, row).failure.None? <==>
      Resolve(host, row).Ok? && RowGoesThrough(s, Resolve(host, row).value, row)
  {
    if Resolve(host, row).Ok? {
      var res := Resolve(host, row).value;
      var a := SubjectStep(s, res, row);
      if a.failure.None? {
        var b := TargetStep(a.store, res, row);
        assert res.targetId in a.store <==> res.targetId in s || res.targetId == res.itemId;
        if b.failure.None? {
          assert res.statementId in b.store <==>
            res.statementId in s || res.statementId == res.itemId || res.statementId == res.targetId;
        }
      }
    }
  }

  /**
   * A row with an item, a statement and a target, string labels for all
   * three and a URL property: the shape the query asks for.
   */
  predicate WellFormedRow(row: Row)
  {
    && Get(row, ItemField).Some? && Get(row, StatementField).Some? && Get(row, TargetField).Some?
    && LabelOf(row, ItemLabelField).Some? && LabelOf(row, TargetLabelField).Some?
    && LabelOf(row, PropertyLabelField).Some?
    && PropertyIsUrl(row)
  }

  /** A well-formed row goes through, whatever the graph holds. */
  lemma WellFormedRowGoesThrough(host: Host, s: Store, row: Row)
    requires WellFormedRow(row)
    ensures ApplyRow(host, s, row).failure.None?
  {
    ApplyRowGoesThrough(host, s, row);
  }

  /**
   * A new subject node carries the row's item label, its short form, and the
   * class `wikidata` exactly when the item is a Wikidata URL.
   */
  lemma NewSubjectNode(host: Host, s: Store, row: Row)
    requires Resolve(host, row).Ok?
    requires Resolve(host, row).value.itemId !in s
    requires Resolve(host, row).value.itemId in ApplyRow(host, s, row).store
    ensures var n := ApplyRow(host, s, row).store[Resolve(host, row).value.itemId];
      && n.Node?
      && LabelOf(row, ItemLabelField) == Some(n.fullLabel)
      && n.shortLabel == ShortenLabel(n.fullLabel)
      && (WikidataClass in n.classes <==> IsWikidataUrl(Get(row, ItemField).value))
      && ImageClass !in n.classes
  {
    var res := Resolve(host, row).value;
    var a := SubjectStep(s, res, row);
    assert a.failure.None?;
    assert ApplyRow(host, s, row).store[res.itemId] == a.store[res.itemId];
  }

  /**
   * A new target node that is not the row's subject carries the row's target
   * label, the class `wikidata` exactly when the target is a Wikidata URL, and
   * the class `image` exactly when the row's property path ends with P18.
   */
  lemma NewTargetNode(host: Host, s: Store, row: Row)
    requires Resolve(host, row).Ok?
    requires Resolve(host, row).value.targetId !in s
    requires Resolve(host, row).value.targetId != Resolve(host, row).value.itemId
    requires Resolve(host, row).value.targetId in ApplyRow(host, s, row).store
    ensures var n := ApplyRow(host, s, row).store[Resolve(host, row).value.targetId];
      && n.Node?
      && LabelOf(row, TargetLabelField) == Some(n.fullLabel)
      && n.shortLabel == ShortenLabel(n.fullLabel)
      && (WikidataClass in n.classes <==> IsWikidataUrl(Get(row, TargetField).value))
      && (ImageClass in n.classes <==> IsImageProperty(row))
  {
    var res := Resolve(host, row).value;
    var a := SubjectStep(s, res, row);
    assert a.failure.None? && res.targetId !in a.store;
    var b := TargetStep(a.store, res, row);
    assert res.targetId in b.store;
    if b.failure.None? {
      assert ApplyRow(host, s, row).store[res.targetId] == b.store[res.targetId];
    } else {
      assert ApplyRow(host, s, row) == b;
    }
  }

  /**
   * A new statement edge that shares its id with neither node runs from the
   * item to the target, carries the row's property label and its short form,
   * and has the edge class.
   */
  lemma NewStatementEdge(host: Host, s: Store, row: Row)
    requires Resolve(host, row).Ok?
    requires Resolve(host, row).value.statementId !in s
    requires Resolve(host, row).value.statementId != Resolve(host, row).value.itemId
    requires Resolve(host, row).value.statementId != Resolve(host, row).value.targetId
    requires Resolve(host, row).value.statementId in ApplyRow(host, s, row).store
    ensures LabelOf(row, PropertyLabelField).Some?
    ensures var res := Resolve(host, row).value;
      var l := LabelOf(row, PropertyLabelField).value;
      ApplyRow(host, s, row).store[res.statementId] == Edge(res.itemId, res.targetId, l, ShortenLabel(l), {EdgeClass})
  {
    var res := Resolve(host, row).value;
    var a := SubjectStep(s, res, row);
    assert a.failure.None? && res.statementId !in a.store;
    var b := TargetStep(a.store, res, row);
    assert b.failure.None? && res.statementId !in b.store;
    assert ApplyRow(host, s, row) == EdgeStep(b.store, res, row);
  }

  /** The row loop: rows in order, stopping at the first row that throws. */
  function ApplyRows(host: Host, s: Store, rows: seq<Row>): (r: Applied)
    ensures Extends(s, r.store)
    ensures Consistent(s) ==> Consistent(r.store)
    decreases |rows|
  {
    if rows == [] then Applied(s, None)
    else
      var a := ApplyRow(host, s, rows[0]);
      if a.failure.Some? then a
      else ApplyRows(host, a.store, rows[1..])
  }

  /** The ids a row names, when it names them. */
  function RowIds(host: Host, row: Row): set<string>
  {
    match Resolve(host, row)
    case Ok(res) => IdSet(res)
    case Err(_) => {}
  }

  /** The row loop adds no id that its rows do not name. */
  lemma {:induction false} ApplyRowsAddsNamedIds(host: Host, s: Store, rows: seq<Row>)
    ensures ApplyRows(host, s, rows).store.Keys <= s.Keys + BatchIds(host, rows)
    decreases |rows|
  {
    if rows != [] {
      var a := ApplyRow(host, s, rows[0]);
      if a.failure.None? {
        ApplyRowsAddsNamedIds(host, a.store, rows[1..]);
      }
    }
  }

  /** A row loop that went through has resolved the ids of every row. */
  lemma {:induction false} ApplyRowsResolvesAll(host: Host, s: Store, rows: seq<Row>)
    requires ApplyRows(host, s, rows).failure.None?
    ensures forall i :: 0 <= i < |rows| ==> Resolve(host, rows[i]).Ok?
    decreases |rows|
  {
    if rows != [] {
      ApplyRowsResolvesAll(host, ApplyRow(host, s, rows[0]).store, rows[1..]);
      forall i | 1 <= i < |rows|
        ensures Resolve(host, rows[i]).Ok?
      {
        assert rows[i] == rows[1..][i - 1];
      }
    }
  }

  /** A row loop that went through has added every id its rows name. */
  lemma {:induction false} ApplyRowsAddsAllIds(host: Host, s: Store, rows: seq<Row>)
    requires ApplyRows(host, s, rows).failure.None?
    ensures ApplyRows(host, s, rows).store.Keys == s.Keys + BatchIds(host, rows)
    decreases |rows|
  {
    if rows != [] {
      ApplyRowsAddsAllIds(host, ApplyRow(host, s, rows[0]).store, rows[1..]);
    }
  }

  /** A loop over well-formed rows goes through, whatever the graph holds. */
  lemma {:induction false} WellFormedRowsGoThrough(host: Host, s: Store, rows: seq<Row>)
    requires forall i :: 0 <= i < |rows| ==> WellFormedRow(rows[i])
    ensures ApplyRows(host, s, rows).failure.None?
    decreases |rows|
  {
    if rows != [] {
      WellFormedRowGoesThrough(host, s, rows[0]);
      assert forall i :: 0 <= i < |rows[1..]| ==> rows[1..][i] == rows[i + 1];
      WellFormedRowsGoThrough(host, ApplyRow(host, s, rows[0]).store, rows[1..]);
    }
  }

  /** Every id the rows of a batch touch (rows whose ids resolve). */
  function BatchIds(host: Host, rows: seq<Row>): set<string>
    decreases |rows|
  {
    if rows == [] then {}
    else
      RowIds(host, rows[0]) + BatchIds(host, rows[1..])
  }

  /**
   * One call of `wikidataToCytoscape` up to the layout: the whole batch is
   * decoded before the first row touches the store.
   */
  function Incorporation(host: Host, s: Store, rows: seq<RawRow>): (r: Applied)
    ensures Extends(s, r.store)
    ensures Consistent(s) ==> Consistent(r.store)
    // a term that does not decode leaves the store as it was
    ensures (exists i, j :: 0 <= i < |rows| && 0 <= j < |rows[i]| && Decode(host, rows[i][j].term).Err?)
      ==> r.store == s && r.failure.Some?
    ensures r.failure.None? ==> DecodeRows(host, rows).Ok?
    ensures r.failure.None? ==> r.store.Keys == s.Keys + BatchIds(host, DecodeRows(host, rows).value)
  {
    match DecodeRows(host, rows)
    case Err(e) => Applied(s, Some(e))
    case Ok(decoded) =>
      ApplyRowsAddsNamedIds(host, s, decoded);
      if ApplyRows(host, s, decoded).failure.None? then
        ApplyRowsAddsAllIds(host, s, decoded);
        ApplyRowsResolvesAll(host, s, decoded);
        ApplyRows(host, s, decoded)
      else
        ApplyRows(host, s, decoded)
  }

  /**
   * A batch that decodes into well-formed rows goes through and leaves the
   * old ids plus every id its rows name.
   */
  lemma WellFormedBatchGoesThrough(host: Host, s: Store, rows: seq<RawRow>)
    requires DecodeRows(host, rows).Ok?
    requires forall i :: 0 <= i < |rows| ==> WellFormedRow(DecodeRows(host, rows).value[i])
    ensures Incorporation(host, s, rows).failure.None?
    ensures Incorporation(host, s, rows).store.Keys == s.Keys + BatchIds(host, DecodeRows(host, rows).value)
  {
    WellFormedRowsGoThrough(host, s, DecodeRows(host, rows).value);
  }

  /** A row whose ids are all present is a no-op. */
  lemma RowDoneIsNoOp(host: Host, s: Store, row: Row)
    requires Resolve(host, row).Ok? && IdSet(Resolve(host, row).value) <= s.Keys
    ensures ApplyRow(host, s, row) == Applied(s, None)
  {
  }

  /** Rows whose ids are all present leave the store as it is. */
  lemma {:induction false} RowsDoneAreNoOp(host: Host, s: Store, rows: seq<Row>)
    requires forall i :: 0 <= i < |rows| ==> Resolve(host, rows[i]).Ok?
    requires BatchIds(host, rows) <= s.Keys
    ensures ApplyRows(host, s, rows) == Applied(s, None)
    decreases |rows|
  {
    if rows != [] {
      assert IdSet(Resolve(host, rows[0]).value) <= BatchIds(host, rows);
      RowDoneIsNoOp(host, s, rows[0]);
      assert forall i :: 0 <= i < |rows[1..]| ==> rows[1..][i] == rows[i + 1];
      RowsDoneAreNoOp(host, s, rows[1..]);
    }
  }

  /** Re-running a batch of decoded rows that went through leaves the store identical. */
  lemma ApplyRowsIdempotent(host: Host, s: Store, rows: seq<Row>)
    requires ApplyRows(host, s, rows).failure.None?
    ensures ApplyRows(host, ApplyRows(host, s, rows).store, rows) == Applied(ApplyRows(host, s, rows).store, None)
  {
    ApplyRowsAddsAllIds(host, s, rows);
    ApplyRowsResolvesAll(host, s, rows);
    RowsDoneAreNoOp(host, ApplyRows(host, s, rows).store, rows);
  }

  /** Re-incorporating a batch that went through leaves the store identical. */
  lemma IncorporationIdempotent(host: Host, s: Store, rows: seq<RawRow>)
    requires Incorporation(host, s, rows).failure.None?
    ensures Incorporation(host, Incorporation(host, s, rows).store, rows)
      == Applied(Incorporation(host, s, rows).store, None)
  {
    ApplyRowsIdempotent(host, s, DecodeRows(host, rows).value);
  }

  /**
   * A row of the queried shape except that its property is a literal, not a
   * URL.
   */
  function LiteralPropertyRow(): Row
  {
    [Field(ItemField, Str("a")), Field(ItemLabelField, Str("A")),
     Field(StatementField, Str("s")), Field(PropertyField, Str("p")),
     Field(PropertyLabelField, Str("P")),
     Field(TargetField, Str("t")), Field(TargetLabelField, Str("T"))]
  }

  /** A name bound at exactly one position is bound to that position's value. */
  lemma GetSingle(row: Row, name: string, j: nat)
    requires j < |row| && row[j].name == name
    requires forall k :: 0 <= k < |row| && k != j ==> row[k].name != name
    ensures Get(row, name) == Some(row[j].value)
  {
  }

  /** Each field of that row is the only one with its name. */
  lemma LiteralPropertyRowAt(j: nat)
    requires j < |LiteralPropertyRow()|
    ensures Get(LiteralPropertyRow(), LiteralPropertyRow()[j].name) == Some(LiteralPropertyRow()[j].value)
  {
    var row := LiteralPropertyRow();
    // The field names differ in length, except two that differ in their first letter.
    var lengths := [4, 9, 9, 8, 11, 15, 20];
    assert forall k :: 0 <= k < |row| ==> |row[k].name| == lengths[k];
    assert row[1].name[0] != row[2].name[0];
    GetSingle(row, row[j].name, j);
  }

  /** What that row binds. */
  lemma LiteralPropertyRowFields()
    ensures var row := LiteralPropertyRow();
      && Get(row, ItemField) == Some(Str("a"))
      && Get(row, StatementField) == Some(Str("s"))
      && Get(row, TargetField) == Some(Str("t"))
      && LabelOf(row, ItemLabelField) == Some("A")
      && LabelOf(row, TargetLabelField) == Some("T")
      && LabelOf(row, PropertyLabelField) == Some("P")
      && Get(row, PropertyField) == Some(Str("p"))
  {
    LiteralPropertyRowAt(0);
    LiteralPropertyRowAt(1);
    LiteralPropertyRowAt(2);
    LiteralPropertyRowAt(3);
    LiteralPropertyRowAt(4);
    LiteralPropertyRowAt(5);
    LiteralPropertyRowAt(6);
  }

  /** That row resolves whatever the host does, since it holds no URL or typed literal. */
  lemma LiteralPropertyRowResolves(host: Host)
    ensures Resolve(host, LiteralPropertyRow()) == Ok(LiteralPropertyIds())
  {
    LiteralPropertyRowFields();
    assert Text(host, Str("a")) == "a" && !IsWikidataUrl(Str("a"));
    assert Text(host, Str("s")) == "s";
    assert Text(host, Str("t")) == "t" && !IsWikidataUrl(Str("t"));
  }

  /** The ids that row resolves to. */
  function LiteralPropertyIds(): Resolved
  {
    Resolved("a", "s", "t", false, false)
  }

  /**
   * The first run of that row: into an empty store the subject goes in, the
   * new target goes in and then its literal property throws.
   */
  lemma LiteralPropertyFirstRun()
    ensures var row, res := LiteralPropertyRow(), LiteralPropertyIds();
      var a := SubjectStep(map[], res, row);
      var b := TargetStep(a.store, res, row);
      && a.failure.None?
      && b.failure == Some(BadField(PropertyField))
      && b.store.Keys == {"a", "t"}
  {
    var row := LiteralPropertyRow();
    LiteralPropertyRowAt(1);
    LiteralPropertyRowAt(3);
    LiteralPropertyRowAt(6);
    assert LabelOf(row, ItemLabelField) == Some("A");
    assert LabelOf(row, TargetLabelField) == Some("T");
    assert !PropertyIsUrl(row);
  }

  /**
   * A rerun of that row on a store holding its subject and target but not its
   * statement: both nodes are skipped and the edge goes in.
   */
  lemma LiteralPropertyRerun(s: Store)
    requires s.Keys == {"a", "t"}
    ensures var row, res := LiteralPropertyRow(), LiteralPropertyIds();
      && SubjectStep(s, res, row) == Applied(s, None)
      && TargetStep(s, res, row) == Applied(s, None)
      && EdgeStep(s, res, row).failure.None?
      && "s" in EdgeStep(s, res, row).store && "s" !in s
  {
    LiteralPropertyRowAt(4);
    assert LabelOf(LiteralPropertyRow(), PropertyLabelField) == Some("P");
  }

  /**
   * A row that threw is not idempotent. Its new target node stays after the
   * literal property throws; a second run finds the target present, skips
   * the property read and adds the edge.
   */
  lemma FailedRerunNotIdempotent(host: Host)
    ensures var first := ApplyRow(host, map[], LiteralPropertyRow());
      var second := ApplyRow(host, first.store, LiteralPropertyRow());
      && first.failure == Some(BadField(PropertyField))
      && second.failure.None?
      && second.store != first.store
  {
    LiteralPropertyRowResolves(host);
    LiteralPropertyFirstRun();
    var first := ApplyRow(host, map[], LiteralPropertyRow());
    LiteralPropertyRerun(first.store);
  }

  /** A batch whose rows all resolve to the same ids touches exactly those ids. */
  lemma {:induction false} BatchIdsOfRepeatedRow(host: Host, rows: seq<Row>, res: Resolved)
    requires |rows| >= 1
    requires forall i :: 0 <= i < |rows| ==> Resolve(host, rows[i]) == Ok(res)
    ensures BatchIds(host, rows) == IdSet(res)
    decreases |rows|
  {
    if |rows| > 1 {
      assert forall i :: 0 <= i < |rows[1..]| ==> rows[1..][i] == rows[i + 1];
      BatchIdsOfRepeatedRow(host, rows[1..], res);
    }
  }

  /**
   * Rows that restate one statement (the fan-out of an optional join) give
   * one edge between at most two nodes, however many rows there are.
   */
  lemma FanOutGivesOneEdge(host: Host, rows: seq<Row>, res: Resolved)
    requires |rows| >= 1
    requires forall i :: 0 <= i < |rows| ==> Resolve(host, rows[i]) == Ok(res)
    requires res.statementId != res.itemId && res.statementId != res.targetId
    requires ApplyRows(host, map[], rows).failure.None?
    ensures var t := ApplyRows(host, map[], rows).store;
      && t.Keys == IdSet(res)
      && t[res.statementId] == Edge(res.itemId, res.targetId, t[res.statementId].fullLabel,
                                    t[res.statementId].shortLabel, t[res.statementId].classes)
      && t[res.itemId].Node? && t[res.targetId].Node?
  {
    ApplyRowsAddsAllIds(host, map[], rows);
    BatchIdsOfRepeatedRow(host, rows, res);
    var a := ApplyRow(host, map[], rows[0]);
    assert a.failure.None?;
    assert ApplyRows(host, map[], rows) == ApplyRows(host, a.store, rows[1..]);
    assert IdSet(res) <= a.store.Keys;
  }
}
