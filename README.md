# wikidata-explorer: the result-to-graph engine, in Dafny

wikidata-explorer draws Wikidata entities and their statements as a graph.
It asks the Wikidata query service for the statements of an entity. It
decodes the typed RDF terms of each result row, and it merges the rows into
one growing Cytoscape graph. In that graph a node is an item or a value, and
an edge is a statement. A click on a Wikidata node queries that entity in
turn.

This project models the parts of `index.mjs` that do this:

- `labels.dfy` (module `Labels`): `shortenLabel`, the short text drawn for
  every node and edge.
- `terms.dfy` (module `Terms`): `xmlDatatypeToJs`, `wikidataDatatypeToJs` and
  `isWikidataUrl`. These decode one term `{type, value, datatype?}` of the
  W3C "SPARQL 1.1 Query Results JSON Format" (section 3.2.2) and classify
  the URLs that come out.
- `graph_model.dfy` (module `GraphModel`): `parseWikidataItem` and the body
  of `wikidataToCytoscape`, stated on values. The store is one map from
  element id to element, because `cy.getElementById` sees nodes and edges in
  one id space. The row loop is a function from a store to a store plus the
  error that stopped it, if any. The properties the loop promises are lemmas
  about that function.
- `graph_store.dfy` (module `GraphStore`): the same loop as the source runs
  it. A `Graph` class holds the elements and changes them in place through
  `cy.add`, `getElementById` and `addClass`. The row-level methods
  (`AddSubject`, `AddTarget`, `AddStatement`, `AddRow`, `AddRows`,
  `Incorporate`) are proved equal to the functions that specify them; the
  primitives are specified by the map update they make. The class invariant `Valid()` says that
  every edge's endpoints are present and every short label is the short form
  of its label.
- `entity_ids.dfy` (module `EntityIds`): the node click handler. It takes the
  last `/`-separated segment of a node's URL path as the id of the entity to
  expand.
- `wrappers.dfy` (module `Wrappers`): `Option` and `Result`.

Facts about the code that the model keeps:

- `Date.parse` and `parseFloat` never throw; they yield NaN or an invalid
  date. Decoding a dateTime or decimal literal therefore never fails.
- `if (object.datatype)` tests truthiness. A literal whose datatype is the
  empty string decodes like a literal without a datatype.
- Every row is decoded before the loop starts, so a term that does not
  decode leaves the graph untouched. A row whose fields have the wrong shape
  throws partway through the loop. It keeps what the earlier rows added, and
  it keeps what its own earlier steps added. For example, the target node
  is already in the graph when `property.pathname.endsWith` throws on a
  property that is not a URL.
- `shortenLabel` throws on a label that is missing or is not a string. It is
  called only for an element that is new. A missing or non-string label
  therefore fails the row only when its element is added.
- The row loop has no `await`; only the re-layout after it does. The whole
  batch is therefore one uninterrupted update, and the `Graph` methods model
  it as one.

Host built-ins the model cannot see are parameters, gathered in
`Terms.Host`:

- `new URL(text)`, which may throw, is `parseUrl: string -> Option<Url>`.
- The `toString` of a parsed date is `dateText`.
- The `toString` of a parsed number is `numberText`.

## Model

| member | source | states |
|---|---|---|
| Labels.ShortenLabel | index.mjs:15-19 | A label of at most 50 characters is returned unchanged, and only such a label is. A longer one becomes exactly 50 characters: its first 44, the ellipsis `…`, then its last 5. |
| Labels.ShortenLabelIdempotent | index.mjs:15-19 | Shortening a short label again changes nothing. |
| Terms.XmlDatatypeToValue | index.mjs:95-106 | A typed literal is a date iff its datatype is XSD dateTime and a number iff it is XSD decimal. Any other datatype degrades to the literal's own string. The lexical form is always kept. |
| Terms.Decode | index.mjs:108-122 | A literal never fails. Without a (truthy) datatype it yields its raw string; with one it yields the datatype projection. A uri yields the parsed URL, or fails with `InvalidUrl` when the URL parser rejects it. Any other kind fails with an error carrying the whole term. Only a uri yields a URL. |
| Terms.ContainsIffOccurs | index.mjs:128-130 | The `includes` test holds exactly when the text occurs at some index. |
| Terms.ContainsInfix | index.mjs:128-130 | `includes` finds the text whatever surrounds it. |
| Terms.WikidataUrlIffOccurs | index.mjs:128-130 | `IsWikidataUrl` holds exactly for a URL whose host name has `wikidata.org` at some index; strings, dates and numbers never qualify. |
| Terms.WikidataClassification | index.mjs:128-130 | A decoded literal is never a Wikidata URL. A uri whose host name has `wikidata.org` inside it is one. |
| GraphModel.ParseRow | index.mjs:124-126 | A row decodes iff every one of its terms decodes. The decoded row has the same length, names and decoded values in order. A failure is the error of one of its terms. |
| GraphModel.DecodeRows | index.mjs:138 | A batch decodes iff every row decodes, and the result is those rows in order. A failure is the error of one of its rows. |
| GraphModel.Get | index.mjs:124-126 | The value bound to a name is absent iff no field has that name. Otherwise it is the value of a field with that name that no later field shares: the last binding wins, as in `Object.fromEntries`. |
| GraphModel.Resolve | index.mjs:141-147 | A row resolves iff its item, statement and target are all present. Otherwise it fails on the first absent one, in the order item, statement, target. |
| GraphModel.ResolveReadsFields | index.mjs:141-147 | A resolved row's ids are the string forms of its item, statement and target. Its flags are their Wikidata classification. |
| GraphModel.SubjectStep | index.mjs:149-161 | Only the item id can be added, and nothing present changes. The step fails iff the item id is absent and the item label is not a string; a failed step changes nothing. A new subject node has the item label, its short form, and class `wikidata` iff the item is a Wikidata URL. Edge endpoints stay present and every short label stays the short form of its label. |
| GraphModel.TargetStep | index.mjs:163-174 | Only the target id can be added, and nothing present changes. An absent target is added iff its label is a string; otherwise the step fails and changes nothing. The step goes through iff the target is present, or its label is a string and the property is a URL. A property that is not a URL fails with the node already added. A new target node has the target label and its short form. Its classes are `wikidata` iff the target is a Wikidata URL, plus `image` iff the property path ends with `P18`. |
| GraphModel.EdgeStep | index.mjs:176-188 | Only the statement id can be added, and present elements do not change. The step fails iff the statement id is absent and the property label is not a string; a failed step changes nothing. A new edge runs from the item to the target, carries the property label and its short form, and has class `autororate`. |
| GraphModel.ApplyRow | index.mjs:140-188 | First write wins: every present element is kept exactly. New ids are among the row's item, statement and target. Every new edge is the statement, from the item to the target, with both present. A row that goes through leaves all three ids present. A row missing an id field changes nothing. Present endpoints and derived short labels are kept. |
| GraphModel.ApplyRowGoesThrough | index.mjs:140-188 | A row goes through exactly when it resolves and every element it adds can read what it needs: a new item or target has a string label, a new target's property is a URL, and a new statement has a string property label. |
| GraphModel.WellFormedRowGoesThrough | index.mjs:140-188 | A row with an item, a statement, a target, three string labels and a URL property goes through, whatever the graph holds. |
| GraphModel.NewStatementEdge | index.mjs:176-188 | A statement edge the row adds (when its id is neither node's id) is exactly an edge from the item to the target with the property label, its short form and class `autororate`. |
| GraphModel.NewSubjectNode | index.mjs:146-161 | A subject node the row adds is a node carrying the item label and its short form. It has class `wikidata` exactly when the item is a Wikidata URL, and never `image`. |
| GraphModel.NewTargetNode | index.mjs:147-174 | A target node the row adds (when it is not the row's subject) is a node carrying the target label and its short form. It has `wikidata` iff the target is a Wikidata URL, and `image` iff the property path ends with `P18`. |
| GraphModel.ApplyRows | index.mjs:140-204 | The row loop keeps every element already present, keeps every edge's endpoints present, and keeps every short label the short form of its label. |
| GraphModel.WellFormedRowsGoThrough | index.mjs:140-204 | A loop over well-formed rows goes through, whatever the graph holds. |
| GraphModel.ApplyRowsAddsNamedIds | index.mjs:140-204 | The store grows only by ids that the rows name. |
| GraphModel.ApplyRowsResolvesAll | index.mjs:140-147 | A loop that goes through has found an item, a statement and a target in every row. |
| GraphModel.ApplyRowsAddsAllIds | index.mjs:140-204 | A loop that goes through leaves exactly the old ids plus every id its rows name. |
| GraphModel.Incorporation | index.mjs:137-204 | A term anywhere in the batch that does not decode leaves the store exactly as it was. The call keeps every present element and every edge's endpoints. When it goes through, the ids are the old ones plus every id of the decoded rows. |
| GraphModel.WellFormedBatchGoesThrough | index.mjs:137-204 | A batch that decodes into well-formed rows goes through. It leaves the old ids plus every id its rows name. |
| GraphModel.RowDoneIsNoOp | index.mjs:149-188 | A row whose three ids are all present changes nothing and does not fail. |
| GraphModel.RowsDoneAreNoOp | index.mjs:140-204 | Rows whose ids are all present leave the store as it is. |
| GraphModel.ApplyRowsIdempotent | index.mjs:140-204 | Re-running decoded rows that went through leaves the store identical. |
| GraphModel.IncorporationIdempotent | index.mjs:137-204 | Re-incorporating a batch that went through leaves the store identical, and succeeds again. |
| GraphModel.GetSingle | index.mjs:140 | A name bound at exactly one position of a row destructures to that position's value. |
| GraphModel.FailedRerunNotIdempotent | index.mjs:163-188 | There is a row (`LiteralPropertyRow`, with string labels and new ids) whose new target has a literal property: it throws after adding the target node, and running it again skips the property read, adds the edge and succeeds, so the store changes. |
| GraphModel.BatchIdsOfRepeatedRow | index.mjs:141-143 | Rows that all name the same ids name exactly those ids. |
| GraphModel.FanOutGivesOneEdge | index.mjs:140-188 | Start from an empty graph, with rows that all restate one statement whose id differs from both node ids. However many rows there are, when the loop goes through the graph ends with exactly the item, statement and target ids: one edge from the item to the target, and nodes for the item and the target. These are one node when the item and the target share an id. |
| GraphStore.Graph.constructor | index.mjs:223-288 | A new graph is empty and valid. |
| GraphStore.Graph.GetElementById | index.mjs:149-176 | Finds an element iff its id is in the store, node or edge. |
| GraphStore.Graph.AddNode | index.mjs:150-171 | Adds exactly one class-less node, with the short form of its label, under a new id. |
| GraphStore.Graph.AddTaggedNode | index.mjs:150-160 | Adds exactly one node under a new id, with its label and short form, and class `wikidata` iff `isWikidata`; its callers pass the flag `Resolve` computes, which `ResolveReadsFields` ties to `IsWikidataUrl`. |
| GraphStore.Graph.TagImage | index.mjs:173 | Adds class `image` to a present node iff it is asked to, and changes nothing else. |
| GraphStore.Graph.AddEdge | index.mjs:176-188 | Adds exactly one edge, between present elements, under a new id. Every edge's endpoints stay present. |
| GraphStore.Graph.AddClass | index.mjs:160-173 | Adds one class to a present node and changes nothing else. |
| GraphStore.Graph.AddSubject | index.mjs:149-161 | Its new state and failure are those of `SubjectStep`. |
| GraphStore.Graph.AddTarget | index.mjs:163-174 | Its new state and failure are those of `TargetStep`. |
| GraphStore.Graph.AddStatement | index.mjs:176-188 | Its new state and failure are those of `EdgeStep`. |
| GraphStore.Graph.AddRow | index.mjs:140-188 | Its new state and failure are those of `ApplyRow`. |
| GraphStore.Graph.AddRows | index.mjs:140-204 | The loop's new state and failure are those of `ApplyRows`. |
| GraphStore.Graph.Incorporate | index.mjs:137-215 | Its new state and failure are those of `Incorporation`. It asks for the `avsdf` layout with node separation 120 iff the batch went through. |
| EntityIds.Split | index.mjs:307 | `split` gives at least one piece, no piece contains the separator, and joining the pieces with it gives back the text. |
| EntityIds.JoinLast | index.mjs:307 | Joined pieces are the earlier pieces joined, then the separator, then the last piece. |
| EntityIds.LastSegment | index.mjs:307-308 | The id is a suffix of the path that has no `/`, and a `/` stands just before it unless it is the whole path. |
| EntityIds.SplitWithoutSeparator | index.mjs:307 | A text without the separator splits into itself alone. |
| EntityIds.SplitLastPiece | index.mjs:307-308 | The last piece is what follows the last separator, whatever precedes it. |
| EntityIds.EntityIdOfPath | index.mjs:307-308 | The segment after the last `/` is recovered exactly, whatever path precedes it. |
| EntityIds.ClickNode | index.mjs:293-314 | A ctrl-click opens the node's id. A plain click on a `wikidata` node expands exactly the last segment of the re-parsed URL's path; when the URL parser rejects the id, it fails. Any other click does nothing. |
| EntityIds.EndsWithAfterSlash | index.mjs:173 | A suffix without a slash ends a path iff it ends the path's last segment. |
| EntityIds.ImagePropertyBySegment | index.mjs:173 | A property that is not a URL never tags an image. For a URL property, the `P18` test depends only on the last segment of its path. |
| EntityIds.ClickExpandsItem | index.mjs:305-310 | Assume the loop added a subject node for a Wikidata item, and the URL parser reads back the URL it printed. A plain click on that node then expands exactly the entity whose id ends the item's path. |

## Left out

- `makeQuery`, `generateQueryURL` and `wikidataEntityAutocomplete` (index.mjs:34-93) are left out. They build SPARQL text and talk to remote services over the network.
- `getUserLanguage` (index.mjs:25-27) is left out; it reads the browser's ambient locale.
- Real date and decimal parsing are left out. A date or number keeps its lexical form, and its string form comes from `Terms.Host`.
- Real URL parsing by `new URL` is left out. It is the `Terms.Host` parameter `parseUrl`, which yields the `href`, `hostname` and `pathname` the code reads.
- The `console.error` and `console.info` logging is left out. It does not change any value.
- The layout algorithm (index.mjs:207-215) is left out. The model records only which layout is asked for, and when.
- Styling, the DOM, the typeahead and event wiring (index.mjs:223-357) are left out. So is the re-query that a click starts through `addToGraph` and `cy.center`; `EntityIds.ClickNode` stops at the entity id.
- Styling is out of scope, so the edge class is modelled only as the constant the code writes. That constant is `autororate`, while the stylesheet selects `.autorotate` (index.mjs:186,255).
- The commented-out qualifier edges (index.mjs:190-203) are left out, because they are not live code. `propQualifierEntity` is converted to a string at index.mjs:144; that cannot throw on a decoded value and the result is used only by the commented-out code, so the qualifier fields are ignored.
- Concurrent click and submit handlers interleaving at their `await`s are left out. Each batch is modelled as one uninterrupted update.
- Labels.ShortenLabel counts characters as Unicode scalar values, while JavaScript's `length` and `slice` count UTF-16 code units. The two agree on text without characters outside the Basic Multilingual Plane.
- GraphModel.ApplyRowsIdempotent: holds only for rows that went through. A row that threw can change the store when run again (FailedRerunNotIdempotent).
- EndpointsPresent: an edge's endpoints are guaranteed present as elements, not as nodes. Nodes and edges share one id space, so a row whose item id equals an earlier statement id gets an edge whose source is an edge.
- GraphModel.ApplyRows is not proved to be independent of row order. Rows that name disjoint ids and all go through commute (the loop stops at the first row that throws, so a throwing row does not commute with the others), but the model states only the final set of ids and the first-write-wins behaviour.
