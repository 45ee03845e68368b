/**
 * What a click on a node asks for (index.mjs, the `click` handler on
 * nodes): the entity id to query next is the last `/`-separated segment of
 * the node's URL path.
 */
module EntityIds {
  import opened Wrappers
  import opened Terms
  import opened GraphModel

  const Slash: char := '/'

  /** `s.split(sep)` for a one-character separator. */
  function Split(s: string, sep: char): (pieces: seq<string>)
    ensures |pieces| >= 1
    ensures forall i :: 0 <= i < |pieces| ==> sep !in pieces[i]
    ensures Join(pieces, sep) == s
    decreases |s|
  {
    if s == [] then [""]
    else
      var rest := Split(s[1..], sep);
      if s[0] == sep then
        assert Join([""] + rest, sep) == [sep] + Join(rest, sep) by {
          assert ([""] + rest)[1..] == rest;
        }
        [""] + rest
      else
        var pieces := [[s[0]] + rest[0]] + rest[1..];
        assert Join(pieces, sep) == [s[0]] + Join(rest, sep) by {
          if |rest| > 1 {
            assert pieces[1..] == rest[1..];
          }
        }
        pieces
  }

  /** The pieces joined back together with the separator between them. */
  function Join(pieces: seq<string>, sep: char): string
    requires |pieces| >= 1
    decreases |pieces|
  {
    if |pieces| == 1 then pieces[0]
    else pieces[0] + [sep] + Join(pieces[1..], sep)
  }

  /** Joining splits off the last piece behind the last separator. */
  lemma {:induction false} JoinLast(pieces: seq<string>, sep: char)
    requires |pieces| >= 2
    ensures Join(pieces, sep) == Join(pieces[..|pieces| - 1], sep) + [sep] + pieces[|pieces| - 1]
    decreases |pieces|
  {
    if |pieces| > 2 {
      JoinLast(pieces[1..], sep);
      assert pieces[1..][..|pieces| - 2] == pieces[..|pieces| - 1][1..];
    }
  }

  /**
   * The last `/`-separated segment of a path (`pieces[pieces.length - 1]`):
   * the longest suffix without a slash.
   */
  function LastSegment(path: string): (id: string)
    ensures Slash !in id
    ensures |id| <= |path| && path[|path| - |id|..] == id
    ensures |id| < |path| ==> path[|path| - |id| - 1] == Slash
  {
    var pieces := Split(path, Slash);
    var id := pieces[|pieces| - 1];
    if |pieces| >= 2 then
      JoinLast(pieces, Slash);
      assert path == Join(pieces[..|pieces| - 1], Slash) + [Slash] + id;
      id
    else
      id
  }

  /** A text without the separator splits into itself alone. */
  lemma {:induction false} SplitWithoutSeparator(s: string, sep: char)
    requires sep !in s
    ensures Split(s, sep) == [s]
    decreases |s|
  {
    if s != [] {
      SplitWithoutSeparator(s[1..], sep);
    }
  }

  /** Whatever precedes the last separator, the last piece is what follows it. */
  lemma {:induction false} SplitLastPiece(before: string, sep: char, after: string)
    requires sep !in after
    ensures var pieces := Split(before + [sep] + after, sep);
      |pieces| >= 2 && pieces[|pieces| - 1] == after
    decreases |before|
  {
    var s := before + [sep] + after;
    if before == [] {
      assert s[1..] == after;
      SplitWithoutSeparator(after, sep);
    } else {
      assert s[1..] == before[1..] + [sep] + after;
      SplitLastPiece(before[1..], sep, after);
    }
  }

  /** The id after the last slash is recovered whatever precedes it. */
  lemma EntityIdOfPath(prefix: string, id: string)
    requires Slash !in id
    ensures LastSegment(prefix + [Slash] + id) == id
  {
    SplitLastPiece(prefix, Slash, id);
  }

  /** A slash-free suffix of a path is a suffix of the path's last segment. */
  lemma {:induction false} EndsWithAfterSlash(prefix: string, segment: string, suffix: string)
    requires Slash !in segment && Slash !in suffix
    ensures EndsWith(prefix + [Slash] + segment, suffix) <==> EndsWith(segment, suffix)
  {
    var path := prefix + [Slash] + segment;
    if |suffix| <= |segment| {
      assert path[|path| - |suffix|..] == segment[|segment| - |suffix|..];
    } else if |suffix| <= |path| {
      assert path[|path| - |suffix|..][|suffix| - |segment| - 1] == Slash;
    }
  }

  /**
   * Whether a row's property tags an image depends only on the last segment
   * of the property's path: it does iff that segment ends with `P18`, and a
   * property that is not a URL never does.
   */
  lemma ImagePropertyBySegment(row: Row, prefix: string, segment: string)
    requires Slash !in segment
    ensures !PropertyIsUrl(row) ==> !IsImageProperty(row)
    ensures PropertyIsUrl(row) && Get(row, PropertyField).value.url.pathname == prefix + [Slash] + segment ==>
      (IsImageProperty(row) <==> EndsWith(segment, ImageProperty))
  {
    EndsWithAfterSlash(prefix, segment, ImageProperty);
  }

  /** What a click on a node does. */
  datatype ClickAction =
    | OpenInTab(url: string)     // ctrl-click: open the node's id in a new tab
    | Expand(entityId: string)   // query the entity and add its statements
    | NoAction

  /**
   * The click handler on a node: a ctrl-click opens the node's id; a plain
   * click on a `wikidata` node re-parses its id as a URL and expands the
   * entity named by the path's last segment; other clicks do nothing.
   */
  function ClickNode(host: Host, s: Store, id: string, ctrlKey: bool): (r: Result<ClickAction, Failure>)
    requires id in s && s[id].Node?
    ensures ctrlKey ==> r == Ok(OpenInTab(id))
    ensures !ctrlKey && WikidataClass !in s[id].classes ==> r == Ok(NoAction)
    ensures !ctrlKey && WikidataClass in s[id].classes ==>
      match host.parseUrl(id)
      case None => r == Err(InvalidUrl(id))
      case Some(u) => r == Ok(Expand(LastSegment(u.pathname)))
  {
    if ctrlKey then Ok(OpenInTab(id))
    else if WikidataClass in s[id].classes then
      match host.parseUrl(id)
      case None => Err(InvalidUrl(id))
      case Some(u) => Ok(Expand(LastSegment(u.pathname)))
    else Ok(NoAction)
  }

  /**
   * A plain click on a subject node the row loop added for a Wikidata item
   * expands the item whose id ends the item URL's path, given that the URL
   * parser reads back the URL it printed.
   */
  lemma ClickExpandsItem(host: Host, s: Store, row: Row, prefix: string, entity: string)
    requires Resolve(host, row).Ok?
    requires Resolve(host, row).value.itemId !in s
    requires Resolve(host, row).value.itemId in ApplyRow(host, s, row).store
    requires IsWikidataUrl(Get(row, ItemField).value)
    requires host.parseUrl(Get(row, ItemField).value.url.href) == Some(Get(row, ItemField).value.url)
    requires Get(row, ItemField).value.url.pathname == prefix + [Slash] + entity && Slash !in entity
    ensures var id := Resolve(host, row).value.itemId;
      ClickNode(host, ApplyRow(host, s, row).store, id, false) == Ok(Expand(entity))
  {
    var res := Resolve(host, row).value;
    var u := Get(row, ItemField).value.url;
    var t := ApplyRow(host, s, row).store;
    ResolveReadsFields(host, row);
    NewSubjectNode(host, s, row);
    assert res.itemId == u.href && t[res.itemId].Node? && WikidataClass in t[res.itemId].classes;
    EntityIdOfPath(prefix, entity);
    assert LastSegment(u.pathname) == entity;
  }
}
