/**
 * Decoding of the typed RDF terms of a query result row into the values the
 * row loop works on (index.mjs, `xmlDatatypeToJs`, `wikidataDatatypeToJs`,
 * `isWikidataUrl`).
 */
module Terms {
  import opened Wrappers

  /** The two literal datatypes that are projected to native values. */
  const XsdDateTime := "http://www.w3.org/2001/XMLSchema#dateTime"
  const XsdDecimal := "http://www.w3.org/2001/XMLSchema#decimal"

  /** The term kinds the decoder accepts. */
  const LiteralKind := "literal"
  const UriKind := "uri"

  /** Host names containing this text are treated as Wikidata. */
  const WikidataDomain := "wikidata.org"

  /**
   * One RDF term, `{type, value, datatype?}` as in section 3.2.2 of the
   * W3C "SPARQL 1.1 Query Results JSON Format"; `kind` is its `type` member.
   */
  datatype Term = Term(kind: string, value: string, datatypeIri: Option<string>)

  /** What the row loop and the click handler read of a parsed URL. */
  datatype Url = Url(href: string, hostname: string, pathname: string)

  /**
   * A decoded value. A date and a number keep the lexical form they were
   * parsed from; what the parse yields is observed only through the host.
   */
  datatype Value =
    | Str(s: string)
    | DateVal(raw: string)
    | DecimalVal(raw: string)
    | UrlVal(url: Url)

  /**
   * The host built-ins the decoder and the row loop call: the URL parser
   * (`new URL`, which throws on a malformed URL) and the `toString` of the
   * date and of the number parsed from a lexical form.
   */
  datatype Host = Host(
    parseUrl: string -> Option<Url>,
    dateText: string -> string,
    numberText: string -> string)

  /** The errors the core throws. */
  datatype Failure =
    | UnsupportedType(term: Term)  // a term whose kind is neither literal nor uri
    | InvalidUrl(text: string)     // `new URL` rejected a uri term's value
    | BadField(name: string)       // a row field is missing or lacks the property read from it

  /** The lexical form a literal was decoded from. */
  function Lexical(v: Value): string
  {
    match v
    case Str(s) => s
    case DateVal(raw) => raw
    case DecimalVal(raw) => raw
    case UrlVal(u) => u.href
  }

  /** `object.datatype` is truthy: present and not the empty string. */
  predicate HasDatatype(t: Term)
  {
    t.datatypeIri.Some? && t.datatypeIri.value != ""
  }

  /**
   * Projection of a typed literal. Only dateTime and decimal are projected;
   * any other datatype degrades to the literal's own text.
   */
  function XmlDatatypeToValue(datatypeIri: string, value: string): (v: Value)
    ensures !v.UrlVal? && Lexical(v) == value
    ensures v.DateVal? <==> datatypeIri == XsdDateTime
    ensures v.DecimalVal? <==> datatypeIri == XsdDecimal
    ensures v.Str? <==> datatypeIri != XsdDateTime && datatypeIri != XsdDecimal
  {
    if datatypeIri == XsdDateTime then DateVal(value)
    else if datatypeIri == XsdDecimal then DecimalVal(value)
    else Str(value)
  }

  /** Decoding of one term, dispatching on its kind. */
  function Decode(host: Host, t: Term): (r: Result<Value, Failure>)
    ensures t.kind == LiteralKind ==> r.Ok? && !r.value.UrlVal? && Lexical(r.value) == t.value
    ensures t.kind == LiteralKind && !HasDatatype(t) ==> r == Ok(Str(t.value))
    ensures t.kind == LiteralKind && HasDatatype(t) ==>
      r == Ok(XmlDatatypeToValue(t.datatypeIri.value, t.value))
    ensures t.kind == UriKind ==>
      && (r.Ok? <==> host.parseUrl(t.value).Some?)
      && (r.Ok? ==> r.value == UrlVal(host.parseUrl(t.value).value))
      && (r.Err? ==> r.error == InvalidUrl(t.value))
    ensures t.kind != LiteralKind && t.kind != UriKind ==> r == Err(UnsupportedType(t))
    ensures r.Ok? ==> (r.value.UrlVal? <==> t.kind == UriKind)
  {
    if t.kind == LiteralKind then
      if HasDatatype(t) then Ok(XmlDatatypeToValue(t.datatypeIri.value, t.value))
      else Ok(Str(t.value))
    else if t.kind == UriKind then
      match host.parseUrl(t.value)
      case Some(u) => Ok(UrlVal(u))
      case None => Err(InvalidUrl(t.value))
    else
      Err(UnsupportedType(t))
  }

  /** The string a value converts to (`value.toString()`). */
  function Text(host: Host, v: Value): string
  {
    match v
    case Str(s) => s
    case UrlVal(u) => u.href
    case DateVal(raw) => host.dateText(raw)
    case DecimalVal(raw) => host.numberText(raw)
  }

  /** `sub` occurs in `s` (`String.prototype.includes`). */
  predicate Contains(s: string, sub: string)
    decreases |s|
  {
    sub <= s || (s != [] && Contains(s[1..], sub))
  }

  /** `s` ends with `suffix` (`String.prototype.endsWith`). */
  predicate EndsWith(s: string, suffix: string)
  {
    |suffix| <= |s| && s[|s| - |suffix|..] == suffix
  }

  /**
   * A value is a Wikidata URL: a URL whose host name contains the domain.
   * Strings, dates and numbers never are.
   */
  predicate IsWikidataUrl(v: Value)
  {
    v.UrlVal? && Contains(v.url.hostname, WikidataDomain)
  }

  /** Whatever surrounds an occurrence, `includes` finds it. */
  lemma {:induction false} ContainsInfix(before: string, sub: string, after: string)
    ensures Contains(before + sub + after, sub)
  {
    if before == [] {
      assert before + sub + after == sub + after;
    } else {
      ContainsInfix(before[1..], sub, after);
      assert (before + sub + after)[1..] == before[1..] + sub + after;
    }
  }

  /** `sub` occurs in `s` starting at index `k`. */
  predicate OccursAt(s: string, sub: string, k: int)
  {
    0 <= k <= |s| - |sub| && s[k..k + |sub|] == sub
  }

  /** `includes` finds exactly the texts that occur at some index. */
  lemma {:induction false} ContainsIffOccurs(s: string, sub: string)
    ensures Contains(s, sub) <==> exists k :: OccursAt(s, sub, k)
    decreases |s|
  {
    if sub <= s {
      assert OccursAt(s, sub, 0);
    } else if s == [] {
      assert forall k :: !OccursAt(s, sub, k);
    } else {
      ContainsIffOccurs(s[1..], sub);
      if Contains(s, sub) {
        var k :| OccursAt(s[1..], sub, k);
        assert s[k + 1..k + 1 + |sub|] == s[1..][k..k + |sub|];
        assert OccursAt(s, sub, k + 1);
      }
      if k :| OccursAt(s, sub, k) {
        assert s[0..|sub|] == s[..|sub|];
        assert s[1..][k - 1..k - 1 + |sub|] == s[k..k + |sub|];
        assert OccursAt(s[1..], sub, k - 1);
      }
    }
  }

  /** A value is a Wikidata URL exactly when it is a URL whose host name has the domain at some index. */
  lemma WikidataUrlIffOccurs(v: Value)
    ensures IsWikidataUrl(v) <==> v.UrlVal? && exists k :: OccursAt(v.url.hostname, WikidataDomain, k)
  {
    if v.UrlVal? {
      ContainsIffOccurs(v.url.hostname, WikidataDomain);
    }
  }

  /**
   * Classification of decoded terms: a uri whose host name has the Wikidata
   * domain inside it is a Wikidata URL, and a literal never is.
   */
  lemma WikidataClassification(host: Host, t: Term, before: string, after: string)
    requires Decode(host, t).Ok?
    ensures t.kind == LiteralKind ==> !IsWikidataUrl(Decode(host, t).value)
    ensures t.kind == UriKind && host.parseUrl(t.value).value.hostname == before + WikidataDomain + after
      ==> IsWikidataUrl(Decode(host, t).value)
  {
    if t.kind == UriKind {
      ContainsInfix(before, WikidataDomain, after);
    }
  }
}
