/**
 * The fetched document: a primary list of resources plus a flat side table of
 * included resources, each identified by its type and id, and the two lookups
 * the store list performs on the side table (`find` and `filter`).
 */
module Documents {
  import opened Wrappers

  /** An attribute value. Only strings and integers are read by the core;
      every other JSON value (floats, booleans, null, objects) is opaque. */
  datatype Value = Text(text: string) | Integer(n: int) | OtherValue

  type Attributes = map<string, Value>

  /** The `data` member of one relationship object:
      absent or null, a single `{id}` object, or an array of `{id}` objects. */
  datatype Linkage = NoData | ToOne(id: string) | ToMany(ids: seq<string>)

  /** Relationship name to its linkage; a relationship whose value is null or
      undefined is simply not a key. */
  type Relationships = map<string, Linkage>

  /** One resource object; `relationships` is None when the member is missing. */
  datatype Resource = Resource(
    typ: string,
    id: string,
    attributes: Attributes,
    relationships: Option<Relationships>)

  /** The response body: `data` and `included` are None when the member is missing. */
  datatype Document = Document(data: Option<seq<Resource>>, included: Option<seq<Resource>>)

  /** The attribute `name`, or None when the attribute is undefined. */
  function Attribute(attrs: Attributes, name: string): Option<Value> {
    if name in attrs then Some(attrs[name]) else None
  }

  /** The predicate both lookups test: `item.type === typ && item.id === id`. */
  predicate Matches(r: Resource, typ: string, id: string) {
    r.typ == typ && r.id == id
  }

  /** `included.find(...)`: the first entry matching (typ, id), if any. */
  function FindFirst(s: seq<Resource>, typ: string, id: string): (r: Option<Resource>)
    ensures r.None? <==> forall i :: 0 <= i < |s| ==> !Matches(s[i], typ, id)
    ensures r.Some? ==> exists i :: 0 <= i < |s| && s[i] == r.value && Matches(s[i], typ, id) &&
                          forall j :: 0 <= j < i ==> !Matches(s[j], typ, id)
  {
    if s == [] then None
    else if Matches(s[0], typ, id) then Some(s[0])
    else
      var r := FindFirst(s[1..], typ, id);
      assert forall i :: 0 < i < |s| ==> s[i] == s[1..][i - 1];
      r
  }

  /** `included.filter(...)`: every entry matching (typ, id), in order, duplicates kept. */
  function FilterAll(s: seq<Resource>, typ: string, id: string): seq<Resource> {
    if s == [] then []
    else if Matches(s[0], typ, id) then [s[0]] + FilterAll(s[1..], typ, id)
    else FilterAll(s[1..], typ, id)
  }

  /** The number of entries of `s` matching (typ, id), counted one by one. */
  function CountMatching(s: seq<Resource>, typ: string, id: string): nat {
    if s == [] then 0
    else (if Matches(s[0], typ, id) then 1 else 0) + CountMatching(s[1..], typ, id)
  }

  /** The filter keeps only matching entries, each as often as it occurs in
      the side table. */
  lemma {:induction false} FilterAllSelects(s: seq<Resource>, typ: string, id: string)
    ensures forall x :: x in FilterAll(s, typ, id) ==> Matches(x, typ, id)
    ensures forall x :: multiset(FilterAll(s, typ, id))[x] == if Matches(x, typ, id) then multiset(s)[x] else 0
  {
    if s != [] {
      FilterAllSelects(s[1..], typ, id);
      assert s == [s[0]] + s[1..];
    }
  }

  /** Filtering a concatenation filters each part: the relative order of the
      matches in the side table is kept. */
  lemma {:induction false} FilterAllConcat(a: seq<Resource>, b: seq<Resource>, typ: string, id: string)
    ensures FilterAll(a + b, typ, id) == FilterAll(a, typ, id) + FilterAll(b, typ, id)
  {
    if a == [] {
      assert a + b == b;
    } else {
      assert (a + b)[1..] == a[1..] + b;
      FilterAllConcat(a[1..], b, typ, id);
    }
  }

  /** The filter keeps exactly as many entries as match. */
  lemma {:induction false} FilterAllLength(s: seq<Resource>, typ: string, id: string)
    ensures |FilterAll(s, typ, id)| == CountMatching(s, typ, id)
  {
    if s != [] {
      FilterAllLength(s[1..], typ, id);
    }
  }

  /** The first match is the first element of the full filter. */
  lemma {:induction false} FindFirstIsHeadOfFilter(s: seq<Resource>, typ: string, id: string)
    ensures FindFirst(s, typ, id) == if FilterAll(s, typ, id) == [] then None else Some(FilterAll(s, typ, id)[0])
  {
    if s != [] && !Matches(s[0], typ, id) {
      FindFirstIsHeadOfFilter(s[1..], typ, id);
    }
  }

  /** Nothing is kept exactly when nothing matches. */
  lemma {:induction false} FilterAllEmpty(s: seq<Resource>, typ: string, id: string)
    ensures FilterAll(s, typ, id) == [] <==> forall i :: 0 <= i < |s| ==> !Matches(s[i], typ, id)
  {
    if s != [] {
      FilterAllEmpty(s[1..], typ, id);
      assert forall i :: 0 < i < |s| ==> s[i] == s[1..][i - 1];
    }
  }
}
