/** A remote store held as a map, and the oracles it answers. Against it the
    service behaves as the integration tests expect: a put parameter reads
    back, a deleted one is reported not found, and listing reproduces every
    stored key with its value however the store splits its pages. */
module MemoryStore {
  import opened Results
  import opened Remote
  import Service

  datatype Stored = Stored(
    value: string,
    description: Option<string>,
    ptype: ParameterType,
    lastModified: Option<Timestamp>)

  type Store = map<string, Stored>

  /** An overwriting put, without a description. */
  function Put(store: Store, key: string, value: string, ptype: ParameterType, at: Timestamp): Store
  {
    store[key := Stored(value, None, ptype, Some(at))]
  }

  function Delete(store: Store, key: string): Store
  {
    store - {key}
  }

  function MetadataFor(store: Store, name: string): Metadata
    requires name in store
  {
    Metadata(name, store[name].description, store[name].ptype, store[name].lastModified)
  }

  function FetchedFor(store: Store, name: string): Fetched
    requires name in store
  {
    Fetched(name, store[name].value, store[name].ptype, store[name].lastModified)
  }

  /** The parameter a correct listing reports for a stored key. */
  function ParameterFor(store: Store, key: string): Service.Parameter
    requires key in store
  {
    var s := store[key];
    Service.Parameter(Service.DescriptionOf(MetadataFor(store, key)), key, s.value, s.ptype, s.lastModified)
  }

  const NotFoundText: string := "ParameterNotFound"

  function GetParameterOf(store: Store): GetParameterCall
  {
    key => if key in store then Success(store[key].value) else Failure(NotFoundFault(NotFoundText))
  }

  /** The batched get: the stored names among those asked for, in request
      order; unknown names are silently omitted. */
  function Fetch(store: Store, names: seq<string>): (r: seq<Fetched>)
    ensures forall f :: f in r ==> f.name in names && f.name in store && f == FetchedFor(store, f.name)
    ensures forall n :: n in names && n in store ==> FetchedFor(store, n) in r
    decreases |names|
  {
    if |names| == 0 then []
    else
      var rest := Fetch(store, names[1..]);
      assert forall n :: n in names[1..] ==> n in names;
      assert forall n :: n in names ==> n == names[0] || n in names[1..];
      (if names[0] in store then [FetchedFor(store, names[0])] else []) + rest
  }

  function GetParametersOf(store: Store): GetParametersCall
  {
    names => Success(Fetch(store, names))
  }

  /** The describe-parameters paginator over `entries`: consecutive pages of
      at most `size` entries, always at least one page (possibly empty). */
  function Paginate(entries: seq<Metadata>, size: nat): (pages: seq<PageResult>)
    requires size > 0
    ensures |pages| >= 1
    ensures AllFetched(pages)
    ensures forall k :: 0 <= k < |pages| ==> pages[k].Success? && |pages[k].value| <= size
    decreases |entries|
  {
    if |entries| <= size then [Success(entries)]
    else [Success(entries[..size])] + Paginate(entries[size..], size)
  }

  /** Paginating loses, duplicates and reorders nothing. */
  lemma {:induction false} PaginateEntries(entries: seq<Metadata>, size: nat)
    requires size > 0
    ensures Entries(Paginate(entries, size)) == entries
    decreases |entries|
  {
    if |entries| > size {
      var pages := Paginate(entries, size);
      assert pages[1..] == Paginate(entries[size..], size);
      PaginateEntries(entries[size..], size);
      assert entries[..size] + entries[size..] == entries;
    }
  }

  /** The metadata the store describes for `order`, one entry per name. */
  function Describe(store: Store, order: seq<string>): (entries: seq<Metadata>)
    requires forall i :: 0 <= i < |order| ==> order[i] in store
    ensures |entries| == |order|
    ensures forall i :: 0 <= i < |order| ==> entries[i] == MetadataFor(store, order[i])
  {
    seq(|order|, i requires 0 <= i < |order| => MetadataFor(store, order[i]))
  }

  /** An entry describes a stored parameter exactly as it is stored. */
  predicate Agrees(store: Store, m: Metadata)
  {
    m.name in store && m == MetadataFor(store, m.name)
  }

  predicate AllAgree(store: Store, entries: seq<Metadata>)
  {
    forall i :: 0 <= i < |entries| ==> Agrees(store, entries[i])
  }

  /** A listed parameter is the stored one with the same key. */
  predicate Faithful(store: Store, p: Service.Parameter)
  {
    p.key in store && p == ParameterFor(store, p.key)
  }

  lemma {:induction false} LastDescriptionAgrees(store: Store, page: Page, n: string)
    requires AllAgree(store, page)
    requires n in Service.PageNames(page)
    ensures n in store
    ensures Service.LastDescription(page, n) == ParameterFor(store, n).description
    decreases |page|
  {
    var last := page[|page| - 1];
    assert Agrees(store, last);
    if last.name != n {
      var names := Service.PageNames(page);
      var i :| 0 <= i < |names| && names[i] == n;
      assert i < |page| - 1;
      assert Service.PageNames(page[..|page| - 1])[i] == n;
      var prefix := page[..|page| - 1];
      assert AllAgree(store, prefix) by {
        forall j | 0 <= j < |prefix| ensures Agrees(store, prefix[j]) {
          assert prefix[j] == page[j];
        }
      }
      LastDescriptionAgrees(store, page[..|page| - 1], n);
    }
  }

  lemma AllAgreeSplit(store: Store, a: seq<Metadata>, b: seq<Metadata>)
    requires AllAgree(store, a + b)
    ensures AllAgree(store, a) && AllAgree(store, b)
  {
    forall i | 0 <= i < |a| ensures Agrees(store, a[i]) {
      assert (a + b)[i] == a[i];
    }
    forall i | 0 <= i < |b| ensures Agrees(store, b[i]) {
      assert (a + b)[|a| + i] == b[i];
    }
  }

  /** The parameters one page step contributes to the listing. */
  function Contribution(page: PageResult, store: Store): seq<Service.Parameter>
  {
    if page.Success? then Service.PageParameters(page.value, GetParametersOf(store)).value else []
  }

  /** The parameters a correct listing reports for `entries`: one per entry,
      in entry order. */
  function Listed(store: Store, entries: seq<Metadata>): seq<Service.Parameter>
    requires AllAgree(store, entries)
  {
    seq(|entries|, i requires 0 <= i < |entries| => ParameterFor(store, entries[i].name))
  }

  lemma ListedAppend(store: Store, a: seq<Metadata>, b: seq<Metadata>)
    requires AllAgree(store, a + b)
    ensures AllAgree(store, a) && AllAgree(store, b)
    ensures Listed(store, a + b) == Listed(store, a) + Listed(store, b)
  {
    AllAgreeSplit(store, a, b);
    var l := Listed(store, a + b);
    forall i | 0 <= i < |l| ensures l[i] == (Listed(store, a) + Listed(store, b))[i] {
      if i < |a| {
        assert (a + b)[i] == a[i];
      } else {
        assert (a + b)[i] == b[i - |a|];
      }
    }
  }

  /** When every asked-for name is stored, the batched get answers each of
      them, in request order. */
  lemma {:induction false} FetchAllStored(store: Store, names: seq<string>)
    requires forall i :: 0 <= i < |names| ==> names[i] in store
    ensures Fetch(store, names) == seq(|names|, i requires 0 <= i < |names| => FetchedFor(store, names[i]))
    decreases |names|
  {
    if |names| != 0 {
      FetchAllStored(store, names[1..]);
    }
  }

  /** One page against the store yields exactly one parameter per entry, in
      entry order, each the stored one. */
  lemma PageFromStoreExact(store: Store, page: Page)
    requires AllAgree(store, page)
    ensures Service.PageParameters(page, GetParametersOf(store)).value == Listed(store, page)
  {
    var names := Service.PageNames(page);
    assert forall i :: 0 <= i < |names| ==> names[i] in store by {
      forall i | 0 <= i < |names| ensures names[i] in store {
        assert Agrees(store, page[i]);
      }
    }
    FetchAllStored(store, names);
    var res := Fetch(store, names);
    var ps := Service.PageParameters(page, GetParametersOf(store)).value;
    assert |ps| == |page|;
    forall i | 0 <= i < |page| ensures ps[i] == Listed(store, page)[i] {
      assert res[i] == FetchedFor(store, page[i].name);
      LastDescriptionAgrees(store, page, page[i].name);
    }
  }

  lemma {:induction false} HarvestFromStoreExact(store: Store, pages: seq<PageResult>)
    requires AllAgree(store, Entries(pages))
    ensures Service.Harvest(pages, GetParametersOf(store)) == Listed(store, Entries(pages))
    decreases |pages|
  {
    if |pages| != 0 {
      var head := if pages[0].Success? then pages[0].value else [];
      assert Entries(pages) == head + Entries(pages[1..]);
      ListedAppend(store, head, Entries(pages[1..]));
      PageFromStoreExact(store, head);
      HarvestFromStoreExact(store, pages[1..]);
      assert Service.Harvest(pages, GetParametersOf(store))
             == Contribution(pages[0], store) + Service.Harvest(pages[1..], GetParametersOf(store));
    }
  }

  /** The pages the store hands out describe it completely: every page is
      fetched, every entry is a stored parameter as stored, and every stored
      key is named by some entry. */
  predicate DescribesAll(store: Store, pages: seq<PageResult>)
  {
    && AllFetched(pages)
    && AllAgree(store, Entries(pages))
    && forall key :: key in store ==> exists i :: 0 <= i < |Entries(pages)| && Entries(pages)[i].name == key
  }

  /** Listing a store whose pages describe it completely returns no error and
      exactly its parameters: each listed one is stored with that value,
      description and type, and each stored key is listed. */
  lemma ListReproducesStore(store: Store, pages: seq<PageResult>)
    requires DescribesAll(store, pages)
    ensures var r := Service.ListSpec(pages, GetParametersOf(store));
            && r.err == None
            && r.value == Listed(store, Entries(pages))
            && (forall p :: p in r.value ==> Faithful(store, p))
            && (forall key :: key in store ==> ParameterFor(store, key) in r.value)
            && (set p | p in r.value :: p.key) == store.Keys
  {
    var r := Service.ListSpec(pages, GetParametersOf(store));
    var entries := Entries(pages);
    HarvestFromStoreExact(store, pages);
    forall p | p in r.value ensures Faithful(store, p) {
      var i :| 0 <= i < |entries| && r.value[i] == p;
      assert Agrees(store, entries[i]);
    }
    forall key | key in store ensures ParameterFor(store, key) in r.value {
      var i :| 0 <= i < |entries| && entries[i].name == key;
      assert r.value[i] == ParameterFor(store, key);
    }
    var keys := set p | p in r.value :: p.key;
    forall key | key in keys ensures key in store {
      var p :| p in r.value && p.key == key;
      assert Faithful(store, p);
    }
    forall key | key in store ensures key in keys {
      assert ParameterFor(store, key) in r.value;
    }
  }

  /** Whatever page size the store uses, listing a store described in any
      order that names each key reproduces the store: exactly one parameter
      per name of `order`, in that order, each the stored one, so one per
      stored key when `order` names each key once. */
  lemma ListIndependentOfPageSize(store: Store, order: seq<string>, size: nat)
    requires size > 0
    requires forall i :: 0 <= i < |order| ==> order[i] in store
    requires forall key :: key in store ==> key in order
    ensures var r := Service.ListSpec(Paginate(Describe(store, order), size), GetParametersOf(store));
            && r.err == None
            && r.value == seq(|order|, i requires 0 <= i < |order| => ParameterFor(store, order[i]))
            && (forall p :: p in r.value ==> Faithful(store, p))
            && (set p | p in r.value :: p.key) == store.Keys
  {
    var entries := Describe(store, order);
    var pages := Paginate(entries, size);
    PaginateEntries(entries, size);
    forall key | key in store ensures exists i :: 0 <= i < |Entries(pages)| && Entries(pages)[i].name == key {
      var i :| 0 <= i < |order| && order[i] == key;
      assert Entries(pages)[i].name == key;
    }
    ListReproducesStore(store, pages);
    assert AllAgree(store, entries);
  }

  /** Get against the store: a stored key yields its value and no error; any
      other key yields "" and the not-found marker for that key. */
  lemma GetFromStore(store: Store, key: string)
    ensures key in store ==> Service.Get(GetParameterOf(store), key) == Returns(store[key].value, None)
    ensures key !in store ==>
              Service.Get(GetParameterOf(store), key)
              == Returns("", Some(Service.ParameterNotFound(key, NotFoundFault(NotFoundText))))
  {
  }

  /** A put value reads back unchanged, whatever its type. */
  lemma PutThenGet(store: Store, key: string, value: string, ptype: ParameterType, at: Timestamp)
    ensures Service.Get(GetParameterOf(Put(store, key, value, ptype, at)), key) == Returns(value, None)
  {
  }

  /** A deleted key is reported not found, and the message names the key. */
  lemma DeleteThenGet(store: Store, key: string)
    ensures var r := Service.Get(GetParameterOf(Delete(store, key)), key);
            && r.value == ""
            && r.err.Some? && r.err.value.ParameterNotFound?
            && Service.ErrorMessage(r.err.value) == Service.NotFoundMessage(key)
  {
  }
}
