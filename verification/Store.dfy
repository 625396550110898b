/** The App Store index: documents from operator sources, and their merge into one package list (store.py). */
module Store {
  import opened Options
  import opened Text
  import opened Sources

  // -- Index documents ----------------------------------------------------------------------

  /** A package entry; absent optional fields are empty. */
  datatype Entry = Entry(
    id: string, version: string, source: string, path: string, archiveUrl: string, signatureUrl: string)

  datatype Item = NotAnObject | Object(entry: Entry)

  datatype Index = Index(name: Option<string>, packages: seq<Item>)

  datatype BundledFile = Missing | Unreadable | Readable(index: Index)

  /**
    What a merge sees of the outside: the outcome of fetching each URL (`None` for any failure), the
    URL in the environment, and the index file shipped with the product.
   */
  datatype World = World(fetch: string -> Option<Index>, envUrl: string, bundled: BundledFile)

  datatype Resolved = Resolved(index: Index, remote: bool, url: Option<string>)

  const STORE_NAME := "Axionet App Store"

  /** `resolve_store_document`; `None` stands for the exception raised by an unreadable bundled file. */
  function Resolve(w: World, storeIndexUrl: string): Option<Resolved> {
    var url := Strip(if storeIndexUrl != "" then storeIndexUrl else w.envUrl);
    if url != "" && w.fetch(url).Some? then Some(Resolved(w.fetch(url).value, true, Some(url)))
    else
      match w.bundled
      case Missing => Some(Resolved(Index(Some(STORE_NAME), []), false, None))
      case Unreadable => None
      case Readable(index) => Some(Resolved(index, false, None))
  }

  // -- Merging ------------------------------------------------------------------------------

  /** An entry of the merged list, with the store it came from. */
  datatype Listing = Listing(entry: Entry, storeId: string, storeName: string)

  datatype Meta = Meta(id: string, name: string, indexUrl: Option<string>, remote: bool, priority: int)

  datatype Merged = Merged(remote: bool, indexUrl: Option<string>, sources: seq<Meta>, packages: seq<Listing>)

  /** The usable entries of a document, labelled with their store. */
  function Offers(items: seq<Item>, storeId: string, storeName: string): seq<Listing> {
    if items == [] then []
    else if items[0].Object? && items[0].entry.id != "" then
      [Listing(items[0].entry, storeId, storeName)] + Offers(items[1..], storeId, storeName)
    else Offers(items[1..], storeId, storeName)
  }

  function Find(listings: seq<Listing>, id: string): Option<Listing> {
    if listings == [] then None
    else if listings[0].entry.id == id then Some(listings[0])
    else Find(listings[1..], id)
  }

  predicate DistinctIds(listings: seq<Listing>) {
    forall i, j :: 0 <= i < j < |listings| ==> listings[i].entry.id != listings[j].entry.id
  }

  /** Adds the offers whose id is not listed yet. */
  function AddNew(listings: seq<Listing>, offers: seq<Listing>): seq<Listing>
    decreases |offers|
  {
    if offers == [] then listings
    else AddNew(if Find(listings, offers[0].entry.id).Some? then listings else listings + [offers[0]], offers[1..])
  }

  /** Stores a listing under its id: in the place of the one already there, or at the end. */
  function Put(listings: seq<Listing>, x: Listing): seq<Listing> {
    if listings == [] then [x]
    else if listings[0].entry.id == x.entry.id then [x] + listings[1..]
    else [listings[0]] + Put(listings[1..], x)
  }

  function PutAll(listings: seq<Listing>, offers: seq<Listing>): seq<Listing>
    decreases |offers|
  {
    if offers == [] then listings else PutAll(Put(listings, offers[0]), offers[1..])
  }

  /** The document consulted for a source: its own when it can be fetched, else the fill-in document. */
  function DocumentOf(w: World, fill: Resolved, s: Source): Resolved {
    var fetched := w.fetch(s.indexUrl);
    if fetched.Some? then Resolved(fetched.value, true, Some(s.indexUrl)) else fill
  }

  function SourceOffers(w: World, fill: Resolved, configured: seq<Source>): seq<Listing> {
    if configured == [] then []
    else
      var s := configured[0];
      Offers(DocumentOf(w, fill, s).index.packages, s.id, s.name) + SourceOffers(w, fill, configured[1..])
  }

  function SourceMetas(w: World, fill: Resolved, configured: seq<Source>): seq<Meta> {
    if configured == [] then []
    else
      var s := configured[0];
      [Meta(s.id, s.name, Some(s.indexUrl), DocumentOf(w, fill, s).remote, s.priority)] +
          SourceMetas(w, fill, configured[1..])
  }

  function NameOr(index: Index, default: string): string {
    if index.name.Some? then index.name.value else default
  }

  function FillOffers(fill: Resolved): seq<Listing> {
    Offers(fill.index.packages, "bundled", NameOr(fill.index, "Bundled"))
  }

  function DefaultOffers(d: Resolved): seq<Listing> {
    Offers(d.index.packages, "default", NameOr(d.index, STORE_NAME))
  }

  function FirstUrl(metas: seq<Meta>): Option<string> {
    if metas == [] then None
    else if metas[0].indexUrl.Some? && metas[0].indexUrl.value != "" then metas[0].indexUrl
    else FirstUrl(metas[1..])
  }

  predicate AnyRemote(metas: seq<Meta>) {
    exists m :: m in metas && m.remote
  }

  function Package(metas: seq<Meta>, packages: seq<Listing>): Merged {
    Merged(AnyRemote(metas), FirstUrl(metas), metas, packages)
  }

  /** The merge over the enabled sources in priority order; `None` stands for an exception. */
  function MergedIndex(w: World, configured: seq<Source>, storeIndexUrl: string): Option<Merged> {
    var fill := Resolve(w, "");
    var default := Resolve(w, storeIndexUrl);
    if fill.None? || (configured == [] && default.None?) then None
    else if configured != [] then
      Some(Package(SourceMetas(w, fill.value, configured),
                   AddNew(AddNew([], SourceOffers(w, fill.value, configured)), FillOffers(fill.value))))
    else
      var d := default.value;
      Some(Package([Meta("default", NameOr(d.index, STORE_NAME), d.url, d.remote, 0)],
                   AddNew(PutAll([], DefaultOffers(d)), FillOffers(fill.value))))
  }

  // -- The loops over an insertion-ordered dictionary ---------------------------------------

  /** Python's `dict`: keys in the order of first insertion. */
  datatype Dict = Dict(order: seq<string>, entries: map<string, Listing>) {
    ghost predicate Valid() {
      && (forall k :: k in order <==> k in entries)
      && (forall k :: k in entries ==> entries[k].entry.id == k)
      && forall i, j :: 0 <= i < j < |order| ==> order[i] != order[j]
    }

    function Values(): seq<Listing>
      requires Valid()
    {
      seq(|order|, i requires 0 <= i < |order| => entries[order[i]])
    }

    function Set(k: string, x: Listing): Dict {
      Dict(if k in entries then order else order + [k], entries[k := x])
    }
  }

  lemma {:induction false} FindAt(listings: seq<Listing>, i: nat)
    requires i < |listings| && DistinctIds(listings)
    ensures Find(listings, listings[i].entry.id) == Some(listings[i])
  {
    if i > 0 {
      FindAt(listings[1..], i - 1);
    }
  }

  lemma {:induction false} FindMember(listings: seq<Listing>, id: string)
    ensures Find(listings, id).Some? <==> exists i :: 0 <= i < |listings| && listings[i].entry.id == id
    ensures Find(listings, id).Some? ==> Find(listings, id).value in listings && Find(listings, id).value.entry.id == id
  {
    if listings == [] {
    } else {
      FindMember(listings[1..], id);
      assert listings == [listings[0]] + listings[1..];
    }
  }

  lemma DictFind(d: Dict, id: string)
    requires d.Valid()
    ensures DistinctIds(d.Values())
    ensures Find(d.Values(), id) == if id in d.entries then Some(d.entries[id]) else None
  {
    FindMember(d.Values(), id);
    assert forall i :: 0 <= i < |d.order| ==> d.order[i] in d.entries && d.Values()[i].entry.id == d.order[i];
    if id in d.entries {
      var i :| 0 <= i < |d.order| && d.order[i] == id;
      FindAt(d.Values(), i);
    }
  }

  lemma {:induction false} PutAt(listings: seq<Listing>, i: nat, x: Listing)
    requires i < |listings| && DistinctIds(listings) && listings[i].entry.id == x.entry.id
    ensures Put(listings, x) == listings[i := x]
  {
    if i > 0 {
      assert listings[0].entry.id != listings[i].entry.id;
      PutAt(listings[1..], i - 1, x);
    }
  }

  lemma {:induction false} PutNew(listings: seq<Listing>, x: Listing)
    requires Find(listings, x.entry.id) == None
    ensures Put(listings, x) == listings + [x]
  {
    if listings == [] {
    } else {
      PutNew(listings[1..], x);
    }
  }

  lemma DictReplace(d: Dict, i: nat, x: Listing)
    requires d.Valid() && i < |d.order| && d.order[i] == x.entry.id
    ensures d.Set(x.entry.id, x).Valid() && d.Set(x.entry.id, x).Values() == d.Values()[i := x]
  {
    assert d.order[i] in d.entries;
    assert forall j :: 0 <= j < |d.order| && j != i ==> d.order[j] != d.order[i];
  }

  lemma DictAppend(d: Dict, x: Listing)
    requires d.Valid() && x.entry.id !in d.entries
    ensures d.Set(x.entry.id, x).Valid() && d.Set(x.entry.id, x).Values() == d.Values() + [x]
  {
    assert forall j :: 0 <= j < |d.order| ==> d.order[j] in d.order;
  }

  lemma DictSet(d: Dict, x: Listing)
    requires d.Valid()
    ensures d.Set(x.entry.id, x).Valid() && d.Set(x.entry.id, x).Values() == Put(d.Values(), x)
  {
    var k := x.entry.id;
    DictFind(d, k);
    if k in d.entries {
      var i :| 0 <= i < |d.order| && d.order[i] == k;
      assert d.Values()[i].entry.id == k;
      DictReplace(d, i, x);
      PutAt(d.Values(), i, x);
    } else {
      DictAppend(d, x);
      PutNew(d.Values(), x);
    }
  }

  /** `for entry in packages`, keeping what is already under an id. */
  method TakeNew(d: Dict, items: seq<Item>, storeId: string, storeName: string) returns (d': Dict)
    requires d.Valid()
    ensures d'.Valid() && d'.Values() == AddNew(d.Values(), Offers(items, storeId, storeName))
  {
    d' := d;
    for i := 0 to |items|
      invariant d'.Valid()
      invariant AddNew(d.Values(), Offers(items, storeId, storeName)) ==
                AddNew(d'.Values(), Offers(items[i..], storeId, storeName))
    {
      if items[i].Object? {
        var id := items[i].entry.id;
        DictFind(d', id);
        if id != "" && id !in d'.entries {
          var x := Listing(items[i].entry, storeId, storeName);
          DictSet(d', x);
          PutNew(d'.Values(), x);
          d' := d'.Set(id, x);
        }
      }
    }
  }

  /** `for entry in packages`, overwriting what is already under an id. */
  method TakeAll(d: Dict, items: seq<Item>, storeId: string, storeName: string) returns (d': Dict)
    requires d.Valid()
    ensures d'.Valid() && d'.Values() == PutAll(d.Values(), Offers(items, storeId, storeName))
  {
    d' := d;
    for i := 0 to |items|
      invariant d'.Valid()
      invariant PutAll(d.Values(), Offers(items, storeId, storeName)) ==
                PutAll(d'.Values(), Offers(items[i..], storeId, storeName))
    {
      if items[i].Object? && items[i].entry.id != "" {
        var x := Listing(items[i].entry, storeId, storeName);
        DictSet(d', x);
        d' := d'.Set(x.entry.id, x);
      }
    }
  }

  lemma {:induction false} AddNewAppend(listings: seq<Listing>, a: seq<Listing>, b: seq<Listing>)
    ensures AddNew(listings, a + b) == AddNew(AddNew(listings, a), b)
    decreases |a|
  {
    if a == [] {
      assert a + b == b;
    } else {
      assert (a + b)[1..] == a[1..] + b;
      AddNewAppend(if Find(listings, a[0].entry.id).Some? then listings else listings + [a[0]], a[1..], b);
    }
  }

  /** Fetching the document of one source, with the fill-in document to fall back on; `None` when that raises. */
  method FetchDocument(w: World, s: Source) returns (r: Option<Resolved>)
    ensures Resolve(w, "").Some? ==> r == Some(DocumentOf(w, Resolve(w, "").value, s))
  {
    var fetched := w.fetch(s.indexUrl);
    if fetched.Some? {
      return Some(Resolved(fetched.value, true, Some(s.indexUrl)));
    }
    r := Resolve(w, "");
  }

  /** The loop over the configured sources, in priority order. */
  method TakeSources(w: World, configured: seq<Source>) returns (metas: seq<Meta>, d: Option<Dict>)
    ensures d.Some? ==> d.value.Valid()
    ensures Resolve(w, "").Some? ==>
              var fill := Resolve(w, "").value;
              && d.Some? && metas == SourceMetas(w, fill, configured)
              && d.value.Values() == AddNew([], SourceOffers(w, fill, configured))
  {
    var byId := Dict([], map[]);
    metas := [];
    ghost var fill := Resolve(w, "");
    assert byId.Values() == [];
    for i := 0 to |configured|
      invariant byId.Valid()
      invariant fill.Some? ==>
                SourceMetas(w, fill.value, configured) == metas + SourceMetas(w, fill.value, configured[i..])
      invariant fill.Some? ==>
                  AddNew([], SourceOffers(w, fill.value, configured)) ==
                  AddNew(byId.Values(), SourceOffers(w, fill.value, configured[i..]))
    {
      var s := configured[i];
      var document := FetchDocument(w, s);
      if document.None? {
        return metas, None;
      }
      var items := document.value.index.packages;
      metas := metas + [Meta(s.id, s.name, Some(s.indexUrl), document.value.remote, s.priority)];
      ghost var before := byId.Values();
      byId := TakeNew(byId, items, s.id, s.name);
      if fill.Some? {
        assert configured[i..][1..] == configured[i + 1..];
        AddNewAppend(before, Offers(items, s.id, s.name), SourceOffers(w, fill.value, configured[i + 1..]));
      }
    }
    d := Some(byId);
  }

  /** `merge_store_indexes` over the sources on disk. */
  method MergeStoreIndexes(file: SourceFile, w: World, storeIndexUrl: string) returns (m: Option<Merged>)
    modifies file
    ensures file.Current() == old(file.Current())
    ensures m == MergedIndex(w, ByPriority(Enabled(file.Current())), storeIndexUrl)
  {
    var configured := file.EnabledSourcesSorted();
    var metas: seq<Meta>;
    var byId := Dict([], map[]);
    if configured != [] {
      var d;
      metas, d := TakeSources(w, configured);
      if d.None? {
        return None;
      }
      byId := d.value;
    } else {
      var d := Resolve(w, storeIndexUrl);
      if d.None? {
        return None;
      }
      var name := NameOr(d.value.index, STORE_NAME);
      metas := [Meta("default", name, d.value.url, d.value.remote, 0)];
      assert byId.Values() == [];
      byId := TakeAll(byId, d.value.index.packages, "default", name);
    }
    var fill := Resolve(w, "");
    if fill.None? {
      return None;
    }
    byId := TakeNew(byId, fill.value.index.packages, "bundled", NameOr(fill.value.index, "Bundled"));
    m := Some(Package(metas, byId.Values()));
  }

  // -- What the merge means -----------------------------------------------------------------

  /** The first entry of a document with the given id. */
  function FirstEntry(items: seq<Item>, id: string): Option<Entry> {
    if items == [] then None
    else if items[0].Object? && items[0].entry.id == id then Some(items[0].entry)
    else FirstEntry(items[1..], id)
  }

  predicate Carries(item: Item, id: string) {
    item.Object? && item.entry.id == id
  }

  /** The first entry is the one that no entry of the id comes before. */
  lemma {:induction false} FirstEntryExactly(items: seq<Item>, id: string)
    ensures forall k :: 0 <= k < |items| && Carries(items[k], id)
                          && (forall j :: 0 <= j < k ==> !Carries(items[j], id)) ==>
              FirstEntry(items, id) == Some(items[k].entry)
    ensures FirstEntry(items, id).None? <==> forall k :: 0 <= k < |items| ==> !Carries(items[k], id)
  {
    if items == [] {
    } else {
      var rest := items[1..];
      FirstEntryExactly(rest, id);
      assert forall k :: 0 <= k < |rest| ==> rest[k] == items[k + 1];
      assert forall k :: 0 < k < |items| ==> items[k] == rest[k - 1];
    }
  }

  /**
    What a source offers for an id: the first entry of the index that its URL answers with, or of the
    fill-in document when it does not answer.
   */
  function OfferedBy(w: World, fill: Resolved, s: Source, id: string): Option<Entry> {
    match w.fetch(s.indexUrl)
    case Some(index) => FirstEntry(index.packages, id)
    case None => FirstEntry(fill.index.packages, id)
  }

  lemma DocumentOffers(w: World, fill: Resolved, s: Source, id: string)
    ensures FirstEntry(DocumentOf(w, fill, s).index.packages, id) == OfferedBy(w, fill, s, id)
  {
  }

  /** What the configured sources offer for an id: the first entry in the first source that lists it. */
  function FirstOffer(w: World, fill: Resolved, configured: seq<Source>, id: string): Option<Listing> {
    if configured == [] then None
    else
      var s := configured[0];
      var e := OfferedBy(w, fill, s, id);
      if e.Some? then Some(Listing(e.value, s.id, s.name)) else FirstOffer(w, fill, configured[1..], id)
  }

  lemma {:induction false} FindOffers(items: seq<Item>, storeId: string, storeName: string, id: string)
    requires id != ""
    ensures var e := FirstEntry(items, id);
            Find(Offers(items, storeId, storeName), id) ==
            if e.Some? then Some(Listing(e.value, storeId, storeName)) else None
  {
    if items == [] {
    } else {
      FindOffers(items[1..], storeId, storeName, id);
    }
  }

  lemma {:induction false} FindAppend(a: seq<Listing>, b: seq<Listing>, id: string)
    ensures Find(a + b, id) == if Find(a, id).Some? then Find(a, id) else Find(b, id)
  {
    if a == [] {
      assert a + b == b;
    } else {
      assert (a + b)[1..] == a[1..] + b;
      FindAppend(a[1..], b, id);
    }
  }

  lemma {:induction false} FindSourceOffers(w: World, fill: Resolved, configured: seq<Source>, id: string)
    requires id != ""
    ensures Find(SourceOffers(w, fill, configured), id) == FirstOffer(w, fill, configured, id)
  {
    if configured == [] {
    } else {
      var s := configured[0];
      var items := DocumentOf(w, fill, s).index.packages;
      DocumentOffers(w, fill, s, id);
      FindOffers(items, s.id, s.name, id);
      FindAppend(Offers(items, s.id, s.name), SourceOffers(w, fill, configured[1..]), id);
      FindSourceOffers(w, fill, configured[1..], id);
    }
  }

  lemma {:induction false} FindAddNew(listings: seq<Listing>, offers: seq<Listing>, id: string)
    ensures Find(AddNew(listings, offers), id) ==
            if Find(listings, id).Some? then Find(listings, id) else Find(offers, id)
    decreases |offers|
  {
    if offers == [] {
    } else {
      var x := offers[0];
      FindAppend(listings, [x], id);
      FindAddNew(if Find(listings, x.entry.id).Some? then listings else listings + [x], offers[1..], id);
    }
  }

  lemma {:induction false} AddNewDistinct(listings: seq<Listing>, offers: seq<Listing>)
    requires DistinctIds(listings)
    ensures DistinctIds(AddNew(listings, offers))
    decreases |offers|
  {
    if offers == [] {
    } else {
      FindMember(listings, offers[0].entry.id);
      var next := if Find(listings, offers[0].entry.id).Some? then listings else listings + [offers[0]];
      AddNewDistinct(next, offers[1..]);
    }
  }

  /** Looking up an id in the merged list: the configured sources decide, then the fill-in document. */
  lemma FindMerged(w: World, configured: seq<Source>, storeIndexUrl: string, id: string)
    requires configured != [] && id != "" && Resolve(w, "").Some?
    ensures var fill := Resolve(w, "").value;
            var m := MergedIndex(w, configured, storeIndexUrl);
            && m.Some?
            && Find(m.value.packages, id) ==
               if FirstOffer(w, fill, configured, id).Some? then FirstOffer(w, fill, configured, id)
               else Find(FillOffers(fill), id)
  {
    var fill := Resolve(w, "").value;
    FindAddNew([], SourceOffers(w, fill, configured), id);
    FindAddNew(AddNew([], SourceOffers(w, fill, configured)), FillOffers(fill), id);
    FindSourceOffers(w, fill, configured, id);
  }

  /** Source `i` wins an id: it offers the id and no source before it does. */
  predicate Wins(w: World, fill: Resolved, configured: seq<Source>, id: string, i: nat) {
    && i < |configured|
    && OfferedBy(w, fill, configured[i], id).Some?
    && forall j :: 0 <= j < i ==> OfferedBy(w, fill, configured[j], id).None?
  }

  lemma {:induction false} WinnerOffers(w: World, fill: Resolved, configured: seq<Source>, id: string, i: nat)
    requires Wins(w, fill, configured, id, i)
    ensures var e := OfferedBy(w, fill, configured[i], id).value;
            FirstOffer(w, fill, configured, id) == Some(Listing(e, configured[i].id, configured[i].name))
  {
    if i > 0 {
      assert OfferedBy(w, fill, configured[0], id).None?;
      WinnerOffers(w, fill, configured[1..], id, i - 1);
    }
  }

  lemma {:induction false} NoWinnerNoOffer(w: World, fill: Resolved, configured: seq<Source>, id: string)
    requires forall i :: 0 <= i < |configured| ==>
             OfferedBy(w, fill, configured[i], id).None?
    ensures FirstOffer(w, fill, configured, id).None?
  {
    if configured == [] {
    } else {
      NoWinnerNoOffer(w, fill, configured[1..], id);
    }
  }

  /** Where the fill-in document comes from: the URL in the environment if it answers, else the file shipped. */
  lemma ResolveExactly(w: World, storeIndexUrl: string)
    ensures var url, r := Strip(if storeIndexUrl != "" then storeIndexUrl else w.envUrl), Resolve(w, storeIndexUrl);
            && (forall index :: url != "" && w.fetch(url) == Some(index) ==>
                  r.Some? && r.value.index == index && r.value.remote && r.value.url == Some(url))
            && (url == "" || w.fetch(url).None? ==>
                  && (r.None? <==> w.bundled.Unreadable?)
                  && (r.Some? ==> !r.value.remote && r.value.url == None)
                  && (w.bundled.Readable? ==> r.value.index == w.bundled.index)
                  && (w.bundled.Missing? ==> r.value.index.packages == []))
  {
  }

  /**
    With at least one enabled source, whatever the fetches do: each id carries the first entry of
    the first source that lists it, labelled with that source, where a source lists what its URL
    answers with, and the fill-in document when it does not answer; ids no source lists carry the
    first fill-in entry; other ids are absent; and no id is repeated.
   */
  lemma MergeRefinement(w: World, configured: seq<Source>, storeIndexUrl: string, id: string)
    requires configured != [] && id != "" && Resolve(w, "").Some?
    ensures var fill := Resolve(w, "").value;
            var packages := MergedIndex(w, configured, storeIndexUrl).value.packages;
            && DistinctIds(packages)
            && (forall i: nat, index ::
                  Wins(w, fill, configured, id, i) && w.fetch(configured[i].indexUrl) == Some(index) ==>
                  && FirstEntry(index.packages, id).Some?
                  && Find(packages, id) ==
                     Some(Listing(FirstEntry(index.packages, id).value, configured[i].id, configured[i].name)))
            && (forall i: nat :: Wins(w, fill, configured, id, i) && w.fetch(configured[i].indexUrl) == None ==>
                  && FirstEntry(fill.index.packages, id).Some?
                  && Find(packages, id) ==
                     Some(Listing(FirstEntry(fill.index.packages, id).value, configured[i].id, configured[i].name)))
            && ((forall i :: 0 <= i < |configured| ==> OfferedBy(w, fill, configured[i], id).None?) ==>
                  var e := FirstEntry(fill.index.packages, id);
                  Find(packages, id) ==
                  if e.Some? then Some(Listing(e.value, "bundled", NameOr(fill.index, "Bundled"))) else None)
  {
    var fill := Resolve(w, "").value;
    FindMerged(w, configured, storeIndexUrl, id);
    forall i: nat | Wins(w, fill, configured, id, i)
      ensures var e := OfferedBy(w, fill, configured[i], id).value;
              FirstOffer(w, fill, configured, id) == Some(Listing(e, configured[i].id, configured[i].name))
    {
      WinnerOffers(w, fill, configured, id, i);
    }
    if forall i :: 0 <= i < |configured| ==> OfferedBy(w, fill, configured[i], id).None? {
      NoWinnerNoOffer(w, fill, configured, id);
      FindOffers(fill.index.packages, "bundled", NameOr(fill.index, "Bundled"), id);
    }
    AddNewDistinct([], SourceOffers(w, fill, configured));
    AddNewDistinct(AddNew([], SourceOffers(w, fill, configured)), FillOffers(fill));
  }

  /** Metadata of the sources in their order, each marked remote exactly when its document came over the network. */
  predicate Aligned(w: World, fill: Resolved, configured: seq<Source>, metas: seq<Meta>) {
    && |metas| == |configured|
    && forall i :: 0 <= i < |metas| ==>
         && metas[i].id == configured[i].id && metas[i].name == configured[i].name
         && metas[i].indexUrl == Some(configured[i].indexUrl) && metas[i].priority == configured[i].priority
         && (metas[i].remote <==> w.fetch(configured[i].indexUrl).Some? || fill.remote)
  }

  lemma {:induction false} MetasAlign(w: World, fill: Resolved, configured: seq<Source>)
    ensures Aligned(w, fill, configured, SourceMetas(w, fill, configured))
  {
    if configured == [] {
    } else {
      MetasAlign(w, fill, configured[1..]);
    }
  }

  lemma {:induction false} FirstUrlExactly(metas: seq<Meta>, i: nat)
    requires i < |metas| && metas[i].indexUrl.Some? && metas[i].indexUrl.value != ""
    requires forall j :: 0 <= j < i ==> metas[j].indexUrl.None? || metas[j].indexUrl.value == ""
    ensures FirstUrl(metas) == metas[i].indexUrl
  {
    if i == 0 {
    } else {
      FirstUrlExactly(metas[1..], i - 1);
    }
  }

  lemma AlignedRemote(w: World, fill: Resolved, configured: seq<Source>, metas: seq<Meta>)
    requires Aligned(w, fill, configured, metas)
    ensures AnyRemote(metas) <==>
            exists i :: 0 <= i < |configured| && (w.fetch(configured[i].indexUrl).Some? || fill.remote)
  {
    if AnyRemote(metas) {
      var m :| m in metas && m.remote;
      var i :| 0 <= i < |metas| && metas[i] == m;
      assert w.fetch(configured[i].indexUrl).Some? || fill.remote;
    } else {
      forall i | 0 <= i < |configured| ensures w.fetch(configured[i].indexUrl).None? && !fill.remote {
        assert metas[i] in metas && !metas[i].remote;
      }
    }
  }

  /**
    The sources reported are the enabled ones in priority order, each marked remote exactly when its
    document came over the network; the index as a whole is remote when one of them is, and carries
    the first URL there is.
   */
  lemma MetasFollowSources(w: World, configured: seq<Source>, storeIndexUrl: string)
    requires configured != [] && Resolve(w, "").Some?
    ensures var fill, m := Resolve(w, "").value, MergedIndex(w, configured, storeIndexUrl).value;
            && Aligned(w, fill, configured, m.sources)
            && (m.remote <==>
                exists i :: 0 <= i < |configured| && (w.fetch(configured[i].indexUrl).Some? || fill.remote))
            && forall i :: 0 <= i < |configured| && configured[i].indexUrl != ""
                             && (forall j :: 0 <= j < i ==> configured[j].indexUrl == "") ==>
                 m.indexUrl == Some(configured[i].indexUrl)
  {
    var fill := Resolve(w, "").value;
    var metas := SourceMetas(w, fill, configured);
    MetasAlign(w, fill, configured);
    AlignedRemote(w, fill, configured, metas);
    forall i | 0 <= i < |configured| && configured[i].indexUrl != ""
               && (forall j :: 0 <= j < i ==> configured[j].indexUrl == "")
      ensures FirstUrl(metas) == Some(configured[i].indexUrl)
    {
      FirstUrlExactly(metas, i);
    }
  }

  // -- Without enabled sources --------------------------------------------------------------

  function LastEntry(items: seq<Item>, id: string): Option<Entry> {
    if items == [] then None
    else
      var later := LastEntry(items[1..], id);
      if later.Some? then later
      else if items[0].Object? && items[0].entry.id == id then Some(items[0].entry)
      else None
  }

  function Ids(listings: seq<Listing>): seq<string> {
    if listings == [] then [] else [listings[0].entry.id] + Ids(listings[1..])
  }

  lemma {:induction false} SameIdsFind(a: seq<Listing>, b: seq<Listing>, id: string)
    requires Ids(a) == Ids(b)
    ensures Find(a, id).Some? <==> Find(b, id).Some?
  {
    if a != [] && b != [] {
      assert Ids(a)[1..] == Ids(a[1..]) && Ids(b)[1..] == Ids(b[1..]);
      assert Ids(a)[0] == Ids(b)[0];
      SameIdsFind(a[1..], b[1..], id);
    }
  }

  lemma {:induction false} PutFind(listings: seq<Listing>, x: Listing, id: string)
    ensures Find(Put(listings, x), id) == if x.entry.id == id then Some(x) else Find(listings, id)
  {
    if listings != [] && listings[0].entry.id != x.entry.id {
      PutFind(listings[1..], x, id);
    }
  }

  lemma {:induction false} PutIds(listings: seq<Listing>, x: Listing)
    ensures Ids(Put(listings, x)) == Ids(listings) + if Find(listings, x.entry.id).Some? then [] else [x.entry.id]
  {
    if listings == [] {
    } else if listings[0].entry.id == x.entry.id {
      assert ([x] + listings[1..])[1..] == listings[1..];
    } else {
      PutIds(listings[1..], x);
      var rest := Put(listings[1..], x);
      assert ([listings[0]] + rest)[1..] == rest;
    }
  }

  lemma {:induction false} PutAllFind(listings: seq<Listing>, items: seq<Item>, storeId: string, storeName: string,
                                      id: string)
    requires id != ""
    ensures var e := LastEntry(items, id);
            Find(PutAll(listings, Offers(items, storeId, storeName)), id) ==
            if e.Some? then Some(Listing(e.value, storeId, storeName)) else Find(listings, id)
    decreases |items|
  {
    if items == [] {
    } else {
      if items[0].Object? && items[0].entry.id != "" {
        var x := Listing(items[0].entry, storeId, storeName);
        var rest := Offers(items[1..], storeId, storeName);
        assert ([x] + rest)[1..] == rest;
        PutFind(listings, x, id);
        PutAllFind(Put(listings, x), items[1..], storeId, storeName, id);
      } else {
        PutAllFind(listings, items[1..], storeId, storeName, id);
      }
    }
  }

  lemma {:induction false} IdsAppend(a: seq<Listing>, x: Listing)
    ensures Ids(a + [x]) == Ids(a) + [x.entry.id]
  {
    if a == [] {
    } else {
      assert (a + [x])[1..] == a[1..] + [x];
      IdsAppend(a[1..], x);
    }
  }

  lemma {:induction false} SameIdsAfter(a: seq<Listing>, b: seq<Listing>, offers: seq<Listing>)
    requires Ids(a) == Ids(b)
    ensures Ids(PutAll(a, offers)) == Ids(AddNew(b, offers)) == Ids(AddNew(a, offers))
    decreases |offers|
  {
    if offers == [] {
    } else {
      var x := offers[0];
      SameIdsFind(a, b, x.entry.id);
      PutIds(a, x);
      IdsAppend(a, x);
      IdsAppend(b, x);
      var b' := if Find(b, x.entry.id).Some? then b else b + [x];
      var a' := if Find(a, x.entry.id).Some? then a else a + [x];
      assert Ids(Put(a, x)) == Ids(b') == Ids(a');
      SameIdsAfter(Put(a, x), b', offers[1..]);
      SameIdsAfter(a', b', offers[1..]);
    }
  }

  /** The ids that did not occur before, in order. */
  function Firsts(ids: seq<string>): seq<string> {
    if ids == [] then []
    else
      var before, last := ids[..|ids| - 1], ids[|ids| - 1];
      if last in before then Firsts(before) else Firsts(before) + [last]
  }

  lemma {:induction false} FindIds(listings: seq<Listing>, id: string)
    ensures Find(listings, id).Some? <==> id in Ids(listings)
  {
    if listings == [] {
    } else {
      FindIds(listings[1..], id);
    }
  }

  lemma {:induction false} AddNewIds(offers: seq<Listing>)
    ensures Ids(AddNew([], offers)) == Firsts(Ids(offers))
  {
    if offers == [] {
    } else {
      var before, x := offers[..|offers| - 1], offers[|offers| - 1];
      assert offers == before + [x];
      AddNewIds(before);
      AddNewAppend([], before, [x]);
      IdsAppend(before, x);
      assert Ids(offers)[..|Ids(offers)| - 1] == Ids(before);
      FindAddNew([], before, x.entry.id);
      FindIds(before, x.entry.id);
      IdsAppend(AddNew([], before), x);
      assert [x][1..] == [];
    }
  }

  lemma {:induction false} AddNewMembers(listings: seq<Listing>, offers: seq<Listing>, x: Listing)
    requires x in AddNew(listings, offers)
    ensures x in listings || x in offers
    decreases |offers|
  {
    if offers == [] {
    } else {
      var y := offers[0];
      AddNewMembers(if Find(listings, y.entry.id).Some? then listings else listings + [y], offers[1..], x);
    }
  }

  lemma {:induction false} PutMembers(listings: seq<Listing>, y: Listing, x: Listing)
    requires x in Put(listings, y)
    ensures x in listings || x == y
  {
    if listings == [] || listings[0].entry.id == y.entry.id {
    } else if x != listings[0] {
      PutMembers(listings[1..], y, x);
    }
  }

  lemma {:induction false} PutAllMembers(listings: seq<Listing>, offers: seq<Listing>, x: Listing)
    requires x in PutAll(listings, offers)
    ensures x in listings || x in offers
    decreases |offers|
  {
    if offers == [] {
    } else {
      PutAllMembers(Put(listings, offers[0]), offers[1..], x);
      if x in Put(listings, offers[0]) {
        PutMembers(listings, offers[0], x);
      }
    }
  }

  lemma {:induction false} OffersHaveIds(items: seq<Item>, storeId: string, storeName: string)
    ensures forall x :: x in Offers(items, storeId, storeName) ==> x.entry.id != ""
  {
    if items == [] {
    } else {
      OffersHaveIds(items[1..], storeId, storeName);
    }
  }

  lemma {:induction false} SourceOffersHaveIds(w: World, fill: Resolved, configured: seq<Source>)
    ensures forall x :: x in SourceOffers(w, fill, configured) ==> x.entry.id != ""
  {
    if configured == [] {
    } else {
      var s := configured[0];
      OffersHaveIds(DocumentOf(w, fill, s).index.packages, s.id, s.name);
      SourceOffersHaveIds(w, fill, configured[1..]);
    }
  }

  /** All usable entries of the documents a merge consults, in the order it takes them. */
  function Consulted(w: World, configured: seq<Source>, storeIndexUrl: string): seq<Listing>
    requires MergedIndex(w, configured, storeIndexUrl).Some?
  {
    var fill := Resolve(w, "").value;
    (if configured != [] then SourceOffers(w, fill, configured) else DefaultOffers(Resolve(w, storeIndexUrl).value))
    + FillOffers(fill)
  }

  /**
    The merged list shows the ids in the order of their first occurrence over all documents consulted,
    and no empty id.
   */
  lemma MergeOrder(w: World, configured: seq<Source>, storeIndexUrl: string)
    requires MergedIndex(w, configured, storeIndexUrl).Some?
    ensures var packages := MergedIndex(w, configured, storeIndexUrl).value.packages;
            && Ids(packages) == Firsts(Ids(Consulted(w, configured, storeIndexUrl)))
            && forall x :: x in packages ==> x.entry.id != ""
  {
    var fill := Resolve(w, "").value;
    var packages := MergedIndex(w, configured, storeIndexUrl).value.packages;
    var own := if configured != [] then [] else DefaultOffers(Resolve(w, storeIndexUrl).value);
    var offers := if configured != [] then SourceOffers(w, fill, configured) else own;
    var base := if configured != [] then AddNew([], offers) else PutAll([], offers);
    AddNewAppend([], offers, FillOffers(fill));
    AddNewIds(offers + FillOffers(fill));
    SameIdsAfter([], [], offers);
    SameIdsAfter(base, AddNew([], offers), FillOffers(fill));
    SourceOffersHaveIds(w, fill, configured);
    OffersHaveIds(fill.index.packages, "bundled", NameOr(fill.index, "Bundled"));
    if configured == [] {
      var d := Resolve(w, storeIndexUrl).value;
      OffersHaveIds(d.index.packages, "default", NameOr(d.index, STORE_NAME));
    }
    forall x | x in packages ensures x.entry.id != "" {
      AddNewMembers(base, FillOffers(fill), x);
      if x in base && configured != [] {
        AddNewMembers([], offers, x);
      }
      if x in base && configured == [] {
        PutAllMembers([], offers, x);
      }
    }
  }

  /** The last entry is the one that no entry of the id comes behind. */
  lemma {:induction false} LastEntryExactly(items: seq<Item>, id: string)
    ensures forall k :: 0 <= k < |items| && Carries(items[k], id)
                          && (forall j :: k < j < |items| ==> !Carries(items[j], id)) ==>
              LastEntry(items, id) == Some(items[k].entry)
    ensures LastEntry(items, id).None? <==> forall k :: 0 <= k < |items| ==> !Carries(items[k], id)
  {
    if items == [] {
    } else {
      var rest := items[1..];
      LastEntryExactly(rest, id);
      assert forall k :: 0 <= k < |rest| ==> rest[k] == items[k + 1];
      assert forall k :: 0 < k < |items| ==> items[k] == rest[k - 1];
    }
  }

  /**
    With no enabled source, the last entry of the default document that carries an id supplies its
    fields, while ids keep the places of their first entries; the fill-in document adds ids behind them.
   */
  lemma NoSourcesLastWins(w: World, storeIndexUrl: string, id: string)
    requires Resolve(w, "").Some? && Resolve(w, storeIndexUrl).Some? && id != ""
    ensures var d, fill := Resolve(w, storeIndexUrl).value, Resolve(w, "").value;
            var packages := MergedIndex(w, [], storeIndexUrl).value.packages;
            var e := LastEntry(d.index.packages, id);
            && Find(packages, id) ==
               (if e.Some? then Some(Listing(e.value, "default", NameOr(d.index, STORE_NAME)))
                else Find(FillOffers(fill), id))
            && Ids(packages) == Firsts(Ids(DefaultOffers(d) + FillOffers(fill)))
  {
    var d, fill := Resolve(w, storeIndexUrl).value, Resolve(w, "").value;
    PutAllFind([], d.index.packages, "default", NameOr(d.index, STORE_NAME), id);
    FindAddNew(PutAll([], DefaultOffers(d)), FillOffers(fill), id);
    MergeOrder(w, [], storeIndexUrl);
  }

  /** Without enabled sources the default document is reported as the one source, with its URL if it has one. */
  lemma NoSourcesHeader(w: World, storeIndexUrl: string)
    requires Resolve(w, "").Some? && Resolve(w, storeIndexUrl).Some?
    ensures var d, m := Resolve(w, storeIndexUrl).value, MergedIndex(w, [], storeIndexUrl).value;
            var name := if d.index.name.Some? then d.index.name.value else "Axionet App Store";
            && m.sources == [Meta("default", name, d.url, d.remote, 0)]
            && (m.remote <==> d.remote) && m.indexUrl == d.url
  {
    var d := Resolve(w, storeIndexUrl).value;
    var meta := Meta("default", NameOr(d.index, STORE_NAME), d.url, d.remote, 0);
    assert meta in [meta] && [meta][1..] == [];
    assert FirstUrl([meta]) == d.url;
    assert AnyRemote([meta]) <==> meta.remote;
  }

  // -- Locality -----------------------------------------------------------------------------

  /** Deleting sources that did not win an id leaves the offer for it alone. */
  lemma {:induction false} OfferWithout(w: World, fill: Resolved, configured: seq<Source>, deleted: string, id: string)
    requires var o := FirstOffer(w, fill, configured, id);
             o.Some? ==> o.value.storeId != deleted
    ensures FirstOffer(w, fill, Others(configured, deleted), id) == FirstOffer(w, fill, configured, id)
  {
    if configured == [] {
    } else {
      var listed := OfferedBy(w, fill, configured[0], id).Some?;
      if !listed {
        OfferWithout(w, fill, configured[1..], deleted, id);
      }
    }
  }

  lemma {:induction false} OfferBehindDeleted(w: World, fill: Resolved, configured: seq<Source>, deleted: string,
                                              id: string, i: nat)
    requires Wins(w, fill, configured, id, i) && configured[i].id == deleted
    ensures FirstOffer(w, fill, Others(configured, deleted), id) ==
            FirstOffer(w, fill, Others(configured[i + 1..], deleted), id)
  {
    if i == 0 {
    } else {
      assert OfferedBy(w, fill, configured[0], id).None?;
      assert configured[1..][i..] == configured[i + 1..];
      OfferBehindDeleted(w, fill, configured[1..], deleted, id, i - 1);
    }
  }

  /**
    With the fetch outcomes fixed and an enabled source remaining, deleting a source changes the
    merged entry of an id only if that source had won it. Such an id goes to the next remaining source
    in priority order that lists it, else to the fill-in document, else it is gone.
   */
  lemma DeleteLocality(w: World, sources: seq<Source>, deleted: string, storeIndexUrl: string, id: string)
    requires Resolve(w, "").Some? && id != ""
    requires Enabled(Others(sources, deleted)) != []
    ensures var fill, configured := Resolve(w, "").value, ByPriority(Enabled(sources));
            var before := MergedIndex(w, configured, storeIndexUrl);
            var after := MergedIndex(w, ByPriority(Enabled(Others(sources, deleted))), storeIndexUrl);
            var o := FirstOffer(w, fill, configured, id);
            && before.Some? && after.Some?
            && (!(o.Some? && o.value.storeId == deleted) ==>
                  Find(after.value.packages, id) == Find(before.value.packages, id))
            && forall i: nat | Wins(w, fill, configured, id, i) && configured[i].id == deleted ::
                 var next := FirstOffer(w, fill, Others(configured[i + 1..], deleted), id);
                 Find(after.value.packages, id) == if next.Some? then next else Find(FillOffers(fill), id)
  {
    var fill, configured := Resolve(w, "").value, ByPriority(Enabled(sources));
    EnabledOthers(sources, deleted);
    ByPriorityOthers(Enabled(sources), deleted);
    PriorityOrder(Enabled(Others(sources, deleted)), 0);
    OthersLength(configured, deleted);
    var o := FirstOffer(w, fill, configured, id);
    if !(o.Some? && o.value.storeId == deleted) {
      OfferWithout(w, fill, configured, deleted, id);
    }
    forall i: nat | Wins(w, fill, configured, id, i) && configured[i].id == deleted
      ensures FirstOffer(w, fill, Others(configured, deleted), id) ==
              FirstOffer(w, fill, Others(configured[i + 1..], deleted), id)
    {
      OfferBehindDeleted(w, fill, configured, deleted, id, i);
    }
    FindMerged(w, configured, storeIndexUrl, id);
    FindMerged(w, Others(configured, deleted), storeIndexUrl, id);
  }

  lemma {:induction false} OfferAppend(w: World, fill: Resolved, a: seq<Source>, b: seq<Source>, id: string)
    ensures FirstOffer(w, fill, a + b, id) ==
            if FirstOffer(w, fill, a, id).Some? then FirstOffer(w, fill, a, id) else FirstOffer(w, fill, b, id)
  {
    if a == [] {
      assert a + b == b;
    } else {
      assert (a + b)[1..] == a[1..] + b;
      OfferAppend(w, fill, a[1..], b, id);
    }
  }

  /**
    Adding an enabled source beside others gives it exactly the ids that its document lists and no
    source of at least its priority supplies; every other id keeps its entry.
   */
  lemma AddLocality(w: World, sources: seq<Source>, s: Source, storeIndexUrl: string, id: string)
    requires Resolve(w, "").Some? && id != "" && s.enabled && Enabled(sources) != []
    ensures var fill, configured := Resolve(w, "").value, ByPriority(Enabled(sources));
            var before := MergedIndex(w, configured, storeIndexUrl);
            var after := MergedIndex(w, ByPriority(Enabled(sources + [s])), storeIndexUrl);
            var offer := FirstOffer(w, fill, [s], id);
            && before.Some? && after.Some?
            && Find(after.value.packages, id) ==
               if offer.Some? && FirstOffer(w, fill, Ahead(configured, s.priority), id).None? then offer
               else Find(before.value.packages, id)
  {
    var fill, configured := Resolve(w, "").value, ByPriority(Enabled(sources));
    EnabledAppend(sources, s);
    ByPriorityAppend(Enabled(sources), s);
    PriorityOrder(Enabled(sources), 0);
    InsertSplits(configured, s);
    var ahead := Ahead(configured, s.priority);
    var behind := configured[|ahead|..];
    assert configured == ahead + behind;
    OfferAppend(w, fill, ahead, behind, id);
    OfferAppend(w, fill, ahead + [s], behind, id);
    OfferAppend(w, fill, ahead, [s], id);
    FindMerged(w, configured, storeIndexUrl, id);
    FindMerged(w, ahead + [s] + behind, storeIndexUrl, id);
  }

  lemma {:induction false} SomeWinner(w: World, fill: Resolved, configured: seq<Source>, id: string) returns (i: nat)
    requires FirstOffer(w, fill, configured, id).Some?
    ensures Wins(w, fill, configured, id, i)
  {
    if OfferedBy(w, fill, configured[0], id).Some? {
      i := 0;
    } else {
      var rest := SomeWinner(w, fill, configured[1..], id);
      i := rest + 1;
    }
  }

  /**
    The store id of a merged entry tells fill-in entries from source entries, except exactly where a
    source that the operator called "bundled" wins the id.
   */
  lemma StoreIdTellsFillIn(w: World, configured: seq<Source>, storeIndexUrl: string, id: string)
    requires configured != [] && id != "" && Resolve(w, "").Some?
    ensures var fill := Resolve(w, "").value;
            var found := Find(MergedIndex(w, configured, storeIndexUrl).value.packages, id);
            found.Some? ==>
              ((found.value.storeId == "bundled" <==> FirstOffer(w, fill, configured, id).None?) <==>
               !exists i: nat :: Wins(w, fill, configured, id, i) && configured[i].id == "bundled")
  {
    var fill := Resolve(w, "").value;
    FindMerged(w, configured, storeIndexUrl, id);
    FindOffers(fill.index.packages, "bundled", NameOr(fill.index, "Bundled"), id);
    forall i: nat | Wins(w, fill, configured, id, i)
      ensures FirstOffer(w, fill, configured, id).Some?
      ensures FirstOffer(w, fill, configured, id).value.storeId == configured[i].id
    {
      WinnerOffers(w, fill, configured, id, i);
    }
    if FirstOffer(w, fill, configured, id).Some? {
      var i := SomeWinner(w, fill, configured, id);
    }
  }
}
