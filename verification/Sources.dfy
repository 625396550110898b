/** The operator's store sources: their normalised list on disk, its edits, and the priority order (sources.py). */
module Sources {
  import opened Options
  import opened Text

  datatype Source = Source(id: string, name: string, indexUrl: string, enabled: bool, priority: int)

  /** Whether `urlparse` finds the scheme `https` and a network location in a URL. */
  type UrlCheck = string -> bool

  predicate SourceIdWellFormed(id: string) {
    && 1 <= |id| <= 64
    && 'a' <= id[0] <= 'z'
    && forall i :: 0 <= i < |id| ==> 'a' <= id[i] <= 'z' || '0' <= id[i] <= '9' || id[i] == '-'
  }

  /** A source id begins with a small letter, goes on with those, digits or hyphens, up to 64 characters. */
  lemma SourceIdGrows(id: string, c: char)
    ensures !SourceIdWellFormed("")
    ensures SourceIdWellFormed([c]) <==> 'a' <= c <= 'z'
    ensures id != "" ==>
              (SourceIdWellFormed(id + [c]) <==>
                && SourceIdWellFormed(id) && |id| < 64
                && ('a' <= c <= 'z' || '0' <= c <= '9' || c == '-'))
  {
    if id != "" {
      var longer := id + [c];
      assert longer[|id|] == c && forall i :: 0 <= i < |id| ==> longer[i] == id[i];
    }
  }

  // -- Saving -------------------------------------------------------------------------------

  function Normalised(s: Source): Source {
    var id := Strip(s.id);
    var name := Strip(if s.name != "" then s.name else id);
    Source(id, if name != "" then name else id, Strip(s.indexUrl), s.enabled, s.priority)
  }

  function AllNormalised(sources: seq<Source>): seq<Source> {
    seq(|sources|, i requires 0 <= i < |sources| => Normalised(sources[i]))
  }

  predicate UrlsPass(urlOk: UrlCheck, sources: seq<Source>) {
    forall i :: 0 <= i < |sources| ==> urlOk(sources[i].indexUrl)
  }

  /** The checks of `save_sources`. */
  predicate Savable(urlOk: UrlCheck, sources: seq<Source>) {
    && UrlsPass(urlOk, sources)
    && (forall i :: 0 <= i < |sources| ==> SourceIdWellFormed(Strip(sources[i].id)))
    && forall i, j :: 0 <= i < j < |sources| ==> Strip(sources[i].id) != Strip(sources[j].id)
  }

  /** What `save_sources` writes and returns; `None` stands for the `ValueError`, which writes nothing. */
  function Saved(urlOk: UrlCheck, sources: seq<Source>): Option<seq<Source>> {
    if Savable(urlOk, sources) then Some(AllNormalised(sources)) else None
  }

  predicate NormalEntry(s: Source) {
    && SourceIdWellFormed(s.id) && Trimmed(s.id)
    && s.name != "" && Trimmed(s.name)
    && Trimmed(s.indexUrl)
  }

  predicate DistinctSources(sources: seq<Source>) {
    forall i, j :: 0 <= i < j < |sources| ==> sources[i].id != sources[j].id
  }

  /** What a saved list looks like: distinct well-formed ids, non-empty trimmed names, trimmed URLs. */
  predicate NormalForm(sources: seq<Source>) {
    (forall i :: 0 <= i < |sources| ==> NormalEntry(sources[i])) && DistinctSources(sources)
  }

  ghost predicate VettedBy(urlOk: UrlCheck, u: string, original: string) {
    urlOk(original) && u == Strip(original)
  }

  ghost predicate Vetted(urlOk: UrlCheck, u: string) {
    exists original :: VettedBy(urlOk, u, original)
  }

  /** Every URL is what trimming made of one that passed the check. */
  ghost predicate UrlsVetted(urlOk: UrlCheck, sources: seq<Source>) {
    forall i :: 0 <= i < |sources| ==> Vetted(urlOk, sources[i].indexUrl)
  }

  // -- Edits --------------------------------------------------------------------------------

  /** `id` of the source to add is the requested one, or the generated one when none was requested. */
  datatype Edit = Replace(sources: seq<Source>) | Add(source: Source) | Delete(id: string)

  /** No URL that the edit submits passes untrimmed only, as `https:// ` does. */
  predicate SubmitsUnspoilt(urlOk: UrlCheck, e: Edit) {
    match e
    case Replace(next) => forall i :: 0 <= i < |next| && urlOk(next[i].indexUrl) ==> urlOk(Strip(next[i].indexUrl))
    case Add(s) => urlOk(s.indexUrl) ==> urlOk(Strip(s.indexUrl))
    case Delete(_) => true
  }

  predicate Listed(sources: seq<Source>, id: string) {
    exists s :: s in sources && s.id == id
  }

  function Others(sources: seq<Source>, id: string): seq<Source> {
    if sources == [] then []
    else if sources[0].id == id then Others(sources[1..], id)
    else [sources[0]] + Others(sources[1..], id)
  }

  /** The list after an edit; `None` when it is refused, which leaves the stored list as it was. */
  function Edited(urlOk: UrlCheck, sources: seq<Source>, e: Edit): Option<seq<Source>> {
    match e
    case Replace(next) => Saved(urlOk, next)
    case Add(s) => Saved(urlOk, sources + [s])
    case Delete(id) => if Listed(sources, id) then Saved(urlOk, Others(sources, id)) else None
  }

  function Run(urlOk: UrlCheck, sources: seq<Source>, edits: seq<Edit>): seq<Source>
    decreases |edits|
  {
    if edits == [] then sources
    else
      var r := Edited(urlOk, sources, edits[0]);
      Run(urlOk, if r.Some? then r.value else sources, edits[1..])
  }

  /** The bootstrap list read from the environment. */
  function DefaultSources(urlOk: UrlCheck, envUrl: string): seq<Source> {
    var url := Strip(envUrl);
    if url == "" || !urlOk(url) then []
    else [Source("official", "Axionet official", url, true, 100)]
  }

  // -- Priority order -----------------------------------------------------------------------

  function Enabled(sources: seq<Source>): seq<Source> {
    if sources == [] then []
    else if sources[0].enabled then [sources[0]] + Enabled(sources[1..])
    else Enabled(sources[1..])
  }

  /** Places `s`, listed after all of `sorted`, behind every entry of at least its priority. */
  function Insert(sorted: seq<Source>, s: Source): seq<Source> {
    if sorted == [] || sorted[0].priority < s.priority then [s] + sorted
    else [sorted[0]] + Insert(sorted[1..], s)
  }

  function ByPriority(sources: seq<Source>): seq<Source> {
    if sources == [] then []
    else Insert(ByPriority(sources[..|sources| - 1]), sources[|sources| - 1])
  }

  predicate NonIncreasing(s: seq<Source>) {
    forall i, j :: 0 <= i < j < |s| ==> s[i].priority >= s[j].priority
  }

  function AtPriority(s: seq<Source>, p: int): seq<Source> {
    if s == [] then []
    else if s[0].priority == p then [s[0]] + AtPriority(s[1..], p)
    else AtPriority(s[1..], p)
  }

  // -- Saving: what it guarantees -----------------------------------------------------------

  /** The checks of a longer list are those of its beginning and of the next entry. */
  lemma SavableStep(urlOk: UrlCheck, sources: seq<Source>, i: nat)
    requires i < |sources| && Savable(urlOk, sources[..i])
    ensures Savable(urlOk, sources[..i + 1]) <==>
              && SourceIdWellFormed(Strip(sources[i].id))
              && urlOk(sources[i].indexUrl)
              && forall j :: 0 <= j < i ==> Strip(sources[j].id) != Strip(sources[i].id)
    ensures Savable(urlOk, sources) ==> Savable(urlOk, sources[..i + 1])
    ensures AllNormalised(sources[..i + 1]) == AllNormalised(sources[..i]) + [Normalised(sources[i])]
  {
    var init, longer := sources[..i], sources[..i + 1];
    assert longer == init + [sources[i]];
    assert forall j :: 0 <= j < i ==> longer[j] == init[j] == sources[j];
  }

  lemma NormalisedFixed(s: Source)
    requires NormalEntry(s)
    ensures Normalised(s) == s
  {
    TrimmedIsFixed(s.id);
    TrimmedIsFixed(s.name);
    TrimmedIsFixed(s.indexUrl);
  }

  lemma NormalisedShape(s: Source)
    requires Strip(s.id) != ""
    ensures var n := Normalised(s);
            n.id == Strip(s.id) && Trimmed(n.id) && n.name != "" && Trimmed(n.name) && Trimmed(n.indexUrl)
  {
    StripIdempotent(s.id);
    StripIdempotent(s.name);
    StripIdempotent(Strip(s.id));
    StripIdempotent(s.indexUrl);
  }

  /** An entry as stored: id, name and URL trimmed, a blank name replaced by the id, flag and priority as they are. */
  predicate StoredAs(s: Source, n: Source) {
    && n.id == Strip(s.id) && n.indexUrl == Strip(s.indexUrl)
    && n.enabled == s.enabled && n.priority == s.priority
    && n.name == if Blank(s.name) then n.id else Strip(s.name)
  }

  lemma NormalisedExactly(s: Source)
    ensures StoredAs(s, Normalised(s))
  {
    BlankExactly(s.name);
    StripIdempotent(s.id);
  }

  /**
    Saving writes the entries in their order. It fails exactly on an id that is malformed, two that
    are equal once trimmed, or a URL that does not pass.
   */
  lemma SavedExactly(urlOk: UrlCheck, sources: seq<Source>)
    ensures Saved(urlOk, sources).Some? <==>
            && (forall i :: 0 <= i < |sources| ==>
                  SourceIdWellFormed(Strip(sources[i].id)) && urlOk(sources[i].indexUrl))
            && forall i, j :: 0 <= i < j < |sources| ==> Strip(sources[i].id) != Strip(sources[j].id)
    ensures Saved(urlOk, sources).Some? ==>
              var saved := Saved(urlOk, sources).value;
              |saved| == |sources| && forall i :: 0 <= i < |saved| ==> StoredAs(sources[i], saved[i])
  {
    forall i | 0 <= i < |sources| ensures StoredAs(sources[i], AllNormalised(sources)[i]) {
      NormalisedExactly(sources[i]);
    }
  }

  lemma SavedIsNormal(urlOk: UrlCheck, sources: seq<Source>)
    requires Saved(urlOk, sources).Some?
    ensures NormalForm(Saved(urlOk, sources).value) && UrlsVetted(urlOk, Saved(urlOk, sources).value)
  {
    var saved := Saved(urlOk, sources).value;
    forall i | 0 <= i < |saved|
      ensures NormalEntry(saved[i]) && Vetted(urlOk, saved[i].indexUrl)
    {
      NormalisedShape(sources[i]);
      assert VettedBy(urlOk, saved[i].indexUrl, sources[i].indexUrl);
    }
    forall i, j | 0 <= i < j < |saved| ensures saved[i].id != saved[j].id {
      assert Strip(sources[i].id) != Strip(sources[j].id);
    }
  }

  /** Saving a list in normal form again succeeds exactly when its stored URLs still pass, and is then the identity. */
  lemma ResaveExactly(urlOk: UrlCheck, sources: seq<Source>)
    requires NormalForm(sources)
    ensures Saved(urlOk, sources) == if UrlsPass(urlOk, sources) then Some(sources) else None
  {
    forall i | 0 <= i < |sources|
      ensures Normalised(sources[i]) == sources[i] && Strip(sources[i].id) == sources[i].id
    {
      NormalisedFixed(sources[i]);
      TrimmedIsFixed(sources[i].id);
    }
    assert AllNormalised(sources) == sources;
    forall i, j | 0 <= i < j < |sources| ensures Strip(sources[i].id) != Strip(sources[j].id) {
      assert sources[i].id != sources[j].id;
    }
  }

  lemma {:induction false} OthersMember(sources: seq<Source>, id: string, s: Source)
    ensures s in Others(sources, id) <==> s in sources && s.id != id
  {
    if sources == [] {
    } else {
      OthersMember(sources[1..], id, s);
      assert s in sources <==> s == sources[0] || s in sources[1..];
    }
  }

  lemma {:induction false} OthersDistinct(sources: seq<Source>, id: string)
    requires DistinctSources(sources)
    ensures DistinctSources(Others(sources, id))
  {
    if sources == [] {
    } else {
      OthersDistinct(sources[1..], id);
      var rest := Others(sources[1..], id);
      forall i | 0 <= i < |rest| ensures rest[i].id != sources[0].id {
        OthersMember(sources[1..], id, rest[i]);
      }
    }
  }

  lemma OthersNormal(sources: seq<Source>, id: string)
    requires NormalForm(sources)
    ensures NormalForm(Others(sources, id))
  {
    OthersDistinct(sources, id);
    var kept := Others(sources, id);
    forall i | 0 <= i < |kept| ensures NormalEntry(kept[i]) {
      OthersMember(sources, id, kept[i]);
    }
  }

  /**
    Deleting from a list in normal form succeeds exactly when the id is listed and every other stored
    URL still passes.
   */
  lemma DeleteExactly(urlOk: UrlCheck, sources: seq<Source>, id: string)
    requires NormalForm(sources)
    ensures Edited(urlOk, sources, Delete(id))
         == if Listed(sources, id) && UrlsPass(urlOk, Others(sources, id)) then Some(Others(sources, id)) else None
  {
    OthersNormal(sources, id);
    ResaveExactly(urlOk, Others(sources, id));
  }

  lemma DefaultIsSaved(urlOk: UrlCheck, envUrl: string)
    ensures NormalForm(DefaultSources(urlOk, envUrl)) && UrlsVetted(urlOk, DefaultSources(urlOk, envUrl))
    ensures Saved(urlOk, DefaultSources(urlOk, envUrl)) == Some(DefaultSources(urlOk, envUrl))
  {
    var d := DefaultSources(urlOk, envUrl);
    StripIdempotent(envUrl);
    if d == [] {
    } else {
      assert VettedBy(urlOk, d[0].indexUrl, Strip(envUrl));
    }
    ResaveExactly(urlOk, d);
  }

  /**
    The bootstrap list: the URL of the environment as one enabled source of priority 100, if it passes;
    else nothing.
   */
  lemma BootstrapExactly(urlOk: UrlCheck, envUrl: string)
    ensures var l := DefaultSources(urlOk, envUrl);
            && (!Blank(envUrl) && urlOk(Strip(envUrl)) ==>
                  && |l| == 1 && l[0].enabled && l[0].priority == 100 && l[0].indexUrl == Strip(envUrl)
                  && l[0].id == "official" && l[0].name == "Axionet official")
            && (Blank(envUrl) || !urlOk(Strip(envUrl)) ==> l == [])
  {
    BlankExactly(envUrl);
  }

  lemma SaveIgnoresIdTrim(urlOk: UrlCheck, sources: seq<Source>, s: Source, id: string)
    ensures Saved(urlOk, sources + [s.(id := Strip(id))]) == Saved(urlOk, sources + [s.(id := id)])
    ensures Normalised(s.(id := Strip(id))) == Normalised(s.(id := id))
  {
    StripIdempotent(id);
    var a, b := sources + [s.(id := Strip(id))], sources + [s.(id := id)];
    assert forall i :: 0 <= i < |a| ==>
        Strip(a[i].id) == Strip(b[i].id) && a[i].indexUrl == b[i].indexUrl && Normalised(a[i]) == Normalised(b[i]);
    assert AllNormalised(a) == AllNormalised(b);
    assert Savable(urlOk, a) == Savable(urlOk, b);
  }

  lemma AddedIsFoundLast(urlOk: UrlCheck, sources: seq<Source>, s: Source)
    requires Saved(urlOk, sources + [s]).Some?
    ensures var stored := Saved(urlOk, sources + [s]).value;
            && |stored| == |sources| + 1
            && stored[|sources|] == Normalised(s)
            && forall i :: 0 <= i < |stored| ==> (stored[i].id == Strip(s.id) <==> i == |sources|)
  {
    var all := sources + [s];
    assert all[|sources|] == s;
    forall i | 0 <= i < |sources| ensures AllNormalised(all)[i].id != Strip(s.id) {
      assert Strip(all[i].id) != Strip(all[|sources|].id);
    }
  }

  lemma EditIsNormal(urlOk: UrlCheck, sources: seq<Source>, e: Edit)
    requires Edited(urlOk, sources, e).Some?
    ensures NormalForm(Edited(urlOk, sources, e).value) && UrlsVetted(urlOk, Edited(urlOk, sources, e).value)
  {
    match e
    case Replace(next) => SavedIsNormal(urlOk, next);
    case Add(s) => SavedIsNormal(urlOk, sources + [s]);
    case Delete(id) => SavedIsNormal(urlOk, Others(sources, id));
  }

  /** Every reachable list is in normal form and holds vetted URLs only. */
  lemma {:induction false} ReachableNormal(urlOk: UrlCheck, sources: seq<Source>, edits: seq<Edit>)
    requires NormalForm(sources) && UrlsVetted(urlOk, sources)
    ensures NormalForm(Run(urlOk, sources, edits)) && UrlsVetted(urlOk, Run(urlOk, sources, edits))
    decreases |edits|
  {
    if edits == [] {
    } else {
      var r := Edited(urlOk, sources, edits[0]);
      if r.Some? {
        EditIsNormal(urlOk, sources, edits[0]);
      }
      ReachableNormal(urlOk, if r.Some? then r.value else sources, edits[1..]);
    }
  }

  /** The part of `urlparse` that matters to a blank host: the network location runs to the next `/`, `?` or `#`. */
  predicate HttpsWithHost(u: string) {
    |u| > 8 && u[..8] == "https://" && u[8] !in "/?#"
  }

  lemma SpoiltUrlBlocks(urlOk: UrlCheck, stored: seq<Source>, more: Source)
    requires !UrlsPass(urlOk, stored)
    ensures Saved(urlOk, stored) == None && Edited(urlOk, stored, Add(more)) == None
  {
    var i :| 0 <= i < |stored| && !urlOk(stored[i].indexUrl);
    assert (stored + [more])[i] == stored[i];
  }

  lemma OnlyEntryDeleted(urlOk: UrlCheck, s: Source)
    ensures Edited(urlOk, [s], Delete(s.id)) == Some([])
  {
    assert s in [s];
    assert Others([s], s.id) == [];
    assert AllNormalised([]) == [];
  }

  lemma BlankHostIsTrimmedAway()
    ensures HttpsWithHost("https:// ") && Strip("https:// ") == "https://" && !HttpsWithHost("https://")
  {
    assert "https:// "[..8] == "https://";
    assert "https:// " == "https://" + " ";
    TrimSkipsEnd(IsSpace, "https://", " ");
    TrimmedIsFixed("https://");
  }

  /**
    Trimming can spoil a URL: a blank host passes the check and is stored as no host at all. From
    then on no source can be added, and the stored list cannot be saved again; deleting the entry
    is the way out.
   */
  lemma BlankHostBlocksEdits(s: Source, more: Source)
    requires s.indexUrl == "https:// " && SourceIdWellFormed(Strip(s.id))
    ensures var stored := Edited(HttpsWithHost, [], Replace([s]));
            && stored.Some?
            && Edited(HttpsWithHost, stored.value, Add(more)) == None
            && Saved(HttpsWithHost, stored.value) == None
            && Edited(HttpsWithHost, stored.value, Delete(Strip(s.id))) == Some([])
  {
    BlankHostIsTrimmedAway();
    assert Savable(HttpsWithHost, [s]);
    var n := Normalised(s);
    assert AllNormalised([s]) == [n];
    assert !HttpsWithHost([n][0].indexUrl);
    SpoiltUrlBlocks(HttpsWithHost, [n], more);
    OnlyEntryDeleted(HttpsWithHost, n);
  }

  lemma {:induction false} OthersLength(sources: seq<Source>, id: string)
    ensures |Others(sources, id)| <= |sources|
    ensures |Others(sources, id)| == |sources| <==> !Listed(sources, id)
    ensures !Listed(sources, id) ==> Others(sources, id) == sources
  {
    if sources == [] {
    } else {
      OthersLength(sources[1..], id);
      assert sources == [sources[0]] + sources[1..];
      assert Listed(sources, id) <==> sources[0].id == id || Listed(sources[1..], id);
    }
  }

  lemma {:induction false} OthersAppend(sources: seq<Source>, more: seq<Source>, id: string)
    ensures Others(sources + more, id) == Others(sources, id) + Others(more, id)
  {
    if sources == [] {
      assert sources + more == more;
    } else {
      assert (sources + more)[1..] == sources[1..] + more;
      OthersAppend(sources[1..], more, id);
    }
  }

  /** In a list in normal form, an accepted addition appends its normalised source, under an id that was free. */
  lemma AddAppends(urlOk: UrlCheck, sources: seq<Source>, s: Source)
    requires NormalForm(sources) && Savable(urlOk, sources + [s])
    ensures UrlsPass(urlOk, sources) && !Listed(sources, Strip(s.id))
    ensures AllNormalised(sources + [s]) == sources + [Normalised(s)]
  {
    var all := sources + [s];
    assert all[|sources|] == s;
    forall i | 0 <= i < |sources|
      ensures urlOk(sources[i].indexUrl) && sources[i].id != Strip(s.id) && Normalised(all[i]) == sources[i]
    {
      assert all[i] == sources[i];
      NormalisedFixed(sources[i]);
      TrimmedIsFixed(sources[i].id);
      assert Strip(all[i].id) != Strip(all[|sources|].id);
    }
  }

  lemma SavedPasses(urlOk: UrlCheck, sources: seq<Source>)
    ensures UrlsPass(urlOk, AllNormalised(sources)) <==>
            forall i :: 0 <= i < |sources| ==> urlOk(Strip(sources[i].indexUrl))
  {
    var l := AllNormalised(sources);
    assert forall i :: 0 <= i < |sources| ==> l[i].indexUrl == Strip(sources[i].indexUrl);
  }

  lemma PassesAppend(urlOk: UrlCheck, sources: seq<Source>, s: Source)
    ensures UrlsPass(urlOk, sources + [s]) <==> UrlsPass(urlOk, sources) && urlOk(s.indexUrl)
  {
    var all := sources + [s];
    assert all[|sources|] == s && forall i :: 0 <= i < |sources| ==> all[i] == sources[i];
  }

  lemma EditPassesExactly(urlOk: UrlCheck, sources: seq<Source>, e: Edit)
    requires NormalForm(sources) && Edited(urlOk, sources, e).Some?
    ensures UrlsPass(urlOk, Edited(urlOk, sources, e).value) <==> SubmitsUnspoilt(urlOk, e)
  {
    match e
    case Replace(next) =>
      SavedPasses(urlOk, next);
    case Add(s) =>
      AddAppends(urlOk, sources, s);
      PassesAppend(urlOk, sources, s);
      PassesAppend(urlOk, sources, Normalised(s));
    case Delete(id) =>
      DeleteExactly(urlOk, sources, id);
  }

  /**
    An edit that goes through leaves a list that saves as itself exactly when no URL it submitted
    passes untrimmed only; otherwise that list cannot be saved.
   */
  lemma EditResavesExactly(urlOk: UrlCheck, sources: seq<Source>, e: Edit)
    requires NormalForm(sources) && Edited(urlOk, sources, e).Some?
    ensures var l := Edited(urlOk, sources, e).value;
            Saved(urlOk, l) == if SubmitsUnspoilt(urlOk, e) then Some(l) else None
  {
    EditPassesExactly(urlOk, sources, e);
    EditIsNormal(urlOk, sources, e);
    ResaveExactly(urlOk, Edited(urlOk, sources, e).value);
  }

  lemma {:induction false} RunPasses(urlOk: UrlCheck, sources: seq<Source>, edits: seq<Edit>)
    requires NormalForm(sources) && UrlsPass(urlOk, sources)
    requires forall i :: 0 <= i < |edits| ==> SubmitsUnspoilt(urlOk, edits[i])
    ensures UrlsPass(urlOk, Run(urlOk, sources, edits))
    decreases |edits|
  {
    if edits == [] {
    } else {
      var r := Edited(urlOk, sources, edits[0]);
      if r.Some? {
        EditPassesExactly(urlOk, sources, edits[0]);
        EditIsNormal(urlOk, sources, edits[0]);
      }
      RunPasses(urlOk, if r.Some? then r.value else sources, edits[1..]);
    }
  }

  /**
    If no edit submits a URL that passes untrimmed only, every list that the edits reach saves again as
    itself. URLs without surrounding whitespace meet that.
   */
  lemma ReachableResave(urlOk: UrlCheck, envUrl: string, edits: seq<Edit>)
    requires forall i :: 0 <= i < |edits| ==> SubmitsUnspoilt(urlOk, edits[i])
    ensures var l := Run(urlOk, DefaultSources(urlOk, envUrl), edits);
            UrlsPass(urlOk, l) && Saved(urlOk, l) == Some(l)
  {
    var first := DefaultSources(urlOk, envUrl);
    DefaultIsSaved(urlOk, envUrl);
    RunPasses(urlOk, first, edits);
    ReachableNormal(urlOk, first, edits);
    ResaveExactly(urlOk, Run(urlOk, first, edits));
  }

  lemma FreshAppendDeleted(sources: seq<Source>, s: Source)
    requires !Listed(sources, s.id)
    ensures Listed(sources + [s], s.id) && Others(sources + [s], s.id) == sources
  {
    OthersAppend(sources, [s], s.id);
    OthersLength(sources, s.id);
    assert (sources + [s])[|sources|] == s;
    assert [s][1..] == [];
    assert sources + [] == sources;
  }

  /**
    Adding a source and deleting it again restores the list, even when other stored URLs no longer pass
    after trimming.
   */
  lemma AddThenDelete(urlOk: UrlCheck, sources: seq<Source>, s: Source)
    requires NormalForm(sources) && Edited(urlOk, sources, Add(s)).Some?
    ensures Edited(urlOk, Edited(urlOk, sources, Add(s)).value, Delete(Strip(s.id))) == Some(sources)
  {
    AddAppends(urlOk, sources, s);
    FreshAppendDeleted(sources, Normalised(s));
    ResaveExactly(urlOk, sources);
  }

  // -- Priority order: what it guarantees ---------------------------------------------------

  lemma {:induction false} EnabledAppend(sources: seq<Source>, s: Source)
    ensures Enabled(sources + [s]) == Enabled(sources) + if s.enabled then [s] else []
  {
    if sources == [] {
    } else {
      assert (sources + [s])[1..] == sources[1..] + [s];
      EnabledAppend(sources[1..], s);
    }
  }

  lemma ByPriorityAppend(sources: seq<Source>, s: Source)
    ensures ByPriority(sources + [s]) == Insert(ByPriority(sources), s)
  {
    assert (sources + [s])[..|sources|] == sources;
  }

  lemma {:induction false} InsertMultiset(sorted: seq<Source>, s: Source)
    ensures multiset(Insert(sorted, s)) == multiset(sorted) + multiset{s}
  {
    if sorted != [] && sorted[0].priority >= s.priority {
      InsertMultiset(sorted[1..], s);
      assert sorted == [sorted[0]] + sorted[1..];
    }
  }

  lemma {:induction false} InsertNonIncreasing(sorted: seq<Source>, s: Source)
    requires NonIncreasing(sorted)
    ensures NonIncreasing(Insert(sorted, s))
    ensures forall i :: 0 <= i < |Insert(sorted, s)| ==> Insert(sorted, s)[i] == s || Insert(sorted, s)[i] in sorted
  {
    if sorted != [] && sorted[0].priority >= s.priority {
      InsertNonIncreasing(sorted[1..], s);
      var rest := Insert(sorted[1..], s);
      forall j | 0 <= j < |rest| ensures rest[j].priority <= sorted[0].priority && (rest[j] == s || rest[j] in sorted) {
        if rest[j] != s {
          assert rest[j] in sorted[1..];
        }
      }
    }
  }

  lemma {:induction false} AtPriorityAbsent(s: seq<Source>, p: int)
    requires forall i :: 0 <= i < |s| ==> s[i].priority != p
    ensures AtPriority(s, p) == []
  {
    if s == [] {
    } else {
      AtPriorityAbsent(s[1..], p);
    }
  }

  lemma {:induction false} InsertAtPriority(sorted: seq<Source>, s: Source, p: int)
    requires NonIncreasing(sorted)
    ensures AtPriority(Insert(sorted, s), p) == AtPriority(sorted, p) + if s.priority == p then [s] else []
  {
    if sorted == [] {
    } else if sorted[0].priority < s.priority {
      assert ([s] + sorted)[1..] == sorted;
      if s.priority == p {
        AtPriorityAbsent(sorted, p);
      }
    } else {
      InsertAtPriority(sorted[1..], s, p);
      var rest := Insert(sorted[1..], s);
      assert ([sorted[0]] + rest)[1..] == rest;
    }
  }

  lemma {:induction false} AtPriorityAppend(s: seq<Source>, x: Source, p: int)
    ensures AtPriority(s + [x], p) == AtPriority(s, p) + if x.priority == p then [x] else []
  {
    if s == [] {
    } else {
      assert (s + [x])[1..] == s[1..] + [x];
      AtPriorityAppend(s[1..], x, p);
    }
  }

  lemma {:induction false} ByPrioritySorted(sources: seq<Source>)
    ensures NonIncreasing(ByPriority(sources))
  {
    if sources == [] {
    } else {
      var init := sources[..|sources| - 1];
      ByPrioritySorted(init);
      InsertNonIncreasing(ByPriority(init), sources[|sources| - 1]);
    }
  }

  lemma {:induction false} ByPriorityPermutes(sources: seq<Source>)
    ensures multiset(ByPriority(sources)) == multiset(sources)
  {
    if sources == [] {
    } else {
      var init, last := sources[..|sources| - 1], sources[|sources| - 1];
      assert sources == init + [last];
      ByPriorityPermutes(init);
      InsertMultiset(ByPriority(init), last);
    }
  }

  lemma {:induction false} ByPriorityStable(sources: seq<Source>, p: int)
    ensures AtPriority(ByPriority(sources), p) == AtPriority(sources, p)
  {
    if sources == [] {
    } else {
      var init, last := sources[..|sources| - 1], sources[|sources| - 1];
      assert sources == init + [last];
      ByPriorityStable(init, p);
      ByPrioritySorted(init);
      InsertAtPriority(ByPriority(init), last, p);
      AtPriorityAppend(init, last, p);
    }
  }

  /** The order is a permutation, of non-increasing priority, that keeps entries of one priority in file order. */
  lemma PriorityOrder(sources: seq<Source>, p: int)
    ensures NonIncreasing(ByPriority(sources))
    ensures multiset(ByPriority(sources)) == multiset(sources)
    ensures AtPriority(ByPriority(sources), p) == AtPriority(sources, p)
  {
    ByPrioritySorted(sources);
    ByPriorityPermutes(sources);
    ByPriorityStable(sources, p);
  }

  /** Those properties determine the order: it is the only one that has them. */
  lemma {:induction false} PriorityOrderUnique(a: seq<Source>, b: seq<Source>)
    requires NonIncreasing(a) && NonIncreasing(b)
    requires forall p :: AtPriority(a, p) == AtPriority(b, p)
    ensures a == b
  {
    if a != [] {
      assert AtPriority(a, a[0].priority) == AtPriority(b, a[0].priority);
    }
    if b != [] {
      assert AtPriority(a, b[0].priority) == AtPriority(b, b[0].priority);
    }
    if a == [] {
    } else if b == [] {
    } else if a[0].priority > b[0].priority {
      AtPriorityAbsent(b, a[0].priority);
    } else if a[0].priority < b[0].priority {
      AtPriorityAbsent(a, b[0].priority);
    } else {
      assert a[0] == AtPriority(a, a[0].priority)[0] == b[0];
      forall p ensures AtPriority(a[1..], p) == AtPriority(b[1..], p) {
        assert AtPriority(a, p) == AtPriority(b, p);
        if p == a[0].priority {
          assert AtPriority(a, p)[1..] == AtPriority(a[1..], p);
          assert AtPriority(b, p)[1..] == AtPriority(b[1..], p);
        }
      }
      PriorityOrderUnique(a[1..], b[1..]);
    }
  }

  // -- Priority order under edits -----------------------------------------------------------

  lemma {:induction false} EnabledOthers(sources: seq<Source>, id: string)
    ensures Enabled(Others(sources, id)) == Others(Enabled(sources), id)
  {
    if sources == [] {
    } else {
      EnabledOthers(sources[1..], id);
      assert ([sources[0]] + Others(sources[1..], id))[1..] == Others(sources[1..], id);
      assert ([sources[0]] + Enabled(sources[1..]))[1..] == Enabled(sources[1..]);
    }
  }

  lemma {:induction false} InsertFront(sorted: seq<Source>, s: Source, id: string)
    requires forall i :: 0 <= i < |sorted| ==> sorted[i].priority < s.priority
    ensures Insert(Others(sorted, id), s) == [s] + Others(sorted, id)
  {
    if sorted != [] && sorted[0].id == id {
      InsertFront(sorted[1..], s, id);
    }
  }

  lemma {:induction false} InsertOthers(sorted: seq<Source>, s: Source, id: string)
    requires NonIncreasing(sorted)
    ensures Others(Insert(sorted, s), id) == if s.id == id then Others(sorted, id) else Insert(Others(sorted, id), s)
  {
    if sorted == [] {
    } else if sorted[0].priority < s.priority {
      assert ([s] + sorted)[1..] == sorted;
      InsertFront(sorted, s, id);
    } else {
      InsertOthers(sorted[1..], s, id);
      var rest := Insert(sorted[1..], s);
      assert ([sorted[0]] + rest)[1..] == rest;
      if sorted[0].id != id {
        var kept := Others(sorted[1..], id);
        assert ([sorted[0]] + kept)[1..] == kept;
      }
    }
  }

  lemma OthersSnoc(sources: seq<Source>, s: Source, id: string)
    ensures Others(sources + [s], id) == Others(sources, id) + if s.id == id then [] else [s]
  {
    OthersAppend(sources, [s], id);
    assert [s][1..] == [];
  }

  /** Deleting a source deletes it from the priority order and moves nothing else. */
  lemma {:induction false} ByPriorityOthers(sources: seq<Source>, id: string)
    ensures ByPriority(Others(sources, id)) == Others(ByPriority(sources), id)
  {
    if sources == [] {
    } else {
      var init, last := sources[..|sources| - 1], sources[|sources| - 1];
      assert sources == init + [last];
      ByPriorityOthers(init, id);
      ByPrioritySorted(init);
      InsertOthers(ByPriority(init), last, id);
      OthersSnoc(init, last, id);
      if last.id == id {
        assert Others(init, id) + [] == Others(init, id);
      } else {
        ByPriorityAppend(Others(init, id), last);
      }
    }
  }

  /** The leading sources of at least priority `p`. */
  function Ahead(sorted: seq<Source>, p: int): seq<Source> {
    if sorted == [] || sorted[0].priority < p then [] else [sorted[0]] + Ahead(sorted[1..], p)
  }

  /** Insertion puts a source between those of at least its priority and the others. */
  lemma {:induction false} InsertSplits(sorted: seq<Source>, s: Source)
    ensures Ahead(sorted, s.priority) <= sorted
    ensures Insert(sorted, s) == Ahead(sorted, s.priority) + [s] + sorted[|Ahead(sorted, s.priority)|..]
  {
    if sorted != [] && sorted[0].priority >= s.priority {
      InsertSplits(sorted[1..], s);
    }
  }

  // -- The file -----------------------------------------------------------------------------

  /** `sources.json`: missing until first read or written. */
  class SourceFile {
    const urlOk: UrlCheck
    const envUrl: string
    var file: Option<seq<Source>>

    constructor (urlOk: UrlCheck, envUrl: string)
      ensures this.urlOk == urlOk && this.envUrl == envUrl && file == None
    {
      this.urlOk := urlOk;
      this.envUrl := envUrl;
      file := None;
    }

    /** The list that `load_sources` returns. */
    function Current(): seq<Source>
      reads this
    {
      if file.Some? then file.value else DefaultSources(urlOk, envUrl)
    }

    method Load() returns (sources: seq<Source>)
      modifies this
      ensures sources == Current() == old(Current()) && file == Some(sources)
    {
      if file.None? {
        var seeded := DefaultSources(urlOk, envUrl);
        DefaultIsSaved(urlOk, envUrl);
        var _ := Save(seeded);
        return seeded;
      }
      sources := file.value;
    }

    method Save(sources: seq<Source>) returns (saved: Option<seq<Source>>)
      modifies this
      ensures saved == Saved(urlOk, sources)
      ensures file == if saved.Some? then saved else old(file)
    {
      var normalized: seq<Source> := [];
      var seen: set<string> := {};
      for i := 0 to |sources|
        invariant normalized == AllNormalised(sources[..i])
        invariant seen == set j | 0 <= j < i :: Strip(sources[j].id)
        invariant Savable(urlOk, sources[..i])
        invariant file == old(file)
      {
        var item := sources[i];
        var id := Strip(item.id);
        SavableStep(urlOk, sources, i);
        if !SourceIdWellFormed(id) || id in seen || !urlOk(item.indexUrl) {
          return None;
        }
        seen := seen + {id};
        normalized := normalized + [Normalised(item)];
      }
      assert sources[..|sources|] == sources;
      file := Some(normalized);
      saved := file;
    }

    method ReplaceSources(sources: seq<Source>) returns (saved: Option<seq<Source>>)
      modifies this
      ensures saved == Edited(urlOk, old(Current()), Replace(sources))
      ensures Current() == if saved.Some? then saved.value else old(Current())
    {
      saved := Save(sources);
    }

    method AddSource(s: Source, requestedId: Option<string>, generated: string) returns (added: Option<Source>)
      modifies this
      ensures var id := if requestedId.Some? && requestedId.value != "" then requestedId.value else generated;
              var r := Edited(urlOk, old(Current()), Add(s.(id := id)));
              && (added.Some? <==> r.Some?)
              && Current() == (if r.Some? then r.value else old(Current()))
              && (added.Some? ==> added.value == Normalised(s.(id := id)))
    {
      var sources := Load();
      var id := if requestedId.Some? && requestedId.value != "" then requestedId.value else generated;
      var newId := Strip(id);
      SaveIgnoresIdTrim(urlOk, sources, s, id);
      var saved := Save(sources + [s.(id := newId)]);
      if saved.None? {
        return None;
      }
      AddedIsFoundLast(urlOk, sources, s.(id := newId));
      StripIdempotent(id);
      var stored := Load();
      var i := 0;
      while stored[i].id != newId
        invariant 0 <= i <= |sources| < |stored|
        decreases |stored| - i
      {
        i := i + 1;
      }
      added := Some(stored[i]);
    }

    method DeleteSource(id: string) returns (deleted: bool)
      modifies this
      ensures var r := Edited(urlOk, old(Current()), Delete(id));
              deleted == r.Some? && Current() == if r.Some? then r.value else old(Current())
    {
      var sources := Load();
      var kept: seq<Source> := [];
      for i := 0 to |sources|
        invariant Others(sources, id) == kept + Others(sources[i..], id)
        invariant file == Some(sources)
      {
        if sources[i].id != id {
          kept := kept + [sources[i]];
        }
      }
      assert kept == Others(sources, id);
      OthersLength(sources, id);
      if |kept| == |sources| {
        return false;
      }
      var saved := Save(kept);
      deleted := saved.Some?;
    }

    method EnabledSourcesSorted() returns (ordered: seq<Source>)
      modifies this
      ensures Current() == old(Current())
      ensures ordered == ByPriority(Enabled(Current()))
    {
      var sources := Load();
      ordered := [];
      for i := 0 to |sources|
        invariant ordered == ByPriority(Enabled(sources[..i]))
        invariant file == Some(sources)
      {
        EnabledAppend(sources[..i], sources[i]);
        assert Enabled(sources[..i]) + [] == Enabled(sources[..i]);
        assert sources[..i + 1] == sources[..i] + [sources[i]];
        if sources[i].enabled {
          ByPriorityAppend(Enabled(sources[..i]), sources[i]);
          ordered := Insert(ordered, sources[i]);
        }
      }
      assert sources[..|sources|] == sources;
    }
  }
}
