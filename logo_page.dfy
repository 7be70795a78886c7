/** The state of the logo-annotation page and the operations that update it: the
    load on a change of the search parameters, refresh, "load more", the selection
    buttons and the annotation submit. React's state updates become in-place
    updates of the page object's fields. */
module LogoPage {
  import opened LogoTypes
  import LogoLoader
  import Selection
  import Annotations

  /** The ceiling on the logos requested on top of the search's own count. */
  const MaxAdditional := 500

  /** What one press of the "load more" button asks for. */
  const LoadMoreStep := 50

  /** The search parameters read from the URL. `logoId` is `None` for an empty `logo_id`. */
  datatype LogoSearch = LogoSearch(logoId: Option<int>, index: string, count: int)

  /** The `additionalLogos` counter after asking for `toAdd` more, or none when the
      new value would pass the ceiling. */
  function NextAdditional(additional: int, toAdd: int): (r: Option<int>)
    ensures r.None? <==> additional + toAdd > MaxAdditional
    ensures r.Some? ==> r.value <= MaxAdditional && r.value - additional == toAdd
  {
    var newAdditional := additional + toAdd;
    if newAdditional > MaxAdditional then None else Some(newAdditional)
  }

  /** Newly loaded logos as "load more" appends them: none of them selected. */
  function AsUnselected(data: seq<Logo>): (r: seq<LogoEntry>)
    ensures |r| == |data|
    ensures forall i :: 0 <= i < |r| ==> r[i].logo == data[i] && !r[i].selected
  {
    seq(|data|, i requires 0 <= i < |data| => LogoEntry(data[i], false))
  }

  /** The counter after `presses` presses of "load more" from a fresh page. */
  function AdditionalAfterPresses(presses: nat): int {
    if presses == 0 then 0
    else
      var before := AdditionalAfterPresses(presses - 1);
      match NextAdditional(before, LoadMoreStep)
      case None => before
      case Some(n) => n
  }

  /** Each press adds 50 until the counter reaches 500. From the tenth press on, a
      further press is refused. */
  lemma {:induction false} PressesReachCeiling(presses: nat)
    ensures AdditionalAfterPresses(presses) == if presses <= 10 then 50 * presses else 500
    ensures NextAdditional(AdditionalAfterPresses(presses), LoadMoreStep).None? <==> presses >= 10
  {
    if presses > 0 {
      PressesReachCeiling(presses - 1);
    }
  }

  /** The count the `presses`-th accepted press of "load more" sends to the search, which
      `AddMoreLogos` returns as the search's own count plus the counter: 50 more per press,
      so the tenth press asks for the count plus 500 (550 for the default count of 50),
      and later presses are refused. */
  lemma LoadMoreAsksFor(count: int, presses: nat)
    ensures presses <= 10 ==> count + AdditionalAfterPresses(presses) == count + LoadMoreStep * presses
    ensures count == 50 && presses == 10 ==> count + AdditionalAfterPresses(presses) == 550
    ensures presses >= 10 ==> NextAdditional(AdditionalAfterPresses(presses), LoadMoreStep).None?
  {
    PressesReachCeiling(presses);
  }

  /** Appending a load whose response has no repeats, and whose fix-up adds none, keeps
      the loaded ids unique, and keeps the reference locked when the reference is
      already loaded. */
  lemma LoadMoreKeepsInvariants(logos: seq<LogoEntry>, reference: Option<int>, results: seq<Neighbour>,
                                metas: seq<LogoMeta>, urls: UrlBuilders)
    requires LogoLoader.DistinctIds(results) && LogoLoader.FixUpAddsNoRepeat(reference, results)
    requires LogoLoader.Loaded(reference, IdSet(logos), Some(results), Some(metas), urls).Success?
    ensures var data := LogoLoader.Loaded(reference, IdSet(logos), Some(results), Some(metas), urls).value;
            (UniqueIds(logos) ==> UniqueIds(logos + AsUnselected(data))) &&
            (Selection.ReferenceLocked(logos, reference) && (reference.Some? ==> reference.value in IdSet(logos)) ==>
               Selection.ReferenceLocked(logos + AsUnselected(data), reference))
  {
    var data := LogoLoader.Loaded(reference, IdSet(logos), Some(results), Some(metas), urls).value;
    LogoLoader.LoadedRecords(reference, IdSet(logos), results, metas, urls);
    LogoLoader.LoadedDistinct(reference, IdSet(logos), results, metas, urls);
    var all := logos + AsUnselected(data);
    forall i, j | 0 <= i < j < |all| && UniqueIds(logos) ensures all[i].logo.id != all[j].logo.id {
      if j >= |logos| {
        assert all[j].logo == data[j - |logos|];
        if i < |logos| {
          assert all[i].logo.id in IdSet(logos);
        } else {
          assert all[i].logo == data[i - |logos|];
        }
      }
    }
  }

  /** The lock is lost when the first load misses the reference: its first neighbour is
      another logo at distance 0, so the fix-up does not fire. A later "load more" appends
      the reference unselected, and `toggleSelection` then refuses to select it. */
  lemma ReferenceArrivesUnselected(urls: UrlBuilders)
    ensures var metas := [LogoMeta(5, "a.jpg", []), LogoMeta(7, "b.jpg", [])];
            var firstLoad := LogoLoader.Loaded(Some(7), {}, Some([Neighbour(5, 0.0)]), Some(metas), urls);
            firstLoad.Success? &&
            var first := Selection.InitialSelection(firstLoad.value, Some(7));
            var more := LogoLoader.Loaded(Some(7), IdSet(first), Some([Neighbour(5, 0.0), Neighbour(7, 0.3)]),
                                          Some(metas), urls);
            more.Success? &&
            var after := first + AsUnselected(more.value);
            Selection.ReferenceLocked(first, Some(7)) && !Selection.ReferenceLocked(after, Some(7)) &&
            Selection.ToggleSelection(after, Some(7), 7) == after &&
            Selection.ReferenceLocked(Selection.UnselectAll(after, Some(7)), Some(7))
  {
    var metas := [LogoMeta(5, "a.jpg", []), LogoMeta(7, "b.jpg", [])];
    assert LogoLoader.FindMeta(metas, 5) == Some(metas[0]);
    assert LogoLoader.FindMeta(metas, 7) == Some(metas[1]);
    var firstResults := [Neighbour(5, 0.0)];
    LogoLoader.UnseenNothingLoaded(firstResults);
    var firstLoad := LogoLoader.Loaded(Some(7), {}, Some(firstResults), Some(metas), urls);
    assert firstLoad.Success? && |firstLoad.value| == 1 && firstLoad.value[0].id == 5;
    var first := Selection.InitialSelection(firstLoad.value, Some(7));
    assert IdSet(first) == {5};
    var moreResults := [Neighbour(5, 0.0), Neighbour(7, 0.3)];
    var kept := LogoLoader.Unseen(moreResults, {5});
    assert kept == LogoLoader.Unseen([moreResults[0]] + [moreResults[1]], {5}) by {
      assert moreResults == [moreResults[0]] + [moreResults[1]];
    }
    LogoLoader.UnseenAppend([moreResults[0]], [moreResults[1]], {5});
    assert kept == [Neighbour(7, 0.3)];
    var more := LogoLoader.Loaded(Some(7), IdSet(first), Some(moreResults), Some(metas), urls);
    assert more.Success? && |more.value| == 1 && more.value[0].id == 7;
    var after := first + AsUnselected(more.value);
    assert after[1].logo.id == 7 && !after[1].selected;
  }

  /** A fresh load of three logos whose first two are the reference selects both. */
  lemma DuplicateReferenceSelection(data: seq<Logo>, x: int)
    requires |data| == 3 && data[0].id == x && data[1].id == x && data[2].id != x
    ensures var logos := Selection.InitialSelection(data, Some(x));
            !UniqueIds(logos) && Selection.ReferenceLocked(logos, Some(x)) &&
            Selection.SelectedIds(logos) == [x, x] &&
            !Selection.UnselectAllDisabled(Selection.SelectedIds(logos), Some(x)) &&
            Selection.UnselectAll(logos, Some(x)) == logos
  {
    var logos := Selection.InitialSelection(data, Some(x));
    var tail := logos[2..];
    assert logos[1..][1..] == tail;
    Selection.NoSelectedIds(tail);
    assert Selection.SelectedIds(logos[1..]) == [x];
    var reset := Selection.UnselectAll(logos, Some(x));
    assert forall i :: 0 <= i < 3 ==> reset[i] == logos[i];
  }

  /** A fresh load that holds the reference twice (`LogoLoader.TargetLoadedTwice`) selects
      both records, so `selectedIds` is `[7, 7]`: "unselect all" is enabled although
      pressing it changes nothing. */
  lemma DuplicateReferenceEnablesNoopUnselectAll(urls: UrlBuilders)
    ensures var results := [Neighbour(7, 0.5), Neighbour(3, 0.9)];
            var metas := [LogoMeta(7, "a.jpg", []), LogoMeta(3, "b.jpg", [])];
            var load := LogoLoader.Loaded(Some(7), {}, Some(results), Some(metas), urls);
            load.Success? &&
            var logos := Selection.InitialSelection(load.value, Some(7));
            !UniqueIds(logos) && Selection.ReferenceLocked(logos, Some(7)) &&
            Selection.SelectedIds(logos) == [7, 7] &&
            !Selection.UnselectAllDisabled(Selection.SelectedIds(logos), Some(7)) &&
            Selection.UnselectAll(logos, Some(7)) == logos
  {
    LogoLoader.TargetLoadedTwice(urls);
    var load := LogoLoader.Loaded(Some(7), {}, Some([Neighbour(7, 0.5), Neighbour(3, 0.9)]),
                                  Some([LogoMeta(7, "a.jpg", []), LogoMeta(3, "b.jpg", [])]), urls);
    DuplicateReferenceSelection(load.value, 7);
  }

  /** The page's state: the search it shows, the loaded logos with their selection,
      the loading flag, the reference logo and the "load more" counter. */
  class LogoAnnotationPage {
    var search: LogoSearch
    var logos: seq<LogoEntry>
    var isLoading: bool
    var referenceLogo: Option<Logo>
    var additionalLogos: int

    ghost predicate Valid()
      reads this
    {
      additionalLogos <= MaxAdditional
    }

    /** The page as first rendered: the default logo state and no additional logos. */
    constructor (search: LogoSearch)
      ensures Valid()
      ensures this.search == search && additionalLogos == 0
      ensures logos == [] && isLoading && referenceLogo == None
    {
      this.search := search;
      logos, isLoading, referenceLogo := [], true, None;
      additionalLogos := 0;
    }

    /** The result of a load or refresh put into the state: on success only the reference
        logo is selected; on failure the default state, which is still loading. */
    method ApplyLoad(result: Result<seq<Logo>>)
      requires Valid()
      modifies this
      ensures Valid()
      ensures search == old(search) && additionalLogos == old(additionalLogos)
      ensures result.Success? ==>
                logos == Selection.InitialSelection(result.value, search.logoId) && !isLoading &&
                referenceLogo == Selection.ReferenceLogo(result.value, search.logoId)
      ensures result.Failure? ==> logos == [] && isLoading && referenceLogo == None
    {
      match result
      case Success(data) =>
        logos := Selection.InitialSelection(data, search.logoId);
        referenceLogo := Selection.ReferenceLogo(data, search.logoId);
        isLoading := false;
      case Failure(_) =>
        logos, isLoading, referenceLogo := [], true, None;
    }

    /** The effect run when the search parameters change: the state is reset and the logos
        of the new search are loaded from scratch. The counter is not reset. */
    method SearchChanged(newSearch: LogoSearch, searchResponse: Option<seq<Neighbour>>,
                         imagesResponse: Option<seq<LogoMeta>>, urls: UrlBuilders)
      requires Valid()
      modifies this
      ensures Valid() && search == newSearch && additionalLogos == old(additionalLogos)
      ensures var result := LogoLoader.Loaded(newSearch.logoId, {}, searchResponse, imagesResponse, urls);
              (result.Success? ==>
                 logos == Selection.InitialSelection(result.value, newSearch.logoId) && !isLoading &&
                 referenceLogo == Selection.ReferenceLogo(result.value, newSearch.logoId)) &&
              (result.Failure? ==> logos == [] && isLoading && referenceLogo == None)
    {
      search := newSearch;
      logos, isLoading, referenceLogo := [], true, None;
      var result := LogoLoader.LoadLogos(search.logoId, [], searchResponse, imagesResponse, urls);
      assert IdSet([]) == {};
      ApplyLoad(result);
    }

    /** "Refresh": the current search is loaded again from scratch. */
    method Refresh(searchResponse: Option<seq<Neighbour>>, imagesResponse: Option<seq<LogoMeta>>,
                   urls: UrlBuilders)
      requires Valid()
      modifies this
      ensures Valid() && search == old(search) && additionalLogos == old(additionalLogos)
      ensures var result := LogoLoader.Loaded(search.logoId, {}, searchResponse, imagesResponse, urls);
              (result.Success? ==>
                 logos == Selection.InitialSelection(result.value, search.logoId) && !isLoading &&
                 referenceLogo == Selection.ReferenceLogo(result.value, search.logoId)) &&
              (result.Failure? ==> logos == [] && isLoading && referenceLogo == None)
    {
      var result := LogoLoader.LoadLogos(search.logoId, [], searchResponse, imagesResponse, urls);
      assert IdSet([]) == {};
      ApplyLoad(result);
    }

    /** `addMoreLogos(toAdd)`: refused when the counter would pass 500; otherwise the
        counter grows, and the logos not loaded yet are appended unselected. On failure
        the logos are kept and the page stays in its loading state. */
    method AddMoreLogos(toAdd: int, searchResponse: Option<seq<Neighbour>>,
                        imagesResponse: Option<seq<LogoMeta>>, urls: UrlBuilders) returns (askedFor: Option<int>)
      requires Valid()
      modifies this
      ensures Valid()
      ensures askedFor.Some? <==> old(additionalLogos) + toAdd <= MaxAdditional
      ensures toAdd == LoadMoreStep && !old(isLoading) ==> (askedFor.Some? <==> !old(LoadMoreDisabled()))
      ensures askedFor.None? ==> unchanged(this)
      ensures askedFor.Some? ==> additionalLogos == old(additionalLogos) + toAdd
      ensures askedFor.Some? ==> askedFor.value == search.count + additionalLogos
      ensures search == old(search) && referenceLogo == old(referenceLogo)
      ensures askedFor.Some? ==>
                var result := LogoLoader.Loaded(search.logoId, IdSet(old(logos)), searchResponse, imagesResponse, urls);
                (result.Success? ==> logos == old(logos) + AsUnselected(result.value) && !isLoading) &&
                (result.Failure? ==> logos == old(logos) && isLoading)
    {
      var next := NextAdditional(additionalLogos, toAdd);
      if next.None? {
        return None;
      }
      additionalLogos := next.value;
      askedFor := Some(search.count + additionalLogos);
      isLoading := true;
      var result := LogoLoader.LoadLogos(search.logoId, logos, searchResponse, imagesResponse, urls);
      if result.Success? {
        logos := logos + AsUnselected(result.value);
        isLoading := false;
      }
    }

    /** `toggleSelection(id)`. */
    method ToggleSelection(id: int)
      requires Valid()
      modifies this
      ensures Valid()
      ensures logos == Selection.ToggleSelection(old(logos), search.logoId, id)
      ensures search == old(search) && isLoading == old(isLoading)
      ensures referenceLogo == old(referenceLogo) && additionalLogos == old(additionalLogos)
    {
      logos := Selection.ToggleSelection(logos, search.logoId, id);
    }

    /** `selectAll`. */
    method SelectAll()
      requires Valid()
      modifies this
      ensures Valid()
      ensures logos == Selection.SelectAll(old(logos))
      ensures search == old(search) && isLoading == old(isLoading)
      ensures referenceLogo == old(referenceLogo) && additionalLogos == old(additionalLogos)
    {
      logos := Selection.SelectAll(logos);
    }

    /** `unselectAll`. */
    method UnselectAll()
      requires Valid()
      modifies this
      ensures Valid()
      ensures logos == Selection.UnselectAll(old(logos), search.logoId)
      ensures search == old(search) && isLoading == old(isLoading)
      ensures referenceLogo == old(referenceLogo) && additionalLogos == old(additionalLogos)
    {
      logos := Selection.UnselectAll(logos, search.logoId);
    }

    /** `selectedIds`. */
    function SelectedIds(): (ids: seq<int>)
      reads this
      ensures forall x :: x in ids <==> exists i :: 0 <= i < |logos| && logos[i].selected && logos[i].logo.id == x
    {
      Selection.SelectedIds(logos)
    }

    /** Whether the "unselect all" button is disabled: at most one id is selected, and it
        is the reference. */
    predicate UnselectAllDisabled(): (r: bool)
      reads this
      ensures r <==> |SelectedIds()| <= 1 && forall x :: x in SelectedIds() ==> search.logoId == Some(x)
    {
      Selection.UnselectAllDisabled(SelectedIds(), search.logoId)
    }

    /** With unique ids and the reference locked, "unselect all" is disabled exactly when
        pressing it would leave the logos as they are. */
    lemma UnselectAllDisabledWhenNothingToReset()
      requires UniqueIds(logos) && Selection.ReferenceLocked(logos, search.logoId)
      ensures UnselectAllDisabled() <==> Selection.UnselectAll(logos, search.logoId) == logos
    {
      Selection.UnselectAllDisabledIffNoop(logos, search.logoId);
    }

    /** Whether the "load more" button is disabled: while loading, or when one more press
        would pass the ceiling. */
    predicate LoadMoreDisabled(): (r: bool)
      reads this
      ensures r <==> isLoading || additionalLogos > MaxAdditional - LoadMoreStep
    {
      isLoading || NextAdditional(additionalLogos, LoadMoreStep).None?
    }

    /** When the counter comes from `presses` presses of "load more", the button is
        disabled exactly while loading or from the tenth press on. */
    lemma LoadMoreDisabledAfterPresses(presses: nat)
      requires additionalLogos == AdditionalAfterPresses(presses)
      ensures LoadMoreDisabled() <==> isLoading || presses >= 10
    {
      PressesReachCeiling(presses);
    }

    /** The annotation form's submit: the batch for the selected ids is dispatched and,
        unless dispatching fails, the selection is reset to the reference logo. Data that
        is null or undefined dispatches nothing and still resets the selection.
        `annotationAccepted` is the outcome of the annotation service's call. */
    method Submit(data: Option<Annotations.AnnotationForm>, annotationAccepted: bool)
        returns (batch: Option<seq<Annotations.Annotation>>, succeeded: bool)
      requires Valid()
      modifies this
      ensures Valid()
      ensures batch == Annotations.RequestBatch(Selection.SelectedIds(old(logos)), data)
      ensures succeeded <==> data.None? || annotationAccepted
      ensures logos == if succeeded then Selection.UnselectAll(old(logos), search.logoId) else old(logos)
      ensures search == old(search) && isLoading == old(isLoading)
      ensures referenceLogo == old(referenceLogo) && additionalLogos == old(additionalLogos)
    {
      batch := Annotations.RequestBatch(SelectedIds(), data);
      succeeded := batch.None? || annotationAccepted;
      if succeeded {
        logos := Selection.UnselectAll(logos, search.logoId);
      }
    }
  }
}
