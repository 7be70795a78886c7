/** `loadLogos`: the two-stage fetch of the logo-annotation page. The neighbour
    search and the logo-images request are not modelled; their responses are
    parameters (`None` when the request is rejected). */
module LogoLoader {
  import opened LogoTypes

  /** The self-inclusion fix-up: with a target set, the first neighbour is read, and
      when its distance is not 0 the target is put in front at distance 0. The first
      neighbour is not checked to be the target. Reading the first neighbour of an
      empty result throws. */
  function FixUp(target: Option<int>, results: seq<Neighbour>): (r: Result<seq<Neighbour>>)
    ensures r.Failure? <==> target.Some? && |results| == 0
    ensures r.Failure? ==> r.error == NoFirstNeighbour
    ensures target.Some? && |results| > 0 && results[0].distance != 0.0 ==>
              r.Success? && |r.value| == |results| + 1 &&
              r.value[0] == Neighbour(target.value, 0.0) && r.value[1..] == results
    ensures target.None? || (|results| > 0 && results[0].distance == 0.0) ==> r == Success(results)
  {
    if target.Some? then
      if |results| == 0 then Failure(NoFirstNeighbour)
      else if results[0].distance != 0.0 then Success([Neighbour(target.value, 0.0)] + results)
      else Success(results)
    else Success(results)
  }

  /** The filter against the ids already loaded. Repeats within one batch are kept. */
  function Unseen(neighbours: seq<Neighbour>, seen: set<int>): (r: seq<Neighbour>)
    ensures |r| <= |neighbours|
    ensures forall n :: n in r <==> n in neighbours && n.logoId !in seen
  {
    if |neighbours| == 0 then []
    else
      var rest := Unseen(neighbours[1..], seen);
      assert forall n :: n in neighbours <==> n == neighbours[0] || n in neighbours[1..];
      if neighbours[0].logoId in seen then rest else [neighbours[0]] + rest
  }

  /** `find` on the logo-images response: the first metadata record with the id. */
  function FindMeta(metas: seq<LogoMeta>, id: int): (r: Option<LogoMeta>)
    ensures r.Some? ==> r.value.id == id
    ensures r.Some? ==> exists k :: 0 <= k < |metas| && metas[k] == r.value && forall j :: 0 <= j < k ==> metas[j].id != id
    ensures r.None? <==> forall j :: 0 <= j < |metas| ==> metas[j].id != id
  {
    if |metas| == 0 then None
    else if metas[0].id == id then Some(metas[0])
    else
      var rest := FindMeta(metas[1..], id);
      assert rest.Some? ==> exists k :: 1 <= k < |metas| && metas[k] == rest.value &&
                              forall j :: 0 <= j < k ==> metas[j].id != id
      by {
        if rest.Some? {
          var k :| 0 <= k < |metas| - 1 && metas[1..][k] == rest.value &&
                   forall j :: 0 <= j < k ==> metas[1..][j].id != id;
          assert metas[k + 1] == rest.value;
          forall j | 0 <= j < k + 1 ensures metas[j].id != id {
            if j > 0 { assert metas[j] == metas[1..][j - 1]; }
          }
        }
      }
      rest
  }

  /** The record built for one neighbour: the metadata, the neighbour's distance and
      the cropped-image URL. */
  function MakeLogo(n: Neighbour, meta: LogoMeta, urls: UrlBuilders): (r: Logo)
    ensures r.id == meta.id && r.distance == n.distance
    ensures r.sourceImage == meta.sourceImage && r.boundingBox == meta.boundingBox
    ensures r.src == urls.croppedImageUrl(urls.imageUrl(meta.sourceImage), meta.boundingBox)
  {
    Logo(meta.id, n.distance, meta.sourceImage, meta.boundingBox,
         urls.croppedImageUrl(urls.imageUrl(meta.sourceImage), meta.boundingBox))
  }

  /** Neighbour `i` is the first one without metadata. */
  predicate FirstMissing(neighbours: seq<Neighbour>, metas: seq<LogoMeta>, i: int)
    requires 0 <= i < |neighbours|
  {
    FindMeta(metas, neighbours[i].logoId).None? &&
    forall j :: 0 <= j < i ==> FindMeta(metas, neighbours[j].logoId).Some?
  }

  /** The strict join: one record per neighbour, in order; the first neighbour without
      metadata aborts the whole join. */
  function Join(neighbours: seq<Neighbour>, metas: seq<LogoMeta>, urls: UrlBuilders): (r: Result<seq<Logo>>)
    ensures r.Success? <==> forall i :: 0 <= i < |neighbours| ==> FindMeta(metas, neighbours[i].logoId).Some?
    ensures r.Success? ==> |r.value| == |neighbours|
    ensures r.Success? ==> forall i :: 0 <= i < |neighbours| ==>
              r.value[i] == MakeLogo(neighbours[i], FindMeta(metas, neighbours[i].logoId).value, urls)
    ensures r.Failure? ==> (exists i :: 0 <= i < |neighbours| && FirstMissing(neighbours, metas, i) &&
                                        r.error == MissingMetadata(neighbours[i].logoId))
  {
    if |neighbours| == 0 then Success([])
    else match FindMeta(metas, neighbours[0].logoId)
      case None => Failure(MissingMetadata(neighbours[0].logoId))
      case Some(meta) =>
        var rest := Join(neighbours[1..], metas, urls);
        assert forall i :: 1 <= i < |neighbours| ==> neighbours[i] == neighbours[1..][i - 1];
        match rest
        case Failure(e) =>
          assert exists i :: 0 <= i < |neighbours| && FirstMissing(neighbours, metas, i) &&
                             e == MissingMetadata(neighbours[i].logoId)
          by {
            var i :| 0 <= i < |neighbours| - 1 && FirstMissing(neighbours[1..], metas, i) &&
                     e == MissingMetadata(neighbours[1..][i].logoId);
            assert neighbours[i + 1] == neighbours[1..][i];
          }
          Failure(e)
        case Success(logos) => Success([MakeLogo(neighbours[0], meta, urls)] + logos)
  }

  /** What `loadLogos` resolves to, given the two responses and the ids already loaded. */
  function Loaded(target: Option<int>, loaded: set<int>, search: Option<seq<Neighbour>>,
                  images: Option<seq<LogoMeta>>, urls: UrlBuilders): (r: Result<seq<Logo>>)
    ensures search.None? ==> r == Failure(SearchFailed)
    ensures search.Some? && FixUp(target, search.value).Failure? ==> r == Failure(NoFirstNeighbour)
    ensures search.Some? && FixUp(target, search.value).Success? && images.None? ==> r == Failure(ImagesFailed)
    ensures search.Some? && FixUp(target, search.value).Success? && images.Some? ==>
              r == Join(Unseen(FixUp(target, search.value).value, loaded), images.value, urls)
  {
    match search
    case None => Failure(SearchFailed)
    case Some(results) =>
      match FixUp(target, results)
      case Failure(e) => Failure(e)
      case Success(neighbours) =>
        match images
        case None => Failure(ImagesFailed)
        case Some(metas) => Join(Unseen(neighbours, loaded), metas, urls)
  }

  /** `loadLogos(targetLogoId, index, count, alreadyLoadedData)`. The index and the count
      only reach the neighbour search, whose response is `search`. */
  method LoadLogos(target: Option<int>, alreadyLoaded: seq<LogoEntry>, search: Option<seq<Neighbour>>,
                   images: Option<seq<LogoMeta>>, urls: UrlBuilders) returns (r: Result<seq<Logo>>)
    ensures r == Loaded(target, IdSet(alreadyLoaded), search, images, urls)
  {
    if search.None? {
      return Failure(SearchFailed);
    }
    var results := search.value;
    if target.Some? {
      if |results| == 0 {
        return Failure(NoFirstNeighbour);
      }
      if results[0].distance != 0.0 {
        results := [Neighbour(target.value, 0.0)] + results;
      }
    }
    var seenIds: set<int> := {};
    var i := 0;
    while i < |alreadyLoaded|
      invariant 0 <= i <= |alreadyLoaded|
      invariant seenIds == set j | 0 <= j < i :: alreadyLoaded[j].logo.id
    {
      seenIds := seenIds + {alreadyLoaded[i].logo.id};
      i := i + 1;
    }
    var filtered := Unseen(results, seenIds);
    if images.None? {
      return Failure(ImagesFailed);
    }
    r := Join(filtered, images.value, urls);
  }

  // ---------------------------------------------------------------------------
  // Properties of a load

  /** The filter keeps neighbour order: it distributes over concatenation. */
  lemma {:induction false} UnseenAppend(a: seq<Neighbour>, b: seq<Neighbour>, seen: set<int>)
    ensures Unseen(a + b, seen) == Unseen(a, seen) + Unseen(b, seen)
  {
    if |a| == 0 {
      assert a + b == b;
    } else {
      assert (a + b)[1..] == a[1..] + b;
      UnseenAppend(a[1..], b, seen);
    }
  }

  /** With nothing loaded yet, the filter keeps every neighbour. */
  lemma {:induction false} UnseenNothingLoaded(neighbours: seq<Neighbour>)
    ensures Unseen(neighbours, {}) == neighbours
  {
    if |neighbours| > 0 {
      UnseenNothingLoaded(neighbours[1..]);
    }
  }

  /** Neighbours without repeated ids. */
  predicate DistinctIds(neighbours: seq<Neighbour>) {
    forall i, j :: 0 <= i < j < |neighbours| ==> neighbours[i].logoId != neighbours[j].logoId
  }

  /** The filter introduces no repeats. */
  lemma {:induction false} UnseenDistinct(neighbours: seq<Neighbour>, seen: set<int>)
    requires DistinctIds(neighbours)
    ensures DistinctIds(Unseen(neighbours, seen))
  {
    if |neighbours| > 0 {
      var tail := neighbours[1..];
      assert DistinctIds(tail) by {
        forall i, j | 0 <= i < j < |tail| ensures tail[i].logoId != tail[j].logoId {
          assert tail[i] == neighbours[i + 1] && tail[j] == neighbours[j + 1];
        }
      }
      UnseenDistinct(tail, seen);
      var rest := Unseen(tail, seen);
      forall n | n in rest ensures n.logoId != neighbours[0].logoId {
        var k :| 0 <= k < |tail| && tail[k] == n;
        assert neighbours[k + 1] == n;
      }
    }
  }

  /** A successful load yields exactly the fixed-up neighbours that are not loaded yet,
      in order, each with its neighbour's id and distance and none of them already loaded. */
  lemma LoadedRecords(target: Option<int>, loaded: set<int>, results: seq<Neighbour>,
                      metas: seq<LogoMeta>, urls: UrlBuilders)
    requires Loaded(target, loaded, Some(results), Some(metas), urls).Success?
    ensures FixUp(target, results).Success?
    ensures var logos := Loaded(target, loaded, Some(results), Some(metas), urls).value;
            var wanted := Unseen(FixUp(target, results).value, loaded);
            |logos| == |wanted| &&
            forall i :: 0 <= i < |logos| ==>
              logos[i].id == wanted[i].logoId && logos[i].distance == wanted[i].distance &&
              logos[i].id !in loaded
  {
  }

  /** A neighbour without metadata aborts the whole load: there is no partial result. */
  lemma MissingMetadataAborts(target: Option<int>, loaded: set<int>, results: seq<Neighbour>,
                              metas: seq<LogoMeta>, urls: UrlBuilders, n: Neighbour)
    requires FixUp(target, results).Success?
    requires n in FixUp(target, results).value && n.logoId !in loaded
    requires forall m :: m in metas ==> m.id != n.logoId
    ensures Loaded(target, loaded, Some(results), Some(metas), urls).Failure?
  {
  }

  /** A fresh load for a target whose first neighbour is not at distance 0 begins with
      the target at distance 0 and holds one record more than the search returned. */
  lemma FreshLoadStartsWithTarget(t: int, results: seq<Neighbour>, metas: seq<LogoMeta>, urls: UrlBuilders)
    requires |results| > 0 && results[0].distance != 0.0
    requires Loaded(Some(t), {}, Some(results), Some(metas), urls).Success?
    ensures var logos := Loaded(Some(t), {}, Some(results), Some(metas), urls).value;
            |logos| == |results| + 1 && logos[0].id == t && logos[0].distance == 0.0
  {
    UnseenNothingLoaded([Neighbour(t, 0.0)] + results);
    LoadedRecords(Some(t), {}, results, metas, urls);
  }

  /** The fix-up repeats no id: it fires only for a response that does not hold the target. */
  predicate FixUpAddsNoRepeat(target: Option<int>, results: seq<Neighbour>) {
    target.Some? && |results| > 0 && results[0].distance != 0.0 ==>
      forall i :: 0 <= i < |results| ==> results[i].logoId != target.value
  }

  /** A load whose response has no repeats, and whose fix-up does not put in front a
      target the response already holds, yields logos with distinct ids. */
  lemma LoadedDistinct(target: Option<int>, loaded: set<int>, results: seq<Neighbour>,
                       metas: seq<LogoMeta>, urls: UrlBuilders)
    requires DistinctIds(results) && FixUpAddsNoRepeat(target, results)
    requires Loaded(target, loaded, Some(results), Some(metas), urls).Success?
    ensures var logos := Loaded(target, loaded, Some(results), Some(metas), urls).value;
            forall i, j :: 0 <= i < j < |logos| ==> logos[i].id != logos[j].id
  {
    LoadedRecords(target, loaded, results, metas, urls);
    var fixed := FixUp(target, results).value;
    assert DistinctIds(fixed) by {
      if fixed != results {
        forall i, j | 0 <= i < j < |fixed| ensures fixed[i].logoId != fixed[j].logoId {
          assert fixed[j] == results[j - 1];
          if i > 0 {
            assert fixed[i] == results[i - 1];
          }
        }
      }
    }
    UnseenDistinct(fixed, loaded);
  }

  /** The fix-up only inspects the first neighbour's distance, not the ids: when that
      distance is not 0 and the response already holds the target (here the target is
      itself first, at a non-zero distance), the target is put in front again and the load
      holds it twice, although the response itself has no repeat. */
  lemma TargetLoadedTwice(urls: UrlBuilders)
    ensures var results := [Neighbour(7, 0.5), Neighbour(3, 0.9)];
            var metas := [LogoMeta(7, "a.jpg", []), LogoMeta(3, "b.jpg", [])];
            var logos := Loaded(Some(7), {}, Some(results), Some(metas), urls);
            DistinctIds(results) && !FixUpAddsNoRepeat(Some(7), results) &&
            logos.Success? && |logos.value| == 3 &&
            logos.value[0].id == 7 && logos.value[1].id == 7 && logos.value[2].id == 3
  {
    var results := [Neighbour(7, 0.5), Neighbour(3, 0.9)];
    var metas := [LogoMeta(7, "a.jpg", []), LogoMeta(3, "b.jpg", [])];
    var fixed := [Neighbour(7, 0.0)] + results;
    assert FixUp(Some(7), results) == Success(fixed);
    UnseenNothingLoaded(fixed);
    assert FindMeta(metas, 7) == Some(metas[0]);
    assert FindMeta(metas, 3) == Some(metas[1]);
    assert forall i :: 0 <= i < |fixed| ==> FindMeta(metas, fixed[i].logoId).Some?;
  }
}
