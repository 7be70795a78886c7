/** Values shared by the logo-annotation page: search neighbours, logo metadata,
    loaded logos and the page's selectable entries. */
module LogoTypes {

  datatype Option<+T> = None | Some(value: T)

  /** One hit of the similarity search: a logo id and its distance to the query.
      The distance is kept opaque; the page only ever compares it with 0. */
  datatype Neighbour = Neighbour(logoId: int, distance: real)

  /** The four coordinates of a logo crop inside its source image. */
  type BoundingBox = seq<real>

  /** Image metadata of one logo, as the logo-images service returns it. */
  datatype LogoMeta = LogoMeta(id: int, sourceImage: string, boundingBox: BoundingBox)

  /** A loaded logo: the metadata, the neighbour's distance and the URL of the cropped image. */
  datatype Logo = Logo(id: int, distance: real, sourceImage: string, boundingBox: BoundingBox, src: string)

  /** A logo as the page holds it, with its selection flag. */
  datatype LogoEntry = LogoEntry(logo: Logo, selected: bool)

  /** Why a load produced no logos. */
  datatype LoadError =
    | SearchFailed            // the neighbour search was rejected
    | NoFirstNeighbour        // a target is set but the search returned no neighbour to inspect
    | ImagesFailed            // the logo-images request was rejected
    | MissingMetadata(logoId: int)  // a neighbour has no image metadata

  datatype Result<+T> = Success(value: T) | Failure(error: LoadError)

  /** The two URL builders of the image services, which this model does not interpret. */
  datatype UrlBuilders = UrlBuilders(imageUrl: string -> string, croppedImageUrl: (string, BoundingBox) -> string)

  /** The ids of the entries, in list order. */
  function Ids(entries: seq<LogoEntry>): (ids: seq<int>)
    ensures |ids| == |entries|
    ensures forall i :: 0 <= i < |entries| ==> ids[i] == entries[i].logo.id
  {
    seq(|entries|, i requires 0 <= i < |entries| => entries[i].logo.id)
  }

  /** The set of ids the entries carry. */
  function IdSet(entries: seq<LogoEntry>): set<int> {
    set i | 0 <= i < |entries| :: entries[i].logo.id
  }

  /** No two entries share an id. */
  predicate UniqueIds(entries: seq<LogoEntry>) {
    forall i, j :: 0 <= i < j < |entries| ==> entries[i].logo.id != entries[j].logo.id
  }

  /** The entries carry the same logos, in the same order, whatever their selection. */
  predicate SameLogos(a: seq<LogoEntry>, b: seq<LogoEntry>) {
    |a| == |b| && forall i :: 0 <= i < |a| ==> a[i].logo == b[i].logo
  }
}
