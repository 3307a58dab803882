/**
 * The rows of the registry's three tables (`points`, `categories`,
 * `point_category`) and the rule that turns a stored image filename into the
 * URL under which the server publishes it.
 */
module Tables {

  datatype Option<+T> = None | Some(value: T)

  /** A row of `points`. Latitude and longitude are stored and returned, never computed on. */
  datatype PointRow = PointRow(
    id: int,
    image: string,
    name: string,
    email: string,
    whatsapp: string,
    latitude: real,
    longitude: real,
    city: string,
    uf: string)

  /** A row of `categories` (seed data, only read by the controllers). */
  datatype CategoryRow = CategoryRow(id: int, title: string, image: string)

  /** A row of `point_category`; the column types rule out NULL in both references. */
  datatype PointCategoryRow = PointCategoryRow(id: int, pointId: int, categoryId: int)

  // ---------------------------------------------------------------------------
  // Uploaded images
  // ---------------------------------------------------------------------------

  /** The fixed origin and path both controllers put in front of an image filename. */
  const UploadsPrefix: string := "http://192.168.178.21:3333/uploads/"

  function ImageUrl(image: string): string
  {
    UploadsPrefix + image
  }

  /** The filename an uploads URL points at, if it is one. */
  function ImageOfUrl(url: string): Option<string>
  {
    if |UploadsPrefix| <= |url| && url[..|UploadsPrefix|] == UploadsPrefix
    then Some(url[|UploadsPrefix|..])
    else None
  }

  /** The filename can always be read back from its URL. */
  lemma ImageUrlRoundTrip(image: string)
    ensures ImageOfUrl(ImageUrl(image)) == Some(image)
  {
    var url := ImageUrl(image);
    assert url[..|UploadsPrefix|] == UploadsPrefix;
    assert url[|UploadsPrefix|..] == image;
  }

  /** Every URL that names a filename is the URL of that filename. */
  lemma ImageOfUrlInverse(url: string, image: string)
    requires ImageOfUrl(url) == Some(image)
    ensures ImageUrl(image) == url
  {
    assert url == url[..|UploadsPrefix|] + url[|UploadsPrefix|..];
  }

  /** Different images are published under different URLs. */
  lemma ImageUrlInjective(a: string, b: string)
    requires ImageUrl(a) == ImageUrl(b)
    ensures a == b
  {
    ImageUrlRoundTrip(a);
    ImageUrlRoundTrip(b);
  }

  // ---------------------------------------------------------------------------
  // Keys
  // ---------------------------------------------------------------------------

  function PointIds(points: seq<PointRow>): set<int>
  {
    set i | 0 <= i < |points| :: points[i].id
  }

  function CategoryIds(categories: seq<CategoryRow>): set<int>
  {
    set i | 0 <= i < |categories| :: categories[i].id
  }

  predicate PointIdsUnique(points: seq<PointRow>)
  {
    forall i, j :: 0 <= i < j < |points| ==> points[i].id != points[j].id
  }

  /** `points.id` is an auto-incremented key: unique, and below the next id to hand out. */
  predicate PointsValid(points: seq<PointRow>, nextPointId: int)
  {
    && PointIdsUnique(points)
    && (forall i :: 0 <= i < |points| ==> points[i].id < nextPointId)
  }

  /** `categories.id` is the catalogue's key. */
  predicate CategoriesValid(categories: seq<CategoryRow>)
  {
    forall i, j :: 0 <= i < j < |categories| ==> categories[i].id != categories[j].id
  }
}
