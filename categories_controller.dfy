/**
 * `CategoriesController.index`: the whole catalogue, each row with the URL of
 * its icon in place of the stored filename.
 */
module CategoriesController {
  import opened Tables

  /** One item of the response: `{ id, title, image_url }`. */
  datatype CategoryView = CategoryView(id: int, title: string, imageUrl: string)

  function ListCategories(rows: seq<CategoryRow>): seq<CategoryView>
  {
    seq(|rows|, i requires 0 <= i < |rows| => CategoryView(rows[i].id, rows[i].title, ImageUrl(rows[i].image)))
  }

  /** Every stored row is answered once, in the order the table returns them,
      with its id and title unchanged and a URL from which its stored image
      filename can be read back. */
  lemma ListCategoriesServesEveryRow(rows: seq<CategoryRow>)
    ensures |ListCategories(rows)| == |rows|
    ensures forall i :: 0 <= i < |rows| ==>
              && ListCategories(rows)[i].id == rows[i].id
              && ListCategories(rows)[i].title == rows[i].title
              && ImageOfUrl(ListCategories(rows)[i].imageUrl) == Some(rows[i].image)
  {
    forall i | 0 <= i < |rows| ensures ImageOfUrl(ListCategories(rows)[i].imageUrl) == Some(rows[i].image) {
      ImageUrlRoundTrip(rows[i].image);
    }
  }

  /** With a unique catalogue key the answered ids are distinct, and rows with
      different icons are answered with different URLs. */
  lemma ListCategoriesDistinct(rows: seq<CategoryRow>)
    requires CategoriesValid(rows)
    ensures forall i, j :: 0 <= i < j < |rows| ==> ListCategories(rows)[i].id != ListCategories(rows)[j].id
    ensures forall i, j :: 0 <= i < |rows| && 0 <= j < |rows| && rows[i].image != rows[j].image ==>
              ListCategories(rows)[i].imageUrl != ListCategories(rows)[j].imageUrl
  {
    forall i, j | 0 <= i < |rows| && 0 <= j < |rows| && rows[i].image != rows[j].image
      ensures ListCategories(rows)[i].imageUrl != ListCategories(rows)[j].imageUrl
    {
      if ImageUrl(rows[i].image) == ImageUrl(rows[j].image) {
        ImageUrlInjective(rows[i].image, rows[j].image);
      }
    }
  }
}
