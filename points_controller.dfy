/**
 * The collection-point registry: the discovery query (`index`), the lookup of
 * one point (`show`) and the transactional creation of a point with its
 * category links (`create`), over the three tables of `Tables`.
 */
module PointsController {
  import opened CategoryParsing
  import opened Tables
  import opened PointCategoryMigration

  // ---------------------------------------------------------------------------
  // Request and response shapes
  // ---------------------------------------------------------------------------

  /** A query-string parameter as the HTTP layer hands it over. */
  datatype QueryValue = Absent | Text(text: string) | List(items: seq<string>)

  /** `String(undefined)`. */
  const Undefined: string := "undefined"

  /** `String(value)`: an absent parameter reads "undefined", a repeated one is
      its values joined with commas. */
  function QueryString(q: QueryValue): string
  {
    match q
    case Absent => Undefined
    case Text(t) => t
    case List(items) => Join(items)
  }

  /** A point as the controller answers it: every stored column plus `image_url`. */
  datatype PointView = PointView(point: PointRow, imageUrl: string)

  function ViewOf(p: PointRow): PointView
  {
    PointView(p, ImageUrl(p.image))
  }

  predicate NoDuplicates<T(==)>(s: seq<T>)
  {
    forall i, j :: 0 <= i < j < |s| ==> s[i] != s[j]
  }

  // ---------------------------------------------------------------------------
  // index: points JOIN point_category WHERE category_id IN (...) AND city AND uf, DISTINCT
  // ---------------------------------------------------------------------------

  /** Some association row links point `pointId` to one of the requested categories. */
  predicate LinkedToAny(links: seq<PointCategoryRow>, ids: seq<Num>, pointId: int)
  {
    exists k :: 0 <= k < |links| && links[k].pointId == pointId && Int(links[k].categoryId) in ids
  }

  /** What the discovery query asks of a point: stored, in exactly that city and
      UF, and linked to at least one of the requested categories. */
  predicate Selected(points: seq<PointRow>, links: seq<PointCategoryRow>, ids: seq<Num>,
                     city: string, uf: string, p: PointRow)
  {
    p in points && p.city == city && p.uf == uf && LinkedToAny(links, ids, p.id)
  }

  /** The joined rows contributed by one association row. */
  function JoinOne(points: seq<PointRow>, l: PointCategoryRow, ids: seq<Num>, city: string, uf: string)
    : (rows: seq<PointRow>)
    ensures forall p :: p in rows <==>
              p in points && p.id == l.pointId && Int(l.categoryId) in ids && p.city == city && p.uf == uf
  {
    if points == [] then []
    else
      var rest := JoinOne(points[1..], l, ids, city, uf);
      var p := points[0];
      if p.id == l.pointId && Int(l.categoryId) in ids && p.city == city && p.uf == uf
      then [p] + rest
      else rest
  }

  /** The join before DISTINCT: one copy of a point per qualifying association row. */
  function JoinRows(points: seq<PointRow>, links: seq<PointCategoryRow>, ids: seq<Num>, city: string, uf: string)
    : (rows: seq<PointRow>)
    ensures forall p :: p in rows <==> Selected(points, links, ids, city, uf, p)
  {
    if links == [] then []
    else
      var rows := JoinOne(points, links[0], ids, city, uf) + JoinRows(points, links[1..], ids, city, uf);
      assert forall id: int :: LinkedToAny(links, ids, id) ==>
               (links[0].pointId == id && Int(links[0].categoryId) in ids) || LinkedToAny(links[1..], ids, id);
      assert forall id: int :: LinkedToAny(links[1..], ids, id) ==> LinkedToAny(links, ids, id);
      rows
  }

  /** DISTINCT: the first copy of each row, in order. */
  function Distinct<T(==, !new)>(s: seq<T>): (r: seq<T>)
    ensures forall x :: x in r <==> x in s
    ensures NoDuplicates(r)
  {
    if s == [] then []
    else
      var r := Distinct(s[..|s| - 1]);
      assert forall x :: x in s <==> x in s[..|s| - 1] || x == s[|s| - 1];
      if s[|s| - 1] in r then r else r + [s[|s| - 1]]
  }

  /** `PointsController.index`. */
  function Index(points: seq<PointRow>, links: seq<PointCategoryRow>,
                 city: QueryValue, uf: QueryValue, categories: QueryValue): seq<PointView>
  {
    var ids := ParseCategories(QueryString(categories));
    var rows := Distinct(JoinRows(points, links, ids, QueryString(city), QueryString(uf)));
    seq(|rows|, i requires 0 <= i < |rows| => ViewOf(rows[i]))
  }

  /** A point is listed exactly when it matches city and UF verbatim and one of
      its links names a requested category; it is listed with every stored
      column unchanged and its `image_url`. */
  lemma IndexSelects(points: seq<PointRow>, links: seq<PointCategoryRow>,
                     city: QueryValue, uf: QueryValue, categories: QueryValue)
    ensures forall v :: v in Index(points, links, city, uf, categories) <==>
              && v == ViewOf(v.point)
              && Selected(points, links, ParseCategories(QueryString(categories)),
                          QueryString(city), QueryString(uf), v.point)
  {
    var ids := ParseCategories(QueryString(categories));
    var rows := Distinct(JoinRows(points, links, ids, QueryString(city), QueryString(uf)));
    var r := Index(points, links, city, uf, categories);
    forall v ensures v in r <==> v == ViewOf(v.point) && v.point in rows {
      if v in r {
        var i :| 0 <= i < |r| && r[i] == v;
        assert v.point == rows[i];
      }
      if v == ViewOf(v.point) && v.point in rows {
        var i :| 0 <= i < |rows| && rows[i] == v.point;
        assert r[i] == v;
      }
    }
  }

  /** No point is listed twice, even when it matches through several categories;
      with a unique `points.id`, no id is listed twice either. */
  lemma IndexListsEachPointOnce(points: seq<PointRow>, links: seq<PointCategoryRow>,
                                city: QueryValue, uf: QueryValue, categories: QueryValue)
    requires PointIdsUnique(points)
    ensures var r := Index(points, links, city, uf, categories);
            forall i, j :: 0 <= i < j < |r| ==> r[i].point.id != r[j].point.id
  {
    var ids := ParseCategories(QueryString(categories));
    var rows := Distinct(JoinRows(points, links, ids, QueryString(city), QueryString(uf)));
    var r := Index(points, links, city, uf, categories);
    forall i, j | 0 <= i < j < |r| ensures r[i].point.id != r[j].point.id {
      assert rows[i] != rows[j];
      assert rows[i] in rows && rows[j] in rows;
      assert Selected(points, links, ids, QueryString(city), QueryString(uf), rows[i]);
      assert Selected(points, links, ids, QueryString(city), QueryString(uf), rows[j]);
      var a :| 0 <= a < |points| && points[a] == rows[i];
      var b :| 0 <= b < |points| && points[b] == rows[j];
      assert a != b;
    }
  }

  /** Without DISTINCT the join would repeat a point that matches through two
      requested categories; the query lists it once. */
  lemma IndexNeedsDistinct(p: PointRow, links: seq<PointCategoryRow>, categories: string)
    requires p.city == "Recife" && p.uf == "PE"
    requires links == [PointCategoryRow(1, p.id, 1), PointCategoryRow(2, p.id, 2)]
    requires categories == "1,2"
    ensures JoinRows([p], links, ParseCategories(categories), p.city, p.uf) == [p, p]
    ensures Index([p], links, Text(p.city), Text(p.uf), Text(categories)) == [ViewOf(p)]
  {
    ParseOneTwo(categories);
    var ids := ParseCategories(categories);
    JoinTwice(p, links, ids);
    assert [p][..0] == [];
    assert Distinct([p]) == [p];
    assert [p, p][..1] == [p];
    assert Distinct([p, p]) == [p];
  }

  /** The two-link example: the join holds the point twice. */
  lemma JoinTwice(p: PointRow, links: seq<PointCategoryRow>, ids: seq<Num>)
    requires links == [PointCategoryRow(1, p.id, 1), PointCategoryRow(2, p.id, 2)]
    requires Int(1) in ids && Int(2) in ids
    ensures JoinRows([p], links, ids, p.city, p.uf) == [p, p]
  {
    assert JoinOne([p], links[0], ids, p.city, p.uf) == [p];
    assert JoinOne([p], links[1], ids, p.city, p.uf) == [p];
    assert links[1..][1..] == [];
    assert JoinRows([p], links[1..], ids, p.city, p.uf) == [p];
  }

  /** The association rows that link `pointId` to a requested category. */
  function MatchCount(links: seq<PointCategoryRow>, ids: seq<Num>, pointId: int): nat
  {
    if links == [] then 0
    else (if links[0].pointId == pointId && Int(links[0].categoryId) in ids then 1 else 0)
         + MatchCount(links[1..], ids, pointId)
  }

  /** One association row contributes each stored copy of a matching point once. */
  lemma {:induction false} JoinOneCount(points: seq<PointRow>, l: PointCategoryRow, ids: seq<Num>,
                                        city: string, uf: string, p: PointRow)
    requires p.city == city && p.uf == uf
    ensures multiset(JoinOne(points, l, ids, city, uf))[p] ==
            if l.pointId == p.id && Int(l.categoryId) in ids then multiset(points)[p] else 0
  {
    if points != [] {
      JoinOneCount(points[1..], l, ids, city, uf, p);
      assert points == [points[0]] + points[1..];
      assert multiset(points) == multiset([points[0]]) + multiset(points[1..]);
    }
  }

  /** Before DISTINCT, a point stored once and in the requested city and UF
      appears once per association row that links it to a requested category. */
  lemma {:induction false} JoinRowsCount(points: seq<PointRow>, links: seq<PointCategoryRow>, ids: seq<Num>,
                                         city: string, uf: string, p: PointRow)
    requires p.city == city && p.uf == uf && multiset(points)[p] == 1
    ensures multiset(JoinRows(points, links, ids, city, uf))[p] == MatchCount(links, ids, p.id)
  {
    if links != [] {
      JoinOneCount(points, links[0], ids, city, uf, p);
      JoinRowsCount(points, links[1..], ids, city, uf, p);
      var one := JoinOne(points, links[0], ids, city, uf);
      var rest := JoinRows(points, links[1..], ids, city, uf);
      assert multiset(one + rest) == multiset(one) + multiset(rest);
    }
  }

  /** With a unique `points.id` a stored point is stored once. */
  lemma {:induction false} StoredOnce(points: seq<PointRow>, p: PointRow)
    requires PointIdsUnique(points) && p in points
    ensures multiset(points)[p] == 1
  {
    assert points == [points[0]] + points[1..];
    assert multiset(points) == multiset([points[0]]) + multiset(points[1..]);
    assert PointIdsUnique(points[1..]) by {
      forall i, j | 0 <= i < j < |points[1..]| ensures points[1..][i].id != points[1..][j].id {
        assert points[1..][i] == points[i + 1] && points[1..][j] == points[j + 1];
      }
    }
    if points[0] == p {
      forall i | 0 <= i < |points[1..]| ensures points[1..][i] != p {
        assert points[1..][i] == points[i + 1];
      }
      assert p !in points[1..];
    } else {
      assert p in points[1..];
      StoredOnce(points[1..], p);
    }
  }

  /** With a unique `points.id`, the join holds a qualifying stored point exactly
      once per association row that links it to a requested category. */
  lemma JoinCopies(points: seq<PointRow>, links: seq<PointCategoryRow>, ids: seq<Num>,
                   city: string, uf: string, p: PointRow)
    requires PointIdsUnique(points) && p in points
    requires p.city == city && p.uf == uf
    ensures multiset(JoinRows(points, links, ids, city, uf))[p] == MatchCount(links, ids, p.id)
  {
    StoredOnce(points, p);
    JoinRowsCount(points, links, ids, city, uf, p);
  }

  /** When no association row names a requested category, nothing is listed. */
  lemma IndexNoMatchingCategory(points: seq<PointRow>, links: seq<PointCategoryRow>,
                                city: QueryValue, uf: QueryValue, categories: QueryValue)
    requires forall k :: 0 <= k < |links| ==> Int(links[k].categoryId) !in ParseCategories(QueryString(categories))
    ensures Index(points, links, city, uf, categories) == []
  {
    IndexSelects(points, links, city, uf, categories);
    var r := Index(points, links, city, uf, categories);
    assert forall v :: v !in r;
    NoMemberMeansEmpty(r);
  }

  lemma NoMemberMeansEmpty<T>(s: seq<T>)
    requires forall x :: x !in s
    ensures s == []
  {
    if s != [] {
      FirstIsMember(s);
      assert false;
    }
  }

  lemma FirstIsMember<T>(s: seq<T>)
    requires s != []
    ensures s[0] in s
  {
  }

  /** An empty `categories` parameter parses to the id 0 (`Number("")`), so it
      lists nothing unless some point is linked to a category with id 0. */
  lemma IndexEmptyCategories(points: seq<PointRow>, links: seq<PointCategoryRow>,
                             city: QueryValue, uf: QueryValue, categories: QueryValue)
    requires categories == Text("")
    requires forall k :: 0 <= k < |links| ==> links[k].categoryId != 0
    ensures Index(points, links, city, uf, categories) == []
  {
    ParseEmpty();
    IndexNoMatchingCategory(points, links, city, uf, categories);
  }

  /** A missing `categories` parameter reads "undefined", which is not a number:
      nothing is listed. */
  lemma IndexMissingCategories(points: seq<PointRow>, links: seq<PointCategoryRow>,
                               city: QueryValue, uf: QueryValue, categories: QueryValue)
    requires categories == Absent
    ensures Index(points, links, city, uf, categories) == []
  {
    ParseUndefined();
    IndexNoMatchingCategory(points, links, city, uf, categories);
  }

  lemma ParseUndefined()
    ensures ParseCategories(Undefined) == [NotInteger(Undefined)]
  {
    var u := Undefined;
    assert u[0] == 'u' && u[|u| - 1] == 'd';
    assert ',' !in u;
    ParseWord(u);
  }

  /** A repeated `categories` parameter (`?categories=1&categories=2`) is read as
      its values joined with commas: each value is one token. */
  lemma RepeatedCategoriesParameter(items: seq<string>)
    requires |items| >= 1
    requires forall i :: 0 <= i < |items| ==> ',' !in items[i]
    ensures ParseCategories(QueryString(List(items))) ==
            seq(|items|, i requires 0 <= i < |items| => ToNumber(Trim(items[i])))
  {
    ParseJoined(items);
  }

  // ---------------------------------------------------------------------------
  // show: one point and the titles of its categories
  // ---------------------------------------------------------------------------

  datatype ShowResult =
    | Found(point: PointView, categories: seq<string>)
      /** The response sent when no row has the id: HTTP status and message. */
    | NotFound(status: int, message: string)

  /** `.where('id', id).first()`: the first row with that id. */
  function FindPoint(points: seq<PointRow>, id: int): (r: Option<PointRow>)
    ensures r.None? <==> id !in PointIds(points)
    ensures r.Some? ==> r.value in points && r.value.id == id
  {
    if points == [] then None
    else
      assert PointIds(points) == {points[0].id} + PointIds(points[1..]) by {
        forall x | x in PointIds(points) ensures x in {points[0].id} + PointIds(points[1..]) {
          var i :| 0 <= i < |points| && points[i].id == x;
          if i > 0 { assert points[1..][i - 1].id == x; }
        }
        forall x | x in PointIds(points[1..]) ensures x in PointIds(points) {
          var i :| 0 <= i < |points[1..]| && points[1..][i].id == x;
          assert points[i + 1].id == x;
        }
      }
      if points[0].id == id then Some(points[0]) else FindPoint(points[1..], id)
  }

  /** The titles of the catalogue rows with id `categoryId`. */
  function TitlesWithId(categories: seq<CategoryRow>, categoryId: int): (r: seq<string>)
    ensures forall t :: t in r <==> exists c :: c in categories && c.id == categoryId && c.title == t
  {
    if categories == [] then []
    else
      var rest := TitlesWithId(categories[1..], categoryId);
      assert forall c :: c in categories <==> c == categories[0] || c in categories[1..];
      if categories[0].id == categoryId then [categories[0].title] + rest else rest
  }

  /** categories JOIN point_category WHERE point_id = id, SELECT title: one title
      per association row of the point. */
  function TitlesFor(categories: seq<CategoryRow>, links: seq<PointCategoryRow>, pointId: int): (r: seq<string>)
    ensures forall t :: t in r <==>
              exists k, c :: 0 <= k < |links| && links[k].pointId == pointId
                             && c in categories && c.id == links[k].categoryId && c.title == t
  {
    if links == [] then []
    else
      var here := if links[0].pointId == pointId then TitlesWithId(categories, links[0].categoryId) else [];
      var rest := TitlesFor(categories, links[1..], pointId);
      assert forall t :: t in rest ==>
               exists k, c :: 0 <= k < |links| && links[k].pointId == pointId
                              && c in categories && c.id == links[k].categoryId && c.title == t by {
        forall t | t in rest
          ensures exists k, c :: 0 <= k < |links| && links[k].pointId == pointId
                                 && c in categories && c.id == links[k].categoryId && c.title == t
        {
          var k, c :| 0 <= k < |links[1..]| && links[1..][k].pointId == pointId
                      && c in categories && c.id == links[1..][k].categoryId && c.title == t;
          assert links[k + 1] == links[1..][k];
        }
      }
      assert forall k, c ::
               (0 <= k < |links| && links[k].pointId == pointId && c in categories && c.id == links[k].categoryId)
               ==> c.title in here + rest by {
        forall k, c | 0 <= k < |links| && links[k].pointId == pointId
                      && c in categories && c.id == links[k].categoryId
          ensures c.title in here + rest
        {
          if k > 0 { assert links[1..][k - 1] == links[k]; }
        }
      }
      here + rest
  }

  /** `PointsController.show`. */
  function Show(points: seq<PointRow>, categories: seq<CategoryRow>, links: seq<PointCategoryRow>, id: int)
    : ShowResult
  {
    match FindPoint(points, id)
    case None => NotFound(400, "Point not found!")
    case Some(p) => Found(ViewOf(p), TitlesFor(categories, links, id))
  }

  /** An unknown id is answered with status 400 and 'Point not found!'; a known
      one with that stored point, its `image_url`, and exactly the titles of the
      categories its association rows name. */
  lemma ShowAnswers(points: seq<PointRow>, categories: seq<CategoryRow>, links: seq<PointCategoryRow>, id: int)
    ensures var r := Show(points, categories, links, id);
            && (r.NotFound? <==> id !in PointIds(points))
            && (r.NotFound? ==> r.status == 400 && r.message == "Point not found!")
            && (r.Found? ==>
                  && r.point == ViewOf(r.point.point)
                  && r.point.point in points && r.point.point.id == id
                  && forall t :: t in r.categories <==>
                       exists k, c :: 0 <= k < |links| && links[k].pointId == id
                                      && c in categories && c.id == links[k].categoryId && c.title == t)
  {
  }

  function LinkCount(links: seq<PointCategoryRow>, pointId: int): nat
  {
    if links == [] then 0
    else (if links[0].pointId == pointId then 1 else 0) + LinkCount(links[1..], pointId)
  }

  /** With a unique catalogue key, a category id names exactly one title. */
  lemma {:induction false} TitlesWithIdUnique(categories: seq<CategoryRow>, categoryId: int)
    requires CategoriesValid(categories)
    requires categoryId in CategoryIds(categories)
    ensures |TitlesWithId(categories, categoryId)| == 1
  {
    var i :| 0 <= i < |categories| && categories[i].id == categoryId;
    if categories[0].id == categoryId {
      TitlesWithIdAbsent(categories[1..], categoryId);
    } else {
      assert categories[1..][i - 1].id == categoryId;
      TitlesWithIdUnique(categories[1..], categoryId);
    }
  }

  lemma {:induction false} TitlesWithIdAbsent(categories: seq<CategoryRow>, categoryId: int)
    requires forall i :: 0 <= i < |categories| ==> categories[i].id != categoryId
    ensures TitlesWithId(categories, categoryId) == []
  {
    if categories != [] {
      TitlesWithIdAbsent(categories[1..], categoryId);
    }
  }

  /** Under the store invariant `show` lists one title per association row of the point. */
  lemma {:induction false} ShowTitleCount(points: seq<PointRow>, categories: seq<CategoryRow>,
                                          links: seq<PointCategoryRow>, id: int)
    requires CategoriesValid(categories) && LinksValid(links, points, categories)
    ensures |TitlesFor(categories, links, id)| == LinkCount(links, id)
  {
    if links != [] {
      assert LinksValid(links[1..], points, categories) by {
        forall i, j | 0 <= i < j < |links[1..]| ensures links[1..][i].id != links[1..][j].id {
          assert links[1..][i] == links[i + 1] && links[1..][j] == links[j + 1];
        }
      }
      ShowTitleCount(points, categories, links[1..], id);
      if links[0].pointId == id {
        TitlesWithIdUnique(categories, links[0].categoryId);
      }
    }
  }

  // ---------------------------------------------------------------------------
  // create: insert the point and one association row per parsed category id
  // ---------------------------------------------------------------------------

  /** The multipart form fields `create` reads from the request body. */
  datatype PointForm = PointForm(
    name: string,
    email: string,
    whatsapp: string,
    latitude: real,
    longitude: real,
    city: string,
    uf: string,
    categories: string)

  /** `Created` carries the response body `{ id: point_id, ...point }`; `Rejected`
      names the parsed category that the `point_category` insert refuses, after
      which the transaction is never committed and no response is composed. */
  datatype CreateOutcome = Created(point: PointRow) | Rejected(token: Num)

  /** The row `trx('points').insert(point)` stores, with the id it is given. */
  function NewPoint(id: int, filename: string, form: PointForm): PointRow
  {
    PointRow(id, filename, form.name, form.email, form.whatsapp,
             form.latitude, form.longitude, form.city, form.uf)
  }

  /** Every parsed token names a category: the `category_id` foreign key
      accepts every association row built from them. */
  predicate AllKnown(categories: seq<CategoryRow>, ids: seq<Num>)
  {
    forall k :: 0 <= k < |ids| ==> ids[k].Int? && ids[k].value in CategoryIds(categories)
  }

  /** The first parsed token that names no category, if any. */
  function FirstUnknown(categories: seq<CategoryRow>, ids: seq<Num>): (r: Option<Num>)
    ensures r.None? <==> AllKnown(categories, ids)
    ensures r.Some? ==> r.value in ids && !AllKnown(categories, [r.value])
  {
    if ids == [] then None
    else if !AllKnown(categories, [ids[0]]) then Some(ids[0])
    else
      var rest := FirstUnknown(categories, ids[1..]);
      assert [ids[0]][0] == ids[0];
      assert forall k :: 1 <= k < |ids| ==> ids[k] == ids[1..][k - 1];
      rest
  }

  /** The association rows `{ category_id, point_id }`, one per parsed id and in
      that order, with the auto-incremented ids they receive. */
  function NewLinks(firstId: int, pointId: int, ids: seq<Num>): seq<PointCategoryRow>
    requires forall k :: 0 <= k < |ids| ==> ids[k].Int?
  {
    seq(|ids|, k requires 0 <= k < |ids| => PointCategoryRow(firstId + k, pointId, ids[k].value))
  }

  /** The invariant of the three tables together with their id counters. */
  predicate StoreInvariant(points: seq<PointRow>, categories: seq<CategoryRow>, links: seq<PointCategoryRow>,
                           nextPointId: int, nextLinkId: int)
  {
    && PointsValid(points, nextPointId)
    && CategoriesValid(categories)
    && LinksValid(links, points, categories)
    && (forall i :: 0 <= i < |links| ==> links[i].id < nextLinkId)
  }

  /** A committed `create` keeps the store invariant: the new point takes a fresh
      id, and every new association row refers to it and to a known category. */
  lemma CreatePreservesInvariant(points: seq<PointRow>, categories: seq<CategoryRow>, links: seq<PointCategoryRow>,
                                 nextPointId: int, nextLinkId: int, row: PointRow, ids: seq<Num>)
    requires StoreInvariant(points, categories, links, nextPointId, nextLinkId)
    requires row.id == nextPointId
    requires AllKnown(categories, ids)
    ensures StoreInvariant(points + [row], categories, links + NewLinks(nextLinkId, row.id, ids),
                           nextPointId + 1, nextLinkId + |ids|)
  {
    var points', links' := points + [row], links + NewLinks(nextLinkId, row.id, ids);
    assert PointIds(points') == PointIds(points) + {row.id} by {
      forall x | x in PointIds(points') ensures x in PointIds(points) + {row.id} {
        var i :| 0 <= i < |points'| && points'[i].id == x;
        if i < |points| { assert points[i] == points'[i]; }
      }
      forall x | x in PointIds(points) ensures x in PointIds(points') {
        var i :| 0 <= i < |points| && points[i].id == x;
        assert points'[i] == points[i];
      }
      assert points'[|points|] == row;
    }
    forall i | 0 <= i < |links'|
      ensures links'[i].pointId in PointIds(points') && links'[i].categoryId in CategoryIds(categories)
    {
      if i >= |links| {
        assert ids[i - |links|].value in CategoryIds(categories);
      }
    }
  }

  /** Rows for distinct points: appending a row whose id no earlier row has
      leaves the lookup of every other id as it was and finds the new row by its id. */
  lemma {:induction false} FindPointAppend(points: seq<PointRow>, row: PointRow, id: int)
    requires row.id !in PointIds(points)
    ensures FindPoint(points + [row], id) == if id == row.id then Some(row) else FindPoint(points, id)
  {
    if points == [] {
      assert [row][1..] == [];
    } else {
      assert (points + [row])[1..] == points[1..] + [row];
      assert row.id !in PointIds(points[1..]) by {
        forall i | 0 <= i < |points[1..]| ensures points[1..][i].id != row.id {
          assert points[1..][i] == points[i + 1];
          assert points[i + 1].id in PointIds(points);
        }
      }
      if points[0].id != id {
        FindPointAppend(points[1..], row, id);
      } else {
        assert points[0].id in PointIds(points);
      }
    }
  }

  lemma {:induction false} TitlesForAppend(categories: seq<CategoryRow>, a: seq<PointCategoryRow>,
                                           b: seq<PointCategoryRow>, pointId: int)
    ensures TitlesFor(categories, a + b, pointId) == TitlesFor(categories, a, pointId) + TitlesFor(categories, b, pointId)
  {
    if a != [] {
      assert (a + b)[1..] == a[1..] + b;
      TitlesForAppend(categories, a[1..], b, pointId);
    } else {
      assert a + b == b;
    }
  }

  lemma {:induction false} TitlesForNone(categories: seq<CategoryRow>, links: seq<PointCategoryRow>, pointId: int)
    requires forall i :: 0 <= i < |links| ==> links[i].pointId != pointId
    ensures TitlesFor(categories, links, pointId) == []
  {
    if links != [] {
      TitlesForNone(categories, links[1..], pointId);
    }
  }

  /** The titles of the rows `create` links: one per parsed id, in order, each
      the title of the category with that id. */
  lemma {:induction false} TitlesOfNewLinks(categories: seq<CategoryRow>, firstId: int, pointId: int, ids: seq<Num>)
    requires CategoriesValid(categories)
    requires AllKnown(categories, ids)
    ensures var titles := TitlesFor(categories, NewLinks(firstId, pointId, ids), pointId);
            && |titles| == |ids|
            && forall k :: 0 <= k < |ids| ==> [titles[k]] == TitlesWithId(categories, ids[k].value)
    decreases ids
  {
    if ids != [] {
      var links := NewLinks(firstId, pointId, ids);
      assert links[1..] == NewLinks(firstId + 1, pointId, ids[1..]);
      TitlesOfNewLinks(categories, firstId + 1, pointId, ids[1..]);
      TitlesWithIdUnique(categories, ids[0].value);
      var here := TitlesWithId(categories, ids[0].value);
      var rest := TitlesFor(categories, links[1..], pointId);
      assert TitlesFor(categories, links, pointId) == here + rest;
      forall k | 0 <= k < |ids| ensures [(here + rest)[k]] == TitlesWithId(categories, ids[k].value) {
        if k == 0 {
          assert here == [here[0]];
        } else {
          assert ids[1..][k - 1] == ids[k];
        }
      }
    }
  }

  /** `show` right after a committed `create` answers the new point and exactly
      the titles of the parsed category ids, one each and in order. */
  lemma ShowAfterCreate(points: seq<PointRow>, categories: seq<CategoryRow>, links: seq<PointCategoryRow>,
                        nextPointId: int, nextLinkId: int, row: PointRow, ids: seq<Num>)
    requires StoreInvariant(points, categories, links, nextPointId, nextLinkId)
    requires row.id == nextPointId
    requires AllKnown(categories, ids)
    ensures var r := Show(points + [row], categories, links + NewLinks(nextLinkId, row.id, ids), row.id);
            && r.Found? && r.point == ViewOf(row)
            && |r.categories| == |ids|
            && forall k :: 0 <= k < |ids| ==> [r.categories[k]] == TitlesWithId(categories, ids[k].value)
  {
    NewIdIsFresh(points, nextPointId);
    FindPointAppend(points, row, row.id);
    TitlesForAppend(categories, links, NewLinks(nextLinkId, row.id, ids), row.id);
    OldLinksOfOldPoints(points, categories, links, nextPointId, nextLinkId);
    TitlesForNone(categories, links, row.id);
    TitlesOfNewLinks(categories, nextLinkId, row.id, ids);
    assert [] + TitlesFor(categories, NewLinks(nextLinkId, row.id, ids), row.id)
        == TitlesFor(categories, NewLinks(nextLinkId, row.id, ids), row.id);
  }

  /** `show` of any other id answers after a committed `create` what it answered before. */
  lemma ShowOthersUnchanged(points: seq<PointRow>, categories: seq<CategoryRow>, links: seq<PointCategoryRow>,
                            nextPointId: int, nextLinkId: int, row: PointRow, ids: seq<Num>, id: int)
    requires StoreInvariant(points, categories, links, nextPointId, nextLinkId)
    requires row.id == nextPointId && id != row.id
    requires AllKnown(categories, ids)
    ensures Show(points + [row], categories, links + NewLinks(nextLinkId, row.id, ids), id)
         == Show(points, categories, links, id)
  {
    NewIdIsFresh(points, nextPointId);
    FindPointAppend(points, row, id);
    var added := NewLinks(nextLinkId, row.id, ids);
    TitlesForAppend(categories, links, added, id);
    TitlesForNone(categories, added, id);
    assert TitlesFor(categories, links, id) + [] == TitlesFor(categories, links, id);
  }

  lemma NewIdIsFresh(points: seq<PointRow>, nextPointId: int)
    requires PointsValid(points, nextPointId)
    ensures nextPointId !in PointIds(points)
  {
    assert forall i :: 0 <= i < |points| ==> points[i].id != nextPointId;
  }

  lemma OldLinksOfOldPoints(points: seq<PointRow>, categories: seq<CategoryRow>, links: seq<PointCategoryRow>,
                            nextPointId: int, nextLinkId: int)
    requires StoreInvariant(points, categories, links, nextPointId, nextLinkId)
    ensures forall i :: 0 <= i < |links| ==> links[i].pointId < nextPointId
  {
    forall i | 0 <= i < |links| ensures links[i].pointId < nextPointId {
      var j :| 0 <= j < |points| && points[j].id == links[i].pointId;
    }
  }

  /** The association rows `create` adds match a query exactly when one of the
      parsed ids is requested. */
  lemma LinkedAfterCreate(links: seq<PointCategoryRow>, firstId: int, pointId: int, ids: seq<Num>,
                          query: seq<Num>, id: int)
    requires forall k :: 0 <= k < |ids| ==> ids[k].Int?
    ensures LinkedToAny(links + NewLinks(firstId, pointId, ids), query, id) <==>
              || LinkedToAny(links, query, id)
              || (id == pointId && exists k :: 0 <= k < |ids| && ids[k] in query)
  {
    var added := NewLinks(firstId, pointId, ids);
    var all := links + added;
    if LinkedToAny(all, query, id) {
      var k :| 0 <= k < |all| && all[k].pointId == id && Int(all[k].categoryId) in query;
      if k < |links| {
        assert links[k] == all[k];
      } else {
        assert all[k] == added[k - |links|];
        assert Int(all[k].categoryId) == ids[k - |links|];
      }
    }
    if LinkedToAny(links, query, id) {
      var k :| 0 <= k < |links| && links[k].pointId == id && Int(links[k].categoryId) in query;
      assert all[k] == links[k];
    }
    if id == pointId && exists k :: 0 <= k < |ids| && ids[k] in query {
      var k :| 0 <= k < |ids| && ids[k] in query;
      assert all[|links| + k] == added[k];
      assert Int(added[k].categoryId) == ids[k];
    }
  }

  /** After a committed `create` the discovery query lists what it listed
      before, plus the new point exactly when it is in the requested city and
      UF and one of its parsed ids is requested. */
  lemma IndexAfterCreate(points: seq<PointRow>, categories: seq<CategoryRow>, links: seq<PointCategoryRow>,
                         nextPointId: int, nextLinkId: int, row: PointRow, ids: seq<Num>,
                         city: QueryValue, uf: QueryValue, query: QueryValue)
    requires StoreInvariant(points, categories, links, nextPointId, nextLinkId)
    requires row.id == nextPointId
    requires AllKnown(categories, ids)
    ensures var requested := ParseCategories(QueryString(query));
            forall v :: v in Index(points + [row], links + NewLinks(nextLinkId, row.id, ids), city, uf, query) <==>
              || v in Index(points, links, city, uf, query)
              || (&& v == ViewOf(row)
                  && row.city == QueryString(city) && row.uf == QueryString(uf)
                  && exists k :: 0 <= k < |ids| && ids[k] in requested)
  {
    var requested := ParseCategories(QueryString(query));
    var points', links' := points + [row], links + NewLinks(nextLinkId, row.id, ids);
    IndexSelects(points, links, city, uf, query);
    IndexSelects(points', links', city, uf, query);
    OldLinksOfOldPoints(points, categories, links, nextPointId, nextLinkId);
    forall p ensures Selected(points', links', requested, QueryString(city), QueryString(uf), p) <==>
                     || Selected(points, links, requested, QueryString(city), QueryString(uf), p)
                     || (&& p == row && row.city == QueryString(city) && row.uf == QueryString(uf)
                         && exists k :: 0 <= k < |ids| && ids[k] in requested)
    {
      LinkedAfterCreate(links, nextLinkId, row.id, ids, requested, p.id);
      if p in points {
        var i :| 0 <= i < |points| && points[i] == p;
        assert p.id < nextPointId;
      }
    }
  }

  /** An empty `categories` field parses to the id 0, so `create` is refused
      unless the catalogue has a category with id 0. */
  lemma CreateEmptyCategoriesRejected(categories: seq<CategoryRow>, text: string)
    requires text == ""
    requires 0 !in CategoryIds(categories)
    ensures FirstUnknown(categories, ParseCategories(text)) == Some(Int(0))
  {
    ParseEmpty();
  }

  /** The database as the controllers see it: the three tables and the next id
      each auto-incremented key hands out. */
  class Registry {
    var points: seq<PointRow>
    var categories: seq<CategoryRow>
    var pointCategory: seq<PointCategoryRow>
    var nextPointId: int
    var nextLinkId: int

    ghost predicate Valid()
      reads this
    {
      StoreInvariant(points, categories, pointCategory, nextPointId, nextLinkId)
    }

    /** `PointsController.index` on the current tables. */
    function ListPoints(city: QueryValue, uf: QueryValue, query: QueryValue): seq<PointView>
      reads this
    {
      Index(points, pointCategory, city, uf, query)
    }

    /** `PointsController.show` on the current tables. */
    function ShowPoint(id: int): ShowResult
      reads this
    {
      Show(points, categories, pointCategory, id)
    }

    /** A migrated database whose catalogue holds the seeded categories. */
    constructor(seed: seq<CategoryRow>)
      requires CategoriesValid(seed)
      ensures Valid()
      ensures points == [] && categories == seed && pointCategory == []
      ensures nextPointId == 1 && nextLinkId == 1
    {
      points := [];
      categories := seed;
      pointCategory := [];
      nextPointId := 1;
      nextLinkId := 1;
    }

    /** `PointsController.create`: parse the `categories` field, then insert the
        point and its association rows in one transaction. A committed point has
        at least one association row, and `show` finds it at once with one
        title per parsed id. */
    method Create(form: PointForm, filename: string) returns (outcome: CreateOutcome)
      requires Valid()
      modifies this
      ensures Valid()
      ensures var ids := ParseCategories(form.categories);
              && (FirstUnknown(old(categories), ids).Some? ==>
                    outcome == Rejected(FirstUnknown(old(categories), ids).value) && unchanged(this))
              && (FirstUnknown(old(categories), ids).None? ==>
                    && outcome == Created(NewPoint(old(nextPointId), filename, form))
                    && points == old(points) + [outcome.point]
                    && categories == old(categories)
                    && pointCategory == old(pointCategory) + NewLinks(old(nextLinkId), outcome.point.id, ids)
                    && nextPointId == old(nextPointId) + 1
                    && nextLinkId == old(nextLinkId) + |ids|)
      ensures outcome.Created? ==> |pointCategory| >= |old(pointCategory)| + 1
      ensures outcome.Created? ==>
                && ShowPoint(outcome.point.id).Found?
                && ShowPoint(outcome.point.id).point == ViewOf(outcome.point)
                && |ShowPoint(outcome.point.id).categories| == |ParseCategories(form.categories)|
    {
      var ids := ParseCategories(form.categories);
      outcome := Insert(NewPoint(nextPointId, filename, form), ids);
    }

    /** The transaction of `create`: stage the point, insert one association
        row per parsed id, commit. When the `point_category` insert is refused
        the transaction is never committed and the tables stay as they were. */
    method Insert(row: PointRow, ids: seq<Num>) returns (outcome: CreateOutcome)
      requires Valid()
      requires row.id == nextPointId
      modifies this
      ensures Valid()
      ensures FirstUnknown(old(categories), ids).Some? ==>
                outcome == Rejected(FirstUnknown(old(categories), ids).value) && unchanged(this)
      ensures FirstUnknown(old(categories), ids).None? ==>
                && outcome == Created(row)
                && points == old(points) + [row]
                && categories == old(categories)
                && pointCategory == old(pointCategory) + NewLinks(old(nextLinkId), row.id, ids)
                && nextPointId == old(nextPointId) + 1
                && nextLinkId == old(nextLinkId) + |ids|
      ensures outcome.Created? ==>
                && ShowPoint(row.id).Found? && ShowPoint(row.id).point == ViewOf(row)
                && |ShowPoint(row.id).categories| == |ids|
    {
      var staged := points + [row];
      var unknown := FirstUnknown(categories, ids);
      if unknown.Some? {
        return Rejected(unknown.value);
      }
      var links := NewLinks(nextLinkId, row.id, ids);
      CreatePreservesInvariant(points, categories, pointCategory, nextPointId, nextLinkId, row, ids);
      ShowAfterCreate(points, categories, pointCategory, nextPointId, nextLinkId, row, ids);
      points := staged;
      pointCategory := pointCategory + links;
      nextPointId := nextPointId + 1;
      nextLinkId := nextLinkId + |links|;
      outcome := Created(row);
    }
  }
}
