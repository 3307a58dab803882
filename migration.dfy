/**
 * The migration that creates and drops the `point_category` association
 * table, and what its column definitions demand of the rows stored in it.
 */
module PointCategoryMigration {
  import opened Tables

  datatype ColumnKind = Increments | Integer

  datatype ForeignKey = ForeignKey(table: string, column: string)

  datatype Column = Column(
    name: string,
    kind: ColumnKind,
    primary: bool,
    notNull: bool,
    references: Option<ForeignKey>)

  /** A table definition; `uniques` lists the column groups declared unique. */
  datatype TableDef = TableDef(name: string, columns: seq<Column>, uniques: seq<seq<string>>)

  const TableName: string := "point_category"

  /** The table that `up` creates: an auto-incremented primary key and two
      non-null references. No unique constraint covers (point_id, category_id). */
  const PointCategoryTable: TableDef := TableDef(TableName, [
      Column("id", Increments, true, true, None),
      Column("point_id", Integer, false, true, Some(ForeignKey("points", "id"))),
      Column("category_id", Integer, false, true, Some(ForeignKey("categories", "id")))
    ], [])

  /** The database schema: table definitions by name. */
  type Schema = map<string, TableDef>

  datatype MigrationResult = Migrated(schema: Schema) | MigrationFailed(message: string)

  /** `up`: create the table; creating a table that already exists fails. */
  function Up(s: Schema): MigrationResult
  {
    if TableName in s then MigrationFailed("table `point_category` already exists")
    else Migrated(s[TableName := PointCategoryTable])
  }

  /** `down`: drop the whole table; dropping a missing table fails. */
  function Down(s: Schema): MigrationResult
  {
    if TableName !in s then MigrationFailed("no such table: point_category")
    else Migrated(s - {TableName})
  }

  /** `up` adds exactly the association table and leaves every other table as it was. */
  lemma UpAddsOnlyTheTable(s: Schema)
    ensures Up(s).Migrated? <==> TableName !in s
    ensures Up(s).Migrated? ==>
              && Up(s).schema.Keys == s.Keys + {TableName}
              && Up(s).schema[TableName] == PointCategoryTable
              && forall t :: t in s ==> Up(s).schema[t] == s[t]
  {
  }

  /** `down` undoes `up`. */
  lemma DownUndoesUp(s: Schema)
    requires TableName !in s
    ensures Up(s).Migrated?
    ensures Down(Up(s).schema) == Migrated(s)
  {
    var t := Up(s).schema;
    assert t - {TableName} == s;
  }

  /** `up` undoes `down` on a schema that holds this migration's table. */
  lemma UpUndoesDown(s: Schema)
    requires TableName in s && s[TableName] == PointCategoryTable
    ensures Down(s).Migrated?
    ensures Up(Down(s).schema) == Migrated(s)
  {
    var t := Down(s).schema;
    assert t[TableName := PointCategoryTable] == s;
  }

  // ---------------------------------------------------------------------------
  // What the definition asks of the rows
  // ---------------------------------------------------------------------------

  /** A stored row as column name to value; a missing column is NULL. */
  function LinkColumns(l: PointCategoryRow): map<string, int>
  {
    map["id" := l.id, "point_id" := l.pointId, "category_id" := l.categoryId]
  }

  /** The non-null and foreign-key constraints of `def` hold of `row`, given the
      keys of the referenced tables. */
  predicate RowSatisfies(def: TableDef, row: map<string, int>, keys: map<string, set<int>>)
  {
    forall c :: c in def.columns ==>
      && (c.notNull ==> c.name in row)
      && (c.references.Some? ==>
            && c.name in row
            && c.references.value.table in keys
            && row[c.name] in keys[c.references.value.table])
  }

  /** The primary-key columns of `def` hold different values in different rows. */
  predicate KeysUnique(def: TableDef, rows: seq<map<string, int>>)
  {
    forall c, i, j ::
      (c in def.columns && c.primary && 0 <= i < j < |rows| && c.name in rows[i] && c.name in rows[j])
      ==> rows[i][c.name] != rows[j][c.name]
  }

  /** The store invariant the association table carries: distinct keys, and
      every row refers to an existing point and an existing category. */
  predicate LinksValid(links: seq<PointCategoryRow>, points: seq<PointRow>, categories: seq<CategoryRow>)
  {
    && (forall i, j :: 0 <= i < j < |links| ==> links[i].id != links[j].id)
    && (forall i :: 0 <= i < |links| ==>
          links[i].pointId in PointIds(points) && links[i].categoryId in CategoryIds(categories))
  }

  function ReferencedKeys(points: seq<PointRow>, categories: seq<CategoryRow>): map<string, set<int>>
  {
    map["points" := PointIds(points), "categories" := CategoryIds(categories)]
  }

  /** The invariant is exactly what the table definition demands of its rows. */
  lemma LinksValidMeansSchemaHolds(links: seq<PointCategoryRow>, points: seq<PointRow>, categories: seq<CategoryRow>)
    ensures LinksValid(links, points, categories) <==>
              && KeysUnique(PointCategoryTable, seq(|links|, i requires 0 <= i < |links| => LinkColumns(links[i])))
              && forall i :: 0 <= i < |links| ==>
                   RowSatisfies(PointCategoryTable, LinkColumns(links[i]), ReferencedKeys(points, categories))
  {
    var rows := seq(|links|, i requires 0 <= i < |links| => LinkColumns(links[i]));
    var keys := ReferencedKeys(points, categories);
    var cols := PointCategoryTable.columns;
    var idCol, pointCol, categoryCol := cols[0], cols[1], cols[2];
    assert forall c :: c in cols ==> c == idCol || c == pointCol || c == categoryCol;
    if LinksValid(links, points, categories) {
      forall i | 0 <= i < |links|
        ensures RowSatisfies(PointCategoryTable, LinkColumns(links[i]), keys)
      {
      }
      forall c, i, j | c in cols && c.primary && 0 <= i < j < |rows|
          && c.name in rows[i] && c.name in rows[j]
        ensures rows[i][c.name] != rows[j][c.name]
      {
        assert c == idCol;
      }
    }
    if && KeysUnique(PointCategoryTable, rows)
       && forall i :: 0 <= i < |links| ==> RowSatisfies(PointCategoryTable, LinkColumns(links[i]), keys)
    {
      forall i, j | 0 <= i < j < |links| ensures links[i].id != links[j].id {
        assert idCol in cols && idCol.primary;
        assert rows[i]["id"] == links[i].id && rows[j]["id"] == links[j].id;
      }
      forall i | 0 <= i < |links|
        ensures links[i].pointId in PointIds(points) && links[i].categoryId in CategoryIds(categories)
      {
        assert RowSatisfies(PointCategoryTable, LinkColumns(links[i]), keys);
        assert pointCol in cols && categoryCol in cols;
      }
    }
  }

  /** The schema admits the same (point_id, category_id) pair twice. */
  lemma DuplicatePairsAdmitted()
    ensures var p := PointRow(1, "a.png", "", "", "", 0.0, 0.0, "", "");
            var c := CategoryRow(2, "Papel", "papel.svg");
            LinksValid([PointCategoryRow(1, 1, 2), PointCategoryRow(2, 1, 2)], [p], [c])
  {
    var p := PointRow(1, "a.png", "", "", "", 0.0, 0.0, "", "");
    var c := CategoryRow(2, "Papel", "papel.svg");
    assert [p][0].id == 1;
    assert [c][0].id == 2;
  }
}
