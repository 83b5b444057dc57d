/**
 * Columbia (`_clean_columbia`): style, description, size and colour are the
 * first four `/` fields of the item name; the colour code is the second `-`
 * field of the colour; the item code is turned into text and its prefix gives
 * the gender. The routine looks up its reference table but never reads it.
 */
module Columbia {
  import opened Wrappers
  import opened Text
  import opened Frame
  import opened Rules

  /** The labels the routine adds, in the order it first assigns them. */
  const Added: seq<string> := ["u_estilo", "u_descripcion", "U_Talla", "u_descrip_color", "u_cod_color", "u_genero"]

  /** `fillna('').astype(str)` on a text cell: a null becomes the empty text. */
  function BlankIfNull(c: Cell): (r: Cell)
    ensures r.Some?
    ensures c.Some? ==> r == c
    ensures c.None? ==> r == Some("")
  {
    Some(if c.None? then "" else c.value)
  }

  /** One output row against its input row. */
  predicate CleanedRow(row: Row, o: Row) {
    var name := Get(row, "ItemName");
    var color := BlankIfNull(Field(name, '/', 3));
    var code := AsStr(Get(row, "ItemCode"));
    (forall x :: x in row && x !in Added && x != "ItemCode" ==> Get(o, x) == row[x]) &&
    Get(o, "u_estilo") == Field(name, '/', 0) &&
    Get(o, "u_descripcion") == Field(name, '/', 1) &&
    Get(o, "U_Talla") == Field(name, '/', 2) &&
    Get(o, "u_descrip_color") == color &&
    Get(o, "u_cod_color") == Field(color, '-', 1) &&
    Get(o, "ItemCode") == Some(code) &&
    Get(o, "u_genero") == Some(ClGender(code))
  }

  /** The whole output: the input's labels, then the added ones it lacked; one row per input row. */
  predicate Cleaned(t: Table, out: Table) {
    WellFormed(out) &&
    out.columns == t.columns + Without(Added, ColumnSet(t.columns)) &&
    |out.rows| == |t.rows| &&
    forall k :: 0 <= k < |t.rows| ==> CleanedRow(t.rows[k], out.rows[k])
  }

  method Clean(t: Table) returns (out: Table)
    requires WellFormed(t)
    requires "ItemName" in t.columns && "ItemCode" in t.columns
    ensures Cleaned(t, out)
  {
    LabelsDiffer();
    // The item name is never overwritten, so each column is a function of the input's cells.
    var styles := FieldColumn(t, "ItemName", '/', 0);
    var descriptions := FieldColumn(t, "ItemName", '/', 1);
    var sizes := FieldColumn(t, "ItemName", '/', 2);
    var colors := ColorColumn(t);
    var colorCodes := ColorCodeColumn(colors);
    var codes := CodeColumn(t);
    var genders := GenderColumn(codes);
    var d1 := SetColumn(t, "u_estilo", styles);
    var d2 := SetColumn(d1, "u_descripcion", descriptions);
    var d3 := SetColumn(d2, "U_Talla", sizes);
    var d4 := SetColumn(d3, "u_descrip_color", colors);
    var d5 := SetColumn(d4, "u_cod_color", colorCodes);
    var d6 := SetColumn(d5, "ItemCode", codes);
    out := SetColumn(d6, "u_genero", genders);
    Columns(t.columns, d1.columns, d2.columns, d3.columns, d4.columns, d5.columns, d6.columns, out.columns);
    forall k | 0 <= k < |t.rows| ensures CleanedRow(t.rows[k], out.rows[k]) {
      assert out.rows[k] == t.rows[k]["u_estilo" := styles[k]]["u_descripcion" := descriptions[k]]["U_Talla" := sizes[k]]
                                     ["u_descrip_color" := colors[k]]["u_cod_color" := colorCodes[k]]["ItemCode" := codes[k]]
                                     ["u_genero" := genders[k]];
      RowCleaned(t.rows[k], styles[k], descriptions[k], sizes[k], colors[k], colorCodes[k], codes[k], genders[k]);
    }
  }

  /** The colour field, with a null made empty text. */
  function ColorColumn(t: Table): (vals: seq<Cell>)
    ensures |vals| == |t.rows|
    ensures forall k :: 0 <= k < |t.rows| ==> vals[k] == BlankIfNull(Field(Get(t.rows[k], "ItemName"), '/', 3))
  {
    seq(|t.rows|, k requires 0 <= k < |t.rows| => BlankIfNull(Field(Get(t.rows[k], "ItemName"), '/', 3)))
  }

  /** The second `-` field of each colour. */
  function ColorCodeColumn(colors: seq<Cell>): (vals: seq<Cell>)
    ensures |vals| == |colors|
    ensures forall k :: 0 <= k < |colors| ==> vals[k] == Field(colors[k], '-', 1)
  {
    seq(|colors|, k requires 0 <= k < |colors| => Field(colors[k], '-', 1))
  }

  /** `ItemCode.astype(str)`. */
  function CodeColumn(t: Table): (vals: seq<Cell>)
    ensures |vals| == |t.rows|
    ensures forall k :: 0 <= k < |t.rows| ==> vals[k] == Some(AsStr(Get(t.rows[k], "ItemCode")))
  {
    seq(|t.rows|, k requires 0 <= k < |t.rows| => Some(AsStr(Get(t.rows[k], "ItemCode"))))
  }

  /** The np.select over the prefixes of each item code. */
  function GenderColumn(codes: seq<Cell>): (vals: seq<Cell>)
    ensures |vals| == |codes|
    ensures forall k :: 0 <= k < |codes| ==> vals[k] == Some(ClGender(AsStr(codes[k])))
  {
    seq(|codes|, k requires 0 <= k < |codes| => Some(ClGender(AsStr(codes[k]))))
  }

  /** The labels after the seven assignments. */
  lemma Columns(cs: seq<string>, c1: seq<string>, c2: seq<string>, c3: seq<string>, c4: seq<string>,
                c5: seq<string>, c6: seq<string>, c7: seq<string>)
    requires "ItemCode" in cs
    requires c1 == AddLabel(cs, "u_estilo") && c2 == AddLabel(c1, "u_descripcion") && c3 == AddLabel(c2, "U_Talla")
    requires c4 == AddLabel(c3, "u_descrip_color") && c5 == AddLabel(c4, "u_cod_color")
    requires c6 == AddLabel(c5, "ItemCode") && c7 == AddLabel(c6, "u_genero")
    ensures c7 == cs + Without(Added, ColumnSet(cs))
  {
    AddedPrefixes();
    assert Without([], ColumnSet(cs)) == [];
    AssignAppends(cs, Added[..0], Added[0], cs + []);
    AssignAppends(cs, Added[..1], Added[1], c1);
    AssignAppends(cs, Added[..2], Added[2], c2);
    AssignAppends(cs, Added[..3], Added[3], c3);
    AssignAppends(cs, Added[..4], Added[4], c4);
    assert "ItemCode" in c5;
    AssignAppends(cs, Added[..5], Added[5], c6);
  }

  lemma AddedPrefixes()
    ensures Added[..0] == [] && Added[..5] + [Added[5]] == Added
    ensures forall i :: 0 <= i < 5 ==> Added[..i] + [Added[i]] == Added[..i + 1]
    ensures forall i :: 0 <= i < 6 ==> Added[i] !in Added[..i]
    ensures Added[0] == "u_estilo" && Added[1] == "u_descripcion" && Added[2] == "U_Talla" &&
            Added[3] == "u_descrip_color" && Added[4] == "u_cod_color" && Added[5] == "u_genero"
  {
    LabelsDiffer();
  }

  /** One row after the seven assignments, given the values each of them writes. */
  lemma RowCleaned(row: Row, style: Cell, description: Cell, size: Cell, color: Cell, colorCode: Cell, code: Cell, gender: Cell)
    requires var name := Get(row, "ItemName");
             style == Field(name, '/', 0) && description == Field(name, '/', 1) && size == Field(name, '/', 2) &&
             color == BlankIfNull(Field(name, '/', 3)) && colorCode == Field(color, '-', 1) &&
             code == Some(AsStr(Get(row, "ItemCode"))) && gender == Some(ClGender(AsStr(code)))
    ensures CleanedRow(row, row["u_estilo" := style]["u_descripcion" := description]["U_Talla" := size]
                               ["u_descrip_color" := color]["u_cod_color" := colorCode]["ItemCode" := code]
                               ["u_genero" := gender])
  {
    LabelsDiffer();
  }

  /** The labels the routine writes are pairwise different. */
  lemma LabelsDiffer()
    ensures "ItemCode" != "u_estilo" && "ItemCode" != "u_descripcion" && "ItemCode" != "U_Talla" &&
            "ItemCode" != "u_descrip_color" && "ItemCode" != "u_cod_color" && "ItemCode" != "u_genero"
    ensures "u_estilo" != "u_descripcion" && "u_estilo" != "U_Talla" && "u_estilo" != "u_descrip_color" &&
            "u_estilo" != "u_cod_color" && "u_estilo" != "u_genero"
    ensures "u_descripcion" != "U_Talla" && "u_descripcion" != "u_descrip_color" &&
            "u_descripcion" != "u_cod_color" && "u_descripcion" != "u_genero"
    ensures "U_Talla" != "u_descrip_color" && "U_Talla" != "u_cod_color" && "U_Talla" != "u_genero"
    ensures "u_descrip_color" != "u_cod_color" && "u_descrip_color" != "u_genero"
    ensures "u_cod_color" != "u_genero"
  {
  }
}
