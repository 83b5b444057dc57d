/**
 * The cleaner itself (`DataCleaner`): it holds the upper-cased brand code and
 * the reference tables by collection name, finds each brand's reference table
 * by its display name, checks the mandatory columns and hands the table to
 * the brand's routine.
 */
module Cleaner {
  import opened Wrappers
  import opened Text
  import opened Frame
  import opened Brands
  import ColeHaan
  import Columbia
  import Skechers
  import NewEra
  import Fabletics
  import PsychoBunny
  import Generic

  /** A configured cleaner: the brand code as given to the constructor, upper-cased, and the named reference tables in their order. */
  datatype DataCleaner = DataCleaner(brand: string, references: seq<(string, Table)>)

  /** The constructor: the code is upper-cased, the reference tables kept as given. */
  function New(brand: string, references: seq<(string, Table)>): (c: DataCleaner)
    ensures |c.brand| == |brand| && forall i :: 0 <= i < |c.brand| ==> !IsAsciiLower(c.brand[i])
    ensures forall i :: 0 <= i < |brand| && !IsAsciiLower(brand[i]) ==> c.brand[i] == brand[i]
    ensures c.references == references
  {
    DataCleaner(Upper(brand), references)
  }

  /** Configuring with an already upper-cased code changes nothing about the code. */
  lemma NewIdempotent(brand: string, references: seq<(string, Table)>)
    ensures New(New(brand, references).brand, references) == New(brand, references)
  {
    UpperIdempotent(brand);
  }

  /** A collection serves a brand when its lower-cased name contains the brand's lower-cased display name. */
  predicate Serves(collection: string, b: Brand) {
    Contains(Lower(collection), Lower(DisplayName(b)))
  }

  /** The specification of the lookup: the first serving collection's table, or an empty table. */
  function ReferenceFor(references: seq<(string, Table)>, b: Brand): Table
    decreases |references|
  {
    if |references| == 0 then EmptyTable
    else if Serves(references[0].0, b) then references[0].1
    else ReferenceFor(references[1..], b)
  }

  /** The lookup finds the least serving index, and an empty table when nothing serves. */
  lemma {:induction false} ReferenceForFirst(references: seq<(string, Table)>, b: Brand)
    ensures (forall i :: 0 <= i < |references| ==> !Serves(references[i].0, b)) ==> ReferenceFor(references, b) == EmptyTable
    ensures forall i :: 0 <= i < |references| && Serves(references[i].0, b) &&
                        (forall j :: 0 <= j < i ==> !Serves(references[j].0, b)) ==>
                        ReferenceFor(references, b) == references[i].1
    decreases |references|
  {
    if |references| > 0 {
      ReferenceForFirst(references[1..], b);
      forall i | 0 <= i < |references| && Serves(references[i].0, b) &&
                 (forall j :: 0 <= j < i ==> !Serves(references[j].0, b))
        ensures ReferenceFor(references, b) == references[i].1
      {
        if i > 0 {
          assert !Serves(references[0].0, b);
          forall j | 0 <= j < i - 1 ensures !Serves(references[1..][j].0, b) {
            assert references[1..][j] == references[j + 1];
          }
          assert references[1..][i - 1] == references[i];
        }
      }
      if forall i :: 0 <= i < |references| ==> !Serves(references[i].0, b) {
        forall i | 0 <= i < |references| - 1 ensures !Serves(references[1..][i].0, b) {
          assert references[1..][i] == references[i + 1];
        }
      }
    }
  }

  /** A lookup only ever returns one of the given tables or the empty one. */
  lemma {:induction false} ReferenceForGiven(references: seq<(string, Table)>, b: Brand)
    ensures ReferenceFor(references, b) == EmptyTable ||
            exists i :: 0 <= i < |references| && ReferenceFor(references, b) == references[i].1
    decreases |references|
  {
    if |references| > 0 && !Serves(references[0].0, b) {
      ReferenceForGiven(references[1..], b);
      if ReferenceFor(references[1..], b) != EmptyTable {
        var i :| 0 <= i < |references[1..]| && ReferenceFor(references[1..], b) == references[1..][i].1;
        assert references[1..][i] == references[i + 1];
      }
    } else if |references| > 0 {
      assert ReferenceFor(references, b) == references[0].1;
    }
  }

  /** `_get_reference_dataframe`: the tables in order, the first serving one. */
  method GetReference(c: DataCleaner, b: Brand) returns (t: Table)
    ensures t == ReferenceFor(c.references, b)
  {
    var name := Lower(DisplayName(b));
    var i := 0;
    while i < |c.references|
      invariant 0 <= i <= |c.references|
      invariant ReferenceFor(c.references[i..], b) == ReferenceFor(c.references, b)
    {
      assert c.references[i..][1..] == c.references[i + 1..];
      if Contains(Lower(c.references[i].0), name) {
        return c.references[i].1;
      }
      i := i + 1;
    }
    return EmptyTable;
  }

  /** What each brand's routine guarantees for an input that has the mandatory columns: its whole contract, errors included. */
  ghost predicate Outcome(b: Brand, t: Table, reference: Table, r: Result<Table, CleanError>) {
    match b
    case CH =>
      (IsEmpty(reference) ==> r == Ok(t)) &&
      (!IsEmpty(reference) ==> (r.Err? <==> ColeHaan.HasNullName(t) || "U_Estilo" !in reference.columns)) &&
      (!IsEmpty(reference) && ColeHaan.HasNullName(t) ==> r == Err(NonBooleanCondition)) &&
      (!IsEmpty(reference) && !ColeHaan.HasNullName(t) && "U_Estilo" !in reference.columns ==>
         r == Err(KeyError(["U_Estilo"]))) &&
      (!IsEmpty(reference) && r.Ok? ==> ColeHaan.Cleaned(t, reference, r.value))
    case CL => r.Ok? && Columbia.Cleaned(t, r.value)
    case SK =>
      (r.Ok? ==> |r.value.rows| == |t.rows|) &&
      (IsEmpty(reference) ==> r == Ok(t)) &&
      (!IsEmpty(reference) && Skechers.NoCopies(t) ==> r.Ok? && Skechers.Cleaned(t, reference, r.value))
    case NE =>
      (IsEmpty(reference) ==> r == Ok(t)) &&
      (!IsEmpty(reference) && Missing(NewEra.ToComplete, reference.columns) != [] ==>
         r == Err(KeyError(Missing(NewEra.ToComplete, reference.columns)))) &&
      (!IsEmpty(reference) && Missing(NewEra.ToComplete, reference.columns) == [] ==>
         r.Ok? && NewEra.Cleaned(t, reference, r.value))
    case FB =>
      (r.Ok? ==> |r.value.rows| == |t.rows|) &&
      (Fabletics.FirstMerge(t, reference) && "U_Estilo" !in reference.columns ==> r == Err(KeyError(["U_Estilo"]))) &&
      (!(Fabletics.FirstMerge(t, reference) && "U_Estilo" !in reference.columns) && Fabletics.NoCopies(t, reference) ==>
         var missing := Missing(Fabletics.StatColumns, Fabletics.OutputColumns(t, reference));
         (missing != [] ==> r == Err(KeyError([missing[0]]))) &&
         (missing == [] ==> r.Ok? && Fabletics.Cleaned(t, reference, r.value)))
    case PB =>
      (r.Ok? ==> |r.value.rows| == |t.rows|) &&
      (IsEmpty(reference) ==> r == Ok(t)) &&
      (!IsEmpty(reference) && "U_Descripcion" !in PsychoBunny.PartedColumns(t) ==> r == Err(KeyError(["U_Descripcion"]))) &&
      (!IsEmpty(reference) && "U_Descripcion" in PsychoBunny.PartedColumns(t) && "U_Estilo" !in reference.columns ==>
         r.Ok? && PsychoBunny.Worked(t, r.value)) &&
      (!IsEmpty(reference) && "U_Descripcion" in PsychoBunny.PartedColumns(t) && "U_Estilo" in reference.columns ==>
         ("U_Estilo" !in PsychoBunny.PartedColumns(t) ==> r == Err(KeyError(["U_Estilo"]))) &&
         ("U_Estilo" in PsychoBunny.PartedColumns(t) && PsychoBunny.NoCopies(t) ==>
            r.Ok? && PsychoBunny.Cleaned(t, reference, r.value)))
    case BI | AD =>
      (r.Ok? ==> |r.value.rows| == |t.rows|) &&
      (IsEmpty(reference) ==> r.Ok? && Generic.DerivedTable(t, r.value)) &&
      (!IsEmpty(reference) && "U_Estilo" !in reference.columns ==> r == Err(KeyError(["U_Estilo"]))) &&
      (!IsEmpty(reference) && "U_Estilo" in reference.columns && Generic.NoCopies(t) ==>
         r.Ok? && Generic.Cleaned(t, reference, r.value))
  }

  /** `clean_data`: the brand check, the mandatory columns, then the brand's routine on its reference table. */
  method CleanData(c: DataCleaner, t: Table) returns (r: Result<Table, CleanError>)
    requires WellFormed(t)
    requires forall i :: 0 <= i < |c.references| ==> WellFormed(c.references[i].1)
    ensures ParseBrand(c.brand).None? ==> r == Err(UnsupportedBrand(c.brand))
    ensures ParseBrand(c.brand).Some? && Missing(Mandatory, t.columns) != [] ==>
              r == Err(MissingColumns(Missing(Mandatory, t.columns)))
    ensures ParseBrand(c.brand).Some? && Missing(Mandatory, t.columns) == [] ==>
              Outcome(ParseBrand(c.brand).value, t, ReferenceFor(c.references, ParseBrand(c.brand).value), r)
  {
    var brand := ParseBrand(c.brand);
    if brand.None? {
      return Err(UnsupportedBrand(c.brand));
    }
    var missing := Missing(Mandatory, t.columns);
    if missing != [] {
      return Err(MissingColumns(missing));
    }
    var b := brand.value;
    assert "ItemName" in Mandatory && "ItemCode" in Mandatory && "Empresa" in Mandatory;
    var reference := GetReference(c, b);
    ReferenceForGiven(c.references, b);
    match b
    case CH => r := ColeHaan.Clean(t, reference);
    case CL => var out := Columbia.Clean(t); r := Ok(out);
    case SK => r := Skechers.Clean(t, reference);
    case NE => r := NewEra.Clean(t, reference);
    case FB => r := Fabletics.Clean(t, reference);
    case PB => r := PsychoBunny.Clean(t, reference);
    case BI => r := Generic.Clean(t, reference);
    case AD => r := Generic.Clean(t, reference);
  }
}
