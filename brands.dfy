/**
 * The brands the cleaner supports, with the configuration it builds for each
 * one: its code, its display name (used to find its reference table) and the
 * list of columns its cleaned table is meant to carry.
 */
module Brands {
  import opened Wrappers

  datatype Brand = CH | CL | SK | NE | BI | PB | AD | FB

  /** The two-letter code of a brand. */
  function Code(b: Brand): string {
    match b
    case CH => "CH"
    case CL => "CL"
    case SK => "SK"
    case NE => "NE"
    case BI => "BI"
    case PB => "PB"
    case AD => "AD"
    case FB => "FB"
  }

  /** The codes, in the order the configuration lists them. */
  const Codes: seq<string> := ["CH", "CL", "SK", "NE", "BI", "PB", "AD", "FB"]

  /** The brand a code names, if any; the lookup is exact (the caller upper-cases first). */
  function ParseBrand(s: string): (b: Option<Brand>)
    ensures b.Some? <==> s in Codes
    ensures b.Some? ==> Code(b.value) == s
  {
    if s == "CH" then Some(CH)
    else if s == "CL" then Some(CL)
    else if s == "SK" then Some(SK)
    else if s == "NE" then Some(NE)
    else if s == "BI" then Some(BI)
    else if s == "PB" then Some(PB)
    else if s == "AD" then Some(AD)
    else if s == "FB" then Some(FB)
    else None
  }

  /** Every brand is recovered from its code, and codes are distinct. */
  lemma ParseCode(b: Brand)
    ensures ParseBrand(Code(b)) == Some(b)
    ensures Code(b) in Codes
  {
  }

  /** The name the reference tables are searched for. */
  function DisplayName(b: Brand): (name: string)
    ensures |name| > 0
  {
    match b
    case CH => "Cole Haan"
    case CL => "Columbia"
    case SK => "Skechers"
    case NE => "New Era"
    case BI => "Birkenstock"
    case PB => "Psycho Bunny"
    case AD => "Adolfo"
    case FB => "Fabletics"
  }

  /** The columns every input table must have. */
  const Mandatory: seq<string> := ["ItemName", "ItemCode", "Empresa"]

  /** The column list of each brand's configuration. */
  function ConfigColumns(b: Brand): seq<string> {
    match b
    case CH => ["ItemName", "ItemCode", "Empresa", "U_Estilo", "U_Genero", "U_Categoria",
                "U_Segmento", "U_Descripcion", "U_Descrip_Color", "U_Segmentacion_SK", "U_Zone", "U_Talla"]
    case CL => ["ItemName", "ItemCode", "Empresa", "u_estilo", "u_descripcion",
                "u_descrip_color", "u_cod_color", "u_genero"]
    case SK => ["ItemName", "ItemCode", "Empresa", "createdate", "updatedate",
                "U_Estilo", "U_Genero", "U_Division", "U_Suela", "U_Temporalidad",
                "U_Segmentacion_SK", "U_Descripcion", "U_Descrip_Color", "BarCode"]
    case NE => ["ItemCode", "Empresa", "ItemName", "U_Talla", "U_Estilo", "U_Silueta",
                "U_Team", "U_Descrip_Color", "U_Segmento", "U_Liga", "U_Coleccion_NE",
                "U_Genero", "U_Descripcion", "U_Temporalidad"]
    case BI => ["ItemName", "ItemCode", "Empresa", "U_Estilo", "U_Genero", "U_Categoria"]
    case PB => ["ItemName", "ItemCode", "Empresa", "U_Estilo", "U_Prenda", "U_Subprenda",
                "U_Genero", "U_Descrip_Color", "U_Temporalidad", "U_Talla"]
    case AD => ["ItemName", "ItemCode", "Empresa", "U_Estilo", "U_Genero", "U_Categoria"]
    case FB => ["ItemName", "ItemCode", "Empresa", "U_Estilo", "U_Estilo_Color",
                "U_Descripcion", "U_Descrip_Color", "U_Talla", "U_Genero", "U_Segmento",
                "U_Prenda", "U_Subprenda", "U_Categoria"]
  }

  /** Every configuration lists the mandatory columns and its brand's style column. */
  lemma ConfigsListMandatory(b: Brand)
    ensures forall c :: c in Mandatory ==> c in ConfigColumns(b)
    ensures (if b == CL then "u_estilo" else "U_Estilo") in ConfigColumns(b)
  {
  }
}
