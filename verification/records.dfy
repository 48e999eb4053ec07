/**
  The VI record: nine optional regulatory values per CAS number. A value is
  held as the text JavaScript's `String(v)` gives for the stored number, so no
  floating point enters the model.
 */
module Records {
  import opened Common

  /** The record, fields in declaration order. */
  datatype VIRecord = VIRecord(
    residentSoil: Option<string>,
    industrialSoil: Option<string>,
    tapWater: Option<string>,
    VRQ: Option<string>,
    VP: Option<string>,
    agricola: Option<string>,
    residencial: Option<string>,
    industrial: Option<string>,
    VI: Option<string>)

  /** The key of one value column (`keyof IVIContent`). */
  datatype Column =
    | VRQColumn | VPColumn | AgricolaColumn | ResidencialColumn | IndustrialColumn
    | VIColumn | ResidentSoilColumn | IndustrialSoilColumn | TapWaterColumn

  /** `vi[column]`. */
  function Get(r: VIRecord, c: Column): Option<string>
  {
    match c
    case VRQColumn => r.VRQ
    case VPColumn => r.VP
    case AgricolaColumn => r.agricola
    case ResidencialColumn => r.residencial
    case IndustrialColumn => r.industrial
    case VIColumn => r.VI
    case ResidentSoilColumn => r.residentSoil
    case IndustrialSoilColumn => r.industrialSoil
    case TapWaterColumn => r.tapWater
  }

  /** The record an unknown CAS number is given: every value absent. */
  const Empty: VIRecord := VIRecord(None, None, None, None, None, None, None, None, None)

  lemma EmptyHasNoValues(c: Column)
    ensures Get(Empty, c) == None
  {
  }

  /** The characters `Number.prototype.toString` uses for a finite number. */
  predicate NumeralChar(c: char)
  {
    ('0' <= c <= '9') || c == '.' || c == '-' || c == '+' || c == 'e'
  }

  /** The shape of `String(v)` for a finite number: numeral characters, at most one decimal point. */
  predicate NumberText(s: string)
  {
    && |s| > 0
    && (forall i :: 0 <= i < |s| ==> NumeralChar(s[i]))
    && (forall i, j :: 0 <= i < j < |s| && s[i] == '.' ==> s[j] != '.')
  }

  /** Every present value of the record is the rendering of a finite number. */
  predicate WellFormed(r: VIRecord)
  {
    forall c :: Get(r, c).Some? ==> NumberText(Get(r, c).value)
  }

  /** The value columns in the order the table shows them. */
  const TableColumns: seq<Column> := [
    VRQColumn, VPColumn, AgricolaColumn, ResidencialColumn, IndustrialColumn,
    VIColumn, ResidentSoilColumn, IndustrialSoilColumn, TapWaterColumn]

  /** The table shows every column exactly once. */
  lemma TableColumnsOnce(c: Column)
    ensures multiset(TableColumns)[c] == 1
  {
  }

  /**
    The name a copy confirmation uses for a column (`formattedColumnsName`):
    never empty, and free of the `'` that quotes it in the toast.
   */
  function PrettyName(c: Column): (r: string)
    ensures r != "" && '\'' !in r
  {
    match c
    case VRQColumn => "Valor de Referência de Qualidade (VRQ)"
    case VPColumn => "Valor de Prevenção (VP)"
    case AgricolaColumn => "Agrícola"
    case ResidencialColumn => "Residêncial"
    case IndustrialColumn => "Industrial"
    case VIColumn => "VI"
    case ResidentSoilColumn => "Resident Soil"
    case IndustrialSoilColumn => "Industrial Soil"
    case TapWaterColumn => "Tap Water"
  }

  /** No two columns share a pretty name. */
  lemma PrettyNameInjective(a: Column, b: Column)
    requires PrettyName(a) == PrettyName(b)
    ensures a == b
  {
  }
}
