/**
 * The transaction record shared by the import parser and the editable grid,
 * its twelve fields, the two closed vocabularies for `divisa` and `tipo`,
 * and field-by-name access as used by the grid's cell editors.
 */
module Transactions {
  import opened Wrappers

  /** One transfer record; `importe` and `iva` are numbers, every other field is text. */
  datatype Row = Row(
    id: string,
    cuentaCargo: string,
    importe: real,
    nombreRazonSocialDestinatario: string,
    cuentaDestinatario: string,
    divisa: string,
    referenciaNumerica: string,
    alias: string,
    conceptoReferencia: string,
    iva: real,
    rfcDestinatario: string,
    tipo: string)

  /** The currencies the grid offers and the import normalises to. */
  const Currencies: seq<string> := ["MXN", "USD", "EUR", "CAD"]

  /** The transfer types the grid offers and the import accepts. */
  const TransactionTypes: seq<string> := ["Transferencia", "Pago", "Depósito", "Retiro"]

  const DefaultCurrency: string := "MXN"
  const DefaultTransactionType: string := "Transferencia"

  /** A row whose currency and type are drawn from the closed vocabularies. */
  predicate HasKnownCodes(r: Row) {
    r.divisa in Currencies && r.tipo in TransactionTypes
  }

  /**
   * JavaScript's `x || 0` applied to the result of `parseFloat`: a failed
   * parse (NaN, here `None`) and a zero both give 0, any other number is kept.
   */
  function OrZero(x: Option<real>): (r: real)
    ensures x.None? ==> r == 0.0
    ensures x.Some? ==> r == x.value
  {
    match x
    case None => 0.0
    case Some(v) => if v == 0.0 then 0.0 else v
  }

  /** The names of a row's fields (`keyof TransactionRow`). */
  datatype Field =
    | Id | CuentaCargo | Importe | NombreRazonSocialDestinatario | CuentaDestinatario
    | Divisa | ReferenciaNumerica | Alias | ConceptoReferencia | Iva | RfcDestinatario | Tipo
  {
    predicate IsNumeric() { this == Importe || this == Iva }
  }

  /** A cell value: `string | number`. */
  datatype Value = Text(text: string) | Number(number: real)

  /** A value of the kind the record type declares for the field. */
  predicate Fits(f: Field, v: Value) {
    f.IsNumeric() <==> v.Number?
  }

  /** `row[field]`. */
  function Get(r: Row, f: Field): (v: Value)
    ensures Fits(f, v)
  {
    match f
    case Id => Text(r.id)
    case CuentaCargo => Text(r.cuentaCargo)
    case Importe => Number(r.importe)
    case NombreRazonSocialDestinatario => Text(r.nombreRazonSocialDestinatario)
    case CuentaDestinatario => Text(r.cuentaDestinatario)
    case Divisa => Text(r.divisa)
    case ReferenciaNumerica => Text(r.referenciaNumerica)
    case Alias => Text(r.alias)
    case ConceptoReferencia => Text(r.conceptoReferencia)
    case Iva => Number(r.iva)
    case RfcDestinatario => Text(r.rfcDestinatario)
    case Tipo => Text(r.tipo)
  }

  /** `{ ...row, [field]: value }`: the named field takes the value, every other field is kept. */
  function Set(r: Row, f: Field, v: Value): (r': Row)
    requires Fits(f, v)
    ensures forall g :: Get(r', g) == if g == f then v else Get(r, g)
  {
    match f
    case Id => r.(id := v.text)
    case CuentaCargo => r.(cuentaCargo := v.text)
    case Importe => r.(importe := v.number)
    case NombreRazonSocialDestinatario => r.(nombreRazonSocialDestinatario := v.text)
    case CuentaDestinatario => r.(cuentaDestinatario := v.text)
    case Divisa => r.(divisa := v.text)
    case ReferenciaNumerica => r.(referenciaNumerica := v.text)
    case Alias => r.(alias := v.text)
    case ConceptoReferencia => r.(conceptoReferencia := v.text)
    case Iva => r.(iva := v.number)
    case RfcDestinatario => r.(rfcDestinatario := v.text)
    case Tipo => r.(tipo := v.text)
  }

  /** A row is determined by the values of its twelve fields. */
  lemma RowsEqualByFields(a: Row, b: Row)
    requires forall f :: Get(a, f) == Get(b, f)
    ensures a == b
  {
    assert Get(a, Id) == Get(b, Id) && Get(a, CuentaCargo) == Get(b, CuentaCargo);
    assert Get(a, Importe) == Get(b, Importe) && Get(a, Iva) == Get(b, Iva);
    assert Get(a, NombreRazonSocialDestinatario) == Get(b, NombreRazonSocialDestinatario);
    assert Get(a, CuentaDestinatario) == Get(b, CuentaDestinatario);
    assert Get(a, Divisa) == Get(b, Divisa) && Get(a, Tipo) == Get(b, Tipo);
    assert Get(a, ReferenciaNumerica) == Get(b, ReferenciaNumerica) && Get(a, Alias) == Get(b, Alias);
    assert Get(a, ConceptoReferencia) == Get(b, ConceptoReferencia);
    assert Get(a, RfcDestinatario) == Get(b, RfcDestinatario);
  }
}
