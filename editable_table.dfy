/**
 * The transaction grid: the list of rows it holds, and the four handlers that
 * replace that list — append a blank row, delete by id, update one field of the
 * rows with an id, and replace everything with an imported list.
 *
 * Each new list is computed by a pure function (`Without`, `UpdateWhere`, and
 * plain concatenation); the `Table` class holds the list and its methods assign
 * the new list, as the component's state setter does.
 */
module EditableTable {
  import opened Wrappers
  import opened Text
  import opened Transactions
  import DataImport

  /** The one row the grid starts with. */
  function InitialRow(): (r: Row)
    ensures r.id == "1" && HasKnownCodes(r)
    ensures r.importe == 5000.0 && r.iva == 0.0
  {
    Row(
      id := "1",
      cuentaCargo := "4152313712345678",
      importe := 5000.0,
      nombreRazonSocialDestinatario := "Juan Pérez García",
      cuentaDestinatario := "4152313787654321",
      divisa := "MXN",
      referenciaNumerica := "20240001",
      alias := "Nomina Enero",
      conceptoReferencia := "Pago de nómina enero 2024",
      iva := 0.0,
      rfcDestinatario := "PEGJ850101ABC",
      tipo := "Transferencia")
  }

  /** The value a freshly added row holds in a field other than its id. */
  function BlankValue(f: Field): Value {
    if f.IsNumeric() then Number(0.0)
    else if f == Divisa then Text(DefaultCurrency)
    else if f == Tipo then Text(DefaultTransactionType)
    else Text("")
  }

  /** The row `addRow` appends: the given id, empty text, zero amounts, `MXN` and `Transferencia`. */
  function BlankRow(id: string): (r: Row)
    ensures Get(r, Id) == Text(id)
    ensures forall f | f != Id :: Get(r, f) == BlankValue(f)
    ensures HasKnownCodes(r)
  {
    Row(id, "", 0.0, "", "", DefaultCurrency, "", "", "", 0.0, "", DefaultTransactionType)
  }

  // ---------------------------------------------------------------------------
  // Deleting by id
  // ---------------------------------------------------------------------------

  /** `rows.filter(row => row.id !== id)`. */
  function Without(rows: seq<Row>, id: string): (r: seq<Row>)
    ensures |r| <= |rows|
    ensures forall x :: x in r <==> x in rows && x.id != id
  {
    if rows == [] then []
    else (if rows[0].id == id then [] else [rows[0]]) + Without(rows[1..], id)
  }

  /** Deleting from a concatenation deletes from each part and keeps them in order. */
  lemma {:induction false} WithoutAppend(a: seq<Row>, b: seq<Row>, id: string)
    ensures Without(a + b, id) == Without(a, id) + Without(b, id)
  {
    if a == [] {
      assert a + b == b;
    } else {
      assert (a + b)[1..] == a[1..] + b;
      WithoutAppend(a[1..], b, id);
    }
  }

  /** A single row is dropped exactly when its id is the one deleted. */
  lemma WithoutSingle(x: Row, id: string)
    ensures Without([x], id) == if x.id == id then [] else [x]
  {
    assert [x][1..] == [];
  }

  /** No row carries the id: deleting it leaves the list as it was. */
  lemma {:induction false} WithoutAbsent(rows: seq<Row>, id: string)
    requires forall k | 0 <= k < |rows| :: rows[k].id != id
    ensures Without(rows, id) == rows
  {
    if rows != [] {
      WithoutAbsent(rows[1..], id);
      assert [rows[0]] + rows[1..] == rows;
    }
  }

  /** Deleting the same id twice is deleting it once. */
  lemma WithoutIdempotent(rows: seq<Row>, id: string)
    ensures Without(Without(rows, id), id) == Without(rows, id)
  {
    var once := Without(rows, id);
    assert forall k | 0 <= k < |once| :: once[k] in once;
    WithoutAbsent(once, id);
  }

  /** Deleting two ids gives the same list in either order. */
  lemma {:induction false} WithoutCommutes(rows: seq<Row>, a: string, b: string)
    ensures Without(Without(rows, a), b) == Without(Without(rows, b), a)
  {
    if rows != [] {
      var x, rest := rows[0], rows[1..];
      var xa := if x.id == a then [] else [x];
      var xb := if x.id == b then [] else [x];
      WithoutCommutes(rest, a, b);
      WithoutAppend(xa, Without(rest, a), b);
      WithoutAppend(xb, Without(rest, b), a);
      WithoutSingle(x, a);
      WithoutSingle(x, b);
      assert Without([], a) == [] && Without([], b) == [];
    }
  }

  // ---------------------------------------------------------------------------
  // Updating one field
  // ---------------------------------------------------------------------------

  /** `rows.map(row => row.id === id ? { ...row, [field]: value } : row)`. */
  function UpdateWhere(rows: seq<Row>, id: string, f: Field, v: Value): (r: seq<Row>)
    requires Fits(f, v)
    ensures |r| == |rows|
    ensures forall k | 0 <= k < |rows| && rows[k].id != id :: r[k] == rows[k]
    ensures forall k | 0 <= k < |rows| && rows[k].id == id :: Get(r[k], f) == v
  {
    seq(|rows|, k requires 0 <= k < |rows| => if rows[k].id == id then Set(rows[k], f, v) else rows[k])
  }

  /** Only the field `f` of the rows carrying the id changes; every other cell keeps its value. */
  lemma UpdateWhereCells(rows: seq<Row>, id: string, f: Field, v: Value, k: int, g: Field)
    requires Fits(f, v) && 0 <= k < |rows|
    ensures Get(UpdateWhere(rows, id, f, v)[k], g) ==
      if rows[k].id == id && g == f then v else Get(rows[k], g)
  {
  }

  /** No row carries the id: the update leaves the list as it was. */
  lemma UpdateWhereAbsent(rows: seq<Row>, id: string, f: Field, v: Value)
    requires Fits(f, v)
    requires forall k | 0 <= k < |rows| :: rows[k].id != id
    ensures UpdateWhere(rows, id, f, v) == rows
  {
  }

  /** Writing the same value again changes nothing. */
  lemma UpdateWhereIdempotent(rows: seq<Row>, id: string, f: Field, v: Value)
    requires Fits(f, v)
    ensures UpdateWhere(UpdateWhere(rows, id, f, v), id, f, v) == UpdateWhere(rows, id, f, v)
  {
    var once := UpdateWhere(rows, id, f, v);
    var twice := UpdateWhere(once, id, f, v);
    forall k | 0 <= k < |rows| ensures twice[k] == once[k] {
      if f == Id {
        // the rows that matched may now carry another id
        if rows[k].id == id && once[k].id == id {
          RowsEqualByFields(twice[k], once[k]);
        }
      } else if once[k].id == id {
        RowsEqualByFields(twice[k], once[k]);
      }
    }
  }

  /** Updating a field other than the id keeps every row's id, so the same rows stay selected. */
  lemma UpdateWhereKeepsIds(rows: seq<Row>, id: string, f: Field, v: Value)
    requires Fits(f, v) && f != Id
    ensures forall k | 0 <= k < |rows| :: UpdateWhere(rows, id, f, v)[k].id == rows[k].id
  {
    forall k | 0 <= k < |rows| ensures UpdateWhere(rows, id, f, v)[k].id == rows[k].id {
      UpdateWhereCells(rows, id, f, v, k, Id);
    }
  }

  // ---------------------------------------------------------------------------
  // Known currency and type codes
  // ---------------------------------------------------------------------------

  predicate AllKnownCodes(rows: seq<Row>) {
    forall k | 0 <= k < |rows| :: HasKnownCodes(rows[k])
  }

  /** A value the grid's drop-downs offer for the field, or any value of a free-text or numeric field. */
  predicate Offered(f: Field, v: Value) {
    Fits(f, v)
    && (f == Divisa ==> v.text in Currencies)
    && (f == Tipo ==> v.text in TransactionTypes)
  }

  /** Deleting rows keeps every remaining row's codes known. */
  lemma WithoutKeepsKnownCodes(rows: seq<Row>, id: string)
    requires AllKnownCodes(rows)
    ensures AllKnownCodes(Without(rows, id))
  {
    var r := Without(rows, id);
    forall k | 0 <= k < |r| ensures HasKnownCodes(r[k]) {
      assert r[k] in r;
    }
  }

  /** An update with a value the drop-downs offer keeps every row's codes known. */
  lemma UpdateWhereKeepsKnownCodes(rows: seq<Row>, id: string, f: Field, v: Value)
    requires AllKnownCodes(rows) && Offered(f, v)
    ensures AllKnownCodes(UpdateWhere(rows, id, f, v))
  {
    var r := UpdateWhere(rows, id, f, v);
    forall k | 0 <= k < |rows| ensures HasKnownCodes(r[k]) {
      UpdateWhereCells(rows, id, f, v, k, Divisa);
      UpdateWhereCells(rows, id, f, v, k, Tipo);
    }
  }

  /** A currency typed as free text can leave the vocabulary: `updateRow` does not check it. */
  lemma UpdateWhereAcceptsUnknownCurrency(rows: seq<Row>, id: string)
    requires |rows| > 0 && rows[0].id == id
    ensures !AllKnownCodes(UpdateWhere(rows, id, Divisa, Text("XYZ")))
  {
    UpdateWhereCells(rows, id, Divisa, Text("XYZ"), 0, Divisa);
  }

  // ---------------------------------------------------------------------------
  // The grid's state and its handlers
  // ---------------------------------------------------------------------------

  class Table {
    /** The `rows` state of the grid. */
    var rows: seq<Row>

    /** The grid starts with its one sample row. */
    constructor()
      ensures rows == [InitialRow()]
    {
      rows := [InitialRow()];
    }

    /** `addRow`: append one blank row whose id is the clock reading `now` in decimal. */
    method AddRow(now: nat)
      modifies this
      ensures rows == old(rows) + [BlankRow(NatToString(now))]
    {
      rows := rows + [BlankRow(NatToString(now))];
    }

    /** `deleteRow`: keep exactly the rows whose id differs, in their order. */
    method DeleteRow(id: string)
      modifies this
      ensures rows == Without(old(rows), id)
    {
      rows := Without(rows, id);
    }

    /** `updateRow`: set one field of every row carrying the id. */
    method UpdateRow(id: string, f: Field, v: Value)
      requires Fits(f, v)
      modifies this
      ensures rows == UpdateWhere(old(rows), id, f, v)
    {
      rows := UpdateWhere(rows, id, f, v);
    }

    /** The `importe` and `iva` editors: store the parsed number, or 0 when the input does not parse. */
    method EditAmount(id: string, f: Field, input: string, parseFloat: string -> Option<real>)
      requires f.IsNumeric()
      modifies this
      ensures rows == UpdateWhere(old(rows), id, f, Number(OrZero(parseFloat(input))))
      ensures parseFloat(input).None? ==>
        forall k | 0 <= k < |rows| && old(rows)[k].id == id :: Get(rows[k], f) == Number(0.0)
    {
      UpdateRow(id, f, Number(OrZero(parseFloat(input))));
    }

    /** `handleImportRows`: the imported list replaces the whole list. */
    method HandleImportRows(imported: seq<Row>)
      modifies this
      ensures rows == imported
    {
      rows := imported;
    }

    /**
     * A file's text is parsed; on success the parsed rows replace the list and their
     * number is reported, on failure the list is left as it was and the error reported.
     */
    method ImportText(text: string, clock: nat -> nat, parseFloat: string -> Option<real>)
        returns (outcome: Result<nat, DataImport.ImportError>)
      modifies this
      ensures var parsed := DataImport.ParseLines(DataImport.Lines(text), clock, parseFloat);
        match parsed
        case Success(imported) => rows == imported && outcome == Success(|imported|)
        case Failure(e) => rows == old(rows) && outcome == Failure(e)
    {
      var parsed := DataImport.ParseRows(text, clock, parseFloat);
      match parsed
      case Success(imported) =>
        HandleImportRows(imported);
        outcome := Success(|imported|);
      case Failure(e) =>
        outcome := Failure(e);
    }
  }

  /** Appending a blank row keeps the codes of the grid known. */
  lemma AddRowKeepsKnownCodes(rows: seq<Row>, now: nat)
    requires AllKnownCodes(rows)
    ensures AllKnownCodes(rows + [BlankRow(NatToString(now))])
  {
  }

  /** The list right after a successful import has known codes. */
  lemma ImportedRowsHaveKnownCodes(text: string, clock: nat -> nat, parseFloat: string -> Option<real>)
    requires DataImport.ParseLines(DataImport.Lines(text), clock, parseFloat).Success?
    ensures AllKnownCodes(DataImport.ParseLines(DataImport.Lines(text), clock, parseFloat).value)
  {
    DataImport.ParseLinesKnownCodes(DataImport.Lines(text), clock, parseFloat);
  }
}
