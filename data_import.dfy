/**
 * The pipe-delimited transaction import: raw file text in, an ordered list of
 * normalised records out, or an error that aborts the whole import.
 */
module DataImport {
  import opened Wrappers
  import opened Text
  import opened Transactions

  /** Why an import fails; both abort the whole call and return no rows. */
  datatype ImportError =
    | NoData                          // fewer than two non-blank lines
    | MalformedLine(lineNumber: nat)  // a data line with fewer than 11 columns

  /** The number of `|`-separated columns a data line must have at least. */
  const ColumnCount: nat := 11

  predicate EndsWithCarriageReturn(l: string) {
    l != [] && l[|l| - 1] == '\r'
  }

  /** Removes the `\r` of a CRLF line ending. */
  function DropCarriageReturn(l: string): (r: string)
    ensures EndsWithCarriageReturn(l) ==> r + "\r" == l
    ensures !EndsWithCarriageReturn(l) ==> r == l
  {
    if EndsWithCarriageReturn(l) then l[..|l| - 1] else l
  }

  /**
   * `text.split(/\r?\n/)`: every `\n` ends a piece, and a `\r` just before
   * it belongs to the separator; the last piece is not followed by `\n`.
   */
  function SplitLines(text: string): (lines: seq<string>)
    ensures |lines| >= 1
    ensures forall k | 0 <= k < |lines| :: '\n' !in lines[k]
  {
    var pieces := Split(text, '\n');
    seq(|pieces|, k requires 0 <= k < |pieces| =>
      if k < |pieces| - 1 then DropCarriageReturn(pieces[k]) else pieces[k])
  }

  /** The lines joined back, each but the last followed by `\r\n` where `crlf` says so and by `\n` otherwise. */
  function JoinLines(lines: seq<string>, crlf: seq<bool>): string
    requires |lines| >= 1 && |crlf| == |lines| - 1
  {
    Join(WithCarriageReturns(lines, crlf), '\n')
  }

  function WithCarriageReturns(lines: seq<string>, crlf: seq<bool>): (pieces: seq<string>)
    requires |crlf| == |lines| - 1
    ensures |pieces| == |lines|
  {
    seq(|lines|, k requires 0 <= k < |lines| => if k < |crlf| && crlf[k] then lines[k] + "\r" else lines[k])
  }

  /** Which line breaks of the text are `\r\n` rather than a bare `\n`. */
  function LineBreaksWithCarriageReturn(text: string): (crlf: seq<bool>)
    ensures |crlf| == |SplitLines(text)| - 1
  {
    var pieces := Split(text, '\n');
    seq(|pieces| - 1, k requires 0 <= k < |pieces| - 1 => EndsWithCarriageReturn(pieces[k]))
  }

  /** Joining the lines with the line breaks the text had gives back the text. */
  lemma JoinSplitLines(text: string)
    ensures JoinLines(SplitLines(text), LineBreaksWithCarriageReturn(text)) == text
  {
    var pieces := Split(text, '\n');
    assert WithCarriageReturns(SplitLines(text), LineBreaksWithCarriageReturn(text)) == pieces;
    JoinSplit(text, '\n');
  }

  /**
   * Splitting lines joined by `\n` or `\r\n` gives back the lines, provided no line
   * holds a `\n` and no line before a bare `\n` ends with `\r` (that `\r` would
   * be taken into the line break).
   */
  lemma SplitJoinLines(lines: seq<string>, crlf: seq<bool>)
    requires |lines| >= 1 && |crlf| == |lines| - 1
    requires forall k | 0 <= k < |lines| :: '\n' !in lines[k]
    requires forall k | 0 <= k < |crlf| :: !crlf[k] ==> !EndsWithCarriageReturn(lines[k])
    ensures SplitLines(JoinLines(lines, crlf)) == lines
  {
    var pieces := WithCarriageReturns(lines, crlf);
    forall k | 0 <= k < |pieces| ensures '\n' !in pieces[k] {
      if k < |crlf| && crlf[k] {
        assert forall c | c in pieces[k] :: c in lines[k] || c == '\r';
      }
    }
    SplitJoin(pieces, '\n');
    forall k | 0 <= k < |crlf| ensures DropCarriageReturn(pieces[k]) == lines[k] {
      if crlf[k] {
        assert (lines[k] + "\r")[..|lines[k]|] == lines[k];
      }
    }
  }

  predicate IsBlank(l: string) {
    Trim(l) == []
  }

  /** `.filter(l => l.trim().length > 0)`: keeps the non-blank lines, in order. */
  function NonBlank(lines: seq<string>): (r: seq<string>)
    ensures |r| <= |lines|
    ensures forall k | 0 <= k < |r| :: !IsBlank(r[k])
    ensures forall l :: l in r <==> l in lines && !IsBlank(l)
  {
    if lines == [] then []
    else
      assert lines == [lines[0]] + lines[1..];
      (if IsBlank(lines[0]) then [] else [lines[0]]) + NonBlank(lines[1..])
  }

  /** Filtering a concatenation filters each part and keeps them in order. */
  lemma {:induction false} NonBlankAppend(a: seq<string>, b: seq<string>)
    ensures NonBlank(a + b) == NonBlank(a) + NonBlank(b)
  {
    if a == [] {
      assert a + b == b;
    } else {
      assert (a + b)[1..] == a[1..] + b;
      NonBlankAppend(a[1..], b);
    }
  }

  /** A single line is kept exactly when it is not blank. */
  lemma NonBlankSingle(l: string)
    ensures NonBlank([l]) == if IsBlank(l) then [] else [l]
  {
    assert [l][1..] == [];
  }

  /** A list without blank lines passes the filter unchanged. */
  lemma {:induction false} NonBlankUnchanged(lines: seq<string>)
    requires forall k | 0 <= k < |lines| :: !IsBlank(lines[k])
    ensures NonBlank(lines) == lines
  {
    if lines != [] {
      NonBlankUnchanged(lines[1..]);
      assert [lines[0]] + lines[1..] == lines;
    }
  }

  /** The lines `parseRows` works on: trimmed text, split into lines, blank lines dropped. */
  function Lines(text: string): (lines: seq<string>)
    ensures forall k | 0 <= k < |lines| :: !IsBlank(lines[k]) && '\n' !in lines[k]
  {
    NonBlank(SplitLines(Trim(text)))
  }

  /** `raw.split('|')` of a trimmed line. */
  function Columns(line: string): (cols: seq<string>)
    ensures |cols| >= 1
    ensures forall k | 0 <= k < |cols| :: '|' !in cols[k]
    ensures Join(cols, '|') == Trim(line)
  {
    JoinSplit(Trim(line), '|');
    Split(Trim(line), '|')
  }

  predicate HasAllColumns(line: string) {
    |Columns(line)| >= ColumnCount
  }

  /** `normalizeDivisa`: case-insensitive, `MXP` is an alias of `MXN`, anything unknown is `MXN`. */
  function NormalizeDivisa(v: string): (r: string)
    ensures r in Currencies
  {
    var up := ToUpper(Trim(v));
    if up == "MXP" then DefaultCurrency
    else if up in Currencies then up
    else DefaultCurrency
  }

  /**
   * A currency code written in any case gives that code, `MXP` in any case gives `MXN`,
   * and a value that matches none of them gives `MXN`.
   */
  lemma NormalizeDivisaMeaning(v: string)
    ensures forall c | c in Currencies :: EqualsIgnoringCase(Trim(v), c) ==> NormalizeDivisa(v) == c
    ensures EqualsIgnoringCase(Trim(v), "MXP") ==> NormalizeDivisa(v) == DefaultCurrency
    ensures (forall c | c in Currencies :: !EqualsIgnoringCase(Trim(v), c)) ==> NormalizeDivisa(v) == DefaultCurrency
  {
    ToUpperNoLower("MXN");
    ToUpperNoLower("USD");
    ToUpperNoLower("EUR");
    ToUpperNoLower("CAD");
    ToUpperNoLower("MXP");
  }

  /** Normalising a currency again changes nothing. */
  lemma NormalizeDivisaIdempotent(v: string)
    ensures NormalizeDivisa(NormalizeDivisa(v)) == NormalizeDivisa(v)
  {
    var c := NormalizeDivisa(v);
    TrimUnchanged(c);
    NormalizeDivisaMeaning(c);
    assert EqualsIgnoringCase(Trim(c), c);
  }

  /** `mxp`, `MXP`, `xyz` and the empty value give `MXN`. */
  lemma NormalizeDivisaFallbackExamples()
    ensures NormalizeDivisa("mxp") == "MXN" && NormalizeDivisa("MXP") == "MXN"
    ensures NormalizeDivisa("xyz") == "MXN" && NormalizeDivisa("") == "MXN"
  {
    TrimUnchanged("mxp");
    TrimUnchanged("MXP");
    TrimUnchanged("xyz");
    assert ToUpper("mxp") == "MXP";
    assert ToUpper("MXP") == "MXP";
    assert ToUpper("xyz") == "XYZ";
  }

  /** `usd`, `EUR` and `cad` give their upper-case code. */
  lemma NormalizeDivisaCodeExamples()
    ensures NormalizeDivisa("usd") == "USD" && NormalizeDivisa("EUR") == "EUR" && NormalizeDivisa("cad") == "CAD"
  {
    TrimUnchanged("usd");
    TrimUnchanged("EUR");
    TrimUnchanged("cad");
    assert ToUpper("usd") == "USD";
    assert ToUpper("EUR") == "EUR";
    assert ToUpper("cad") == "CAD";
  }

  /** The `tipo` column: kept when it is exactly one of the four types, `Transferencia` otherwise. */
  function NormalizeTipo(column: string): (r: string)
    ensures r in TransactionTypes
    ensures Trim(column) in TransactionTypes ==> r == Trim(column)
    ensures Trim(column) !in TransactionTypes ==> r == DefaultTransactionType
  {
    var tipo := if Trim(column) == [] then DefaultTransactionType else Trim(column);
    if tipo in TransactionTypes then tipo else DefaultTransactionType
  }

  /** `${Date.now()}-${i}` for one clock reading `now`. */
  function RowId(now: nat, i: nat): string {
    NatToString(now) + "-" + NatToString(i)
  }

  /** `cols[k] || ''`: a missing column reads as empty text. */
  function Column(cols: seq<string>, k: nat): string {
    if k < |cols| then cols[k] else ""
  }

  /** Different line numbers, or different clock readings, give different ids. */
  lemma RowIdInjective(now1: nat, i1: nat, now2: nat, i2: nat)
    requires RowId(now1, i1) == RowId(now2, i2)
    ensures now1 == now2 && i1 == i2
  {
    var s, a, b := RowId(now1, i1), NatToString(now1), NatToString(now2);
    assert s == a + "-" + NatToString(i1) == b + "-" + NatToString(i2);
    assert s[|a|] == '-' && s[|b|] == '-';
    assert forall k | 0 <= k < |a| :: s[k] == a[k];
    assert forall k | 0 <= k < |b| :: s[k] == b[k];
    assert |a| == |b|;
    assert a == s[..|a|] == b;
    NatToStringInjective(now1, now2);
    assert NatToString(i1) == s[|a| + 1..] == NatToString(i2);
    NatToStringInjective(i1, i2);
  }

  /**
   * The record built from the columns of data line `i`, by position; columns past 10
   * are unused. `clock(i)` is what `Date.now()` reads while line `i` is handled, so
   * the lines of one import may see different readings.
   */
  function MakeRow(clock: nat -> nat, i: nat, cols: seq<string>, parseFloat: string -> Option<real>): (r: Row)
    ensures HasKnownCodes(r)
  {
    Row(
      id := RowId(clock(i), i),
      cuentaCargo := Trim(Column(cols, 0)),
      importe := OrZero(parseFloat(Column(cols, 1))),
      nombreRazonSocialDestinatario := Trim(Column(cols, 2)),
      cuentaDestinatario := Trim(Column(cols, 3)),
      divisa := NormalizeDivisa(if Column(cols, 4) == [] then DefaultCurrency else Column(cols, 4)),
      referenciaNumerica := Trim(Column(cols, 5)),
      alias := Trim(Column(cols, 6)),
      conceptoReferencia := Trim(Column(cols, 7)),
      iva := OrZero(parseFloat(Column(cols, 8))),
      rfcDestinatario := Trim(Column(cols, 9)),
      tipo := NormalizeTipo(Column(cols, 10)))
  }

  /** The columns of every line, in order. */
  function ColumnTable(lines: seq<string>): (table: seq<seq<string>>)
    ensures |table| == |lines|
  {
    seq(|lines|, j requires 0 <= j < |lines| => Columns(lines[j]))
  }

  /**
   * The rows that `build` makes of lines `i..` given their columns, or the error
   * naming the first of those lines with fewer than 11 columns.
   */
  function ParseFrom(table: seq<seq<string>>, i: nat, build: (nat, seq<string>) -> Row)
    : (r: Result<seq<Row>, ImportError>)
    requires 1 <= i <= |table|
    ensures r.Success? ==> |r.value| == |table| - i
    ensures r.Failure? ==> r.error.MalformedLine? && i + 1 <= r.error.lineNumber <= |table|
    decreases |table| - i
  {
    if i == |table| then Success([])
    else if |table[i]| < ColumnCount then Failure(MalformedLine(i + 1))
    else
      match ParseFrom(table, i + 1, build)
      case Success(rest) => Success([build(i, table[i])] + rest)
      case Failure(e) => Failure(e)
  }

  /** How `parseRows` builds the record of data line `i`. */
  function RowBuilder(clock: nat -> nat, parseFloat: string -> Option<real>): (nat, seq<string>) -> Row {
    (i: nat, cols: seq<string>) => MakeRow(clock, i, cols, parseFloat)
  }

  /** The result of `parseRows` on its non-blank lines: line 0 is the header, lines 1.. are data. */
  function ParseLines(lines: seq<string>, clock: nat -> nat, parseFloat: string -> Option<real>)
    : (r: Result<seq<Row>, ImportError>)
    ensures r.Success? ==> |r.value| == |lines| - 1
    ensures r.Failure? && r.error.MalformedLine? ==> 2 <= r.error.lineNumber <= |lines|
  {
    if |lines| < 2 then Failure(NoData) else ParseFrom(ColumnTable(lines), 1, RowBuilder(clock, parseFloat))
  }

  /** The rows already pushed, in front of whatever the remaining lines give. */
  function Prepend(rows: seq<Row>, r: Result<seq<Row>, ImportError>): Result<seq<Row>, ImportError> {
    match r
    case Success(rest) => Success(rows + rest)
    case Failure(e) => Failure(e)
  }

  /** Helpers for the loop invariant of ParseRows. */
  lemma PrependNothing(r: Result<seq<Row>, ImportError>)
    ensures Prepend([], r) == r
  {
    if r.Success? {
      assert [] + r.value == r.value;
    }
  }

  lemma PrependTwice(rows: seq<Row>, more: seq<Row>, r: Result<seq<Row>, ImportError>)
    ensures Prepend(rows, Prepend(more, r)) == Prepend(rows + more, r)
  {
    if r.Success? {
      assert rows + (more + r.value) == (rows + more) + r.value;
    }
  }

  /**
   * `parseRows`: the indexed loop that pushes one record per data line and stops at the
   * first bad line; the record of line `i` takes its id from the clock reading `clock(i)`.
   */
  method ParseRows(text: string, clock: nat -> nat, parseFloat: string -> Option<real>)
    returns (result: Result<seq<Row>, ImportError>)
    ensures result == ParseLines(Lines(text), clock, parseFloat)
  {
    var lines := Lines(text);
    if |lines| < 2 {
      return Failure(NoData);
    }
    ghost var table, build := ColumnTable(lines), RowBuilder(clock, parseFloat);
    var rows: seq<Row> := [];
    PrependNothing(ParseFrom(table, 1, build));
    for i := 1 to |lines|
      invariant Prepend(rows, ParseFrom(table, i, build)) == ParseLines(lines, clock, parseFloat)
    {
      var raw := Trim(lines[i]);
      if raw == [] {
        continue;
      }
      var cols := Split(raw, '|');
      assert cols == table[i];
      if |cols| < ColumnCount {
        return Failure(MalformedLine(i + 1));
      }
      var row := MakeRow(clock, i, cols, parseFloat);
      assert ParseFrom(table, i, build) == Prepend([row], ParseFrom(table, i + 1, build));
      PrependTwice(rows, [row], ParseFrom(table, i + 1, build));
      rows := rows + [row];
    }
    result := Success(rows);
    assert rows + [] == rows;
  }

  /** Lines `from..` of the table all have at least 11 columns. */
  predicate Complete(table: seq<seq<string>>, from: nat) {
    forall j | from <= j < |table| :: |table[j]| >= ColumnCount
  }

  /** Line `m` is the first line at or after `from` with fewer than 11 columns. */
  predicate FirstShort(table: seq<seq<string>>, from: nat, m: nat) {
    from <= m < |table| && |table[m]| < ColumnCount && Complete(table[..m], from)
  }

  /**
   * ParseFrom succeeds exactly when every remaining line has its columns, and then
   * yields one record per line, in order, each built from that line's columns.
   */
  lemma {:induction false} ParseFromSuccess(table: seq<seq<string>>, i: nat, build: (nat, seq<string>) -> Row)
    requires 1 <= i <= |table|
    ensures ParseFrom(table, i, build).Success? <==> Complete(table, i)
    ensures ParseFrom(table, i, build).Success? ==>
      var rows := ParseFrom(table, i, build).value;
      |rows| == |table| - i && forall k | 0 <= k < |rows| :: rows[k] == build(i + k, table[i + k])
    decreases |table| - i
  {
    if i < |table| && |table[i]| >= ColumnCount {
      ParseFromSuccess(table, i + 1, build);
    }
  }

  /** ParseFrom fails only with the number of the first remaining line that lacks columns, counted from 1. */
  lemma {:induction false} ParseFromFailure(table: seq<seq<string>>, i: nat, build: (nat, seq<string>) -> Row)
    requires 1 <= i <= |table|
    ensures ParseFrom(table, i, build).Failure? ==>
      var e := ParseFrom(table, i, build).error;
      e.MalformedLine? && e.lineNumber >= 1 && FirstShort(table, i, e.lineNumber - 1)
    decreases |table| - i
  {
    if i < |table| && |table[i]| >= ColumnCount {
      ParseFromFailure(table, i + 1, build);
      var r := ParseFrom(table, i + 1, build);
      if r.Failure? {
        var m := r.error.lineNumber - 1;
        assert table[..m][..i + 1] == table[..i + 1];
      }
    }
  }

  /** Data lines `1..` all have their 11 columns. */
  predicate AllHaveColumns(lines: seq<string>) {
    forall j | 1 <= j < |lines| :: HasAllColumns(lines[j])
  }

  /** Line `m` is the first data line without 11 columns. */
  predicate FirstMalformed(lines: seq<string>, m: nat) {
    1 <= m < |lines| && !HasAllColumns(lines[m]) && forall j | 1 <= j < m :: HasAllColumns(lines[j])
  }

  lemma ColumnTableLengths(lines: seq<string>)
    ensures forall j | 0 <= j < |lines| :: |ColumnTable(lines)[j]| >= ColumnCount <==> HasAllColumns(lines[j])
  {
    forall j | 0 <= j < |lines| ensures ColumnTable(lines)[j] == Columns(lines[j]) {}
  }

  /**
   * A parse succeeds exactly when there are at least two non-blank lines and every
   * data line has 11 columns; it then has one record per data line, in file order,
   * built from that line's columns.
   */
  lemma ParseLinesSuccess(lines: seq<string>, clock: nat -> nat, parseFloat: string -> Option<real>)
    ensures ParseLines(lines, clock, parseFloat).Success? <==> |lines| >= 2 && AllHaveColumns(lines)
    ensures ParseLines(lines, clock, parseFloat).Success? ==>
      var rows := ParseLines(lines, clock, parseFloat).value;
      |rows| == |lines| - 1 &&
      forall k | 0 <= k < |rows| ::
        rows[k] == MakeRow(clock, k + 1, Columns(lines[k + 1]), parseFloat)
  {
    if |lines| >= 2 {
      var table := ColumnTable(lines);
      ParseFromSuccess(table, 1, RowBuilder(clock, parseFloat));
      ColumnTableLengths(lines);
    }
  }

  /** Fewer than two non-blank lines, and only then, gives the no-data error. */
  lemma ParseLinesNoData(lines: seq<string>, clock: nat -> nat, parseFloat: string -> Option<real>)
    ensures ParseLines(lines, clock, parseFloat) == Failure(NoData) <==> |lines| < 2
  {
    if |lines| >= 2 {
      ParseFromFailure(ColumnTable(lines), 1, RowBuilder(clock, parseFloat));
    }
  }

  /** The malformed-line error names `m + 1` exactly when line `m` is the first data line without 11 columns. */
  lemma ParseLinesFirstMalformed(lines: seq<string>, clock: nat -> nat, parseFloat: string -> Option<real>, m: nat)
    ensures ParseLines(lines, clock, parseFloat) == Failure(MalformedLine(m + 1)) <==>
      |lines| >= 2 && FirstMalformed(lines, m)
  {
    if |lines| >= 2 {
      var table := ColumnTable(lines);
      var build := RowBuilder(clock, parseFloat);
      ColumnTableLengths(lines);
      ParseFromSuccess(table, 1, build);
      ParseFromFailure(table, 1, build);
      var r := ParseFrom(table, 1, build);
      if r.Failure? {
        var n := r.error.lineNumber - 1;
        assert !HasAllColumns(lines[n]);
        assert forall j | 1 <= j < n :: HasAllColumns(lines[j]) by {
          forall j | 1 <= j < n ensures HasAllColumns(lines[j]) {
            assert table[..n][j] == table[j];
          }
        }
        assert FirstMalformed(lines, n);
        FirstMalformedUnique(lines, n, m);
      }
    }
  }

  lemma FirstMalformedUnique(lines: seq<string>, n: nat, m: nat)
    requires FirstMalformed(lines, n)
    ensures FirstMalformed(lines, m) <==> m == n
  {
  }

  /** The outcome of ParseFrom, success or which error, does not depend on how rows are built. */
  lemma {:induction false} ParseFromOutcome(table: seq<seq<string>>, i: nat, b1: (nat, seq<string>) -> Row, b2: (nat, seq<string>) -> Row)
    requires 1 <= i <= |table|
    ensures ParseFrom(table, i, b1).Success? == ParseFrom(table, i, b2).Success?
    ensures ParseFrom(table, i, b1).Failure? ==> ParseFrom(table, i, b1).error == ParseFrom(table, i, b2).error
    decreases |table| - i
  {
    if i < |table| && |table[i]| >= ColumnCount {
      ParseFromOutcome(table, i + 1, b1, b2);
    }
  }

  /**
   * Two tables whose lines `i..` agree on having 11 columns and, where they do,
   * build the same rows, parse alike from line `i` on.
   */
  lemma {:induction false} ParseFromAgree(t1: seq<seq<string>>, t2: seq<seq<string>>, i: nat, build: (nat, seq<string>) -> Row)
    requires 1 <= i <= |t1| == |t2|
    requires forall j | i <= j < |t1| :: |t1[j]| >= ColumnCount <==> |t2[j]| >= ColumnCount
    requires forall j | i <= j < |t1| && |t1[j]| >= ColumnCount :: build(j, t1[j]) == build(j, t2[j])
    ensures ParseFrom(t1, i, build) == ParseFrom(t2, i, build)
    decreases |t1| - i
  {
    if i < |t1| {
      ParseFromAgree(t1, t2, i + 1, build);
    }
  }

  /** Two column lists that agree on their first 11 columns. */
  predicate SameLeadingColumns(c1: seq<string>, c2: seq<string>) {
    (|c1| >= ColumnCount <==> |c2| >= ColumnCount) &&
    (|c1| >= ColumnCount ==> c1[..ColumnCount] == c2[..ColumnCount])
  }

  /** Only the first 11 columns of a line go into its record. */
  lemma MakeRowLeadingColumns(clock: nat -> nat, i: nat, c1: seq<string>, c2: seq<string>, parseFloat: string -> Option<real>)
    requires |c1| >= ColumnCount && SameLeadingColumns(c1, c2)
    ensures MakeRow(clock, i, c1, parseFloat) == MakeRow(clock, i, c2, parseFloat)
  {
    forall k: nat | k < ColumnCount ensures Column(c1, k) == Column(c2, k) {
      assert c1[..ColumnCount][k] == c2[..ColumnCount][k];
    }
  }

  /**
   * The header line's content never matters, nor do columns past the eleventh:
   * two line lists that agree on the first 11 columns of every data line parse alike.
   */
  lemma ParseLinesIgnoresHeaderAndExtraColumns(l1: seq<string>, l2: seq<string>, clock: nat -> nat, parseFloat: string -> Option<real>)
    requires |l1| == |l2|
    requires forall j | 1 <= j < |l1| :: SameLeadingColumns(Columns(l1[j]), Columns(l2[j]))
    ensures ParseLines(l1, clock, parseFloat) == ParseLines(l2, clock, parseFloat)
  {
    if |l1| >= 2 {
      var t1, t2, build := ColumnTable(l1), ColumnTable(l2), RowBuilder(clock, parseFloat);
      forall j | 1 <= j < |t1| ensures |t1[j]| >= ColumnCount <==> |t2[j]| >= ColumnCount {
        assert t1[j] == Columns(l1[j]) && t2[j] == Columns(l2[j]);
      }
      forall j | 1 <= j < |t1| && |t1[j]| >= ColumnCount ensures build(j, t1[j]) == build(j, t2[j]) {
        assert t1[j] == Columns(l1[j]) && t2[j] == Columns(l2[j]);
        MakeRowLeadingColumns(clock, j, t1[j], t2[j], parseFloat);
      }
      ParseFromAgree(t1, t2, 1, build);
    }
  }

  /**
   * Numeric coercion never fails an import: whatever `parseFloat` answers,
   * the import succeeds or fails alike, with the same error.
   */
  lemma ParseLinesOutcomeIgnoresNumbers(lines: seq<string>, clock: nat -> nat, pf1: string -> Option<real>, pf2: string -> Option<real>)
    ensures ParseLines(lines, clock, pf1).Success? == ParseLines(lines, clock, pf2).Success?
    ensures ParseLines(lines, clock, pf1).Failure? ==> ParseLines(lines, clock, pf1).error == ParseLines(lines, clock, pf2).error
  {
    if |lines| >= 2 {
      ParseFromOutcome(ColumnTable(lines), 1, RowBuilder(clock, pf1), RowBuilder(clock, pf2));
    }
  }

  lemma DistinctLinesDistinctIds(clock: nat -> nat, i: nat, j: nat, c1: seq<string>, c2: seq<string>, parseFloat: string -> Option<real>)
    requires i != j
    ensures MakeRow(clock, i, c1, parseFloat).id != MakeRow(clock, j, c2, parseFloat).id
  {
    if RowId(clock(i), i) == RowId(clock(j), j) {
      RowIdInjective(clock(i), i, clock(j), j);
    }
  }

  /** The records of one import have pairwise distinct ids. */
  lemma ParseLinesIdsDistinct(lines: seq<string>, clock: nat -> nat, parseFloat: string -> Option<real>)
    requires ParseLines(lines, clock, parseFloat).Success?
    ensures var rows := ParseLines(lines, clock, parseFloat).value;
      forall a, b | 0 <= a < b < |rows| :: rows[a].id != rows[b].id
  {
    ParseLinesSuccess(lines, clock, parseFloat);
    var rows := ParseLines(lines, clock, parseFloat).value;
    forall a, b | 0 <= a < b < |rows| ensures rows[a].id != rows[b].id {
      DistinctLinesDistinctIds(clock, a + 1, b + 1, Columns(lines[a + 1]), Columns(lines[b + 1]), parseFloat);
    }
  }

  /** Every imported record has a known currency and a known transfer type. */
  lemma ParseLinesKnownCodes(lines: seq<string>, clock: nat -> nat, parseFloat: string -> Option<real>)
    requires ParseLines(lines, clock, parseFloat).Success?
    ensures forall r | r in ParseLines(lines, clock, parseFloat).value :: HasKnownCodes(r)
  {
    ParseLinesSuccess(lines, clock, parseFloat);
  }

  /**
   * Each record's text fields are the trimmed text of their columns, and a
   * numeric column that does not parse gives 0.
   */
  lemma ParseLinesFields(lines: seq<string>, clock: nat -> nat, parseFloat: string -> Option<real>, k: nat)
    requires ParseLines(lines, clock, parseFloat).Success? && k + 1 < |lines|
    ensures |ParseLines(lines, clock, parseFloat).value| == |lines| - 1
    ensures var r, cols := ParseLines(lines, clock, parseFloat).value[k], Columns(lines[k + 1]);
      |cols| >= ColumnCount &&
      r.id == RowId(clock(k + 1), k + 1) &&
      r.cuentaCargo == Trim(cols[0]) && r.nombreRazonSocialDestinatario == Trim(cols[2]) &&
      r.cuentaDestinatario == Trim(cols[3]) && r.referenciaNumerica == Trim(cols[5]) &&
      r.alias == Trim(cols[6]) && r.conceptoReferencia == Trim(cols[7]) && r.rfcDestinatario == Trim(cols[9]) &&
      (parseFloat(cols[1]).None? ==> r.importe == 0.0) && (parseFloat(cols[8]).None? ==> r.iva == 0.0)
  {
    ParseLinesSuccess(lines, clock, parseFloat);
  }
}
