/**
 * The rate-table loader: csv-parser header normalisation, per-row validation, and the
 * accumulation of accepted rows into the rate table. Reading the file and wiring the
 * stream's events are replaced by a `CsvStream` value that already holds the header,
 * the split records and how the stream ended.
 */
module ExchangeRateLoader {
  import opened Wrappers
  import opened JsRuntime

  /** The four CSV columns a row is read from. */
  const RefDateColumn := "REF_DATE"
  const GeoColumn := "GEO"
  const CurrencyColumn := "Type of currency"
  const ValueColumn := "VALUE"

  /** One record of the rate table: 1 CAD is worth `value` units of `currency` on `date`. */
  datatype ExchangeRate = ExchangeRate(date: string, country: string, currency: string, value: JsValue)

  predicate IsQuote(c: char) {
    c == '"' || c == '\''
  }

  /** Deletes one leading and one trailing quote character (`'` or `"`), each independently of the other. */
  function CutEdgeQuotes(t: string): (r: string)
    ensures |t| - 2 <= |r| <= |t|
    ensures r == t <==> t == [] || (!IsQuote(t[0]) && !IsQuote(t[|t| - 1]))
  {
    var u := if |t| > 0 && IsQuote(t[0]) then t[1..] else t;
    if |u| > 0 && IsQuote(u[|u| - 1]) then u[..|u| - 1] else u
  }

  /** The `mapHeaders` option: trim the header, then cut its edge quotes. */
  function NormalizeHeader(header: string): (r: string)
    ensures var t := Trim(header); |t| - 2 <= |r| <= |t|
    ensures var t := Trim(header);
      r == t <==> t == [] || (!IsQuote(t[0]) && !IsQuote(t[|t| - 1]))
  {
    var t := Trim(header);
    var r := CutEdgeQuotes(t);
    assert |t| - 2 <= |r| <= |t|;
    r
  }

  /**
   * `r` is `t` with `a` characters cut from the front and `b` from the back, where a quote is
   * cut from the front exactly when `t` starts with one, and from the back exactly when what
   * remains ends with one.
   */
  predicate QuoteCut(t: string, a: nat, b: nat, r: string) {
    a <= 1 && b <= 1 && a + b <= |t| && r == t[a..|t| - b]
    && (a == 1 <==> t != [] && IsQuote(t[0]))
    && (b == 1 <==> |t| > a && IsQuote(t[|t| - 1]))
  }

  /** Cutting edge quotes removes a leading quote and a trailing quote, each on its own, and nothing else. */
  lemma CutEdgeQuotesIsQuoteCut(t: string)
    ensures exists a, b :: QuoteCut(t, a, b, CutEdgeQuotes(t))
  {
    var a := if |t| > 0 && IsQuote(t[0]) then 1 else 0;
    var u := t[a..];
    assert |u| > 0 ==> u[|u| - 1] == t[|t| - 1];
    var b := if |u| > 0 && IsQuote(u[|u| - 1]) then 1 else 0;
    assert CutEdgeQuotes(t) == u[..|u| - b];
    assert u[..|u| - b] == t[a..|t| - b];
    assert QuoteCut(t, a, b, CutEdgeQuotes(t));
  }

  /** Normalisation cuts a leading quote and a trailing quote off the trimmed header, each on its own, and nothing else. */
  lemma NormalizeCutsEdgeQuotes(header: string)
    ensures exists a, b :: QuoteCut(Trim(header), a, b, NormalizeHeader(header))
  {
    assert NormalizeHeader(header) == CutEdgeQuotes(Trim(header));
    CutEdgeQuotesIsQuoteCut(Trim(header));
  }

  /**
   * A name wrapped in any two quote characters loses exactly the two quotes; whitespace inside
   * the quotes stays, so `" GEO"` becomes ` GEO`, which is not the key `GEO`.
   */
  lemma NormalizeStripsOneQuotePair(name: string, open: char, close: char)
    requires IsQuote(open) && IsQuote(close)
    ensures NormalizeHeader([open] + name + [close]) == name
  {
    var h := [open] + name + [close];
    assert h[0] == open && h[|h| - 1] == close;
    assert Trimmed(h);
    var u := h[1..];
    assert u == name + [close];
    assert u[..|u| - 1] == name;
  }

  /** A quote at the start only is removed on its own: `"GEO` becomes `GEO`. */
  lemma NormalizeStripsLeadingQuote(name: string, open: char)
    requires IsQuote(open) && name != [] && !IsQuote(name[|name| - 1]) && !IsWhitespace(name[|name| - 1])
    ensures NormalizeHeader([open] + name) == name
  {
    var h := [open] + name;
    assert h[0] == open && h[|h| - 1] == name[|name| - 1];
    assert Trimmed(h);
    assert h[1..] == name;
  }

  /** A quote at the end only is removed on its own: `GEO"` becomes `GEO`. */
  lemma NormalizeStripsTrailingQuote(name: string, close: char)
    requires IsQuote(close) && name != [] && !IsQuote(name[0]) && !IsWhitespace(name[0])
    ensures NormalizeHeader(name + [close]) == name
  {
    var h := name + [close];
    assert h[0] == name[0] && h[|h| - 1] == close;
    assert Trimmed(h);
    assert h[..|h| - 1] == name;
  }

  /** `s` between two double quotes. */
  function DoubleQuoted(s: string): string {
    ['"'] + s + ['"']
  }

  /**
   * Normalisation is not idempotent: a doubly quoted name such as `""X""` normalises to `"X"`,
   * which normalises again to `X`.
   */
  lemma NormalizeNotIdempotent(name: string)
    ensures NormalizeHeader(DoubleQuoted(DoubleQuoted(name))) == DoubleQuoted(name)
    ensures NormalizeHeader(NormalizeHeader(DoubleQuoted(DoubleQuoted(name)))) == name
    ensures NormalizeHeader(NormalizeHeader(DoubleQuoted(DoubleQuoted(name)))) != NormalizeHeader(DoubleQuoted(DoubleQuoted(name)))
  {
    var inner := DoubleQuoted(name);
    assert |inner| == |name| + 2 && inner[0] == '"' && inner[|inner| - 1] == '"';
    NormalizeStripsOneQuotePair(name, '"', '"');
    NormalizeStripsOneQuotePair(inner, '"', '"');
  }

  /** The header keys csv-parser binds columns to: every header passed through `mapHeaders`. */
  function HeaderKeys(header: seq<string>): seq<string> {
    seq(|header|, i requires 0 <= i < |header| => NormalizeHeader(header[i]))
  }

  /** No column after `i` that has a cell carries the same key as column `i`. */
  predicate LastColumnWith(keys: seq<string>, cells: seq<string>, i: nat)
    requires i < |keys|
  {
    forall j :: i < j < |keys| && j < |cells| ==> keys[j] != keys[i]
  }

  /**
   * The row object csv-parser builds from one record: the cell of column `i` under key
   * `keys[i]`, assigned left to right, so of two columns with the same key the later wins.
   * Cells beyond the header are left out: csv-parser files them under `_<index>` keys,
   * which are never read here.
   */
  function BindRow(keys: seq<string>, cells: seq<string>): (row: map<string, string>)
    ensures forall k :: k in row ==> exists i :: 0 <= i < |keys| && i < |cells| && keys[i] == k
    ensures forall i :: 0 <= i < |keys| && i < |cells| && LastColumnWith(keys, cells, i)
              ==> keys[i] in row && row[keys[i]] == cells[i]
    decreases |cells|
  {
    var n := if |keys| < |cells| then |keys| else |cells|;
    if n == 0 then map[]
    else
      var earlier := BindRow(keys[..n - 1], cells[..n - 1]);
      assert forall i :: 0 <= i < n - 1 && LastColumnWith(keys, cells, i) ==> LastColumnWith(keys[..n - 1], cells[..n - 1], i);
      earlier[keys[n - 1] := cells[n - 1]]
  }

  /** `data.COLUMN?.trim()`: the trimmed cell, or `None` when the row has no such key. */
  function TrimmedField(row: map<string, string>, column: string): Option<string> {
    if column in row then Some(Trim(row[column])) else None
  }

  /**
   * What every accepted record satisfies: trimmed, non-empty date, country and currency,
   * a date date-fns accepts, and a numeric value.
   */
  predicate WellFormed(rate: ExchangeRate, p: Parsers) {
    rate.date != "" && Trimmed(rate.date) && p.isValidIsoDate(rate.date)
    && rate.country != "" && Trimmed(rate.country)
    && rate.currency != "" && Trimmed(rate.currency)
    && rate.value.Num?
  }

  /**
   * `validateExchangeRateRow`: the record for an acceptable row, `None` (the source's `null`)
   * for a row to drop.
   */
  function ValidateRow(row: map<string, string>, p: Parsers): (r: Option<ExchangeRate>)
    ensures r.Some? ==> WellFormed(r.value, p)
    ensures r.Some? ==>
      && Some(r.value.date) == TrimmedField(row, RefDateColumn)
      && Some(r.value.country) == TrimmedField(row, GeoColumn)
      && Some(r.value.currency) == TrimmedField(row, CurrencyColumn)
      && TrimmedField(row, ValueColumn).Some?
      && p.parseFloat(TrimmedField(row, ValueColumn).value) == Some(r.value.value.n)
    ensures r.None? <==>
      || !Present(TrimmedField(row, RefDateColumn))
      || !p.isValidIsoDate(TrimmedField(row, RefDateColumn).value)
      || !Present(TrimmedField(row, GeoColumn))
      || !Present(TrimmedField(row, CurrencyColumn))
      || !Present(TrimmedField(row, ValueColumn))
      || p.parseFloat(TrimmedField(row, ValueColumn).value).None?
  {
    var date := TrimmedField(row, RefDateColumn);
    var country := TrimmedField(row, GeoColumn);
    var currency := TrimmedField(row, CurrencyColumn);
    var value := TrimmedField(row, ValueColumn);
    var parsedValue := if Present(value) then p.parseFloat(value.value) else None;
    if !Present(date) || !p.isValidIsoDate(date.value) || !Present(country) || !Present(currency)
       || parsedValue.None?
    then None
    else Some(ExchangeRate(date.value, country.value, currency.value, Num(parsedValue.value)))
  }

  /**
   * A row without a `GEO` column is dropped, whatever its other cells hold (the loader's own
   * test expects such a row to be kept; the code drops it).
   */
  lemma RowWithoutGeoRejected(row: map<string, string>, p: Parsers)
    requires GeoColumn !in row
    ensures ValidateRow(row, p) == None
  {
  }

  /** A row whose `VALUE` is empty, or missing, is dropped. */
  lemma EmptyValueRejected(row: map<string, string>, p: Parsers)
    requires ValueColumn !in row || Trim(row[ValueColumn]) == ""
    ensures ValidateRow(row, p) == None
  {
  }

  /** What one record contributes to the table: its validated record, or nothing when the row is dropped. */
  function RecordRates(keys: seq<string>, record: seq<string>, p: Parsers): (rates: seq<ExchangeRate>)
    ensures |rates| <= 1
    ensures rates != [] <==> ValidateRow(BindRow(keys, record), p).Some?
    ensures rates != [] ==> rates[0] == ValidateRow(BindRow(keys, record), p).value && WellFormed(rates[0], p)
  {
    match ValidateRow(BindRow(keys, record), p)
    case Some(rate) => [rate]
    case None => []
  }

  /** The records of the accepted rows, in file order: a filter-map of `ValidateRow` over the records. */
  function AcceptedRates(keys: seq<string>, records: seq<seq<string>>, p: Parsers): (rates: seq<ExchangeRate>)
    ensures |rates| <= |records|
    ensures forall i :: 0 <= i < |rates| ==> WellFormed(rates[i], p)
  {
    if records == [] then []
    else RecordRates(keys, records[0], p) + AcceptedRates(keys, records[1..], p)
  }

  /** Filtering a file in two parts and concatenating is filtering the whole file: order is kept. */
  lemma {:induction false} AcceptedRatesAppend(keys: seq<string>, a: seq<seq<string>>, b: seq<seq<string>>, p: Parsers)
    ensures AcceptedRates(keys, a + b, p) == AcceptedRates(keys, a, p) + AcceptedRates(keys, b, p)
  {
    if a == [] {
      assert a + b == b;
    } else {
      assert (a + b)[1..] == a[1..] + b;
      AcceptedRatesAppend(keys, a[1..], b, p);
    }
  }

  /** A file of one record yields exactly what that record contributes. */
  lemma AcceptedRatesSingle(keys: seq<string>, record: seq<string>, p: Parsers)
    ensures AcceptedRates(keys, [record], p) == RecordRates(keys, record, p)
  {
  }

  /** Reading one more record extends the table by that record's contribution. */
  lemma AcceptedRatesExtend(keys: seq<string>, records: seq<seq<string>>, i: nat, p: Parsers)
    requires i < |records|
    ensures AcceptedRates(keys, records[..i + 1], p)
         == AcceptedRates(keys, records[..i], p) + RecordRates(keys, records[i], p)
  {
    assert records[..i + 1] == records[..i] + [records[i]];
    AcceptedRatesAppend(keys, records[..i], [records[i]], p);
    AcceptedRatesSingle(keys, records[i], p);
  }

  /** How the parsed CSV stream stopped: its `end` event, or its `error` event carrying the error. */
  datatype Ending = Finished | Failed(error: string)

  /** The CSV source as the stream delivers it: the header line, the data records, then the ending. */
  datatype CsvStream = CsvStream(header: seq<string>, records: seq<seq<string>>, ending: Ending)

  /** How the loader's promise settles. */
  datatype LoadOutcome = Loaded(rates: seq<ExchangeRate>) | Rejected(error: string)

  /**
   * `loadExchangeRates`: pushes the record of every accepted row, in order, and resolves with
   * them at the end of the stream; an `error` event on the parsed CSV stream rejects with that
   * error and no table.
   */
  method LoadExchangeRates(stream: CsvStream, p: Parsers) returns (outcome: LoadOutcome)
    ensures stream.ending.Failed? <==> outcome.Rejected?
    ensures outcome.Rejected? ==> outcome.error == stream.ending.error
    ensures outcome.Loaded? ==> outcome.rates == AcceptedRates(HeaderKeys(stream.header), stream.records, p)
  {
    var keys := HeaderKeys(stream.header);
    var exchangeRates: seq<ExchangeRate> := [];
    var i := 0;
    while i < |stream.records|
      invariant 0 <= i <= |stream.records|
      invariant exchangeRates == AcceptedRates(keys, stream.records[..i], p)
    {
      var record := stream.records[i];
      var validData := ValidateRow(BindRow(keys, record), p);
      AcceptedRatesExtend(keys, stream.records, i, p);
      if validData.Some? {
        exchangeRates := exchangeRates + [validData.value];
      }
      i := i + 1;
    }
    assert stream.records[..i] == stream.records;
    match stream.ending
    case Finished =>
      outcome := Loaded(exchangeRates);
    case Failed(error) =>
      outcome := Rejected(error);
  }
}
