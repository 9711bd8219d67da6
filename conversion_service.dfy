/**
 * The conversion service: request validation, the rate lookup and the conversion itself.
 * The module-level rate table of the source is passed in explicitly as `table`.
 */
module ConversionService {
  import opened Wrappers
  import opened JsRuntime
  import opened ExchangeRateLoader

  const DateRequiredMessage := "date is required"
  const CurrencyRequiredMessage := "currency is required"
  const AmountRequiredMessage := "amount_in_cad is required"
  const InvalidDateMessage := "Invalid date, Please provide valid date in 'YYYY-MM-DD' format"
  const InvalidAmountMessage := "Invalid amount"
  const RateNotFoundMessage := "Exchange rate not found for the given date and currency"
  const InvalidRateMessage := "Invalid exchange rate"

  const NotFoundStatus := 404
  const InternalErrorStatus := 500

  /** The three fields of a conversion request body; `date` and `currency` are absent or strings. */
  datatype Request = Request(date: Option<string>, currency: Option<string>, amountInCad: JsValue)

  /** The checks `validateRequest` runs, one per error message it can report. */
  datatype Check = DateMissing | CurrencyMissing | AmountMissing | DateInvalid | AmountInvalid

  /** The checks in the order in which their errors are pushed. */
  const Checks: seq<Check> := [DateMissing, CurrencyMissing, AmountMissing, DateInvalid, AmountInvalid]

  function Message(check: Check): string {
    match check
    case DateMissing => DateRequiredMessage
    case CurrencyMissing => CurrencyRequiredMessage
    case AmountMissing => AmountRequiredMessage
    case DateInvalid => InvalidDateMessage
    case AmountInvalid => InvalidAmountMessage
  }

  /** Different checks report different messages. */
  lemma MessageInjective(c: Check, d: Check)
    ensures Message(c) == Message(d) ==> c == d
  {
  }

  /** When a check reports its error: a falsy field is missing, a present one may be malformed. */
  predicate Fails(check: Check, req: Request, p: Parsers) {
    match check
    case DateMissing => !Present(req.date)
    case CurrencyMissing => !Present(req.currency)
    case AmountMissing => !Truthy(req.amountInCad)
    case DateInvalid => Present(req.date) && !p.isValidIsoDate(req.date.value)
    case AmountInvalid => Truthy(req.amountInCad) && ParseFloat(p, req.amountInCad).None?
  }

  /** The messages of the failing checks among `checks`, in the order of `checks`. */
  function Failures(checks: seq<Check>, req: Request, p: Parsers): (errors: seq<string>)
    ensures |errors| <= |checks|
  {
    if checks == [] then []
    else (if Fails(checks[0], req, p) then [Message(checks[0])] else []) + Failures(checks[1..], req, p)
  }

  /** A check's message is among the failures exactly when that check is among `checks` and fails. */
  lemma {:induction false} FailuresMembership(checks: seq<Check>, req: Request, p: Parsers, c: Check)
    ensures Message(c) in Failures(checks, req, p) <==> c in checks && Fails(c, req, p)
  {
    if checks != [] {
      FailuresMembership(checks[1..], req, p, c);
      MessageInjective(c, checks[0]);
    }
  }

  /** Running two lists of checks one after the other collects the first list's failures, then the second's. */
  lemma {:induction false} FailuresAppend(a: seq<Check>, b: seq<Check>, req: Request, p: Parsers)
    ensures Failures(a + b, req, p) == Failures(a, req, p) + Failures(b, req, p)
  {
    if a != [] {
      assert (a + b)[0] == a[0];
      assert (a + b)[1..] == a[1..] + b;
      FailuresAppend(a[1..], b, req, p);
    } else {
      assert a + b == b;
    }
  }

  /** Every error `validateRequest` collects for a request, none dropped, in push order. */
  function RequestErrors(req: Request, p: Parsers): seq<string> {
    Failures(Checks, req, p)
  }

  /** The outcome of `validateRequest`. */
  datatype Validation = Valid(amountInCad: real) | Invalid(errors: seq<string>)

  /** What `validateRequest` returns: the collected errors if there are any, otherwise the parsed amount. */
  function Validate(req: Request, p: Parsers): (r: Validation)
    ensures r.Valid? <==> RequestErrors(req, p) == []
    ensures r.Invalid? ==> r.errors == RequestErrors(req, p)
    ensures r.Valid? ==> Truthy(req.amountInCad) && ParseFloat(p, req.amountInCad) == Some(r.amountInCad)
  {
    var errors := RequestErrors(req, p);
    if errors != [] then Invalid(errors)
    else
      FailuresMembership(Checks, req, p, AmountMissing);
      FailuresMembership(Checks, req, p, AmountInvalid);
      Valid(ParseFloat(p, req.amountInCad).value)
  }

  /**
   * `validateRequest`: runs every check, pushing the error of each that fails, and returns
   * the errors, or the parsed amount when there are none.
   */
  method ValidateRequest(date: Option<string>, currency: Option<string>, amountInCad: JsValue, p: Parsers)
    returns (result: Validation)
    ensures result == Validate(Request(date, currency, amountInCad), p)
  {
    var validationErrors: seq<string> := [];
    if !Present(date) {
      validationErrors := validationErrors + [DateRequiredMessage];
    }
    if !Present(currency) {
      validationErrors := validationErrors + [CurrencyRequiredMessage];
    }
    if !Truthy(amountInCad) {
      validationErrors := validationErrors + [AmountRequiredMessage];
    }
    if Present(date) && !p.isValidIsoDate(date.value) {
      validationErrors := validationErrors + [InvalidDateMessage];
    }
    var amount := ParseFloat(p, amountInCad);
    if Truthy(amountInCad) && amount.None? {
      validationErrors := validationErrors + [InvalidAmountMessage];
    }
    ValidationErrorsInOrder(Request(date, currency, amountInCad), p);
    assert validationErrors == RequestErrors(Request(date, currency, amountInCad), p);
    if |validationErrors| > 0 {
      return Invalid(validationErrors);
    }
    return Valid(amount.value);
  }

  /** `RequestErrors` spelled out check by check, in the order the source pushes them. */
  lemma ValidationErrorsInOrder(req: Request, p: Parsers)
    ensures RequestErrors(req, p)
      == (if Fails(DateMissing, req, p) then [DateRequiredMessage] else [])
       + ((if Fails(CurrencyMissing, req, p) then [CurrencyRequiredMessage] else [])
       + ((if Fails(AmountMissing, req, p) then [AmountRequiredMessage] else [])
       + ((if Fails(DateInvalid, req, p) then [InvalidDateMessage] else [])
       + (if Fails(AmountInvalid, req, p) then [InvalidAmountMessage] else []))))
  {
    var tail4 := [AmountInvalid];
    var tail3 := [DateInvalid] + tail4;
    var tail2 := [AmountMissing] + tail3;
    var tail1 := [CurrencyMissing] + tail2;
    assert Checks == [DateMissing] + tail1;
    assert Failures(tail4, req, p) == (if Fails(AmountInvalid, req, p) then [InvalidAmountMessage] else []) by {
      assert tail4[1..] == [];
    }
    assert Failures(tail3, req, p) == (if Fails(DateInvalid, req, p) then [InvalidDateMessage] else []) + Failures(tail4, req, p) by {
      assert tail3[1..] == tail4;
    }
    assert Failures(tail2, req, p) == (if Fails(AmountMissing, req, p) then [AmountRequiredMessage] else []) + Failures(tail3, req, p) by {
      assert tail2[1..] == tail3;
    }
    assert Failures(tail1, req, p) == (if Fails(CurrencyMissing, req, p) then [CurrencyRequiredMessage] else []) + Failures(tail2, req, p) by {
      assert tail1[1..] == tail2;
    }
    assert Failures(Checks, req, p) == (if Fails(DateMissing, req, p) then [DateRequiredMessage] else []) + Failures(tail1, req, p) by {
      assert Checks[1..] == tail1;
    }
  }

  /** With every field falsy (the empty body), exactly the three "required" errors are reported, in field order. */
  lemma MissingFieldsReported(req: Request, p: Parsers)
    requires !Present(req.date) && !Present(req.currency) && !Truthy(req.amountInCad)
    ensures Validate(req, p) == Invalid([DateRequiredMessage, CurrencyRequiredMessage, AmountRequiredMessage])
  {
    ValidationErrorsInOrder(req, p);
  }

  /**
   * Which message is reported, field by field: "required" exactly for a falsy field, a format
   * error exactly for a present but malformed one, so each field contributes at most one error.
   */
  lemma ErrorsPerField(req: Request, p: Parsers)
    ensures var errors := RequestErrors(req, p);
      && (DateRequiredMessage in errors <==> !Present(req.date))
      && (InvalidDateMessage in errors <==> Present(req.date) && !p.isValidIsoDate(req.date.value))
      && (CurrencyRequiredMessage in errors <==> !Present(req.currency))
      && (AmountRequiredMessage in errors <==> !Truthy(req.amountInCad))
      && (InvalidAmountMessage in errors <==> Truthy(req.amountInCad) && ParseFloat(p, req.amountInCad).None?)
      && |errors| <= 3
  {
    FailuresMembership(Checks, req, p, DateMissing);
    FailuresMembership(Checks, req, p, DateInvalid);
    FailuresMembership(Checks, req, p, CurrencyMissing);
    FailuresMembership(Checks, req, p, AmountMissing);
    FailuresMembership(Checks, req, p, AmountInvalid);
    ValidationErrorsInOrder(req, p);
  }

  /** A falsy amount (`0` or `""`) is reported as missing and never as invalid. */
  lemma FalsyAmountIsMissing(req: Request, p: Parsers)
    requires req.amountInCad == Num(0.0) || req.amountInCad == Str("")
    ensures AmountRequiredMessage in RequestErrors(req, p)
    ensures InvalidAmountMessage !in RequestErrors(req, p)
  {
    ErrorsPerField(req, p);
  }

  /** The currency is only checked for presence: any two present currencies validate alike. */
  lemma CurrencyCheckedForPresenceOnly(date: Option<string>, c1: string, c2: string, amountInCad: JsValue, p: Parsers)
    requires c1 != "" && c2 != ""
    ensures Validate(Request(date, Some(c1), amountInCad), p) == Validate(Request(date, Some(c2), amountInCad), p)
  {
    ValidationErrorsInOrder(Request(date, Some(c1), amountInCad), p);
    ValidationErrorsInOrder(Request(date, Some(c2), amountInCad), p);
  }

  /** The table record for a query: same date and same currency, compared as exact strings. */
  predicate Matches(rate: ExchangeRate, date: string, currency: string) {
    rate.date == date && rate.currency == currency
  }

  /** `findExchangeRate`: a matching record if the table holds one, `None` (the source's `undefined`) otherwise. */
  function FindExchangeRate(table: seq<ExchangeRate>, date: string, currency: string): (r: Option<ExchangeRate>)
    ensures r.None? <==> forall i :: 0 <= i < |table| ==> !Matches(table[i], date, currency)
    ensures r.Some? ==> r.value in table && Matches(r.value, date, currency)
  {
    if table == [] then None
    else if Matches(table[0], date, currency) then Some(table[0])
    else
      var r := FindExchangeRate(table[1..], date, currency);
      assert forall i :: 1 <= i < |table| ==> table[i] == table[1..][i - 1];
      r
  }

  /** The record found is the first match in table order. */
  lemma {:induction false} FindReturnsFirstMatch(table: seq<ExchangeRate>, date: string, currency: string, i: nat)
    requires i < |table| && Matches(table[i], date, currency)
    requires forall j :: 0 <= j < i ==> !Matches(table[j], date, currency)
    ensures FindExchangeRate(table, date, currency) == Some(table[i])
  {
    if i > 0 {
      FindReturnsFirstMatch(table[1..], date, currency, i - 1);
    }
  }

  /** The response of `convertCurrency`: the conversion, or a status code with an error message. */
  datatype Conversion =
    | Converted(date: string, currency: string, amountInCad: real, exchangeRate: real, amountInCurrency: Number)
    | Failure(statusCode: int, error: string)

  /**
   * `convertCurrency`: 404 when no record matches, 500 when the matching record's value is not
   * a number, otherwise the request echoed with the rate and the quotient `amountInCad / rate`.
   */
  function ConvertCurrency(table: seq<ExchangeRate>, date: string, currency: string, amountInCad: real, p: Parsers)
    : (r: Conversion)
    ensures r == Failure(NotFoundStatus, RateNotFoundMessage)
        <==> forall i :: 0 <= i < |table| ==> !Matches(table[i], date, currency)
    ensures r == Failure(InternalErrorStatus, InvalidRateMessage)
        <==> FindExchangeRate(table, date, currency).Some?
             && ParseFloat(p, FindExchangeRate(table, date, currency).value.value).None?
    ensures r.Failure? ==> r == Failure(NotFoundStatus, RateNotFoundMessage) || r == Failure(InternalErrorStatus, InvalidRateMessage)
    ensures r.Converted? ==> r.date == date && r.currency == currency && r.amountInCad == amountInCad
    ensures r.Converted? ==>
      && FindExchangeRate(table, date, currency).Some?
      && ParseFloat(p, FindExchangeRate(table, date, currency).value.value) == Some(r.exchangeRate)
    ensures r.Converted? ==> (r.amountInCurrency.Finite? <==> r.exchangeRate != 0.0)
    ensures r.Converted? && r.amountInCurrency.Finite? ==> r.amountInCurrency.value * r.exchangeRate == amountInCad
    ensures r.Converted? ==> (r.amountInCurrency.NaN? <==> amountInCad == 0.0 && r.exchangeRate == 0.0)
    ensures r.Converted? && r.amountInCurrency.Infinity? ==> r.amountInCurrency.negative == (amountInCad < 0.0)
    ensures r.Converted? ==> r.amountInCurrency == Divide(amountInCad, r.exchangeRate)
  {
    match FindExchangeRate(table, date, currency)
    case None => Failure(NotFoundStatus, RateNotFoundMessage)
    case Some(exchangeRateData) =>
      match ParseFloat(p, exchangeRateData.value)
      case None => Failure(InternalErrorStatus, InvalidRateMessage)
      case Some(exchangeRate) =>
        Converted(date, currency, amountInCad, exchangeRate, Divide(amountInCad, exchangeRate))
  }

  /** The table the service holds once loading settles: the loaded rates, or the initial empty table when loading failed. */
  function TableAfterLoad(outcome: LoadOutcome): (table: seq<ExchangeRate>)
    ensures outcome.Loaded? ==> table == outcome.rates
    ensures outcome.Rejected? ==> table == []
  {
    match outcome
    case Loaded(rates) => rates
    case Rejected(_) => []
  }

  /** After a failed load every conversion is answered 404. */
  lemma FailedLoadAlwaysNotFound(error: string, date: string, currency: string, amountInCad: real, p: Parsers)
    ensures ConvertCurrency(TableAfterLoad(Rejected(error)), date, currency, amountInCad, p)
         == Failure(NotFoundStatus, RateNotFoundMessage)
  {
  }

  /** Over a table whose every value is a number, the 500 "Invalid exchange rate" answer never occurs. */
  lemma NumericTableHasNoInvalidRate(table: seq<ExchangeRate>, date: string, currency: string, amountInCad: real, p: Parsers)
    requires forall i :: 0 <= i < |table| ==> table[i].value.Num?
    ensures ConvertCurrency(table, date, currency, amountInCad, p) != Failure(InternalErrorStatus, InvalidRateMessage)
  {
  }

  /** Over a table the loader built, the 500 "Invalid exchange rate" answer never occurs. */
  lemma LoadedTableHasNoInvalidRate(keys: seq<string>, records: seq<seq<string>>, date: string, currency: string,
                                    amountInCad: real, p: Parsers)
    ensures ConvertCurrency(AcceptedRates(keys, records, p), date, currency, amountInCad, p)
         != Failure(InternalErrorStatus, InvalidRateMessage)
  {
  }

  /** A rate of 1.23 for the Australian dollar on 2023-05-31 converts 100.1234 CAD to 100.1234 / 1.23. */
  lemma AustralianDollarExample(p: Parsers)
    ensures var table := [ExchangeRate("2023-05-31", "Canada", "Australian dollar, daily average", Num(1.23))];
      ConvertCurrency(table, "2023-05-31", "Australian dollar, daily average", 100.1234, p)
      == Converted("2023-05-31", "Australian dollar, daily average", 100.1234, 1.23, Finite(100.1234 / 1.23))
  {
  }
}
