/** The evaluation adapter: parse an RCP19 expression, evaluate it against the request's
    value with the request's clock injected, and report either failure with a prefix that
    names the step that failed. The expression language itself (the `rets_expression`
    crate) is a collaborator: its parser and its `apply` are the functions in `Externals`. */
module Evaluator {
  import opened Prelude
  import opened Json
  import Calendar

  /** `TimeState`: the clock a sandboxed evaluation sees, supplied by the request. */
  datatype TimeState = TimeState(now: Calendar.DateTime, today: Calendar.NaiveDate)

  /** The functions the adapter registers with the engine. */
  datatype Intrinsic = NowFunction | TodayFunction

  /** A `rets_expression::Engine` as far as the adapter shapes it: the functions registered
      by name. The built-in functions of `Engine::default()` belong to `rets_expression` and
      are part of the abstract `apply`. */
  datatype Engine = Engine(functions: map<string, Intrinsic>)
  {
    /** `Engine::with_function`: register `f` under `name`, replacing any earlier one. */
    function WithFunction(name: string, f: Intrinsic): Engine
    {
      Engine(functions[name := f])
    }
  }

  /** `EvaluateContext`: the engine, the value under evaluation, the state handed to the
      registered functions, and the previous value used by `LAST`. */
  datatype Context = Context(engine: Engine, value: Value, state: TimeState, previous: Option<Value>)

  /** What the adapter calls but does not define: `Expression::from_str` and
      `Expression::apply` of `rets_expression` (each failure already rendered with
      `Display`), and chrono's `to_rfc3339_opts(SecondsFormat::Millis, true)`. */
  datatype Externals<!E> = Externals(
    parse: string -> Result<E, string>,
    apply: (E, Context) -> Result<Value, string>,
    rfc3339Millis: Calendar.DateTime -> string)

  const ParseErrorPrefix := "Failed to parse expression: "
  const ApplyErrorPrefix := "Failed to evaluate expression: "

  /** `Engine::default().with_function("NOW", ..).with_function("TODAY", ..)` */
  function AdapterEngine(): Engine
  {
    Engine(map[]).WithFunction("NOW", NowFunction).WithFunction("TODAY", TodayFunction)
  }

  /** `EvaluateContext::new_with_state(&engine, &value, state).set_previous(previous)` */
  function AdapterContext(value: Value, previous: Option<Value>, now: Calendar.DateTime,
                          today: Calendar.NaiveDate): Context
  {
    Context(AdapterEngine(), value, TimeState(now, today), previous)
  }

  /** `Function::evaluate` of `NowFunction` and `TodayFunction`: a fresh JSON string built
      from the state alone. Neither can fail and neither reads its arguments. TODAY's string
      is the RFC 3339 full-date of the state's date (for years 0 to 9999). */
  function CallIntrinsic(f: Intrinsic, rfc3339Millis: Calendar.DateTime -> string,
                         state: TimeState, args: seq<Value>): (r: Value)
    ensures r.String?
    ensures f == TodayFunction && 0 <= state.today.year <= 9999
            ==> Calendar.ParseFullDate(r.s) == Some(state.today)
  {
    match f
    case TodayFunction =>
      var s := Calendar.FormatYmd(state.today);
      assert 0 <= state.today.year <= 9999 ==> Calendar.ParseFullDate(s) == Some(state.today) by {
        if 0 <= state.today.year <= 9999 {
          Calendar.FormatThenParse(state.today);
        }
      }
      String(s)
    case NowFunction => String(rfc3339Millis(state.now))
  }

  /** `evaluate_expression`: a success is exactly what `apply` returned for the parsed
      expression; a failure names the step that failed. */
  function EvaluateExpression<E>(x: Externals<E>, expression: string, value: Value,
                                 previousValue: Option<Value>, now: Calendar.DateTime,
                                 today: Calendar.NaiveDate): (r: Result<Value, string>)
    ensures r.Ok? ==> x.parse(expression).Ok?
                      && x.apply(x.parse(expression).value,
                                 AdapterContext(value, previousValue, now, today)) == r
    ensures r.Err? ==> HasPrefix(r.error, ParseErrorPrefix) || HasPrefix(r.error, ApplyErrorPrefix)
  {
    match x.parse(expression)
    case Err(m) => Err(ParseErrorPrefix + m)
    case Ok(e) =>
      match x.apply(e, AdapterContext(value, previousValue, now, today))
      case Err(m) => Err(ApplyErrorPrefix + m)
      case Ok(v) => Ok(v)
  }

  /** A parse failure is reported with its own prefix and the parser's message. */
  lemma ParseFailure<E>(x: Externals<E>, expression: string, value: Value,
                        previousValue: Option<Value>, now: Calendar.DateTime, today: Calendar.NaiveDate)
    requires x.parse(expression).Err?
    ensures EvaluateExpression(x, expression, value, previousValue, now, today)
            == Err(ParseErrorPrefix + x.parse(expression).error)
  {
  }

  /** After a parse failure the evaluator is never consulted: any two evaluators give the
      same result. */
  lemma ParseFailureSkipsApply<E>(x: Externals<E>, y: Externals<E>, expression: string,
                                  value: Value, previousValue: Option<Value>,
                                  now: Calendar.DateTime, today: Calendar.NaiveDate)
    requires x.parse(expression).Err? && y.parse(expression) == x.parse(expression)
    ensures EvaluateExpression(x, expression, value, previousValue, now, today)
            == EvaluateExpression(y, expression, value, previousValue, now, today)
  {
  }

  /** Once parsed, the outcome is decided by one call of `apply`, on the parsed expression and
      a context that carries the value, the previous value exactly as given (`None` stays
      `None`), the request's clock and the engine with NOW and TODAY registered: a failure
      gets the evaluation prefix, a success is returned unchanged. */
  lemma ApplyOutcome<E>(x: Externals<E>, expression: string, value: Value,
                        previousValue: Option<Value>, now: Calendar.DateTime, today: Calendar.NaiveDate)
    requires x.parse(expression).Ok?
    ensures var ctx := AdapterContext(value, previousValue, now, today);
      && ctx.value == value && ctx.previous == previousValue
      && ctx.state == TimeState(now, today)
      && ctx.engine.functions == map["NOW" := NowFunction, "TODAY" := TodayFunction]
      && var r := EvaluateExpression(x, expression, value, previousValue, now, today);
         (forall d :: r == Ok(d) <==> x.apply(x.parse(expression).value, ctx) == Ok(d))
         && (forall m :: x.apply(x.parse(expression).value, ctx) == Err(m)
                         <==> r == Err(ApplyErrorPrefix + m))
  {
    var r := EvaluateExpression(x, expression, value, previousValue, now, today);
    var ctx := AdapterContext(value, previousValue, now, today);
    forall m ensures x.apply(x.parse(expression).value, ctx) == Err(m)
                     <==> r == Err(ApplyErrorPrefix + m) {
      if r == Err(ApplyErrorPrefix + m) {
        assert (ApplyErrorPrefix + m)[|ApplyErrorPrefix|..] == m;
        assert (ApplyErrorPrefix + x.apply(x.parse(expression).value, ctx).error)[|ApplyErrorPrefix|..]
               == x.apply(x.parse(expression).value, ctx).error;
      }
    }
  }

  /** TODAY, as registered, renders the request's date as an RFC 3339 full-date (for years 0
      to 9999) whatever arguments it is given. */
  lemma TodayRendersRequestDate<E>(x: Externals<E>, value: Value, previous: Option<Value>,
                                   now: Calendar.DateTime, today: Calendar.NaiveDate, args: seq<Value>)
    requires 0 <= today.year <= 9999
    ensures var ctx := AdapterContext(value, previous, now, today);
      && "TODAY" in ctx.engine.functions
      && var r := CallIntrinsic(ctx.engine.functions["TODAY"], x.rfc3339Millis, ctx.state, args);
         r.String? && Calendar.ParseFullDate(r.s) == Some(today)
  {
    Calendar.FormatThenParse(today);
  }

  /** NOW and TODAY depend on the state alone: arguments and everything else are ignored, so
      for one state they always give the same value. */
  lemma IntrinsicsDependOnlyOnState(f: Intrinsic, render: Calendar.DateTime -> string,
                                    s1: TimeState, s2: TimeState, a1: seq<Value>, a2: seq<Value>)
    requires f == TodayFunction ==> s1.today == s2.today
    requires f == NowFunction ==> s1.now == s2.now
    ensures CallIntrinsic(f, render, s1, a1) == CallIntrinsic(f, render, s2, a2)
  {
  }
}
