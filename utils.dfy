/** The two helper traits of utils.rs: `OptionAsResult` and `LoggableResult`. */
module Utils {
  import opened Wrappers

  /** `Option::as_result`: a present value becomes `Ok` of that value, an absent
      one becomes `Err` of exactly the error the caller handed in. */
  function AsResult<T, E>(o: Option<T>, error: E): (r: Result<T, E>)
    ensures r.Ok? <==> o.Some?
    ensures r.Ok? ==> r.value == o.value
    ensures r.Err? ==> r.error == error
  {
    match o
    case Some(v) => Ok(v)
    case None => Err(error)
  }

  /** `as_result` loses nothing: taking the success value back out gives the option. */
  lemma AsResultRoundTrip<T, E>(o: Option<T>, error: E)
    ensures OkValue(AsResult(o, error)) == o
  {
  }

  /** The two log levels the combinators write at. */
  datatype Level = Info | Error

  /** One line the `log` facade receives: `"{message}: {error}"` at a level. */
  datatype LogRecord<E> = LogRecord(level: Level, message: string, error: E)

  /** A result passed through a logging combinator, with what was logged on the way. */
  datatype Logged<T, E> = Logged(value: Result<T, E>, record: Option<LogRecord<E>>)

  /** `LoggableResult::log_info`: hands back the receiver untouched and logs its
      error at info level, only when there is one. */
  function LogInfo<T, E>(r: Result<T, E>, message: string): (out: Logged<T, E>)
    ensures out.value == r
    ensures out.record.Some? <==> r.Err?
    ensures r.Err? ==> out.record.value == LogRecord(Info, message, r.error)
  {
    Logged(r, if r.Err? then Some(LogRecord(Info, message, r.error)) else None)
  }

  /** `LoggableResult::log_error`: as `log_info`, at error level. */
  function LogError<T, E>(r: Result<T, E>, message: string): (out: Logged<T, E>)
    ensures out.value == r
    ensures out.record.Some? <==> r.Err?
    ensures r.Err? ==> out.record.value == LogRecord(Error, message, r.error)
  {
    Logged(r, if r.Err? then Some(LogRecord(Error, message, r.error)) else None)
  }

  /** `LoggableResult::log_error_and_ignore`: logs like `log_error` and then drops the
      result, so all that is left is the record (Rust returns `()`). */
  function LogErrorAndIgnore<T, E>(r: Result<T, E>, message: string): (record: Option<LogRecord<E>>)
    ensures record.Some? <==> r.Err?
    ensures r.Err? ==> record == Some(LogRecord(Error, message, r.error))
  {
    LogError(r, message).record
  }

  /** The two passing combinators differ only in the level of what they log. */
  lemma LogInfoAndErrorDifferOnlyInLevel<T, E>(r: Result<T, E>, message: string)
    ensures LogInfo(r, message).value == LogError(r, message).value
    ensures r.Err? ==> LogInfo(r, message).record.value.(level := Error) == LogError(r, message).record.value
  {
  }
}
