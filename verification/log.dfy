/**
 * The routing rules of Log.java. A logger is named by its `LogType`; writing
 * to it is an `Entry` (which logger, which level, which text). The
 * record-log switch read from the settings is a parameter, and a stack trace
 * is opaque text.
 */
module Log {

  datatype LogType = SYSTEM | RUNTIME | RECORD | DEBUG | FOREST | FARM | OTHER | ERROR | CAPTURE

  datatype Level = Info | Error

  datatype Entry = Entry(sink: LogType, level: Level, text: string)

  /** The global prefix `TAG`, which is empty. */
  const Prefix: string := ""

  /** The text a logger writes for pattern `TAG + "{}"` and one argument. */
  function Render(message: string): (r: string)
    ensures r == message
  {
    Prefix + message
  }

  /** The private `log(logType, message, isError)`: runtime and record
      messages are copied to the system logger at info level first; a record
      message stops there when record logging is off; otherwise the message
      goes to its own logger, at error level exactly when `isError`. */
  function Route(logType: LogType, message: string, isError: bool, recordLog: bool): (es: seq<Entry>)
    ensures 1 <= |es| <= 2
    ensures forall i :: 0 <= i < |es| ==> es[i].text == message
    ensures logType == RUNTIME || logType == RECORD ==> es[0] == Entry(SYSTEM, Info, message)
    ensures logType == RECORD && !recordLog ==> es == [Entry(SYSTEM, Info, message)]
    ensures logType != RUNTIME && logType != RECORD ==>
              es == [Entry(logType, if isError then Error else Info, message)]
    ensures !(logType == RECORD && !recordLog) ==> es[|es| - 1].sink == logType
    ensures logType == RECORD && !recordLog ==> forall i :: 0 <= i < |es| ==> es[i].sink != logType
    ensures forall i :: 0 <= i < |es| && es[i].sink == logType ==>
              es[i].level == (if isError then Error else Info)
  {
    var copy := if logType == RUNTIME || logType == RECORD then [Entry(SYSTEM, Info, Render(message))] else [];
    if logType == RECORD && !recordLog then copy
    else copy + [Entry(logType, if isError then Error else Info, Render(message))]
  }

  /** The one-argument public loggers (`system(msg)`, `runtime(msg)`, …,
      `capture(msg)`): info level. */
  function Plain(logType: LogType, message: string, recordLog: bool): (es: seq<Entry>)
    ensures forall i :: 0 <= i < |es| ==> es[i].level == Info && es[i].text == message
  {
    Route(logType, message, false, recordLog)
  }

  /** The text of a tagged message. */
  function TagText(tag: string, message: string): (r: string)
    ensures |r| == |tag| + |message| + 4
    ensures r[..|tag| + 1] == "[" + tag && r[|tag| + 1..|tag| + 4] == "]: " && r[|tag| + 4..] == message
  {
    "[" + tag + "]: " + message
  }

  /** The two-argument public loggers (`system(TAG, msg)`, …, `error(TAG, msg)`):
      the tagged text, at info level. */
  function Tagged(logType: LogType, tag: string, message: string, recordLog: bool): (es: seq<Entry>)
    ensures forall i :: 0 <= i < |es| ==> es[i].level == Info && es[i].text == TagText(tag, message)
  {
    Plain(logType, TagText(tag, message), recordLog)
  }

  /** `error(msg)`: one entry on the error logger, at error level. */
  function ErrorMessage(message: string): (es: seq<Entry>)
    ensures es == [Entry(ERROR, Error, message)]
  {
    Route(ERROR, message, true, false)
  }

  /** `error(TAG, msg)`: goes through the untagged info path, so one entry on
      the error logger at INFO level. */
  function ErrorTagged(tag: string, message: string): (es: seq<Entry>)
    ensures es == [Entry(ERROR, Info, "[" + tag + "]: " + message)]
  {
    Tagged(ERROR, tag, message, false)
  }

  /** The record-log switch changes nothing for other loggers, and for a
      record message it only suppresses the second entry. */
  lemma RecordSwitchOnlyAffectsRecord(logType: LogType, message: string, isError: bool)
    ensures logType != RECORD ==> Route(logType, message, isError, true) == Route(logType, message, isError, false)
    ensures Route(RECORD, message, isError, false) == Route(RECORD, message, isError, true)[..1]
  {
  }

  /** What was thrown: the one-argument `printStackTrace` overloads differ by
      the static type of their argument. */
  datatype Thrown = ThrowableValue(trace: string) | ExceptionValue(trace: string)

  /** `printStackTrace(th)` / `printStackTrace(e)`: an error-level entry. */
  function PrintStackTrace(t: Thrown): (es: seq<Entry>)
    ensures t.ThrowableValue? ==> es == [Entry(ERROR, Error, "error: " + t.trace)]
    ensures t.ExceptionValue? ==> es == [Entry(ERROR, Error, "Exception error: " + t.trace)]
  {
    match t
    case ThrowableValue(trace) => ErrorMessage("error: " + trace)
    case ExceptionValue(trace) => ErrorMessage("Exception error: " + trace)
  }

  /** `printStackTrace(msg, th)` (either argument type): `msg` becomes the tag
      of an info-level entry on the error logger. */
  function PrintStackTraceWithMessage(message: string, t: Thrown): (es: seq<Entry>)
    ensures es == [Entry(ERROR, Info, "[" + message + "]: " + ("Throwable error: " + t.trace))]
  {
    ErrorTagged(message, "Throwable error: " + t.trace)
  }

  /** `printStackTrace(TAG, msg, th)` (either argument type): `msg` is the tag
      and `TAG` is bracketed inside the text. */
  function PrintStackTraceWithTag(tag: string, message: string, t: Thrown): (es: seq<Entry>)
    ensures es == [Entry(ERROR, Info, "[" + message + "]: " + ("[" + tag + "] Throwable error: " + t.trace))]
  {
    ErrorTagged(message, "[" + tag + "] Throwable error: " + t.trace)
  }
}
