/** The logging filter of `us_libraries`: only this package's records and
    those of `urllib3` are let through. */
module LogFilters {
  import opened Strings

  const ModulesToLog := ["us_libraries", "urllib3"]

  /** A log record; the filter reads only its logger name. */
  datatype LogRecord = LogRecord(name: string, level: int, message: string)

  /** Whether `name` starts with one of `modules`, tried in order. */
  function StartsWithAny(name: string, modules: seq<string>): (r: bool)
    ensures r <==> exists i :: 0 <= i < |modules| && StartsWith(name, modules[i])
  {
    if modules == [] then false
    else if StartsWith(name, modules[0]) then true
    else
      var r := StartsWithAny(name, modules[1..]);
      assert forall i :: 1 <= i < |modules| ==> modules[i] == modules[1..][i - 1];
      r
  }

  /** `ModuleFilter.filter(record)`. */
  function Filter(record: LogRecord): (r: bool)
    ensures r <==> StartsWith(record.name, "us_libraries") || StartsWith(record.name, "urllib3")
  {
    assert ModulesToLog[1..][1..] == [] && ModulesToLog[1..][0] == "urllib3";
    StartsWithAny(record.name, ModulesToLog)
  }

  /** A prefix test, not an equality test: sub-loggers pass, and so does any
      name that merely begins with a listed module's name. */
  lemma FilterIsPrefixTest(level: int, message: string)
    ensures Filter(LogRecord("us_libraries._download", level, message))
    ensures Filter(LogRecord("urllib3.connectionpool", level, message))
    ensures Filter(LogRecord("us_libraries_extra", level, message))
    ensures !Filter(LogRecord("", level, message))
    ensures !Filter(LogRecord("us_pls", level, message))
    ensures !Filter(LogRecord("requests.urllib3", level, message))
  {
    assert "us_libraries._download"[..12] == "us_libraries";
    assert "urllib3.connectionpool"[..7] == "urllib3";
    assert "us_libraries_extra"[..12] == "us_libraries";
    assert "requests.urllib3"[..12][0] == 'r';
    assert "requests.urllib3"[..7][0] == 'r';
  }

  /** Any name that starts with a listed module passes, whatever follows it. */
  lemma FilterAcceptsSubLoggers(suffix: string, level: int, message: string)
    ensures Filter(LogRecord("us_libraries" + suffix, level, message))
    ensures Filter(LogRecord("urllib3" + suffix, level, message))
  {
    assert ("us_libraries" + suffix)[..12] == "us_libraries";
    assert ("urllib3" + suffix)[..7] == "urllib3";
  }
}
