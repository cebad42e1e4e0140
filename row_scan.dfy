/**
 * The row loop every listing query runs: run the query, scan each result
 * row into a record and append it, then check the iteration error.  A
 * failure at any step returns no records and the step's wrapped error.
 */
module RowScan {
  import opened Wrappers

  /** Where reading a result set fails, if anywhere. */
  datatype ReadFault =
    | NoReadFault
    | QueryFails(error: string)
    | ScanFails(at: nat, error: string)
    | IterationFails(error: string)

  /** The messages a query wraps its read errors in. */
  datatype ReadMessages = ReadMessages(query: string, scan: string, iteration: string)

  /**
   * Collects the result rows.  With no fault (or a scan fault past the last
   * row) the records are the result set in order; otherwise there are none
   * and the error is the failing step's message and driver error.
   */
  method CollectRows<T>(result: seq<T>, fault: ReadFault, messages: ReadMessages)
    returns (records: seq<T>, err: Option<string>)
    ensures fault.NoReadFault? || (fault.ScanFails? && fault.at >= |result|) ==> records == result && err.None?
    ensures fault.QueryFails? ==> records == [] && err == Some(messages.query + fault.error)
    ensures fault.ScanFails? && fault.at < |result| ==> records == [] && err == Some(messages.scan + fault.error)
    ensures fault.IterationFails? ==> records == [] && err == Some(messages.iteration + fault.error)
  {
    if fault.QueryFails? {
      return [], Some(messages.query + fault.error);
    }
    records := [];
    var i := 0;
    while i < |result|
      invariant 0 <= i <= |result|
      invariant records == result[..i]
      invariant fault.ScanFails? ==> fault.at >= i
    {
      if fault.ScanFails? && fault.at == i {
        return [], Some(messages.scan + fault.error);
      }
      records := records + [result[i]];
      i := i + 1;
    }
    assert records == result;
    if fault.IterationFails? {
      return [], Some(messages.iteration + fault.error);
    }
    err := None;
  }
}
