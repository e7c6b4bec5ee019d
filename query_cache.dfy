/** The part of the query cache the console's components touch: the log of
    invalidated keys and the one cache entry that holds payment history.
    Fetching, coalescing and refetch timing are not modelled; a completed
    fetch is an explicit event. */
module QueryCache {
  import opened Wrappers
  import opened ClientTypes

  /** The cache keys the console uses: "all-users" and "all-transactions". */
  datatype QueryKey = AllUsers | AllTransactions

  /** A query's status. A query that has no data yet reports Loading, also
      while it is disabled. */
  datatype Status = Loading | Error | Success

  class QueryClient {
    /** Every invalidateQueries call, in order. */
    var invalidated: seq<QueryKey>
    /** The "all-transactions" entry: one entry for every borrower. */
    var historyStatus: Status
    var historyData: Option<seq<TransactionRow>>

    constructor ()
      ensures invalidated == [] && historyStatus == Loading && historyData == None
    {
      invalidated := [];
      historyStatus := Loading;
      historyData := None;
    }

    method InvalidateQueries(key: QueryKey)
      modifies this
      ensures invalidated == old(invalidated) + [key]
      ensures historyStatus == old(historyStatus) && historyData == old(historyData)
    {
      invalidated := invalidated + [key];
    }

    /** A fetch of the "all-transactions" entry completed: with the rows on
        success, with None on failure. A failure keeps the earlier rows. */
    method HistoryFetched(result: Option<seq<TransactionRow>>)
      modifies this
      ensures invalidated == old(invalidated)
      ensures result.Some? ==> historyStatus == Status.Success && historyData == result
      ensures result.None? ==> historyStatus == Error && historyData == old(historyData)
    {
      if result.Some? {
        historyStatus := Status.Success;
        historyData := result;
      } else {
        historyStatus := Error;
      }
    }
  }
}
