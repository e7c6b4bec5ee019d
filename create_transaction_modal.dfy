/** The payment dialog opened from a borrower's row: the payment form and
    its schema, the two toggles that switch between the form and the payment
    history, the history query's gate and the history view. */
module CreateTransactionDialog {
  import opened Wrappers
  import opened ClientTypes
  import QueryCache

  // ---------------------------------------------------------------------
  // The form

  /** The form's values: the borrower id from the hidden input, the amount
      (None while the number box is empty) and the comment. */
  datatype PaymentForm = PaymentForm(userId: string, amountPaid: Option<int>, comment: Option<string>)

  const MIN_PAYMENT: int := 100

  /** The schema: a non-empty borrower id and an amount of at least 100;
      any comment, or none, is accepted. */
  predicate FormValid(form: PaymentForm) {
    |form.userId| >= 1 && form.amountPaid.Some? && form.amountPaid.value >= MIN_PAYMENT
  }

  /** The form as first shown for a borrower: its id in the hidden input,
      the default amount of 100 and an empty comment box. */
  function DefaultForm(user: User): (form: PaymentForm)
    ensures form.userId == user.userId && form.amountPaid == Some(MIN_PAYMENT)
  {
    PaymentForm(user.userId, Some(MIN_PAYMENT), Some(""))
  }

  /** The untouched form can be submitted exactly when the borrower has an id. */
  lemma DefaultFormValid(user: User)
    ensures FormValid(DefaultForm(user)) <==> user.userId != ""
  {
  }

  /** handleSubmit: the request sent, or None when the schema refuses the
      form (onSubmit is then not called). */
  function SubmitRequest(form: PaymentForm): (r: Option<Request>)
    ensures r.Some? <==> FormValid(form)
    ensures r.Some? ==> r.value.CreateTransaction? && r.value.userId == form.userId
    ensures r.Some? ==> r.value.CreateTransaction? && Some(r.value.amountPaid) == form.amountPaid
    ensures r.Some? ==> r.value.CreateTransaction? && r.value.amountPaid >= MIN_PAYMENT
    ensures r.Some? ==> r.value.CreateTransaction? && r.value.comment == form.comment
  {
    if FormValid(form) then Some(CreateTransaction(form.userId, form.amountPaid.value, form.comment)) else None
  }

  // ---------------------------------------------------------------------
  // The toggles

  /** The two useToggle flags: is the history shown instead of the form, and
      may the history query fetch. */
  datatype Toggles = Toggles(historyVisible: bool, fetchEnabled: bool)

  const INITIAL_TOGGLES := Toggles(false, false)

  /** The "Previous Transactions" link flips both flags. */
  function AfterLink(t: Toggles): (r: Toggles)
    ensures r.historyVisible != t.historyVisible && r.fetchEnabled != t.fetchEnabled
  {
    Toggles(!t.historyVisible, !t.fetchEnabled)
  }

  /** "Back" flips only the view flag. */
  function AfterBack(t: Toggles): (r: Toggles)
    ensures r.historyVisible != t.historyVisible && r.fetchEnabled == t.fetchEnabled
  {
    t.(historyVisible := !t.historyVisible)
  }

  /** Cancel and the dialog's close button flip only the fetch flag. */
  function AfterClose(t: Toggles): (r: Toggles)
    ensures r.historyVisible == t.historyVisible && r.fetchEnabled != t.fetchEnabled
  {
    t.(fetchEnabled := !t.fetchEnabled)
  }

  /** Because Back leaves the fetch flag alone, opening the history a second
      time turns fetching off again: the second view shows whatever the
      cache holds and never refetches. */
  lemma SecondHistoryVisitDoesNotFetch()
    ensures var once := AfterLink(INITIAL_TOGGLES);
      once == Toggles(true, true)
      && AfterLink(AfterBack(once)) == Toggles(true, false)
  {
  }

  /** Flipping the fetch flag twice restores it, whatever the view shows. */
  lemma LinkTwiceRestores(t: Toggles)
    ensures AfterLink(AfterLink(t)) == t && AfterBack(AfterBack(t)) == t
  {
  }

  // ---------------------------------------------------------------------
  // The history view

  /** The history table's body: the rows, or one "Nothing found" cell. */
  datatype HistoryBody = HistoryRows(rows: seq<TransactionRow>) | NoHistory(colSpan: nat)

  /** What the history pane shows: a loader, an error alert, a table whose
      body either renders or fails to. */
  datatype HistoryView = HistoryView(loader: bool, alert: bool, table: Option<Result<HistoryBody, RenderError>>)

  /** The table body as written: an empty list reaches the "Nothing found"
      branch, which takes its width from the keys of the missing data[0]. */
  function HistoryBodyAsWritten(data: seq<TransactionRow>): Result<HistoryBody, RenderError> {
    if |data| > 0 then Success(HistoryRows(data)) else Failure(KeysOfUndefined)
  }

  /** A borrower whose history is empty cannot be shown. */
  lemma EmptyHistoryCrashes()
    ensures HistoryBodyAsWritten([]).Failure?
  {
  }

  /** The body with the width taken from the history entry's key count. */
  function HistoryBodyOf(data: seq<TransactionRow>): (r: HistoryBody)
    ensures r.HistoryRows? <==> |data| > 0
    ensures r.HistoryRows? ==> r.rows == data
    ensures r.NoHistory? ==> r.colSpan == TRANSACTION_KEY_COUNT
  {
    if |data| > 0 then HistoryRows(data) else NoHistory(TRANSACTION_KEY_COUNT)
  }

  /** Wherever the written body renders, the corrected one shows the same. */
  lemma HistoryBodyAgrees(data: seq<TransactionRow>)
    requires HistoryBodyAsWritten(data).Success?
    ensures HistoryBodyAsWritten(data).value == HistoryBodyOf(data)
  {
  }

  /** The history pane for the cache entry's status and data: the table
      appears for any data, an empty list included, and its body is the
      written one, which fails on an empty list. */
  function HistoryViewOf(status: QueryCache.Status, data: Option<seq<TransactionRow>>): (v: HistoryView)
    ensures v.loader <==> status == QueryCache.Loading
    ensures v.alert <==> status == QueryCache.Error
    ensures v.table.Some? <==> data.Some?
    ensures v.table.Some? ==> (v.table.value.Failure? <==> data.value == [])
    ensures v.table.Some? && v.table.value.Success? ==> v.table.value.value == HistoryBodyOf(data.value)
    ensures !(v.loader && v.alert)
  {
    HistoryView(status == QueryCache.Loading, status == QueryCache.Error,
      if data.Some? then Some(HistoryBodyAsWritten(data.value)) else None)
  }

  // ---------------------------------------------------------------------
  // The dialog

  class PaymentDialog {
    /** The borrower the dialog was opened for. */
    const user: User
    var historyVisible: bool
    var fetchEnabled: bool
    /** A submission is in flight (mutation.isLoading). */
    var pending: bool
    /** close() has been called: the table drops its selected borrower. */
    var closed: bool

    function State(): Toggles
      reads this
    {
      Toggles(historyVisible, fetchEnabled)
    }

    constructor (user: User)
      ensures this.user == user && State() == INITIAL_TOGGLES && !pending && !closed
    {
      this.user := user;
      historyVisible := false;
      fetchEnabled := false;
      pending := false;
      closed := false;
    }

    /** The "Previous Transactions" link, shown with the form. */
    method ShowHistory()
      requires !historyVisible
      modifies this
      ensures State() == AfterLink(old(State()))
      ensures pending == old(pending) && closed == old(closed)
    {
      historyVisible := !historyVisible;
      fetchEnabled := !fetchEnabled;
    }

    /** "Back", shown with the history. */
    method Back()
      requires historyVisible
      modifies this
      ensures State() == AfterBack(old(State()))
      ensures pending == old(pending) && closed == old(closed)
    {
      historyVisible := !historyVisible;
    }

    /** "Cancel", shown with the form and disabled while a submission is in
      flight. */
    method Cancel()
      requires !historyVisible && !pending
      modifies this
      ensures closed
      ensures State() == AfterClose(old(State()))
      ensures pending == old(pending)
    {
      closed := true;
      fetchEnabled := !fetchEnabled;
    }

    /** The dialog's own close button or a click outside it. */
    method CloseModal()
      modifies this
      ensures closed
      ensures State() == AfterClose(old(State()))
      ensures pending == old(pending)
    {
      closed := true;
      fetchEnabled := !fetchEnabled;
    }

    /** "Submit", shown with the form; its loading state blocks a second
      click while a submission is in flight. */
    method Submit(form: PaymentForm) returns (request: Option<Request>)
      requires !historyVisible && !pending
      modifies this
      ensures request == SubmitRequest(form)
      ensures pending <==> request.Some?
      ensures State() == old(State()) && closed == old(closed)
    {
      request := SubmitRequest(form);
      if request.Some? {
        pending := true;
      }
    }

    /** The submission ended. On success the dialog closes and then the
      borrower list is invalidated; there is no failure handler. */
    method SubmitSettled(outcome: Outcome, client: QueryCache.QueryClient)
      requires pending
      modifies this, client
      ensures !pending
      ensures closed == (old(closed) || outcome == Succeeded)
      ensures client.invalidated
           == old(client.invalidated) + (if outcome == Succeeded then [QueryCache.AllUsers] else [])
      ensures client.historyStatus == old(client.historyStatus)
      ensures client.historyData == old(client.historyData)
      ensures State() == old(State())
    {
      pending := false;
      if outcome == Succeeded {
        closed := true;
        client.InvalidateQueries(QueryCache.AllUsers);
      }
    }

    /** The history query: while enabled, a fetch of this borrower's history
      stored under the one "all-transactions" key, whoever the borrower is. */
    function HistoryRequest(): (r: Option<(QueryCache.QueryKey, Request)>)
      reads this
      ensures r.Some? <==> fetchEnabled
      ensures r.Some? ==> r.value.0 == QueryCache.AllTransactions
      ensures r.Some? ==> r.value.1 == ListTransactions(user.userId)
    {
      if fetchEnabled then Some((QueryCache.AllTransactions, ListTransactions(user.userId))) else None
    }

    /** What the history pane shows: it reads the shared cache entry, so the
      rows may be another borrower's when the entry was filled for them. */
    function HistoryPane(client: QueryCache.QueryClient): (v: Option<HistoryView>)
      reads this, client
      ensures v.Some? <==> historyVisible
      ensures v.Some? ==> v.value == HistoryViewOf(client.historyStatus, client.historyData)
    {
      if historyVisible then Some(HistoryViewOf(client.historyStatus, client.historyData)) else None
    }
  }

  /** Two dialogs for different borrowers that read the same cache entry
      show the same history. */
  lemma HistoryIgnoresBorrower(a: PaymentDialog, b: PaymentDialog, client: QueryCache.QueryClient)
    requires a.historyVisible && b.historyVisible
    ensures a.HistoryPane(client) == b.HistoryPane(client)
  {
  }
}
