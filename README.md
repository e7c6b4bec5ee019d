# micro-finapp lending console, modelled in Dafny

The model covers micro-finapp, a small lending ledger. A browser console
lists the borrowers who still owe money. An operator can search and sort that
list, record a payment against a borrower, look at a borrower's earlier
payments, open a new loan and delete a borrower. A REST service keeps the
borrowers and their payments in two repositories. When it records a payment
it updates the borrower's balance, interest and enabled flag. When it opens a
loan it also writes an opening payment entry.

The project models both halves:

- `TableEngine`: the borrower table's filter-then-stable-sort.
- `UsersTableView`: the table component's view state, as the class `UsersTable`.
- `CreateTransactionDialog`: the payment dialog, with its form, its two
  toggles and the history pane read from a single cache entry.
- `CreateUserDialog`: the new-loan dialog, with its schema, the Indian mobile
  pattern and the posted start-date text.
- `LoginForm`: the login decision and the session switch.
- `QueryCache`: the cache events the components cause.
- `LedgerModel`: the server records, the pure record updates and the
  repository queries.
- `Repositories`: the two repositories, as the class `Store`.
- `TransactionServices` and `UserServices`: the two services, as methods on
  a `Store`.
- `LedgerView`: one lemma that links the server's enabled-borrower query to
  the rows of the table.
- `Text` and `Wrappers`: supporting text operations, and `Option`/`Result`.

The server's ids are random UUIDs, and its repository queries have no
ORDER BY, so the source promises no order for a listing. The model fixes
one: ids are issued by a counter and queries list rows in increasing id
order, which is insertion order. Every "in increasing id order" and "comes
last" below describes that chosen order, not a promise of the source.

## Model

| member | source | states |
|---|---|---|
| TableEngine.KeepMatching | frontend/src/components/UsersTable.tsx:96-101 | the kept borrowers are a subsequence of the input; each borrower occurs as often as in the input when it matches the query, and not at all otherwise; the result is never longer |
| Text.Trim | frontend/src/components/UsersTable.tsx:95 | the trimmed text occurs in the text, neither starts nor ends with white space, and is empty exactly when the text is all white space |
| Text.TrimDropsOnlyEnds | frontend/src/components/UsersTable.tsx:95 | trimming removes white space at the two ends and nothing else: the result is a slice of the text with only white space before and after it |
| Text.ContainsMeaning | frontend/src/components/UsersTable.tsx:99-100 | the recursive substring test holds exactly when the query occurs at some index of the text |
| TableEngine.FilterData | frontend/src/components/UsersTable.tsx:94-102 | every kept borrower's lower-cased name or balance text contains the lower-cased, trimmed search; exactly the matching ones are kept, in input order and with their multiplicities |
| TableEngine.KeepMatchingAll | frontend/src/components/UsersTable.tsx:96-101 | when every borrower matches, the list comes back unchanged |
| TableEngine.BlankSearchKeepsAll | frontend/src/components/UsersTable.tsx:95-101 | an empty or all-space search keeps the whole list, in order |
| TableEngine.SearchByBalanceKeeps | frontend/src/components/UsersTable.tsx:100 | searching for a listed borrower's balance text always finds that borrower |
| TableEngine.KeepMatchingIdempotent | frontend/src/components/UsersTable.tsx:96-101 | filtering a filtered list again changes nothing |
| TableEngine.Get | frontend/src/components/UsersTable.tsx:117-123 | user[field] is a number exactly for balance and interest, text exactly for the string fields, and a boolean otherwise |
| TableEngine.Compare | frontend/src/components/UsersTable.tsx:115-132 | the comparator's sign is -1, 0 or 1; CompareMeaning states what it means |
| TableEngine.CompareMeaning | frontend/src/components/UsersTable.tsx:116-131 | unreversed, a larger number or a smaller text sorts first; reversed inverts both; boolean fields always compare equal; otherwise only equal values compare equal |
| TableEngine.CompareAntisymmetric | frontend/src/components/UsersTable.tsx:115-132 | swapping the two borrowers negates the comparator |
| TableEngine.CompareReversed | frontend/src/components/UsersTable.tsx:117-123 | the reversed comparator is the unreversed one with its arguments swapped |
| TableEngine.CompareTransitive | frontend/src/components/UsersTable.tsx:115-132 | the comparator's "not after" relation is transitive, so a sort by it is well defined |
| TableEngine.StableSort | frontend/src/components/UsersTable.tsx:115 | the sorted copy is a permutation of the input |
| TableEngine.StableSortSorted | frontend/src/components/UsersTable.tsx:115-132 | the sorted copy is ordered by the comparator |
| TableEngine.StableSortStable | frontend/src/components/UsersTable.tsx:115 | borrowers that compare equal keep their relative input order (the sort is stable) |
| TableEngine.StableSortOfSorted | frontend/src/components/UsersTable.tsx:115 | sorting an already ordered list leaves it unchanged |
| TableEngine.FlagSortKeepsOrder | frontend/src/components/UsersTable.tsx:129-130 | sorting by a boolean column keeps the input order |
| TableEngine.KeepMatchingSorted | frontend/src/components/UsersTable.tsx:114-134 | filtering after sorting keeps the list ordered |
| TableEngine.SortData | frontend/src/components/UsersTable.tsx:104-135 | the rows are exactly the matching borrowers with their multiplicities; with a sort field they are ordered by it; without one, or by a boolean column, they keep the server's order |
| TableEngine.SortDataStable | frontend/src/components/UsersTable.tsx:104-135 | with a sort field, borrowers that tie with any borrower on that field appear in the rows in the order the filtered server list has them |
| TableEngine.SortDataIdempotent | frontend/src/components/UsersTable.tsx:104-135 | recomputing the rows from rows already produced changes nothing |
| TableEngine.NumericColumnDescending | frontend/src/components/UsersTable.tsx:120-126 | unreversed, a numeric column comes out largest first |
| TableEngine.TextColumnAscending | frontend/src/components/UsersTable.tsx:120-128 | unreversed, a text column comes out in ascending text order |
| TableEngine.EmptyRowsIffNoMatch | frontend/src/components/UsersTable.tsx:313 | there are no rows exactly when no listed borrower matches the search |
| UsersTableView.EmptyListCrashes | frontend/src/components/UsersTable.tsx:313-323 | with no borrower listed, the body as written fails to render, whatever the search and sort settings |
| UsersTableView.Body | frontend/src/components/UsersTable.tsx:313-323 | the rows when there are any; otherwise one "Nothing found" cell spanning the User record's nine keys |
| UsersTableView.BodyAgrees | frontend/src/components/UsersTable.tsx:313-323 | wherever the written body renders, it equals the corrected body |
| UsersTableView.NothingFoundIffNoMatch | frontend/src/components/UsersTable.tsx:313-323 | "Nothing found" shows exactly when no listed borrower matches the search |
| UsersTableView.ClickTwiceRestores | frontend/src/components/UsersTable.tsx:145-149 | two clicks on the current sort column restore its direction and its rows |
| UsersTableView.FirstClickOrder | frontend/src/components/UsersTable.tsx:145-149 | the first click on a column sorts it largest first when numeric and ascending when text |
| UsersTableView.ClearedSearchShowsAll | frontend/src/components/UsersTable.tsx:152-157 | with the search cleared, every listed borrower is shown as often as listed; unsorted, in the server's order |
| UsersTableView.UsersTable.constructor | frontend/src/components/UsersTable.tsx:138-143 | first render: no search, no sort, the rows are the data as given, nothing selected |
| UsersTableView.UsersTable.SetSorting | frontend/src/components/UsersTable.tsx:145-150 | the clicked field becomes the sort field; the direction flips on the same field and resets otherwise; the rows are recomputed and nothing else changes |
| UsersTableView.UsersTable.ShowRows | frontend/src/components/UsersTable.tsx:149 | the shown rows become sortData of the current list and settings, which restores the table's invariant; no setting changes |
| UsersTableView.UsersTable.HandleSearchChange | frontend/src/components/UsersTable.tsx:152-158 | the search becomes the typed text, the rows are recomputed with the current sort, and nothing else changes |
| UsersTableView.UsersTable.DataReceived | frontend/src/components/UsersTable.tsx:227-231 | new data recomputes the rows with the current settings |
| UsersTableView.UsersTable.HandleUserSelect | frontend/src/components/UsersTable.tsx:160-162 | the borrower becomes the selected one; nothing else changes |
| UsersTableView.UsersTable.CloseTransactionModal | frontend/src/components/UsersTable.tsx:326-332 | the payment dialog's close callback clears the selection only |
| UsersTableView.UsersTable.OpenCreateUserModal | frontend/src/components/UsersTable.tsx:245-249 | the button is disabled while the dialog is open; a click opens it and changes nothing else |
| UsersTableView.UsersTable.CloseCreateUserModal | frontend/src/components/UsersTable.tsx:333-337 | the new-loan dialog's close callback closes it only |
| UsersTableView.UsersTable.HandleDeleteUser | frontend/src/components/UsersTable.tsx:164-180 | the delete targets the row's borrower id, and the mutation argument carries an amount equal to the balance |
| UsersTableView.UsersTable.DeleteSettled | frontend/src/components/UsersTable.tsx:171-173 | "all-users" is invalidated exactly when the delete succeeded, and the history entry is untouched |
| UsersTableView.UsersTable.Rendered | frontend/src/components/UsersTable.tsx:313-323 | while the view state is consistent, rendering the body as written fails exactly when the server listed no borrower; otherwise it is the corrected body, which shows "Nothing found" exactly when no borrower matches the search |
| QueryCache.QueryClient.constructor | frontend/src/components/CreateTransactionModal.tsx:83-92 | an empty cache: nothing invalidated, the history entry loading and without data |
| QueryCache.QueryClient.InvalidateQueries | frontend/src/components/UsersTable.tsx:172 | an invalidation is appended to the log; the history entry is untouched |
| QueryCache.QueryClient.HistoryFetched | frontend/src/components/CreateTransactionModal.tsx:83-92 | a successful fetch stores its rows; a failed one sets the error status and keeps the earlier rows |
| CreateTransactionDialog.DefaultForm | frontend/src/components/CreateTransactionModal.tsx:55-60 | the form starts with the borrower's id and an amount of 100 |
| CreateTransactionDialog.DefaultFormValid | frontend/src/components/CreateTransactionModal.tsx:39-60 | the untouched form is valid exactly when the borrower has a non-empty id |
| CreateTransactionDialog.SubmitRequest | frontend/src/components/CreateTransactionModal.tsx:125-127 | a request is sent exactly when the id is non-empty and the amount is at least 100; it carries the form's id, amount and comment |
| CreateTransactionDialog.AfterLink | frontend/src/components/CreateTransactionModal.tsx:155-158 | the "Previous Transactions" link flips both flags |
| CreateTransactionDialog.AfterBack | frontend/src/components/CreateTransactionModal.tsx:218-221 | Back flips the view flag only |
| CreateTransactionDialog.AfterClose | frontend/src/components/CreateTransactionModal.tsx:132-135 | Cancel and close flip the fetch flag only |
| CreateTransactionDialog.SecondHistoryVisitDoesNotFetch | frontend/src/components/CreateTransactionModal.tsx:76-92 | the first history visit enables fetching; after Back, a second visit disables it again |
| CreateTransactionDialog.LinkTwiceRestores | frontend/src/components/CreateTransactionModal.tsx:76-81 | each toggle applied twice restores the flags |
| CreateTransactionDialog.EmptyHistoryCrashes | frontend/src/components/CreateTransactionModal.tsx:252-266 | an empty history makes the body as written fail to render |
| CreateTransactionDialog.HistoryBodyOf | frontend/src/components/CreateTransactionModal.tsx:252-266 | the rows when there are any; otherwise "Nothing found" spanning the entry's five keys |
| CreateTransactionDialog.HistoryBodyAgrees | frontend/src/components/CreateTransactionModal.tsx:252-266 | wherever the written body renders, it equals the corrected body |
| CreateTransactionDialog.HistoryViewOf | frontend/src/components/CreateTransactionModal.tsx:227-270 | a loader exactly while loading, an alert exactly on error (never both), and a table exactly when data is present, an empty list included; that table fails to render exactly when the list is empty, and otherwise shows the corrected body |
| CreateTransactionDialog.PaymentDialog.constructor | frontend/src/components/CreateTransactionModal.tsx:76-81 | both flags start false; nothing pending |
| CreateTransactionDialog.PaymentDialog.ShowHistory | frontend/src/components/CreateTransactionModal.tsx:154-158 | the link, shown with the form, flips both flags |
| CreateTransactionDialog.PaymentDialog.Back | frontend/src/components/CreateTransactionModal.tsx:218-221 | Back, shown with the history, flips the view flag only |
| CreateTransactionDialog.PaymentDialog.Cancel | frontend/src/components/CreateTransactionModal.tsx:200-207 | Cancel is disabled while pending; it closes the dialog and flips the fetch flag |
| CreateTransactionDialog.PaymentDialog.CloseModal | frontend/src/components/CreateTransactionModal.tsx:131-135 | close closes the dialog and flips the fetch flag |
| CreateTransactionDialog.PaymentDialog.Submit | frontend/src/components/CreateTransactionModal.tsx:193-199 | the request sent is the form's, and only a valid form starts a submission |
| CreateTransactionDialog.PaymentDialog.SubmitSettled | frontend/src/components/CreateTransactionModal.tsx:113-123 | success closes the dialog and invalidates "all-users"; failure does neither |
| CreateTransactionDialog.PaymentDialog.HistoryRequest | frontend/src/components/CreateTransactionModal.tsx:83-92 | a fetch runs exactly while fetching is enabled, always under "all-transactions", for this borrower |
| CreateTransactionDialog.PaymentDialog.HistoryPane | frontend/src/components/CreateTransactionModal.tsx:227-270 | the history pane shows exactly while the history is visible, and is the view of the shared entry, so an empty cached history makes it fail to render |
| CreateTransactionDialog.HistoryIgnoresBorrower | frontend/src/components/CreateTransactionModal.tsx:83-92 | two borrowers' dialogs show the same history from the one shared entry |
| CreateUserDialog.ValidMobileMatchesPattern | frontend/src/components/CreateNewUserModal.tsx:24-26 | the length-based check accepts exactly the texts matching ^(0\|91)?[6-9][0-9]{9}$ |
| CreateUserDialog.MobileError | frontend/src/components/CreateNewUserModal.tsx:24-26 | no error exactly for a matching number; otherwise "Invalid Mobile" |
| CreateUserDialog.PaddedReadsBack | frontend/src/components/CreateNewUserModal.tsx:59-63 | a number below 10^width pads to exactly width digits that read back as the number |
| CreateUserDialog.StartDateTextReadsBack | frontend/src/components/CreateNewUserModal.tsx:59-63 | the posted "DD-MM-YYYY 00:00:00" text reads back as the picked day at midnight |
| CreateUserDialog.DefaultForm | frontend/src/components/CreateNewUserModal.tsx:39-44 | the start date defaults to today |
| CreateUserDialog.DefaultFormInvalid | frontend/src/components/CreateNewUserModal.tsx:22-44 | the untouched form cannot be submitted |
| CreateUserDialog.SubmitRequest | frontend/src/components/CreateNewUserModal.tsx:59-66 | a request is posted exactly for a valid form; it is the form's data with the date replaced by its text |
| CreateUserDialog.PostedRequestWellFormed | frontend/src/components/CreateNewUserModal.tsx:22-66 | every posted mobile matches the pattern, every balance is at least 3, and every date reads back as the picked day |
| CreateUserDialog.UserDialog.constructor | frontend/src/components/CreateNewUserModal.tsx:114-130 | nothing pending, not closed |
| CreateUserDialog.UserDialog.Submit | frontend/src/components/CreateNewUserModal.tsx:115-121 | the request is the form's, and only a valid form starts a submission |
| CreateUserDialog.UserDialog.SubmitSettled | frontend/src/components/CreateNewUserModal.tsx:47-57 | success closes the dialog and invalidates "all-users"; failure leaves both alone |
| CreateUserDialog.UserDialog.Cancel | frontend/src/components/CreateNewUserModal.tsx:122-129 | Cancel is disabled while pending, and closes the dialog |
| CreateUserDialog.UserDialog.CloseModal | frontend/src/components/CreateNewUserModal.tsx:69 | close closes the dialog |
| LoginForm.OnSubmit | frontend/src/components/Login.tsx:42-53 | login succeeds exactly when both fields equal the account, and stores the mobile; otherwise each field's message is its error text exactly when that field differs, and empty exactly when it matches |
| LoginForm.RefusalShowsAnError | frontend/src/components/Login.tsx:45-52 | a refused login always shows at least one error |
| LoginForm.HandleSubmit | frontend/src/components/Login.tsx:26-29 | onSubmit runs exactly for input with a non-empty mobile and a password of at least 8 characters |
| LoginForm.ScreenOf | frontend/src/App.tsx:17-32 | the main layout shows exactly when the stored id is non-empty |
| LoginForm.SessionAfter | frontend/src/App.tsx:17-30 | only a successful login writes the stored id |
| LoginForm.Logout | frontend/src/components/MainHeader.tsx:84 | logging out returns to the login screen |
| LoginForm.LoginReachesMain | frontend/src/components/Login.tsx:42-53 | from the login screen, the main layout is reached exactly for schema-valid input matching the account, with the mobile as the id |
| LedgerModel.PlusDays | backend/src/main/java/com/cherry/finance/service/UserService.java:55-56 | moves the date by whole days and keeps the time of day |
| LedgerModel.StoredComment | backend/src/main/java/com/cherry/finance/service/TransactionService.java:32-33 | an empty comment becomes "Payment Received"; a non-empty one is kept verbatim; the result is never empty |
| LedgerModel.Paid | backend/src/main/java/com/cherry/finance/service/TransactionService.java:36-42 | the balance drops by the amount and the interest grows by amount times rate; the borrower is enabled exactly while the new balance is positive; nothing else changes |
| LedgerModel.PaymentsAccumulate | backend/src/main/java/com/cherry/finance/service/TransactionService.java:36-42 | a series of payments lowers the balance by their sum and raises the interest by the sum times the rate; after one or more, enabled means the final balance is positive |
| LedgerModel.ToDTO | backend/src/main/java/com/cherry/finance/service/TransactionService.java:66-74 | the listing entry copies id, date, comment, amount and balance |
| LedgerModel.Prepared | backend/src/main/java/com/cherry/finance/service/UserService.java:52-62 | start = submitted date + 1 day; end = start + NUM_OF_DAYS; interest = balance × rate; remarks defaults false and enabled defaults true |
| LedgerModel.InitialTransaction | backend/src/main/java/com/cherry/finance/service/UserService.java:64-73 | the opening entry: nothing paid, the full balance owed, dated the day before the start, comment "Initial loan amount paid " + balance |
| LedgerModel.OpeningEntryMatchesSubmission | backend/src/main/java/com/cherry/finance/service/UserService.java:64-73 | the opening entry is dated with the submitted day and carries the submitted balance |
| LedgerModel.FloatText | backend/src/main/java/com/cherry/finance/service/UserService.java:69 | below 10^7 in magnitude, a whole balance prints as its digits followed by ".0" |
| LedgerModel.FloatTextReadsBack | backend/src/main/java/com/cherry/finance/service/UserService.java:69 | below 10^7, the amount reads back from the comment's digits |
| LedgerModel.Below | backend/src/main/java/com/cherry/finance/repository/UserRepository.java:10-11 | a derived query lists exactly the stored rows that satisfy it |
| LedgerModel.BelowIncreasing | backend/src/main/java/com/cherry/finance/repository/UserRepository.java:10-11 | in the model's chosen listing order (the source's query has no ORDER BY), a query lists rows in increasing counter-id order |
| LedgerModel.ListingMeaning | backend/src/main/java/com/cherry/finance/service/TransactionService.java:56-63 | a borrower's listing holds exactly the entries of that borrower's payments, in the model's increasing counter-id order |
| LedgerModel.NewPaymentListedLast | backend/src/main/java/com/cherry/finance/service/TransactionService.java:49-63 | with counter ids, a newly saved payment comes last in its borrower's listing; no other listing changes |
| LedgerModel.WithoutPaymentsOf | backend/src/main/java/com/cherry/finance/repository/TransactionRepository.java:14 | deleteByUser keeps exactly the other borrowers' payments, unchanged |
| LedgerModel.DeletionKeepsOtherListings | backend/src/main/java/com/cherry/finance/service/UserService.java:75-82 | after deleting a borrower's payments, that listing is empty and every other listing is as before |
| Repositories.Store.constructor | backend/src/main/java/com/cherry/finance/repository/UserRepository.java:9-11 | empty repositories |
| Repositories.Store.SaveUser | backend/src/main/java/com/cherry/finance/service/UserService.java:35 | the borrower is stored under a fresh id; payments are unchanged |
| Repositories.Store.UpdateUser | backend/src/main/java/com/cherry/finance/service/TransactionService.java:40-42 | the stored borrower is replaced by its updated copy |
| Repositories.Store.SaveTransaction | backend/src/main/java/com/cherry/finance/service/TransactionService.java:49 | the payment is stored under a fresh id; borrowers are unchanged |
| Repositories.Store.DeleteTransaction | backend/src/main/java/com/cherry/finance/service/TransactionService.java:80-82 | only that id is removed |
| Repositories.Store.DeleteTransactionsOf | backend/src/main/java/com/cherry/finance/repository/TransactionRepository.java:14 | all of the borrower's payments are removed, and only those |
| Repositories.Store.DeleteUser | backend/src/main/java/com/cherry/finance/service/UserService.java:80 | the borrower is removed once no payment refers to it |
| Repositories.Store.FindUser | backend/src/main/java/com/cherry/finance/service/UserService.java:40-42 | the stored borrower under the id, or none exactly when there is none |
| Repositories.Store.FindTransaction | backend/src/main/java/com/cherry/finance/service/TransactionService.java:76-78 | the stored payment under the id, or none exactly when there is none |
| TransactionServices.PaymentTarget | backend/src/main/java/com/cherry/finance/service/TransactionService.java:31-36 | a null comment fails first, then a missing borrower reference, then an unknown borrower; otherwise the named borrower |
| TransactionServices.CreateTransaction | backend/src/main/java/com/cherry/finance/service/TransactionService.java:31-50 | on failure nothing changes; on success the borrower is updated as Paid and the payment is stored under a fresh id with the stored comment, the amount, the new balance and the request time; with counter ids it comes last in its borrower's listing and no other listing changes |
| TransactionServices.TransactionDTOsOf | backend/src/main/java/com/cherry/finance/service/TransactionService.java:56-74 | one entry per stored payment of the borrower, copying its fields, in the model's increasing counter-id order |
| TransactionServices.DeleteTransactionById | backend/src/main/java/com/cherry/finance/service/TransactionService.java:80-82 | only that payment is removed; an unknown id is ignored |
| TransactionServices.DeletedPaymentLeavesListing | backend/src/main/java/com/cherry/finance/service/TransactionService.java:80-82 | the deleted payment leaves its borrower's listing and every other entry stays |
| UserServices.CreateUser | backend/src/main/java/com/cherry/finance/service/UserService.java:33-38 | the prepared borrower is stored under a fresh id, then exactly one opening entry for it under the next id; nothing else changes |
| LedgerModel.OpeningEntryListings | backend/src/main/java/com/cherry/finance/service/UserService.java:33-38 | after a loan is opened, the new borrower's listing is its opening entry alone and every other listing is unchanged |
| UserServices.AllUsersOf | backend/src/main/java/com/cherry/finance/service/UserService.java:44-46 | exactly the stored borrowers, in the model's increasing counter-id order |
| UserServices.EnabledUsersOf | backend/src/main/java/com/cherry/finance/service/UserService.java:48-50 | exactly the stored borrowers whose enabled flag is set, in the model's increasing counter-id order |
| UserServices.DeleteUserAndTransactions | backend/src/main/java/com/cherry/finance/service/UserService.java:75-82 | a stored borrower goes with all its payments, and the rest stay; an unknown id changes nothing; the borrower's listing is then empty and other listings are unchanged |
| LedgerView.ToClientUser | frontend/src/types/users.ts:1-11 | the decoded borrower carries the stored fields, with the id as decimal text |
| LedgerView.PaidOffBorrowerLeavesTable | backend/src/main/java/com/cherry/finance/service/TransactionService.java:36-42 | after a payment, the borrower is in the enabled list exactly when the new balance is positive; once paid off, no table row shows it, for any search or sort |

## Left out

- Rendering and styling (JSX, Mantine layout, icons, the header cells) are left out. So are row keys and the tel: links.
- The cache library's fetching, coalescing and refetch timing are left out. A completed fetch, a settled mutation and an invalidation are explicit events on `QueryCache.QueryClient`.
- HTTP, axios and JSON decoding are left out. A request is a `ClientTypes.Request` value, and an outcome is `Succeeded` or `Failed`.
- The delete request's body is left out. `http.delete` receives the parameters, but the server reads only the id in the path.
- Controllers are left out: they only forward to the services and choose status codes.
- Ids and listing order: the source's keys are random UUIDs and its derived queries (`findAllByEnabledIsTrue`, `findByUserUserId`) have no ORDER BY, so the source lists rows in no promised order. The model issues ids from a counter and lists rows in increasing id order, which is insertion order; every ordering fact in the model (`LedgerModel.BelowIncreasing`, `LedgerModel.ListingMeaning`, `LedgerModel.NewPaymentListedLast`, `TransactionServices.CreateTransaction`, `TransactionServices.TransactionDTOsOf`, `UserServices.AllUsersOf`, `UserServices.EnabledUsersOf`) is about that chosen order only.
- Java `float` arithmetic is left out. Balances and amounts are whole rupees (`int`), interest is an exact `real`, and the model does no rounding. Fractional payments are not modelled.
- `LedgerModel.FloatText`: it is stated only for magnitudes below 10^7. The scientific form above that is written out but has no readback property.
- Dates: `DateFormatHelper` is not part of this model. A server date is a day number plus a second of the day, and the server's date text is a parameter of `LedgerView.ToClientUser`.
- moment's calendar is left out, including validation of day and month. `CreateUserDialog.StartDateTextReadsBack` assumes a picked day below 100, a month below 100 and a year below 10000.
- "Now" (`LocalDateTime.now()`) and today's date are parameters.
- `TableEngine.Compare`: `localeCompare` is modelled as code-point lexicographic order, which is a total order. `toLowerCase` is ASCII only. `Number.toString` is modelled for whole balances only.
- String lengths are counted in Unicode scalar values (`|s|`). The schemas' `.min(n)` checks (`LoginForm.SchemaValid`, `CreateUserDialog.FormValid`) count UTF-16 code units, so text with characters outside the Basic Multilingual Plane can pass a length check in the source and fail it in the model.
- The login account comes from the build's environment settings; here it is a parameter.
- The session is held in local storage. Only its value is modelled.
- `TransactionServices.CreateTransaction` writes the loaded borrower's changes back explicitly. The source relies on the persistence context flushing the loaded entity when the payment is saved.
- `TransactionServices.CreateTransaction`: a posted payment that already carries a transaction id is not modelled. The request is always treated as a new payment.
- `TransactionServices.PaymentTarget`: a null user object and a user object without an id are merged into one error, because both end in a null dereference before anything is written.
- The services' plain delegations (getTransactionsByUserId, getTransactionById, getUserByUserId) are covered by `Repositories.Store.FindTransaction`, `Repositories.Store.FindUser` and `LedgerModel.PaymentsBelow`.

## Findings

| source | as written | input that shows it | evidently intended | confidence | as-written member | corrected member |
|---|---|---|---|---|---|---|
| frontend/src/components/UsersTable.tsx:313-323 | the "Nothing found" cell takes its width from `Object.keys(data[0])` | the server lists no enabled borrower (`data = []`): `data[0]` is undefined and the body throws | "Nothing found" spanning the User record's nine columns | not executed | UsersTableView.EmptyListCrashes | UsersTableView.Body |
| frontend/src/components/CreateTransactionModal.tsx:252-266 | the history's "Nothing found" cell takes its width from `Object.keys(transactionsQuery.data[0])` | a borrower whose payment entries, the opening one included, were all deleted (`data = []`): `data[0]` is undefined and the pane throws | "Nothing found" spanning the entry's five columns | not executed | CreateTransactionDialog.EmptyHistoryCrashes | CreateTransactionDialog.HistoryBodyOf |
