/** The borrower table component: its view state (search text, sort field
    and direction, the rows shown, the borrower picked for a payment, the
    create-borrower dialog flag), the handlers that update it, the delete
    action and the table body it renders. */
module UsersTableView {
  import opened Wrappers
  import opened Text
  import opened ClientTypes
  import QueryCache
  import opened TableEngine

  // ---------------------------------------------------------------------
  // Pure parts

  /** setSorting's new direction: a click on the current sort field flips
      the direction, a click on any other field starts unreversed. */
  function NextReversed(sortBy: Option<Field>, reversed: bool, field: Field): bool {
    if sortBy == Some(field) then !reversed else false
  }

  /** The argument handleDeleteUser passes to the delete mutation: the row's
      borrower with an extra amount equal to its balance. */
  datatype DeleteParams = DeleteParams(user: User, amount: int)

  /** What the table body shows: the rows, or one "Nothing found" cell
      spanning colSpan columns. */
  datatype TableBody = Rows(rows: seq<User>) | NothingFound(colSpan: nat)

  /** The body as the component writes it: the "Nothing found" cell takes
      its width from the keys of data[0], which does not exist when the
      server listed no borrower. */
  function BodyAsWritten(data: seq<User>, sortedData: seq<User>): Result<TableBody, RenderError> {
    if |sortedData| > 0 then Success(Rows(sortedData))
    else if |data| == 0 then Failure(KeysOfUndefined)
    else Success(NothingFound(USER_KEY_COUNT))
  }

  /** With no borrower listed, the body fails to render whatever the search
      and sort settings are. */
  lemma EmptyListCrashes(sortBy: Option<Field>, reversed: bool, search: string)
    ensures BodyAsWritten([], SortData([], sortBy, reversed, search)) == Failure(KeysOfUndefined)
  {
  }

  /** The body with the cell width taken from the User record's key count,
      which is what data[0] supplies whenever it exists. */
  function Body(sortedData: seq<User>): (r: TableBody)
    ensures r.Rows? ==> r.rows == sortedData && |r.rows| > 0
    ensures r.NothingFound? ==> sortedData == [] && r.colSpan == USER_KEY_COUNT
  {
    if |sortedData| > 0 then Rows(sortedData) else NothingFound(USER_KEY_COUNT)
  }

  /** Wherever the written body renders, the corrected one shows the same. */
  lemma BodyAgrees(data: seq<User>, sortedData: seq<User>)
    requires BodyAsWritten(data, sortedData).Success?
    ensures BodyAsWritten(data, sortedData).value == Body(sortedData)
  {
  }

  /** "Nothing found" is shown exactly when no listed borrower matches the
      search, whatever the sort settings. */
  lemma NothingFoundIffNoMatch(data: seq<User>, sortBy: Option<Field>, reversed: bool, search: string)
    ensures Body(SortData(data, sortBy, reversed, search)).NothingFound?
        <==> forall i :: 0 <= i < |data| ==> !Matches(data[i], Query(search))
  {
    EmptyRowsIffNoMatch(data, sortBy, reversed, search);
  }

  /** Two clicks on the column the table is sorted by restore its direction,
      and therefore its rows. */
  lemma ClickTwiceRestores(data: seq<User>, f: Field, reversed: bool, search: string)
    ensures var once := NextReversed(Some(f), reversed, f);
      NextReversed(Some(f), once, f) == reversed
      && SortData(data, Some(f), NextReversed(Some(f), once, f), search) == SortData(data, Some(f), reversed, search)
  {
  }

  /** The first click on a column sorts it largest first when it is numeric,
      and in ascending text order when it holds text. */
  lemma FirstClickOrder(data: seq<User>, sortBy: Option<Field>, reversed: bool, f: Field, search: string,
                        i: nat, j: nat)
    requires sortBy != Some(f)
    requires i < j < |SortData(data, Some(f), NextReversed(sortBy, reversed, f), search)|
    ensures var rows := SortData(data, Some(f), NextReversed(sortBy, reversed, f), search);
      && (f.IsNumeric() ==> Get(rows[i], f).n >= Get(rows[j], f).n)
      && (f.IsText() ==> !TextLess(Get(rows[j], f).s, Get(rows[i], f).s))
  {
    if f.IsNumeric() {
      NumericColumnDescending(data, f, search, i, j);
    } else if f.IsText() {
      TextColumnAscending(data, f, search, i, j);
    }
  }

  /** With the search cleared the table shows every listed borrower, each
      as often as it is listed; unsorted, in the server's order. */
  lemma ClearedSearchShowsAll(data: seq<User>, sortBy: Option<Field>, reversed: bool)
    ensures var rows := SortData(data, sortBy, reversed, "");
      |rows| == |data| && multiset(rows) == multiset(data)
      && (sortBy.None? ==> rows == data)
  {
    var q := Query("");
    assert q == [] by {
      assert Trim(LowerText("")) == [];
    }
    forall x ensures Matches(x, q) {
      assert LowerText(x.name)[..0] == q;
    }
    var rows := SortData(data, sortBy, reversed, "");
    assert multiset(rows) == multiset(data);
    assert |rows| == |multiset(rows)|;
    BlankSearchKeepsAll(data, "");
  }

  // ---------------------------------------------------------------------
  // The component's state

  class UsersTable {
    /** The borrowers handed in by the page (the "all-users" query data). */
    var data: seq<User>
    var search: string
    var sortBy: Option<Field>
    var reversed: bool
    /** The rows shown. */
    var sortedData: seq<User>
    /** The borrower whose payment dialog is open, if any. */
    var selectedUser: Option<User>
    var createUserOpen: bool

    /** The rows shown are always the filtered, sorted view of data. */
    ghost predicate Valid()
      reads this
    {
      sortedData == SortData(data, sortBy, reversed, search)
    }

    /** First render: no search, no sort, the rows are data as given. */
    constructor (data: seq<User>)
      ensures this.data == data && search == "" && sortBy == None && !reversed
      ensures sortedData == data && selectedUser == None && !createUserOpen
      ensures Valid()
    {
      this.data := data;
      search := "";
      sortBy := None;
      reversed := false;
      sortedData := data;
      selectedUser := None;
      createUserOpen := false;
      BlankSearchKeepsAll(data, "");
    }

    /** A click on a column header. */
    method SetSorting(field: Field)
      modifies this
      ensures sortBy == Some(field)
      ensures reversed == (old(sortBy) == Some(field) && !old(reversed))
      ensures data == old(data) && search == old(search)
      ensures selectedUser == old(selectedUser) && createUserOpen == old(createUserOpen)
      ensures Valid()
    {
      reversed := NextReversed(sortBy, reversed, field);
      sortBy := Some(field);
      ShowRows();
    }

    /** A change of the search box. */
    method HandleSearchChange(value: string)
      modifies this
      ensures search == value
      ensures data == old(data) && sortBy == old(sortBy) && reversed == old(reversed)
      ensures selectedUser == old(selectedUser) && createUserOpen == old(createUserOpen)
      ensures Valid()
    {
      search := value;
      ShowRows();
    }

    /** The page hands in a new list (after a refetch): the effect recomputes
      the rows with the current settings. */
    method DataReceived(newData: seq<User>)
      modifies this
      ensures data == newData
      ensures search == old(search) && sortBy == old(sortBy) && reversed == old(reversed)
      ensures selectedUser == old(selectedUser) && createUserOpen == old(createUserOpen)
      ensures Valid()
    {
      data := newData;
      ShowRows();
    }

    /** setSortedData(sortData(data, ...)) with the settings now in force. */
    method ShowRows()
      modifies this
      ensures Valid()
      ensures data == old(data) && search == old(search) && sortBy == old(sortBy) && reversed == old(reversed)
      ensures selectedUser == old(selectedUser) && createUserOpen == old(createUserOpen)
    {
      sortedData := SortData(data, sortBy, reversed, search);
    }

    /** A click on a borrower's name, or on "Create Transaction". */
    method HandleUserSelect(user: User)
      modifies this
      ensures selectedUser == Some(user)
      ensures data == old(data) && search == old(search) && sortBy == old(sortBy)
      ensures reversed == old(reversed) && sortedData == old(sortedData)
      ensures createUserOpen == old(createUserOpen)
    {
      selectedUser := Some(user);
    }

    /** The payment dialog's close callback. */
    method CloseTransactionModal()
      modifies this
      ensures selectedUser == None
      ensures data == old(data) && search == old(search) && sortBy == old(sortBy)
      ensures reversed == old(reversed) && sortedData == old(sortedData)
      ensures createUserOpen == old(createUserOpen)
    {
      selectedUser := None;
    }

    /** "Add new user"; the button is disabled while the dialog is open. */
    method OpenCreateUserModal()
      requires !createUserOpen
      modifies this
      ensures createUserOpen
      ensures data == old(data) && search == old(search) && sortBy == old(sortBy)
      ensures reversed == old(reversed) && sortedData == old(sortedData)
      ensures selectedUser == old(selectedUser)
    {
      createUserOpen := true;
    }

    method CloseCreateUserModal()
      modifies this
      ensures !createUserOpen
      ensures data == old(data) && search == old(search) && sortBy == old(sortBy)
      ensures reversed == old(reversed) && sortedData == old(sortedData)
      ensures selectedUser == old(selectedUser)
    {
      createUserOpen := false;
    }

    /** "Delete User" on a row: the mutation's argument and the request it
      sends, which names the row's borrower by id. Nothing in the table
      changes until the list is refetched. */
    method HandleDeleteUser(user: User) returns (params: DeleteParams, request: Request)
      ensures params.user == user && params.amount == user.balance
      ensures request == DeleteUser(user.userId)
    {
      params := DeleteParams(user, user.balance);
      request := DeleteUser(params.user.userId);
    }

    /** The delete request ended: only a success invalidates "all-users". */
    method DeleteSettled(outcome: Outcome, client: QueryCache.QueryClient)
      modifies client
      ensures outcome == Succeeded ==> client.invalidated == old(client.invalidated) + [QueryCache.AllUsers]
      ensures outcome == Failed ==> client.invalidated == old(client.invalidated)
      ensures client.historyStatus == old(client.historyStatus)
      ensures client.historyData == old(client.historyData)
    {
      if outcome == Succeeded {
        client.InvalidateQueries(QueryCache.AllUsers);
      }
    }

    /** The table body the component renders for the current state, as
      written: it fails exactly when the server listed no borrower, and
      otherwise it is the corrected Body, which shows "Nothing found"
      exactly when no borrower matches the search. */
    function Rendered(): (r: Result<TableBody, RenderError>)
      reads this
      requires Valid()
      ensures r.Failure? <==> data == []
      ensures r.Success? ==> r.value == Body(sortedData)
      ensures r.Success? ==>
        (r.value.NothingFound? <==> forall i :: 0 <= i < |data| ==> !Matches(data[i], Query(search)))
    {
      NothingFoundIffNoMatch(data, sortBy, reversed, search);
      BodyAsWritten(data, sortedData)
    }
  }
}
