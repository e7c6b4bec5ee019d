/** How the server's borrower list reaches the console's table: the JSON
    form of a stored borrower, and what a payment does to the borrower's
    place in the list the table is built from. */
module LedgerView {
  import opened Wrappers
  import opened Text
  import L = LedgerModel
  import C = ClientTypes
  import TableEngine

  /** A stored borrower as the console decodes it: the id as its decimal
      text and the dates through the server's date format, which is given
      as a parameter. */
  function ToClientUser(u: L.User, dateText: L.DateTime -> string): (c: C.User)
    ensures c.userId == NatText(u.userId)
    ensures c.startDate == dateText(u.startDate) && c.endDate == dateText(u.endDate)
    ensures c.mobile == u.mobile && c.name == u.name && c.balance == u.balance && c.interest == u.interest
    ensures c.remarks == u.remarks && c.enabled == u.enabled
  {
    C.User(NatText(u.userId), u.mobile, u.name, dateText(u.startDate), dateText(u.endDate),
      u.balance, u.interest, u.remarks, u.enabled)
  }

  /** The body of GET /users/enabled: the enabled borrowers below n, decoded. */
  function EnabledList(users: map<L.Uuid, L.User>, n: nat, dateText: L.DateTime -> string): seq<C.User> {
    var us := L.EnabledBelow(users, n);
    seq(|us|, i requires 0 <= i < |us| => ToClientUser(us[i], dateText))
  }

  /** After a payment to borrower id (stored under an id below n), the
      borrower is in the list the table is built from exactly when the new
      balance is positive; once it is paid off, no row of the table, for any
      search and any sorting, shows the borrower. */
  lemma PaidOffBorrowerLeavesTable(users: map<L.Uuid, L.User>, n: nat, id: L.Uuid, amountPaid: int, rate: real,
                                   dateText: L.DateTime -> string,
                                   sortBy: Option<TableEngine.Field>, reversed: bool, search: string)
    requires forall k | k in users :: users[k].userId == k
    requires id in users && id < n
    ensures var after := users[id := L.Paid(users[id], amountPaid, rate)];
      && (ToClientUser(after[id], dateText) in EnabledList(after, n, dateText) <==> after[id].balance > 0)
      && (after[id].balance <= 0 ==>
            forall row | row in TableEngine.SortData(EnabledList(after, n, dateText), sortBy, reversed, search) ::
              row.userId != NatText(id))
  {
    var after := users[id := L.Paid(users[id], amountPaid, rate)];
    var list := EnabledList(after, n, dateText);
    ListedRowsAreEnabled(after, n, dateText);
    if after[id].balance > 0 {
      var us := L.EnabledBelow(after, n);
      assert after[id] in us;
      var i :| 0 <= i < |us| && us[i] == after[id];
      assert list[i] == ToClientUser(after[id], dateText);
    } else {
      forall row | row in list
        ensures row.userId != NatText(id)
      {
        var k :| k in after && after[k].enabled && row == ToClientUser(after[k], dateText);
        NatTextInjective(k, id);
      }
      RowsComeFromList(list, sortBy, reversed, search);
    }
  }

  /** Every listed row is the decoded form of an enabled stored borrower. */
  lemma ListedRowsAreEnabled(users: map<L.Uuid, L.User>, n: nat, dateText: L.DateTime -> string)
    ensures forall row | row in EnabledList(users, n, dateText) ::
      exists k :: k in users && users[k].enabled && row == ToClientUser(users[k], dateText)
  {
    var us := L.EnabledBelow(users, n);
    var list := EnabledList(users, n, dateText);
    forall row | row in list
      ensures exists k :: k in users && users[k].enabled && row == ToClientUser(users[k], dateText)
    {
      var i :| 0 <= i < |list| && list[i] == row;
      assert us[i] in us;
    }
  }

  /** Every row of the table is a row of the list it is built from. */
  lemma RowsComeFromList(list: seq<C.User>, sortBy: Option<TableEngine.Field>, reversed: bool, search: string)
    ensures forall row | row in TableEngine.SortData(list, sortBy, reversed, search) :: row in list
  {
    var rows := TableEngine.SortData(list, sortBy, reversed, search);
    forall row | row in rows
      ensures row in list
    {
      assert multiset(rows)[row] > 0;
    }
  }
}
