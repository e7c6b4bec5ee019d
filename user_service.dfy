/** The borrower service: opening a loan (the borrower and its opening
    payment entry), the borrower lists, and deleting a borrower together
    with its payments. */
module UserServices {
  import opened LedgerModel
  import opened Repositories

  /** createUser: the prepared borrower is stored under a fresh id, then its
      opening entry under the next one. What this does to the payment
      listings is LedgerModel.OpeningEntryListings, whose requirements
      Valid() provides. */
  method CreateUser(store: Store, body: UserBody, settings: Settings) returns (saved: User)
    requires store.Valid()
    modifies store
    ensures store.Valid()
    ensures saved == Prepared(body, settings, old(store.nextId))
    ensures store.users == old(store.users)[saved.userId := saved]
    ensures store.transactions
         == old(store.transactions)[old(store.nextId) + 1 := InitialTransaction(saved, old(store.nextId) + 1)]
    ensures store.nextId == old(store.nextId) + 2
  {
    saved := store.SaveUser(Prepared(body, settings, 0));
    var opening := store.SaveTransaction(InitialTransaction(saved, 0));
  }

  /** getAllUsers: every stored borrower, in increasing id order. */
  function AllUsersOf(store: Store): (r: seq<User>)
    reads store
    requires store.Valid()
    ensures forall u :: u in r <==> u.userId in store.users && store.users[u.userId] == u
    ensures forall i, j | 0 <= i < j < |r| :: r[i].userId < r[j].userId
  {
    BelowIncreasing(store.users, store.nextId, (u: User) => true, (u: User) => u.userId);
    UsersBelow(store.users, store.nextId)
  }

  /** getAllEnabledUsers: exactly the stored borrowers whose enabled flag
      is set, in increasing id order. */
  function EnabledUsersOf(store: Store): (r: seq<User>)
    reads store
    requires store.Valid()
    ensures forall u :: u in r <==> u.enabled && u.userId in store.users && store.users[u.userId] == u
    ensures forall i, j | 0 <= i < j < |r| :: r[i].userId < r[j].userId
  {
    BelowIncreasing(store.users, store.nextId, (u: User) => u.enabled, (u: User) => u.userId);
    EnabledBelow(store.users, store.nextId)
  }

  /** deleteUserAndTransactions: a stored borrower goes together with all
      its payments; other borrowers and their payments stay. An unknown id
      changes nothing. Either way the borrower's listing is then empty and
      every other listing is unchanged. */
  method DeleteUserAndTransactions(store: Store, userId: Uuid)
    requires store.Valid()
    modifies store
    ensures store.Valid()
    ensures old(userId !in store.users) ==>
      store.users == old(store.users) && store.transactions == old(store.transactions)
    ensures old(userId in store.users) ==>
      && store.users == old(store.users) - {userId}
      && store.transactions == WithoutPaymentsOf(old(store.transactions), userId)
    ensures store.nextId == old(store.nextId)
    ensures ListingBelow(store.transactions, store.nextId, userId) == []
    ensures forall other | other != userId ::
      ListingBelow(store.transactions, store.nextId, other)
      == ListingBelow(old(store.transactions), old(store.nextId), other)
  {
    var user := store.FindUser(userId);
    if user.None? {
      // no payment refers to a borrower that is not stored
      BelowNoneMatch(store.transactions, store.nextId, (t: Transaction) => t.userId == userId);
      return;
    }
    ghost var txs := store.transactions;
    store.DeleteTransactionsOf(userId);
    store.DeleteUser(userId);
    forall other
      ensures ListingBelow(store.transactions, store.nextId, other)
           == if other == userId then [] else ListingBelow(txs, store.nextId, other)
    {
      DeletionKeepsOtherListings(txs, store.nextId, userId, other);
    }
  }
}
