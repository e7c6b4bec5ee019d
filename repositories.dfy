/** The two repositories the services share, as maps keyed by id, and the
    generator that issues ids. Every saved row gets a fresh id, larger than
    all earlier ones; queries list rows in id order, an order the model
    chooses where the source, with random UUID keys and no ORDER BY,
    promises none. */
module Repositories {
  import opened Wrappers
  import opened LedgerModel

  class Store {
    var users: map<Uuid, User>
    var transactions: map<Uuid, Transaction>
    /** The next id to issue. */
    var nextId: nat

    /** Every row sits under its own id, every id was issued already, and
        every payment belongs to a stored borrower. */
    ghost predicate Valid()
      reads this
    {
      && (forall k | k in users :: k < nextId && users[k].userId == k)
      && (forall k | k in transactions ::
            k < nextId && transactions[k].transactionId == k && transactions[k].userId in users)
    }

    constructor ()
      ensures users == map[] && transactions == map[] && nextId == 0
      ensures Valid()
    {
      users := map[];
      transactions := map[];
      nextId := 0;
    }

    /** userRepository.save of a new borrower: it is stored under a fresh id. */
    method SaveUser(u: User) returns (saved: User)
      requires Valid()
      modifies this
      ensures saved == u.(userId := old(nextId))
      ensures users == old(users)[saved.userId := saved]
      ensures transactions == old(transactions) && nextId == old(nextId) + 1
      ensures Valid()
    {
      saved := u.(userId := nextId);
      users := users[nextId := saved];
      nextId := nextId + 1;
    }

    /** Writes back a stored borrower's changed fields. */
    method UpdateUser(u: User)
      requires Valid() && u.userId in users
      modifies this
      ensures users == old(users)[u.userId := u]
      ensures transactions == old(transactions) && nextId == old(nextId)
      ensures Valid()
    {
      users := users[u.userId := u];
    }

    /** transactionRepository.save of a new payment of a stored borrower. */
    method SaveTransaction(t: Transaction) returns (saved: Transaction)
      requires Valid() && t.userId in users
      modifies this
      ensures saved == t.(transactionId := old(nextId))
      ensures transactions == old(transactions)[saved.transactionId := saved]
      ensures users == old(users) && nextId == old(nextId) + 1
      ensures Valid()
    {
      saved := t.(transactionId := nextId);
      transactions := transactions[nextId := saved];
      nextId := nextId + 1;
    }

    /** transactionRepository.deleteById; an id not stored is ignored. */
    method DeleteTransaction(id: Uuid)
      requires Valid()
      modifies this
      ensures transactions == old(transactions) - {id}
      ensures users == old(users) && nextId == old(nextId)
      ensures Valid()
    {
      transactions := transactions - {id};
    }

    /** transactionRepository.deleteByUser. */
    method DeleteTransactionsOf(userId: Uuid)
      requires Valid()
      modifies this
      ensures transactions == WithoutPaymentsOf(old(transactions), userId)
      ensures users == old(users) && nextId == old(nextId)
      ensures Valid()
    {
      transactions := WithoutPaymentsOf(transactions, userId);
    }

    /** userRepository.delete of a borrower no payment refers to. */
    method DeleteUser(userId: Uuid)
      requires Valid()
      requires forall k | k in transactions :: transactions[k].userId != userId
      modifies this
      ensures users == old(users) - {userId}
      ensures transactions == old(transactions) && nextId == old(nextId)
      ensures Valid()
    {
      users := users - {userId};
    }

    /** findByUserId / findById: the borrower, or null. */
    function FindUser(userId: Uuid): (r: Option<User>)
      reads this
      ensures r.Some? <==> userId in users
      ensures r.Some? ==> r.value == users[userId]
    {
      if userId in users then Some(users[userId]) else None
    }

    /** findById for payments. */
    function FindTransaction(id: Uuid): (r: Option<Transaction>)
      reads this
      ensures r.Some? <==> id in transactions
      ensures r.Some? ==> r.value == transactions[id]
    {
      if id in transactions then Some(transactions[id]) else None
    }
  }
}
