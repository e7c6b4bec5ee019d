/** The payment service: recording a payment against a borrower (which
    updates the borrower and stores the payment), the borrower's payment
    listing, and lookup and deletion of single payments. */
module TransactionServices {
  import opened Wrappers
  import opened LedgerModel
  import opened Repositories

  /** A posted payment as the server decodes it: the nested borrower
      reference (None when the user object or its id is null), the amount
      and the comment (None when null). */
  datatype PaymentBody = PaymentBody(user: Option<Uuid>, amountPaid: int, comment: Option<string>)

  /** The null dereferences that end a payment request: the comment is read
      first, then the borrower reference, then the loaded borrower. */
  datatype ServiceError = NullComment | NoBorrowerGiven | NoSuchBorrower

  /** The borrower a posted payment is booked to, or the error it stops on. */
  function PaymentTarget(body: PaymentBody, users: map<Uuid, User>): (r: Result<Uuid, ServiceError>)
    ensures r.Success? <==> body.comment.Some? && body.user.Some? && body.user.value in users
    ensures r.Success? ==> r.value == body.user.value && r.value in users
    ensures body.comment.None? ==> r == Failure(NullComment)
    ensures body.comment.Some? && body.user.None? ==> r == Failure(NoBorrowerGiven)
    ensures body.comment.Some? && body.user.Some? && body.user.value !in users ==> r == Failure(NoSuchBorrower)
  {
    if body.comment.None? then Failure(NullComment)
    else if body.user.None? then Failure(NoBorrowerGiven)
    else if body.user.value !in users then Failure(NoSuchBorrower)
    else Success(body.user.value)
  }

  /** createTransaction: the borrower's balance, interest and enabled flag
      are updated as Paid says, and the payment is stored under a fresh id
      with the new balance, the time of the request and the stored comment.
      It then comes last in its borrower's listing and no other listing
      changes. A failed request changes nothing. */
  method CreateTransaction(store: Store, body: PaymentBody, rate: real, now: DateTime)
    returns (r: Result<Transaction, ServiceError>)
    requires store.Valid()
    modifies store
    ensures store.Valid()
    ensures PaymentTarget(body, old(store.users)).Failure? ==>
      && r == Failure(PaymentTarget(body, old(store.users)).error)
      && store.users == old(store.users)
      && store.transactions == old(store.transactions)
      && store.nextId == old(store.nextId)
    ensures PaymentTarget(body, old(store.users)).Success? ==>
      var id := body.user.value;
      var u := Paid(old(store.users)[id], body.amountPaid, rate);
      && r == Success(Transaction(old(store.nextId), id, now, StoredComment(body.comment.value), body.amountPaid, u.balance))
      && store.users == old(store.users)[id := u]
      && store.transactions == old(store.transactions)[old(store.nextId) := r.value]
      && store.nextId == old(store.nextId) + 1
    ensures forall userId {:trigger ListingBelow(store.transactions, store.nextId, userId)} ::
      ListingBelow(store.transactions, store.nextId, userId)
      == ListingBelow(old(store.transactions), old(store.nextId), userId)
         + (if r.Success? && r.value.userId == userId then [ToDTO(r.value)] else [])
  {
    var target := PaymentTarget(body, store.users);
    if target.Failure? {
      return Failure(target.error);
    }
    var id := target.value;
    var user := Paid(store.users[id], body.amountPaid, rate);
    store.UpdateUser(user);
    ghost var txs := store.transactions;
    ghost var n := store.nextId;
    var saved := store.SaveTransaction(
      Transaction(0, id, now, StoredComment(body.comment.value), body.amountPaid, user.balance));
    r := Success(saved);
    forall userId
      ensures ListingBelow(store.transactions, store.nextId, userId)
           == ListingBelow(txs, n, userId) + (if saved.userId == userId then [ToDTO(saved)] else [])
    {
      NewPaymentListedLast(txs, n, saved, userId);
    }
  }

  /** getTransactionDTOsByUserId: one entry per stored payment of the
      borrower, copying its fields, in increasing id order. */
  function TransactionDTOsOf(store: Store, userId: Uuid): (r: seq<TransactionResponseDTO>)
    reads store
    requires store.Valid()
    ensures forall d :: d in r <==>
      exists k :: k in store.transactions && store.transactions[k].userId == userId && d == ToDTO(store.transactions[k])
    ensures forall i, j | 0 <= i < j < |r| :: r[i].transactionId < r[j].transactionId
  {
    ListingMeaning(store.transactions, store.nextId, userId);
    ListingBelow(store.transactions, store.nextId, userId)
  }

  /** deleteTransactionById: only that payment goes; an unknown id is
      ignored. */
  method DeleteTransactionById(store: Store, id: Uuid)
    requires store.Valid()
    modifies store
    ensures store.Valid()
    ensures store.transactions == old(store.transactions) - {id}
    ensures store.users == old(store.users) && store.nextId == old(store.nextId)
  {
    store.DeleteTransaction(id);
  }

  /** Deleting a payment removes its entry from its borrower's listing and
      keeps every other entry. */
  lemma DeletedPaymentLeavesListing(txs: map<Uuid, Transaction>, n: nat, id: Uuid, userId: Uuid)
    requires forall k | k in txs :: k < n && txs[k].transactionId == k
    ensures forall d ::
      (d in ListingBelow(txs - {id}, n, userId) <==> d in ListingBelow(txs, n, userId) && d.transactionId != id)
  {
    ListingMeaning(txs, n, userId);
    ListingMeaning(txs - {id}, n, userId);
    forall d | d in ListingBelow(txs, n, userId) && d.transactionId != id
      ensures d in ListingBelow(txs - {id}, n, userId)
    {
      var k :| k in txs && txs[k].userId == userId && d == ToDTO(txs[k]);
      assert k in txs - {id};
    }
  }
}
