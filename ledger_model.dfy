/** The server's records (borrowers, payments, the payment listing entry)
    and the pure parts of its services: the record updates, the text of the
    opening comment and the repository queries, which list rows in the
    order of their ids. */
module LedgerModel {
  import opened Wrappers
  import opened Text

  /** Generated identifiers: every id is issued once, in increasing order. */
  type Uuid = nat

  /** A LocalDateTime: a day number and the second within that day. */
  datatype DateTime = DateTime(day: int, secondOfDay: nat)

  function PlusDays(t: DateTime, n: int): (r: DateTime)
    ensures r.day == t.day + n && r.secondOfDay == t.secondOfDay
  {
    t.(day := t.day + n)
  }

  /** A borrower. Amounts are exact: whole rupees for the balance, a real
      for the interest. */
  datatype User = User(
    userId: Uuid,
    mobile: string,
    name: string,
    startDate: DateTime,
    endDate: DateTime,
    balance: int,
    interest: real,
    remarks: bool,
    enabled: bool)

  /** A payment, linked to its borrower by id. */
  datatype Transaction = Transaction(
    transactionId: Uuid,
    userId: Uuid,
    transactionDate: DateTime,
    comment: string,
    amountPaid: int,
    balance: int)

  /** One entry of a borrower's payment listing. */
  datatype TransactionResponseDTO = TransactionResponseDTO(
    transactionId: Uuid,
    transactionDate: DateTime,
    comment: string,
    amountPaid: int,
    balance: int)

  /** Constants.INTEREST_RATE and Constants.NUM_OF_DAYS. */
  datatype Settings = Settings(interestRate: real, numOfDays: int)

  // ---------------------------------------------------------------------
  // Payments

  const DEFAULT_COMMENT := "Payment Received"

  /** The stored comment: the default for an empty comment, else verbatim. */
  function StoredComment(comment: string): (r: string)
    ensures comment == [] ==> r == DEFAULT_COMMENT
    ensures comment != [] ==> r == comment
    ensures r != []
  {
    if comment == "" then DEFAULT_COMMENT else comment
  }

  /** The borrower after a payment: the amount comes off the balance, the
      amount times the rate goes on the interest, and the borrower stays
      enabled only while something is still owed. */
  function Paid(u: User, amountPaid: int, rate: real): (r: User)
    ensures r.balance == u.balance - amountPaid
    ensures r.interest == u.interest + amountPaid as real * rate
    ensures r.enabled <==> r.balance > 0
    ensures r == u.(balance := r.balance, interest := r.interest, enabled := r.enabled)
  {
    var balance := u.balance - amountPaid;
    u.(balance := balance, interest := u.interest + amountPaid as real * rate, enabled := balance > 0)
  }

  function Sum(amounts: seq<int>): int {
    if amounts == [] then 0 else Sum(amounts[..|amounts| - 1]) + amounts[|amounts| - 1]
  }

  /** A borrower after a series of payments, applied in order. */
  function PaidAll(u: User, amounts: seq<int>, rate: real): User {
    if amounts == [] then u else Paid(PaidAll(u, amounts[..|amounts| - 1], rate), amounts[|amounts| - 1], rate)
  }

  /** Payments add up: the balance drops by their total, the interest grows
      by the total times the rate, and after at least one payment the
      borrower is enabled exactly when the final balance is positive. */
  lemma {:induction false} PaymentsAccumulate(u: User, amounts: seq<int>, rate: real)
    ensures var r := PaidAll(u, amounts, rate);
      && r.balance == u.balance - Sum(amounts)
      && r.interest == u.interest + Sum(amounts) as real * rate
      && (amounts != [] ==> (r.enabled <==> r.balance > 0))
      && r.(balance := u.balance, interest := u.interest, enabled := u.enabled) == u
  {
    if amounts != [] {
      var init := amounts[..|amounts| - 1];
      PaymentsAccumulate(u, init, rate);
      assert (Sum(init) + amounts[|amounts| - 1]) as real * rate
          == Sum(init) as real * rate + amounts[|amounts| - 1] as real * rate;
    }
  }

  function ToDTO(t: Transaction): (d: TransactionResponseDTO)
    ensures d.transactionId == t.transactionId && d.transactionDate == t.transactionDate
    ensures d.comment == t.comment && d.amountPaid == t.amountPaid && d.balance == t.balance
  {
    TransactionResponseDTO(t.transactionId, t.transactionDate, t.comment, t.amountPaid, t.balance)
  }

  // ---------------------------------------------------------------------
  // New borrowers

  /** The posted borrower: fields the client leaves out are None and take
      the record's defaults (remarks false, enabled true). */
  datatype UserBody = UserBody(
    mobile: string,
    name: string,
    startDate: DateTime,
    balance: int,
    remarks: Option<bool>,
    enabled: Option<bool>)

  function OrElse(b: Option<bool>, default: bool): bool {
    if b.Some? then b.value else default
  }

  /** setUser plus the id the repository assigns: the loan starts the day
      after the submitted date, ends numOfDays after that, and its interest
      is the balance times the rate. */
  function Prepared(body: UserBody, settings: Settings, id: Uuid): (u: User)
    ensures u.userId == id && u.mobile == body.mobile && u.name == body.name && u.balance == body.balance
    ensures u.startDate == PlusDays(body.startDate, 1)
    ensures u.endDate == PlusDays(body.startDate, 1 + settings.numOfDays)
    ensures u.interest == body.balance as real * settings.interestRate
    ensures u.remarks == (body.remarks == Some(true)) && u.enabled == (body.enabled != Some(false))
  {
    var next := PlusDays(body.startDate, 1);
    User(id, body.mobile, body.name, next, PlusDays(next, settings.numOfDays), body.balance,
      body.balance as real * settings.interestRate, OrElse(body.remarks, false), OrElse(body.enabled, true))
  }

  const OPENING_COMMENT := "Initial loan amount paid "

  /** The opening entry of a new borrower: nothing paid, the full balance
      owed, dated the day before the loan starts. */
  function InitialTransaction(u: User, id: Uuid): (t: Transaction)
    ensures t.transactionId == id && t.userId == u.userId
    ensures t.transactionDate == PlusDays(u.startDate, -1)
    ensures t.comment == OPENING_COMMENT + FloatText(u.balance)
    ensures t.amountPaid == 0 && t.balance == u.balance
  {
    Transaction(id, u.userId, PlusDays(u.startDate, -1), OPENING_COMMENT + FloatText(u.balance), 0, u.balance)
  }

  /** The opening entry is dated with the submitted day itself, and its
      balance is the submitted balance. */
  lemma OpeningEntryMatchesSubmission(body: UserBody, settings: Settings, id: Uuid, tid: Uuid)
    ensures var t := InitialTransaction(Prepared(body, settings, id), tid);
      t.transactionDate == body.startDate && t.balance == body.balance && t.userId == id
  {
    var u := Prepared(body, settings, id);
    assert PlusDays(u.startDate, -1) == body.startDate;
  }

  // ---------------------------------------------------------------------
  // Float.toString for whole amounts

  const SCIENTIFIC_FROM: nat := 10000000

  /** The digits of a whole float: "d.0" below 10^7, otherwise "d.dddEk"
      with trailing zeros dropped (one zero kept after the point). */
  function FloatText(b: int): (s: string)
    ensures (if b < 0 then -b else b) < SCIENTIFIC_FROM ==> s == IntText(b) + ".0"
  {
    var m: nat := if b < 0 then -b else b;
    var sign := if b < 0 then "-" else "";
    if m < SCIENTIFIC_FROM then IntText(b) + ".0"
    else
      var digits := NatText(m);
      var rest := DropTrailingZeros(digits[1..]);
      sign + [digits[0]] + "." + (if rest == [] then "0" else rest) + "E" + NatText(|digits| - 1)
  }

  function DropTrailingZeros(s: string): (r: string)
    ensures |r| <= |s| && r == s[..|r|]
    ensures r == [] || r[|r| - 1] != '0'
    ensures forall i :: |r| <= i < |s| ==> s[i] == '0'
  {
    if s != [] && s[|s| - 1] == '0' then DropTrailingZeros(s[..|s| - 1]) else s
  }

  /** Below 10^7 the amount reads back from the comment's digits. */
  lemma FloatTextReadsBack(b: nat)
    requires b < SCIENTIFIC_FROM
    ensures var s := FloatText(b);
      |s| >= 3 && s[|s| - 2..] == ".0" && AllDigits(s[..|s| - 2]) && ParseDecimal(s[..|s| - 2]) == b
  {
    var s := FloatText(b);
    assert s[..|s| - 2] == NatText(b);
    ParseNatText(b);
  }

  // ---------------------------------------------------------------------
  // Repository queries
  //
  // The repositories' derived queries promise no order (no ORDER BY over
  // random UUID keys). The model fixes one: ids come from a counter and a
  // query lists rows in increasing id order, which is insertion order.

  /** The values of m under the ids below n that satisfy p, in id order:
      the repositories' derived queries, in the order the model fixes. */
  function Below<V(!new)>(m: map<Uuid, V>, n: nat, p: V -> bool): (r: seq<V>)
    ensures |r| <= n
    ensures forall i :: 0 <= i < |r| ==> p(r[i])
    ensures forall v :: v in r <==> p(v) && exists k :: k < n && k in m && m[k] == v
  {
    if n == 0 then []
    else
      var init := Below(m, n - 1, p);
      if n - 1 in m && p(m[n - 1]) then
        BelowStep(m, n, p, init);
        init + [m[n - 1]]
      else
        BelowSkip(m, n, p, init);
        init
  }

  lemma BelowStep<V(!new)>(m: map<Uuid, V>, n: nat, p: V -> bool, init: seq<V>)
    requires n > 0 && n - 1 in m && p(m[n - 1])
    requires forall v :: v in init <==> p(v) && exists k :: k < n - 1 && k in m && m[k] == v
    ensures forall v :: v in init + [m[n - 1]] <==> p(v) && exists k :: k < n && k in m && m[k] == v
  {
    forall v | p(v) && exists k :: k < n && k in m && m[k] == v
      ensures v in init + [m[n - 1]]
    {
      var k :| k < n && k in m && m[k] == v;
      if k < n - 1 {
        assert v in init;
      }
    }
  }

  lemma BelowSkip<V(!new)>(m: map<Uuid, V>, n: nat, p: V -> bool, init: seq<V>)
    requires n > 0 && !(n - 1 in m && p(m[n - 1]))
    requires forall v :: v in init <==> p(v) && exists k :: k < n - 1 && k in m && m[k] == v
    ensures forall v :: v in init <==> p(v) && exists k :: k < n && k in m && m[k] == v
  {
    forall v | p(v) && exists k :: k < n && k in m && m[k] == v
      ensures v in init
    {
      var k :| k < n && k in m && m[k] == v;
      assert k < n - 1;
    }
  }

  /** findAll over the ids below n. */
  function UsersBelow(users: map<Uuid, User>, n: nat): seq<User> {
    Below(users, n, (u: User) => true)
  }

  /** findAllByEnabledIsTrue over the ids below n. */
  function EnabledBelow(users: map<Uuid, User>, n: nat): seq<User> {
    Below(users, n, (u: User) => u.enabled)
  }

  /** findByUserUserId over the ids below n: the borrower's payments in
      id order. */
  function PaymentsBelow(txs: map<Uuid, Transaction>, n: nat, userId: Uuid): seq<Transaction> {
    Below(txs, n, (t: Transaction) => t.userId == userId)
  }

  /** getTransactionDTOsByUserId: one entry per payment of the borrower, in
      the repository's order. */
  function ListingBelow(txs: map<Uuid, Transaction>, n: nat, userId: Uuid): (r: seq<TransactionResponseDTO>)
    ensures |r| == |PaymentsBelow(txs, n, userId)|
    ensures forall i :: 0 <= i < |r| ==> r[i] == ToDTO(PaymentsBelow(txs, n, userId)[i])
  {
    var ps := PaymentsBelow(txs, n, userId);
    seq(|ps|, i requires 0 <= i < |ps| => ToDTO(ps[i]))
  }

  /** Rows whose key is their id come out of a query in increasing id order. */
  predicate IncreasingBy<V>(r: seq<V>, key: V -> nat) {
    forall i, j | 0 <= i < j < |r| :: key(r[i]) < key(r[j])
  }

  lemma {:induction false} BelowIncreasing<V(!new)>(m: map<Uuid, V>, n: nat, p: V -> bool, key: V -> nat)
    requires forall k | k in m :: key(m[k]) == k
    ensures IncreasingBy(Below(m, n, p), key)
  {
    if n > 0 {
      var init := Below(m, n - 1, p);
      BelowIncreasing(m, n - 1, p, key);
      if n - 1 in m && p(m[n - 1]) {
        var r := init + [m[n - 1]];
        forall i | 0 <= i < |init|
          ensures key(init[i]) < n - 1
        {
          assert init[i] in init;
          var k :| k < n - 1 && k in m && m[k] == init[i];
        }
        assert Below(m, n, p) == r;
        forall i, j | 0 <= i < j < |r|
          ensures key(r[i]) < key(r[j])
        {
          if j == |init| {
            assert r[i] == init[i] && r[j] == m[n - 1];
          } else {
            assert r[i] == init[i] && r[j] == init[j];
          }
        }
      }
    }
  }

  /** A borrower's listing holds exactly the entries of that borrower's
      stored payments, in increasing id order. */
  lemma ListingMeaning(txs: map<Uuid, Transaction>, n: nat, userId: Uuid)
    requires forall k | k in txs :: k < n && txs[k].transactionId == k
    ensures var r := ListingBelow(txs, n, userId);
      && (forall d :: d in r <==> exists k :: k in txs && txs[k].userId == userId && d == ToDTO(txs[k]))
      && (forall i, j | 0 <= i < j < |r| :: r[i].transactionId < r[j].transactionId)
  {
    var ps := PaymentsBelow(txs, n, userId);
    var r := ListingBelow(txs, n, userId);
    var key := (t: Transaction) => t.transactionId;
    BelowIncreasing(txs, n, (t: Transaction) => t.userId == userId, key);
    forall i, j | 0 <= i < j < |r|
      ensures r[i].transactionId < r[j].transactionId
    {
      assert key(ps[i]) < key(ps[j]);
    }
    forall d | d in r
      ensures exists k :: k in txs && txs[k].userId == userId && d == ToDTO(txs[k])
    {
      var i :| 0 <= i < |r| && r[i] == d;
      assert ps[i] in ps;
    }
    forall k | k in txs && txs[k].userId == userId
      ensures ToDTO(txs[k]) in r
    {
      assert txs[k] in ps;
      var i :| 0 <= i < |ps| && ps[i] == txs[k];
      assert r[i] == ToDTO(txs[k]);
    }
  }

  /** Raising the bound past every stored id changes no query. */
  lemma {:induction false} BelowPastKeys<V(!new)>(m: map<Uuid, V>, n: nat, bound: nat, p: V -> bool)
    requires forall k | k in m :: k < n
    requires n <= bound
    ensures Below(m, bound, p) == Below(m, n, p)
  {
    if n < bound {
      BelowPastKeys(m, n, bound - 1, p);
    }
  }

  // ---------------------------------------------------------------------
  // How the queries change

  /** Two maps that agree on which ids below n hold a matching row, and on
      those rows, give the same query result. */
  lemma {:induction false} BelowAgree<V(!new)>(m1: map<Uuid, V>, m2: map<Uuid, V>, n: nat, p: V -> bool)
    requires forall k :: k < n ==> (k in m1 && p(m1[k]) <==> k in m2 && p(m2[k]))
    requires forall k :: k < n && k in m1 && p(m1[k]) ==> k in m2 && m1[k] == m2[k]
    ensures Below(m1, n, p) == Below(m2, n, p)
  {
    if n > 0 {
      BelowAgree(m1, m2, n - 1, p);
    }
  }

  /** When no row below n matches, the query is empty. */
  lemma {:induction false} BelowNoneMatch<V(!new)>(m: map<Uuid, V>, n: nat, p: V -> bool)
    requires forall k | k < n && k in m :: !p(m[k])
    ensures Below(m, n, p) == []
  {
    if n > 0 {
      BelowNoneMatch(m, n - 1, p);
    }
  }

  /** A payment stored under a fresh id n, larger than every stored id,
      comes last in its borrower's listing, and no other listing changes. */
  lemma NewPaymentListedLast(txs: map<Uuid, Transaction>, n: nat, t: Transaction, userId: Uuid)
    requires forall k | k in txs :: k < n
    ensures ListingBelow(txs[n := t], n + 1, userId)
         == ListingBelow(txs, n, userId) + (if t.userId == userId then [ToDTO(t)] else [])
  {
    var p := (x: Transaction) => x.userId == userId;
    BelowAgree(txs[n := t], txs, n, p);
    var before := ListingBelow(txs, n, userId);
    var after := ListingBelow(txs[n := t], n + 1, userId);
    if t.userId == userId {
      assert PaymentsBelow(txs[n := t], n + 1, userId) == PaymentsBelow(txs, n, userId) + [t];
      assert after == before + [ToDTO(t)];
    } else {
      assert PaymentsBelow(txs[n := t], n + 1, userId) == PaymentsBelow(txs, n, userId);
    }
  }

  /** Opening a loan for the borrower stored under the fresh id n, with its
      opening entry t under n + 1: that borrower's listing is t alone, and
      every other listing stays as it was. */
  lemma OpeningEntryListings(txs: map<Uuid, Transaction>, n: nat, t: Transaction, userId: Uuid)
    requires forall k | k in txs :: k < n && txs[k].userId < n
    requires t.userId == n
    ensures ListingBelow(txs[n + 1 := t], n + 2, userId)
         == if userId == n then [ToDTO(t)] else ListingBelow(txs, n, userId)
  {
    var p := (x: Transaction) => x.userId == userId;
    NewPaymentListedLast(txs, n + 1, t, userId);
    BelowPastKeys(txs, n, n + 1, p);
    if userId == n {
      BelowNoneMatch(txs, n, p);
    }
  }

  /** The payments kept when a borrower's payments are deleted. */
  function WithoutPaymentsOf(txs: map<Uuid, Transaction>, userId: Uuid): (r: map<Uuid, Transaction>)
    ensures forall k :: k in r <==> k in txs && txs[k].userId != userId
    ensures forall k | k in r :: r[k] == txs[k]
  {
    map k | k in txs && txs[k].userId != userId :: txs[k]
  }

  /** Deleting a borrower's payments empties that borrower's listing and
      leaves every other listing as it was. */
  lemma DeletionKeepsOtherListings(txs: map<Uuid, Transaction>, n: nat, deleted: Uuid, userId: Uuid)
    ensures ListingBelow(WithoutPaymentsOf(txs, deleted), n, userId)
         == if userId == deleted then [] else ListingBelow(txs, n, userId)
  {
    var kept := WithoutPaymentsOf(txs, deleted);
    if userId == deleted {
      BelowNoneMatch(kept, n, (x: Transaction) => x.userId == userId);
    } else {
      BelowAgree(kept, txs, n, (x: Transaction) => x.userId == userId);
    }
  }
}
