/** The borrower table's pure transformation: filter the fetched borrowers
    by a free-text query, then (optionally) sort them by one field. The sort
    runs on a copy, so the caller's list is a value that never changes. */
module TableEngine {
  import opened Wrappers
  import opened Text
  import opened ClientTypes

  // ---------------------------------------------------------------------
  // Filtering

  /** The normalised query: lower-cased, then trimmed. */
  function Query(search: string): string {
    Trim(LowerText(search))
  }

  /** A borrower passes when its lower-cased name or its lower-cased
      balance text contains the query. */
  predicate Matches(u: User, query: string) {
    Contains(LowerText(u.name), query) || Contains(LowerText(IntText(u.balance)), query)
  }

  /** a can be obtained from b by deleting elements (order is kept). */
  ghost predicate Subsequence(a: seq<User>, b: seq<User>) {
    if a == [] then true
    else if b == [] then false
    else (a[0] == b[0] && Subsequence(a[1..], b[1..])) || Subsequence(a, b[1..])
  }

  /** The borrowers of data that match query, in their order in data. */
  function KeepMatching(data: seq<User>, query: string): (r: seq<User>)
    ensures |r| <= |data|
    ensures forall x :: multiset(r)[x] == if Matches(x, query) then multiset(data)[x] else 0
    ensures Subsequence(r, data)
  {
    if data == [] then []
    else
      var rest := KeepMatching(data[1..], query);
      assert data == [data[0]] + data[1..];
      if Matches(data[0], query) then
        assert ([data[0]] + rest)[1..] == rest;
        [data[0]] + rest
      else rest
  }

  /** filterData: the borrowers whose name or balance contains the
      normalised search text. */
  function FilterData(data: seq<User>, search: string): (r: seq<User>)
    ensures |r| <= |data|
    ensures forall i :: 0 <= i < |r| ==> Matches(r[i], Query(search))
    ensures forall x :: multiset(r)[x] == if Matches(x, Query(search)) then multiset(data)[x] else 0
    ensures Subsequence(r, data)
  {
    var r := KeepMatching(data, Query(search));
    assert forall i :: 0 <= i < |r| ==> multiset(r)[r[i]] > 0;
    r
  }

  /** Filtering with a query every borrower matches keeps the list as it is. */
  lemma {:induction false} KeepMatchingAll(data: seq<User>, query: string)
    requires forall i :: 0 <= i < |data| ==> Matches(data[i], query)
    ensures KeepMatching(data, query) == data
  {
    if data != [] {
      KeepMatchingAll(data[1..], query);
      assert data == [data[0]] + data[1..];
    }
  }

  /** An empty or all-white-space search keeps every borrower, in order. */
  lemma BlankSearchKeepsAll(data: seq<User>, search: string)
    requires forall i :: 0 <= i < |search| ==> IsSpace(search[i])
    ensures FilterData(data, search) == data
  {
    var lowered := LowerText(search);
    assert forall i :: 0 <= i < |lowered| ==> IsSpace(lowered[i]) by {
      forall i | 0 <= i < |lowered| ensures IsSpace(lowered[i]) {
        assert lowered[i] == LowerChar(search[i]);
      }
    }
    assert Query(search) == [];
    forall i | 0 <= i < |data| ensures Matches(data[i], []) {
      assert LowerText(data[i].name)[..0] == [];
    }
    KeepMatchingAll(data, []);
  }

  /** Searching for a borrower's own balance keeps that borrower. */
  lemma SearchByBalanceKeeps(data: seq<User>, u: User)
    requires u in data
    ensures u in FilterData(data, IntText(u.balance))
  {
    var text := IntText(u.balance);
    IntTextLower(u.balance);
    assert Contains(text, Query(text));
    assert multiset(data)[u] > 0;
  }

  /** Filtering twice with the same search is filtering once. */
  lemma {:induction false} KeepMatchingIdempotent(data: seq<User>, query: string)
    ensures KeepMatching(KeepMatching(data, query), query) == KeepMatching(data, query)
  {
    var r := KeepMatching(data, query);
    forall i | 0 <= i < |r| ensures Matches(r[i], query) {
      assert multiset(r)[r[i]] > 0;
    }
    KeepMatchingAll(r, query);
  }

  // ---------------------------------------------------------------------
  // The comparator

  /** The keys of the User record (keyof User). */
  datatype Field = UserId | Mobile | Name | StartDate | EndDate | Balance | Interest | Remarks | Enabled {
    predicate IsNumeric() { this == Balance || this == Interest }
    predicate IsFlag() { this == Remarks || this == Enabled }
    predicate IsText() { !IsNumeric() && !IsFlag() }
  }

  /** The run-time value of user[field]. */
  datatype Value = Num(n: real) | Str(s: string) | Flag(b: bool)

  function Get(u: User, f: Field): (v: Value)
    ensures f.IsNumeric() <==> v.Num?
    ensures f.IsText() <==> v.Str?
  {
    match f
    case UserId => Str(u.userId)
    case Mobile => Str(u.mobile)
    case Name => Str(u.name)
    case StartDate => Str(u.startDate)
    case EndDate => Str(u.endDate)
    case Balance => Num(u.balance as real)
    case Interest => Num(u.interest)
    case Remarks => Flag(u.remarks)
    case Enabled => Flag(u.enabled)
  }

  function Sign(x: real): int {
    if x < 0.0 then -1 else if x > 0.0 then 1 else 0
  }

  /** The comparator sortData hands to Array.prototype.sort; only its sign
      matters to the sort, and a negative sign puts a before b. */
  function Compare(a: User, b: User, f: Field, reversed: bool): (r: int)
    ensures r == -1 || r == 0 || r == 1
  {
    var value1 := if reversed then Get(a, f) else Get(b, f);
    var value2 := if reversed then Get(b, f) else Get(a, f);
    if value1.Num? && value2.Num? then Sign(value1.n - value2.n)
    else if value1.Str? && value2.Str? then LocaleCompare(value2.s, value1.s)
    else 0
  }

  /** What the comparator's sign means. Unreversed, a larger number and a
      smaller text come first; reversed inverts both; boolean fields always
      compare equal, and otherwise only equal values compare equal. */
  lemma CompareMeaning(a: User, b: User, f: Field, reversed: bool)
    ensures var r := Compare(a, b, f, reversed);
      && (f.IsNumeric() ==> (r < 0 <==>
           if reversed then Get(a, f).n < Get(b, f).n else Get(a, f).n > Get(b, f).n))
      && (f.IsText() ==> (r < 0 <==>
           if reversed then TextLess(Get(b, f).s, Get(a, f).s) else TextLess(Get(a, f).s, Get(b, f).s)))
      && (f.IsFlag() ==> r == 0)
      && (r == 0 <==> f.IsFlag() || Get(a, f) == Get(b, f))
  {
  }

  /** Swapping the arguments negates the comparator. */
  lemma CompareAntisymmetric(a: User, b: User, f: Field, reversed: bool)
    ensures Compare(a, b, f, reversed) == -Compare(b, a, f, reversed)
  {
    if f.IsText() {
      TextLessTrichotomy(Get(a, f).s, Get(b, f).s);
    }
  }

  /** The reversed comparator is the unreversed one with its arguments swapped. */
  lemma CompareReversed(a: User, b: User, f: Field)
    ensures Compare(a, b, f, true) == Compare(b, a, f, false)
  {
    if f.IsText() {
      TextLessTrichotomy(Get(a, f).s, Get(b, f).s);
    }
  }

  lemma CompareTransitive(a: User, b: User, c: User, f: Field, reversed: bool)
    requires Compare(a, b, f, reversed) <= 0 && Compare(b, c, f, reversed) <= 0
    ensures Compare(a, c, f, reversed) <= 0
  {
    CompareMeaning(a, b, f, reversed);
    CompareMeaning(b, c, f, reversed);
    CompareMeaning(a, c, f, reversed);
    if f.IsText() {
      var x, y, z := Get(a, f).s, Get(b, f).s, Get(c, f).s;
      if !reversed && x != y && y != z {
        TextLessTransitive(x, y, z);
      } else if reversed && x != y && y != z {
        TextLessTransitive(z, y, x);
      }
    }
  }

  // ---------------------------------------------------------------------
  // Stable sorting

  ghost predicate Sorted(s: seq<User>, f: Field, reversed: bool) {
    forall i, j {:trigger Compare(s[i], s[j], f, reversed)} ::
      0 <= i < j < |s| ==> Compare(s[i], s[j], f, reversed) <= 0
  }

  /** The elements of s that compare equal to x, in their order in s. */
  function Ties(s: seq<User>, x: User, f: Field, reversed: bool): seq<User> {
    if s == [] then []
    else
      var last := s[|s| - 1];
      Ties(s[..|s| - 1], x, f, reversed) + TieOf(last, x, f, reversed)
  }

  /** Inserts x behind every element of r that does not compare greater. */
  function Insert(r: seq<User>, x: User, f: Field, reversed: bool): (t: seq<User>)
    ensures multiset(t) == multiset(r) + multiset{x}
    ensures |t| == |r| + 1
  {
    if r == [] then [x]
    else if Compare(r[|r| - 1], x, f, reversed) <= 0 then r + [x]
    else
      var init := r[..|r| - 1];
      SplitLast(r);
      Insert(init, x, f, reversed) + [r[|r| - 1]]
  }

  /** Array.prototype.sort with sortData's comparator: a stable sort,
      here insertion of each element in turn. */
  function StableSort(s: seq<User>, f: Field, reversed: bool): (r: seq<User>)
    ensures multiset(r) == multiset(s)
    ensures |r| == |s|
  {
    if s == [] then []
    else
      SplitLast(s);
      Insert(StableSort(s[..|s| - 1], f, reversed), s[|s| - 1], f, reversed)
  }

  lemma {:induction false} InsertSorted(r: seq<User>, x: User, f: Field, reversed: bool)
    requires Sorted(r, f, reversed)
    ensures Sorted(Insert(r, x, f, reversed), f, reversed)
  {
    if r != [] {
      var last := r[|r| - 1];
      var init := r[..|r| - 1];
      if Compare(last, x, f, reversed) <= 0 {
        forall i | 0 <= i < |r| - 1 ensures Compare(r[i], x, f, reversed) <= 0 {
          CompareTransitive(r[i], last, x, f, reversed);
        }
        SortedSnoc(r, x, f, reversed);
      } else {
        InsertSorted(init, x, f, reversed);
        var t := Insert(init, x, f, reversed);
        forall i | 0 <= i < |t| ensures Compare(t[i], last, f, reversed) <= 0 {
          assert t[i] in multiset(t);
          if t[i] == x {
            CompareAntisymmetric(last, x, f, reversed);
          } else {
            assert t[i] in multiset(init);
            var k :| 0 <= k < |init| && init[k] == t[i];
            assert init[k] == r[k];
          }
        }
        SortedSnoc(t, last, f, reversed);
      }
    }
  }

  lemma SortedSnoc(r: seq<User>, x: User, f: Field, reversed: bool)
    requires Sorted(r, f, reversed)
    requires forall i :: 0 <= i < |r| ==> Compare(r[i], x, f, reversed) <= 0
    ensures Sorted(r + [x], f, reversed)
  {
    var t := r + [x];
    forall i, j | 0 <= i < j < |t| ensures Compare(t[i], t[j], f, reversed) <= 0 {
      if j < |r| {
        assert t[i] == r[i] && t[j] == r[j];
      } else {
        assert t[i] == r[i] && t[j] == x;
      }
    }
  }

  /** The sort's result is ordered by the comparator. */
  lemma {:induction false} StableSortSorted(s: seq<User>, f: Field, reversed: bool)
    ensures Sorted(StableSort(s, f, reversed), f, reversed)
  {
    if s != [] {
      StableSortSorted(s[..|s| - 1], f, reversed);
      InsertSorted(StableSort(s[..|s| - 1], f, reversed), s[|s| - 1], f, reversed);
    }
  }

  lemma {:induction false} InsertTies(r: seq<User>, y: User, x: User, f: Field, reversed: bool)
    requires Sorted(r, f, reversed)
    ensures Ties(Insert(r, y, f, reversed), x, f, reversed)
         == Ties(r, x, f, reversed) + TieOf(y, x, f, reversed)
  {
    if r == [] {
      TiesSnoc([], y, x, f, reversed);
    } else if Compare(r[|r| - 1], y, f, reversed) <= 0 {
      TiesSnoc(r, y, x, f, reversed);
    } else {
      var init := r[..|r| - 1];
      assert Sorted(init, f, reversed);
      InsertTies(init, y, x, f, reversed);
      InsertTiesBehind(r, y, x, f, reversed);
    }
  }

  /** The step of InsertTies where y goes in front of r's last element. */
  lemma InsertTiesBehind(r: seq<User>, y: User, x: User, f: Field, reversed: bool)
    requires r != [] && Compare(r[|r| - 1], y, f, reversed) > 0
    requires Ties(Insert(r[..|r| - 1], y, f, reversed), x, f, reversed)
          == Ties(r[..|r| - 1], x, f, reversed) + TieOf(y, x, f, reversed)
    ensures Ties(Insert(r, y, f, reversed), x, f, reversed)
         == Ties(r, x, f, reversed) + TieOf(y, x, f, reversed)
  {
    var last := r[|r| - 1];
    var init := r[..|r| - 1];
    var t := Insert(init, y, f, reversed);
    var a, ty, tl := Ties(init, x, f, reversed), TieOf(y, x, f, reversed), TieOf(last, x, f, reversed);
    assert Insert(r, y, f, reversed) == t + [last];
    assert Ties(t + [last], x, f, reversed) == a + ty + tl by {
      TiesSnoc(t, last, x, f, reversed);
    }
    assert Ties(r, x, f, reversed) == a + tl by {
      SplitLast(r);
      TiesSnoc(init, last, x, f, reversed);
    }
    assert ty == [] || tl == [] by {
      NotBothTie(last, y, x, f, reversed);
    }
    SwapEmpty(a, ty, tl);
  }

  /** At most one of p and q is non-empty, so their order does not matter. */
  lemma SwapEmpty<T>(a: seq<T>, p: seq<T>, q: seq<T>)
    requires p == [] || q == []
    ensures a + p + q == a + q + p
  {
    if p == [] {
      assert a + p == a && a + q + p == a + q;
    } else {
      assert a + q == a && a + p + q == a + p;
    }
  }

  /** An element that compares greater than y cannot tie with x when y does. */
  lemma NotBothTie(z: User, y: User, x: User, f: Field, reversed: bool)
    requires Compare(z, y, f, reversed) > 0
    ensures TieOf(y, x, f, reversed) == [] || TieOf(z, x, f, reversed) == []
  {
    if Compare(y, x, f, reversed) == 0 && Compare(z, x, f, reversed) == 0 {
      CompareAntisymmetric(y, x, f, reversed);
      CompareTransitive(z, x, y, f, reversed);
    }
  }

  /** [z] when z ties with x, otherwise nothing. */
  function TieOf(z: User, x: User, f: Field, reversed: bool): seq<User> {
    if Compare(z, x, f, reversed) == 0 then [z] else []
  }

  lemma TiesSnoc(t: seq<User>, z: User, x: User, f: Field, reversed: bool)
    ensures Ties(t + [z], x, f, reversed) == Ties(t, x, f, reversed) + TieOf(z, x, f, reversed)
  {
    assert (t + [z])[..|t|] == t;
  }

  lemma SortedSlice(s: seq<User>, lo: nat, hi: nat, f: Field, reversed: bool)
    requires Sorted(s, f, reversed) && lo <= hi <= |s|
    ensures Sorted(s[lo..hi], f, reversed)
  {
    var t := s[lo..hi];
    forall i, j | 0 <= i < j < |t| ensures Compare(t[i], t[j], f, reversed) <= 0 {
      assert t[i] == s[lo + i] && t[j] == s[lo + j];
    }
  }

  lemma SplitLast<T>(s: seq<T>)
    requires s != []
    ensures s == s[..|s| - 1] + [s[|s| - 1]]
  {
  }

  /** Stability: for every element x, the elements that tie with x appear in
      the result in exactly their input order. */
  lemma {:induction false} StableSortStable(s: seq<User>, x: User, f: Field, reversed: bool)
    ensures Ties(StableSort(s, f, reversed), x, f, reversed) == Ties(s, x, f, reversed)
  {
    if s != [] {
      StableSortStable(s[..|s| - 1], x, f, reversed);
      StableSortSorted(s[..|s| - 1], f, reversed);
      InsertTies(StableSort(s[..|s| - 1], f, reversed), s[|s| - 1], x, f, reversed);
    }
  }

  /** Sorting a list that is already in order leaves it as it is. */
  lemma {:induction false} StableSortOfSorted(s: seq<User>, f: Field, reversed: bool)
    requires Sorted(s, f, reversed)
    ensures StableSort(s, f, reversed) == s
  {
    if s != [] {
      var init, last := s[..|s| - 1], s[|s| - 1];
      SortedSlice(s, 0, |s| - 1, f, reversed);
      StableSortOfSorted(init, f, reversed);
      if init != [] {
        assert init[|init| - 1] == s[|s| - 2];
      }
      InsertAtEnd(init, last, f, reversed);
      SplitLast(s);
    }
  }

  /** An element that no element of r exceeds goes to the end. */
  lemma InsertAtEnd(r: seq<User>, x: User, f: Field, reversed: bool)
    requires r == [] || Compare(r[|r| - 1], x, f, reversed) <= 0
    ensures Insert(r, x, f, reversed) == r + [x]
  {
  }

  /** Sorting by a boolean field (remarks, enabled) keeps the input order. */
  lemma {:induction false} FlagSortKeepsOrder(s: seq<User>, f: Field, reversed: bool)
    requires f.IsFlag()
    ensures StableSort(s, f, reversed) == s
  {
    if s != [] {
      var init := s[..|s| - 1];
      FlagSortKeepsOrder(init, f, reversed);
      if init != [] {
        assert Compare(init[|init| - 1], s[|s| - 1], f, reversed) == 0 by {
          CompareMeaning(init[|init| - 1], s[|s| - 1], f, reversed);
        }
      }
      assert StableSort(s, f, reversed) == init + [s[|s| - 1]];
      SplitLast(s);
    }
  }

  /** Filtering a sorted list keeps it sorted. */
  lemma {:induction false} KeepMatchingSorted(s: seq<User>, query: string, f: Field, reversed: bool)
    requires Sorted(s, f, reversed)
    ensures Sorted(KeepMatching(s, query), f, reversed)
  {
    if s != [] {
      SortedSlice(s, 1, |s|, f, reversed);
      KeepMatchingSorted(s[1..], query, f, reversed);
      var rest := KeepMatching(s[1..], query);
      if Matches(s[0], query) {
        forall y | y in rest ensures Compare(s[0], y, f, reversed) <= 0 {
          HeadBeforeRest(s, y, query, f, reversed);
        }
        SortedCons(s[0], rest, f, reversed);
      }
    }
  }

  /** The head of a sorted list does not exceed anything kept from its tail. */
  lemma HeadBeforeRest(s: seq<User>, y: User, query: string, f: Field, reversed: bool)
    requires Sorted(s, f, reversed) && s != []
    requires y in KeepMatching(s[1..], query)
    ensures Compare(s[0], y, f, reversed) <= 0
  {
    var rest := KeepMatching(s[1..], query);
    assert multiset(rest)[y] > 0;
    assert y in s[1..];
    var k :| 0 <= k < |s| - 1 && s[1..][k] == y;
    assert s[k + 1] == y;
  }

  /** An element no larger than anything in a sorted list can go in front. */
  lemma SortedCons(x: User, r: seq<User>, f: Field, reversed: bool)
    requires Sorted(r, f, reversed)
    requires forall y | y in r :: Compare(x, y, f, reversed) <= 0
    ensures Sorted([x] + r, f, reversed)
  {
    var t := [x] + r;
    forall i, j | 0 <= i < j < |t| ensures Compare(t[i], t[j], f, reversed) <= 0 {
      if i == 0 {
        assert t[j] == r[j - 1];
      } else {
        assert t[i] == r[i - 1] && t[j] == r[j - 1];
      }
    }
  }

  // ---------------------------------------------------------------------
  // sortData

  /** sortData: without a sort field, the filtered list in server order;
      with one, the filtered list of a stably sorted copy. */
  function SortData(data: seq<User>, sortBy: Option<Field>, reversed: bool, search: string): (r: seq<User>)
    ensures |r| <= |data|
    ensures forall i :: 0 <= i < |r| ==> Matches(r[i], Query(search))
    ensures forall x :: multiset(r)[x] == if Matches(x, Query(search)) then multiset(data)[x] else 0
    ensures sortBy.Some? ==> Sorted(r, sortBy.value, reversed)
    ensures sortBy.None? || sortBy.value.IsFlag() ==> Subsequence(r, data)
  {
    match sortBy
    case None => FilterData(data, search)
    case Some(f) =>
      StableSortSorted(data, f, reversed);
      KeepMatchingSorted(StableSort(data, f, reversed), Query(search), f, reversed);
      if f.IsFlag() then
        FlagSortKeepsOrder(data, f, reversed);
        FilterData(StableSort(data, f, reversed), search)
      else
        FilterData(StableSort(data, f, reversed), search)
  }

  /** Recomputing the rows from rows already produced changes nothing. */
  lemma SortDataIdempotent(data: seq<User>, sortBy: Option<Field>, reversed: bool, search: string)
    ensures var rows := SortData(data, sortBy, reversed, search);
      SortData(rows, sortBy, reversed, search) == rows
  {
    var rows := SortData(data, sortBy, reversed, search);
    var q := Query(search);
    match sortBy
    case None =>
      KeepMatchingIdempotent(data, q);
    case Some(f) =>
      StableSortOfSorted(rows, f, reversed);
      KeepMatchingIdempotent(StableSort(data, f, reversed), q);
  }

  lemma {:induction false} TiesCons(z: User, t: seq<User>, x: User, f: Field, reversed: bool)
    ensures Ties([z] + t, x, f, reversed) == TieOf(z, x, f, reversed) + Ties(t, x, f, reversed)
    decreases |t|
  {
    if t == [] {
      assert [z] + t == [] + [z];
      TiesSnoc([], z, x, f, reversed);
    } else {
      var init, last := t[..|t| - 1], t[|t| - 1];
      assert t == init + [last];
      assert [z] + t == ([z] + init) + [last];
      calc {
        Ties([z] + t, x, f, reversed);
        { TiesSnoc([z] + init, last, x, f, reversed); }
        Ties([z] + init, x, f, reversed) + TieOf(last, x, f, reversed);
        { TiesCons(z, init, x, f, reversed); }
        TieOf(z, x, f, reversed) + Ties(init, x, f, reversed) + TieOf(last, x, f, reversed);
        { TiesSnoc(init, last, x, f, reversed); }
        TieOf(z, x, f, reversed) + Ties(t, x, f, reversed);
      }
    }
  }

  lemma KeepMatchingCons(z: User, t: seq<User>, query: string)
    ensures KeepMatching([z] + t, query) == (if Matches(z, query) then [z] else []) + KeepMatching(t, query)
  {
    assert ([z] + t)[0] == z && ([z] + t)[1..] == t;
  }

  /** Keeping the matching borrowers and keeping the ties of x commute. */
  lemma {:induction false} TiesOfKept(s: seq<User>, query: string, x: User, f: Field, reversed: bool)
    ensures Ties(KeepMatching(s, query), x, f, reversed) == KeepMatching(Ties(s, x, f, reversed), query)
    decreases |s|
  {
    if s == [] {
      assert Ties([], x, f, reversed) == [];
    } else {
      var z, t := s[0], s[1..];
      assert s == [z] + t;
      TiesOfKept(t, query, x, f, reversed);
      KeepMatchingCons(z, t, query);
      TiesCons(z, t, x, f, reversed);
      if Matches(z, query) {
        TiesCons(z, KeepMatching(t, query), x, f, reversed);
      }
      if Compare(z, x, f, reversed) == 0 {
        KeepMatchingCons(z, Ties(t, x, f, reversed), query);
      } else {
        assert TieOf(z, x, f, reversed) + Ties(t, x, f, reversed) == Ties(t, x, f, reversed);
      }
    }
  }

  /** Stability of the rows: borrowers that tie with x on the sort field
      appear in the rows in the order the filtered server list has them. */
  lemma SortDataStable(data: seq<User>, f: Field, reversed: bool, search: string, x: User)
    ensures Ties(SortData(data, Some(f), reversed, search), x, f, reversed)
         == Ties(FilterData(data, search), x, f, reversed)
  {
    var q := Query(search);
    var sorted := StableSort(data, f, reversed);
    assert SortData(data, Some(f), reversed, search) == KeepMatching(sorted, q);
    TiesOfKept(sorted, q, x, f, reversed);
    StableSortStable(data, x, f, reversed);
    TiesOfKept(data, q, x, f, reversed);
  }

  /** Numeric columns, unreversed: rows come out largest first. */
  lemma NumericColumnDescending(data: seq<User>, f: Field, search: string, i: nat, j: nat)
    requires f.IsNumeric()
    requires i < j < |SortData(data, Some(f), false, search)|
    ensures var rows := SortData(data, Some(f), false, search);
      Get(rows[i], f).n >= Get(rows[j], f).n
  {
    var rows := SortData(data, Some(f), false, search);
    assert Compare(rows[i], rows[j], f, false) <= 0;
    CompareMeaning(rows[i], rows[j], f, false);
  }

  /** Text columns, unreversed: rows come out in ascending text order. */
  lemma TextColumnAscending(data: seq<User>, f: Field, search: string, i: nat, j: nat)
    requires f.IsText()
    requires i < j < |SortData(data, Some(f), false, search)|
    ensures var rows := SortData(data, Some(f), false, search);
      !TextLess(Get(rows[j], f).s, Get(rows[i], f).s)
  {
    var rows := SortData(data, Some(f), false, search);
    assert Compare(rows[i], rows[j], f, false) <= 0;
    CompareMeaning(rows[i], rows[j], f, false);
  }

  /** No row passes exactly when no borrower of data matches the search. */
  lemma EmptyRowsIffNoMatch(data: seq<User>, sortBy: Option<Field>, reversed: bool, search: string)
    ensures SortData(data, sortBy, reversed, search) == []
        <==> forall i :: 0 <= i < |data| ==> !Matches(data[i], Query(search))
  {
    var rows := SortData(data, sortBy, reversed, search);
    if rows == [] {
      forall i | 0 <= i < |data| ensures !Matches(data[i], Query(search)) {
        assert multiset(data)[data[i]] > 0;
        assert multiset(rows)[data[i]] == 0;
      }
    } else {
      assert multiset(rows)[rows[0]] > 0;
      assert rows[0] in data;
    }
  }
}
