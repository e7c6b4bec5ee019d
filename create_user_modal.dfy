/** The create-borrower dialog: the form schema (name, Indian mobile
    number, opening balance, start date), the payload it posts and what a
    finished submission does to the dialog and the cache. */
module CreateUserDialog {
  import opened Wrappers
  import opened Text
  import opened ClientTypes
  import QueryCache

  // ---------------------------------------------------------------------
  // The mobile number

  predicate IsLeadingDigit(c: char) {
    '6' <= c <= '9'
  }

  /** [6-9][0-9]{9}: ten digits, the first of them 6 to 9. */
  predicate SubscriberNumber(s: string) {
    |s| == 10 && IsLeadingDigit(s[0]) && AllDigits(s)
  }

  /** (0|91)? */
  predicate IsMobilePrefix(p: string) {
    p == "" || p == "0" || p == "91"
  }

  /** The pattern ^(0|91)?[6-9][0-9]{9}$ read literally: the text splits into
      an allowed prefix and a subscriber number. */
  ghost predicate MatchesMobilePattern(s: string) {
    exists k | 0 <= k <= |s| :: IsMobilePrefix(s[..k]) && SubscriberNumber(s[k..])
  }

  /** The same check decided by length: 10, 11 or 12 characters. */
  predicate ValidMobile(s: string) {
    if |s| == 10 then SubscriberNumber(s)
    else if |s| == 11 then s[0] == '0' && SubscriberNumber(s[1..])
    else if |s| == 12 then s[..2] == "91" && SubscriberNumber(s[2..])
    else false
  }

  lemma ValidMobileMatchesPattern(s: string)
    ensures ValidMobile(s) <==> MatchesMobilePattern(s)
  {
    if ValidMobile(s) {
      var k := |s| - 10;
      if |s| == 11 {
        assert s[..k] == [s[0]] == "0";
      }
      assert IsMobilePrefix(s[..k]) && SubscriberNumber(s[k..]);
    }
    if MatchesMobilePattern(s) {
      var k :| 0 <= k <= |s| && IsMobilePrefix(s[..k]) && SubscriberNumber(s[k..]);
      assert k == |s| - 10;
      if k == 1 {
        assert s[0] == s[..k][0];
      }
    }
  }

  /** The mobile field's error: none for a number matching the pattern,
      "Invalid Mobile" otherwise. */
  function MobileError(s: string): (e: Option<string>)
    ensures e.None? <==> MatchesMobilePattern(s)
    ensures e.Some? ==> e.value == "Invalid Mobile"
  {
    ValidMobileMatchesPattern(s);
    if ValidMobile(s) then None else Some("Invalid Mobile")
  }

  // ---------------------------------------------------------------------
  // The start date

  /** A day picked in the date picker. */
  datatype CalendarDate = CalendarDate(day: nat, month: nat, year: nat)

  /** moment's "DD" / "MM" / "YYYY": the number padded with zeros to the width. */
  function Padded(n: nat, width: nat): string {
    PadStart(NatText(n), width, '0')
  }

  /** The start date as posted: "DD-MM-YYYY" followed by " 00:00:00". */
  function StartDateText(d: CalendarDate): string {
    Padded(d.day, 2) + "-" + Padded(d.month, 2) + "-" + Padded(d.year, 4) + " 00:00:00"
  }

  /** The fields of a "DD-MM-YYYY HH:mm:ss" text. */
  datatype DateTimeFields = DateTimeFields(day: nat, month: nat, year: nat, hour: nat, minute: nat, second: nat)

  /** Reads a "DD-MM-YYYY HH:mm:ss" text, the layout in which the console and
      the server exchange dates. */
  function ParseDateTime(s: string): (r: Option<DateTimeFields>)
    ensures r.Some? ==> |s| == 19
  {
    if |s| == 19 && s[2] == '-' && s[5] == '-' && s[10] == ' ' && s[13] == ':' && s[16] == ':'
       && AllDigits(s[0..2]) && AllDigits(s[3..5]) && AllDigits(s[6..10])
       && AllDigits(s[11..13]) && AllDigits(s[14..16]) && AllDigits(s[17..19])
    then Some(DateTimeFields(ParseDecimal(s[0..2]), ParseDecimal(s[3..5]), ParseDecimal(s[6..10]),
                             ParseDecimal(s[11..13]), ParseDecimal(s[14..16]), ParseDecimal(s[17..19])))
    else None
  }

  /** A number below 10^width pads to exactly width digits that read back
      as the number. */
  lemma PaddedReadsBack(n: nat, width: nat)
    requires width >= 1 && n < Pow10(width)
    ensures |Padded(n, width)| == width && AllDigits(Padded(n, width))
    ensures ParseDecimal(Padded(n, width)) == n
  {
    var s := NatText(n);
    NatTextLength(n, width);
    var r := Padded(n, width);
    var z := r[..width - |s|];
    assert r == z + s;
    ParseLeadingZeros(z, s);
    ParseNatText(n);
  }

  /** The posted start date reads back as the picked day at midnight
      (for days and months below 100 and years below 10000, which the
      picker's calendar keeps to). */
  lemma StartDateTextReadsBack(d: CalendarDate)
    requires d.day < 100 && d.month < 100 && d.year < 10000
    ensures ParseDateTime(StartDateText(d)) == Some(DateTimeFields(d.day, d.month, d.year, 0, 0, 0))
  {
    assert Pow10(2) == 100 && Pow10(4) == 10000;
    PaddedReadsBack(d.day, 2);
    PaddedReadsBack(d.month, 2);
    PaddedReadsBack(d.year, 4);
    ReadMidnight(Padded(d.day, 2), Padded(d.month, 2), Padded(d.year, 4));
  }

  /** A "DD-MM-YYYY 00:00:00" text built from digit groups reads back as
      those groups' values at midnight. */
  lemma ReadMidnight(dd: string, mm: string, yyyy: string)
    requires |dd| == 2 && |mm| == 2 && |yyyy| == 4
    requires AllDigits(dd) && AllDigits(mm) && AllDigits(yyyy)
    ensures ParseDateTime(dd + "-" + mm + "-" + yyyy + " 00:00:00")
         == Some(DateTimeFields(ParseDecimal(dd), ParseDecimal(mm), ParseDecimal(yyyy), 0, 0, 0))
  {
    MidnightLayout(dd, mm, yyyy);
    assert AllDigits("00") && ParseDecimal("00") == 0 by {
      ZerosParseToZero("00");
    }
  }

  /** Where the pieces of a "DD-MM-YYYY 00:00:00" text sit. */
  lemma MidnightLayout(dd: string, mm: string, yyyy: string)
    requires |dd| == 2 && |mm| == 2 && |yyyy| == 4
    ensures var s := dd + "-" + mm + "-" + yyyy + " 00:00:00";
      && |s| == 19 && s[2] == '-' && s[5] == '-' && s[10] == ' ' && s[13] == ':' && s[16] == ':'
      && s[0..2] == dd && s[3..5] == mm && s[6..10] == yyyy
      && s[11..13] == "00" && s[14..16] == "00" && s[17..19] == "00"
  {
    var p1 := dd + "-";
    var p2 := p1 + mm;
    var p3 := p2 + "-";
    var p4 := p3 + yyyy;
    var s := p4 + " 00:00:00";
    assert s[..10] == p4 by { SliceOfJoin(p4, " 00:00:00"); }
    var tail := " 00:00:00";
    assert s[10..] == tail by { SliceOfJoin(p4, tail); }
    assert s[11..13] == tail[1..3] == "00";
    assert s[14..16] == tail[4..6] == "00";
    assert s[17..19] == tail[7..9] == "00";
    assert p4[..6] == p3 && p4[6..] == yyyy by { SliceOfJoin(p3, yyyy); }
    assert p3[..5] == p2 by { SliceOfJoin(p2, "-"); }
    assert p2[..3] == p1 && p2[3..] == mm by { SliceOfJoin(p1, mm); }
    assert p1[..2] == dd by { SliceOfJoin(dd, "-"); }
    assert s[0..2] == dd;
    assert s[3..5] == mm;
    assert s[6..10] == yyyy;
  }

  lemma SliceOfJoin(a: string, b: string)
    ensures (a + b)[..|a|] == a && (a + b)[|a|..] == b
  {
  }

  // ---------------------------------------------------------------------
  // The form

  /** The form's values; the balance is None while its number box is empty. */
  datatype UserForm = UserForm(name: string, mobile: string, balance: Option<int>, startDate: CalendarDate)

  const MIN_BALANCE: int := 3

  /** The schema: a non-empty name, a mobile matching the pattern and a
      balance of at least 3; the start date is not checked. */
  predicate FormValid(form: UserForm) {
    |form.name| >= 1 && ValidMobile(form.mobile) && form.balance.Some? && form.balance.value >= MIN_BALANCE
  }

  /** The form as first shown: empty boxes and today's date. */
  function DefaultForm(today: CalendarDate): (form: UserForm)
    ensures form.startDate == today
  {
    UserForm("", "", None, today)
  }

  /** The untouched form cannot be submitted. */
  lemma DefaultFormInvalid(today: CalendarDate)
    ensures !FormValid(DefaultForm(today))
  {
  }

  /** handleSubmit: the request posted, or None when the schema refuses the
      form. The payload is the form with the date replaced by its text. */
  function SubmitRequest(form: UserForm): (r: Option<Request>)
    ensures r.Some? <==> FormValid(form)
    ensures r.Some? ==> r.value.CreateUser?
    ensures r.Some? && r.value.CreateUser? ==> r.value.name == form.name && r.value.mobile == form.mobile
    ensures r.Some? && r.value.CreateUser? ==> Some(r.value.balance) == form.balance
    ensures r.Some? && r.value.CreateUser? ==> r.value.startDate == StartDateText(form.startDate)
  {
    if FormValid(form) then
      Some(CreateUser(form.name, form.mobile, form.balance.value, StartDateText(form.startDate)))
    else None
  }

  /** Every posted mobile matches the pattern and every posted date reads
      back as the picked day. */
  lemma PostedRequestWellFormed(form: UserForm)
    requires SubmitRequest(form).Some?
    requires form.startDate.day < 100 && form.startDate.month < 100 && form.startDate.year < 10000
    ensures var r := SubmitRequest(form).value;
      r.CreateUser? && MatchesMobilePattern(r.mobile) && r.balance >= MIN_BALANCE
      && ParseDateTime(r.startDate)
         == Some(DateTimeFields(form.startDate.day, form.startDate.month, form.startDate.year, 0, 0, 0))
  {
    ValidMobileMatchesPattern(form.mobile);
    StartDateTextReadsBack(form.startDate);
  }

  // ---------------------------------------------------------------------
  // The dialog

  class UserDialog {
    /** A submission is in flight (mutation.isLoading). */
    var pending: bool
    /** close() has been called. */
    var closed: bool

    constructor ()
      ensures !pending && !closed
    {
      pending := false;
      closed := false;
    }

    /** "Submit": enabled only while the form is valid, blocked while a
      submission is in flight. */
    method Submit(form: UserForm) returns (request: Option<Request>)
      requires !pending
      modifies this
      ensures request == SubmitRequest(form)
      ensures pending <==> request.Some?
      ensures closed == old(closed)
    {
      request := SubmitRequest(form);
      pending := request.Some?;
    }

    /** The submission ended: success closes the dialog and invalidates the
      borrower list; failure leaves the dialog open and the cache alone. */
    method SubmitSettled(outcome: Outcome, client: QueryCache.QueryClient)
      requires pending
      modifies this, client
      ensures !pending
      ensures closed == (old(closed) || outcome == Succeeded)
      ensures client.invalidated
           == old(client.invalidated) + (if outcome == Succeeded then [QueryCache.AllUsers] else [])
      ensures client.historyStatus == old(client.historyStatus)
      ensures client.historyData == old(client.historyData)
    {
      pending := false;
      if outcome == Succeeded {
        closed := true;
        client.InvalidateQueries(QueryCache.AllUsers);
      }
    }

    /** "Cancel", disabled while a submission is in flight. */
    method Cancel()
      requires !pending
      modifies this
      ensures closed && !pending
    {
      closed := true;
    }

    /** The dialog's own close button or a click outside it. */
    method CloseModal()
      modifies this
      ensures closed && pending == old(pending)
    {
      closed := true;
    }
  }
}
