/** The bulk-invitation endpoint of the onboarding invitations controller
    (POST /api/v1/invitations/bulk): turning the comma-separated `emails`
    parameter into at most 100 validator-accepted addresses, and choosing
    between the two 400 errors and a single call to the invitation service
    followed by 202 Accepted.

    The email-format validator is not part of this model: it is the
    parameter `valid`. The call to `InvitationService#bulk_invite!` is not
    part of it either: the outcome records the list it is called with. */
module InvitationsController {
  import opened RubyCore

  /** At most this many addresses are taken from one request. */
  const MaxEmails: nat := 100

  const EmptyErrorKey: string := "onboarding.invitation.bulk.errors.empty"
  const InvalidErrorKey: string := "onboarding.invitation.bulk.errors.invalid"

  const BadRequest: nat := 400
  const Accepted: nat := 202

  // ---------------------------------------------------------------------------
  // extract_emails
  // ---------------------------------------------------------------------------

  /** `extract_emails`: nothing for a blank parameter; otherwise the fields
      of `emails.split(',')` that the validator accepts, first 100 only. */
  function ExtractEmails(emails: Option<string>, valid: string -> bool): (r: seq<string>)
    ensures |r| <= MaxEmails
    ensures forall k :: 0 <= k < |r| ==> valid(r[k])
    ensures IsBlank(emails) ==> r == []
  {
    if IsBlank(emails) then []
    else First(Select(Split(emails.value), valid), MaxEmails)
  }

  /** The result is exactly the first min(100, n) accepted fields, in their
      original order: the same list a single pass that stops at the 100th
      accepted field would collect. */
  lemma ExtractIsFirstAccepted(s: string, valid: string -> bool)
    requires !IsBlank(Some(s))
    ensures ExtractEmails(Some(s), valid) == FirstSatisfying(Split(s), valid, MaxEmails)
    ensures |ExtractEmails(Some(s), valid)| == Min(MaxEmails, |Select(Split(s), valid)|)
    ensures ExtractEmails(Some(s), valid) <= Select(Split(s), valid)
  {
    FirstOfSelect(Split(s), valid, MaxEmails);
  }

  /** The returned addresses keep the order in which they appear in the
      input: they form a subsequence of its fields. */
  lemma ExtractKeepsOrder(s: string, valid: string -> bool)
    ensures Subsequence(ExtractEmails(Some(s), valid), Split(s))
  {
    if !IsBlank(Some(s)) {
      var selected := Select(Split(s), valid);
      SelectKeepsOrderAndCount(Split(s), valid);
      SubsequencePrefix(selected, Split(s), |ExtractEmails(Some(s), valid)|);
      assert ExtractEmails(Some(s), valid) == selected[..|ExtractEmails(Some(s), valid)|];
    }
  }

  /** When the input holds at most 100 accepted fields none is dropped: an
      address is returned exactly when it is a field the validator accepts,
      as often as it occurs. */
  lemma ExtractKeepsAllWhenFew(s: string, valid: string -> bool)
    requires !IsBlank(Some(s))
    requires |Select(Split(s), valid)| <= MaxEmails
    ensures ExtractEmails(Some(s), valid) == Select(Split(s), valid)
    ensures forall e :: e in ExtractEmails(Some(s), valid) <==> e in Split(s) && valid(e)
    ensures forall e :: valid(e) ==>
      multiset(ExtractEmails(Some(s), valid))[e] == multiset(Split(s))[e]
  {
    SelectKeepsOrderAndCount(Split(s), valid);
  }

  /** With more than 100 accepted fields exactly 100 are returned, the first
      ones. */
  lemma ExtractCapsAtMax(s: string, valid: string -> bool)
    requires !IsBlank(Some(s))
    requires |Select(Split(s), valid)| > MaxEmails
    ensures ExtractEmails(Some(s), valid) == Select(Split(s), valid)[..MaxEmails]
    ensures |ExtractEmails(Some(s), valid)| == MaxEmails
  {
  }

  /** Each returned address is a comma-free field of the input, taken
      verbatim: no trimming happens. */
  lemma ExtractVerbatim(s: string, valid: string -> bool, k: nat)
    requires k < |ExtractEmails(Some(s), valid)|
    ensures exists i, j :: FieldAt(s, i, j) && ExtractEmails(Some(s), valid)[k] == s[i..j]
    ensures ExtractEmails(Some(s), valid)[k] in Split(s)
  {
    var e := ExtractEmails(Some(s), valid)[k];
    assert e in Select(Split(s), valid);
    var m :| 0 <= m < |Split(s)| && Split(s)[m] == e;
    SplitVerbatim(s, m);
  }

  /** Nothing is extracted exactly when the parameter is blank or the
      validator accepts none of its fields. */
  lemma ExtractEmptyIff(emails: Option<string>, valid: string -> bool)
    ensures ExtractEmails(emails, valid) == [] <==>
      IsBlank(emails) || forall k :: 0 <= k < |Split(emails.value)| ==> !valid(Split(emails.value)[k])
  {
    if !IsBlank(emails) {
      var fields := Split(emails.value);
      if k :| 0 <= k < |fields| && valid(fields[k]) {
        assert fields[k] in Select(fields, valid);
        assert ExtractEmails(emails, valid) == First(Select(fields, valid), MaxEmails);
        assert |ExtractEmails(emails, valid)| > 0;
      } else {
        SelectNone(fields, valid);
      }
    }
  }

  // ---------------------------------------------------------------------------
  // bulk
  // ---------------------------------------------------------------------------

  /** What `bulk` does once the group is loaded and authorized. */
  datatype BulkOutcome =
    | EmptyError             // 400, errors.emails = the "empty" message
    | InvalidError           // 400, errors.emails = the "invalid" message
    | Invited(emails: seq<string>)  // bulk_invite! called on `emails`, then 202

  /** `bulk`: a blank `emails` parameter is the "empty" error; otherwise the
      extracted addresses go to the service when there is any (`any?` on a
      list of strings is non-emptiness), and the "invalid" error is given
      when there is none. */
  function Bulk(emails: Option<string>, valid: string -> bool): (r: BulkOutcome)
    ensures r == EmptyError <==> IsBlank(emails)
    ensures r == InvalidError ==> ExtractEmails(emails, valid) == []
    ensures r.Invited? ==> r.emails == ExtractEmails(emails, valid) && r.emails != []
  {
    if IsBlank(emails) then EmptyError
    else
      var validEmails := ExtractEmails(emails, valid);
      if validEmails != [] then Invited(validEmails) else InvalidError
  }

  /** The HTTP status of the response. */
  function Status(o: BulkOutcome): nat
  {
    match o
    case EmptyError => BadRequest
    case InvalidError => BadRequest
    case Invited(_) => Accepted
  }

  /** The translation key of `errors.emails` in the response body, if any. */
  function ErrorKey(o: BulkOutcome): Option<string>
  {
    match o
    case EmptyError => Some(EmptyErrorKey)
    case InvalidError => Some(InvalidErrorKey)
    case Invited(_) => None
  }

  /** The argument lists of the `bulk_invite!` calls made, in order. */
  function InviteCalls(o: BulkOutcome): seq<seq<string>>
  {
    match o
    case Invited(list) => [list]
    case _ => []
  }

  /** A blank parameter gives the "empty" error (400) whatever the
      validator says, never the "invalid" one, and calls no service. */
  lemma BulkBlank(emails: Option<string>, valid: string -> bool, other: string -> bool)
    requires IsBlank(emails)
    ensures Bulk(emails, valid) == EmptyError
    ensures Bulk(emails, valid) == Bulk(emails, other)
    ensures Status(Bulk(emails, valid)) == 400
    ensures ErrorKey(Bulk(emails, valid)) == Some("onboarding.invitation.bulk.errors.empty")
    ensures InviteCalls(Bulk(emails, valid)) == []
  {
  }

  /** The "invalid" error is given exactly when the parameter is not blank
      and the validator accepts none of its fields; it comes with 400 and no
      service call. */
  lemma BulkInvalidIff(emails: Option<string>, valid: string -> bool)
    ensures Bulk(emails, valid) == InvalidError <==>
      !IsBlank(emails) && forall k :: 0 <= k < |Split(emails.value)| ==> !valid(Split(emails.value)[k])
    ensures Bulk(emails, valid) == InvalidError ==>
      Status(Bulk(emails, valid)) == 400
      && ErrorKey(Bulk(emails, valid)) == Some("onboarding.invitation.bulk.errors.invalid")
      && InviteCalls(Bulk(emails, valid)) == []
  {
    ExtractEmptyIff(emails, valid);
  }

  /** The service is called exactly when the parameter is not blank and the
      validator accepts one of its fields; it is then called once, on exactly
      the `extract_emails` result (at most 100 accepted addresses), and the
      response is 202 with no error. */
  lemma BulkInvitesIff(emails: Option<string>, valid: string -> bool)
    ensures Bulk(emails, valid).Invited? <==>
      !IsBlank(emails) && exists k :: 0 <= k < |Split(emails.value)| && valid(Split(emails.value)[k])
    ensures Bulk(emails, valid).Invited? ==>
      var list := ExtractEmails(emails, valid);
      InviteCalls(Bulk(emails, valid)) == [list]
      && list != [] && |list| <= 100 && (forall e :: e in list ==> valid(e))
      && Status(Bulk(emails, valid)) == 202
      && ErrorKey(Bulk(emails, valid)).None?
  {
    ExtractEmptyIff(emails, valid);
  }

  /** A parameter made of commas only (",,,") is not blank but has no
      field, so it is the "invalid" error for every validator. */
  lemma BulkCommasOnly(s: string, valid: string -> bool)
    requires s != "" && forall k :: 0 <= k < |s| ==> s[k] == ','
    ensures Bulk(Some(s), valid) == InvalidError
  {
    ExtractEmptyIff(Some(s), valid);
    NoFieldsIff(s);
  }

  /** A parameter passes the blank check yet has no field at all exactly
      when it is a non-empty string of commas. */
  lemma NoFieldsIff(s: string)
    ensures !IsBlank(Some(s)) && Split(s) == [] <==>
      s != "" && forall k :: 0 <= k < |s| ==> s[k] == ','
  {
    SplitEmptyIff(s);
    if s != "" && forall k :: 0 <= k < |s| ==> s[k] == ',' {
      NotBlankAt(s, 0);
    }
  }

  /** "a@x.com, not-an-email, b@y.com" is cut into three fields, the last
      two with their leading space. */
  lemma SpacedExampleSplit()
    ensures Split("a@x.com, not-an-email, b@y.com") == ["a@x.com", " not-an-email", " b@y.com"]
  {
    var a, b, c := "a@x.com", " not-an-email", " b@y.com";
    var fields := [a, b, c];
    assert ',' !in a && ',' !in b && ',' !in c;
    assert fields[1..] == [b, c] && fields[1..][1..] == [c];
    assert Join([b, c]) == b + "," + c;
    assert Join(fields) == a + "," + (b + "," + c);
    assert a + "," + (b + "," + c) == "a@x.com, not-an-email, b@y.com";
    SplitJoin(fields);
  }

  /** So the validator is asked about " b@y.com" with its leading space, and
      the service receives whichever of the three untrimmed fields it
      accepts. */
  lemma BulkSpacedExample(valid: string -> bool)
    requires valid("a@x.com")
    ensures Bulk(Some("a@x.com, not-an-email, b@y.com"), valid)
      == Invited(Select(["a@x.com", " not-an-email", " b@y.com"], valid))
  {
    var s := "a@x.com, not-an-email, b@y.com";
    SpacedExampleSplit();
    assert !IsSpace(s[0]);
    assert !IsBlank(Some(s));
    var fields := ["a@x.com", " not-an-email", " b@y.com"];
    assert fields[0] in Select(fields, valid);
  }
}
