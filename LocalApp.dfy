/** The older browser-only collector (app.js): the submission list kept under
    one storage key, its add, toggle, delete and clear helpers, the statistics,
    and the submit form's validation. New records go to the END of the list,
    take their id and time stamp from the clock, and the only checks are the
    form's gmail and duplicate checks. */
module LocalApp {
  import opened Text
  import opened Records

  /** Why the submit form refuses; both are shown on the email field. */
  datatype FormError = NotGmail | DuplicateEmail
  {
    /** The text put under the email field. */
    function Message(): string
    {
      match this
      case NotGmail => "Email harus menggunakan domain @gmail.com"
      case DuplicateEmail => "Email ini sudah pernah disetor sebelumnya"
    }
  }

  /** What submitting the form does: the record it saved, or the refusal. */
  datatype FormOutcome = Saved(record: Submission) | Refused(error: FormError)

  /** The form's checks on the trimmed email, gmail first, then duplicates. */
  function CheckForm(subs: seq<Submission>, email: string): Option<FormError>
  {
    if !EndsWith(Lower(email), GmailSuffix) then Some(NotGmail)
    else if HasEmail(subs, email) then Some(DuplicateEmail)
    else None
  }

  /** Appending a record whose email passed the duplicate check keeps the
      stored emails distinct. */
  lemma AppendKeepsEmailsDistinct(subs: seq<Submission>, x: Submission)
    requires EmailsDistinct(subs) && !HasEmail(subs, x.email)
    ensures EmailsDistinct(subs + [x])
  {
    var r := subs + [x];
    assert forall k :: 0 <= k < |subs| ==> r[k] == subs[k];
  }

  /** The list the page reads and writes through storage. */
  class LocalStore {
    var submissions: seq<Submission>

    /** Nothing stored yet: `getSubmissions()` answers []. */
    constructor ()
      ensures submissions == []
    {
      submissions := [];
    }

    /** `getSubmissions()` */
    function GetSubmissions(): seq<Submission>
      reads this
    {
      submissions
    }

    /** `addSubmission`: stamps the record with the clock's `now` as id and
        `stamp` as time stamp, marks it unpaid and appends it; nothing is
        checked and the earlier records stay as they were. */
    method AddSubmission(name: string, email: string, wallet: string, now: int, stamp: string) returns (r: Submission)
      modifies this
      ensures r == Submission(now, name, email, wallet, false, stamp)
      ensures submissions == old(submissions) + [r]
    {
      r := Submission(now, name, email, wallet, false, stamp);
      submissions := submissions + [r];
    }

    /** `togglePaymentStatus`: with no record of that id, answers None and
        stores nothing; otherwise flips `paid` of the first record with it
        and answers that record as it now is. */
    method TogglePaymentStatus(id: int) returns (r: Option<Submission>)
      modifies this
      ensures IndexOfId(old(submissions), id) == -1 ==> r == None && submissions == old(submissions)
      ensures IndexOfId(old(submissions), id) >= 0 ==>
        var k := IndexOfId(old(submissions), id);
        submissions == FlipPaid(old(submissions), k) &&
        r == Some(old(submissions)[k].(paid := !old(submissions)[k].paid))
      ensures EmailsDistinct(old(submissions)) ==> EmailsDistinct(submissions)
    {
      var k := IndexOfId(submissions, id);
      if k == -1 {
        return None;
      }
      // Only the email clause is used here; the id bounds 0, 0 are placeholders.
      FlipKeepsInvariants(submissions, k, 0, 0);
      submissions := FlipPaid(submissions, k);
      r := Some(submissions[k]);
    }

    /** `deleteSubmission`: keeps the records of any other id, in order. */
    method DeleteSubmission(id: int)
      modifies this
      ensures submissions == RemoveId(old(submissions), id)
      ensures EmailsDistinct(old(submissions)) ==> EmailsDistinct(submissions)
    {
      // Only the email clause is used here; the id bounds 0, 0 are placeholders.
      RemoveKeepsInvariants(submissions, id, 0, 0);
      submissions := RemoveId(submissions, id);
    }

    /** `clearAllSubmissions`: the storage key is removed, so the list reads
        as empty afterwards. */
    method ClearAllSubmissions()
      modifies this
      ensures submissions == []
    {
      submissions := [];
    }

    /** `getStats()` */
    function GetStats(): Stats
      reads this
    {
      ComputeStats(submissions)
    }

    /** The submit handler of the form: trims the three inputs, refuses an
        email that is not gmail (checked first) or that is already stored in
        any case; otherwise adds the trimmed record. Name and wallet are not
        checked, so blank ones are stored. */
    method Submit(name: string, email: string, wallet: string, now: int, stamp: string) returns (r: FormOutcome)
      modifies this
      ensures CheckForm(old(submissions), Trim(email)).Some? ==>
        r == Refused(CheckForm(old(submissions), Trim(email)).value) && submissions == old(submissions)
      ensures CheckForm(old(submissions), Trim(email)).None? ==>
        var x := Submission(now, Trim(name), Trim(email), Trim(wallet), false, stamp);
        r == Saved(x) && submissions == old(submissions) + [x]
      ensures EmailsDistinct(old(submissions)) ==> EmailsDistinct(submissions)
    {
      var n, e, w := Trim(name), Trim(email), Trim(wallet);
      var refusal := CheckForm(submissions, e);
      if refusal.Some? {
        return Refused(refusal.value);
      }
      if EmailsDistinct(submissions) {
        AppendKeepsEmailsDistinct(submissions, Submission(now, n, e, w, false, stamp));
      }
      var saved := AddSubmission(n, e, w, now, stamp);
      r := Saved(saved);
    }
  }

  /** An email already stored, in any ASCII case, never passes the form:
      it is refused as foreign or as a duplicate. */
  lemma StoredEmailRefused(subs: seq<Submission>, k: nat, email: string)
    requires k < |subs| && Lower(email) == Lower(subs[k].email)
    ensures CheckForm(subs, email).Some?
    ensures EndsWith(Lower(email), GmailSuffix) ==> CheckForm(subs, email) == Some(DuplicateEmail)
  {
    assert HasEmail(subs, email);
  }

  /** Submitting the same form twice: the second submission is refused as a
      duplicate, whatever the name and wallet. */
  lemma SecondSubmitRefused(subs: seq<Submission>, x: Submission)
    requires CheckForm(subs, x.email) == None
    ensures CheckForm(subs + [x], x.email) == Some(DuplicateEmail)
  {
    StoredEmailRefused(subs + [x], |subs|, x.email);
  }
}
