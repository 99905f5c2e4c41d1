/** The server-backed page script (public/app.js): the request its submit form
    sends, where it shows the error a refused request comes back with, and the
    admin table it draws from the server's list, which it filters but does not
    sort. */
module Client {
  import opened Text
  import opened Records
  import Server
  import Browser

  /** The fields the form posts: each input with its surrounding white space
      removed. */
  datatype Request = Request(name: string, email: string, wallet: string)

  function FormRequest(name: string, email: string, wallet: string): Request
  {
    Request(Trim(name), Trim(email), Trim(wallet))
  }

  /** Where an error text is shown: under the email field, or in a toast. */
  datatype ErrorTarget = EmailField | Toast

  /** The submit handler's routing of `result.error`. */
  function RouteError(error: string): ErrorTarget
  {
    if Contains(error, "gmail") then EmailField
    else if Contains(error, "Email") then EmailField
    else Toast
  }

  /** The missing field text, which holds neither a "g" nor an "E", goes to
      a toast. */
  lemma MissingFieldToToast()
    ensures RouteError(Server.AddError.MissingField.Message()) == Toast
  {
    var missing := Server.AddError.MissingField.Message();
    assert missing == "Semua field harus diisi";
    assert 'g' !in missing && 'E' !in missing;
    NotContainsWithoutFirstChar(missing, "gmail");
    NotContainsWithoutFirstChar(missing, "Email");
  }

  /** The foreign domain text mentions "gmail", so it goes under the email
      field. */
  lemma NotGmailToEmailField()
    ensures RouteError(Server.AddError.NotGmail.Message()) == EmailField
  {
    var notGmail := Server.AddError.NotGmail.Message();
    assert OccursAt(notGmail, "gmail", 13);
    ContainsIffOccurs(notGmail, "gmail");
  }

  /** The duplicate text starts with "Email", so it goes under the email
      field. */
  lemma DuplicateToEmailField()
    ensures RouteError(Server.AddError.DuplicateEmail.Message()) == EmailField
  {
    var duplicate := Server.AddError.DuplicateEmail.Message();
    assert OccursAt(duplicate, "Email", 0);
    ContainsIffOccurs(duplicate, "Email");
  }

  /** The server's verdict on what the form sends. */
  function Verdict(subs: seq<Submission>, q: Request): Option<Server.AddError>
  {
    Server.CheckAdd(subs, q.name, q.email, q.wallet)
  }

  /** Through this form, a field left blank or filled with white space only
      is refused as missing; a field with any other character is never
      reported missing. */
  lemma BlankFieldRefused(subs: seq<Submission>, name: string, email: string, wallet: string)
    ensures Verdict(subs, FormRequest(name, email, wallet)) == Some(Server.AddError.MissingField) <==>
      AllSpace(name) || AllSpace(email) || AllSpace(wallet)
  {
    var q := FormRequest(name, email, wallet);
    Server.CheckAddOrder(subs, q.name, q.email, q.wallet);
    TrimEmptyIff(name);
    TrimEmptyIff(email);
    TrimEmptyIff(wallet);
  }

  /** A blank field's refusal is shown in a toast, not under a field. */
  lemma BlankFieldToast(subs: seq<Submission>, name: string, email: string, wallet: string)
    requires AllSpace(name) || AllSpace(email) || AllSpace(wallet)
    ensures var v := Verdict(subs, FormRequest(name, email, wallet));
      v.Some? && RouteError(v.value.Message()) == Toast
  {
    BlankFieldRefused(subs, name, email, wallet);
    MissingFieldToToast();
  }

  /** Resending what the form has already trimmed sends the same request. */
  lemma FormRequestStable(name: string, email: string, wallet: string)
    ensures var q := FormRequest(name, email, wallet);
      FormRequest(q.name, q.email, q.wallet) == q
  {
    TrimIdempotent(name);
    TrimIdempotent(email);
    TrimIdempotent(wallet);
  }

  /** The table's rows: the server's list through the search filter, in the
      order it arrives. */
  function TableRows(subs: seq<Submission>, searchQuery: string): seq<Submission>
  {
    Browser.SearchFilter(subs, searchQuery)
  }

  /** Leaving out the sort loses nothing on a list the server keeps: the rows
      come newest first, with strictly decreasing ids, and are exactly what
      the sorting variant of the page shows. */
  lemma ServerOrderNeedsNoSort(subs: seq<Submission>, nextId: int, searchQuery: string)
    requires Server.StoreInvariant(subs, nextId)
    ensures IdsDescending(TableRows(subs, searchQuery))
    ensures TableRows(subs, searchQuery) == Browser.RenderOrder(subs, searchQuery)
  {
    var r := TableRows(subs, searchQuery);
    SubseqKeeps(r, subs);
    assert Browser.NewestFirst(r);
    Browser.SortKeepsNewestFirst(r);
  }

  /** On the server's list the number column follows the ids: of two rows,
      the one with the larger number holds the larger id, and the labels are
      n down to 1. */
  lemma LabelsFollowIds(subs: seq<Submission>, nextId: int, searchQuery: string)
    requires Server.StoreInvariant(subs, nextId)
    ensures var r := TableRows(subs, searchQuery);
      var labels := Browser.RowLabels(|r|);
      |labels| == |r| &&
      (forall i, j :: 0 <= i < |r| && 0 <= j < |r| ==> (labels[i] > labels[j] <==> r[i].id > r[j].id))
  {
    var r := TableRows(subs, searchQuery);
    ServerOrderNeedsNoSort(subs, nextId, searchQuery);
    Browser.RowLabelsRange(|r|);
    var labels := Browser.RowLabels(|r|);
    forall i, j | 0 <= i < |r| && 0 <= j < |r|
      ensures labels[i] > labels[j] <==> r[i].id > r[j].id
    {
      if i < j {
        assert r[i].id > r[j].id;
      } else if j < i {
        assert r[j].id > r[i].id;
      }
    }
  }
}
