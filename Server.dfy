/** The server's in-memory submission store (`appData`: the list of
    submissions, newest first, and the next id to hand out) with the bodies of
    its add, toggle-paid, delete-one, delete-all and stats routes. Each route
    answers with a `Reply` instead of an HTTP status. */
module Server {
  import opened Text
  import opened Records

  /** Why the add route refuses a submission (a 400 reply). */
  datatype AddError = MissingField | NotGmail | DuplicateEmail
  {
    /** The `error` text the route sends back. */
    function Message(): string
    {
      match this
      case MissingField => "Semua field harus diisi"
      case NotGmail => "Email harus @gmail.com"
      case DuplicateEmail => "Email ini sudah pernah disetor"
    }
  }

  /** A route's answer: success with a value, a 400 with its reason, or a 404. */
  datatype Reply<T> = Ok(value: T) | ValidationError(reason: AddError) | NotFound

  /** The add route's three checks in their order; the first that fails is
      the one reported. A field missing from the request body is the empty
      string here: both are falsy and take the same branch. */
  function CheckAdd(subs: seq<Submission>, name: string, email: string, wallet: string): Option<AddError>
  {
    if name == "" || email == "" || wallet == "" then Some(MissingField)
    else if !EndsWith(Lower(email), GmailSuffix) then Some(NotGmail)
    else if HasEmail(subs, email) then Some(DuplicateEmail)
    else None
  }

  /** A record the add route can have stored: every field given and a gmail
      address. */
  predicate Accepted(x: Submission)
  {
    x.name != "" && x.email != "" && x.wallet != "" && EndsWith(Lower(x.email), GmailSuffix)
  }

  predicate AllAccepted(subs: seq<Submission>)
  {
    forall i :: 0 <= i < |subs| ==> Accepted(subs[i])
  }

  /** The store invariant: lower-cased emails pairwise distinct, ids strictly
      decreasing from front to back, every id in 1..nextId-1, and every record
      one that passed the add route's checks. */
  ghost predicate StoreInvariant(subs: seq<Submission>, nextId: int)
  {
    nextId >= 1 && EmailsDistinct(subs) && IdsDescending(subs) && IdsWithin(subs, 1, nextId) && AllAccepted(subs)
  }

  /** Which check rejects, stated case by case: a missing field wins over a
      foreign domain, which wins over a duplicate, and only a request passing
      all three is admitted. */
  lemma CheckAddOrder(subs: seq<Submission>, name: string, email: string, wallet: string)
    ensures CheckAdd(subs, name, email, wallet) == Some(MissingField) <==> name == "" || email == "" || wallet == ""
    ensures CheckAdd(subs, name, email, wallet) == Some(NotGmail) <==>
      name != "" && email != "" && wallet != "" && !EndsWith(Lower(email), GmailSuffix)
    ensures CheckAdd(subs, name, email, wallet) == Some(DuplicateEmail) <==>
      name != "" && email != "" && wallet != "" && EndsWith(Lower(email), GmailSuffix) && HasEmail(subs, email)
    ensures CheckAdd(subs, name, email, wallet) == None <==>
      Accepted(Submission(0, name, email, wallet, false, "")) && !HasEmail(subs, email)
  {
  }

  /** Once an email is stored, every spelling of it that differs only in
      ASCII case is refused as a duplicate (when the other fields are given). */
  lemma {:induction false} StoredEmailRejectedInAnyCase(subs: seq<Submission>, k: nat, name: string, email: string, wallet: string)
    requires k < |subs| && AllAccepted(subs)
    requires Lower(email) == Lower(subs[k].email) && name != "" && wallet != ""
    ensures CheckAdd(subs, name, email, wallet) == Some(DuplicateEmail)
  {
    assert Accepted(subs[k]);
    assert email != "" by {
      assert |Lower(email)| == |Lower(subs[k].email)| == |subs[k].email|;
    }
  }

  /** Adding a record that passed the checks keeps the store invariant. */
  lemma AddKeepsInvariant(subs: seq<Submission>, nextId: int, x: Submission)
    requires StoreInvariant(subs, nextId)
    requires x.id == nextId && CheckAdd(subs, x.name, x.email, x.wallet) == None
    ensures StoreInvariant([x] + subs, nextId + 1)
  {
    PrependKeepsInvariants(subs, x, nextId);
    var r := [x] + subs;
    assert forall i :: 1 <= i < |r| ==> r[i] == subs[i - 1];
  }

  /** Toggling the record at k keeps the store invariant. */
  lemma ToggleKeepsInvariant(subs: seq<Submission>, nextId: int, k: nat)
    requires StoreInvariant(subs, nextId) && k < |subs|
    ensures StoreInvariant(FlipPaid(subs, k), nextId)
  {
    FlipKeepsInvariants(subs, k, 1, nextId);
    assert forall i :: 0 <= i < |subs| ==> FlipPaid(subs, k)[i].email == subs[i].email;
  }

  /** Deleting by id keeps the store invariant. */
  lemma DeleteKeepsInvariant(subs: seq<Submission>, nextId: int, id: int)
    requires StoreInvariant(subs, nextId)
    ensures StoreInvariant(RemoveId(subs, id), nextId)
  {
    RemoveKeepsInvariants(subs, id, 1, nextId);
    var r := RemoveId(subs, id);
    forall i | 0 <= i < |r| ensures Accepted(r[i]) {
      assert r[i] in subs;
    }
  }

  /** The store the server keeps in memory. */
  class Store {
    var submissions: seq<Submission>
    var nextId: int

    ghost predicate Valid()
      reads this
    {
      StoreInvariant(submissions, nextId)
    }

    /** `{ submissions: [], nextId: 1 }` at start-up. */
    constructor ()
      ensures Valid() && submissions == [] && nextId == 1
    {
      submissions := [];
      nextId := 1;
    }

    /** GET /api/submissions: the list in store order. */
    function List(): seq<Submission>
      reads this
    {
      submissions
    }

    /** GET /api/stats */
    function Stats(): Records.Stats
      reads this
    {
      ComputeStats(submissions)
    }

    /** POST /api/submissions. A refused request changes nothing; an admitted
        one is put in front of the list with the current counter as its id,
        unpaid, its fields as given (not trimmed), and the counter moves on. */
    method Add(name: string, email: string, wallet: string, now: string) returns (r: Reply<int>)
      requires Valid()
      modifies this
      ensures Valid()
      ensures CheckAdd(old(submissions), name, email, wallet).Some? ==>
        r == ValidationError(CheckAdd(old(submissions), name, email, wallet).value) &&
        submissions == old(submissions) && nextId == old(nextId)
      ensures CheckAdd(old(submissions), name, email, wallet).None? ==>
        r == Ok(old(nextId)) &&
        submissions == [Submission(old(nextId), name, email, wallet, false, now)] + old(submissions) &&
        nextId == old(nextId) + 1
    {
      var refusal := CheckAdd(submissions, name, email, wallet);
      if refusal.Some? {
        return ValidationError(refusal.value);
      }
      var created := Submission(nextId, name, email, wallet, false, now);
      AddKeepsInvariant(submissions, nextId, created);
      submissions := [created] + submissions;
      nextId := nextId + 1;
      r := Ok(created.id);
    }

    /** PATCH /api/submissions/:id/toggle-paid. The id is the parsed route
        parameter; None stands for NaN, which no record's id equals. An
        unknown id answers NotFound and changes nothing; a known one flips
        `paid` of that record only and answers its new value. */
    method TogglePaid(id: Option<int>) returns (r: Reply<bool>)
      requires Valid()
      modifies this
      ensures Valid() && nextId == old(nextId)
      ensures id.None? || IndexOfId(old(submissions), id.value) == -1 ==>
        r == NotFound && submissions == old(submissions)
      ensures id.Some? && IndexOfId(old(submissions), id.value) >= 0 ==>
        var k := IndexOfId(old(submissions), id.value);
        submissions == FlipPaid(old(submissions), k) && r == Ok(!old(submissions)[k].paid)
    {
      if id.None? {
        return NotFound;
      }
      var k := IndexOfId(submissions, id.value);
      if k == -1 {
        return NotFound;
      }
      ToggleKeepsInvariant(submissions, nextId, k);
      submissions := FlipPaid(submissions, k);
      r := Ok(submissions[k].paid);
    }

    /** DELETE /api/submissions/:id: keeps the records whose id differs, in
        their order, and succeeds whether or not the id was there. */
    method Delete(id: Option<int>) returns (r: Reply<()>)
      requires Valid()
      modifies this
      ensures Valid() && nextId == old(nextId) && r == Ok(())
      ensures submissions == if id.Some? then RemoveId(old(submissions), id.value) else old(submissions)
    {
      if id.Some? {
        DeleteKeepsInvariant(submissions, nextId, id.value);
        submissions := RemoveId(submissions, id.value);
      }
      r := Ok(());
    }

    /** DELETE /api/submissions: back to the empty store with the counter at 1. */
    method Clear() returns (r: Reply<()>)
      modifies this
      ensures Valid() && submissions == [] && nextId == 1 && r == Ok(())
    {
      submissions, nextId := [], 1;
      r := Ok(());
    }
  }

  /** The example session: "Ana" gets id 1, and a second "ana" whose email
      differs only in case is refused as a duplicate; there is then one
      contributor. */
  method ExampleDuplicate()
  {
    var store := new Store();
    assert Lower("ana@gmail.com") == "ana@gmail.com" == Lower("ANA@gmail.com");
    assert EndsWith("ana@gmail.com", GmailSuffix);
    var first := store.Add("Ana", "ana@gmail.com", "w1", "t1");
    assert first == Ok(1);
    assert HasEmail(store.submissions, "ANA@gmail.com") by {
      assert Lower(store.submissions[0].email) == Lower("ANA@gmail.com");
    }
    var again := store.Add("ana", "ANA@gmail.com", "w2", "t2");
    assert again == ValidationError(DuplicateEmail);
    assert LowerNames(store.submissions) == {Lower("Ana")};
    assert store.Stats().totalContributors == 1;
  }

  /** Toggling a stored id twice restores its flag, an unknown id is not
      found, and after clearing the next add receives id 1 again. */
  method ExampleToggleAndClear()
  {
    var store := new Store();
    assert Lower("ana@gmail.com") == "ana@gmail.com";
    assert EndsWith("ana@gmail.com", GmailSuffix);
    var first := store.Add("Ana", "ana@gmail.com", "w1", "t1");
    var on := store.TogglePaid(Some(1));
    assert on == Ok(true);
    var off := store.TogglePaid(Some(1));
    assert off == Ok(false);
    var missing := store.TogglePaid(Some(2));
    assert missing == NotFound;
    var cleared := store.Clear();
    var later := store.Add("Ana", "ana@gmail.com", "w1", "t3");
    assert later == Ok(1);
  }
}
