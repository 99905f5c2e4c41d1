/** Submission records and the list operations that both the server store and
    the browser-only store perform on them: the duplicate-email lookup, the
    search by id, the in-place flip of `paid`, the filter that deletes by id,
    the store invariants, and the statistics aggregate. */
module Records {
  import opened Text

  datatype Option<T> = None | Some(value: T)

  /** One collected account. `created` is the creation time stamp as the
      clock wrote it (`created_at` on the server, `timestamp` in the
      browser-only store); the model never looks inside it. */
  datatype Submission = Submission(
    id: int,
    name: string,
    email: string,
    wallet: string,
    paid: bool,
    created: string)

  // ---------------------------------------------------------------------------
  // Lookups
  // ---------------------------------------------------------------------------

  /** Some stored record has this email, both sides lower-cased. */
  predicate HasEmail(subs: seq<Submission>, email: string)
  {
    exists i :: 0 <= i < |subs| && Lower(subs[i].email) == Lower(email)
  }

  /** `findIndex(s => s.id === id)`: the first index holding id, or -1. */
  function IndexOfId(subs: seq<Submission>, id: int): (k: int)
    ensures -1 <= k < |subs|
    ensures k >= 0 ==> subs[k].id == id && forall j :: 0 <= j < k ==> subs[j].id != id
    ensures k == -1 <==> forall j :: 0 <= j < |subs| ==> subs[j].id != id
    decreases |subs|
  {
    if subs == [] then -1
    else if subs[0].id == id then 0
    else
      var k := IndexOfId(subs[1..], id);
      if k == -1 then -1 else k + 1
  }

  /** The list after `paid = !paid` on the record at index k. */
  function FlipPaid(subs: seq<Submission>, k: nat): (r: seq<Submission>)
    requires k < |subs|
  {
    subs[k := subs[k].(paid := !subs[k].paid)]
  }

  /** Flipping the same record twice gives the list back. */
  lemma FlipPaidTwice(subs: seq<Submission>, k: nat)
    requires k < |subs|
    ensures FlipPaid(FlipPaid(subs, k), k) == subs
  {
  }

  /** `filter(s => s.id !== id)` */
  function RemoveId(subs: seq<Submission>, id: int): (r: seq<Submission>)
    ensures forall x :: x in r <==> x in subs && x.id != id
    ensures IsSubseq(r, subs)
    decreases |subs|
  {
    if subs == [] then []
    else
      var rest := RemoveId(subs[1..], id);
      if subs[0].id == id then rest else [subs[0]] + rest
  }

  /** How many records carry id. */
  function Occurrences(subs: seq<Submission>, id: int): nat
    decreases |subs|
  {
    if subs == [] then 0
    else (if subs[0].id == id then 1 else 0) + Occurrences(subs[1..], id)
  }

  /** Deleting by id drops exactly the records that carry it; an absent id
      leaves the list as it was. */
  lemma {:induction false} RemoveIdCount(subs: seq<Submission>, id: int)
    ensures |RemoveId(subs, id)| == |subs| - Occurrences(subs, id)
    ensures Occurrences(subs, id) == 0 ==> RemoveId(subs, id) == subs
    ensures Occurrences(subs, id) == 0 <==> IndexOfId(subs, id) == -1
    decreases |subs|
  {
    if subs != [] {
      RemoveIdCount(subs[1..], id);
      assert [subs[0]] + subs[1..] == subs;
    }
  }

  /** r is s with some elements left out, the rest in their order. */
  predicate IsSubseq(r: seq<Submission>, s: seq<Submission>)
    decreases |s|
  {
    if r == [] then true
    else if s == [] then false
    else (r[0] == s[0] && IsSubseq(r[1..], s[1..])) || IsSubseq(r, s[1..])
  }

  // ---------------------------------------------------------------------------
  // Store invariants
  // ---------------------------------------------------------------------------

  /** No two records share an email, compared after lower-casing. */
  predicate EmailsDistinct(subs: seq<Submission>)
  {
    forall i, j :: 0 <= i < j < |subs| ==> Lower(subs[i].email) != Lower(subs[j].email)
  }

  /** Ids strictly decrease from the front of the list to its back. */
  predicate IdsDescending(subs: seq<Submission>)
  {
    forall i, j :: 0 <= i < j < |subs| ==> subs[i].id > subs[j].id
  }

  /** Every id lies in lo..hi-1. */
  predicate IdsWithin(subs: seq<Submission>, lo: int, hi: int)
  {
    forall i :: 0 <= i < |subs| ==> lo <= subs[i].id < hi
  }

  /** A sub-list keeps the members, the id order and the email uniqueness of
      the list it was taken from. */
  lemma {:induction false} SubseqKeeps(r: seq<Submission>, s: seq<Submission>)
    requires IsSubseq(r, s)
    ensures |r| <= |s|
    ensures forall x :: x in r ==> x in s
    ensures IdsDescending(s) ==> IdsDescending(r)
    ensures EmailsDistinct(s) ==> EmailsDistinct(r)
    decreases |s|
  {
    if r != [] {
      var s' := s[1..];
      assert forall k :: 0 <= k < |s'| ==> s'[k] == s[k + 1];
      if r[0] == s[0] && IsSubseq(r[1..], s') {
        var r' := r[1..];
        SubseqKeeps(r', s');
        assert forall k :: 0 <= k < |r'| ==> r'[k] == r[k + 1];
        forall x | x in r ensures x in s {
          if x != r[0] { assert x in r'; }
        }
        if IdsDescending(s) {
          forall i, j | 0 <= i < j < |r| ensures r[i].id > r[j].id {
            assert r[j] in s';
            var k :| 0 <= k < |s'| && s'[k] == r[j];
            if i > 0 { assert r[i] == r'[i - 1] && r[j] == r'[j - 1]; }
          }
        }
        if EmailsDistinct(s) {
          forall i, j | 0 <= i < j < |r| ensures Lower(r[i].email) != Lower(r[j].email) {
            assert r[j] in s';
            var k :| 0 <= k < |s'| && s'[k] == r[j];
            if i > 0 { assert r[i] == r'[i - 1] && r[j] == r'[j - 1]; }
          }
        }
      } else {
        SubseqKeeps(r, s');
      }
    }
  }

  /** Putting a record with a fresh, larger id and an unused email in front
      keeps both invariants and the id bound moved up by one. */
  lemma PrependKeepsInvariants(subs: seq<Submission>, x: Submission, next: int)
    requires EmailsDistinct(subs) && IdsDescending(subs) && IdsWithin(subs, 1, next)
    requires x.id == next && next >= 1 && !HasEmail(subs, x.email)
    ensures EmailsDistinct([x] + subs) && IdsDescending([x] + subs) && IdsWithin([x] + subs, 1, next + 1)
  {
    var r := [x] + subs;
    assert forall k :: 1 <= k < |r| ==> r[k] == subs[k - 1];
  }

  /** Flipping `paid` changes neither ids nor emails, so both invariants and
      the id bound survive it. */
  lemma FlipKeepsInvariants(subs: seq<Submission>, k: nat, lo: int, hi: int)
    requires k < |subs|
    ensures EmailsDistinct(subs) ==> EmailsDistinct(FlipPaid(subs, k))
    ensures IdsDescending(subs) ==> IdsDescending(FlipPaid(subs, k))
    ensures IdsWithin(subs, lo, hi) ==> IdsWithin(FlipPaid(subs, k), lo, hi)
  {
    var r := FlipPaid(subs, k);
    assert forall i :: 0 <= i < |r| ==> r[i].id == subs[i].id && r[i].email == subs[i].email;
  }

  /** Deleting by id keeps both invariants and the id bound. */
  lemma RemoveKeepsInvariants(subs: seq<Submission>, id: int, lo: int, hi: int)
    ensures EmailsDistinct(subs) ==> EmailsDistinct(RemoveId(subs, id))
    ensures IdsDescending(subs) ==> IdsDescending(RemoveId(subs, id))
    ensures IdsWithin(subs, lo, hi) ==> IdsWithin(RemoveId(subs, id), lo, hi)
  {
    var r := RemoveId(subs, id);
    SubseqKeeps(r, subs);
    if IdsWithin(subs, lo, hi) {
      forall i | 0 <= i < |r| ensures lo <= r[i].id < hi {
        assert r[i] in subs;
      }
    }
  }

  /** With strictly descending ids an id is carried by at most one record, so
      deleting a stored id removes exactly one record. */
  lemma {:induction false} DescendingIdsUnique(subs: seq<Submission>, id: int)
    requires IdsDescending(subs)
    ensures Occurrences(subs, id) <= 1
    ensures IndexOfId(subs, id) >= 0 ==> |RemoveId(subs, id)| == |subs| - 1
    decreases |subs|
  {
    RemoveIdCount(subs, id);
    if subs != [] {
      var t := subs[1..];
      assert forall k :: 0 <= k < |t| ==> t[k] == subs[k + 1];
      DescendingIdsUnique(t, id);
      if subs[0].id == id {
        RemoveIdCount(t, id);
        assert IndexOfId(t, id) == -1;
      }
    }
  }

  // ---------------------------------------------------------------------------
  // Statistics
  // ---------------------------------------------------------------------------

  /** The only domain either store admits, compared after lower-casing. */
  const GmailSuffix := "@gmail.com"

  /** Payout per account, in rupiah. */
  const PayoutPerAccount := 4000

  datatype Stats = Stats(
    totalAccounts: nat,
    paidCount: nat,
    unpaidCount: nat,
    totalContributors: nat,
    totalPayout: nat,
    pendingPayout: nat)

  /** `filter(s => s.paid).length`: none when no record is paid, all when
      every record is. */
  function PaidCount(subs: seq<Submission>): (n: nat)
    ensures n <= |subs|
    ensures n == 0 <==> forall i :: 0 <= i < |subs| ==> !subs[i].paid
    ensures n == |subs| <==> forall i :: 0 <= i < |subs| ==> subs[i].paid
    decreases |subs|
  {
    if subs == [] then 0
    else
      assert forall i :: 1 <= i < |subs| ==> subs[i] == subs[1..][i - 1];
      (if subs[0].paid then 1 else 0) + PaidCount(subs[1..])
  }

  /** `new Set(subs.map(s => s.name.toLowerCase()))` */
  function LowerNames(subs: seq<Submission>): set<string>
    decreases |subs|
  {
    if subs == [] then {} else {Lower(subs[0].name)} + LowerNames(subs[1..])
  }

  /** The name set holds exactly the lower-cased names of the records, and it
      has no more elements than there are records. */
  lemma {:induction false} LowerNamesSpec(subs: seq<Submission>)
    ensures forall n :: n in LowerNames(subs) <==> exists i :: 0 <= i < |subs| && Lower(subs[i].name) == n
    ensures |LowerNames(subs)| <= |subs|
    ensures subs != [] ==> |LowerNames(subs)| >= 1
    decreases |subs|
  {
    if subs != [] {
      var t := subs[1..];
      LowerNamesSpec(t);
      assert forall k :: 0 <= k < |t| ==> t[k] == subs[k + 1];
      forall n | n in LowerNames(subs) ensures exists i :: 0 <= i < |subs| && Lower(subs[i].name) == n {
        if n != Lower(subs[0].name) {
          var k :| 0 <= k < |t| && Lower(t[k].name) == n;
          assert Lower(subs[k + 1].name) == n;
        }
      }
      forall n | exists i :: 0 <= i < |subs| && Lower(subs[i].name) == n ensures n in LowerNames(subs) {
        var i :| 0 <= i < |subs| && Lower(subs[i].name) == n;
        if i > 0 { assert Lower(t[i - 1].name) == n; }
      }
      assert Lower(subs[0].name) in LowerNames(subs);
    }
  }

  /** The stats handler: counts, distinct lower-cased names, and the payouts
      at 4000 per account. */
  function ComputeStats(subs: seq<Submission>): (st: Stats)
    ensures st.totalAccounts == |subs|
    ensures st.paidCount == PaidCount(subs)
    ensures st.paidCount + st.unpaidCount == st.totalAccounts
    ensures st.totalPayout == PayoutPerAccount * st.paidCount
    ensures st.pendingPayout == PayoutPerAccount * st.unpaidCount
    ensures st.totalContributors == |LowerNames(subs)|
    ensures st.totalContributors <= st.totalAccounts
    ensures subs != [] ==> st.totalContributors >= 1
  {
    LowerNamesSpec(subs);
    var paid := PaidCount(subs);
    Stats(
      totalAccounts := |subs|,
      paidCount := paid,
      unpaidCount := |subs| - paid,
      totalContributors := |LowerNames(subs)|,
      totalPayout := paid * PayoutPerAccount,
      pendingPayout := (|subs| - paid) * PayoutPerAccount)
  }

  /** Flipping one record moves one account between paid and unpaid, and the
      payouts by 4000 with it. */
  lemma {:induction false} FlipMovesOneAccount(subs: seq<Submission>, k: nat)
    requires k < |subs|
    ensures PaidCount(FlipPaid(subs, k)) == if subs[k].paid then PaidCount(subs) - 1 else PaidCount(subs) + 1
    decreases |subs|
  {
    var r := FlipPaid(subs, k);
    if k > 0 {
      FlipMovesOneAccount(subs[1..], k - 1);
      assert r[1..] == FlipPaid(subs[1..], k - 1);
    } else {
      assert r[1..] == subs[1..];
    }
  }
}
