/**
 * CSVUserManager of cdpRunbooker.py: how the e-mails read from a CSV file are resolved to Quip
 * member ids (a bulk lookup, then domain variations), split into new and existing members, and
 * added to a folder in batches with one retry on rate limiting.
 *
 * The Quip calls are oracles: the bulk lookup maps a batch of e-mails to the ids it knows, or
 * fails; get_user answers an id or nothing; each add_folder_members call takes the next reply
 * of a sequence. The waits are returned as a log instead of being slept.
 */
module RunbookMembers {
  import opened Wrappers
  import opened Strings
  import opened Prompts
  import opened Seqs

  const LookupBatchSize := 1000
  const AddBatchSize := 50
  const RateLimitDelay := 1
  const RateLimitRetryWait := 5
  const Domains: seq<string> :=
    ["amazon.com", "amazon.co.jp", "amazon.fr", "amazon.co.uk", "amazon.com.au", "amazon.de", "amazon.es", "amazon.it"]

  predicate Distinct(xs: seq<string>) {
    forall i, j :: 0 <= i < j < |xs| ==> xs[i] != xs[j]
  }

  /** An (email, member id) list read as a dict: no e-mail twice. */
  predicate DistinctKeys(pairs: seq<(string, string)>) {
    forall i, j :: 0 <= i < j < |pairs| ==> pairs[i].0 != pairs[j].0
  }

  function KeySet(pairs: seq<(string, string)>): set<string> {
    set p | p in pairs :: p.0
  }

  function Min(a: nat, b: nat): nat {
    if a <= b then a else b
  }

  /** remaining[i:i + size]. */
  function Chunk(xs: seq<string>, i: nat, size: nat): (c: seq<string>)
    requires i < |xs| && size > 0
    ensures i + |c| == Min(i + size, |xs|)
    ensures 1 <= |c| <= size && c == xs[i..i + |c|]
  {
    xs[i..Min(i + size, |xs|)]
  }

  // ----- phase 1: the bulk lookup -----

  /** The e-mails of `batch` the lookup reply holds an id for, with that id, in batch order. */
  function Found(batch: seq<string>, users: map<string, string>): (r: seq<(string, string)>)
    ensures forall p :: p in r ==> p.0 in batch && p.0 in users && p.1 == users[p.0]
    decreases |batch|
  {
    if batch == [] then []
    else
      var e := batch[|batch| - 1];
      Found(batch[..|batch| - 1], users) + (if e in users then [(e, users[e])] else [])
  }

  /** Every e-mail of the batch that the reply knows is found, and with distinct e-mails no e-mail twice. */
  lemma {:induction false} FoundAll(batch: seq<string>, users: map<string, string>)
    ensures forall e :: e in batch && e in users ==> e in KeySet(Found(batch, users))
    ensures Distinct(batch) ==> DistinctKeys(Found(batch, users))
    decreases |batch|
  {
    if batch != [] {
      var init := batch[..|batch| - 1];
      var e := batch[|batch| - 1];
      FoundAll(init, users);
      var r := Found(batch, users);
      assert Found(init, users) == r[..|Found(init, users)|];
      forall x | x in batch && x in users
        ensures x in KeySet(r)
      {
        if x == e {
          assert (e, users[e]) in r;
        } else {
          var k :| 0 <= k < |batch| && batch[k] == x;
          assert init[k] == x;
          var p :| p in Found(init, users) && p.0 == x;
          assert p in r;
        }
      }
      if Distinct(batch) {
        assert Distinct(init) by {
          forall i, j | 0 <= i < j < |init|
            ensures init[i] != init[j]
          {
            assert init[i] == batch[i] && init[j] == batch[j];
          }
        }
        assert e !in init;
        var f := Found(init, users);
        forall i, j | 0 <= i < j < |r|
          ensures r[i].0 != r[j].0
        {
          if j >= |f| {
            assert r[i] in f;
            assert r[j].0 == e;
          }
        }
      }
    }
  }

  /**
   * Phase 1 from batch start `i`: each batch of at most 1000 e-mails is looked up in one call;
   * a failed call contributes nothing and the next batch is tried.
   */
  function Phase1From(remaining: seq<string>, i: nat, lookup: seq<string> -> Option<map<string, string>>)
    : (r: seq<(string, string)>)
    ensures forall p :: p in r ==> p.0 in remaining
    decreases |remaining| - i
  {
    if i >= |remaining| then []
    else
      var batch := Chunk(remaining, i, LookupBatchSize);
      BatchFound(batch, lookup(batch)) + Phase1From(remaining, i + LookupBatchSize, lookup)
  }

  /** What one bulk lookup adds: nothing when the call failed. */
  function BatchFound(batch: seq<string>, reply: Option<map<string, string>>): seq<(string, string)> {
    match reply
    case None => []
    case Some(users) => Found(batch, users)
  }

  /** [email for email in remaining if email not in done], in order. */
  function Unresolved(xs: seq<string>, done: set<string>): (r: seq<string>)
    ensures forall e :: e in r <==> e in xs && e !in done
    decreases |xs|
  {
    if xs == [] then []
    else
      var e := xs[|xs| - 1];
      var init := Unresolved(xs[..|xs| - 1], done);
      assert forall x :: x in xs <==> x in xs[..|xs| - 1] || x == e;
      if e in done then init else init + [e]
  }

  // ----- phase 2: domain variations -----

  /** f"{username}@{domain}", the user name being the part before the first '@'. */
  function Variation(email: string, domain: string): string {
    Split(email, '@')[0] + "@" + domain
  }

  /** The id of the first variation from domain `j` on that get_user knows. */
  function FirstVariant(email: string, j: nat, getUser: string -> Option<string>): Option<string>
    decreases |Domains| - j
  {
    if j >= |Domains| then None
    else
      match getUser(Variation(email, Domains[j]))
      case Some(id) => Some(id)
      case None => FirstVariant(email, j + 1, getUser)
  }

  /** What phase 2 finds for one e-mail: only an address with an '@' is varied. */
  function Retry(email: string, getUser: string -> Option<string>): Option<string> {
    if '@' in email then FirstVariant(email, 0, getUser) else None
  }

  /**
   * The variations are tried in domain order and the first that get_user knows decides the id;
   * nothing is found only when no variation is known.
   */
  lemma {:induction false} VariantsInOrder(email: string, j: nat, getUser: string -> Option<string>)
    requires j <= |Domains|
    ensures FirstVariant(email, j, getUser).Some? ==>
      exists k :: j <= k < |Domains| && getUser(Variation(email, Domains[k])) == FirstVariant(email, j, getUser) &&
        forall m :: j <= m < k ==> getUser(Variation(email, Domains[m])).None?
    ensures FirstVariant(email, j, getUser).None? ==>
      forall k :: j <= k < |Domains| ==> getUser(Variation(email, Domains[k])).None?
    decreases |Domains| - j
  {
    if j < |Domains| && getUser(Variation(email, Domains[j])).None? {
      VariantsInOrder(email, j + 1, getUser);
      if FirstVariant(email, j, getUser).Some? {
        var k :| j + 1 <= k < |Domains| && getUser(Variation(email, Domains[k])) == FirstVariant(email, j + 1, getUser) &&
          forall m :: j + 1 <= m < k ==> getUser(Variation(email, Domains[m])).None?;
        assert forall m :: j <= m < k ==> getUser(Variation(email, Domains[m])).None?;
      }
    }
  }

  /** Phase 2 over the phase-1 failures: the pairs it resolves, and the e-mails still unresolved. */
  function Phase2(failed: seq<string>, getUser: string -> Option<string>): (r: (seq<(string, string)>, seq<string>))
    ensures forall p :: p in r.0 ==> p.0 in failed && Retry(p.0, getUser) == Some(p.1)
    ensures forall e :: e in r.1 <==> e in failed && Retry(e, getUser).None?
    decreases |failed|
  {
    if failed == [] then ([], [])
    else
      var e := failed[|failed| - 1];
      var init := Phase2(failed[..|failed| - 1], getUser);
      assert forall x :: x in failed <==> x in failed[..|failed| - 1] || x == e;
      match Retry(e, getUser)
      case Some(id) => (init.0 + [(e, id)], init.1)
      case None => (init.0, init.1 + [e])
  }

  /**
   * _resolve_emails_to_member_ids: the resolved (email, id) pairs in the order they enter the
   * dict, and the e-mails that could not be resolved. `remaining` is list(set(emails)), in
   * whatever order the set yields.
   */
  function Resolve(remaining: seq<string>, lookup: seq<string> -> Option<map<string, string>>,
                   getUser: string -> Option<string>): (r: (seq<(string, string)>, seq<string>))
  {
    var found := Phase1From(remaining, 0, lookup);
    var failed := Unresolved(remaining, KeySet(found));
    if failed == [] then (found, [])
    else
      var (more, still) := Phase2(failed, getUser);
      (found + more, still)
  }

  /** The elements of xs[b..c] are elements of xs[a..d] when the first slice lies inside the second. */
  lemma SliceWithin(xs: seq<string>, a: nat, b: nat, c: nat, d: nat)
    requires a <= b <= c <= d <= |xs|
    ensures forall x :: x in xs[b..c] ==> x in xs[a..d]
  {
    forall x | x in xs[b..c]
      ensures x in xs[a..d]
    {
      var k :| 0 <= k < c - b && xs[b..c][k] == x;
      assert xs[a..d][b - a + k] == x;
    }
  }

  /** Adjacent slices of a list without repeats share no element, and each has no repeats. */
  lemma SlicesApart(xs: seq<string>, a: nat, b: nat, c: nat)
    requires Distinct(xs) && a <= b <= c <= |xs|
    ensures forall x :: x in xs[a..b] ==> x !in xs[b..c]
    ensures Distinct(xs[a..b])
  {
    forall x | x in xs[a..b]
      ensures x !in xs[b..c]
    {
      var k :| 0 <= k < b - a && xs[a..b][k] == x;
      assert xs[a + k] == x;
    }
    forall u, v | 0 <= u < v < b - a
      ensures xs[a..b][u] != xs[a..b][v]
    {
      assert xs[a..b][u] == xs[a + u] && xs[a..b][v] == xs[a + v];
    }
  }

  /** Two dicts with no e-mail in common concatenate to a dict. */
  lemma DistinctKeysAppend(p: seq<(string, string)>, q: seq<(string, string)>)
    requires DistinctKeys(p) && DistinctKeys(q)
    requires forall x :: x in KeySet(p) ==> x !in KeySet(q)
    ensures DistinctKeys(p + q)
  {
    var r := p + q;
    forall a, b | 0 <= a < b < |r|
      ensures r[a].0 != r[b].0
    {
      if a < |p| && b >= |p| {
        assert r[a] == p[a] && r[a] in p;
        assert r[b] == q[b - |p|] && r[b] in q;
        assert r[a].0 in KeySet(p) && r[b].0 in KeySet(q);
      } else if a >= |p| {
        assert r[a] == q[a - |p|] && r[b] == q[b - |p|];
      } else if b < |p| {
        assert r[a] == p[a] && r[b] == p[b];
      }
    }
  }

  /** The phase-1 pairs come from the e-mails from `i` on, and never repeat one when those are distinct. */
  lemma {:induction false} Phase1Distinct(remaining: seq<string>, i: nat, lookup: seq<string> -> Option<map<string, string>>)
    requires Distinct(remaining)
    ensures DistinctKeys(Phase1From(remaining, i, lookup))
    ensures forall x :: x in KeySet(Phase1From(remaining, i, lookup)) ==> x in remaining[Min(i, |remaining|)..]
    decreases |remaining| - i
  {
    if i < |remaining| {
      var batch := Chunk(remaining, i, LookupBatchSize);
      var n := i + |batch|;
      var found := BatchFound(batch, lookup(batch));
      var rest := Phase1From(remaining, i + LookupBatchSize, lookup);
      Phase1Distinct(remaining, i + LookupBatchSize, lookup);
      assert Min(i + LookupBatchSize, |remaining|) == n;
      SlicesApart(remaining, i, n, |remaining|);
      SliceWithin(remaining, i, i, n, |remaining|);
      SliceWithin(remaining, i, n, |remaining|, |remaining|);
      if lookup(batch).Some? {
        FoundAll(batch, lookup(batch).value);
      }
      assert forall x :: x in KeySet(found) ==> x in batch;
      DistinctKeysAppend(found, rest);
      assert Phase1From(remaining, i, lookup) == found + rest;
      assert KeySet(found + rest) == KeySet(found) + KeySet(rest);
      forall x | x in KeySet(found + rest)
        ensures x in remaining[i..]
      {
        if x in KeySet(found) {
          assert x in remaining[i..n];
        } else {
          assert x in remaining[n..];
        }
      }
    }
  }

  lemma {:induction false} UnresolvedDistinct(xs: seq<string>, done: set<string>)
    requires Distinct(xs)
    ensures Distinct(Unresolved(xs, done))
    decreases |xs|
  {
    if xs != [] {
      var init := xs[..|xs| - 1];
      var e := xs[|xs| - 1];
      assert Distinct(init) by {
        forall i, j | 0 <= i < j < |init|
          ensures init[i] != init[j]
        {
          assert init[i] == xs[i] && init[j] == xs[j];
        }
      }
      UnresolvedDistinct(init, done);
      assert e !in init;
    }
  }

  lemma {:induction false} Phase2Distinct(failed: seq<string>, getUser: string -> Option<string>)
    requires Distinct(failed)
    ensures DistinctKeys(Phase2(failed, getUser).0) && Distinct(Phase2(failed, getUser).1)
    decreases |failed|
  {
    if failed != [] {
      var init := failed[..|failed| - 1];
      var e := failed[|failed| - 1];
      assert Distinct(init) by {
        forall i, j | 0 <= i < j < |init|
          ensures init[i] != init[j]
        {
          assert init[i] == failed[i] && init[j] == failed[j];
        }
      }
      Phase2Distinct(init, getUser);
      assert e !in init;
      var p := Phase2(init, getUser).0;
      forall i | 0 <= i < |p|
        ensures p[i].0 != e
      {
        assert p[i] in p;
      }
    }
  }

  /** The dict never holds an e-mail twice and no failure is listed twice. */
  lemma ResolveDistinct(remaining: seq<string>, lookup: seq<string> -> Option<map<string, string>>,
                        getUser: string -> Option<string>)
    requires Distinct(remaining)
    ensures DistinctKeys(Resolve(remaining, lookup, getUser).0)
    ensures Distinct(Resolve(remaining, lookup, getUser).1)
  {
    var found := Phase1From(remaining, 0, lookup);
    var failed := Unresolved(remaining, KeySet(found));
    Phase1Distinct(remaining, 0, lookup);
    UnresolvedDistinct(remaining, KeySet(found));
    Phase2Distinct(failed, getUser);
    if failed != [] {
      var more := Phase2(failed, getUser).0;
      assert forall x :: x in KeySet(more) ==> x in failed;
      DistinctKeysAppend(found, more);
    }
  }

  /** Every e-mail is accounted for exactly once: it is resolved or it failed, never both. */
  lemma ResolveAccountsForAll(remaining: seq<string>, lookup: seq<string> -> Option<map<string, string>>,
                              getUser: string -> Option<string>)
    ensures forall e :: e in remaining <==>
      e in KeySet(Resolve(remaining, lookup, getUser).0) || e in Resolve(remaining, lookup, getUser).1
    ensures forall e :: e in Resolve(remaining, lookup, getUser).1 ==> e !in KeySet(Resolve(remaining, lookup, getUser).0)
  {
    var found := Phase1From(remaining, 0, lookup);
    var failed := Unresolved(remaining, KeySet(found));
    if failed != [] {
      var (more, still) := Phase2(failed, getUser);
      assert KeySet(found + more) == KeySet(found) + KeySet(more);
      forall e | e in failed && Retry(e, getUser).Some?
        ensures e in KeySet(more)
      {
        Phase2Has(failed, getUser, e);
      }
    }
  }

  /** Phase 2 lists every failure it resolves, with the id found. */
  lemma {:induction false} Phase2Has(failed: seq<string>, getUser: string -> Option<string>, e: string)
    requires e in failed && Retry(e, getUser).Some?
    ensures (e, Retry(e, getUser).value) in Phase2(failed, getUser).0
    decreases |failed|
  {
    var init := failed[..|failed| - 1];
    if e != failed[|failed| - 1] {
      assert e in init;
      Phase2Has(init, getUser, e);
    }
  }

  /**
   * The failures are exactly the e-mails that phase 1 did not resolve and for which no domain
   * variation is known; an e-mail resolved in phase 2 has the id of its first known variation.
   */
  lemma FailedAreUnresolved(remaining: seq<string>, lookup: seq<string> -> Option<map<string, string>>,
                            getUser: string -> Option<string>, e: string)
    ensures var (pairs, failed) := Resolve(remaining, lookup, getUser);
      var first := KeySet(Phase1From(remaining, 0, lookup));
      && (e in failed <==> e in remaining && e !in first && Retry(e, getUser).None?)
      && (forall p :: p in pairs && p.0 !in first ==> Retry(p.0, getUser) == Some(p.1))
  {
  }

  /** _resolve_emails_to_member_ids(emails): the dict and the failure list built call by call. */
  method ResolveEmailsToMemberIds(remaining: seq<string>, lookup: seq<string> -> Option<map<string, string>>,
                                  getUser: string -> Option<string>)
    returns (pairs: seq<(string, string)>, failed: seq<string>)
    ensures (pairs, failed) == Resolve(remaining, lookup, getUser)
  {
    pairs := LookUpAsProvided(remaining, lookup);
    var phase1Failed := Unresolved(remaining, KeySet(pairs));
    failed := [];
    if phase1Failed != [] {
      var more;
      more, failed := TryDomainVariations(phase1Failed, getUser);
      pairs := pairs + more;
    }
  }

  /** Phase 1: one bulk lookup per batch of 1000, its hits added to the dict in batch order. */
  method LookUpAsProvided(remaining: seq<string>, lookup: seq<string> -> Option<map<string, string>>)
    returns (pairs: seq<(string, string)>)
    ensures pairs == Phase1From(remaining, 0, lookup)
  {
    pairs := [];
    var i: nat := 0;
    while i < |remaining|
      invariant Phase1From(remaining, 0, lookup) == pairs + Phase1From(remaining, i, lookup)
      decreases |remaining| - i
    {
      var batch := Chunk(remaining, i, LookupBatchSize);
      var reply := lookup(batch);
      var found := [];
      if reply.Some? {
        found := FoundIn(batch, reply.value);
      }
      AppendAssoc(pairs, found, Phase1From(remaining, i + LookupBatchSize, lookup));
      pairs := pairs + found;
      i := i + LookupBatchSize;
    }
    assert pairs + [] == pairs;
  }

  /** The loop over one batch: each e-mail the reply holds an id for is added. */
  method FoundIn(batch: seq<string>, users: map<string, string>) returns (found: seq<(string, string)>)
    ensures found == Found(batch, users)
  {
    found := [];
    for j := 0 to |batch|
      invariant found == Found(batch[..j], users)
    {
      assert batch[..j + 1][..j] == batch[..j];
      if batch[j] in users {
        found := found + [(batch[j], users[batch[j]])];
      }
    }
    assert batch[..|batch|] == batch;
  }

  /** Phase 2: each phase-1 failure with an '@' is tried on the domains in turn. */
  method TryDomainVariations(phase1Failed: seq<string>, getUser: string -> Option<string>)
    returns (more: seq<(string, string)>, failed: seq<string>)
    ensures (more, failed) == Phase2(phase1Failed, getUser)
  {
    more, failed := [], [];
    for idx := 0 to |phase1Failed|
      invariant (more, failed) == Phase2(phase1Failed[..idx], getUser)
    {
      var email := phase1Failed[idx];
      assert phase1Failed[..idx + 1][..idx] == phase1Failed[..idx];
      var id: Option<string> := None;
      if '@' in email {
        id := FindVariant(email, getUser);
      }
      if id.Some? {
        more := more + [(email, id.value)];
      } else {
        failed := failed + [email];
      }
    }
    assert phase1Failed[..|phase1Failed|] == phase1Failed;
  }

  /** The loop over the domains, leaving it at the first variation get_user knows. */
  method FindVariant(email: string, getUser: string -> Option<string>) returns (id: Option<string>)
    ensures id == FirstVariant(email, 0, getUser)
  {
    for j := 0 to |Domains|
      invariant FirstVariant(email, 0, getUser) == FirstVariant(email, j, getUser)
    {
      var userInfo := getUser(Variation(email, Domains[j]));
      if userInfo.Some? {
        return userInfo;
      }
    }
    return None;
  }

  // ----- step 4: new and existing members -----

  /** The ids not yet members, and the e-mails already members, each in dict order. */
  function Partition(pairs: seq<(string, string)>, existing: set<string>): (r: (seq<string>, seq<string>))
    ensures |r.0| + |r.1| == |pairs|
    ensures forall x :: x in r.0 ==> x !in existing && exists p :: p in pairs && p.1 == x
    ensures forall e :: e in r.1 ==> exists p :: p in pairs && p.0 == e && p.1 in existing
    decreases |pairs|
  {
    if pairs == [] then ([], [])
    else
      var p := pairs[|pairs| - 1];
      var init := Partition(pairs[..|pairs| - 1], existing);
      assert forall q :: q in pairs[..|pairs| - 1] ==> q in pairs;
      if p.1 in existing then (init.0, init.1 + [p.0]) else (init.0 + [p.1], init.1)
  }

  /** Each resolved e-mail lands in exactly the list its id calls for. */
  lemma {:induction false} PartitionPlacesEach(pairs: seq<(string, string)>, existing: set<string>)
    ensures forall k :: 0 <= k < |pairs| && pairs[k].1 in existing ==> pairs[k].0 in Partition(pairs, existing).1
    ensures forall k :: 0 <= k < |pairs| && pairs[k].1 !in existing ==> pairs[k].1 in Partition(pairs, existing).0
    decreases |pairs|
  {
    if pairs != [] {
      var init := pairs[..|pairs| - 1];
      PartitionPlacesEach(init, existing);
      forall k | 0 <= k < |pairs| - 1
        ensures pairs[k] == init[k]
      {
      }
    }
  }

  /** The step-4 loop over email_to_member_id.items(). */
  method PartitionMembers(pairs: seq<(string, string)>, existing: set<string>)
    returns (newIds: seq<string>, already: seq<string>)
    ensures (newIds, already) == Partition(pairs, existing)
  {
    newIds := [];
    already := [];
    for k := 0 to |pairs|
      invariant (newIds, already) == Partition(pairs[..k], existing)
    {
      assert pairs[..k + 1][..k] == pairs[..k];
      var (email, memberId) := pairs[k];
      if memberId in existing {
        already := already + [email];
      } else {
        newIds := newIds + [memberId];
      }
    }
    assert pairs[..|pairs|] == pairs;
  }

  // ----- step 5: adding in batches -----

  /** What one add_folder_members call does: it adds the batch, or raises with a message. */
  datatype AddReply = Added | Refused(message: string)

  /** The reply to call number `k`; past the given replies a call raises with an empty message. */
  function ReplyAt(calls: seq<AddReply>, k: nat): AddReply {
    if k < |calls| then calls[k] else Refused("")
  }

  /** A refusal is a rate limit when its lower-cased message mentions 429 or "rate limit". */
  predicate RateLimited(message: string) {
    Contains(Lower(message), "429") || Contains(Lower(message), "rate limit")
  }

  /** Members added and in error, the position reached in the replies, and the waits. */
  datatype Tally = Tally(added: nat, errors: nat, next: nat, waits: seq<nat>)

  /** One batch of `size` members at reply `at`; every batch but the first waits RATE_LIMIT_DELAY first. */
  function AddBatch(size: nat, first: bool, calls: seq<AddReply>, at: nat): (t: Tally)
    ensures (t.added == size && t.errors == 0) || (t.added == 0 && t.errors == size)
    ensures at < t.next <= at + 2
  {
    var pause := if first then [] else [RateLimitDelay];
    match ReplyAt(calls, at)
    case Added => Tally(size, 0, at + 1, pause)
    case Refused(m) =>
      if !RateLimited(m) then Tally(0, size, at + 1, pause)
      else if ReplyAt(calls, at + 1).Added? then Tally(size, 0, at + 2, pause + [RateLimitRetryWait])
      else Tally(0, size, at + 2, pause + [RateLimitRetryWait])
  }

  /** A batch's tally followed by the tally of the batches after it. */
  function Join(t: Tally, rest: Tally): Tally {
    Tally(t.added + rest.added, t.errors + rest.errors, rest.next, t.waits + rest.waits)
  }

  lemma JoinUnit(t: Tally)
    ensures Join(Tally(0, 0, 0, []), t) == t
  {
    assert [] + t.waits == t.waits;
  }

  lemma JoinAssoc(a: Tally, b: Tally, c: Tally)
    ensures Join(a, Join(b, c)) == Join(Join(a, b), c)
  {
    assert a.waits + (b.waits + c.waits) == (a.waits + b.waits) + c.waits;
  }

  /** The batches from member `i` on, with the replies from `at` on. */
  function AddFrom(ids: seq<string>, i: nat, calls: seq<AddReply>, at: nat): (t: Tally)
    ensures t.next >= at
    decreases |ids| - i
  {
    if i >= |ids| then Tally(0, 0, at, [])
    else
      var b := AddBatch(|Chunk(ids, i, AddBatchSize)|, i == 0, calls, at);
      Join(b, AddFrom(ids, i + AddBatchSize, calls, b.next))
  }

  /** new_member_ids[i:i+50] for i in range(0, len, 50): the batches sent. */
  function Batches(ids: seq<string>, i: nat): (bs: seq<seq<string>>)
    ensures forall k :: 0 <= k < |bs| ==> 1 <= |bs[k]| <= AddBatchSize
    decreases |ids| - i
  {
    if i >= |ids| then [] else [Chunk(ids, i, AddBatchSize)] + Batches(ids, i + AddBatchSize)
  }

  function Flatten(bs: seq<seq<string>>): seq<string> {
    if bs == [] then [] else bs[0] + Flatten(bs[1..])
  }

  /** The batches are consecutive slices that cover the new members in order. */
  lemma {:induction false} BatchesCover(ids: seq<string>, i: nat)
    ensures Flatten(Batches(ids, i)) == ids[Min(i, |ids|)..]
    decreases |ids| - i
  {
    if i < |ids| {
      var c := Chunk(ids, i, AddBatchSize);
      var bs := Batches(ids, i);
      assert bs[1..] == Batches(ids, i + AddBatchSize);
      BatchesCover(ids, i + AddBatchSize);
      assert ids[i..] == c + ids[i + |c|..];
    }
  }

  /** Every member is counted once: added_count + error_count == len(new_member_ids). */
  lemma {:induction false} AddCountsEach(ids: seq<string>, i: nat, calls: seq<AddReply>, at: nat)
    ensures AddFrom(ids, i, calls, at).added + AddFrom(ids, i, calls, at).errors == |ids| - Min(i, |ids|)
    decreases |ids| - i
  {
    if i < |ids| {
      var c := Chunk(ids, i, AddBatchSize);
      var b := AddBatch(|c|, i == 0, calls, at);
      AddCountsEach(ids, i + AddBatchSize, calls, b.next);
    }
  }

  /** When every call is accepted all members are added with one call per batch and no retry wait. */
  lemma {:induction false} AllAcceptedAddsAll(ids: seq<string>, i: nat, calls: seq<AddReply>, at: nat)
    requires forall k :: at <= k ==> ReplyAt(calls, k) == Added
    ensures AddFrom(ids, i, calls, at).added == |ids| - Min(i, |ids|) && AddFrom(ids, i, calls, at).errors == 0
    ensures AddFrom(ids, i, calls, at).next == at + |Batches(ids, i)|
    ensures RateLimitRetryWait !in AddFrom(ids, i, calls, at).waits
    decreases |ids| - i
  {
    if i < |ids| {
      var c := Chunk(ids, i, AddBatchSize);
      assert ReplyAt(calls, at) == Added;
      AllAcceptedAddsAll(ids, i + AddBatchSize, calls, at + 1);
    }
  }

  /** One pass of the batch loop: the pause, the call, and the one retry after a rate limit. */
  method AddBatchCall(size: nat, first: bool, calls: seq<AddReply>, at: nat) returns (t: Tally)
    ensures t == AddBatch(size, first, calls, at)
  {
    var waits: seq<nat> := [];
    if !first {
      waits := waits + [RateLimitDelay];
    }
    var reply := ReplyAt(calls, at);
    if reply.Added? {
      return Tally(size, 0, at + 1, waits);
    }
    if !RateLimited(reply.message) {
      return Tally(0, size, at + 1, waits);
    }
    waits := waits + [RateLimitRetryWait];
    var retry := ReplyAt(calls, at + 1);
    if retry.Added? {
      return Tally(size, 0, at + 2, waits);
    }
    return Tally(0, size, at + 2, waits);
  }

  /** One pass of the batch loop keeps the tally and the batches sent in step with AddFrom and Batches. */
  lemma AddMembersStep(ids: seq<string>, calls: seq<AddReply>, i: nat, t: Tally, sent: seq<seq<string>>)
    requires i < |ids|
    requires AddFrom(ids, 0, calls, 0) == Join(t, AddFrom(ids, i, calls, t.next))
    requires Batches(ids, 0) == sent + Batches(ids, i)
    ensures var b := AddBatch(|Chunk(ids, i, AddBatchSize)|, i == 0, calls, t.next);
      && AddFrom(ids, 0, calls, 0) == Join(Join(t, b), AddFrom(ids, i + AddBatchSize, calls, Join(t, b).next))
      && Batches(ids, 0) == (sent + [Chunk(ids, i, AddBatchSize)]) + Batches(ids, i + AddBatchSize)
  {
    var batch := Chunk(ids, i, AddBatchSize);
    var b := AddBatch(|batch|, i == 0, calls, t.next);
    var rest := AddFrom(ids, i + AddBatchSize, calls, b.next);
    assert AddFrom(ids, i, calls, t.next) == Join(b, rest);
    JoinAssoc(t, b, rest);
    assert Batches(ids, i) == [batch] + Batches(ids, i + AddBatchSize);
    AppendAssoc(sent, [batch], Batches(ids, i + AddBatchSize));
  }

  /** Once every member has been sent, the tally and the batches sent are the whole of AddFrom and Batches. */
  lemma AddMembersDone(ids: seq<string>, calls: seq<AddReply>, i: nat, t: Tally, sent: seq<seq<string>>)
    requires i >= |ids|
    requires AddFrom(ids, 0, calls, 0) == Join(t, AddFrom(ids, i, calls, t.next))
    requires Batches(ids, 0) == sent + Batches(ids, i)
    ensures t == AddFrom(ids, 0, calls, 0) && sent == Batches(ids, 0)
  {
    assert t.waits + [] == t.waits && sent + [] == sent;
  }

  /** The batch loop of add_users_from_csv, the batches sent returned alongside the counts. */
  method AddMembers(ids: seq<string>, calls: seq<AddReply>) returns (t: Tally, sent: seq<seq<string>>)
    ensures t == AddFrom(ids, 0, calls, 0)
    ensures sent == Batches(ids, 0)
  {
    t, sent := Tally(0, 0, 0, []), [];
    var i: nat := 0;
    JoinUnit(AddFrom(ids, 0, calls, 0));
    while i < |ids|
      invariant AddFrom(ids, 0, calls, 0) == Join(t, AddFrom(ids, i, calls, t.next))
      invariant Batches(ids, 0) == sent + Batches(ids, i)
      decreases |ids| - i
    {
      var batch := Chunk(ids, i, AddBatchSize);
      var b := AddBatchCall(|batch|, i == 0, calls, t.next);
      AddMembersStep(ids, calls, i, t, sent);
      t := Join(t, b);
      sent := sent + [batch];
      i := i + AddBatchSize;
    }
    AddMembersDone(ids, calls, i, t, sent);
  }

  // ----- add_users_from_csv -----

  /** What get_folder answers: it raised, or a reply with or without 'folder' and 'member_ids'. */
  datatype FolderReply = Unreachable | Reply(hasFolder: bool, memberIds: Option<seq<string>>)

  /** How far add_users_from_csv got: the resolution, the split and the batch tally. */
  datatype Summary = Summary(
    pairs: seq<(string, string)>, failed: seq<string>,
    newIds: seq<string>, already: seq<string>, tally: Tally)

  /** The members' ids as a set. */
  function IdSet(ids: seq<string>): set<string> {
    set x | x in ids
  }

  /** `remaining` is list(set(emails)): the same e-mails, each once, in some order. */
  predicate SetListOf(remaining: seq<string>, emails: seq<string>) {
    && Distinct(remaining)
    && (forall e :: e in remaining ==> e in emails)
    && (forall e :: e in emails ==> e in remaining)
  }

  /**
   * add_users_from_csv(folder_id, csv_path): whether it reports success, the console position
   * after the question asked when the folder's members are unknown, and the summary when it
   * got past the checks. `emails` is what extract_emails_from_csv gives and `remaining` is
   * list(set(emails)).
   */
  function AddUsers(csvExists: bool, folder: FolderReply, emails: seq<string>, remaining: seq<string>,
                    answers: seq<string>, at: nat,
                    lookup: seq<string> -> Option<map<string, string>>, getUser: string -> Option<string>,
                    calls: seq<AddReply>): (r: (bool, nat, Option<Summary>))
    requires SetListOf(remaining, emails)
    ensures r.0 ==> r.2.Some?
  {
    if !csvExists || folder.Unreachable? || !folder.hasFolder || emails == [] then (false, at, None)
    else
      var asked :=
        if folder.memberIds.Some? then Got("y", at) else Choice(answers, at, YesNo, "");
      if asked.EndOfInput? then (false, |answers|, None)
      else if asked.value != "y" && asked.value != "yes" then (false, asked.next, None)
      else
        var existing := if folder.memberIds.Some? then IdSet(folder.memberIds.value) else {};
        var (pairs, failed) := Resolve(remaining, lookup, getUser);
        var (newIds, already) := Partition(pairs, existing);
        var tally := if newIds == [] then Tally(0, 0, 0, []) else AddFrom(newIds, 0, calls, 0);
        (tally.added > 0 || |already| > 0, asked.next, Some(Summary(pairs, failed, newIds, already, tally)))
  }

  /**
   * Success needs an e-mail that resolved: either some new member was added or one already was
   * a member. Every resolved e-mail is either skipped or sent, and every one sent is counted.
   */
  lemma AddUsersOutcome(csvExists: bool, folder: FolderReply, emails: seq<string>, remaining: seq<string>,
                        answers: seq<string>, at: nat,
                        lookup: seq<string> -> Option<map<string, string>>, getUser: string -> Option<string>,
                        calls: seq<AddReply>)
    requires SetListOf(remaining, emails)
    ensures var r := AddUsers(csvExists, folder, emails, remaining, answers, at, lookup, getUser, calls);
      r.2.Some? ==>
        var s := r.2.value;
        && (r.0 <==> s.tally.added > 0 || s.already != [])
        && (r.0 ==> s.pairs != [])
        && |s.newIds| + |s.already| == |s.pairs|
        && s.tally.added + s.tally.errors == |s.newIds|
        && DistinctKeys(s.pairs) && Distinct(s.failed)
        && (forall e :: e in emails <==> e in KeySet(s.pairs) || e in s.failed)
  {
    var r := AddUsers(csvExists, folder, emails, remaining, answers, at, lookup, getUser, calls);
    if r.2.Some? {
      var s := r.2.value;
      ResolveDistinct(remaining, lookup, getUser);
      ResolveAccountsForAll(remaining, lookup, getUser);
      if s.newIds != [] {
        AddCountsEach(s.newIds, 0, calls, 0);
      }
    }
  }

  /** Nothing is added, and False answered, before the CSV file, the folder and some e-mail are all there. */
  lemma AddUsersChecksFirst(csvExists: bool, folder: FolderReply, emails: seq<string>, remaining: seq<string>,
                            answers: seq<string>, at: nat,
                            lookup: seq<string> -> Option<map<string, string>>, getUser: string -> Option<string>,
                            calls: seq<AddReply>)
    requires SetListOf(remaining, emails)
    requires !csvExists || folder.Unreachable? || !folder.hasFolder || emails == []
    ensures AddUsers(csvExists, folder, emails, remaining, answers, at, lookup, getUser, calls) == (false, at, None)
  {
  }

  /** With the folder's members unknown, only an answer of "y" goes on; anything else answers False. */
  lemma UnknownMembersAsks(csvExists: bool, emails: seq<string>, remaining: seq<string>,
                           answers: seq<string>, at: nat,
                           lookup: seq<string> -> Option<map<string, string>>, getUser: string -> Option<string>,
                           calls: seq<AddReply>)
    requires SetListOf(remaining, emails)
    requires csvExists && emails != []
    ensures var r := AddUsers(csvExists, Reply(true, None), emails, remaining, answers, at, lookup, getUser, calls);
      r.2.Some? <==> Choice(answers, at, YesNo, "") == Got("y", r.1)
  {
    var c := Choice(answers, at, YesNo, "");
    if c.Got? {
      YesNoLower();
      assert c.value in YesNo;
    }
  }

  /** add_users_from_csv as a sequence of steps; only the Quip calls and the console are outside it. */
  method AddUsersFromCsv(csvExists: bool, folder: FolderReply, emails: seq<string>, remaining: seq<string>,
                         answers: seq<string>, at: nat,
                         lookup: seq<string> -> Option<map<string, string>>, getUser: string -> Option<string>,
                         calls: seq<AddReply>)
    returns (ok: bool, read: nat, summary: Option<Summary>)
    requires SetListOf(remaining, emails)
    ensures (ok, read, summary) == AddUsers(csvExists, folder, emails, remaining, answers, at, lookup, getUser, calls)
  {
    if !csvExists || folder.Unreachable? || !folder.hasFolder || emails == [] {
      return false, at, None;
    }
    var existing: set<string> := {};
    read := at;
    if folder.memberIds.Some? {
      existing := IdSet(folder.memberIds.value);
    } else {
      var response := GetUserChoice(answers, at, YesNo, "");
      if response.EndOfInput? {
        return false, |answers|, None;
      }
      read := response.next;
      if response.value != "y" && response.value != "yes" {
        return false, read, None;
      }
    }
    var pairs, failed := ResolveEmailsToMemberIds(remaining, lookup, getUser);
    var newIds, already := PartitionMembers(pairs, existing);
    var tally := Tally(0, 0, 0, []);
    if newIds != [] {
      var sent;
      tally, sent := AddMembers(newIds, calls);
    }
    ok := tally.added > 0 || |already| > 0;
    summary := Some(Summary(pairs, failed, newIds, already, tally));
  }
}
