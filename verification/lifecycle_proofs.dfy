/** Properties of the lifecycle engine that relate several calls: the table invariant
    every endpoint keeps, the evolution relation between successive tables (soft
    deletion is terminal, view counts only grow), the sweep's idempotence and order
    independence, and the read scenarios of a limited, expired or sender-read document. */
module LifecycleProofs {
  import opened Results
  import opened Bytes
  import opened Cbc
  import opened Encryption
  import opened Models
  import opened Lifecycle

  // -------------------------------------------------------------- invariant

  /** What every row built by `Upload` and changed only by the endpoints satisfies:
      both parties are users, a limit is at least 1 and never exceeded, a live row
      with a limit is strictly under it, and the blob decrypts. */
  ghost predicate GoodRow(e: Encryptor, users: set<int>, d: Document) {
    && d.sender_id in users
    && d.recipient_id in users
    && (d.view_limit.Some? ==> 1 <= d.view_limit.value && d.view_count <= d.view_limit.value)
    && (d.view_limit.Some? && !d.is_deleted ==> d.view_count < d.view_limit.value)
    && DecryptFile(e, d.encrypted_content).Success?
  }

  ghost predicate Valid(e: Encryptor, users: set<int>, s: Store) {
    && KeysAreIds(s)
    && forall id :: id in s ==> GoodRow(e, users, s[id])
  }

  /** How a row may change: its identity, content, parties, limit, expiry and creation
      time never change, the view count never decreases, deletion is never undone, and
      a deleted row does not change at all. */
  ghost predicate RowEvolves(d: Document, d': Document) {
    && d'.(view_count := d.view_count, is_deleted := d.is_deleted) == d
    && d.view_count <= d'.view_count
    && (d.is_deleted ==> d' == d)
  }

  /** How the table may change: rows are never removed, and every row evolves. */
  ghost predicate Evolves(s: Store, s': Store) {
    && s.Keys <= s'.Keys
    && forall id :: id in s ==> RowEvolves(s[id], s'[id])
  }

  lemma EvolvesTransitive(s1: Store, s2: Store, s3: Store)
    requires Evolves(s1, s2) && Evolves(s2, s3)
    ensures Evolves(s1, s3)
  {
    forall id | id in s1
      ensures RowEvolves(s1[id], s3[id])
    {
      assert RowEvolves(s1[id], s2[id]) && RowEvolves(s2[id], s3[id]);
    }
  }

  /** Under the invariant, the download's truthiness test and the sweep's SQL test agree. */
  lemma LimitTestsAgree(e: Encryptor, users: set<int>, d: Document)
    requires GoodRow(e, users, d)
    ensures LimitReachedInCode(d) <==> LimitReachedInQuery(d)
  {
  }

  // ------------------------------------------------------------ each endpoint

  lemma UploadKeepsValid(e: Encryptor, users: set<int>, s: Store, sender: int, recipient: int,
                         filename: string, content: seq<byte>, viewLimit: Option<int>,
                         expiresInDays: Option<int>, iv: Block, now: int)
    requires Inverts(e.cipher)
    requires Valid(e, users, s)
    requires sender in users
    ensures var r := Upload(e, users, s, sender, recipient, filename, content, viewLimit, expiresInDays, iv, now);
            Valid(e, users, r.store) && Evolves(s, r.store)
  {
    var r := Upload(e, users, s, sender, recipient, filename, content, viewLimit, expiresInDays, iv, now);
    if r.result.Success? {
      DecryptEncrypt(e, iv, content);
      assert GoodRow(e, users, r.store[r.result.value]);
    }
  }

  lemma SweepKeepsValid(e: Encryptor, users: set<int>, s: Store, now: int)
    requires Valid(e, users, s)
    ensures Valid(e, users, Sweep(s, now)) && Evolves(s, Sweep(s, now))
  {
    var s' := Sweep(s, now);
    forall id | id in s'
      ensures GoodRow(e, users, s'[id]) && s'[id].id == id
    {
      assert GoodRow(e, users, s[id]);
    }
  }

  lemma ListKeepsValid(e: Encryptor, users: set<int>, s: Store, user: int, now: int)
    requires Valid(e, users, s)
    ensures var r := ListDocuments(s, user, now);
            Valid(e, users, r.store) && Evolves(s, r.store)
  {
    SweepKeepsValid(e, users, s, now);
  }

  /** The three ways a download can leave the target row. */
  lemma DownloadRowCases(e: Encryptor, s: Store, user: int, id: int, now: int)
    requires id in s
    ensures var d' := Download(e, s, user, id, now).store[id];
            || d' == s[id]
            || (!s[id].is_deleted && d' == s[id].(is_deleted := true))
            || (!s[id].is_deleted && !LimitReachedInCode(s[id]) && d' == AfterRead(s[id], user))
  {
  }

  /** Each of those three changes keeps a good row good and is an allowed evolution. */
  lemma DownloadRowKeepsGood(e: Encryptor, users: set<int>, d: Document, d': Document, user: int)
    requires GoodRow(e, users, d)
    requires || d' == d
             || (!d.is_deleted && d' == d.(is_deleted := true))
             || (!d.is_deleted && !LimitReachedInCode(d) && d' == AfterRead(d, user))
    ensures GoodRow(e, users, d') && RowEvolves(d, d') && d'.id == d.id
  {
    assert d'.encrypted_content == d.encrypted_content;
  }

  lemma DownloadKeepsValid(e: Encryptor, users: set<int>, s: Store, user: int, id: int, now: int)
    requires Valid(e, users, s)
    ensures var r := Download(e, s, user, id, now);
            Valid(e, users, r.store) && Evolves(s, r.store)
  {
    var r := Download(e, s, user, id, now);
    if id !in s {
      assert r.store == s;
    } else {
      assert GoodRow(e, users, s[id]);
      DownloadRowCases(e, s, user, id, now);
      DownloadRowKeepsGood(e, users, s[id], r.store[id], user);
      forall other | other in r.store
        ensures GoodRow(e, users, r.store[other]) && r.store[other].id == other
        ensures RowEvolves(s[other], r.store[other])
      {
        if other != id {
          assert r.store[other] == s[other];
        }
      }
    }
  }

  // ------------------------------------------------------------- properties

  /** On a valid table the LimitReached branch of the download gate is never taken: a
      recipient read that reaches the limit already soft-deletes the row. */
  lemma DownloadNeverLimitReached(e: Encryptor, users: set<int>, s: Store, user: int, id: int, now: int)
    requires Valid(e, users, s)
    ensures Download(e, s, user, id, now).result != Failure(LimitReached)
  {
    if id in s {
      assert GoodRow(e, users, s[id]);
    }
  }

  /** On a valid table a download that passes the gate always decrypts. */
  lemma DownloadNeverDecryptError(e: Encryptor, users: set<int>, s: Store, user: int, id: int, now: int)
    requires Valid(e, users, s)
    ensures Download(e, s, user, id, now).result != Failure(DecryptError)
  {
    if id in s {
      assert GoodRow(e, users, s[id]);
    }
  }

  /** A successful recipient read adds exactly one view, and the row is soft-deleted
      exactly when the new count reaches the limit. */
  lemma RecipientReadCounts(e: Encryptor, users: set<int>, s: Store, id: int, now: int)
    requires Valid(e, users, s)
    requires id in s
    ensures var r := Download(e, s, s[id].recipient_id, id, now);
            r.result.Success? ==>
              && r.store[id].view_count == s[id].view_count + 1
              && (r.store[id].is_deleted <==>
                    s[id].view_limit.Some? && s[id].view_count + 1 >= s[id].view_limit.value)
  {
    assert GoodRow(e, users, s[id]);
  }

  /** A read by the sender of a document they did not also receive changes nothing,
      whatever the outcome other than an expiry or limit detection. */
  lemma SenderReadIsFree(e: Encryptor, s: Store, id: int, now: int)
    requires id in s
    requires s[id].sender_id != s[id].recipient_id
    ensures var r := Download(e, s, s[id].sender_id, id, now);
            r.result != Failure(Expired) && r.result != Failure(LimitReached) ==> r.store == s
  {
    var r := Download(e, s, s[id].sender_id, id, now);
    if r.result.Success? || r.result == Failure(DecryptError) {
      assert r.store[id] == s[id];
    }
  }

  /** After the sweep no live row is expired or at its limit. */
  lemma SweepLeavesNothingDue(s: Store, now: int)
    ensures var r := Sweep(s, now);
            forall id :: id in r && !r[id].is_deleted ==> !IsExpired(r[id], now) && !LimitReachedInQuery(r[id])
  {
  }

  /** Sweeping twice at the same instant is sweeping once. */
  lemma SweepIdempotent(s: Store, now: int)
    ensures Sweep(Sweep(s, now), now) == Sweep(s, now)
  {
    var once := Sweep(s, now);
    var twice := Sweep(once, now);
    assert forall id :: id in twice ==> twice[id] == once[id];
  }

  /** Sweeps at two instants commute: the sweep is order-independent. */
  lemma SweepsCommute(s: Store, t1: int, t2: int)
    ensures Sweep(Sweep(s, t1), t2) == Sweep(Sweep(s, t2), t1)
  {
    var a := Sweep(Sweep(s, t1), t2);
    var b := Sweep(Sweep(s, t2), t1);
    forall id | id in a
      ensures a[id] == b[id]
    {
      var d := s[id];
      assert a[id] == d.(is_deleted := d.is_deleted || IsExpired(d, t1) || IsExpired(d, t2) || LimitReachedInQuery(d));
    }
  }

  /** A later sweep subsumes an earlier one. */
  lemma LaterSweepSubsumes(s: Store, t1: int, t2: int)
    requires t1 <= t2
    ensures Sweep(Sweep(s, t1), t2) == Sweep(s, t2)
  {
    var a := Sweep(Sweep(s, t1), t2);
    var c := Sweep(s, t2);
    forall id | id in a
      ensures a[id] == c[id]
    {
      assert IsExpired(s[id], t1) ==> IsExpired(s[id], t2);
    }
  }

  /** On a valid table the listing holds exactly the live rows of the caller, by id. */
  lemma ListingById(e: Encryptor, users: set<int>, s: Store, user: int, now: int)
    requires Valid(e, users, s)
    ensures var r := ListDocuments(s, user, now);
            && (forall id :: id in r.store && !r.store[id].is_deleted && r.store[id].sender_id == user
                  ==> FormatDoc(r.store[id], now) in r.result.sent)
            && (forall id :: id in r.store && !r.store[id].is_deleted && r.store[id].recipient_id == user
                  ==> FormatDoc(r.store[id], now) in r.result.received)
            && (forall v :: v in r.result.sent ==>
                  v.id in r.store && !r.store[v.id].is_deleted && r.store[v.id].sender_id == user
                  && v == FormatDoc(r.store[v.id], now))
            && (forall v :: v in r.result.received ==>
                  v.id in r.store && !r.store[v.id].is_deleted && r.store[v.id].recipient_id == user
                  && v == FormatDoc(r.store[v.id], now))
  {
    var r := ListDocuments(s, user, now);
    SweepKeepsValid(e, users, s, now);
    forall v | v in r.result.sent
      ensures v.id in r.store && v == FormatDoc(r.store[v.id], now)
    {
      var id :| id in r.store && !r.store[id].is_deleted && r.store[id].sender_id == user
                && v == FormatDoc(r.store[id], now);
      assert r.store[id].id == id;
    }
    forall v | v in r.result.received
      ensures v.id in r.store && v == FormatDoc(r.store[v.id], now)
    {
      var id :| id in r.store && !r.store[id].is_deleted && r.store[id].recipient_id == user
                && v == FormatDoc(r.store[id], now);
      assert r.store[id].id == id;
    }
  }

  // ---------------------------------------------------------------- traces

  /** One call to an endpoint, by an authenticated caller. */
  datatype Request =
    | UploadRequest(sender: int, recipient: int, filename: string, content: seq<byte>,
                    viewLimit: Option<int>, expiresInDays: Option<int>, iv: Block, now: int)
    | ListRequest(user: int, now: int)
    | DownloadRequest(user: int, documentId: int, now: int)

  /** The caller of a request is a registered user (the authentication dependency
      only ever yields an existing user). */
  predicate Authenticated(users: set<int>, req: Request) {
    match req
    case UploadRequest(sender, _, _, _, _, _, _, _) => sender in users
    case ListRequest(user, _) => user in users
    case DownloadRequest(user, _, _) => user in users
  }

  /** The table after one request. */
  function Step(e: Encryptor, users: set<int>, s: Store, req: Request): (s': Store)
  {
    match req
    case UploadRequest(sender, recipient, filename, content, viewLimit, expiresInDays, iv, now) =>
      Upload(e, users, s, sender, recipient, filename, content, viewLimit, expiresInDays, iv, now).store
    case ListRequest(user, now) => ListDocuments(s, user, now).store
    case DownloadRequest(user, id, now) => Download(e, s, user, id, now).store
  }

  /** The table after a sequence of requests, served one at a time. */
  function Run(e: Encryptor, users: set<int>, s: Store, reqs: seq<Request>): (s': Store)
    decreases |reqs|
  {
    if |reqs| == 0 then s else Run(e, users, Step(e, users, s, reqs[0]), reqs[1..])
  }

  lemma StepKeepsValid(e: Encryptor, users: set<int>, s: Store, req: Request)
    requires Inverts(e.cipher)
    requires Valid(e, users, s)
    requires Authenticated(users, req)
    ensures Valid(e, users, Step(e, users, s, req)) && Evolves(s, Step(e, users, s, req))
  {
    match req
    case UploadRequest(sender, recipient, filename, content, viewLimit, expiresInDays, iv, now) =>
      UploadKeepsValid(e, users, s, sender, recipient, filename, content, viewLimit, expiresInDays, iv, now);
    case ListRequest(user, now) => ListKeepsValid(e, users, s, user, now);
    case DownloadRequest(user, id, now) => DownloadKeepsValid(e, users, s, user, id, now);
  }

  /** Any sequence of authenticated requests keeps the invariant, and the final table
      evolves from the first: no view count ever exceeds its limit, and a soft-deleted
      row never comes back or changes again. */
  lemma {:induction false} RunKeepsValid(e: Encryptor, users: set<int>, s: Store, reqs: seq<Request>)
    requires Inverts(e.cipher)
    requires Valid(e, users, s)
    requires forall i :: 0 <= i < |reqs| ==> Authenticated(users, reqs[i])
    ensures Valid(e, users, Run(e, users, s, reqs))
    ensures Evolves(s, Run(e, users, s, reqs))
    decreases |reqs|
  {
    if |reqs| > 0 {
      var s1 := Step(e, users, s, reqs[0]);
      StepKeepsValid(e, users, s, reqs[0]);
      assert forall i :: 0 <= i < |reqs[1..]| ==> Authenticated(users, reqs[1..][i]) by {
        forall i | 0 <= i < |reqs[1..]|
          ensures Authenticated(users, reqs[1..][i])
        {
          assert reqs[1..][i] == reqs[i + 1];
        }
      }
      RunKeepsValid(e, users, s1, reqs[1..]);
      EvolvesTransitive(s, s1, Run(e, users, s1, reqs[1..]));
    }
  }

  /** From the empty table, every row ever produced keeps `view_count <= view_limit`. */
  lemma ViewCountNeverExceedsLimit(e: Encryptor, users: set<int>, reqs: seq<Request>)
    requires Inverts(e.cipher)
    requires forall i :: 0 <= i < |reqs| ==> Authenticated(users, reqs[i])
    ensures var s := Run(e, users, map[], reqs);
            forall id :: id in s && s[id].view_limit.Some? ==> s[id].view_count <= s[id].view_limit.value
  {
    RunKeepsValid(e, users, map[], reqs);
    var s := Run(e, users, map[], reqs);
    forall id | id in s && s[id].view_limit.Some?
      ensures s[id].view_count <= s[id].view_limit.value
    {
      assert GoodRow(e, users, s[id]);
    }
  }

  // ------------------------------------------------------------- scenarios

  /** With a limit of 2: the first recipient read succeeds and leaves the row live with
      one view, the second succeeds and soft-deletes it with two views, and the third
      is NotFound. */
  lemma TwoViewScenario(e: Encryptor, users: set<int>, s: Store, id: int, now: int)
    requires Valid(e, users, s)
    requires id in s && !s[id].is_deleted && !IsExpired(s[id], now)
    requires s[id].view_limit == Some(2) && s[id].view_count == 0
    ensures var u := s[id].recipient_id;
            var r1 := Download(e, s, u, id, now);
            var r2 := Download(e, r1.store, u, id, now);
            var r3 := Download(e, r2.store, u, id, now);
            && r1.result.Success? && r1.store[id].view_count == 1 && !r1.store[id].is_deleted
            && r2.result.Success? && r2.store[id].view_count == 2 && r2.store[id].is_deleted
            && r3.result == Failure(NotFound) && r3.store == r2.store
  {
    var u := s[id].recipient_id;
    assert GoodRow(e, users, s[id]);
    var r1 := Download(e, s, u, id, now);
    DownloadKeepsValid(e, users, s, u, id, now);
    assert GoodRow(e, users, r1.store[id]);
  }

  /** A live, never-read document whose expiry has passed fails Expired on its first
      download and is soft-deleted; the next download is NotFound. */
  lemma ExpiredScenario(e: Encryptor, s: Store, user: int, id: int, now: int)
    requires id in s && !s[id].is_deleted && IsExpired(s[id], now)
    requires user == s[id].sender_id || user == s[id].recipient_id
    ensures var r1 := Download(e, s, user, id, now);
            var r2 := Download(e, r1.store, user, id, now);
            && r1.result == Failure(Expired) && r1.store[id].is_deleted
            && r1.store[id].view_count == s[id].view_count
            && r2.result == Failure(NotFound)
  {
  }

  /** The table after `n` downloads of `id` by `user` at instant `now`. */
  function Repeat(e: Encryptor, s: Store, user: int, id: int, now: int, n: nat): (s': Store)
    decreases n
  {
    if n == 0 then s else Repeat(e, Download(e, s, user, id, now).store, user, id, now, n - 1)
  }

  /** However often the sender alone downloads a live, unexpired, decryptable document,
      every read succeeds and the table is unchanged, even with a limit of 1. */
  lemma {:induction false} SenderReadsRepeat(e: Encryptor, users: set<int>, s: Store, id: int, now: int, n: nat)
    requires Valid(e, users, s)
    requires id in s && !s[id].is_deleted && !IsExpired(s[id], now)
    requires s[id].sender_id != s[id].recipient_id
    ensures Repeat(e, s, s[id].sender_id, id, now, n) == s
    ensures Download(e, Repeat(e, s, s[id].sender_id, id, now, n), s[id].sender_id, id, now).result.Success?
    decreases n
  {
    assert GoodRow(e, users, s[id]);
    var r := Download(e, s, s[id].sender_id, id, now);
    assert r.store == s;
    if n > 0 {
      SenderReadsRepeat(e, users, s, id, now, n - 1);
    }
  }

  /** With a limit of 1, one recipient read soft-deletes the row. */
  lemma SingleRecipientReadDeletes(e: Encryptor, users: set<int>, s: Store, id: int, now: int)
    requires Valid(e, users, s)
    requires id in s && !s[id].is_deleted && !IsExpired(s[id], now)
    requires s[id].view_limit == Some(1)
    ensures var r := Download(e, s, s[id].recipient_id, id, now);
            r.result.Success? && r.store[id].is_deleted && r.store[id].view_count == 1
  {
    assert GoodRow(e, users, s[id]);
  }
}
