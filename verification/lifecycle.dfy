/** The document lifecycle engine: the upload, listing and download endpoints as pure
    transitions from a document table to a new table and a reply. Time is an integer
    instant `now` in seconds; the caller is an already authenticated user id. */
module Lifecycle {
  import opened Results
  import opened Bytes
  import opened Cbc
  import opened Encryption
  import opened Models

  /** The failure kinds the endpoints raise. */
  datatype Error =
    | RecipientNotFound  // upload: no user with the given recipient id
    | NotFound           // download: no row with that id, or it is soft-deleted
    | Forbidden          // download: the caller is neither sender nor recipient
    | Expired            // download: the expiry instant has passed
    | LimitReached       // download: the view count has reached the limit
    | DecryptError       // download: the stored blob did not decrypt

  /** The table after the call (what `db.commit()` leaves) and the reply. */
  datatype Reply<T> = Reply(store: Store, result: T)

  // ---------------------------------------------------------------- upload

  /** A view limit is kept only when it is a positive number. */
  function NormaliseViewLimit(viewLimit: Option<int>): (r: Option<int>)
    ensures r.Some? <==> viewLimit.Some? && viewLimit.value > 0
    ensures r.Some? ==> r == viewLimit
  {
    if viewLimit.Some? && viewLimit.value > 0 then viewLimit else None
  }

  /** The expiry instant: `expires_in_days` days after `now` when that is a positive
      number of days, otherwise no expiry. */
  function ExpiryFor(now: int, expiresInDays: Option<int>): (r: Option<int>)
    ensures r.Some? <==> expiresInDays.Some? && expiresInDays.value > 0
    ensures r.Some? ==> r.value > now && (r.value - now) % Day == 0
    ensures r.Some? ==> r.value == now + expiresInDays.value * Day
  {
    if expiresInDays.Some? && expiresInDays.value > 0 then Some(now + expiresInDays.value * Day)
    else None
  }

  /** `upload_document`: checks that the recipient exists, encrypts the content under
      the given IV and inserts a new row whose id is the next free key. */
  function Upload(e: Encryptor, users: set<int>, s: Store, sender: int, recipient: int,
                  filename: string, content: seq<byte>, viewLimit: Option<int>,
                  expiresInDays: Option<int>, iv: Block, now: int): (r: Reply<Result<int, Error>>)
    ensures recipient in users <==> r.result.Success?
    ensures recipient !in users <==> r.result == Failure(RecipientNotFound)
    ensures recipient !in users ==> r.store == s
    ensures r.result.Success? ==>
              var id := r.result.value;
              && id !in s && id >= 1
              && r.store.Keys == s.Keys + {id}
              && (forall other :: other in s ==> r.store[other] == s[other])
              && r.store[id].id == id
              && r.store[id].filename == filename
              && r.store[id].sender_id == sender
              && r.store[id].recipient_id == recipient
              && r.store[id].view_count == 0
              && !r.store[id].is_deleted
              && r.store[id].created_at == now
              && r.store[id].encrypted_content == EncryptFile(e, iv, content)
              && (r.store[id].view_limit.Some? <==> viewLimit.Some? && viewLimit.value > 0)
              && (r.store[id].view_limit.Some? ==> r.store[id].view_limit == viewLimit)
              && (r.store[id].expires_at.Some? <==> expiresInDays.Some? && expiresInDays.value > 0)
              && (r.store[id].expires_at.Some? ==> r.store[id].expires_at.value == now + expiresInDays.value * Day)
  {
    if recipient !in users then Reply(s, Failure(RecipientNotFound))
    else
      var blob := EncryptFile(e, iv, content);
      var id := NextId(s);
      var d := NewDocument(id, filename, blob, sender, recipient,
                           NormaliseViewLimit(viewLimit), ExpiryFor(now, expiresInDays), now);
      Reply(s[id := d], Success(id))
  }

  // ------------------------------------------------------------ lazy sweep

  /** The expiry check: an expiry is set and has been reached. */
  predicate IsExpired(d: Document, now: int) {
    d.expires_at.Some? && d.expires_at.value <= now
  }

  /** The sweep's SQL filter: `view_limit IS NOT NULL AND view_count >= view_limit`. */
  predicate LimitReachedInQuery(d: Document) {
    d.view_limit.Some? && d.view_count >= d.view_limit.value
  }

  /** The download path's and the listing's Python test `view_limit and view_count >=
      view_limit`, in which a limit of 0 is falsy and so means no limit. */
  predicate LimitReachedInCode(d: Document) {
    d.view_limit.Some? && d.view_limit.value != 0 && d.view_count >= d.view_limit.value
  }

  /** Ids of the live rows the first sweep query selects. */
  function ExpiredIds(s: Store, now: int): (ids: set<int>)
  {
    set id | id in s && !s[id].is_deleted && IsExpired(s[id], now)
  }

  /** Ids of the live rows the second sweep query selects. */
  function LimitReachedIds(s: Store): (ids: set<int>)
  {
    set id | id in s && !s[id].is_deleted && LimitReachedInQuery(s[id])
  }

  /** Sets `is_deleted` on the rows with the given ids. */
  function MarkDeleted(s: Store, ids: set<int>): (r: Store)
    ensures r.Keys == s.Keys
    ensures forall id :: id in s ==> r[id] == if id in ids then s[id].(is_deleted := true) else s[id]
  {
    map id | id in s :: if id in ids then s[id].(is_deleted := true) else s[id]
  }

  /** The lazy sweep at the head of `list_documents`. The session does not autoflush, so
      both queries read the committed table: the limit query is evaluated on `s`, not
      on the table the first loop has already changed. */
  function Sweep(s: Store, now: int): (r: Store)
    ensures r.Keys == s.Keys
    ensures forall id :: id in s ==>
              r[id] == s[id].(is_deleted := s[id].is_deleted || IsExpired(s[id], now) || LimitReachedInQuery(s[id]))
  {
    MarkDeleted(MarkDeleted(s, ExpiredIds(s, now)), LimitReachedIds(s))
  }

  // --------------------------------------------------------------- listing

  /** One entry of the listing (`format_doc`), without the user names. */
  datatype DocumentView = DocumentView(
    id: int,
    filename: string,
    sender_id: int,
    recipient_id: int,
    view_limit: Option<int>,
    view_count: nat,
    expires_at: Option<int>,
    created_at: int,
    is_expired: bool,
    is_limit_reached: bool)

  /** `format_doc`: the row's public columns plus the two derived flags. */
  function FormatDoc(d: Document, now: int): (v: DocumentView)
    ensures v.id == d.id && v.filename == d.filename
    ensures v.sender_id == d.sender_id && v.recipient_id == d.recipient_id
    ensures v.view_limit == d.view_limit && v.view_count == d.view_count
    ensures v.expires_at == d.expires_at && v.created_at == d.created_at
    ensures v.is_expired <==> d.expires_at.Some? && d.expires_at.value <= now
    ensures v.is_limit_reached <==> d.view_limit.Some? && d.view_limit.value != 0 && d.view_count >= d.view_limit.value
  {
    DocumentView(d.id, d.filename, d.sender_id, d.recipient_id, d.view_limit, d.view_count,
                 d.expires_at, d.created_at, IsExpired(d, now), LimitReachedInCode(d))
  }

  /** The two halves of the listing. Row order is not part of the model. */
  datatype Listing = Listing(sent: set<DocumentView>, received: set<DocumentView>)

  /** `list_documents`: sweeps, then lists the live rows the caller sent and received. */
  function ListDocuments(s: Store, user: int, now: int): (r: Reply<Listing>)
    ensures r.store == Sweep(s, now)
    ensures forall v :: v in r.result.sent <==>
              exists id :: id in r.store && !r.store[id].is_deleted && r.store[id].sender_id == user
                           && v == FormatDoc(r.store[id], now)
    ensures forall v :: v in r.result.received <==>
              exists id :: id in r.store && !r.store[id].is_deleted && r.store[id].recipient_id == user
                           && v == FormatDoc(r.store[id], now)
    ensures forall v :: v in r.result.sent || v in r.result.received ==> !v.is_expired && !v.is_limit_reached
  {
    var s' := Sweep(s, now);
    var sent := set id | id in s' && s'[id].sender_id == user && !s'[id].is_deleted :: FormatDoc(s'[id], now);
    var received := set id | id in s' && s'[id].recipient_id == user && !s'[id].is_deleted :: FormatDoc(s'[id], now);
    Reply(s', Listing(sent, received))
  }

  // -------------------------------------------------------------- download

  /** The row after a read that passed every gate: a read by the recipient adds one view
      and soft-deletes the row once the limit is reached; a read by the sender alone
      changes nothing. */
  function AfterRead(d: Document, user: int): (d': Document)
    ensures user == d.recipient_id ==> d'.view_count == d.view_count + 1
    ensures user == d.recipient_id ==> (d'.is_deleted <==> d.is_deleted || LimitReachedInCode(d'))
    ensures user != d.recipient_id ==> d' == d
    ensures d'.(view_count := d.view_count, is_deleted := d.is_deleted) == d
  {
    if user == d.recipient_id then
      var counted := d.(view_count := d.view_count + 1);
      if LimitReachedInCode(counted) then counted.(is_deleted := true) else counted
    else d
  }

  /** `download_document`: NotFound, then Forbidden, then Expired, then LimitReached;
      then the view is counted and committed, and only then is the blob decrypted. */
  function Download(e: Encryptor, s: Store, user: int, id: int, now: int): (r: Reply<Result<seq<byte>, Error>>)
    ensures r.store.Keys == s.Keys
    ensures forall other :: other in s && other != id ==> r.store[other] == s[other]
    ensures r.result == Failure(NotFound) <==> id !in s || s[id].is_deleted
    ensures r.result == Failure(Forbidden) <==>
              id in s && !s[id].is_deleted && user != s[id].sender_id && user != s[id].recipient_id
    ensures r.result == Failure(Expired) <==>
              id in s && !s[id].is_deleted && (user == s[id].sender_id || user == s[id].recipient_id)
              && IsExpired(s[id], now)
    ensures r.result == Failure(LimitReached) <==>
              id in s && !s[id].is_deleted && (user == s[id].sender_id || user == s[id].recipient_id)
              && !IsExpired(s[id], now) && LimitReachedInCode(s[id])
    ensures id in s && !s[id].is_deleted && (user == s[id].sender_id || user == s[id].recipient_id)
              && !IsExpired(s[id], now) && !LimitReachedInCode(s[id]) ==>
              r.result.Success? || r.result == Failure(DecryptError)
    ensures r.result != Failure(RecipientNotFound)
    ensures r.result == Failure(NotFound) || r.result == Failure(Forbidden) ==> r.store == s
    ensures r.result == Failure(Expired) || r.result == Failure(LimitReached) ==>
              r.store[id] == s[id].(is_deleted := true)
    ensures r.result.Success? || r.result == Failure(DecryptError) ==>
              id in s && r.store[id] == AfterRead(s[id], user)
    ensures r.result.Success? || r.result == Failure(DecryptError) ==>
              (r.result.Success? <==> DecryptFile(e, s[id].encrypted_content).Success?)
    ensures r.result.Success? ==> DecryptFile(e, s[id].encrypted_content) == Success(r.result.value)
  {
    if id !in s || s[id].is_deleted then Reply(s, Failure(NotFound))
    else
      var d := s[id];
      if d.sender_id != user && d.recipient_id != user then Reply(s, Failure(Forbidden))
      else if IsExpired(d, now) then Reply(s[id := d.(is_deleted := true)], Failure(Expired))
      else if LimitReachedInCode(d) then Reply(s[id := d.(is_deleted := true)], Failure(LimitReached))
      else
        var s' := s[id := AfterRead(d, user)];
        match DecryptFile(e, d.encrypted_content)
        case Success(content) => Reply(s', Success(content))
        case Failure(_) => Reply(s', Failure(DecryptError))
  }
}
