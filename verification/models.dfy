/** The persisted `Document` row and the document table it lives in. */
module Models {
  import opened Results
  import opened Bytes

  /** Seconds in a day: `timedelta(days = d)` is `d * Day` seconds. */
  const Day: int := 86400

  /** One row of the `documents` table. Times are integer instants (seconds).
      `view_limit` and `expires_at` are the nullable columns; the others are required. */
  datatype Document = Document(
    id: int,
    filename: string,
    encrypted_content: seq<byte>,
    sender_id: int,
    recipient_id: int,
    view_limit: Option<int>,
    view_count: nat,
    expires_at: Option<int>,
    created_at: int,
    is_deleted: bool)

  /** The documents table, keyed by primary key. Rows are soft-deleted, never removed. */
  type Store = map<int, Document>

  /** A freshly inserted row: the column defaults give `view_count = 0`,
      `is_deleted = false` and `created_at` = the insertion time. */
  function NewDocument(id: int, filename: string, content: seq<byte>, sender: int, recipient: int,
                       viewLimit: Option<int>, expiresAt: Option<int>, now: int): (d: Document)
    ensures d.id == id && d.filename == filename && d.encrypted_content == content
    ensures d.sender_id == sender && d.recipient_id == recipient
    ensures d.view_limit == viewLimit && d.expires_at == expiresAt
    ensures d.view_count == 0 && !d.is_deleted && d.created_at == now
  {
    Document(id, filename, content, sender, recipient, viewLimit, 0, expiresAt, now, false)
  }

  /** Every key is the primary key of the row stored under it. */
  ghost predicate KeysAreIds(s: Store) {
    forall id :: id in s ==> s[id].id == id
  }

  /** The largest element of a non-empty set of ids. */
  function MaxId(ks: set<int>): (m: int)
    requires exists k :: k in ks
    ensures m in ks
    ensures forall k :: k in ks ==> k <= m
  {
    MaxIdExists(ks);
    var m :| m in ks && forall k :: k in ks ==> k <= m; m
  }

  lemma {:induction false} MaxIdExists(ks: set<int>)
    requires exists k :: k in ks
    ensures exists m :: m in ks && forall k :: k in ks ==> k <= m
    decreases |ks|
  {
    var k :| k in ks;
    var rest := ks - {k};
    if exists j :: j in rest {
      MaxIdExists(rest);
      var m :| m in rest && forall j :: j in rest ==> j <= m;
      var top := if k > m then k else m;
      forall j | j in ks
        ensures j <= top
      {
        if j != k {
          assert j in rest;
        }
      }
      assert top in ks;
    } else {
      assert forall j :: j in ks ==> j == k || j in rest;
    }
  }

  /** The key SQLite gives the next inserted row: one more than the largest key in the
      table, or 1 in an empty table. */
  function NextId(s: Store): (id: int)
    ensures id !in s
    ensures id >= 1
    ensures forall k :: k in s ==> k < id
  {
    if exists k :: k in s then
      var m := MaxId(s.Keys);
      if m < 1 then 1 else m + 1
    else 1
  }
}
