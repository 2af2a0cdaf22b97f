# Briefcase document lifecycle and cipher envelope, in Dafny

This project models the core of *Briefcase*, a secure document delivery service. A
sender uploads a file for one recipient. The file is stored encrypted. It can carry a
view limit and an expiry. Only its sender and its recipient may download it, and only
the recipient's downloads count against the limit. A document whose limit is used up
or whose expiry has passed is soft-deleted (`is_deleted`) and can never be read again.

The model has two parts.

- **Lifecycle engine** (`main.py`, `models.py`). The `documents` table is a
  `map<int, Document>` keyed by primary key. Each endpoint is a pure function from a
  table to a `Reply(store, result)`: `store` is the table `db.commit()` leaves behind,
  and `result` is the reply or one of the error kinds `RecipientNotFound`, `NotFound`,
  `Forbidden`, `Expired`, `LimitReached` and `DecryptError`. The endpoints are
  `upload_document` (`Upload`), the lazy sweep and listing of `list_documents`
  (`Sweep`, `ListDocuments`, `FormatDoc`) and `download_document` (`Download`). Time
  is an integer instant `now` in seconds, and a day is 86400 seconds.
- **Cipher envelope** (`encryption.py`). The key is the UTF-8 encoding of the
  configured secret, zero-padded or cut to 32 bytes. A blob is `IV || CBC(PKCS#7(data))`.
  The padding follows RFC 5652 section 6.3 and the chaining follows NIST SP 800-38A
  section 6.2. AES (FIPS 197) is not modelled. A `BlockCipher` is any pair of keyed
  16-byte block functions. The round-trip lemmas assume the inverse law
  (`Inverts`), or both laws (`Bijective`), as a hypothesis. The IV that `os.urandom(16)`
  draws is an explicit argument.

Modules: `Results` (Option/Result), `Bytes` (bytes and bitwise XOR), `Pkcs7`, `Cbc`,
`Encryption`, `Models`, `Lifecycle` and `LifecycleProofs`. The last one holds the
multi-call properties: the table invariant (`Valid`), the evolution relation (`Evolves`:
rows are never removed, a row's fixed columns never change, view counts never decrease,
and a deleted row never changes again), the sweep laws, traces of requests (`Run`) and
the read scenarios.

Behaviour of the code that the model follows on purpose:

- **Decrypt failures still use up a view.** `download_document` commits the view
  increment (main.py:311) before it decrypts (main.py:315). So a `DecryptError` reply
  still leaves the counted row. `DownloadNeverDecryptError` shows the error cannot happen on a
  table built by `Upload` under the configured key.
- **A stored limit of 0 is tested two ways.** The sweep's SQL filter treats it as a
  limit (`LimitReachedInQuery`). The Python test `view_limit and view_count >= view_limit`
  in the download path and in `format_doc` treats it as no limit (`LimitReachedInCode`).
  `Upload` never stores a limit below 1, so the two agree on every reachable row
  (`LimitTestsAgree`).
- **Both sweep queries read the committed table.** The session does not autoflush
  (database.py:11), so the limit query does not see the first loop's changes. `Sweep` is
  written as the code's two passes. Its contract is the one-pass rule.
- **The download's LimitReached branch is dead on reachable tables.** A recipient read
  that reaches the limit already soft-deletes the row, so a live row with a limit is
  always strictly under it (`DownloadNeverLimitReached`).
- **The library's own checks count as failures.** A blob shorter than 16 bytes fails
  (the IV-size check). So does a ciphertext that is not whole blocks, and so does bad
  padding.
- **New ids are one more than the largest existing id.** The table is SQLite, which
  gives a new row that id (`NextId`) whenever the keys are positive, as they are in
  every table the endpoints build. Rows are never removed, so ids are never reused.

## Model

| member | source | states |
|---|---|---|
| `Models.NewDocument` | models.py:22-34 | a new row carries the given columns, `view_count = 0`, `is_deleted = false` and `created_at = now` |
| `Models.NextId` | models.py:25 | the id given to an inserted row is at least 1, is not a key of the table, and exceeds every existing key |
| `Lifecycle.NormaliseViewLimit` | main.py:185 | the stored limit is present exactly when the submitted one is a positive number, and is then that number |
| `Lifecycle.ExpiryFor` | main.py:174-177 | an expiry is set exactly when `expires_in_days` is positive, and is then that many whole days after `now` |
| `Lifecycle.Upload` | main.py:151-197 | an unknown recipient gives `RecipientNotFound` and leaves the table unchanged; a known recipient always succeeds, and exactly one new row is added under a fresh id, no other row changes, and the row holds the encrypted content, both parties, zero views, not deleted, and the normalised limit and expiry |
| `Lifecycle.Sweep` | main.py:209-229 | no row is added or removed; each row keeps every column, except that `is_deleted` becomes true when the row is live and either expired or at its limit |
| `Lifecycle.FormatDoc` | main.py:243-260 | a listing entry copies the row's public columns; `is_expired` holds iff an expiry is set and reached, and `is_limit_reached` holds iff a non-zero limit is set and reached |
| `Lifecycle.ListDocuments` | main.py:200-265 | the table becomes the swept table; `sent` and `received` hold exactly the entries of the live rows whose sender or recipient is the caller; no listed entry is expired or at its limit |
| `Lifecycle.AfterRead` | main.py:303-311 | a recipient read adds exactly one view and deletes the row iff the new count reaches a non-zero limit; a read by anyone else leaves the row unchanged |
| `Lifecycle.Download` | main.py:268-326 | only the target row can change; NotFound iff the row is missing or deleted; Forbidden iff it is live and the caller is neither party; Expired iff a party reads it past its expiry; LimitReached iff a party reads it unexpired at its limit; NotFound and Forbidden change nothing; Expired and LimitReached only set `is_deleted`; a read that passes the gate always ends in success or `DecryptError`, never an upload error, leaves the counted row, and succeeds iff the blob decrypts, with the decrypted content |
| `LifecycleProofs.LimitTestsAgree` | main.py:220-224 | on a row whose limit is at least 1, the sweep's SQL limit test and the download's Python test agree |
| `LifecycleProofs.UploadKeepsValid` | main.py:163-191 | an upload by a registered sender keeps the table invariant (ids match keys, both parties are users, a limit is at least 1 and not exceeded, a live limited row is under its limit, every blob decrypts) and only adds rows, for any block cipher that satisfies the inverse law (`Inverts`) |
| `LifecycleProofs.SweepKeepsValid` | main.py:209-229 | the sweep keeps the table invariant and is an allowed evolution |
| `LifecycleProofs.ListKeepsValid` | main.py:200-229 | listing keeps the table invariant and is an allowed evolution |
| `LifecycleProofs.DownloadRowCases` | main.py:279-311 | a download leaves the target row unchanged, marks a live row deleted, or applies a counted read to a live row that is under its limit |
| `LifecycleProofs.DownloadRowKeepsGood` | main.py:291-311 | each of those row changes keeps a good row good and only raises the count or sets `is_deleted` |
| `LifecycleProofs.DownloadKeepsValid` | main.py:279-311 | a download keeps the table invariant and is an allowed evolution |
| `LifecycleProofs.EvolvesTransitive` | main.py:279-311 | two allowed evolutions in a row are an allowed evolution |
| `LifecycleProofs.DownloadNeverLimitReached` | main.py:297-301 | on a valid table a download never fails with LimitReached |
| `LifecycleProofs.DownloadNeverDecryptError` | main.py:313-317 | on a valid table a download that passes the gate always decrypts |
| `LifecycleProofs.RecipientReadCounts` | main.py:303-311 | a successful recipient read adds exactly one view, and the row is deleted iff the new count reaches the limit |
| `LifecycleProofs.SenderReadIsFree` | main.py:303-304 | a download by a sender who is not also the recipient leaves the whole table unchanged, unless it detects an expiry or a reached limit |
| `LifecycleProofs.SweepLeavesNothingDue` | main.py:209-229 | after the sweep no live row is expired or at its limit |
| `LifecycleProofs.SweepIdempotent` | main.py:209-229 | sweeping twice at one instant equals sweeping once |
| `LifecycleProofs.SweepsCommute` | main.py:209-229 | sweeps at two instants give the same table in either order |
| `LifecycleProofs.LaterSweepSubsumes` | main.py:209-229 | a sweep at an earlier instant followed by one at a later instant equals the later sweep alone |
| `LifecycleProofs.ListingById` | main.py:231-241 | on a valid table every live row of the caller appears in the listing under its own id, and every entry is the formatted live row with that id |
| `LifecycleProofs.StepKeepsValid` | main.py:151-326 | any single authenticated request keeps the table invariant and is an allowed evolution, for a block cipher that satisfies the inverse law (`Inverts`) |
| `LifecycleProofs.RunKeepsValid` | main.py:151-326 | any sequence of authenticated requests keeps the invariant; rows are never removed, deletion is never undone, a deleted row never changes, and view counts never decrease, for a block cipher that satisfies the inverse law (`Inverts`) |
| `LifecycleProofs.ViewCountNeverExceedsLimit` | main.py:185 | from an empty table, after any sequence of requests, no row's view count exceeds its limit, for a block cipher that satisfies the inverse law (`Inverts`); the law is needed only because the invariant also carries decryptability |
| `LifecycleProofs.TwoViewScenario` | main.py:303-311 | with a limit of 2, the first recipient read succeeds with one view and the row stays live, the second succeeds with two views and deletes the row, and the third is NotFound |
| `LifecycleProofs.ExpiredScenario` | main.py:291-295 | a party's first download of an expired live row fails with Expired, deletes the row and leaves its count; the next download is NotFound |
| `LifecycleProofs.SenderReadsRepeat` | main.py:303-304 | any number of downloads by the sender alone leave the table unchanged, and the next one still succeeds |
| `LifecycleProofs.SingleRecipientReadDeletes` | main.py:303-311 | with a limit of 1, one recipient read succeeds and deletes the row |
| `Encryption.EnsureKeyLength` | encryption.py:15-24 | the key is 32 bytes; a shorter input is its prefix followed by zero bytes; a longer input is cut to its first 32 bytes |
| `Encryption.EnsureKeyLengthExact` | encryption.py:18-24 | an input of exactly 32 bytes is kept as it is |
| `Encryption.ZeroPaddedSecretsCollide` | encryption.py:18-20 | a short secret and the same secret followed by zero bytes derive the same key |
| `Encryption.SharedPrefixCollides` | encryption.py:21-23 | two long secrets with the same first 32 bytes derive the same key |
| `Encryption.Utf8Char` | encryption.py:17 | one character encodes to 1, 2, 3 or 4 bytes exactly when its code point is below 0x80, 0x800, 0x10000 or above; an ASCII character becomes its own value, a longer encoding starts with the lead marker for its length (110, 1110, 11110) and every later byte is a continuation byte (10) |
| `Encryption.Utf8CharDecodes` | encryption.py:17 | reading the payload bits back out of a character's bytes gives its code point, so the encoding loses nothing |
| `Encryption.Utf8Encode` | encryption.py:17 | the encoding of a string has between 1 and 4 bytes per character |
| `Encryption.Utf8EncodeAscii` | encryption.py:17 | an ASCII string encodes to one byte per character, each equal to the character's code |
| `Encryption.NewEncryptor` | encryption.py:11-13 | the configured key is the UTF-8 secret, zero-padded or cut to 32 bytes |
| `Pkcs7.Pad` | encryption.py:43-44 | the padded length is a positive multiple of 16 and 1 to 16 bytes longer; the data is a prefix, and every added byte equals the number of bytes added |
| `Pkcs7.Unpad` | encryption.py:73-74 | a successful unpad returns data whose padding is exactly the input, at most 16 bytes shorter |
| `Pkcs7.UnpadPad` | encryption.py:43-74 | unpadding padded data returns the data |
| `Pkcs7.UnpadAcceptsExactlyPadded` | encryption.py:73-74 | unpadding succeeds iff the buffer is the padding of some data, and then returns that data |
| `Pkcs7.UnpadRejectsMalformed` | encryption.py:73-74 | a final byte of 0, a final byte above 16, or a final run that disagrees with the final byte is refused |
| `Cbc.CbcEncrypt` | encryption.py:35-47 | CBC encryption keeps the length |
| `Cbc.CbcDecrypt` | encryption.py:62-70 | CBC decryption keeps the length |
| `Cbc.CbcEncryptBlocks` | encryption.py:35-47 | the recursive CBC encryption meets the block-indexed definition: block 0 is the cipher of plaintext block 0 XOR the IV, and block j is the cipher of plaintext block j XOR ciphertext block j-1 |
| `Cbc.CbcDecryptEncrypt` | encryption.py:35-70 | with an inverting block cipher, CBC decryption undoes CBC encryption under the same key and IV |
| `Cbc.CbcEncryptDecrypt` | encryption.py:35-70 | with a bijective block cipher, CBC encryption undoes CBC decryption |
| `Encryption.Encrypt` | encryption.py:26-50 | the blob starts with the 16 IV bytes and has length 16 + 16k with k >= 1, 17 to 32 bytes longer than the data |
| `Encryption.Decrypt` | encryption.py:52-76 | a blob under 16 bytes fails with the IV-size error; a ciphertext that is not whole blocks fails; on success the blob has at least two blocks and the result's padding is the CBC decryption of the ciphertext under the leading IV |
| `Encryption.EncryptFile` | encryption.py:78-80 | `encrypt_file` is `encrypt` |
| `Encryption.DecryptFile` | encryption.py:82-84 | `decrypt_file` is `decrypt` |
| `Encryption.DecryptEncrypt` | encryption.py:26-76 | with an inverting block cipher, decrypting an encryption returns the data, whatever the IV |
| `Encryption.EncryptDecrypt` | encryption.py:52-76 | with a bijective block cipher, every blob that decrypts is the encryption of its plaintext under its leading 16 bytes |
| `Encryption.FreshIvsGiveDistinctBlobs` | encryption.py:31-50 | encryptions of the same data under different IVs differ, and both decrypt to the data |
| `Encryption.DecryptRejectsBadPadByte` | encryption.py:72-74 | a blob whose decrypted final byte is 0 or above 16 fails to decrypt |

## Left out

- HTTP routing, cookies, the JWT/bcrypt authentication dependency, `StreamingResponse`,
  templates and the status codes: the caller is an already authenticated user id, and
  each failure is an error kind.
- User names in the listing (`sender_username`, `recipient_username`): users are only a
  set of ids, used to check that the recipient exists.
- The order of the listed rows: the queries have no `ORDER BY`, so `sent` and `received`
  are sets.
- The real clock: `datetime.utcnow()` is the `now` argument, and `timedelta(days = d)` is
  `d * 86400` seconds. Time is unbounded, so the `OverflowError` that Python raises when
  an expiry is past year 9999 is not modelled. Nor is SQLite's 64-bit integer range.
- Concurrency: downloads racing on one row. The code takes no lock, so only sequential
  serving is modelled (`Run` serves one request at a time).
- AES internals, `os.urandom` and the `cryptography` backend: the block cipher is an
  abstract pair of functions whose laws are lemma hypotheses, and the IV is an argument.
- Database plumbing (`database.py` sessions), `config.py` settings loading, the
  dashboard script and the install, seed and verification scripts.
- `NextId` on a table whose largest key is below 1: SQLite would then give that key plus
  one (0 after -1), while the model gives 1. No table built by `Upload` has such keys.
- `FormatDoc`'s flags are `bool`. In the code, `is_expired` is `None` when there is no
  expiry and `is_limit_reached` is `None` when there is no limit or `0` when the limit
  is 0, and these reach the JSON as `null` or `0`. The dashboard only tests their
  truthiness, so the model keeps just the truth value.
- `Utf8Encode`: a secret holding a lone surrogate makes `encode('utf-8')` raise
  `UnicodeEncodeError`, so the encryptor fails to start. Dafny strings cannot hold a lone
  surrogate, so this start-up failure is not modelled.
