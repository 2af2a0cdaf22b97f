/** The at-rest document cipher: key derivation from the configured secret and the
    `IV || AES-256-CBC(PKCS#7(data))` envelope. */
module Encryption {
  import opened Results
  import opened Bytes
  import opened Pkcs7
  import opened Cbc

  /** Why a stored blob could not be decrypted. */
  datatype CipherError =
    | InvalidIvSize                     // fewer than 16 bytes: no IV to split off
    | UnalignedCiphertext               // the bytes after the IV are not whole blocks
    | BadPadding(reason: PaddingError)  // the decrypted buffer is not PKCS#7-padded

  /** The process-wide cipher configuration: the block cipher and the derived key. */
  datatype Encryptor = Encryptor(cipher: BlockCipher, key: Key)

  /** A continuation byte `10xxxxxx` carrying the low six bits of `x`. */
  function ContinuationByte(x: nat): (b: byte)
    ensures 0x80 <= b as int < 0xC0
  {
    (0x80 + x % 0x40) as byte
  }

  /** A lead byte: the marker `tag` plus the high bits `x` of the code point. */
  function LeadByte(tag: nat, x: nat): (b: byte)
    requires tag + x < 0x100
    ensures b as int == tag + x
  {
    (tag + x) as byte
  }

  /** The UTF-8 encoding of one Unicode scalar value. */
  function Utf8Char(c: char): (r: seq<byte>)
    ensures 1 <= |r| <= 4
    ensures |r| == 1 <==> c as int < 0x80
    ensures |r| == 2 <==> 0x80 <= c as int < 0x800
    ensures |r| == 3 <==> 0x800 <= c as int < 0x10000
    ensures |r| == 4 <==> 0x10000 <= c as int
    ensures |r| == 1 ==> r[0] as int == c as int
    ensures |r| == 2 ==> 0xC0 <= r[0] as int < 0xE0
    ensures |r| == 3 ==> 0xE0 <= r[0] as int < 0xF0
    ensures |r| == 4 ==> 0xF0 <= r[0] as int < 0xF8
    ensures forall i :: 1 <= i < |r| ==> 0x80 <= r[i] as int < 0xC0
  {
    var cp: nat := c as int;
    if cp < 0x80 then [LeadByte(0, cp)]
    else if cp < 0x800 then
      [LeadByte(0xC0, cp / 0x40), ContinuationByte(cp)]
    else if cp < 0x10000 then
      [LeadByte(0xE0, cp / 0x1000), ContinuationByte(cp / 0x40), ContinuationByte(cp)]
    else
      [LeadByte(0xF0, cp / 0x40000), ContinuationByte(cp / 0x1000), ContinuationByte(cp / 0x40), ContinuationByte(cp)]
  }

  /** The code point a well-formed UTF-8 sequence of one to four bytes stands for: the
      payload bits of the lead byte followed by six bits from each continuation byte. */
  function CodePointOf(r: seq<byte>): (cp: int)
    requires 1 <= |r| <= 4
  {
    if |r| == 1 then r[0] as int
    else if |r| == 2 then (r[0] as int - 0xC0) * 0x40 + (r[1] as int - 0x80)
    else if |r| == 3 then
      ((r[0] as int - 0xE0) * 0x40 + (r[1] as int - 0x80)) * 0x40 + (r[2] as int - 0x80)
    else
      (((r[0] as int - 0xF0) * 0x40 + (r[1] as int - 0x80)) * 0x40 + (r[2] as int - 0x80)) * 0x40
        + (r[3] as int - 0x80)
  }

  /** Decoding the bytes of one character gives back its code point. */
  lemma Utf8CharDecodes(c: char)
    ensures CodePointOf(Utf8Char(c)) == c as int
  {
    var cp: nat := c as int;
    if 0x800 <= cp < 0x10000 {
      assert (cp / 0x1000) * 0x40 + (cp / 0x40) % 0x40 == cp / 0x40;
    } else if 0x10000 <= cp {
      assert (cp / 0x40000) * 0x40 + (cp / 0x1000) % 0x40 == cp / 0x1000;
      assert (cp / 0x1000) * 0x40 + (cp / 0x40) % 0x40 == cp / 0x40;
    }
  }

  /** The UTF-8 encoding of a string (`str.encode('utf-8')`). */
  function Utf8Encode(s: string): (r: seq<byte>)
    ensures |s| <= |r| <= 4 * |s|
    decreases |s|
  {
    if |s| == 0 then [] else Utf8Char(s[0]) + Utf8Encode(s[1..])
  }

  /** A string of ASCII characters encodes to one byte per character, of the same value. */
  lemma {:induction false} Utf8EncodeAscii(s: string)
    requires forall i :: 0 <= i < |s| ==> s[i] as int < 0x80
    ensures |Utf8Encode(s)| == |s|
    ensures forall i :: 0 <= i < |s| ==> Utf8Encode(s)[i] as int == s[i] as int
    decreases |s|
  {
    if |s| > 0 {
      Utf8EncodeAscii(s[1..]);
    }
  }

  /** Brings the encoded secret to exactly 32 bytes: shorter ones are right-padded with
      zero bytes, longer ones are cut to their first 32 bytes. */
  function EnsureKeyLength(kb: seq<byte>): (r: Key)
    ensures |kb| <= KeySize ==> r[..|kb|] == kb
    ensures forall i :: |kb| <= i < KeySize ==> r[i] == 0
    ensures |kb| >= KeySize ==> r == kb[..KeySize]
  {
    if |kb| < KeySize then kb + seq(KeySize - |kb|, _ => 0)
    else if |kb| > KeySize then kb[..KeySize]
    else kb
  }

  /** `DocumentEncryption(secret)`: the configured block cipher with the key derived from
      the UTF-8 bytes of the secret. */
  function NewEncryptor(cipher: BlockCipher, secret: string): (r: Encryptor)
    ensures r.cipher == cipher
    ensures var kb := Utf8Encode(secret);
            && (|kb| <= KeySize ==> r.key[..|kb|] == kb)
            && (forall i :: |kb| <= i < KeySize ==> r.key[i] == 0)
            && (|kb| >= KeySize ==> r.key == kb[..KeySize])
  {
    Encryptor(cipher, EnsureKeyLength(Utf8Encode(secret)))
  }

  /** A key of exactly 32 bytes is used as it is. */
  lemma EnsureKeyLengthExact(kb: seq<byte>)
    requires |kb| == KeySize
    ensures EnsureKeyLength(kb) == kb
  {
  }

  /** The weakness of zero padding: a short secret and the same secret followed by zero
      bytes derive the same key. */
  lemma ZeroPaddedSecretsCollide(kb: seq<byte>, zeros: nat)
    requires |kb| + zeros <= KeySize
    ensures EnsureKeyLength(kb + seq(zeros, _ => 0)) == EnsureKeyLength(kb)
  {
    var a := EnsureKeyLength(kb + seq(zeros, _ => 0));
    var b := EnsureKeyLength(kb);
    assert forall i :: 0 <= i < KeySize ==> a[i] == b[i] by {
      forall i | 0 <= i < KeySize
        ensures a[i] == b[i]
      {
        if i < |kb| {
          assert a[..|kb| + zeros][i] == a[i];
          assert b[..|kb|][i] == b[i];
        } else if i < |kb| + zeros {
          assert a[..|kb| + zeros][i] == a[i];
        }
      }
    }
  }

  /** Truncation: secrets that agree on their first 32 bytes derive the same key. */
  lemma SharedPrefixCollides(kb: seq<byte>, kb': seq<byte>)
    requires |kb| >= KeySize && |kb'| >= KeySize
    requires kb[..KeySize] == kb'[..KeySize]
    ensures EnsureKeyLength(kb) == EnsureKeyLength(kb')
  {
  }

  /** `encrypt`: pads the data, CBC-encrypts it under a fresh IV and prefixes the IV. */
  function Encrypt(e: Encryptor, iv: Block, data: seq<byte>): (r: seq<byte>)
    ensures |r| % BlockSize == 0
    ensures |r| >= 2 * BlockSize
    ensures |data| + BlockSize < |r| <= |data| + 2 * BlockSize
    ensures r[..BlockSize] == iv
  {
    iv + CbcEncrypt(e.cipher, e.key, iv, Pad(data))
  }

  /** `decrypt`: splits off the first 16 bytes as the IV, CBC-decrypts the rest and
      removes the padding. Each refusal of the cryptography library is a `Failure`. */
  function Decrypt(e: Encryptor, blob: seq<byte>): (r: Result<seq<byte>, CipherError>)
    ensures |blob| < BlockSize ==> r == Failure(InvalidIvSize)
    ensures |blob| >= BlockSize && (|blob| - BlockSize) % BlockSize != 0 ==> r == Failure(UnalignedCiphertext)
    ensures r.Success? ==>
              |blob| >= 2 * BlockSize &&
              Pad(r.value) == CbcDecrypt(e.cipher, e.key, blob[..BlockSize], blob[BlockSize..])
  {
    if |blob| < BlockSize then Failure(InvalidIvSize)
    else
      var iv: Block := blob[..BlockSize];
      var ct := blob[BlockSize..];
      if |ct| % BlockSize != 0 then Failure(UnalignedCiphertext)
      else
        match Unpad(CbcDecrypt(e.cipher, e.key, iv, ct))
        case Success(d) => Success(d)
        case Failure(why) => Failure(BadPadding(why))
  }

  /** `encrypt_file` is `encrypt`. */
  function EncryptFile(e: Encryptor, iv: Block, content: seq<byte>): (r: seq<byte>)
    ensures r == Encrypt(e, iv, content)
  {
    Encrypt(e, iv, content)
  }

  /** `decrypt_file` is `decrypt`. */
  function DecryptFile(e: Encryptor, blob: seq<byte>): (r: Result<seq<byte>, CipherError>)
    ensures r == Decrypt(e, blob)
  {
    Decrypt(e, blob)
  }

  /** Decryption recovers the plaintext of every encryption, whatever the IV. */
  lemma DecryptEncrypt(e: Encryptor, iv: Block, data: seq<byte>)
    requires Inverts(e.cipher)
    ensures Decrypt(e, Encrypt(e, iv, data)) == Success(data)
  {
    var blob := Encrypt(e, iv, data);
    var body := CbcEncrypt(e.cipher, e.key, iv, Pad(data));
    assert blob[..BlockSize] == iv;
    assert blob[BlockSize..] == body;
    CbcDecryptEncrypt(e.cipher, e.key, iv, Pad(data));
    UnpadPad(data);
  }

  /** Conversely, for a bijective block cipher every blob that decrypts is exactly the
      encryption of its plaintext under the IV it carries. */
  lemma EncryptDecrypt(e: Encryptor, blob: seq<byte>)
    requires Bijective(e.cipher)
    requires Decrypt(e, blob).Success?
    ensures |blob| >= BlockSize
    ensures Encrypt(e, blob[..BlockSize], Decrypt(e, blob).value) == blob
  {
    var iv: Block := blob[..BlockSize];
    var ct := blob[BlockSize..];
    CbcEncryptDecrypt(e.cipher, e.key, iv, ct);
    assert blob == iv + ct;
  }

  /** Two encryptions of the same data under different IVs differ, and both decrypt to it. */
  lemma FreshIvsGiveDistinctBlobs(e: Encryptor, iv1: Block, iv2: Block, data: seq<byte>)
    requires Inverts(e.cipher)
    requires iv1 != iv2
    ensures Encrypt(e, iv1, data) != Encrypt(e, iv2, data)
    ensures Decrypt(e, Encrypt(e, iv1, data)) == Decrypt(e, Encrypt(e, iv2, data)) == Success(data)
  {
    DecryptEncrypt(e, iv1, data);
    DecryptEncrypt(e, iv2, data);
  }

  /** A blob whose decrypted final byte is 0 or above 16 is refused. */
  lemma DecryptRejectsBadPadByte(e: Encryptor, blob: seq<byte>)
    requires |blob| >= 2 * BlockSize && (|blob| - BlockSize) % BlockSize == 0
    requires var p := CbcDecrypt(e.cipher, e.key, blob[..BlockSize], blob[BlockSize..]);
             p[|p| - 1] == 0 || p[|p| - 1] as int > BlockSize
    ensures Decrypt(e, blob).Failure?
  {
  }
}
