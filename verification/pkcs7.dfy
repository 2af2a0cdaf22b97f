/** PKCS#7 padding to a 16-byte block (RFC 5652 section 6.3), as applied by
    `padding.PKCS7(128)` in the document cipher. */
module Pkcs7 {
  import opened Results
  import opened Bytes
  import opened Cbc

  /** Why a padded buffer was refused. */
  datatype PaddingError = EmptyOrUnaligned | BadPadByte | InconsistentPadding

  /** `n` copies of the byte whose value is `n`. */
  function PadBytes(n: nat): (r: seq<byte>)
    requires n < 256
    ensures |r| == n
    ensures forall i :: 0 <= i < n ==> r[i] as int == n
  {
    seq(n, _ => n as byte)
  }

  /** Appends between 1 and 16 bytes, each equal to the number appended, so that the
      length becomes a multiple of the block size. */
  function Pad(data: seq<byte>): (r: seq<byte>)
    ensures |r| % BlockSize == 0
    ensures |data| < |r| <= |data| + BlockSize
    ensures r[..|data|] == data
    ensures forall i :: |data| <= i < |r| ==> r[i] as int == |r| - |data|
  {
    var n := BlockSize - |data| % BlockSize;
    data + PadBytes(n)
  }

  /** The last `n` bytes of `p` all equal `n`. */
  predicate EndsWithPad(p: seq<byte>, n: nat)
    requires n <= |p|
  {
    forall i :: |p| - n <= i < |p| ==> p[i] as int == n
  }

  /** Removes PKCS#7 padding. The buffer must be a non-empty whole number of blocks, its
      final byte `n` must lie in 1..16, and the last `n` bytes must all equal `n`. */
  function Unpad(p: seq<byte>): (r: Result<seq<byte>, PaddingError>)
    ensures r.Success? ==> Pad(r.value) == p
    ensures r.Success? ==> |p| - BlockSize <= |r.value| < |p|
  {
    if |p| == 0 || |p| % BlockSize != 0 then Failure(EmptyOrUnaligned)
    else
      var n := p[|p| - 1] as int;
      if n == 0 || n > BlockSize then Failure(BadPadByte)
      else if !EndsWithPad(p, n) then Failure(InconsistentPadding)
      else
        var d := p[..|p| - n];
        assert Pad(d) == p by {
          assert |d| % BlockSize == BlockSize - n || n == BlockSize;
          assert BlockSize - |d| % BlockSize == n;
        }
        Success(d)
  }

  /** Unpadding undoes padding. */
  lemma UnpadPad(data: seq<byte>)
    ensures Unpad(Pad(data)) == Success(data)
  {
    var p := Pad(data);
    var n := |p| - |data|;
    assert p[|p| - 1] as int == n;
    assert EndsWithPad(p, n);
    assert p[..|p| - n] == data;
  }

  /** Unpadding succeeds on exactly the buffers that padding can produce, and then
      returns the unique data that pads to it. */
  lemma UnpadAcceptsExactlyPadded(p: seq<byte>)
    ensures Unpad(p).Success? <==> exists d :: Pad(d) == p
    ensures forall d :: Pad(d) == p ==> Unpad(p) == Success(d)
  {
    forall d | Pad(d) == p
      ensures Unpad(p) == Success(d)
    {
      UnpadPad(d);
    }
    if Unpad(p).Success? {
      assert Pad(Unpad(p).value) == p;
    }
  }

  /** A final byte of 0 or above 16, or a final run that disagrees with the final
      byte, is refused. */
  lemma UnpadRejectsMalformed(p: seq<byte>)
    requires |p| > 0
    requires var n := p[|p| - 1] as int;
             n == 0 || n > BlockSize || (n <= |p| && exists i :: |p| - n <= i < |p| && p[i] as int != n)
    ensures Unpad(p).Failure?
  {
  }
}
