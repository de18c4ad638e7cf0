/** rsa_e_f4.c: the check of an exponent-65537 signature by hash; rsa.c: the choice between the two checks. */
module RsaChecks {
  import opened WordArith
  import opened Bits
  import opened BlockHash
  import opened Sha1
  import opened Sha1Stream
  import opened Montgomery
  import opened Pkcs1
  import opened PadDigest
  import opened Rsa

  /** SHA-1 of the encoded block with zeros in the place of the digest. */
  const EXPECTED_PAD_SHA: seq<Byte> :=
    [0xdc, 0xbd, 0xbe, 0x42, 0xd5, 0xf5, 0xa7, 0x2e, 0x6e, 0xfc,
     0xf5, 0x5d, 0xaf, 0x9d, 0xea, 0x68, 0x7c, 0xfb, 0xf1, 0x67]

  /** The block with the digest removed by exclusive or from its last bytes. */
  function Masked(block: seq<Byte>, sha: seq<Byte>): (r: seq<Byte>)
    requires |block| == RSANUMBYTES && |sha| == SHA_DIGEST_SIZE
    ensures |r| == |block|
  {
    var k := RSANUMBYTES - SHA_DIGEST_SIZE;
    seq(RSANUMBYTES, i requires 0 <= i < RSANUMBYTES => if i < k then block[i] else ByteXor(block[i], sha[i - k]))
  }

  /** Masking tells the correct encoding of a digest from every other block. */
  lemma MaskedEncoding(block: seq<Byte>, sha: seq<Byte>)
    requires |block| == RSANUMBYTES && |sha| == SHA_DIGEST_SIZE
    ensures IsEmsa(Masked(block, sha), RSANUMBYTES, Repeat(0, SHA_DIGEST_SIZE)) <==> IsEmsa(block, RSANUMBYTES, sha)
  {
    var k := RSANUMBYTES - SHA_DIGEST_SIZE;
    var m, zero, want := Masked(block, sha), Encoded(Repeat(0, SHA_DIGEST_SIZE)), Encoded(sha);
    BytePow();
    EncodedIs(block, sha);
    EncodedIs(m, Repeat(0, SHA_DIGEST_SIZE));
    forall i | 0 <= i < RSANUMBYTES
      ensures m[i] == zero[i] <==> block[i] == want[i]
    {
      if i >= k { XorZero(8, block[i], sha[i - k]); }
    }
  }

  /** What each exponent demands of signature^e mod n. */
  ghost predicate Signs(key: RSAPublicKey, signature: seq<Byte>, sha: seq<Byte>)
    requires |signature| == RSANUMBYTES && |sha| == SHA_DIGEST_SIZE
  {
    && key.len == RSANUMWORDS
    && key.Modulus() > 0
    && (|| (key.exponent == 3 && IsEmsa(Opened(key, signature), RSANUMBYTES, sha))
        || (key.exponent == 65537 && Digest(Masked(Opened(key, signature), sha)) == EXPECTED_PAD_SHA))
  }

  /** signature^e mod n as 256 bytes. */
  ghost function Opened(key: RSAPublicKey, signature: seq<Byte>): (r: seq<Byte>)
    requires key.Modulus() > 0 && key.exponent >= 0
    ensures |r| == RSANUMBYTES
  {
    BEBytes(Pow(BEVal(signature), key.exponent) % key.Modulus(), RSANUMBYTES)
  }

  /** The encoding of zeros, byte by byte. */
  lemma ZerosEncoded(m: seq<Byte>)
    requires IsEmsa(m, RSANUMBYTES, Repeat(0, SHA_DIGEST_SIZE))
    ensures IsMessage(m)
  {
    var zeros := Repeat(0, SHA_DIGEST_SIZE);
    EmsaIs(m, zeros);
    DigestInfoBytes(zeros);
    assert m[..4] == [0x00, 0x01, 0xff, 0xff];
    assert m[220..224] == [0x00, 0x30, 0x21, 0x30] && m[224..228] == [0x09, 0x06, 0x05, 0x2b];
    assert m[228..232] == [0x0e, 0x03, 0x02, 0x1a] && m[232..236] == [0x05, 0x00, 0x04, 0x14];
  }

  /** With either exponent every correctly encoded signature is accepted. With exponent 65537 this is so because the
      constant of the code is the digest of the encoding of zeros. */
  lemma EncodedSigns(key: RSAPublicKey, signature: seq<Byte>, sha: seq<Byte>)
    requires |signature| == RSANUMBYTES && |sha| == SHA_DIGEST_SIZE
    requires key.len == RSANUMWORDS && key.Modulus() > 0 && (key.exponent == 3 || key.exponent == 65537)
    requires IsEmsa(Opened(key, signature), RSANUMBYTES, sha)
    ensures Signs(key, signature, sha)
  {
    hide IsEmsa, Masked, Opened, Digest;
    if key.exponent == 65537 {
      var masked := Masked(Opened(key, signature), sha);
      MaskedEncoding(Opened(key, signature), sha);
      ZerosEncoded(masked);
      MessageDigest(masked);
    }
  }

  /** SHA(data, len, digest) of sha.c. */
  method Sha(data: seq<Byte>) returns (digest: seq<Byte>)
    ensures |digest| == SHA_DIGEST_SIZE && digest == Digest(data)
  {
    var ctx := new ShaCtx();
    FeedDigest(ctx.buf[..], data);
    ctx.UpdateFast(data);
    ctx.Final();
    digest := ctx.buf[..20];
  }

  /** 1 exactly when the checks pass and the masked block has the expected hash; with the wrong constants in the key
      only the checks are certain. */
  method RsaEF4Verify(key: RSAPublicKey, signature: seq<Byte>, len: int, sha: seq<Byte>) returns (r: int)
    requires len <= |signature| && |sha| == SHA_DIGEST_SIZE
    requires key.len == RSANUMWORDS ==> key.Whole()
    ensures r == 0 || r == 1
    ensures r == 1 ==> key.len == RSANUMWORDS && len == RSANUMBYTES && key.exponent == 65537
    ensures key.Exact(RSANUMWORDS) ==>
              (r == 1 <==>
               && key.len == RSANUMWORDS
               && len == RSANUMBYTES
               && key.exponent == 65537
               && key.Modulus() > 0
               && Digest(Masked(Opened(key, signature[..len]), sha)) == EXPECTED_PAD_SHA)
  {
    if key.len != RSANUMWORDS {
      return 0;
    }
    if len != RSANUMBYTES {
      return 0;
    }
    if key.exponent != 65537 {
      return 0;
    }
    var buf := OpenF4(key, signature[..len]);
    MaskIn(buf, sha);
    var hash := Sha(buf[..]);
    var same := SameHash(hash);
    r := if same then 1 else 0;
  }

  /** The local copy of the signature, raised to the power in place. */
  method OpenF4(key: RSAPublicKey, signature: seq<Byte>) returns (buf: array<Byte>)
    requires key.len == RSANUMWORDS && key.Whole() && key.exponent == 65537 && |signature| == RSANUMBYTES
    ensures fresh(buf) && buf.Length == RSANUMBYTES
    ensures key.Usable() ==> key.Modulus() > 0 && buf[..] == Opened(key, signature)
  {
    buf := new Byte[RSANUMBYTES];
    var i := 0;
    while i < RSANUMBYTES
      invariant 0 <= i <= RSANUMBYTES
      invariant buf[..i] == signature[..i]
    {
      buf[i] := signature[i];
      i := i + 1;
    }
    assert buf[..] == signature;
    ModPowF4(key, buf);
    BytesOfValue(buf[..]);
  }

  /** The final comparison. */
  method SameHash(hash: seq<Byte>) returns (same: bool)
    requires |hash| == SHA_DIGEST_SIZE
    ensures same <==> hash == EXPECTED_PAD_SHA
  {
    var i := 0;
    while i < SHA_DIGEST_SIZE
      invariant 0 <= i <= SHA_DIGEST_SIZE
      invariant hash[..i] == EXPECTED_PAD_SHA[..i]
    {
      if hash[i] != EXPECTED_PAD_SHA[i] {
        return false;
      }
      i := i + 1;
    }
    assert hash[..SHA_DIGEST_SIZE] == hash && EXPECTED_PAD_SHA[..SHA_DIGEST_SIZE] == EXPECTED_PAD_SHA;
    return true;
  }

  /** The digest is taken off the last 20 bytes by exclusive or. */
  method MaskIn(buf: array<Byte>, sha: seq<Byte>)
    requires buf.Length == RSANUMBYTES && |sha| == SHA_DIGEST_SIZE
    modifies buf
    ensures buf[..] == Masked(old(buf[..]), sha)
  {
    ghost var was: seq<Byte> := buf[..];
    var start := RSANUMBYTES - SHA_DIGEST_SIZE;
    var i := start;
    while i < RSANUMBYTES
      invariant start <= i <= RSANUMBYTES
      invariant buf[i..] == was[i..]
      invariant forall j :: 0 <= j < i ==> buf[j] == Masked(was, sha)[j]
    {
      assert buf[i] == was[i] by { assert buf[i] == buf[i..][0]; }
      buf[i] := ByteXor(buf[i], sha[i - start]);
      i := i + 1;
    }
  }

  /** RSA_verify: nonzero exactly when the signature is 256 bytes long and the key's exponent accepts it. */
  method RsaVerify(key: RSAPublicKey, signature: seq<Byte>, len: int, sha: seq<Byte>) returns (r: int)
    requires len <= |signature| && |sha| == SHA_DIGEST_SIZE
    requires key.len == RSANUMWORDS ==> key.Whole()
    ensures r == 0 || r == 1
    ensures r == 1 ==> key.len == RSANUMWORDS && len == RSANUMBYTES && (key.exponent == 3 || key.exponent == 65537)
    ensures key.Exact(RSANUMWORDS) ==> (r == 1 <==> len == RSANUMBYTES && Signs(key, signature[..len], sha))
  {
    match key.exponent
    case 3 => r := RsaE3Verify(key, signature, len, sha);
    case 65537 => r := RsaEF4Verify(key, signature, len, sha);
    case _ => r := 0;
  }
}
