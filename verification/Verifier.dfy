/** verifier.c, verify_file: the whole-file signature in the comment of a zip archive. */
module Verifier {
  import opened WordArith
  import opened BlockHash
  import opened Sha1
  import opened Sha1Stream
  import opened Montgomery
  import opened Pkcs1
  import opened Rsa
  import opened RsaChecks

  const FOOTER_SIZE := 6
  const EOCD_HEADER_SIZE := 22
  const BUFFER_SIZE := 4096

  predicate MarkerAt(s: seq<Byte>, i: nat)
    requires i + 4 <= |s|
  {
    s[i] == 0x50 && s[i + 1] == 0x4b && s[i + 2] == 0x05 && s[i + 3] == 0x06
  }

  /** The end-of-central-directory record starts with its marker and holds no second marker. */
  predicate OnlyFirstMarker(record: seq<Byte>)
  {
    && 4 <= |record|
    && MarkerAt(record, 0)
    && forall i :: 1 <= i <= |record| - 4 ==> !MarkerAt(record, i)
  }

  function Little16(s: seq<Byte>, i: nat): (n: nat)
    requires i + 2 <= |s|
    ensures n < 0x10000
  {
    (s[i] as int) + 0x100 * (s[i + 1] as int)
  }

  /** The unsigned test signature_start - FOOTER_SIZE < RSANUMBYTES, wrap-around included. */
  predicate LongEnough(signatureStart: nat)
  {
    signatureStart < FOOTER_SIZE || signatureStart >= FOOTER_SIZE + RSANUMBYTES
  }

  /** The archive ends in a footer that claims a signature and in an end-of-central-directory record of the size
      claimed. */
  predicate WellFormed(file: seq<Byte>)
  {
    var n := |file|;
    && n >= FOOTER_SIZE
    && file[n - 4] == 0xff && file[n - 3] == 0xff
    && LongEnough(Little16(file, n - 6))
    && CommentSize(file) + EOCD_HEADER_SIZE <= n
    && OnlyFirstMarker(Record(file))
  }

  function CommentSize(file: seq<Byte>): nat
    requires |file| >= FOOTER_SIZE
  {
    Little16(file, |file| - 2)
  }

  function Record(file: seq<Byte>): seq<Byte>
    requires |file| >= FOOTER_SIZE && CommentSize(file) + EOCD_HEADER_SIZE <= |file|
  {
    file[|file| - CommentSize(file) - EOCD_HEADER_SIZE..]
  }

  /** Everything before the comment length field and the comment. */
  function SignedPart(file: seq<Byte>): seq<Byte>
    requires |file| >= FOOTER_SIZE && CommentSize(file) + EOCD_HEADER_SIZE <= |file|
  {
    file[..|file| - CommentSize(file) - 2]
  }

  /** The 256 bytes before the footer; a short comment lets them reach into the memory that lies before the record. */
  function SignatureIn(record: seq<Byte>, before: seq<Byte>): (s: seq<Byte>)
    requires |record| >= EOCD_HEADER_SIZE && |before| == RSANUMBYTES
    ensures |s| == RSANUMBYTES
  {
    var all := before + record;
    all[|all| - FOOTER_SIZE - RSANUMBYTES..|all| - FOOTER_SIZE]
  }

  ghost predicate Accepted(file: seq<Byte>, keys: seq<RSAPublicKey>, before: seq<Byte>)
    requires |before| == RSANUMBYTES
  {
    && WellFormed(file)
    && SomeKeySigns(keys, SignatureIn(Record(file), before), Digest(SignedPart(file)))
  }

  /** Some key that opens signatures exactly opens this one. */
  ghost predicate SomeUsableSigns(keys: seq<RSAPublicKey>, signature: seq<Byte>, sha: seq<Byte>)
    requires |signature| == RSANUMBYTES && |sha| == SHA_DIGEST_SIZE
  {
    exists k :: 0 <= k < |keys| && keys[k].Usable() && Signs(keys[k], signature, sha)
  }

  /** Every key of 64 words has the right constants. */
  ghost predicate AllExact(keys: seq<RSAPublicKey>)
  {
    forall k :: 0 <= k < |keys| ==> keys[k].Exact(RSANUMWORDS)
  }

  ghost predicate SomeKeySigns(keys: seq<RSAPublicKey>, signature: seq<Byte>, sha: seq<Byte>)
    requires |signature| == RSANUMBYTES && |sha| == SHA_DIGEST_SIZE
  {
    exists k :: 0 <= k < |keys| && Signs(keys[k], signature, sha)
  }

  /** The search for a second marker starts behind the first, which none can overlap. */
  method ScanMarkers(eocd: seq<Byte>) returns (ok: bool)
    requires |eocd| >= EOCD_HEADER_SIZE
    ensures ok <==> OnlyFirstMarker(eocd)
  {
    if eocd[0] != 0x50 || eocd[1] != 0x4b || eocd[2] != 0x05 || eocd[3] != 0x06 {
      return false;
    }
    var i := 4;
    while i < |eocd| - 3
      invariant 4 <= i <= |eocd| - 3
      invariant forall j :: 1 <= j < i && j + 4 <= |eocd| ==> !MarkerAt(eocd, j)
    {
      if eocd[i] == 0x50 && eocd[i + 1] == 0x4b && eocd[i + 2] == 0x05 && eocd[i + 3] == 0x06 {
        assert MarkerAt(eocd, i);
        return false;
      }
      i := i + 1;
    }
    return true;
  }

  /** The hashing loop, one buffer at a time. */
  method HashFile(file: seq<Byte>, signedLen: nat) returns (digest: seq<Byte>)
    requires signedLen <= |file|
    ensures digest == Digest(file[..signedLen])
  {
    hide Compress, Feed, Blocks, Pad;
    var ctx := new ShaCtx();
    var soFar := 0;
    ghost var c0 := ctx.Value();
    FeedNothing(c0, file[..0]);
    while soFar < signedLen
      invariant ctx.Valid() && 0 <= soFar <= signedLen && fresh(ctx.buf)
      invariant ctx.count == soFar % TWO64
      invariant ctx.Value() == Feed(Compress, c0, file[..soFar])
    {
      var size := BUFFER_SIZE;
      if signedLen - soFar < size { size := signedLen - soFar; }
      FeedSlice(Compress, c0, file, soFar, size);
      CountOn(soFar, size);
      ctx.UpdateFast(file[soFar..soFar + size]);
      soFar := soFar + size;
    }
    FeedDigest(c0.buf, file[..signedLen]);
    ctx.Final();
    digest := ctx.buf[..20];
  }

  lemma FeedNothing(c: Ctx<State>, none: seq<Byte>)
    requires c.Valid() && none == []
    ensures Feed(Compress, c, none) == c
  {}

  lemma CountOn(n: nat, k: nat)
    ensures (n % TWO64 + k) % TWO64 == (n + k) % TWO64
  {
    var r := n % TWO64 + k;
    assert n == TWO64 * (n / TWO64) + n % TWO64 && r == TWO64 * (r / TWO64) + r % TWO64;
    Remainder(n + k, TWO64, n / TWO64 + r / TWO64, r % TWO64);
  }

  /** The key loop. A key whose constants do not fit together can only add a success that is not deserved; the verdict
      is exact when there is none, and one good key that opens the signature always suffices. */
  method AnyKey(keys: seq<RSAPublicKey>, signature: seq<Byte>, sha: seq<Byte>) returns (ok: bool)
    requires |signature| == RSANUMBYTES && |sha| == SHA_DIGEST_SIZE
    requires forall k :: 0 <= k < |keys| && keys[k].len == RSANUMWORDS ==> keys[k].Whole()
    ensures SomeUsableSigns(keys, signature, sha) ==> ok
    ensures ok ==> SomeUsableSigns(keys, signature, sha) || !AllExact(keys)
    ensures AllExact(keys) ==> (ok <==> SomeKeySigns(keys, signature, sha))
  {
    hide Opened, Masked, Val, Weight, Digest;
    assert signature[..RSANUMBYTES] == signature;
    var i := 0;
    while i < |keys|
      invariant 0 <= i <= |keys|
      invariant forall k :: 0 <= k < i && keys[k].Exact(RSANUMWORDS) ==> !Signs(keys[k], signature, sha)
    {
      var r := RsaVerify(keys[i], signature, RSANUMBYTES, sha);
      if r != 0 {
        return true;
      }
      i := i + 1;
    }
    return false;
  }

  /** The footer tests, which say how long the end-of-central-directory record claims to be. */
  method ReadFooter(file: seq<Byte>) returns (ok: bool, commentSize: nat)
    ensures ok <==>
            var n := |file|;
            && n >= 6 && file[n - 4] == 0xff && file[n - 3] == 0xff
            && !(6 <= (file[n - 6] as int) + 256 * (file[n - 5] as int) <= 261)
    ensures ok ==> commentSize == CommentSize(file) == (file[|file| - 2] as int) + 256 * (file[|file| - 1] as int)
  {
    if |file| < FOOTER_SIZE {
      return false, 0;
    }
    var footer := file[|file| - FOOTER_SIZE..];
    if footer[2] != 0xff || footer[3] != 0xff {
      return false, 0;
    }
    commentSize := Little16(footer, 4);
    var signatureStart := Little16(footer, 0);
    ok := (signatureStart - FOOTER_SIZE) % B >= RSANUMBYTES;
  }

  /** verify_file, when the keys are exact, succeeds exactly on accepted archives; before is whatever lies in memory
      before the record. */
  method VerifyFile(file: seq<Byte>, keys: seq<RSAPublicKey>, before: seq<Byte>) returns (success: bool)
    requires |before| == RSANUMBYTES
    requires forall k :: 0 <= k < |keys| && keys[k].len == RSANUMWORDS ==> keys[k].Whole()
    ensures success ==> WellFormed(file) && !(6 <= (file[|file| - 6] as int) + 256 * (file[|file| - 5] as int) <= 261)
    ensures WellFormed(file) && SomeUsableSigns(keys, SignatureIn(Record(file), before), Digest(SignedPart(file))) ==>
              success
    ensures success && AllExact(keys) ==>
              SomeUsableSigns(keys, SignatureIn(Record(file), before), Digest(SignedPart(file)))
    ensures AllExact(keys) ==> (success <==> Accepted(file, keys, before))
  {
    var ok, commentSize := ReadFooter(file);
    if !ok {
      return false;
    }
    var eocdSize := commentSize + EOCD_HEADER_SIZE;
    if |file| < eocdSize {
      return false;
    }
    var signedLen := |file| - eocdSize + EOCD_HEADER_SIZE - 2;
    var eocd := file[|file| - eocdSize..];
    var clean := ScanMarkers(eocd);
    if !clean {
      return false;
    }
    var sha1 := HashFile(file, signedLen);
    success := AnyKey(keys, SignatureIn(eocd, before), sha1);
  }

  // ---------------------------------------------------------------- what acceptance means

  /** The tests in front of the key loop, on the bytes of the file: the footer, the signature's distance from the end,
      and the record, which starts 22 bytes in front of the comment; what is signed ends 20 bytes behind its start. */
  lemma WellFormedIs(file: seq<Byte>, comment: nat, start: nat, s: int)
    requires |file| >= 6
    requires comment == (file[|file| - 2] as int) + 256 * (file[|file| - 1] as int) && s == |file| - comment - 22
    requires start == (file[|file| - 6] as int) + 256 * (file[|file| - 5] as int)
    ensures WellFormed(file) <==>
            && file[|file| - 4] == 0xff && file[|file| - 3] == 0xff && !(6 <= start <= 261)
            && s >= 0 && OnlyFirstMarker(file[s..])
    ensures s >= 0 ==> Record(file) == file[s..] && SignedPart(file) == file[..s + 20]
  {
    hide OnlyFirstMarker;
    assert FOOTER_SIZE == 6 && EOCD_HEADER_SIZE == 22 && RSANUMBYTES == 256;
  }

  lemma SignatureInside(record: seq<Byte>, before: seq<Byte>)
    requires |record| >= FOOTER_SIZE + RSANUMBYTES && |before| == RSANUMBYTES
    ensures SignatureIn(record, before) == record[|record| - FOOTER_SIZE - RSANUMBYTES..|record| - FOOTER_SIZE]
  {}

  lemma RecordEnd(file: seq<Byte>, s: nat, i: nat, j: nat)
    requires s <= |file| && j <= i <= |file| - s
    ensures var r := file[s..]; r[|r| - i..|r| - j] == file[|file| - i..|file| - j]
  {}

  /** With a comment of at least 240 bytes the signature lies inside the archive, and memory outside it plays no
      part. */
  lemma MemoryIrrelevant(file: seq<Byte>, keys: seq<RSAPublicKey>, before: seq<Byte>, before': seq<Byte>)
    requires |before| == RSANUMBYTES == |before'|
    requires |file| >= FOOTER_SIZE && CommentSize(file) >= 240
    ensures Accepted(file, keys, before) <==> Accepted(file, keys, before')
    ensures WellFormed(file) ==> SignatureIn(Record(file), before) == file[|file| - 262..|file| - 6]
  {
    if WellFormed(file) {
      SignatureInside(Record(file), before);
      SignatureInside(Record(file), before');
      RecordEnd(file, |file| - CommentSize(file) - EOCD_HEADER_SIZE, 262, 6);
    }
  }

  /** A shorter comment: the first byte taken as signature is not one of the archive's record but the memory before
      it. */
  lemma ShortCommentReadsOutside(record: seq<Byte>, before: seq<Byte>, b: Byte)
    requires EOCD_HEADER_SIZE <= |record| < 240 + EOCD_HEADER_SIZE && |before| == RSANUMBYTES
    ensures var k := |record| - 6;
            SignatureIn(record, before[k := b]) == SignatureIn(record, before)[0 := b]
  {
    var k := |record| - 6;
    assert before[k := b] + record == (before + record)[k := b];
  }

  /** The signature is the same whatever lies in front of the record. */
  ghost predicate SignatureFixed(file: seq<Byte>)
    requires WellFormed(file)
  {
    forall before: seq<Byte>, before': seq<Byte> :: |before| == RSANUMBYTES == |before'| ==>
      SignatureIn(Record(file), before) == SignatureIn(Record(file), before')
  }

  /** It is so exactly from 240 bytes of comment on. */
  lemma FixedFrom240(file: seq<Byte>)
    requires WellFormed(file)
    ensures SignatureFixed(file) <==> CommentSize(file) >= 240
  {
    var record := Record(file);
    if CommentSize(file) >= 240 {
      forall before: seq<Byte>, before': seq<Byte> | |before| == RSANUMBYTES == |before'|
        ensures SignatureIn(record, before) == SignatureIn(record, before')
      {
        SignatureInside(record, before);
        SignatureInside(record, before');
      }
    } else {
      var zeros := Repeat(0, RSANUMBYTES);
      var k := |record| - 6;
      ShortCommentReadsOutside(record, zeros, 1);
      assert SignatureIn(record, zeros)[0] == zeros[k];
    }
  }

  /** A whole archive of 28 bytes: an end-of-central-directory record whose comment is the footer and nothing else. */
  const FOOTER_ONLY: seq<Byte> :=
    [0x50, 0x4b, 0x05, 0x06, 0, 0, 0, 0, 0, 0, 0, 0, 0, 0, 0, 0, 0, 0, 0, 0, 6, 0, 0x00, 0x02, 0xff, 0xff, 6, 0]

  /** It passes every test in front of the key loop, and 234 bytes of what is then taken as its signature are not its
      own. */
  lemma FooterOnlyReadsOutside(before: seq<Byte>)
    requires |before| == RSANUMBYTES
    ensures WellFormed(FOOTER_ONLY) && CommentSize(FOOTER_ONLY) == 6 && !SignatureFixed(FOOTER_ONLY)
    ensures SignatureIn(Record(FOOTER_ONLY), before) == before[22..] + FOOTER_ONLY[..22]
  {
    assert Record(FOOTER_ONLY) == FOOTER_ONLY;
    assert (before + FOOTER_ONLY)[22..278] == before[22..] + FOOTER_ONLY[..22];
    FixedFrom240(FOOTER_ONLY);
  }

  /** The record that the search from the end of the file finds is the one that was checked. */
  lemma LastMarker(file: seq<Byte>, j: nat)
    requires WellFormed(file) && j + 4 <= |file| && MarkerAt(file, j)
    ensures j <= |file| - CommentSize(file) - EOCD_HEADER_SIZE
  {
    var s := |file| - CommentSize(file) - EOCD_HEADER_SIZE;
    if j > s { assert MarkerAt(Record(file), j - s); }
  }

  function Bytes16(n: nat): seq<Byte>
    requires n < 0x10000
  {
    [n % 256, n / 256]
  }

  /** How a signer lays the archive out: comment length, free text, signature, footer. */
  function SignedArchive(body: seq<Byte>, text: seq<Byte>, signature: seq<Byte>): seq<Byte>
    requires |signature| == RSANUMBYTES && |text| < 0x10000 - 262
  {
    body + Bytes16(|text| + 262) + text + signature + (Bytes16(262) + [0xff, 0xff] + Bytes16(|text| + 262))
  }

  /** A signed archive is accepted exactly when one of the keys opens the signature to the digest of its body. */
  lemma SignedArchiveAccepted(body: seq<Byte>, text: seq<Byte>, signature: seq<Byte>, keys: seq<RSAPublicKey>,
                              before: seq<Byte>)
    requires |signature| == RSANUMBYTES == |before| && |text| < 0x10000 - 262 && |body| >= 20
    requires OnlyFirstMarker(SignedArchive(body, text, signature)[|body| - 20..])
    ensures Accepted(SignedArchive(body, text, signature), keys, before)
            <==> SomeKeySigns(keys, signature, Digest(body))
  {
    var file, m := SignedArchive(body, text, signature), |text| + 262;
    var n := |file|;
    Footer(body + Bytes16(m) + text + signature, m);
    assert n == |body| + m + 2 && CommentSize(file) == m;
    assert SignedPart(file) == body;
    assert Record(file) == file[|body| - 20..];
    assert file[n - 262..n - 6] == signature;
    MemoryIrrelevant(file, keys, before, before);
  }

  lemma Footer(front: seq<Byte>, m: nat)
    requires m < 0x10000
    ensures var file := front + (Bytes16(262) + [0xff, 0xff] + Bytes16(m));
            var n := |file|;
            && n == |front| + 6 && CommentSize(file) == m && Little16(file, n - 6) == 262
            && file[n - 4] == 0xff && file[n - 3] == 0xff
  {}
}
