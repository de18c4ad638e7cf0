/** EMSA-PKCS1-v1_5 with SHA-1 (RFC 8017, section 9.2), on top of the DER encoding of X.690. */
module Pkcs1 {
  import opened WordArith

  function Repeat(b: Byte, k: nat): (s: seq<Byte>)
    ensures |s| == k
  {
    seq(k, i => b)
  }

  // ---------------------------------------------------------------- DER

  datatype Der =
    | ObjectIdentifier(arcs: seq<nat>)
    | Null
    | OctetString(bytes: seq<Byte>)
    | Sequence(first: Der, second: Der)
  {
    function Tag(): Byte
    {
      match this
      case OctetString(_) => 4
      case Null => 5
      case ObjectIdentifier(_) => 6
      case Sequence(_, _) => 0x20 + 16
    }

    function Contents(): seq<Byte>
      decreases this, 0
    {
      match this
      case OctetString(bytes) => bytes
      case Null => []
      case ObjectIdentifier(arcs) => Arcs(JoinedArcs(arcs))
      case Sequence(first, second) => first.Encode() + second.Encode()
    }

    /** Tag, length and contents (section 8.1 of X.690). */
    function Encode(): seq<Byte>
      decreases this, 1
    {
      [Tag()] + Length(|Contents()|) + Contents()
    }
  }

  /** The bytes of n, most significant first, without leading zeros. */
  function Octets(n: nat): seq<Byte>
  {
    if n == 0 then [] else Octets(n / 256) + [n % 256]
  }

  /** One byte below 128, else the bytes of the number behind their count. */
  function Length(n: nat): seq<Byte>
  {
    if n < 128 then [n] else [(128 + |Octets(n)|) % 256] + Octets(n)
  }

  /** The first two arcs of an object identifier share a number. */
  function JoinedArcs(arcs: seq<nat>): seq<nat>
  {
    if |arcs| < 2 then arcs else [40 * arcs[0] + arcs[1]] + arcs[2..]
  }

  /** Groups of seven bits, all of them marked by the top bit. */
  function Groups(n: nat): seq<Byte>
  {
    if n == 0 then [] else Groups(n / 128) + [128 + n % 128]
  }

  /** Each arc in base 128; only its last group is not marked. */
  function Arcs(arcs: seq<nat>): seq<Byte>
  {
    if arcs == [] then [] else Arcs(arcs[..|arcs| - 1]) + Groups(arcs[|arcs| - 1] / 128) + [arcs[|arcs| - 1] % 128]
  }

  // ---------------------------------------------------------------- the encoded message

  /** DigestInfo of a SHA-1 digest: its algorithm is {1 3 14 3 2 26} with NULL parameters. */
  function DigestInfo(sha: seq<Byte>): Der
  {
    Sequence(Sequence(ObjectIdentifier([1, 3, 14, 3, 2, 26]), Null), OctetString(sha))
  }

  /** 00 01, at least eight bytes ff, 00, and the encoded DigestInfo fill the block. */
  ghost predicate IsEmsa(em: seq<Byte>, emLen: nat, sha: seq<Byte>)
  {
    && |em| == emLen
    && exists k: nat {:trigger Repeat(0xff, k)} ::
         k >= 8 && em == [0x00, 0x01] + Repeat(0xff, k) + [0x00] + DigestInfo(sha).Encode()
  }

  /** An arc below 128 is one byte. */
  lemma SmallArc(arcs: seq<nat>, arc: nat)
    requires arc < 128
    ensures Arcs(arcs + [arc]) == Arcs(arcs) + [arc]
  {
    assert (arcs + [arc])[..|arcs|] == arcs;
    assert Groups(arc / 128) == [];
  }

  lemma Sha1Oid()
    ensures ObjectIdentifier([1, 3, 14, 3, 2, 26]).Encode() == [0x06, 0x05, 0x2b, 0x0e, 0x03, 0x02, 0x1a]
  {
    hide Arcs;
    assert JoinedArcs([1, 3, 14, 3, 2, 26]) == [43, 14, 3, 2, 26] == [] + [43] + [14] + [3] + [2] + [26];
    NoArcs();
    SmallArc([], 43);
    SmallArc([] + [43], 14);
    SmallArc([] + [43] + [14], 3);
    SmallArc([] + [43] + [14] + [3], 2);
    SmallArc([] + [43] + [14] + [3] + [2], 26);
    assert [] + [43] + [14] + [3] + [2] + [26] == [0x2b, 0x0e, 0x03, 0x02, 0x1a];
  }

  lemma NoArcs()
    ensures Arcs([]) == []
  {}

  /** SHA-1 as an algorithm: its identifier and no parameters. */
  lemma Sha1Algorithm()
    ensures Sequence(ObjectIdentifier([1, 3, 14, 3, 2, 26]), Null).Encode() ==
              [0x30, 0x09, 0x06, 0x05, 0x2b, 0x0e, 0x03, 0x02, 0x1a, 0x05, 0x00]
  {
    hide Arcs, JoinedArcs, Octets;
    Sha1Oid();
    var algorithm := Sequence(ObjectIdentifier([1, 3, 14, 3, 2, 26]), Null);
    assert Null.Encode() == [0x05, 0x00];
    assert algorithm.Contents() == [0x06, 0x05, 0x2b, 0x0e, 0x03, 0x02, 0x1a, 0x05, 0x00];
  }

  lemma DigestInfoBytes(sha: seq<Byte>)
    requires |sha| == 20
    ensures DigestInfo(sha).Encode() ==
              [0x30, 0x21, 0x30, 0x09, 0x06, 0x05, 0x2b, 0x0e, 0x03, 0x02, 0x1a, 0x05, 0x00, 0x04, 0x14] + sha
  {
    hide Arcs, JoinedArcs, Octets;
    Sha1Algorithm();
    assert OctetString(sha).Encode() == [0x04, 0x14] + sha;
    assert |DigestInfo(sha).Contents()| == 33;
  }

  /** The padding of a block of 256 bytes. */
  lemma EmsaIs(em: seq<Byte>, sha: seq<Byte>)
    requires |sha| == 20
    ensures IsEmsa(em, 256, sha) <==>
            em == [0x00, 0x01] + Repeat(0xff, 218) + [0x00] + DigestInfo(sha).Encode()
  {
    DigestInfoBytes(sha);
    if IsEmsa(em, 256, sha) {
      var k: nat :| k >= 8 && em == [0x00, 0x01] + Repeat(0xff, k) + [0x00] + DigestInfo(sha).Encode();
      assert |em| == 2 + k + 1 + 35;
    }
  }
}
