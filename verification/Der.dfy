/**
 The gateway's signature codec: the DER form of Ecdsa-Sig-Value (section 2.2.3 of RFC 3279),
 a SEQUENCE of two INTEGERs (sections 8.9 and 8.3 of ITU-T X.690) with definite short-form
 lengths (section 10.1), carried zero-padded in 72 bytes.
 */
module Der {

  type Byte = x: int | 0 <= x < 256

  // ----- big.Int

  /** big.Int.Bytes: the shortest big-endian form. */
  function ToBytes(n: nat): seq<Byte> {
    if n == 0 then [] else ToBytes(n / 256) + [n % 256]
  }

  /** big.Int.SetBytes. */
  function FromBytes(b: seq<Byte>): nat {
    if b == [] then 0 else 256 * FromBytes(b[..|b| - 1]) + b[|b| - 1]
  }

  /** The last octet is the least significant one. */
  lemma {:induction false} BigEndian(b: seq<Byte>, last: Byte)
    ensures FromBytes(b + [last]) == 256 * FromBytes(b) + last
    ensures b != [] && b[0] != 0 ==> ToBytes(256 * FromBytes(b) + last) == b + [last]
  {
    var longer := b + [last];
    assert longer[..|longer| - 1] == b;
    if b != [] && b[0] != 0 {
      ToFromBytes(longer);
    }
  }

  function Pow256(k: nat): nat {
    if k == 0 then 1 else 256 * Pow256(k - 1)
  }

  /** The bound on the coordinates of a P-256 signature. */
  const TWO_256: nat := 0x1_00000000_00000000_00000000_00000000_00000000_00000000_00000000_00000000

  lemma {:induction false} ThirtyTwoBytes()
    ensures Pow256(32) == TWO_256
  {
    assert Pow256(8) == 0x1_00000000_00000000;
    assert Pow256(16) == 0x1_00000000_00000000_00000000_00000000;
    assert Pow256(24) == 0x1_00000000_00000000_00000000_00000000_00000000_00000000;
  }

  lemma {:induction false} FromToBytes(n: nat)
    ensures FromBytes(ToBytes(n)) == n
    decreases n
  {
    if n > 0 {
      FromToBytes(n / 256);
      assert ToBytes(n)[..|ToBytes(n)| - 1] == ToBytes(n / 256);
    }
  }

  lemma {:induction false} NoLeadingZero(n: nat)
    requires n > 0
    ensures ToBytes(n) != [] && ToBytes(n)[0] != 0
    decreases n
  {
    if n >= 256 {
      NoLeadingZero(n / 256);
    } else {
      assert ToBytes(n / 256) == [];
    }
  }

  lemma {:induction false} ToBytesSize(n: nat, k: nat)
    requires n < Pow256(k)
    ensures |ToBytes(n)| <= k
    decreases k
  {
    if n > 0 {
      ToBytesSize(n / 256, k - 1);
    }
  }

  lemma {:induction false} LeadingZeroFree(b: seq<Byte>)
    ensures FromBytes([0] + b) == FromBytes(b)
    decreases |b|
  {
    var z: seq<Byte> := [0] + b;
    if b == [] {
      assert z[..0] == [];
    } else {
      LeadingZeroFree(b[..|b| - 1]);
      assert z[..|z| - 1] == [0] + b[..|b| - 1];
    }
  }

  lemma {:induction false} ToFromBytes(b: seq<Byte>)
    requires b == [] || b[0] != 0
    ensures ToBytes(FromBytes(b)) == b
    ensures b != [] ==> FromBytes(b) > 0
    decreases |b|
  {
    if b != [] {
      var init, last := b[..|b| - 1], b[|b| - 1];
      ToFromBytes(init);
      assert FromBytes(b) / 256 == FromBytes(init) && FromBytes(b) % 256 == last;
      assert b == init + [last];
    }
  }

  // ----- contents octets of an INTEGER

  /** Non-negative and as short as section 8.3 of X.690 demands. */
  predicate MinimalInteger(b: seq<Byte>) {
    && b != [] && b[0] < 0x80
    && (|b| > 1 && b[0] == 0 ==> b[1] >= 0x80)
  }

  function Contents(n: nat): seq<Byte> {
    var b := if n == 0 then [0] else ToBytes(n);
    if b != [] && b[0] >= 0x80 then [0] + b else b
  }

  /** Contents(n) is minimal, denotes n, and is the only such octet string. */
  lemma {:induction false} ContentsExact(n: nat, b: seq<Byte>)
    ensures MinimalInteger(Contents(n)) && FromBytes(Contents(n)) == n
    ensures MinimalInteger(b) && FromBytes(b) == n <==> b == Contents(n)
  {
    FromToBytes(n);
    if n > 0 {
      NoLeadingZero(n);
    } else {
      assert FromBytes([0]) == 0 by { LeadingZeroFree([]); }
    }
    LeadingZeroFree(ToBytes(n));
    if MinimalInteger(b) && FromBytes(b) == n {
      if b[0] != 0 {
        ToFromBytes(b);
      } else {
        assert b == [0] + b[1..];
        LeadingZeroFree(b[1..]);
        ToFromBytes(b[1..]);
        if |b| == 1 {
          assert b[1..] == [];
        }
      }
    }
  }

  lemma {:induction false} ContentsSize(n: nat, k: nat)
    requires n < Pow256(k) && k > 0
    ensures 1 <= |Contents(n)| <= k + 1
  {
    ToBytesSize(n, k);
    if n > 0 {
      NoLeadingZero(n);
    }
  }

  // ----- writing

  /** Go's copy(dst[at:], src). */
  method Copy(dst: array<Byte>, at: nat, src: seq<Byte>) returns (n: nat)
    requires at <= dst.Length
    modifies dst
    ensures n == if |src| <= dst.Length - at then |src| else dst.Length - at
    ensures dst[..] == old(dst[..])[..at] + src[..n] + old(dst[..])[at + n..]
  {
    n := if |src| <= dst.Length - at then |src| else dst.Length - at;
    for i := 0 to n
      invariant dst[..] == old(dst[..])[..at] + src[..i] + old(dst[..])[at + i..]
    {
      dst[at + i] := src[i];
    }
  }

  /** The branch that makes room for a leading zero. */
  method PadByte(b: seq<Byte>) returns (padded: seq<Byte>)
    ensures padded == [0] + b
  {
    var paddedBytes := new Byte[|b| + 1](_ => 0);
    var n := Copy(paddedBytes, 1, b);
    assert b[..n] == b;
    padded := paddedBytes[..];
  }

  /** The one minimal octet string that denotes val; section 8.3 of X.690 leaves no other choice. */
  method CanonicalizeInt(val: nat) returns (b: seq<Byte>)
    ensures MinimalInteger(b) && FromBytes(b) == val
    ensures b == Contents(val)
  {
    ContentsExact(val, []);
    b := ToBytes(val);
    if |b| == 0 {
      b := [0x00];
    }
    if val > 0 {
      NoLeadingZero(val);
    }
    if b[0] >= 0x80 {
      b := PadByte(b);
    }
  }

  /** The octets of the SEQUENCE; both length octets are cut to eight bits as byte() does. */
  function Sequence(rb: seq<Byte>, sb: seq<Byte>): seq<Byte> {
    [0x30, (4 + |rb| + |sb|) % 256] + ([0x02, |rb| % 256] + rb) + ([0x02, |sb| % 256] + sb)
  }

  function Der(r: nat, s: nat): seq<Byte> {
    Sequence(Contents(r), Contents(s))
  }

  /** The three writes that put one INTEGER at an offset. */
  method PutInteger(b: array<Byte>, offset: nat, contents: seq<Byte>) returns (next: nat)
    requires offset + 2 + |contents| <= b.Length
    modifies b
    ensures next == offset + 2 + |contents|
    ensures b[..next] == old(b[..offset]) + ([0x02, |contents| % 256] + contents)
  {
    ghost var before := b[..offset];
    b[offset] := 0x02;
    b[offset + 1] := |contents| % 256;
    assert b[..offset] == before;
    assert b[..offset + 2] == before + [0x02, |contents| % 256];
    var copied := Copy(b, offset + 2, contents);
    next := offset + 2 + copied;
    assert contents[..copied] == contents;
    assert b[..next] == before + [0x02, |contents| % 256] + contents;
  }

  /** The writes of PointsToDER, once the two contents are known. */
  method Assemble(rb: seq<Byte>, sb: seq<Byte>) returns (b: array<Byte>)
    ensures fresh(b) && b[..] == Sequence(rb, sb)
  {
    var length := 6 + |rb| + |sb|;
    b := new Byte[length](_ => 0);
    b[0] := 0x30;
    b[1] := (length - 2) % 256;
    var head := [0x30, (4 + |rb| + |sb|) % 256];
    assert b[..2] == head;
    var offset := PutInteger(b, 2, rb);
    offset := PutInteger(b, offset, sb);
    assert b[..] == b[..offset];
  }

  method PointsToDER(r: nat, s: nat) returns (b: array<Byte>)
    ensures fresh(b) && b[..] == Der(r, s)
  {
    var rb := CanonicalizeInt(r);
    var sb := CanonicalizeInt(s);
    b := Assemble(rb, sb);
  }

  function Zeros(n: nat): (z: seq<Byte>)
    ensures |z| == n && forall i :: 0 <= i < n ==> z[i] == 0
  {
    seq(n, _ => 0)
  }

  /** What a 72-byte signature array holds after the encoding is copied in. */
  function InSignature(der: seq<Byte>): seq<Byte> {
    if |der| <= 72 then der + Zeros(72 - |der|) else der[..72]
  }

  lemma {:induction false} PaddedCopy(der: seq<Byte>, n: nat)
    requires n == if |der| <= 72 then |der| else 72
    ensures der[..n] + Zeros(72)[n..] == InSignature(der)
  {
    assert Zeros(72)[n..] == Zeros(72 - n);
  }

  /** The encoding of r and s, or zeros for a hash of the wrong length. */
  function Signature(hash: seq<Byte>, r: nat, s: nat): seq<Byte> {
    if |hash| == 32 then InSignature(Der(r, s)) else Zeros(72)
  }

  /** Sign; r and s are what the ECDSA library returns. */
  method Sign(hash: seq<Byte>, r: nat, s: nat) returns (signature: array<Byte>)
    ensures signature.Length == 72
    ensures signature[..] == Signature(hash, r, s)
    ensures |hash| == 32 && |Der(r, s)| <= 72 ==>
      signature[..|Der(r, s)|] == Der(r, s) && forall i :: |Der(r, s)| <= i < 72 ==> signature[i] == 0
    ensures |hash| != 32 ==> forall i :: 0 <= i < 72 ==> signature[i] == 0
  {
    signature := new Byte[72](_ => 0);
    if |hash| != 32 {
      assert signature[..] == Zeros(72);
      return;
    }
    var der := PointsToDER(r, s);
    ghost var blank, bytes := signature[..], der[..];
    assert blank == Zeros(72);
    var n := Copy(signature, 0, der[..]);
    assert blank[..0] + bytes[..n] == bytes[..n];
    PaddedCopy(bytes, n);
  }

  // ----- reading

  /** Go's addition of two bytes. */
  function AddByte(a: int, b: int): Byte {
    (a + b) % 256
  }

  /** NotShortForm marks input outside the short-form subset of ASN.1 this reader covers. */
  datatype Parsed = Panicked | NotShortForm | Points(r: nat, s: nat)

  function Parse(der: seq<Byte>): Parsed {
    if |der| < 2 then Panicked
    else if der[0] % 32 == 31 || der[1] >= 0x80 then NotShortForm
    else if 2 + der[1] > |der| || der[1] < 2 then Panicked
    else
      var bytes := der[2..2 + der[1]];
      var rEnd, sStart := AddByte(bytes[1], 2), AddByte(bytes[1], 4);
      if rEnd < 2 || rEnd > |der| - 2 || sStart > |bytes| then Panicked
      else Points(FromBytes(der[4..2 + rEnd]), FromBytes(bytes[sStart..]))
  }

  // ----- the round trip

  /** 256-bit values encode in at most 72 bytes, with exact length octets. */
  lemma {:induction false} DerFits(r: nat, s: nat)
    requires r < TWO_256 && s < TWO_256
    ensures |Contents(r)| <= 33 && |Contents(s)| <= 33 && |Der(r, s)| == 6 + |Contents(r)| + |Contents(s)| <= 72
    ensures Der(r, s)[1] == |Der(r, s)| - 2 && Der(r, s)[3] == |Contents(r)|
  {
    ThirtyTwoBytes();
    ContentsSize(r, 32);
    ContentsSize(s, 32);
  }

  lemma {:induction false} Middle(a: seq<Byte>, b: seq<Byte>, c: seq<Byte>)
    ensures (a + b + c)[|a|..|a| + |b|] == b
  {}

  lemma {:induction false} Reassociate(a: seq<Byte>, b: seq<Byte>, c: seq<Byte>, d: seq<Byte>)
    ensures a + b + c + d == a + (b + c) + d
    ensures a + b + c + d == (a + b) + (c + d)
  {}

  /** rTlv and sTlv stand for the two encoded INTEGERs. */
  lemma {:induction false} ParseLayout(rb: seq<Byte>, sb: seq<Byte>, pad: seq<Byte>, sig: seq<Byte>)
    requires |rb| <= 33 && |sb| <= 33
    requires sig == [0x30, 4 + |rb| + |sb|] + ([0x02, |rb|] + rb) + ([0x02, |sb|] + sb) + pad
    ensures Parse(sig) == Points(FromBytes(rb), FromBytes(sb))
  {
    var head: seq<Byte> := [0x30, 4 + |rb| + |sb|];
    var rTlv, sTlv := [0x02, |rb|] + rb, [0x02, |sb|] + sb;
    var body := rTlv + sTlv;
    assert sig[2..2 + |body|] == body by {
      Reassociate(head, rTlv, sTlv, pad);
      Middle(head, body, pad);
    }
    assert body[1] == |rb|;
    assert body[2..|rb| + 2] == rb by {
      Middle([0x02, |rb|], rb, sTlv);
    }
    assert body[|rb| + 4..] == sb;
    assert sig[4..4 + |rb|] == sig[2..2 + |body|][2..|rb| + 2];
    assert sig[0] == 0x30 && sig[1] == |body|;
    assert AddByte(|rb|, 2) == |rb| + 2 && AddByte(|rb|, 4) == |rb| + 4;
  }

  lemma {:induction false} DerExact(r: nat, s: nat)
    requires |Contents(r)| <= 33 && |Contents(s)| <= 33
    ensures var rb, sb := Contents(r), Contents(s);
      Der(r, s) == [0x30, 4 + |rb| + |sb|] + ([0x02, |rb|] + rb) + ([0x02, |sb|] + sb)
  {
    var m, n := |Contents(r)|, |Contents(s)|;
    assert m % 256 == m && n % 256 == n && (4 + m + n) % 256 == 4 + m + n;
  }

  /** The SEQUENCE of two encodings with exact length octets reads back as the two numbers. */
  lemma {:induction false} ShortRoundTrip(r: nat, s: nat, pad: seq<Byte>)
    requires |Contents(r)| <= 33 && |Contents(s)| <= 33
    ensures Parse(Der(r, s) + pad) == Points(r, s)
  {
    DerExact(r, s);
    ParseLayout(Contents(r), Contents(s), pad, Der(r, s) + pad);
    ContentsExact(r, []);
    ContentsExact(s, []);
  }

  lemma {:induction false} ReadsEncodings(der: seq<Byte>)
    ensures forall r: nat, s: nat, pad ::
      r < TWO_256 && s < TWO_256 && der == Der(r, s) + pad ==> Parse(der) == Points(r, s)
  {
    forall r: nat, s: nat, pad | r < TWO_256 && s < TWO_256 && der == Der(r, s) + pad
      ensures Parse(der) == Points(r, s)
    {
      DerFits(r, s);
      ShortRoundTrip(r, s, pad);
    }
  }

  /** Whatever follows an encoding of two 256-bit numbers, the reader returns those numbers. */
  method PointsFromDER(der: seq<Byte>) returns (p: Parsed)
    ensures p == Parse(der)
    ensures forall r: nat, s: nat, pad :: r < TWO_256 && s < TWO_256 && der == Der(r, s) + pad ==> p == Points(r, s)
  {
    ReadsEncodings(der);
    if |der| < 2 {
      return Panicked;
    }
    if der[0] % 32 == 31 || der[1] >= 0x80 {
      return NotShortForm;
    }
    var length := der[1];
    if 2 + length > |der| {
      return Panicked;
    }
    var bytes := der[2..2 + length];
    if |bytes| < 2 {
      return Panicked;
    }
    var rLen := bytes[1];
    // byte arithmetic wraps; a slice may extend past bytes to the end of der, its capacity
    var rEnd, sStart := AddByte(rLen, 2), AddByte(rLen, 4);
    if rEnd < 2 || rEnd > |der| - 2 {
      return Panicked;
    }
    var r := der[2..][2..rEnd];
    assert r == der[4..2 + rEnd];
    if sStart > |bytes| {
      return Panicked;
    }
    var s := bytes[sStart..];
    p := Points(FromBytes(r), FromBytes(s));
  }

  /** Reading back the padded signature gives exactly the two numbers. */
  lemma {:induction false} DerRoundTrip(r: nat, s: nat)
    requires r < TWO_256 && s < TWO_256
    ensures Parse(InSignature(Der(r, s))) == Points(r, s)
  {
    DerFits(r, s);
    ShortRoundTrip(r, s, Zeros(72 - |Der(r, s)|));
  }

  /** So different signatures have different encodings. */
  lemma {:induction false} DerInjective(r: nat, s: nat, r': nat, s': nat)
    requires r < TWO_256 && s < TWO_256 && r' < TWO_256 && s' < TWO_256
    requires InSignature(Der(r, s)) == InSignature(Der(r', s'))
    ensures r == r' && s == s'
  {
    DerRoundTrip(r, s);
    DerRoundTrip(r', s');
  }

  /** The all-zero signature that Sign returns for a hash of the wrong length makes the reader panic. */
  lemma {:induction false} ZeroSignaturePanics()
    ensures Parse(Zeros(72)) == Panicked
  {
    assert Zeros(72)[1] == 0;
  }

  /** Reading what Sign returns panics if and only if the hash has the wrong length; else it gives r and s. */
  lemma {:induction false} SignedReadsBackExactly(hash: seq<Byte>, r: nat, s: nat)
    requires r < TWO_256 && s < TWO_256
    ensures Parse(Signature(hash, r, s)) == Panicked <==> |hash| != 32
    ensures |hash| == 32 ==> Parse(Signature(hash, r, s)) == Points(r, s)
  {
    if |hash| == 32 {
      DerRoundTrip(r, s);
    } else {
      ZeroSignaturePanics();
    }
  }
}
