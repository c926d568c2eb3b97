/**
 Derived-key ECDH and the keys, tags and change images built on it.  The curve is any set of points with a group law
 and a point g of prime order; the hash, MAC and key derivation are any functions.
 */
module Keystone {
  import opened Wrappers
  import opened ByteStrings
  import opened Format
  import opened ModArith

  datatype Error =
    | BadPrevTxid | ZeroGeneratorValue | ZeroKey | ZeroSubKey | BadPoint | SubKeyAtInfinity | SecretAtInfinity
    | TagMismatch

  datatype Point = Infinity | Affine(x: int, y: int)

  datatype Group = Group(
    n: pos, g: Point, on: Point -> bool, add: (Point, Point) -> Point,
    compress: Point -> Bytes, parse: Bytes -> Option<Point>)

  datatype Suite = Suite(
    group: Group,
    sha: Bytes -> Bytes,
    hmac: (Bytes, Bytes) -> Bytes,
    hkdf: (Bytes, Bytes, Bytes) -> Bytes)

  // ---------------------------------------------------------------- scalars

  /** The first 32 octets, reduced modulo the order. */
  function ScalarOf(n: pos, b: Bytes): (s: nat)
    ensures s < n
  {
    FromBigEndian(if |b| <= 32 then b else b[..32]) % n
  }

  /** k times p. */
  function Times(gr: Group, k: nat, p: Point): Point {
    if k == 0 then Infinity else gr.add(p, Times(gr, k - 1, p))
  }

  // The laws hold on the curve; they are stated through predicates so that a proof names the instances it uses.

  ghost predicate ClosedAt(gr: Group, p: Point, q: Point) {
    gr.on(p) && gr.on(q) ==> gr.on(gr.add(p, q))
  }

  ghost predicate AssociativeAt(gr: Group, p: Point, q: Point, r: Point) {
    gr.on(p) && gr.on(q) && gr.on(r) ==> gr.add(gr.add(p, q), r) == gr.add(p, gr.add(q, r))
  }

  ghost predicate NeutralAt(gr: Group, p: Point) {
    gr.on(p) ==> gr.add(p, Infinity) == p && gr.add(Infinity, p) == p
  }

  /** A group on the curve in which g has prime order n. */
  ghost predicate PrimeOrder(gr: Group) {
    && Prime(gr.n) && gr.on(gr.g) && gr.on(Infinity)
    && (forall p, q :: ClosedAt(gr, p, q))
    && (forall p, q, r :: AssociativeAt(gr, p, q, r))
    && (forall p :: NeutralAt(gr, p))
    && gr.g != Infinity && Times(gr, gr.n, gr.g) == Infinity
  }

  /** Compressed encodings of the finite points of the curve parse back, and infinity has none. */
  ghost predicate Encodes(gr: Group) {
    && (forall p :: gr.on(p) && p != Infinity ==> gr.parse(gr.compress(p)) == Some(p))
    && (forall b :: gr.parse(b) != Some(Infinity))
  }

  lemma {:induction false} OnTimes(gr: Group, k: nat, p: Point)
    requires PrimeOrder(gr) && gr.on(p)
    ensures gr.on(Times(gr, k, p))
  {
    if k > 0 {
      OnTimes(gr, k - 1, p);
      assert ClosedAt(gr, p, Times(gr, k - 1, p));
    }
  }

  lemma {:induction false} TimesPlus(gr: Group, a: nat, b: nat, p: Point)
    requires PrimeOrder(gr) && gr.on(p)
    ensures Times(gr, a + b, p) == gr.add(Times(gr, a, p), Times(gr, b, p))
  {
    OnTimes(gr, b, p);
    if a == 0 {
      assert NeutralAt(gr, Times(gr, b, p));
    } else {
      TimesPlus(gr, a - 1, b, p);
      OnTimes(gr, a - 1, p);
      assert AssociativeAt(gr, p, Times(gr, a - 1, p), Times(gr, b, p));
    }
  }

  lemma {:induction false} TimesTimes(gr: Group, a: nat, b: nat, p: Point)
    requires PrimeOrder(gr) && gr.on(p)
    ensures Times(gr, a * b, p) == Times(gr, a, Times(gr, b, p))
  {
    if a > 0 {
      TimesTimes(gr, a - 1, b, p);
      TimesPlus(gr, b, (a - 1) * b, p);
      assert a * b == b + (a - 1) * b;
    }
  }

  lemma {:induction false} TimesInfinity(gr: Group, k: nat)
    requires PrimeOrder(gr)
    ensures Times(gr, k, Infinity) == Infinity
  {
    if k > 0 {
      TimesInfinity(gr, k - 1);
      assert NeutralAt(gr, Infinity);
    }
  }

  /** Scalars of the generator count modulo its order. */
  lemma TimesMod(gr: Group, k: nat)
    requires PrimeOrder(gr)
    ensures Times(gr, k % gr.n, gr.g) == Times(gr, k, gr.g)
  {
    var q, r := k / gr.n, k % gr.n;
    assert k == q * gr.n + r;
    TimesPlus(gr, q * gr.n, r, gr.g);
    TimesTimes(gr, q, gr.n, gr.g);
    TimesInfinity(gr, q);
    OnTimes(gr, r, gr.g);
    assert NeutralAt(gr, Times(gr, r, gr.g));
  }

  /** A multiple of the generator is infinity exactly when the order divides the scalar. */
  lemma TimesIsInfinity(gr: Group, k: nat)
    requires PrimeOrder(gr)
    ensures Times(gr, k, gr.g) == Infinity <==> Div(gr.n, k)
  {
    var n := gr.n;
    TimesMod(gr, k);
    if Times(gr, k, gr.g) == Infinity && !Div(n, k) {
      var x := InverseExists(n, k % n);
      var y: nat := x % n;
      MulMod(n, k % n, x);
      CongEq(n, (k % n) * x, 1);
      CongEq(n, (k % n) * y, 1);
      assert y * (k % n) == (k % n) * y;
      assert NeutralAt(gr, gr.g);
      assert Times(gr, 1, gr.g) == gr.g;
      TimesMod(gr, y * (k % n));
      TimesMod(gr, 1);
      TimesTimes(gr, y, k % n, gr.g);
      TimesInfinity(gr, y);
      assert false;
    }
  }

  // ---------------------------------------------------------------- the keystone

  function PubOf(gr: Group, scalar: nat): Bytes {
    gr.compress(Times(gr, scalar, gr.g))
  }

  function PubFromPriv(gr: Group, priv: Bytes): Bytes {
    PubOf(gr, ScalarOf(gr.n, priv))
  }

  /** subPubJ: P + gv G. */
  function SubPub(gr: Group, pub: Bytes, gv: nat): Result<Point, Error> {
    match gr.parse(pub)
    case None => Err(BadPoint)
    case Some(p) =>
      var p2 := gr.add(p, Times(gr, gv, gr.g));
      if p2 == Infinity then Err(SubKeyAtInfinity) else Ok(p2)
  }

  function CommonSecretOf(gr: Group, v: nat, otherPub: Bytes, gv: nat): Result<Bytes, Error> {
    if v == 0 then Err(ZeroKey)
    else
      var v2 := (v + gv) % gr.n;
      if v2 == 0 then Err(ZeroSubKey)
      else
        var p2 :- SubPub(gr, otherPub, gv);
        var cs := Times(gr, v2, p2);
        if cs == Infinity then Err(SecretAtInfinity) else Ok(gr.compress(cs))
  }

  function CommonSecret(gr: Group, priv: Bytes, otherPub: Bytes, gv: nat): Result<Bytes, Error> {
    CommonSecretOf(gr, ScalarOf(gr.n, priv), otherPub, gv)
  }

  lemma SmallNotMultiple(n: pos, u: nat)
    requires 0 < u < n
    ensures !Div(n, u)
  {
  }

  lemma ParsesBack(gr: Group, u: nat)
    requires PrimeOrder(gr) && Encodes(gr) && Times(gr, u, gr.g) != Infinity
    ensures gr.parse(PubOf(gr, u)) == Some(Times(gr, u, gr.g))
  {
    OnTimes(gr, u, gr.g);
  }

  lemma SubPubOf(gr: Group, u: nat, gv: nat)
    requires PrimeOrder(gr) && Encodes(gr) && 0 < u < gr.n
    ensures SubPub(gr, PubOf(gr, u), gv) ==
      if Div(gr.n, u + gv) then Err(SubKeyAtInfinity) else Ok(Times(gr, u + gv, gr.g))
  {
    SmallNotMultiple(gr.n, u);
    hide Div, Times, PrimeOrder, Encodes;
    TimesIsInfinity(gr, u);
    ParsesBack(gr, u);
    TimesPlus(gr, u, gv, gr.g);
    TimesIsInfinity(gr, u + gv);
  }

  /** What one side computes from its own scalar v and the other side's scalar u. */
  lemma OneSide(gr: Group, v: nat, u: nat, gv: nat)
    requires PrimeOrder(gr) && Encodes(gr)
    requires 0 < v < gr.n && 0 < u < gr.n
    ensures CommonSecretOf(gr, v, PubOf(gr, u), gv) ==
      if Div(gr.n, v + gv) then Err(ZeroSubKey)
      else if Div(gr.n, u + gv) then Err(SubKeyAtInfinity)
      else Ok(gr.compress(Times(gr, (v + gv) * (u + gv), gr.g)))
  {
    SubPubOf(gr, u, gv);
    TimesReduced(gr, v + gv, u + gv);
    FiniteProduct(gr, v + gv, u + gv);
  }

  lemma GeneratorOn(gr: Group)
    requires PrimeOrder(gr)
    ensures gr.on(gr.g)
  {
  }

  lemma TimesReduced(gr: Group, a: nat, b: nat)
    requires PrimeOrder(gr)
    ensures Times(gr, a % gr.n, Times(gr, b, gr.g)) == Times(gr, a * b, gr.g)
  {
    hide PrimeOrder, Times;
    GeneratorOn(gr);
    var r := a % gr.n;
    var p, q := r * b, a * b;
    assert p % gr.n == q % gr.n by {
      MulMod(gr.n, a, b);
    }
    assert Times(gr, r, Times(gr, b, gr.g)) == Times(gr, p, gr.g) by {
      TimesTimes(gr, r, b, gr.g);
    }
    SameResidue(gr, p, q);
  }

  lemma FiniteProduct(gr: Group, a: nat, b: nat)
    requires PrimeOrder(gr)
    ensures !Div(gr.n, a) && !Div(gr.n, b) ==> Times(gr, a * b, gr.g) != Infinity
  {
    TimesIsInfinity(gr, a * b);
    if Div(gr.n, a * b) {
      PrimeDividesProduct(gr.n, a, b);
    }
  }

  lemma SameResidue(gr: Group, p: nat, q: nat)
    requires PrimeOrder(gr) && p % gr.n == q % gr.n
    ensures Times(gr, p, gr.g) == Times(gr, q, gr.g)
  {
    TimesMod(gr, p);
    TimesMod(gr, q);
  }

  /**
   Writer and counterparty reach the same secret; one of them fails exactly when the other does, which is
   when a derived scalar is zero; and the last infinity check never fires.
   */
  lemma EcdhAgrees(gr: Group, writer: Bytes, counterparty: Bytes, gv: nat)
    requires PrimeOrder(gr) && Encodes(gr)
    requires ScalarOf(gr.n, writer) != 0 && ScalarOf(gr.n, counterparty) != 0
    ensures var w := CommonSecret(gr, writer, PubFromPriv(gr, counterparty), gv);
      var c := CommonSecret(gr, counterparty, PubFromPriv(gr, writer), gv);
      && (w.Err? <==> c.Err?)
      && (w.Err? <==> Div(gr.n, ScalarOf(gr.n, writer) + gv) || Div(gr.n, ScalarOf(gr.n, counterparty) + gv))
      && (w.Ok? ==> w == c)
      && w != Err(SecretAtInfinity) && c != Err(SecretAtInfinity)
  {
    var v, u := ScalarOf(gr.n, writer), ScalarOf(gr.n, counterparty);
    OneSide(gr, v, u, gv);
    OneSide(gr, u, v, gv);
    assert (v + gv) * (u + gv) == (u + gv) * (v + gv);
  }

  // ---------------------------------------------------------------- groups with keys of fixed size

  function Residue(k: nat): Point {
    if k == 0 then Infinity else Affine(k, 0)
  }

  function ValueOf(p: Point): nat {
    match p
    case Infinity => 0
    case Affine(x, _) => if x > 0 then x else 0
  }

  function AddResidues(n: pos, a: nat, b: nat): nat {
    if a + b < n then a + b else a + b - n
  }

  function ParseResidue(n: pos, b: Bytes): Option<Point> {
    if |b| == 33 && b[0] == 2 && 0 < FromBigEndian(b[1..]) < n then Some(Affine(FromBigEndian(b[1..]), 0)) else None
  }

  /** The residues modulo n, written in 33 octets like compressed keys. */
  function Residues(n: pos): Group {
    Group(n, Affine(1, 0),
          (p: Point) => p == Infinity || (p.y == 0 && 0 < p.x < n),
          (p: Point, q: Point) => Residue(AddResidues(n, ValueOf(p), ValueOf(q))),
          (p: Point) => [2] + BigEndian(ValueOf(p), 32),
          (b: Bytes) => ParseResidue(n, b))
  }

  /** The laws asked of the curve go together with keys of 33 octets: a group of each prime order has both. */
  lemma FixedSizeKeys(n: pos)
    requires Prime(n) && n <= Pow256(32)
    ensures var gr := Residues(n); PrimeOrder(gr) && Encodes(gr) && forall p :: |gr.compress(p)| == 33
  {
    hide Div, Times, Pow256, BigEndian, AssociativeAt, ClosedAt, NeutralAt;
    var gr := Residues(n);
    TimesResidue(n, n);
    forall p, q ensures ClosedAt(gr, p, q) {
      ResidueClosed(n, p, q);
    }
    forall p, q, r ensures AssociativeAt(gr, p, q, r) {
      ResidueAssociative(n, p, q, r);
    }
    forall p ensures NeutralAt(gr, p) {
      ResidueNeutral(n, p);
    }
    forall p | gr.on(p) && p != Infinity ensures gr.parse(gr.compress(p)) == Some(p) {
      FromToBigEndian(p.x, 32);
      assert gr.compress(p)[1..] == BigEndian(p.x, 32);
    }
  }

  lemma ResidueClosed(n: pos, p: Point, q: Point)
    ensures ClosedAt(Residues(n), p, q)
  {
  }

  lemma ResidueAssociative(n: pos, p: Point, q: Point, r: Point)
    ensures AssociativeAt(Residues(n), p, q, r)
  {
  }

  lemma ResidueNeutral(n: pos, p: Point)
    ensures NeutralAt(Residues(n), p)
  {
  }

  lemma {:induction false} TimesResidue(n: pos, k: nat)
    requires n >= 2 && k <= n
    ensures Times(Residues(n), k, Affine(1, 0)) == Residue(if k < n then k else 0)
  {
    if k > 0 {
      TimesResidue(n, k - 1);
    }
  }

  /** SHA-256 of the message, as a scalar. */
  function GeneratorValue(s: Suite, m: ChangeMessage): Result<nat, Error> {
    if !LinkSize(m.prevTxid) then Err(BadPrevTxid)
    else
      var gv := ScalarOf(s.group.n, s.sha(MessageBytes(m)));
      if gv == 0 then Err(ZeroGeneratorValue) else Ok(gv)
  }

  /** "TE/hmac/v1". */
  const HMAC_INFO: Bytes := [0x54, 0x45, 0x2f, 0x68, 0x6d, 0x61, 0x63, 0x2f, 0x76, 0x31]

  function DeriveHmacKey(s: Suite, cs: Bytes, m: ChangeMessage): Bytes {
    s.hkdf(m.tableId + m.rowId + m.columnId, cs, HMAC_INFO + U64Bytes(m.seqNo))
  }

  /** The tag of a change: generator value, common secret, HMAC key, MAC of the image. */
  function RecordTag(s: Suite, priv: Bytes, otherPub: Bytes, m: ChangeMessage, image: Bytes)
    : Result<Bytes, Error>
  {
    var gv :- GeneratorValue(s, m);
    var cs :- CommonSecret(s.group, priv, otherPub, gv);
    Ok(s.hmac(DeriveHmacKey(s, cs, m), image))
  }

  /** How records are tagged, as the writer and the verifiers that hold its keys see it. */
  type Tagger = (Bytes, Bytes, ChangeMessage, Bytes) -> Result<Bytes, Error>

  function TaggerOf(s: Suite): Tagger {
    (priv: Bytes, otherPub: Bytes, m: ChangeMessage, image: Bytes) => RecordTag(s, priv, otherPub, m, image)
  }

  /** What every verifier does first: recompute the tag of a record and compare. */
  function CheckTag(tagger: Tagger, priv: Bytes, otherPub: Bytes, rec: FieldRecord): (e: Option<Error>)
    ensures e == None <==> tagger(priv, otherPub, rec.message, rec.changeImage) == Ok(rec.tag)
  {
    match tagger(priv, otherPub, rec.message, rec.changeImage)
    case Err(e) => Some(e)
    case Ok(tag) => if tag == rec.tag then None else Some(TagMismatch)
  }

  /** Every tag has 32 octets. */
  ghost predicate SizedTagger(tagger: Tagger) {
    forall priv, otherPub, m, image :: tagger(priv, otherPub, m, image).Ok? ==> |tagger(priv, otherPub, m, image).value| == 32
  }

  lemma TaggerIsSized(s: Suite)
    requires forall k, d :: |s.hmac(k, d)| == 32
    ensures SizedTagger(TaggerOf(s))
  {
  }

  /** An auditor recomputes the writer's tag from the counterparty's key, for every message and image. */
  lemma AuditorTag(s: Suite, writer: Bytes, counterparty: Bytes, m: ChangeMessage, image: Bytes)
    requires PrimeOrder(s.group) && Encodes(s.group)
    requires ScalarOf(s.group.n, writer) != 0 && ScalarOf(s.group.n, counterparty) != 0
    ensures var w := RecordTag(s, writer, PubFromPriv(s.group, counterparty), m, image);
      var c := RecordTag(s, counterparty, PubFromPriv(s.group, writer), m, image);
      (w.Err? <==> c.Err?) && (w.Ok? ==> w == c)
  {
    var gv := GeneratorValue(s, m);
    if gv.Ok? {
      EcdhAgrees(s.group, writer, counterparty, gv.value);
    }
  }

  /** The key of a record's MAC, from the message's names, the shared secret, and "TE/hmac/v1" with the number. */
  lemma HmacKeyIs(s: Suite, cs: Bytes, m: ChangeMessage)
    ensures DeriveHmacKey(s, cs, m) ==
      s.hkdf(m.tableId + m.rowId + m.columnId, cs,
             [0x54, 0x45, 0x2f, 0x68, 0x6d, 0x61, 0x63, 0x2f, 0x76, 0x31] + BigEndian(m.seqNo, 8))
  {
  }

  /** Scalars and keys of 32 octets. */
  lemma ScalarIs(gr: Group, priv: Bytes)
    requires |priv| == 32
    ensures ScalarOf(gr.n, priv) == FromBigEndian(priv) % gr.n
    ensures PubFromPriv(gr, priv) == gr.compress(Times(gr, FromBigEndian(priv) % gr.n, gr.g))
  {
  }

  /**
   What the tag of a record is.  With v and u the scalars of the two parties and gv the hash of the message, all
   modulo n, it is the MAC of the image under the key derived from the compressed point (v + gv)(u + gv) G.
   */
  lemma TagIs(s: Suite, writer: Bytes, counterparty: Bytes, m: ChangeMessage, image: Bytes)
    requires PrimeOrder(s.group) && Encodes(s.group) && LinkSize(m.prevTxid)
    requires |writer| == |counterparty| == |s.sha(MessageBytes(m))| == 32
    requires FromBigEndian(writer) % s.group.n != 0 && FromBigEndian(counterparty) % s.group.n != 0
    ensures var gr := s.group;
      var v, u := FromBigEndian(writer) % gr.n, FromBigEndian(counterparty) % gr.n;
      var gv := FromBigEndian(s.sha(MessageBytes(m))) % gr.n;
      var other := gr.compress(Times(gr, u, gr.g));
      RecordTag(s, writer, other, m, image) ==
        if gv == 0 then Err(ZeroGeneratorValue)
        else if (v + gv) % gr.n == 0 then Err(ZeroSubKey)
        else if (u + gv) % gr.n == 0 then Err(SubKeyAtInfinity)
        else
          var secret := gr.compress(Times(gr, (v + gv) * (u + gv), gr.g));
          Ok(s.hmac(s.hkdf(m.tableId + m.rowId + m.columnId, secret,
                           [0x54, 0x45, 0x2f, 0x68, 0x6d, 0x61, 0x63, 0x2f, 0x76, 0x31] + BigEndian(m.seqNo, 8)), image))
  {
    hide PrimeOrder, Encodes, Times, FromBigEndian, BigEndian, CommonSecretOf, MessageBytes, ScalarOf, DeriveHmacKey, Prime;
    var gr := s.group;
    ScalarIs(gr, writer);
    ScalarIs(gr, counterparty);
    ScalarIs(gr, s.sha(MessageBytes(m)));
    var gv := GeneratorValue(s, m);
    if gv.Ok? {
      OneSide(gr, ScalarOf(gr.n, writer), ScalarOf(gr.n, counterparty), gv.value);
      var secret := CommonSecret(gr, writer, PubFromPriv(gr, counterparty), gv.value);
      if secret.Ok? {
        HmacKeyIs(s, secret.value, m);
      }
    }
  }

  /** A message with a link of the wrong size has no tag. */
  lemma BadLinkHasNoTag(s: Suite, priv: Bytes, pub: Bytes, m: ChangeMessage, image: Bytes)
    requires |m.prevTxid| != 0 && |m.prevTxid| != 32
    ensures RecordTag(s, priv, pub, m, image) == Err(BadPrevTxid)
  {
  }

  /**
   A tag covers its image: if two changes have one tag under one pair of keys, they have one image and one MAC key, or
   the MAC collides on the two pairs of key and image named here.
   */
  lemma TagBinds(s: Suite, priv: Bytes, pub: Bytes, m: ChangeMessage, image: Bytes, m': ChangeMessage, image': Bytes)
    returns (cs: Bytes, cs': Bytes)
    requires RecordTag(s, priv, pub, m, image).Ok? && RecordTag(s, priv, pub, m, image) == RecordTag(s, priv, pub, m', image')
    ensures GeneratorValue(s, m).Ok? && CommonSecret(s.group, priv, pub, GeneratorValue(s, m).value) == Ok(cs)
    ensures GeneratorValue(s, m').Ok? && CommonSecret(s.group, priv, pub, GeneratorValue(s, m').value) == Ok(cs')
    ensures var key := s.hkdf(m.tableId + m.rowId + m.columnId, cs, HMAC_INFO + BigEndian(m.seqNo, 8));
      var key' := s.hkdf(m'.tableId + m'.rowId + m'.columnId, cs', HMAC_INFO + BigEndian(m'.seqNo, 8));
      || (image == image' && key == key')
      || ((key, image) != (key', image') && s.hmac(key, image) == s.hmac(key', image'))
  {
    hide GeneratorValue, CommonSecret;
    cs := CommonSecret(s.group, priv, pub, GeneratorValue(s, m).value).value;
    cs' := CommonSecret(s.group, priv, pub, GeneratorValue(s, m').value).value;
    HmacKeyIs(s, cs, m);
    HmacKeyIs(s, cs', m');
  }

  // ---------------------------------------------------------------- change images

  /** "CTO/commit/v1". */
  const COMMIT_DOMAIN: Bytes := [0x43, 0x54, 0x4f, 0x2f, 0x63, 0x6f, 0x6d, 0x6d, 0x69, 0x74, 0x2f, 0x76, 0x31]

  function Commit(sha: Bytes -> Bytes, value: Bytes, blind: Bytes): Bytes {
    sha(COMMIT_DOMAIN + (blind + value))
  }

  function ChangeImage(sha: Bytes -> Bytes, kind: byte, value: Bytes, blind: Bytes): Bytes {
    if kind == IMAGE_PLAINTEXT then Prefixed(value) else Commit(sha, value, blind)
  }

  /** A plaintext image is the length and the value; a commitment hashes "CTO/commit/v1", the blinding and the value. */
  lemma ImageIs(sha: Bytes -> Bytes, value: Bytes, blind: Bytes)
    ensures ChangeImage(sha, 0, value, blind) == BigEndian(|value|, 4) + value
    ensures ChangeImage(sha, 1, value, blind) ==
      sha([0x43, 0x54, 0x4f, 0x2f, 0x63, 0x6f, 0x6d, 0x6d, 0x69, 0x74, 0x2f, 0x76, 0x31] + (blind + value))
  {
  }

  /** Two openings of one commitment are the same, or SHA-256 collides on the inputs named. */
  lemma CommitBinds(sha: Bytes -> Bytes, v: Bytes, r: Bytes, v': Bytes, r': Bytes)
    requires |r| == |r'| == 32 && Commit(sha, v, r) == Commit(sha, v', r')
    ensures
      || (v == v' && r == r')
      || (COMMIT_DOMAIN + (r + v) != COMMIT_DOMAIN + (r' + v')
          && sha(COMMIT_DOMAIN + (r + v)) == sha(COMMIT_DOMAIN + (r' + v')))
  {
    var a, b := r + v, r' + v';
    if COMMIT_DOMAIN + a == COMMIT_DOMAIN + b {
      assert a == (COMMIT_DOMAIN + a)[|COMMIT_DOMAIN|..];
      assert b == (COMMIT_DOMAIN + b)[|COMMIT_DOMAIN|..];
      assert r == a[..32] && r' == b[..32] && v == a[32..] && v' == b[32..];
    }
  }
}
