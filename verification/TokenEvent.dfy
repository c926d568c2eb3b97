/** Token definitions and the event image that every token record carries. */
module TokenEvent {
  import opened Wrappers
  import opened ByteStrings
  import opened Format
  import GoCodec
  import Utf8

  const MINT: byte := 1
  const TRANSFER: byte := 2
  const REDEEM: byte := 3

  /** "issuer-backed" is the default, 0. */
  datatype Backing = IssuerBacked | SatoshiTagged | Pegged | OtherBacking

  /** external says whether an adapter linkage is declared. */
  datatype Definition = Definition(
    typeId: Bytes, unit: Bytes, decimals: int, backing: Backing, rateMicro: u64, minSats: u64, external: bool)

  datatype Event = Event(
    typeId: Bytes, unit: Bytes, backing: byte, decimals: byte, value: u64, rate: u64, controllerPub: Bytes,
    hasExternal: bool, kind: byte)

  /**
   The satoshis a token value is bound to: the largest of one, the minimum, and the value times the rate in
   millionths, multiplied in 64 bits and rounded down.
   */
  function SatoshiQuantity(d: Definition, value: u64): (q: u64)
    ensures var product := value * d.rateMicro % TWO_64 / 1_000_000;
      && q >= 1 && q >= d.minSats && q >= product
      && (q == 1 || q == d.minSats || q == product)
  {
    var q := value * d.rateMicro % TWO_64 / 1_000_000;
    var q := if q < d.minSats then d.minSats else q;
    if q == 0 then 1 else q
  }

  function BackingByte(b: Backing): byte {
    match b
    case SatoshiTagged => 1
    case Pegged => 2
    case _ => 0
  }

  /** The journalling operation of an event. */
  function OpOf(kind: byte): byte {
    if kind == MINT then OP_INSERT else if kind == TRANSFER then OP_UPDATE else OP_DELETE
  }

  // ---------------------------------------------------------------- the image

  function EventOf(d: Definition, value: u64, pub: Bytes, kind: byte): Event {
    Event(d.typeId, d.unit, BackingByte(d.backing), d.decimals % 0x100, value, d.rateMicro, pub, d.external, kind)
  }

  function HolderBytes(pub: Bytes, external: bool, kind: byte): Bytes {
    Prefixed(pub) + ([if external then 1 else 0] + [kind])
  }

  function TermsBytes(e: Event): Bytes {
    [e.backing] + ([e.decimals] + (U64Bytes(e.value) + (U64Bytes(e.rate) +
    HolderBytes(e.controllerPub, e.hasExternal, e.kind))))
  }

  function EventBytes(e: Event): Bytes {
    Prefixed(e.typeId) + (Prefixed(e.unit) + TermsBytes(e))
  }

  method EncodeEvent(d: Definition, value: u64, pub: Bytes, kind: byte) returns (image: Bytes)
    ensures image == EventBytes(EventOf(d, value, pub, kind))
  {
    var backing := BackingByte(d.backing);
    var ext: byte := 0;
    if d.external {
      ext := 1;
    }
    var w := new GoCodec.Writer();
    w.Str(d.typeId);
    w.Str(d.unit);
    w.U8(backing);
    w.U8(d.decimals % 0x100);
    w.U64(value);
    w.U64(d.rateMicro);
    w.Octets(pub);
    w.U8(ext);
    w.U8(kind);
    EventLayout(EventOf(d, value, pub, kind), ext);
    return w.b;
  }

  /** The pieces of the image one after the other. */
  lemma EventLayout(e: Event, ext: byte)
    requires ext == if e.hasExternal then 1 else 0
    ensures [] + Prefixed(e.typeId) + Prefixed(e.unit) + [e.backing] + [e.decimals] + U64Bytes(e.value) + U64Bytes(e.rate) +
      Prefixed(e.controllerPub) + [ext] + [e.kind] == EventBytes(e)
  {
    hide Prefixed, U64Bytes;
    var names := Prefixed(e.typeId) + Prefixed(e.unit);
    var holder := HolderBytes(e.controllerPub, e.hasExternal, e.kind);
    assert [] + Prefixed(e.typeId) == Prefixed(e.typeId);
    GoCodec.LeftNested4(names, [e.backing], [e.decimals], U64Bytes(e.value), U64Bytes(e.rate));
    var terms := names + ([e.backing] + ([e.decimals] + (U64Bytes(e.value) + U64Bytes(e.rate))));
    assert terms + Prefixed(e.controllerPub) + [ext] + [e.kind] == terms + holder;
    AppendTerms(names, e);
  }

  lemma AppendTerms(names: Bytes, e: Event)
    ensures names + ([e.backing] + ([e.decimals] + (U64Bytes(e.value) + U64Bytes(e.rate)))) +
      HolderBytes(e.controllerPub, e.hasExternal, e.kind) == names + TermsBytes(e)
  {
    hide U64Bytes, HolderBytes;
  }

  function ParseHolder(s: Bytes): Option<(Bytes, bool, byte)> {
    var (pub, s) :- TakePrefixed(s);
    var (ext, s) :- TakeU8(s);
    var (kind, s) :- TakeU8(s);
    if s == [] then Some((pub, ext == 1, kind)) else None
  }

  function ParseTerms(s: Bytes): Option<(byte, byte, u64, u64, (Bytes, bool, byte))> {
    var (backing, s) :- TakeU8(s);
    var (decimals, s) :- TakeU8(s);
    var (value, s) :- TakeU64(s);
    var (rate, s) :- TakeU64(s);
    var holder :- ParseHolder(s);
    Some((backing, decimals, value, rate, holder))
  }

  function ParseEvent(s: Bytes): Option<Event> {
    var (typeId, s) :- TakeString(s);
    var (unit, s) :- TakeString(s);
    var (backing, decimals, value, rate, (pub, external, kind)) :- ParseTerms(s);
    Some(Event(typeId, unit, backing, decimals, value, rate, pub, external, kind))
  }

  method ReadHolder(rd: GoCodec.Reader) returns (r: Result<(Bytes, bool, byte), GoCodec.Error>)
    requires rd.Valid()
    modifies rd
    ensures old(rd.err).Some? ==> r.Err?
    ensures old(rd.err) == None ==>
      match old(ParseHolder(rd.Rest()))
      case None => r.Err?
      case Some(p) => r == Ok(p)
  {
    var pub := rd.Octets();
    var ext := rd.U8();
    var kind := rd.U8();
    var e := rd.End();
    if e.Some? {
      return Err(e.value);
    }
    return Ok((pub, ext == 1, kind));
  }

  method ReadTerms(rd: GoCodec.Reader) returns (r: Result<(byte, byte, u64, u64, (Bytes, bool, byte)), GoCodec.Error>)
    requires rd.Valid()
    modifies rd
    ensures old(rd.err).Some? ==> r.Err?
    ensures old(rd.err) == None ==>
      match old(ParseTerms(rd.Rest()))
      case None => r.Err?
      case Some(p) => r == Ok(p)
  {
    var backing := rd.U8();
    var decimals := rd.U8();
    var value := rd.U64();
    var rate := rd.U64();
    var holder :- ReadHolder(rd);
    return Ok((backing, decimals, value, rate, holder));
  }

  method DecodeEvent(image: Bytes) returns (r: Result<Event, GoCodec.Error>)
    ensures match ParseEvent(image)
      case None => r.Err?
      case Some(e) => r == Ok(e)
  {
    var rd := new GoCodec.Reader(image);
    var typeId := rd.Str();
    var unit := rd.Str();
    var terms :- ReadTerms(rd);
    var (pub, external, kind) := terms.4;
    return Ok(Event(typeId, unit, terms.0, terms.1, terms.2, terms.3, pub, external, kind));
  }

  // ---------------------------------------------------------------- round trip

  /** The octets of an event, field by field; an unknown backing is written as the first kind. */
  lemma EventImageIs(d: Definition, value: u64, pub: Bytes, kind: byte)
    ensures EventBytes(EventOf(d, value, pub, kind)) ==
      (BigEndian(|d.typeId|, 4) + d.typeId) + ((BigEndian(|d.unit|, 4) + d.unit) +
      ([if d.backing == SatoshiTagged then 1 else if d.backing == Pegged then 2 else 0] + ([d.decimals % 0x100] +
      (BigEndian(value, 8) + (BigEndian(d.rateMicro, 8) + ((BigEndian(|pub|, 4) + pub) +
      ([if d.external then 1 else 0] + [kind])))))))
  {
    hide BigEndian;
  }

  /** Mint, transfer and redemption are journalled as insert, update and delete. */
  lemma OpOfEvents()
    ensures OpOf(1) == 1 && OpOf(2) == 2 && OpOf(3) == 3
  {
  }

  predicate SizedEvent(e: Event) {
    Fits(e.typeId) && Fits(e.unit) && Fits(e.controllerPub)
  }

  predicate TextEvent(e: Event) {
    Utf8.Valid(e.typeId) && Utf8.Valid(e.unit)
  }

  lemma EventLength(e: Event)
    ensures |EventBytes(e)| == 32 + |e.typeId| + |e.unit| + |e.controllerPub|
  {
  }

  lemma TakeAfterU8(x: byte, rest: Bytes)
    ensures TakeU8([x] + rest) == Some((x, rest))
  {
    assert ([x] + rest)[1..] == rest;
  }

  lemma HolderRoundTrip(pub: Bytes, external: bool, kind: byte)
    requires Fits(pub)
    ensures ParseHolder(HolderBytes(pub, external, kind)) == Some((pub, external, kind))
  {
    var ext: byte := if external then 1 else 0;
    TakeAfterPrefixed(pub, [ext] + [kind]);
    TakeAfterU8(ext, [kind]);
    assert [kind] + [] == [kind];
    TakeAfterU8(kind, []);
  }

  lemma TermsRoundTrip(e: Event)
    requires Fits(e.controllerPub)
    ensures ParseTerms(TermsBytes(e)) ==
      Some((e.backing, e.decimals, e.value, e.rate, (e.controllerPub, e.hasExternal, e.kind)))
  {
    var holder := HolderBytes(e.controllerPub, e.hasExternal, e.kind);
    TakeAfterU8(e.backing, [e.decimals] + (U64Bytes(e.value) + (U64Bytes(e.rate) + holder)));
    TakeAfterU8(e.decimals, U64Bytes(e.value) + (U64Bytes(e.rate) + holder));
    TakeAfterU64(e.value, U64Bytes(e.rate) + holder);
    TakeAfterU64(e.rate, holder);
    HolderRoundTrip(e.controllerPub, e.hasExternal, e.kind);
  }

  /** The encoder takes any octets for text: an event reads back exactly when its names are UTF-8. */
  lemma EventRoundTrip(e: Event)
    requires SizedEvent(e)
    ensures ParseEvent(EventBytes(e)) == if TextEvent(e) then Some(e) else None
  {
    hide Prefixed, TakePrefixed, TermsBytes, ParseTerms, Utf8.Valid;
    TakeAfterPrefixed(e.typeId, Prefixed(e.unit) + TermsBytes(e));
    TakeAfterPrefixed(e.unit, TermsBytes(e));
    TermsRoundTrip(e);
  }

  /** Images that fit tell their events apart, if one of them is text. */
  lemma EventInjective(e: Event, f: Event)
    requires SizedEvent(e) && SizedEvent(f) && TextEvent(f) && EventBytes(e) == EventBytes(f)
    ensures e == f
  {
    hide EventBytes, ParseEvent;
    EventRoundTrip(e);
    EventRoundTrip(f);
  }

  lemma HolderInverse(s: Bytes)
    requires ParseHolder(s).Some?
    ensures var (pub, external, kind) := ParseHolder(s).value;
      var n := |s| - 2;
      && Fits(pub) && n >= 0 && s == Prefixed(pub) + ([s[n]] + [kind]) && (external <==> s[n] == 1)
  {
    TakePrefixedInverse(s);
    var rest := TakePrefixed(s).value.1;
    assert rest == [rest[0]] + rest[1..];
    assert rest[1..] == [rest[1]];
  }

  /** The terms with x in place of the octet that says whether there is a linkage. */
  function FlaggedTerms(e: Event, x: byte): Bytes {
    [e.backing] + ([e.decimals] + (U64Bytes(e.value) + (U64Bytes(e.rate) +
    (Prefixed(e.controllerPub) + ([x] + [e.kind])))))
  }

  lemma FlaggedAs(e: Event, x: byte)
    ensures FlaggedTerms(e, x) == [e.backing] + ([e.decimals] + (U64Bytes(e.value) + (U64Bytes(e.rate) +
      (Prefixed(e.controllerPub) + ([x] + [e.kind])))))
  {
  }

  lemma TermsInverse(s: Bytes, e: Event)
    requires ParseTerms(s) == Some((e.backing, e.decimals, e.value, e.rate, (e.controllerPub, e.hasExternal, e.kind)))
    ensures var n := |s| - 2;
      n >= 0 && s == FlaggedTerms(e, s[n]) && (e.hasExternal <==> s[n] == 1)
  {
    var s2 := s[2..];
    assert s[1..][1..] == s2;
    TakeU64Inverse(s2);
    var s3 := TakeU64(s2).value.1;
    TakeU64Inverse(s3);
    var s4 := TakeU64(s3).value.1;
    HolderInverse(s4);
    var x := s4[|s4| - 2];
    hide *;
    assert s == [s[0]] + ([s[1]] + s2);
    FlaggedAs(e, x);
    assert s == FlaggedTerms(e, x);
    FlagAt(e, x);
  }

  lemma FlagAt(e: Event, x: byte)
    ensures var s := FlaggedTerms(e, x); |s| >= 2 && s[|s| - 2] == x
  {
    var holder := Prefixed(e.controllerPub) + ([x] + [e.kind]);
    assert holder[|holder| - 2] == x;
    assert FlaggedTerms(e, x)[18..] == holder;
  }

  /**
   The event decoder is not canonical: it reads any flag but 1 as no linkage.  An accepted image is the
   encoding of its event exactly when its flag, the octet before the last, is 0 or 1.
   */
  lemma AcceptedEvent(s: Bytes)
    requires ParseEvent(s).Some?
    ensures |s| >= 2 && (s == EventBytes(ParseEvent(s).value) <==> s[|s| - 2] <= 1)
  {
    hide ParseTerms, TermsBytes, Prefixed, TakePrefixed, Utf8.Valid;
    var e := ParseEvent(s).value;
    TakePrefixedInverse(s);
    var s1 := TakePrefixed(s).value.1;
    TakePrefixedInverse(s1);
    var s2 := TakePrefixed(s1).value.1;
    assert TakeString(s) == Some((e.typeId, s1)) && TakeString(s1) == Some((e.unit, s2));
    var t := ParseTerms(s2).value;
    assert t == (t.0, t.1, t.2, t.3, (t.4.0, t.4.1, t.4.2));
    FlagDecides(e, s2, Prefixed(e.typeId), Prefixed(e.unit));
  }

  lemma FlagDecides(e: Event, terms: Bytes, typeId: Bytes, unit: Bytes)
    requires ParseTerms(terms) == Some((e.backing, e.decimals, e.value, e.rate, (e.controllerPub, e.hasExternal, e.kind)))
    ensures var s := typeId + (unit + terms);
      |s| >= 2 && (s == typeId + (unit + TermsBytes(e)) <==> s[|s| - 2] <= 1)
  {
    hide ParseTerms, TermsBytes;
    TermsInverse(terms, e);
    var x := terms[|terms| - 2];
    var flag: byte := if e.hasExternal then 1 else 0;
    assert TermsBytes(e) == FlaggedTerms(e, flag) by {
      TermsAreFlagged(e);
    }
    FlagAt(e, flag);
    var s := typeId + (unit + terms);
    assert s[|s| - 2] == x;
    assert s[|typeId| + |unit|..] == terms;
    var canonical := typeId + (unit + TermsBytes(e));
    assert canonical[|typeId| + |unit|..] == TermsBytes(e);
  }

  lemma TermsAreFlagged(e: Event)
    ensures TermsBytes(e) == FlaggedTerms(e, if e.hasExternal then 1 else 0)
  {
  }
}
