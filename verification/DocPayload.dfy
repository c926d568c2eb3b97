/** Document automata and the state image that every document record carries. */
module DocPayload {
  import opened Wrappers
  import opened ByteStrings
  import opened Format
  import GoCodec
  import Utf8

  // ---------------------------------------------------------------- automata

  datatype Transition = Transition(from: Bytes, event: Bytes, to: Bytes)

  datatype Automaton = Automaton(initial: Bytes, final: seq<Bytes>, transitions: seq<Transition>)

  predicate Fires(t: Transition, from: Bytes, event: Bytes) {
    t.from == from && t.event == event
  }

  /** The target of the first transition that fires. */
  function Next(ts: seq<Transition>, from: Bytes, event: Bytes): Option<Bytes> {
    if ts == [] then None
    else if Fires(ts[0], from, event) then Some(ts[0].to)
    else Next(ts[1..], from, event)
  }

  /** In a table with two rows for one state and event, only the first row counts. */
  lemma {:induction false} NextIsFirst(ts: seq<Transition>, from: Bytes, event: Bytes)
    ensures Next(ts, from, event) == None <==> forall t <- ts :: !Fires(t, from, event)
    ensures Next(ts, from, event).Some? ==> exists i ::
      && 0 <= i < |ts| && Fires(ts[i], from, event) && ts[i].to == Next(ts, from, event).value
      && forall j :: 0 <= j < i ==> !Fires(ts[j], from, event)
    ensures forall t: Transition :: Fires(t, from, event) <==> t.from == from && t.event == event
  {
    if ts != [] && !Fires(ts[0], from, event) {
      NextIsFirst(ts[1..], from, event);
      if Next(ts[1..], from, event).Some? {
        var i :| 0 <= i < |ts| - 1 && Fires(ts[1..][i], from, event) && ts[1..][i].to == Next(ts, from, event).value
          && forall j :: 0 <= j < i ==> !Fires(ts[1..][j], from, event);
        forall j | 0 <= j < i + 1 ensures !Fires(ts[j], from, event) {
          assert j > 0 ==> ts[j] == ts[1..][j - 1];
        }
        assert Fires(ts[i + 1], from, event);
      } else {
        forall t | t in ts ensures !Fires(t, from, event) {
          assert t == ts[0] || t in ts[1..];
        }
      }
    } else if ts != [] {
      assert ts[0] in ts;
    }
  }

  /** next: the table searched from the top. */
  method FindNext(ts: seq<Transition>, from: Bytes, event: Bytes) returns (to: Option<Bytes>)
    ensures to == Next(ts, from, event)
  {
    for i := 0 to |ts|
      invariant Next(ts, from, event) == Next(ts[i..], from, event)
    {
      if ts[i].from == from && ts[i].event == event {
        return Some(ts[i].to);
      }
      assert ts[i..][1..] == ts[i + 1..];
    }
    return None;
  }

  // ---------------------------------------------------------------- the image

  datatype Payload = Payload(
    docType: Bytes, objectId: Bytes, state: Bytes, refs: seq<Bytes>, bodyHash: Bytes, controllerPub: Bytes)

  function RefsBytes(refs: seq<Bytes>): Bytes {
    if refs == [] then [] else Prefixed(refs[0]) + RefsBytes(refs[1..])
  }

  lemma {:induction false} RefsAppend(refs: seq<Bytes>, r: Bytes)
    ensures RefsBytes(refs + [r]) == RefsBytes(refs) + Prefixed(r)
  {
    hide Prefixed;
    if refs == [] {
      assert (refs + [r])[1..] == [] && RefsBytes([]) == [];
    } else {
      RefsAppend(refs[1..], r);
      assert (refs + [r])[1..] == refs[1..] + [r];
      assert Prefixed(refs[0]) + (RefsBytes(refs[1..]) + Prefixed(r)) == (Prefixed(refs[0]) + RefsBytes(refs[1..])) + Prefixed(r);
    }
  }

  function OwnerBytes(p: Payload): Bytes {
    Prefixed(p.bodyHash) + Prefixed(p.controllerPub)
  }

  function RefListBytes(p: Payload): Bytes {
    BigEndian(|p.refs|, 4) + (RefsBytes(p.refs) + OwnerBytes(p))
  }

  function PayloadBytes(p: Payload): Bytes {
    Prefixed(p.docType) + (Prefixed(p.objectId) + (Prefixed(p.state) + RefListBytes(p)))
  }

  /** The octets of a state image, field by field: five sized fields and the counted, sized references. */
  lemma PayloadImageIs(p: Payload)
    ensures PayloadBytes(p) ==
      (BigEndian(|p.docType|, 4) + p.docType) + ((BigEndian(|p.objectId|, 4) + p.objectId) +
      ((BigEndian(|p.state|, 4) + p.state) + (BigEndian(|p.refs|, 4) + (RefsBytes(p.refs) +
      ((BigEndian(|p.bodyHash|, 4) + p.bodyHash) + (BigEndian(|p.controllerPub|, 4) + p.controllerPub))))))
    ensures RefsBytes([]) == []
    ensures forall r, rest :: RefsBytes([r] + rest) == (BigEndian(|r|, 4) + r) + RefsBytes(rest)
  {
    hide BigEndian;
    forall r: Bytes, rest: seq<Bytes> ensures RefsBytes([r] + rest) == (BigEndian(|r|, 4) + r) + RefsBytes(rest) {
      assert ([r] + rest)[1..] == rest;
    }
  }

  method EncodePayload(p: Payload) returns (image: Bytes)
    ensures image == PayloadBytes(p)
  {
    hide Prefixed, RefsBytes, PayloadBytes, BigEndian;
    var w := new GoCodec.Writer();
    w.Str(p.docType);
    w.Str(p.objectId);
    w.Str(p.state);
    w.U32(|p.refs| % TWO_32);
    GoCodec.Truncation(|p.refs|);
    ghost var head := w.b;
    NoRefs(p.refs, head);
    for i := 0 to |p.refs|
      invariant w.b == head + RefsBytes(p.refs[..i])
    {
      RefsAppend(p.refs[..i], p.refs[i]);
      assert p.refs[..i + 1] == p.refs[..i] + [p.refs[i]];
      w.Str(p.refs[i]);
      LeftNested(head, RefsBytes(p.refs[..i]), Prefixed(p.refs[i]));
    }
    assert p.refs[..|p.refs|] == p.refs;
    w.Octets(p.bodyHash);
    w.Octets(p.controllerPub);
    PayloadLayout(p);
    return w.b;
  }

  lemma NoRefs(refs: seq<Bytes>, head: Bytes)
    ensures head + RefsBytes(refs[..0]) == head
  {
  }

  lemma LeftNested(a: Bytes, b: Bytes, c: Bytes)
    ensures (a + b) + c == a + (b + c)
  {
  }

  lemma PayloadLayout(p: Payload)
    ensures [] + Prefixed(p.docType) + Prefixed(p.objectId) + Prefixed(p.state) + BigEndian(|p.refs|, 4) + RefsBytes(p.refs) +
      Prefixed(p.bodyHash) + Prefixed(p.controllerPub) == PayloadBytes(p)
  {
    hide Prefixed, RefsBytes, BigEndian;
    var names := Prefixed(p.docType) + Prefixed(p.objectId) + Prefixed(p.state);
    assert [] + Prefixed(p.docType) == Prefixed(p.docType);
    GoCodec.LeftNested4(names, BigEndian(|p.refs|, 4), RefsBytes(p.refs), Prefixed(p.bodyHash), Prefixed(p.controllerPub));
    GoCodec.LeftNested3(Prefixed(p.docType), Prefixed(p.objectId), Prefixed(p.state), RefListBytes(p));
  }

  /** n strings, one after the other. */
  function TakeStrings(s: Bytes, n: nat): Option<(seq<Bytes>, Bytes)> {
    if n == 0 then Some(([], s))
    else
      var (r, s) :- TakeString(s);
      var (rest, s) :- TakeStrings(s, n - 1);
      Some(([r] + rest, s))
  }

  function ParseOwner(s: Bytes): Option<(Bytes, Bytes)> {
    var (bodyHash, s) :- TakePrefixed(s);
    var (pub, s) :- TakePrefixed(s);
    if s == [] then Some((bodyHash, pub)) else None
  }

  function ParseRefList(s: Bytes): Option<(seq<Bytes>, (Bytes, Bytes))> {
    var (n, s) :- TakeU32(s);
    var (refs, s) :- TakeStrings(s, n);
    var owner :- ParseOwner(s);
    Some((refs, owner))
  }

  function ParsePayload(s: Bytes): Option<Payload> {
    var (docType, s) :- TakeString(s);
    var (objectId, s) :- TakeString(s);
    var (state, s) :- TakeString(s);
    var (refs, (bodyHash, pub)) :- ParseRefList(s);
    Some(Payload(docType, objectId, state, refs, bodyHash, pub))
  }

  /** Reads n strings; once a read has failed the loop goes on to its end, adding empty strings. */
  method ReadStrings(rd: GoCodec.Reader, n: nat) returns (refs: seq<Bytes>)
    requires rd.Valid()
    modifies rd
    ensures rd.Valid() && (old(rd.err).Some? ==> rd.err.Some?)
    ensures old(rd.err) == None ==>
      match old(TakeStrings(rd.Rest(), n))
      case None => rd.err.Some?
      case Some((rs, rest)) => rd.err == None && refs == rs && rd.Rest() == rest
  {
    hide TakeStrings, TakeString, Remaining;
    refs := [];
    ghost var start, ok := rd.Rest(), rd.err == None;
    RemainingAll(start, n);
    for i := 0 to n
      invariant rd.Valid() && (!ok ==> rd.err.Some?)
      invariant ok && rd.err.Some? ==> TakeStrings(start, n) == None
      invariant rd.err == None ==> Remaining(start, n, refs, rd.Rest(), n - i)
    {
      ghost var before, failed := rd.Rest(), rd.err.Some?;
      var r := rd.Str();
      if !failed {
        RemainingStep(start, n, refs, before, n - i);
      }
      refs := refs + [r];
    }
    if rd.err == None {
      RemainingNone(start, n, refs, rd.Rest());
    }
  }

  lemma RemainingAll(start: Bytes, n: nat)
    ensures Remaining(start, n, [], start, n)
  {
    var all := TakeStrings(start, n);
    assert all.Some? ==> [] + all.value.0 == all.value.0;
  }

  lemma RemainingNone(start: Bytes, n: nat, refs: seq<Bytes>, rest: Bytes)
    requires Remaining(start, n, refs, rest, 0)
    ensures TakeStrings(start, n) == Some((refs, rest))
  {
    assert refs + [] == refs;
  }

  /** Of the n strings of start, refs have been read, and m are still to be read from rest. */
  ghost predicate Remaining(start: Bytes, n: nat, refs: seq<Bytes>, rest: Bytes, m: nat) {
    TakeStrings(start, n) ==
      match TakeStrings(rest, m)
      case None => None
      case Some((more, end)) => Some((refs + more, end))
  }

  lemma RemainingStep(start: Bytes, n: nat, refs: seq<Bytes>, rest: Bytes, m: nat)
    requires Remaining(start, n, refs, rest, m) && m > 0
    ensures match TakeString(rest)
      case None => TakeStrings(start, n) == None
      case Some((r, after)) => Remaining(start, n, refs + [r], after, m - 1)
  {
    hide TakeString;
    if TakeString(rest).Some? {
      var (r, after) := TakeString(rest).value;
      var tail := TakeStrings(after, m - 1);
      assert tail.Some? ==> refs + ([r] + tail.value.0) == (refs + [r]) + tail.value.0;
    }
  }

  method ReadOwner(rd: GoCodec.Reader) returns (r: Result<(Bytes, Bytes), GoCodec.Error>)
    requires rd.Valid()
    modifies rd
    ensures old(rd.err).Some? ==> r.Err?
    ensures old(rd.err) == None ==>
      match old(ParseOwner(rd.Rest()))
      case None => r.Err?
      case Some(p) => r == Ok(p)
  {
    var bodyHash := rd.Octets();
    var pub := rd.Octets();
    var e := rd.End();
    return if e.Some? then Err(e.value) else Ok((bodyHash, pub));
  }

  method DecodePayload(image: Bytes) returns (r: Result<Payload, GoCodec.Error>)
    ensures match ParsePayload(image)
      case None => r.Err?
      case Some(p) => r == Ok(p)
  {
    var rd := new GoCodec.Reader(image);
    var docType := rd.Str();
    var objectId := rd.Str();
    var state := rd.Str();
    var n := rd.U32();
    var refs := ReadStrings(rd, n);
    var owner :- ReadOwner(rd);
    return Ok(Payload(docType, objectId, state, refs, owner.0, owner.1));
  }

  // ---------------------------------------------------------------- round trip

  predicate AllFit(p: Payload) {
    && Fits(p.docType) && Fits(p.objectId) && Fits(p.state) && Fits(p.bodyHash) && Fits(p.controllerPub)
    && |p.refs| < TWO_32 && forall r <- p.refs :: Fits(r)
  }

  predicate AllText(p: Payload) {
    Utf8.Valid(p.docType) && Utf8.Valid(p.objectId) && Utf8.Valid(p.state) && forall r <- p.refs :: Utf8.Valid(r)
  }

  lemma {:induction false} StringsRoundTrip(refs: seq<Bytes>, rest: Bytes)
    requires forall r <- refs :: Fits(r)
    ensures TakeStrings(RefsBytes(refs) + rest, |refs|) == if forall r <- refs :: Utf8.Valid(r) then Some((refs, rest)) else None
  {
    hide Utf8.Valid, Prefixed, TakePrefixed;
    if refs == [] {
      assert [] + rest == rest;
    } else {
      assert refs[0] in refs && forall r <- refs[1..] :: r in refs;
      assert RefsBytes(refs) + rest == Prefixed(refs[0]) + (RefsBytes(refs[1..]) + rest);
      TakeAfterPrefixed(refs[0], RefsBytes(refs[1..]) + rest);
      StringsRoundTrip(refs[1..], rest);
      assert refs == [refs[0]] + refs[1..];
      assert (forall r <- refs :: Utf8.Valid(r)) <==> Utf8.Valid(refs[0]) && forall r <- refs[1..] :: Utf8.Valid(r);
    }
  }

  lemma RefListRoundTrip(p: Payload)
    requires AllFit(p)
    ensures ParseRefList(RefListBytes(p)) ==
      if forall r <- p.refs :: Utf8.Valid(r) then Some((p.refs, (p.bodyHash, p.controllerPub))) else None
  {
    hide Utf8.Valid, Prefixed, TakePrefixed, RefsBytes, TakeStrings, BigEndian;
    var head := BigEndian(|p.refs|, 4);
    var rest := RefsBytes(p.refs) + OwnerBytes(p);
    TakeAfterRaw(head, rest);
    Powers();
    FromToBigEndian(|p.refs|, 4);
    StringsRoundTrip(p.refs, OwnerBytes(p));
    TakeAfterPrefixed(p.bodyHash, Prefixed(p.controllerPub));
    TakeLastPrefixed(p.controllerPub);
  }

  /**
   The encoder takes any octets for text, the decoder only UTF-8: a payload reads back exactly when all its
   strings are valid.
   */
  lemma PayloadRoundTrip(p: Payload)
    requires AllFit(p)
    ensures ParsePayload(PayloadBytes(p)) == if AllText(p) then Some(p) else None
  {
    hide Utf8.Valid, Prefixed, TakePrefixed, RefListBytes, ParseRefList;
    TakeAfterPrefixed(p.docType, Prefixed(p.objectId) + (Prefixed(p.state) + RefListBytes(p)));
    TakeAfterPrefixed(p.objectId, Prefixed(p.state) + RefListBytes(p));
    TakeAfterPrefixed(p.state, RefListBytes(p));
    RefListRoundTrip(p);
  }
}
