/** JWS messages across signing, serializing, parsing and verifying. */
module JwsRoundTrip {
  import opened Bytes
  import opened Grammar
  import opened Parser
  import opened Utf8
  import opened Strings
  import opened Encode
  import opened RoundTrip
  import opened Base64
  import opened Dots
  import opened Headers
  import opened Protected
  import opened Jws

  /** The compact form of a message cut apart and decoded. */
  lemma CompactParts(env: Env, text: bytes, payload: bytes, value: bytes, detached: bool, algs: seq<bytes>)
    ensures var s := Join(Encoded([text, if detached then [] else payload, value]));
            ParsedCompact(env, s, if detached then Some(payload) else None, algs)
            == SanitizedOf(env, RawJws(Some(payload), Some(text), None, value, []), algs)
  {
    hide SanitizedOf, Base64.Encode, Base64.Decode, DotCount, Parts, Join;
    var inputs := [text, if detached then [] else payload, value];
    SplitJoined(inputs);
    ThreeEncoded(inputs);
    DecodeEncode(text);
    DecodeEncode(value);
    DecodeEncode(payload);
    EmptyEncoded();
  }

  lemma ThreeEncoded(inputs: seq<bytes>)
    requires |inputs| == 3
    ensures Encoded(inputs) == [Base64.Encode(inputs[0]), Base64.Encode(inputs[1]), Base64.Encode(inputs[2])]
  {
    hide Base64.Encode;
    var two := inputs[1..];
    var one := two[1..];
    assert Encoded(one) == [Base64.Encode(one[0])] + Encoded([]);
    assert Encoded(two) == [Base64.Encode(two[0])] + Encoded(one);
  }

  lemma HeaderTextSome(vals: Vals)
    requires MarshalText(VMap(vals)).Some?
    ensures MarshalText(VMap(vals)).value != []
  {}

  // What the parser asks of the protected header.

  lemma MergeAlone(h: HeaderMap)
    ensures MergeAll([Some(h), None]) == h
  {
    hide MergeAll;
    MergeTwo(Some(h), None);
    assert Merged(map[], Some(h)) == h;
  }

  /**
   A signature with only a protected header passes exactly when that header reads, decodes and names a listed
   algorithm.
   */
  lemma CheckedAlone(env: Env, text: bytes, value: bytes, algs: seq<bytes>)
    requires text != []
    ensures var raw := RawSig(Some(text), None, value);
            var sig := Checked(env, raw, None, algs);
            && (sig.Some? <==> HeaderOf(text).Some? && Passes(env, HeaderOf(text).value, algs))
            && (sig.Some? ==>
                  sig.value == Signature(HeaderOf(text), None, GetString(HeaderOf(text).value, ALG), value, Some(raw)))
  {
    hide MergeAll, Clean, JwkOk, GetString, HeaderOf;
    if HeaderOf(text).Some? { MergeAlone(HeaderOf(text).value); }
  }

  predicate Passes(env: Env, h: HeaderMap, algs: seq<bytes>) {
    Clean(env, h) && GetString(h, ALG) in algs && JwkOk(env, h)
  }

  /** The bytes a value prints as. */
  ghost function Output(v: Val): bytes {
    var t := MarshalText(v);
    if t.None? then [] else t.value
  }

  /** The value under `n` decodes into the type its name calls for. */
  ghost predicate Decodable(env: Env, n: bytes, v: Val) {
    PrintsNull(v) || if n == ALG then PrintsString(v) else env.decodes(Coerce(n), Output(v))
  }

  ghost predicate EveryDecodes(env: Env, vals: Vals) {
    forall n | n in Names(vals) :: Decodable(env, n, Lookup(vals, n).value)
  }

  /** What header values a signer must have been given for the parser to accept them. */
  ghost predicate Acceptable(env: Env, vals: Vals, algs: seq<bytes>) {
    && NameAt(vals, ALG) in algs
    && EveryDecodes(env, vals)
    && (JWK in Names(vals) && !PrintsNull(Lookup(vals, JWK).value) ==> env.embeddable(Output(Lookup(vals, JWK).value)))
  }

  ghost predicate Printed(vals: Vals, h: HeaderMap) {
    && MarshalText(VMap(vals)).Some? && DistinctNames(vals)
    && HeaderOf(MarshalText(VMap(vals)).value) == Some(h)
  }

  lemma DecodableEntry(env: Env, vals: Vals, h: HeaderMap, n: bytes)
    requires Printed(vals, h) && n in Names(vals)
    ensures var k := Coerce(n);
            && k in h
            && (h[k].None? <==> PrintsNull(Lookup(vals, n).value))
            && (h[k].Some? ==>
                  (if k == ALG then StringOk(h[k].value) else env.decodes(k, h[k].value))
                  <==> Decodable(env, n, Lookup(vals, n).value))
  {
    hide MarshalText, TreeOf, HeaderOf, RawOf, Coerce, PrintsNull, PrintsString, StringOk, StringOf, PrintedName;
    PrintedEntry(vals, n);
    RawPrinted(Lookup(vals, n).value);
    AsciiFixed(ALG);
  }

  lemma CleanDecodes(env: Env, vals: Vals, h: HeaderMap)
    requires Printed(vals, h) && Clean(env, h)
    ensures EveryDecodes(env, vals)
  {
    hide MarshalText, HeaderOf, Coerce, StringOk, Decodable, PrintsNull;
    forall n | n in Names(vals) ensures Decodable(env, n, Lookup(vals, n).value) {
      DecodableEntry(env, vals, h, n);
      NullDecodable(env, n, Lookup(vals, n).value);
    }
  }

  lemma DecodesClean(env: Env, vals: Vals, h: HeaderMap)
    requires Printed(vals, h) && EveryDecodes(env, vals)
    ensures Clean(env, h)
  {
    hide MarshalText, HeaderOf, Coerce, StringOk, Decodable, PrintsNull;
    forall k | k in h && h[k].Some?
      ensures if k == ALG then StringOk(h[k].value) else env.decodes(k, h[k].value)
    {
      PrintedKeys(vals, k);
      var n :| n in Names(vals) && Coerce(n) == k;
      DecodableEntry(env, vals, h, n);
    }
  }

  lemma CleanPrinted(env: Env, vals: Vals, h: HeaderMap)
    requires Printed(vals, h)
    ensures Clean(env, h) <==> EveryDecodes(env, vals)
  {
    hide Clean, EveryDecodes, Printed;
    if Clean(env, h) { CleanDecodes(env, vals, h); }
    if EveryDecodes(env, vals) { DecodesClean(env, vals, h); }
  }

  lemma NullDecodable(env: Env, n: bytes, v: Val)
    ensures PrintsNull(v) ==> Decodable(env, n, v)
  {}

  lemma JwkPrinted(env: Env, vals: Vals, h: HeaderMap)
    requires Printed(vals, h)
    ensures JwkOk(env, h) <==>
            (JWK in Names(vals) && !PrintsNull(Lookup(vals, JWK).value) ==>
               env.embeddable(Output(Lookup(vals, JWK).value)))
  {
    hide TreeOf, HeaderOf, RawOf, StringOk, StringOf, PrintedName, PrintsNull, PrintsString, GetString;
    PrintedField(vals, JWK);
    if JWK in Names(vals) { RawPrinted(Lookup(vals, JWK).value); }
  }

  lemma PassesPrinted(env: Env, vals: Vals, h: HeaderMap, algs: seq<bytes>)
    requires Printed(vals, h)
    ensures Passes(env, h, algs) <==> Acceptable(env, vals, algs)
    ensures GetString(h, ALG) == NameAt(vals, ALG)
  {
    hide Clean, JwkOk, GetString, NameAt, PrintsNull, EveryDecodes, HeaderOf, MarshalText, Output;
    PrintedField(vals, ALG);
    CleanPrinted(env, vals, h);
    JwkPrinted(env, vals, h);
  }

  /**
   Signing, serializing and parsing: the parser accepts the message exactly when no two header names coincide
   after ill-formed bytes are replaced and the values the signer was given are acceptable.  Then payload and
   signature are the same, verification rebuilds the bytes that were signed, and it uses the algorithm name that
   the signer printed.
   */
  lemma SignedThenParsed(env: Env, r: Recipient, payload: bytes, sig: Signature, detached: bool, algs: seq<bytes>)
    requires DistinctNames(r.protected) && Signs(r, payload, sig)
    ensures CompactOf(Message(payload, [sig]), detached).Some?
    ensures var s := CompactOf(Message(payload, [sig]), detached).value;
            var got := ParsedCompact(env, s, if detached then Some(payload) else None, algs);
            && (got.Some? <==> CoerceInjective(Names(r.protected)) && Acceptable(env, r.protected, algs))
            && (got.Some? ==>
                  && got.value.payload == payload && |got.value.signatures| == 1
                  && got.value.signatures[0].value == sig.value && got.value.signatures[0].header == None
                  && got.value.signatures[0].protected == HeaderOf(MarshalText(VMap(r.protected)).value)
                  && AuthData(payload, got.value.signatures[0]) == SigningInput(r.protected, payload)
                  && VerifyAlg(got.value.signatures[0]) == NameAt(r.protected, ALG))
  {
    hide MarshalText, HeaderText, FieldsOf, SignedHeader, Join, Encoded, ParsedCompact, CoerceInjective, Names, Checked,
      Base64.Encode, GetB64, HeaderOf, GetString, Passes, Acceptable, MergeAll, NameAt;
    var vals := r.protected;
    Reserialized(vals);
    var text := MarshalText(VMap(vals)).value;
    CompactParts(env, text, payload, sig.value, detached, algs);
    var raw := RawSig(Some(text), None, sig.value);
    OneChecked(env, raw, algs);
    PrintedReadsBack(vals);
    HeaderTextSome(vals);
    CheckedAlone(env, text, sig.value, algs);
    AcceptableListed(env, vals, algs);
    if HeaderOf(text).Some? {
      PrintedB64(vals);
      PassesPrinted(env, vals, HeaderOf(text).value, algs);
      MergeAlone(HeaderOf(text).value);
    }
  }

  lemma JoinThree(a: bytes, b: bytes, c: bytes)
    ensures Join(Encoded([a, b, c]))
            == Base64.Encode(a) + [DOT] + Base64.Encode(b) + [DOT] + Base64.Encode(c)
  {
    hide Base64.Encode, Encoded;
    var x, y, z := Base64.Encode(a), Base64.Encode(b), Base64.Encode(c);
    ThreeEncoded([a, b, c]);
    assert [x, y, z][1..] == [y, z] && [y, z][1..] == [z];
    assert Join([z]) == z && Join([y, z]) == y + ([DOT] + z);
    assert x + ([DOT] + (y + ([DOT] + z))) == x + [DOT] + y + [DOT] + z;
  }

  /** What is signed is what is sent: the compact form is the signing input, a dot and the encoded signature. */
  lemma SignedCompact(r: Recipient, payload: bytes, sig: Signature)
    requires DistinctNames(r.protected) && Signs(r, payload, sig) && NeedsBase64(r.protected) == Some(true)
    ensures CompactOf(Message(payload, [sig]), false)
            == Some(SigningInput(r.protected, payload).value + [DOT] + Base64.Encode(sig.value))
  {
    hide MarshalText, HeaderText, FieldsOf, SignedHeader, Join, Encoded, Base64.Encode, NeedsBase64;
    Reserialized(r.protected);
    var text := MarshalText(VMap(r.protected)).value;
    JoinThree(text, payload, sig.value);
    Assoc(Base64.Encode(text), [DOT], Base64.Encode(payload));
  }

  /**
   With an unencoded payload, the signing input cut at its first dot is the first part of the detached form
   and the payload itself.
   */
  lemma SignedDetached(r: Recipient, payload: bytes, sig: Signature)
    requires DistinctNames(r.protected) && Signs(r, payload, sig) && NeedsBase64(r.protected) == Some(false)
    ensures var cut := Cut(SigningInput(r.protected, payload).value);
            && cut.Some? && cut.value.1 == payload
            && CompactOf(Message(payload, [sig]), true)
               == Some(cut.value.0 + [DOT] + [DOT] + Base64.Encode(sig.value))
  {
    hide MarshalText, HeaderText, FieldsOf, SignedHeader, Join, Encoded, Base64.Encode, NeedsBase64, Cut;
    Reserialized(r.protected);
    var text := MarshalText(VMap(r.protected)).value;
    JoinThree(text, [], sig.value);
    EmptyEncoded();
    EncodeDotless(text);
    CutJoin(Base64.Encode(text), payload);
    var x := Base64.Encode(text) + [DOT];
    assert x + [] == x;
  }

  /**
   A message that was signed, sent and accepted verifies exactly when its critical headers are supported and
   the key accepts the signature over the bytes that were signed, under the name that was signed.
   */
  lemma SignedVerifies(env: Env, r: Recipient, payload: bytes, sig: Signature, detached: bool, algs: seq<bytes>,
                       v: Verifier)
    requires DistinctNames(r.protected) && Signs(r, payload, sig)
    requires CoerceInjective(Names(r.protected)) && Acceptable(env, r.protected, algs)
    ensures CompactOf(Message(payload, [sig]), detached).Some?
    ensures var s := CompactOf(Message(payload, [sig]), detached).value;
            var got := ParsedCompact(env, s, if detached then Some(payload) else None, algs);
            && got.Some? && |got.value.signatures| == 1
            && (var g := got.value.signatures[0];
                && g.protected.Some?
                && (Verifies(v, payload, g) <==>
                    && v.supported(g.protected.value)
                    && v.accepts(g, SigningInput(r.protected, payload).value, NameAt(r.protected, ALG))))
  {
    hide MarshalText, HeaderText, FieldsOf, SignedHeader, Join, Encoded, CoerceInjective, Names, Checked, HeaderOf,
      NameAt, Acceptable, AuthData, VerifyAlg, ParsedCompact, CompactOf;
    SignedThenParsed(env, r, payload, sig, detached, algs);
    PrintedReadsBack(r.protected);
  }

  lemma AcceptableListed(env: Env, vals: Vals, algs: seq<bytes>)
    ensures Acceptable(env, vals, algs) ==> algs != []
  {}

  /** A signer that was given its algorithm as a string is verified under that name. */
  lemma SignedAlgorithm(vals: Vals, a: bytes)
    requires Lookup(vals, ALG) == Some(VString(a))
    ensures NameAt(vals, ALG) == Coerce(a) && (IsUtf8(a) ==> NameAt(vals, ALG) == a)
  {
    hide PrintedName, Coerce, IsUtf8;
    StringPrinted(a);
    CoerceFixes(a);
  }

  // Serializing a message that was parsed.

  /** `sig` has the protected header that was read from `p`. */
  ghost predicate KeepsHeader(sig: Signature, p: bytes) {
    && sig.original.Some? && sig.original.value.protected == Some(p)
    && sig.protected.Some? && HeaderOf(p) == sig.protected
  }

  /** Every parsed signature with a protected header keeps the text it was read from. */
  lemma ParsedKeepsHeader(env: Env, raw: RawSig, seen: Option<HeaderMap>, algs: seq<bytes>)
    requires Checked(env, raw, seen, algs).Some? && Checked(env, raw, seen, algs).value.protected.Some?
    ensures raw.protected.Some? && KeepsHeader(Checked(env, raw, seen, algs).value, raw.protected.value)
  {
    hide MergeAll, Clean, JwkOk, GetString, HeaderOf;
  }

  /** The header part of a signing input is told by the first dot. */
  lemma SameHeaderPart(p: bytes, x: bytes, t: bytes, y: bytes)
    requires Base64.Encode(p) + ([DOT] + x) == Base64.Encode(t) + ([DOT] + y)
    ensures p == t
  {
    hide Base64.Encode, Base64.Decode, Cut;
    EncodeDotless(p);
    EncodeDotless(t);
    CutJoin(Base64.Encode(p), x);
    CutJoin(Base64.Encode(t), y);
    DecodeEncode(p);
    DecodeEncode(t);
  }

  /**
   A message that was parsed, serialized and parsed again is verified over the same bytes exactly when its
   protected header was received in the form in which it prints.
   */
  lemma ParsedThenSerialized(env: Env, obj: Message, p: bytes, detached: bool, algs: seq<bytes>)
    requires CompactOf(obj, detached).Some? && KeepsHeader(obj.signatures[0], p)
    ensures var sig := obj.signatures[0];
            var payload := if detached then Some(obj.payload) else None;
            var got := ParsedCompact(env, CompactOf(obj, detached).value, payload, algs);
            got.Some? ==>
              && got.value.payload == obj.payload && |got.value.signatures| == 1
              && got.value.signatures[0].value == sig.value
              && (AuthData(obj.payload, got.value.signatures[0]) == AuthData(obj.payload, sig)
                  <==> HeaderText(HeaderOf(p).value) == Some(p))
  {
    hide HeaderText, Join, Encoded, ParsedCompact, Checked, Base64.Encode, GetB64, HeaderOf, Passes, NilHeader,
      LiteralOf;
    var sig := obj.signatures[0];
    ReadHeaderPrints(p);
    var t := HeaderText(sig.protected.value).value;
    CompactParts(env, t, obj.payload, sig.value, detached, algs);
    OneChecked(env, RawSig(Some(t), None, sig.value), algs);
    CheckedAlone(env, t, sig.value, algs);
    if HeaderOf(t).Some? {
      var x := PayloadPart(GetB64(HeaderOf(p).value), obj.payload);
      var y := PayloadPart(GetB64(HeaderOf(t).value), obj.payload);
      if Base64.Encode(p) + x == Base64.Encode(t) + y { SameHeaderPart(p, x[1..], t, y[1..]); }
    }
  }

  // A header that is received with white space before it.

  function OnlyAlg(a: bytes): Vals {
    AVal(ALG, VString(a), NoVals)
  }

  lemma OnlyAlgPrints(a: bytes)
    ensures DistinctNames(OnlyAlg(a)) && Names(OnlyAlg(a)) == {ALG} && MarshalText(VMap(OnlyAlg(a))).Some?
    ensures FieldsOf(true, OnlyAlg(a)).Some?
  {
    hide Quote, SortVals;
    var vals := OnlyAlg(a);
    assert FieldsOf(true, vals.rest).Some? && Names(vals.rest) == {} && DistinctNames(vals.rest);
    FieldsMarshal(vals);
  }

  lemma OnlyAlgReads(a: bytes)
    requires IsUtf8(a)
    ensures MarshalText(VMap(OnlyAlg(a))).Some?
    ensures var text := MarshalText(VMap(OnlyAlg(a))).value;
            && HeaderOf(text).Some? && Printed(OnlyAlg(a), HeaderOf(text).value)
            && HeaderText(HeaderOf(text).value) == Some(text)
  {
    hide MarshalText, HeaderOf, HeaderText, Coerce, IsUtf8, TreeOf, RawOf, GetString;
    var vals := OnlyAlg(a);
    OnlyAlgPrints(a);
    PrintedReadsBack(vals);
    var h := HeaderOf(MarshalText(VMap(vals)).value).value;
    OnlyAlgMap(a, h);
    OneSigned(a);
    Reserialized(vals);
  }

  lemma OnlyAlgMap(a: bytes, h: HeaderMap)
    requires Printed(OnlyAlg(a), h)
    ensures MarshalText(VString(a)).Some? && h == map[ALG := Some(MarshalText(VString(a)).value)]
  {
    hide MarshalText, HeaderOf, Coerce, TreeOf, RawOf, GetString, NameAt;
    var vals := OnlyAlg(a);
    OnlyAlgPrints(a);
    PrintedField(vals, ALG);
    StringRaw(a);
    AsciiFixed(ALG);
    forall k ensures k in h <==> k == ALG {
      if k in h { PrintedKeys(vals, k); }
    }
    assert h.Keys == {ALG};
  }

  lemma StringRaw(a: bytes)
    ensures TreeOf(VString(a)).Some? && MarshalText(VString(a)).Some?
    ensures RawOf(TreeOf(VString(a)).value) == MarshalText(VString(a))
  {
    hide Quote;
    QuoteIsNotNull(a);
  }

  lemma QuoteIsNotNull(a: bytes)
    ensures Quote(a) != NULL
  {
    hide Quote;
    QuotedHead(a);
    assert Quote(a)[0] != NULL[0];
  }

  lemma OneSigned(a: bytes)
    requires FieldsOf(true, OnlyAlg(a)).Some?
    ensures SignedHeader(OnlyAlg(a)) == map[ALG := Some(MarshalText(VString(a)).value)]
  {
    hide TreeOf;
    assert SignedHeader(NoVals) == map[];
  }

  lemma OnlyAlgAcceptable(env: Env, a: bytes, algs: seq<bytes>)
    requires IsUtf8(a) && a in algs
    ensures Acceptable(env, OnlyAlg(a), algs)
  {
    hide Coerce, IsUtf8, Quote;
    OnlyAlgPrints(a);
    SignedAlgorithm(OnlyAlg(a), a);
    assert PrintsString(VString(a)) by { QuotedHead(a); }
  }

  lemma QuotedHead(a: bytes)
    ensures Quote(a) != [] && Quote(a)[0] == QUOTE
  {}

  /** Leading white space does not change the header that is read. */
  lemma LeadingSpace(s: bytes)
    requires s != [] && s[0] == LBRACE
    ensures HeaderOf([SPACE] + s) == HeaderOf(s) && (LiteralOf(s).None? ==> LiteralOf([SPACE] + s).None?)
  {
    hide Value;
    var p := [SPACE] + s;
    Behead(SPACE, s);
    assert Spaces(s) == 0 && Spaces(p) == 1 && s[0..] == s;
  }

  lemma ObjectIsNoLiteral(vals: Vals)
    requires MarshalText(VMap(vals)).Some?
    ensures LiteralOf(MarshalText(VMap(vals)).value).None?
    ensures MarshalText(VMap(vals)).value != [] && MarshalText(VMap(vals)).value[0] == LBRACE
  {
    hide SortVals, FieldsOf;
    LiteralPrinted(VMap(vals));
    NodeHead(FieldsOf(true, SortVals(vals)).value);
  }

  /** A signed header received with a space before it: the message is accepted, and serializing it loses the space. */
  lemma SpaceLost(env: Env, a: bytes, payload: bytes, value: bytes, algs: seq<bytes>)
    requires IsUtf8(a) && a in algs
    ensures MarshalText(VMap(OnlyAlg(a))).Some?
    ensures var p := [SPACE] + MarshalText(VMap(OnlyAlg(a))).value;
            var obj := SanitizedOf(env, RawJws(Some(payload), Some(p), None, value, []), algs);
            && obj.Some? && |obj.value.signatures| == 1 && CompactOf(obj.value, false).Some?
            && (var got := ParsedCompact(env, CompactOf(obj.value, false).value, None, algs);
                && got.Some? && |got.value.signatures| == 1
                && AuthData(payload, got.value.signatures[0]) != AuthData(payload, obj.value.signatures[0]))
  {
    hide MarshalText, HeaderOf, HeaderText, Checked, Passes, Acceptable, Join, Encoded, ParsedCompact, LiteralOf,
      IsUtf8, AuthData, Names, DistinctNames;
    OnlyAlgReads(a);
    OnlyAlgAcceptable(env, a, algs);
    var vals := OnlyAlg(a);
    var text := MarshalText(VMap(vals)).value;
    var p := [SPACE] + text;
    ObjectIsNoLiteral(vals);
    LeadingSpace(text);
    PassesPrinted(env, vals, HeaderOf(text).value, algs);
    CheckedAlone(env, p, value, algs);
    OneChecked(env, RawSig(Some(p), None, value), algs);
    var obj := SanitizedOf(env, RawJws(Some(payload), Some(p), None, value, []), algs).value;
    CompactParts(env, text, payload, value, false, algs);
    CheckedAlone(env, text, value, algs);
    OneChecked(env, RawSig(Some(text), None, value), algs);
    ParsedThenSerialized(env, obj, p, false, algs);
    assert p != text by { assert p[0] == SPACE; }
  }
}
