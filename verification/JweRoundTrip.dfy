/** JWE messages across serializing and parsing. */
module JweRoundTrip {
  import opened Bytes
  import opened Utf8
  import opened Strings
  import opened Encode
  import opened RoundTrip
  import opened Base64
  import opened Dots
  import opened Headers
  import opened Protected
  import opened Jws
  import opened JwsRoundTrip
  import opened Jwe

  /** The header as it was received, if it was, is the header as it prints. */
  ghost predicate PrintsAsReceived(obj: Encryption) {
    obj.protected.Some? && obj.original.Some? && obj.original.value.protected.Some? ==>
      HeaderText(obj.protected.value) == obj.original.value.protected
  }

  /** A parsed message keeps the text it was parsed from, and its protected header is the one in that text. */
  lemma ParsedJweKeepsHeader(env: Env, parsed: RawJwe, algs: seq<bytes>, encs: seq<bytes>)
    requires SanitizedJwe(env, parsed, algs, encs).Some?
    ensures var obj := SanitizedJwe(env, parsed, algs, encs).value;
            && obj.original == Some(parsed)
            && (obj.protected.Some? ==> parsed.protected.Some? && HeaderOf(parsed.protected.value) == obj.protected)
  {
    hide HeaderOf, LiteralOf, Clean, MergeAll, AllValid, ReadRecipients, HasNonce;
  }

  lemma ExtraPart(p: bytes, t: bytes, extra: Option<bytes>)
    ensures var x := if extra.None? then [] else [DOT] + Base64.Encode(extra.value);
            Base64.Encode(t) + [] == Base64.Encode(p) + x <==> t == p && extra == None
  {
    hide Base64.Encode, Base64.Decode;
    var a, b := Base64.Encode(t), Base64.Encode(p);
    var x := if extra.None? then [] else [DOT] + Base64.Encode(extra.value);
    assert a + [] == a;
    EncodeDotless(t);
    DecodeEncode(t);
    DecodeEncode(p);
    DotCountAppend(b, x);
    if extra.Some? {
      DotCountAppend([DOT], Base64.Encode(extra.value));
    } else {
      assert b + x == b;
    }
  }

  /**
   Parsing the compact form of a message, when the parser accepts it, gives back its key, iv, ciphertext and tag.
   The authenticated data is the same exactly when the message has no extra data, for which the compact form has
   no place, and its header, if it was received, was received in the form in which it prints.
   */
  lemma CompactJweRoundTrip(env: Env, obj: Encryption, algs: seq<bytes>, encs: seq<bytes>)
    requires CompactJwe(obj).Some?
    ensures var got := ParsedCompactJwe(env, CompactJwe(obj).value, algs, encs);
            got.Some? ==>
              && got.value.recipients == obj.recipients && got.value.unprotected == obj.unprotected
              && got.value.iv == obj.iv && got.value.ciphertext == obj.ciphertext && got.value.tag == obj.tag
              && (AuthDataOf(got.value) == AuthDataOf(obj) <==> obj.aad == None && PrintsAsReceived(obj))
  {
    hide HeaderText, Join, Encoded, DotCount, Parts, Base64.Encode, ReadProtected, Clean, MergeAll, AllValid,
      DecodedParts;
    var text := HeaderText(obj.protected.value).value;
    var inputs := [text, obj.recipients[0].encryptedKey, obj.iv, obj.ciphertext, obj.tag];
    SplitJoined(inputs);
    assert obj.recipients == [RecipientInfo(None, obj.recipients[0].encryptedKey)];
    var received := obj.original.Some? && obj.original.value.protected.Some?;
    ExtraPart(if received then obj.original.value.protected.value else text, text, obj.aad);
  }

  lemma JoinFive(a: bytes, b: bytes, c: bytes, d: bytes, e: bytes)
    ensures Join(Encoded([a, b, c, d, e])) ==
            Base64.Encode(a) + [DOT] + Base64.Encode(b) + [DOT] + Base64.Encode(c) + [DOT] + Base64.Encode(d)
            + [DOT] + Base64.Encode(e)
  {
    hide Base64.Encode, Encoded, Join;
    var x, y := Base64.Encode(a), Base64.Encode(b);
    var z := Join(Encoded([c, d, e]));
    JoinThree(c, d, e);
    JoinMore(b, [c, d, e]);
    JoinMore(a, [b, c, d, e]);
    assert [b] + [c, d, e] == [b, c, d, e] && [a] + [b, c, d, e] == [a, b, c, d, e];
    assert x + ([DOT] + (y + ([DOT] + z))) == x + [DOT] + y + [DOT] + z;
    Ungroup(x + [DOT] + y + [DOT], Base64.Encode(c), Base64.Encode(d), Base64.Encode(e));
  }

  lemma Ungroup(x: bytes, u: bytes, v: bytes, w: bytes)
    ensures x + (u + [DOT] + v + [DOT] + w) == x + u + [DOT] + v + [DOT] + w
  {
    Assoc(x, u + [DOT] + v + [DOT], w);
    Assoc(x, u + [DOT] + v, [DOT]);
    Assoc(x, u + [DOT], v);
    Assoc(x, u, [DOT]);
  }

  lemma JoinMore(a: bytes, rest: seq<bytes>)
    requires rest != []
    ensures Join(Encoded([a] + rest)) == Base64.Encode(a) + ([DOT] + Join(Encoded(rest)))
  {
    hide Base64.Encode;
    assert ([a] + rest)[1..] == rest;
    assert Encoded([a] + rest)[1..] == Encoded(rest);
  }

  /**
   What is authenticated is what is sent: the compact form is the authenticated data without extra data, and
   then the encoded key, iv, ciphertext and tag; extra data is authenticated after a dot.
   */
  lemma AuthenticatedCompact(obj: Encryption)
    requires CompactJwe(obj).Some? && PrintsAsReceived(obj)
    ensures |obj.recipients| == 1 && AuthDataOf(obj.(aad := None)).Some?
    ensures var data := AuthDataOf(obj.(aad := None)).value;
            && CompactJwe(obj).value ==
               data + [DOT] + Base64.Encode(obj.recipients[0].encryptedKey) + [DOT] + Base64.Encode(obj.iv) + [DOT]
               + Base64.Encode(obj.ciphertext) + [DOT] + Base64.Encode(obj.tag)
            && (obj.aad.Some? ==> AuthDataOf(obj) == Some(data + [DOT] + Base64.Encode(obj.aad.value)))
  {
    hide HeaderText, Join, Encoded, Base64.Encode;
    var text := HeaderText(obj.protected.value).value;
    JoinFive(text, obj.recipients[0].encryptedKey, obj.iv, obj.ciphertext, obj.tag);
    assert Base64.Encode(text) + [] == Base64.Encode(text);
    if obj.aad.Some? { Assoc(Base64.Encode(text), [DOT], Base64.Encode(obj.aad.value)); }
  }

  /** For a parsed message the condition is that its header text is the one its own header prints as. */
  lemma ParsedJweThenSerialized(env: Env, parsed: RawJwe, algs: seq<bytes>, encs: seq<bytes>)
    requires SanitizedJwe(env, parsed, algs, encs).Some?
    requires CompactJwe(SanitizedJwe(env, parsed, algs, encs).value).Some?
    ensures var obj := SanitizedJwe(env, parsed, algs, encs).value;
            var got := ParsedCompactJwe(env, CompactJwe(obj).value, algs, encs);
            && parsed.protected.Some? && HeaderOf(parsed.protected.value).Some?
            && (got.Some? ==>
                  (AuthDataOf(got.value) == AuthDataOf(obj) <==>
                   && parsed.aad == None
                   && HeaderText(HeaderOf(parsed.protected.value).value) == parsed.protected))
  {
    hide HeaderOf, HeaderText, LiteralOf, Clean, MergeAll, AllValid, ReadRecipients, HasNonce, ParsedCompactJwe, Join,
      Encoded, AuthDataOf;
    ParsedJweKeepsHeader(env, parsed, algs, encs);
    CompactJweRoundTrip(env, SanitizedJwe(env, parsed, algs, encs).value, algs, encs);
  }

  /** The compact form has no place for the extra data, and serializing does not refuse it. */
  lemma ExtraDataUnseen(obj: Encryption, extra: Option<bytes>)
    ensures CompactJwe(obj.(aad := extra)) == CompactJwe(obj)
  {}

  // A message whose extra data is lost.

  function AlgAndEnc(alg: bytes, enc: bytes): Vals {
    AVal(ALG, VString(alg), AVal(ENC, VString(enc), NoVals))
  }

  lemma AlgAndEncPrints(alg: bytes, enc: bytes)
    ensures var vals := AlgAndEnc(alg, enc);
            && DistinctNames(vals) && Names(vals) == {ALG, ENC} && FieldsOf(true, vals).Some?
            && MarshalText(VMap(vals)).Some? && HeaderOf(MarshalText(VMap(vals)).value).Some?
  {
    hide HeaderOf, Coerce, SortVals, Quote;
    var vals := AlgAndEnc(alg, enc);
    assert Names(vals.rest.rest) == {} && DistinctNames(vals.rest.rest) && FieldsOf(true, vals.rest.rest).Some?;
    assert Names(vals.rest) == {ENC} && DistinctNames(vals.rest) && FieldsOf(true, vals.rest).Some?;
    assert Names(vals) == {ALG, ENC};
    FieldsMarshal(vals);
    AsciiFixed(ALG);
    AsciiFixed(ENC);
    PrintedReadsBack(vals);
  }

  lemma AlgAndEncLookup(alg: bytes, enc: bytes)
    ensures var vals := AlgAndEnc(alg, enc);
            && Names(vals) == {ALG, ENC}
            && Lookup(vals, ALG) == Some(VString(alg)) && Lookup(vals, ENC) == Some(VString(enc))
  {
    var vals := AlgAndEnc(alg, enc);
    assert Names(vals.rest.rest) == {};
    assert Names(vals.rest) == {ENC} && Lookup(vals.rest, ENC) == Some(VString(enc));
  }

  lemma AlgAndEncDecodable(env: Env, alg: bytes, enc: bytes)
    requires env.decodes(ENC, Output(VString(enc)))
    ensures EveryDecodes(env, AlgAndEnc(alg, enc))
  {
    hide Coerce, Output, PrintsNull, Names, Lookup, Quote;
    AlgAndEncLookup(alg, enc);
    AsciiFixed(ENC);
    QuotedHead(alg);
    assert Decodable(env, ALG, VString(alg));
    assert Decodable(env, ENC, VString(enc));
  }

  lemma AlgAndEncNames(alg: bytes, enc: bytes)
    requires IsUtf8(alg) && IsUtf8(enc)
    ensures NameAt(AlgAndEnc(alg, enc), ALG) == alg && NameAt(AlgAndEnc(alg, enc), ENC) == enc
  {
    hide PrintedName, Coerce, IsUtf8, Names, Lookup;
    AlgAndEncLookup(alg, enc);
    StringPrinted(alg);
    StringPrinted(enc);
    CoerceFixes(alg);
    CoerceFixes(enc);
  }

  lemma AlgAndEncRead(env: Env, alg: bytes, enc: bytes)
    requires IsUtf8(alg) && IsUtf8(enc) && env.decodes(ENC, Output(VString(enc)))
    ensures var vals := AlgAndEnc(alg, enc);
            && MarshalText(VMap(vals)).Some? && HeaderOf(MarshalText(VMap(vals)).value).Some?
            && (var h := HeaderOf(MarshalText(VMap(vals)).value).value;
                Clean(env, h) && GetString(h, ALG) == alg && GetString(h, ENC) == enc)
  {
    hide HeaderOf, IsUtf8, Clean, GetString, NameAt, MarshalText, Output, EveryDecodes, RawOf, TreeOf, AlgAndEnc,
      Names, Lookup, DistinctNames;
    var vals := AlgAndEnc(alg, enc);
    AlgAndEncPrints(alg, enc);
    var h := HeaderOf(MarshalText(VMap(vals)).value).value;
    PrintedField(vals, ALG);
    PrintedField(vals, ENC);
    AlgAndEncNames(alg, enc);
    AlgAndEncDecodable(env, alg, enc);
    CleanPrinted(env, vals, h);
  }

  /** A freshly encrypted message to one recipient, with these algorithm names and this extra data. */
  ghost function Fresh(alg: bytes, enc: bytes, extra: bytes): Encryption
    requires FieldsOf(true, AlgAndEnc(alg, enc)).Some?
  {
    Encryption(Some(SignedHeader(AlgAndEnc(alg, enc))), None, [RecipientInfo(None, [])], [], [], [], Some(extra), None)
  }

  /** What the parser asks of the protected header of a compact message. */
  predicate PassesJwe(env: Env, h: HeaderMap, algs: seq<bytes>, encs: seq<bytes>) {
    && Clean(env, h)
    && GetString(h, ALG) != [] && GetString(h, ALG) in algs && GetString(h, ENC) != [] && GetString(h, ENC) in encs
  }

  lemma AcceptedCompact(env: Env, parts: seq<bytes>, algs: seq<bytes>, encs: seq<bytes>)
    requires |parts| == 5 && parts[0] != [] && LiteralOf(parts[0]).None?
    ensures SanitizedJwe(env, RawOfParts(parts), algs, encs).Some? <==>
            HeaderOf(parts[0]).Some? && PassesJwe(env, HeaderOf(parts[0]).value, algs, encs)
  {
    hide HeaderOf, LiteralOf, Clean, GetString, MergeAll;
    if HeaderOf(parts[0]).Some? {
      var h := HeaderOf(parts[0]).value;
      MergeAlone(h);
      MergeThree(Some(h), None, None);
      NilMerge(h);
      var obj := Unchecked(RawOfParts(parts), Some(h), [RecipientInfo(None, parts[1])]);
      assert ForRecipient(obj, obj.recipients[0]) == h;
    }
  }

  /** What header values an encrypter must have been given for the parser to accept them. */
  ghost predicate AcceptableJwe(env: Env, vals: Vals, algs: seq<bytes>, encs: seq<bytes>) {
    && EveryDecodes(env, vals)
    && NameAt(vals, ALG) != [] && NameAt(vals, ALG) in algs && NameAt(vals, ENC) != [] && NameAt(vals, ENC) in encs
  }

  lemma PassesJwePrinted(env: Env, vals: Vals, h: HeaderMap, algs: seq<bytes>, encs: seq<bytes>)
    requires Printed(vals, h)
    ensures PassesJwe(env, h, algs, encs) <==> AcceptableJwe(env, vals, algs, encs)
    ensures GetString(h, ALG) == NameAt(vals, ALG) && GetString(h, ENC) == NameAt(vals, ENC)
  {
    hide Clean, GetString, NameAt, EveryDecodes, HeaderOf, MarshalText;
    PrintedField(vals, ALG);
    PrintedField(vals, ENC);
    CleanPrinted(env, vals, h);
  }

  /** `obj` was made for one recipient with these protected header values. */
  ghost predicate MadeWith(obj: Encryption, vals: Vals) {
    && DistinctNames(vals) && FieldsOf(true, vals).Some? && obj.protected == Some(SignedHeader(vals))
    && obj.unprotected == None && obj.original == None
    && |obj.recipients| == 1 && obj.recipients[0].header == None
  }

  /**
   A message made with these header values serializes, and parsing accepts it exactly when its header names
   stay distinct after ill-formed bytes are replaced and the values are acceptable.  Decryption then uses the
   algorithm names that were printed.
   */
  lemma SerializedThenParsed(env: Env, obj: Encryption, vals: Vals, algs: seq<bytes>, encs: seq<bytes>)
    requires MadeWith(obj, vals)
    ensures CompactJwe(obj).Some?
    ensures var got := ParsedCompactJwe(env, CompactJwe(obj).value, algs, encs);
            && (got.Some? <==> CoerceInjective(Names(vals)) && AcceptableJwe(env, vals, algs, encs))
            && (got.Some? ==>
                  && |got.value.recipients| == 1
                  && GetString(ForRecipient(got.value, got.value.recipients[0]), ALG) == NameAt(vals, ALG)
                  && GetString(Shared(got.value), ENC) == NameAt(vals, ENC))
  {
    hide MarshalText, FieldsOf, HeaderOf, HeaderText, LiteralOf, GetString, Join, Encoded, DotCount, Parts,
      DecodedParts, SanitizedJwe, Names, DistinctNames, PassesJwe, AcceptableJwe, CoerceInjective, SignedHeader,
      RawOfParts, ForRecipient, Shared, NameAt;
    FieldsMarshal(vals);
    Reserialized(vals);
    ObjectIsNoLiteral(vals);
    PrintedReadsBack(vals);
    HeaderTextSome(vals);
    var text := MarshalText(VMap(vals)).value;
    var parts := [text, obj.recipients[0].encryptedKey, obj.iv, obj.ciphertext, obj.tag];
    SplitJoined(parts);
    AcceptedCompact(env, parts, algs, encs);
    if HeaderOf(text).Some? {
      PassesJwePrinted(env, vals, HeaderOf(text).value, algs, encs);
      if SanitizedJwe(env, RawOfParts(parts), algs, encs).Some? { AcceptedHeaders(env, parts, algs, encs); }
    }
  }

  /** The headers of an accepted compact message are its protected header. */
  lemma AcceptedHeaders(env: Env, parts: seq<bytes>, algs: seq<bytes>, encs: seq<bytes>)
    requires |parts| == 5 && parts[0] != [] && LiteralOf(parts[0]).None?
    requires SanitizedJwe(env, RawOfParts(parts), algs, encs).Some? && HeaderOf(parts[0]).Some?
    ensures var obj := SanitizedJwe(env, RawOfParts(parts), algs, encs).value;
            && |obj.recipients| == 1
            && ForRecipient(obj, obj.recipients[0]) == HeaderOf(parts[0]).value
            && Shared(obj) == HeaderOf(parts[0]).value
  {
    hide HeaderOf, LiteralOf, Clean, GetString, MergeAll;
    var h := HeaderOf(parts[0]).value;
    MergeAlone(h);
    MergeThree(Some(h), None, None);
    NilMerge(h);
  }

  /**
   Serializing drops the extra data without an error, and what it wrote is accepted with other authenticated data.
   */
  lemma ExtraDataLost(env: Env, alg: bytes, enc: bytes, extra: bytes, algs: seq<bytes>, encs: seq<bytes>)
    requires IsUtf8(alg) && IsUtf8(enc) && alg != [] && enc != [] && alg in algs && enc in encs
    requires env.decodes(ENC, Output(VString(enc)))
    ensures FieldsOf(true, AlgAndEnc(alg, enc)).Some?
    ensures var obj := Fresh(alg, enc, extra);
            && CompactJwe(obj).Some?
            && (var got := ParsedCompactJwe(env, CompactJwe(obj).value, algs, encs);
                got.Some? && AuthDataOf(got.value) != AuthDataOf(obj))
  {
    hide MarshalText, FieldsOf, HeaderOf, HeaderText, LiteralOf, Clean, GetString, Join, Encoded, DotCount, Parts,
      DecodedParts, SanitizedJwe, AuthDataOf, IsUtf8, Names, DistinctNames;
    AlgAndEncPrints(alg, enc);
    AlgAndEncRead(env, alg, enc);
    var vals := AlgAndEnc(alg, enc);
    Reserialized(vals);
    ObjectIsNoLiteral(vals);
    var text := MarshalText(VMap(vals)).value;
    AcceptedCompact(env, [text, [], [], [], []], algs, encs);
    SplitJoined([text, [], [], [], []]);
    CompactJweRoundTrip(env, Fresh(alg, enc, extra), algs, encs);
  }
}
