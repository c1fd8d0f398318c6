/** JWS messages: signing, the signing input, compact serialization and parsing, and verification. */
module Jws {
  import opened Bytes
  import opened Grammar
  import opened Parser
  import opened Utf8
  import opened Strings
  import opened Values
  import opened Compact
  import opened Encode
  import opened RoundTrip
  import opened Base64
  import opened Dots
  import opened Headers
  import opened Protected

  datatype RawSig = RawSig(protected: Option<bytes>, header: Option<HeaderMap>, signature: bytes)

  datatype RawJws = RawJws(
    payload: Option<bytes>, protected: Option<bytes>, header: Option<HeaderMap>, signature: bytes,
    signatures: seq<RawSig>)

  /** `algorithm` is the name checked at parse time; `original` is kept only by parsing. */
  datatype Signature = Signature(
    protected: Option<HeaderMap>, header: Option<HeaderMap>, algorithm: bytes, value: bytes, original: Option<RawSig>)

  datatype Message = Message(payload: bytes, signatures: seq<Signature>)

  // The signing input.

  function PayloadPart(needsBase64: bool, payload: bytes): bytes {
    [DOT] + if needsBase64 then Base64.Encode(payload) else payload
  }

  /** What Sign makes of the b64 header: None when it is not a boolean. */
  function NeedsBase64(vals: Vals): Option<bool> {
    var v := Lookup(vals, B64);
    if v.None? then Some(true) else if v.value.VBool? then Some(v.value.b) else None
  }

  /** The bytes that are signed. */
  ghost function SigningInput(vals: Vals, payload: bytes): Option<bytes> {
    var text, needs := MarshalText(VMap(vals)), NeedsBase64(vals);
    if text.None? || needs.None? then None
    else Some(Base64.Encode(text.value) + PayloadPart(needs.value, payload))
  }

  /** The bytes that verification rebuilds. */
  ghost function AuthData(payload: bytes, sig: Signature): Option<bytes> {
    if sig.original.Some? && sig.original.value.protected.Some? then
      var p := sig.original.value.protected.value;
      var h := HeaderOf(p);
      if h.None? then None else Some(Base64.Encode(p) + PayloadPart(GetB64(h.value), payload))
    else if sig.protected.Some? then
      var t := HeaderText(sig.protected.value);
      if t.None? then None else Some(Base64.Encode(t.value) + PayloadPart(GetB64(sig.protected.value), payload))
    else Some([] + PayloadPart(true, payload))
  }

  /** The protected header text that counts: the one received, or the one printed now; none at all reads as empty. */
  ghost function TextOf(sig: Signature): Option<bytes> {
    if sig.original.Some? && sig.original.value.protected.Some? then sig.original.value.protected
    else if sig.protected.Some? then HeaderText(sig.protected.value)
    else Some([])
  }

  /** The b64 header of that text, or of the printed header. */
  ghost predicate EncodesPayload(sig: Signature) {
    if sig.original.Some? && sig.original.value.protected.Some? then
      var h := HeaderOf(sig.original.value.protected.value);
      h.Some? ==> GetB64(h.value)
    else sig.protected.Some? ==> GetB64(sig.protected.value)
  }

  lemma EmptyEncoded()
    ensures Base64.Encode([]) == []
  {}

  method ComputeAuthData(payload: bytes, sig: Signature) returns (data: Option<bytes>)
    ensures data == AuthData(payload, sig)
    ensures data.Some? ==>
              && TextOf(sig).Some?
              && data.value == Base64.Encode(TextOf(sig).value) + [DOT]
                               + if EncodesPayload(sig) then Base64.Encode(payload) else payload
  {
    hide HeaderOf, HeaderText, Base64.Encode, GetB64;
    var authData := new Buffer();
    var protectedHeader: HeaderMap := map[];
    if sig.original.Some? && sig.original.value.protected.Some? {
      var p := sig.original.value.protected.value;
      var h := HeaderOf(p);
      if h.None? {
        return None;
      }
      protectedHeader := h.value;
      authData.Write(Base64.Encode(p));
      assert authData.data == Base64.Encode(p);
    } else if sig.protected.Some? {
      protectedHeader := sig.protected.value;
      var t := MarshalHeader(protectedHeader);
      if t.None? {
        return None;
      }
      authData.Write(Base64.Encode(t.value));
      assert authData.data == Base64.Encode(t.value);
    } else {
      DefaultB64();
    }
    var needsBase64 := GetB64(protectedHeader);
    ghost var head := authData.data;
    authData.Write([DOT]);
    if needsBase64 {
      authData.Write(Base64.Encode(payload));
    } else {
      authData.Write(payload);
    }
    assert authData.data == head + PayloadPart(needsBase64, payload);
    EmptyEncoded();
    Assoc(head, [DOT], if needsBase64 then Base64.Encode(payload) else payload);
    return Some(authData.data);
  }

  lemma DefaultB64()
    ensures GetB64(map[])
  {}

  // Sign.

  /** One signer: the protected header values it is given, and the signing function. */
  datatype Recipient = Recipient(protected: Vals, signer: bytes -> Option<bytes>)

  /** `sig` is the recipient's signature over the signing input, with every header value kept as a raw message. */
  ghost predicate Signs(r: Recipient, payload: bytes, sig: Signature) {
    var input := SigningInput(r.protected, payload);
    && input.Some? && r.signer(input.value) == Some(sig.value)
    && FieldsOf(true, r.protected).Some? && sig.protected == Some(SignedHeader(r.protected))
    && sig.header == None && sig.original == None
  }

  /** `h` holds the raw messages of the entries before `rest`. */
  ghost predicate Stored(vals: Vals, h: HeaderMap, rest: Vals) {
    && (FieldsOf(true, vals).Some? <==> FieldsOf(true, rest).Some?)
    && h.Keys !! Names(rest) && DistinctNames(rest)
    && (FieldsOf(true, vals).Some? ==> SignedHeader(vals) == SignedHeader(rest) + h)
  }

  lemma StoredMore(vals: Vals, h: HeaderMap, rest: Vals)
    requires Stored(vals, h, rest) && rest.AVal? && TreeOf(rest.v).Some?
    ensures Stored(vals, h[rest.name := Some(MarshalText(rest.v).value)], rest.rest)
  {
    hide TreeOf, Quote;
    var x := Some(MarshalText(rest.v).value);
    if FieldsOf(true, vals).Some? {
      var m := SignedHeader(rest.rest);
      assert m[rest.name := x] + h == m + h[rest.name := x];
    }
  }

  /** Marshals every header value by itself. */
  method RawMessages(vals: Vals) returns (h: Option<HeaderMap>)
    requires DistinctNames(vals)
    ensures h.Some? <==> FieldsOf(true, vals).Some?
    ensures h.Some? ==> h.value == SignedHeader(vals)
  {
    hide TreeOf, Quote, Parse, CompactText;
    var raw: HeaderMap := map[];
    var rest := vals;
    assert FieldsOf(true, vals).Some? ==> SignedHeader(vals) + map[] == SignedHeader(vals);
    while rest.AVal?
      invariant Stored(vals, raw, rest)
      decreases rest
    {
      var b := Marshal(rest.v);
      if b.None? {
        return None;
      }
      StoredMore(vals, raw, rest);
      raw := raw[rest.name := Some(b.value)];
      rest := rest.rest;
    }
    assert map[] + raw == raw;
    return Some(raw);
  }

  lemma FieldsMarshal(vals: Vals)
    ensures MarshalText(VMap(vals)).Some? <==> FieldsOf(true, vals).Some?
  {
    hide FieldsOf;
    SortRaw(vals);
  }

  method SignOne(r: Recipient, payload: bytes) returns (sig: Option<Signature>)
    requires DistinctNames(r.protected)
    ensures sig.Some? ==> Signs(r, payload, sig.value)
    ensures sig.None? <==> Fails(r, payload)
  {
    hide TreeOf, FieldsOf, Parse, CompactText, Base64.Encode, MarshalText, SignedHeader;
    var text := Encode.Marshal(VMap(r.protected));
    if text.None? {
      return None;
    }
    FieldsMarshal(r.protected);
    var b64 := Lookup(r.protected, B64);
    var needsBase64 := true;
    if b64.Some? {
      if !b64.value.VBool? {
        return None;
      }
      needsBase64 := b64.value.b;
    }
    var input := new Buffer();
    input.Write(Base64.Encode(text.value));
    input.Write([DOT]);
    if needsBase64 {
      input.Write(Base64.Encode(payload));
    } else {
      input.Write(payload);
    }
    assert input.data == Base64.Encode(text.value) + PayloadPart(needsBase64, payload);
    var value := r.signer(input.data);
    if value.None? {
      return None;
    }
    var h := RawMessages(r.protected);
    return Some(Signature(Some(h.value), None, [], value.value, None));
  }

  /** A header value does not marshal, b64 is not a boolean, or the signer fails. */
  ghost predicate Fails(r: Recipient, payload: bytes) {
    var input := SigningInput(r.protected, payload);
    input.None? || r.signer(input.value).None?
  }

  /** Signs for every recipient, or for none. */
  method Sign(payload: bytes, recipients: seq<Recipient>) returns (obj: Option<Message>)
    requires forall i | 0 <= i < |recipients| :: DistinctNames(recipients[i].protected)
    ensures obj.Some? ==>
              && obj.value.payload == payload && |obj.value.signatures| == |recipients|
              && forall i | 0 <= i < |recipients| :: Signs(recipients[i], payload, obj.value.signatures[i])
    ensures obj.None? ==> exists i :: 0 <= i < |recipients| && Fails(recipients[i], payload)
  {
    hide Signs, Fails, DistinctNames;
    var sigs: seq<Signature> := [];
    while |sigs| < |recipients|
      invariant |sigs| <= |recipients|
      invariant forall i | 0 <= i < |sigs| :: Signs(recipients[i], payload, sigs[i])
    {
      var sig := SignOne(recipients[|sigs|], payload);
      if sig.None? {
        return None;
      }
      sigs := sigs + [sig.value];
    }
    return Some(Message(payload, sigs));
  }

  // The b64 header survives printing and reading.

  lemma BoolLiteral(b: bool)
    ensures MarshalText(VBool(b)) == Some(if b then TRUE else FALSE)
    ensures LiteralOf(if b then TRUE else FALSE) == Some(if b then TRUE else FALSE)
    ensures RawOf(TreeOf(VBool(b)).value) == Some(if b then TRUE else FALSE)
  {
    hide Parse, CompactText;
    var w := if b then TRUE else FALSE;
    LeafText(Leaf(w));
    MarshalForm(VBool(b));
  }

  lemma GetB64Of(h: HeaderMap, b: bool)
    requires B64 in h && h[B64] == Some(if b then TRUE else FALSE)
    ensures GetB64(h) == b
  {
    hide LiteralOf;
    BoolLiteral(b);
  }

  lemma {:induction false} SignedAt(vals: Vals, n: bytes)
    requires FieldsOf(true, vals).Some? && DistinctNames(vals)
    ensures n in SignedHeader(vals) <==> n in Names(vals)
    ensures n in Names(vals) ==>
              && MarshalText(Lookup(vals, n).value).Some?
              && SignedHeader(vals)[n] == Some(MarshalText(Lookup(vals, n).value).value)
    decreases vals
  {
    hide TreeOf, Quote;
    if vals.AVal? { SignedAt(vals.rest, n); }
  }

  lemma SignedB64(vals: Vals)
    requires FieldsOf(true, vals).Some? && DistinctNames(vals) && NeedsBase64(vals).Some?
    ensures GetB64(SignedHeader(vals)) == NeedsBase64(vals).value
  {
    hide FieldsOf, TreeOf, LiteralOf, SignedHeader;
    SignedAt(vals, B64);
    if B64 in Names(vals) {
      BoolLiteral(NeedsBase64(vals).value);
      GetB64Of(SignedHeader(vals), NeedsBase64(vals).value);
    }
  }

  lemma PrintedB64(vals: Vals)
    requires MarshalText(VMap(vals)).Some? && DistinctNames(vals) && NeedsBase64(vals).Some?
    requires HeaderOf(MarshalText(VMap(vals)).value).Some?
    ensures GetB64(HeaderOf(MarshalText(VMap(vals)).value).value) == NeedsBase64(vals).value
  {
    hide MarshalText, TreeOf, LiteralOf, HeaderOf, RawOf;
    PrintedField(vals, B64);
    if B64 in Names(vals) {
      BoolLiteral(NeedsBase64(vals).value);
      GetB64Of(HeaderOf(MarshalText(VMap(vals)).value).value, NeedsBase64(vals).value);
    }
  }

  /** Right after signing, verification rebuilds the signed bytes. */
  lemma SignedInput(r: Recipient, payload: bytes, sig: Signature)
    requires DistinctNames(r.protected) && Signs(r, payload, sig)
    ensures AuthData(payload, sig) == SigningInput(r.protected, payload)
  {
    hide MarshalText, FieldsOf, GetB64, HeaderText, SignedHeader, Base64.Encode, NeedsBase64;
    Reserialized(r.protected);
    SignedB64(r.protected);
  }

  // Parsing.

  /** What parsing asks of code outside this model: other header values decode, an embedded key is public. */
  datatype Env = Env(decodes: (bytes, bytes) -> bool, embeddable: bytes -> bool)

  /** Every value of the header decodes into the type its key calls for. */
  predicate Clean(env: Env, h: HeaderMap) {
    forall k | k in h && h[k].Some? :: if k == ALG then StringOk(h[k].value) else env.decodes(k, h[k].value)
  }

  predicate JwkOk(env: Env, h: HeaderMap) {
    JWK in h && h[JWK].Some? ==> env.embeddable(h[JWK].value)
  }

  /** The protected header of a raw signature; an empty one counts as absent. */
  function ProtectedOf(raw: RawSig): Option<Option<HeaderMap>> {
    if raw.protected.None? || raw.protected.value == [] then Some(None)
    else var h := HeaderOf(raw.protected.value); if h.None? then None else Some(Some(h.value))
  }

  /**
   One signature of a parsed message.  `seen` is the unprotected header as far as the checks know it:
   the header itself in the flattened form, nothing yet in the general form.
   */
  function Checked(env: Env, raw: RawSig, seen: Option<HeaderMap>, algs: seq<bytes>): Option<Signature> {
    var p := ProtectedOf(raw);
    if p.None? || (raw.header.Some? && GetString(raw.header.value, NONCE) != []) then None
    else
      var merged := MergeAll([p.value, seen]);
      var alg := GetString(merged, ALG);
      if !Clean(env, merged) || alg !in algs then None
      else if (seen.Some? && !Clean(env, seen.value)) || (p.value.Some? && !Clean(env, p.value.value)) then None
      else if !JwkOk(env, merged) then None
      else Some(Signature(p.value, raw.header, alg, raw.signature, Some(raw)))
  }

  /** A parsed message, or None when any check fails. */
  function SanitizedOf(env: Env, parsed: RawJws, algs: seq<bytes>): Option<Message> {
    if algs == [] || parsed.payload.None? then None
    else
      var sigs := if parsed.signatures == []
                  then AllChecked(env, [RawSig(parsed.protected, parsed.header, parsed.signature)], algs, true)
                  else AllChecked(env, parsed.signatures, algs, false);
      if sigs.None? then None else Some(Message(parsed.payload.value, sigs.value))
  }

  function AllChecked(env: Env, raws: seq<RawSig>, algs: seq<bytes>, flat: bool): (r: Option<seq<Signature>>)
    ensures r.Some? ==>
              && |r.value| == |raws|
              && forall i | 0 <= i < |raws| ::
                   Checked(env, raws[i], if flat then raws[i].header else None, algs) == Some(r.value[i])
  {
    if raws == [] then Some([])
    else
      var last := |raws| - 1;
      var init := AllChecked(env, raws[..last], algs, flat);
      var sig := Checked(env, raws[last], if flat then raws[last].header else None, algs);
      if init.None? || sig.None? then None else Some(init.value + [sig.value])
  }

  /** The allow-list check on one signature, with the headers merged in place. */
  method CheckSignature(env: Env, raw: RawSig, seen: Option<HeaderMap>, algs: seq<bytes>)
    returns (sig: Option<Signature>)
    ensures sig == Checked(env, raw, seen, algs)
  {
    hide HeaderOf, Clean, JwkOk, GetString, Merged;
    var protected: Option<HeaderMap> := None;
    if raw.protected.Some? && |raw.protected.value| > 0 {
      var h := HeaderOf(raw.protected.value);
      if h.None? {
        return None;
      }
      protected := Some(h.value);
    }
    if raw.header.Some? && GetString(raw.header.value, NONCE) != [] {
      return None;
    }
    var out := new RawHeader();
    out.Merge(protected);
    out.Merge(seen);
    MergeTwo(protected, seen);
    if !Clean(env, out.m) {
      return None;
    }
    var alg := GetString(out.m, ALG);
    var found := Contains(algs, alg);
    if !found {
      return None;
    }
    if seen.Some? && !Clean(env, seen.value) {
      return None;
    }
    if protected.Some? && !Clean(env, protected.value) {
      return None;
    }
    if !JwkOk(env, out.m) {
      return None;
    }
    return Some(Signature(protected, raw.header, alg, raw.signature, Some(raw)));
  }

  lemma MergeTwo(a: Option<HeaderMap>, b: Option<HeaderMap>)
    ensures MergeAll([a, b]) == Merged(Merged(map[], a), b)
  {
    hide Merged;
    var two, one := [a, b], [a];
    assert two[..|two| - 1] == one && one[..|one| - 1] == [];
    assert MergeAll([]) == map[];
    assert MergeAll(one) == Merged(map[], a);
  }

  method Contains(haystack: seq<bytes>, needle: bytes) returns (found: bool)
    ensures found <==> needle in haystack
  {
    var i := 0;
    while i < |haystack|
      invariant i <= |haystack| && needle !in haystack[..i]
    {
      if haystack[i] == needle {
        return true;
      }
      i := i + 1;
    }
    return false;
  }

  /** Parsing from the raw JSON structure, in its flattened or its general form. */
  method Sanitized(env: Env, parsed: RawJws, algs: seq<bytes>) returns (obj: Option<Message>)
    ensures obj == SanitizedOf(env, parsed, algs)
  {
    hide Checked;
    if |algs| == 0 {
      return None;
    }
    if parsed.payload.None? {
      return None;
    }
    if |parsed.signatures| == 0 {
      var raw := RawSig(parsed.protected, parsed.header, parsed.signature);
      var sig := CheckSignature(env, raw, parsed.header, algs);
      OneChecked(env, raw, algs);
      if sig.None? {
        return None;
      }
      return Some(Message(parsed.payload.value, [sig.value]));
    }
    var sigs: seq<Signature> := [];
    var i := 0;
    while i < |parsed.signatures|
      invariant i <= |parsed.signatures| && AllChecked(env, parsed.signatures[..i], algs, false) == Some(sigs)
    {
      var sig := CheckSignature(env, parsed.signatures[i], None, algs);
      MoreChecked(env, parsed.signatures, i, algs);
      if sig.None? {
        return None;
      }
      sigs := sigs + [sig.value];
      i := i + 1;
    }
    assert parsed.signatures[..i] == parsed.signatures;
    return Some(Message(parsed.payload.value, sigs));
  }

  lemma OneChecked(env: Env, raw: RawSig, algs: seq<bytes>)
    ensures var sig := Checked(env, raw, raw.header, algs);
            AllChecked(env, [raw], algs, true) == if sig.None? then None else Some([sig.value])
  {
    hide Checked;
    var one := [raw];
    assert one[..|one| - 1] == [];
    assert AllChecked(env, [], algs, true) == Some([]);
    var sig := Checked(env, raw, raw.header, algs);
    if sig.Some? { assert [] + [sig.value] == [sig.value]; }
  }

  lemma MoreChecked(env: Env, raws: seq<RawSig>, i: nat, algs: seq<bytes>)
    requires i < |raws| && AllChecked(env, raws[..i], algs, false).Some?
    ensures var sig := Checked(env, raws[i], None, algs);
            && (sig.Some? ==>
                  AllChecked(env, raws[..i + 1], algs, false)
                  == Some(AllChecked(env, raws[..i], algs, false).value + [sig.value]))
            && (sig.None? ==> AllChecked(env, raws, algs, false).None?)
  {
    hide Checked;
    assert raws[..i + 1][..i] == raws[..i] && raws[..i + 1][i] == raws[i];
  }

  // The allow-list.

  /** The algorithm name that verification uses. */
  function VerifyAlg(sig: Signature): bytes {
    GetString(MergeAll([sig.protected, sig.header]), ALG)
  }

  ghost predicate Allowed(env: Env, parsed: RawJws, algs: seq<bytes>) {
    var obj := SanitizedOf(env, parsed, algs);
    obj.Some? ==> forall i | 0 <= i < |obj.value.signatures| :: VerifyAlg(obj.value.signatures[i]) in algs
  }

  /** In the flattened form the name checked is the name used. */
  lemma FlatAllowed(env: Env, raw: RawSig, algs: seq<bytes>)
    requires Checked(env, raw, raw.header, algs).Some?
    ensures VerifyAlg(Checked(env, raw, raw.header, algs).value) in algs
  {
    hide MergeAll, Clean, JwkOk, GetString, HeaderOf;
  }

  /** In the general form only the protected name is checked; a non-empty one is also the one used. */
  lemma GeneralAllowed(env: Env, raw: RawSig, algs: seq<bytes>)
    requires Checked(env, raw, None, algs).Some? && [] !in algs
    ensures VerifyAlg(Checked(env, raw, None, algs).value) in algs
  {
    hide Clean, JwkOk, GetString, HeaderOf, Merged, IsSet;
    var p := ProtectedOf(raw).value;
    var base := Merged(map[], p);
    MergeTwo(p, None);
    MergeTwo(p, raw.header);
    NilMerge(base);
    StringIsSet(base, ALG);
    MergedString(base, raw.header, ALG);
  }

  lemma NilMerge(h: HeaderMap)
    ensures Merged(h, None) == h
  {}

  lemma ParsedAllowed(env: Env, parsed: RawJws, algs: seq<bytes>)
    requires [] !in algs || parsed.signatures == []
    ensures Allowed(env, parsed, algs)
  {
    hide Checked, VerifyAlg;
    var obj := SanitizedOf(env, parsed, algs);
    if obj.Some? {
      var flat := parsed.signatures == [];
      var raws := if flat then [RawSig(parsed.protected, parsed.header, parsed.signature)] else parsed.signatures;
      forall i | 0 <= i < |obj.value.signatures| ensures VerifyAlg(obj.value.signatures[i]) in algs {
        if flat { FlatAllowed(env, raws[i], algs); } else { GeneralAllowed(env, raws[i], algs); }
      }
    }
  }

  function Longer(algs: seq<bytes>): (n: nat)
    ensures forall i | 0 <= i < |algs| :: |algs[i]| < n
  {
    if algs == [] then 1
    else var n := Longer(algs[1..]); if |algs[0]| < n then n else |algs[0]| + 1
  }

  function AsciiName(n: nat): (s: bytes)
    ensures |s| == n
  {
    if n == 0 then [] else [0x41] + AsciiName(n - 1)
  }

  lemma {:induction false} AsciiNameUtf8(n: nat)
    ensures IsUtf8(AsciiName(n))
  {
    if n > 0 { AsciiNameUtf8(n - 1); }
  }

  lemma QuotedString(s: bytes)
    requires IsUtf8(s)
    ensures StringOf(Quote(s)) == s
  {
    hide Parse, Quote, Unquoted, IsUtf8;
    MarshalForm(VString(s));
    LeafText(Leaf(Quote(s)));
    QuotedBack(s);
  }

  /** A general-form message whose only algorithm name is unprotected and in no allow-list. */
  function Unlisted(algs: seq<bytes>): RawJws {
    var header := map[ALG := Some(Quote(AsciiName(Longer(algs))))];
    RawJws(Some([]), None, None, [], [RawSig(None, Some(header), [])])
  }

  lemma UnlistedAccepted(env: Env, algs: seq<bytes>)
    requires [] in algs
    ensures !Allowed(env, Unlisted(algs), algs)
  {
    hide Quote, StringOf, IsUtf8, LiteralOf, AsciiName, Longer;
    var name := AsciiName(Longer(algs));
    AsciiNameUtf8(Longer(algs));
    QuotedString(name);
    var header: HeaderMap := map[ALG := Some(Quote(name))];
    var raw := RawSig(None, Some(header), []);
    UnlistedChecked(env, raw, algs);
    var sig := Signature(None, Some(header), [], [], Some(raw));
    NilMerge(map[]);
    MergeTwo(None, Some(header));
    MergedString(map[], Some(header), ALG);
    assert VerifyAlg(sig) == name;
    var raws := [raw];
    assert raws[..|raws| - 1] == [] && AllChecked(env, [], algs, false) == Some([]);
    assert AllChecked(env, raws, algs, false) == Some([] + [sig]);
    assert VerifyAlg(([] + [sig])[0]) !in algs;
  }

  lemma UnlistedChecked(env: Env, raw: RawSig, algs: seq<bytes>)
    requires [] in algs && raw.protected == None && raw.header.Some? && raw.header.value.Keys == {ALG}
    ensures Checked(env, raw, None, algs) == Some(Signature(None, raw.header, [], raw.signature, Some(raw)))
  {
    hide StringOf;
    NilMerge(map[]);
    MergeTwo(None, None);
  }

  /**
   For every accepted message the algorithm used by verification is in the allow-list, exactly when
   the allow-list does not contain the empty name.
   */
  lemma AllowListExact(env: Env, algs: seq<bytes>)
    ensures (forall parsed :: Allowed(env, parsed, algs)) <==> [] !in algs
  {
    hide Allowed, Unlisted;
    if [] !in algs {
      forall parsed ensures Allowed(env, parsed, algs) { ParsedAllowed(env, parsed, algs); }
    } else {
      UnlistedAccepted(env, algs);
    }
  }

  // Compact serialization.

  /** The protected header was the text null: a pointer to a nil map, which the printer refuses. */
  predicate NilHeader(sig: Signature) {
    sig.original.Some? && sig.original.value.protected.Some? && LiteralOf(sig.original.value.protected.value).Some?
  }

  ghost function CompactOf(obj: Message, detached: bool): Option<bytes> {
    if |obj.signatures| != 1 || obj.signatures[0].header.Some? || obj.signatures[0].protected.None? then None
    else if NilHeader(obj.signatures[0]) then None
    else
      var sig := obj.signatures[0];
      var text := HeaderText(sig.protected.value);
      if text.None? then None
      else Some(Join(Encoded([text.value, if detached then [] else obj.payload, sig.value])))
  }

  method CompactSerialize(obj: Message, detached: bool) returns (s: Option<bytes>)
    ensures s == CompactOf(obj, detached)
  {
    hide HeaderText, Join, Encoded, NilHeader;
    if |obj.signatures| != 1 || obj.signatures[0].header.Some? || obj.signatures[0].protected.None? {
      return None;
    }
    if NilHeader(obj.signatures[0]) {
      return None;
    }
    var serializedProtected := MarshalHeader(obj.signatures[0].protected.value);
    if serializedProtected.None? {
      return None;
    }
    var payload: bytes := [];
    if !detached {
      payload := obj.payload;
    }
    var out := Base64JoinWithDots([serializedProtected.value, payload, obj.signatures[0].value]);
    return Some(out);
  }

  /** What parsing a compact message answers; `payload` is given when it is detached. */
  function ParsedCompact(env: Env, input: bytes, payload: Option<bytes>, algs: seq<bytes>): Option<Message> {
    if DotCount(input) != 2 then None
    else
      var parts := Parts(input);
      if parts[1] != [] && payload.Some? then None
      else
        var p, s := Base64.Decode(parts[0]), Base64.Decode(parts[2]);
        var c := if payload.Some? then payload else Base64.Decode(parts[1]);
        if p.None? || c.None? || s.None? then None
        else SanitizedOf(env, RawJws(c, p, None, s.value, []), algs)
  }

  method ParseSignedCompact(env: Env, input: bytes, payload: Option<bytes>, algs: seq<bytes>)
    returns (obj: Option<Message>)
    ensures obj == ParsedCompact(env, input, payload, algs)
  {
    hide Parts, SanitizedOf, Base64.Decode, PartsOf, DotCount;
    var parts := SplitThree(input);
    if parts.None? {
      return None;
    }
    PartsAre(input);
    PartsUnique(input, parts.value, Parts(input));
    var claims := parts.value[1];
    if claims != [] && payload.Some? {
      return None;
    }
    var rawProtected := Base64.Decode(parts.value[0]);
    if rawProtected.None? {
      return None;
    }
    var body := payload;
    if payload.None? {
      body := Base64.Decode(claims);
      if body.None? {
        return None;
      }
    }
    var signature := Base64.Decode(parts.value[2]);
    if signature.None? {
      return None;
    }
    obj := Sanitized(env, RawJws(body, rawProtected, None, signature.value, []), algs);
  }

  // Verification.

  /** Code outside this model: critical headers are supported, and the key chosen for a signature accepts it. */
  datatype Verifier = Verifier(supported: HeaderMap -> bool, accepts: (Signature, bytes, bytes) -> bool)

  ghost predicate Verifies(v: Verifier, payload: bytes, sig: Signature) {
    && (sig.header.Some? ==> CRIT !in sig.header.value)
    && (sig.protected.Some? ==> v.supported(sig.protected.value))
    && AuthData(payload, sig).Some?
    && v.accepts(sig, AuthData(payload, sig).value, VerifyAlg(sig))
  }

  predicate Carries(h: Option<HeaderMap>, k: bytes) {
    h.Some? && k in h.value
  }

  /** A critical header outside the protected one is refused. */
  lemma NoCritical(v: Verifier, payload: bytes, sig: Signature)
    ensures Carries(sig.header, CRIT) ==> !Verifies(v, payload, sig)
  {}

  method VerifySignature(v: Verifier, payload: bytes, sig: Signature) returns (ok: bool)
    ensures ok <==> Verifies(v, payload, sig)
  {
    hide AuthData, MergeAll, GetString, Merged;
    if sig.header.Some? {
      if CRIT in sig.header.value {
        return false;
      }
    }
    if sig.protected.Some? {
      var good := v.supported(sig.protected.value);
      if !good {
        return false;
      }
    }
    var input := ComputeAuthData(payload, sig);
    if input.None? {
      return false;
    }
    var headers := new RawHeader();
    headers.Merge(sig.protected);
    headers.Merge(sig.header);
    MergeTwo(sig.protected, sig.header);
    var alg := GetString(headers.m, ALG);
    ok := v.accepts(sig, input.value, alg);
  }

  /** `NoSignature` is the index error on a message without signatures. */
  datatype Verification = Accepted | Rejected | NoSignature

  method DetachedVerify(v: Verifier, obj: Message, payload: bytes) returns (r: Verification)
    ensures r == Accepted <==> |obj.signatures| == 1 && Verifies(v, payload, obj.signatures[0])
    ensures r == NoSignature <==> obj.signatures == []
    ensures |obj.signatures| == 1 && Carries(obj.signatures[0].header, CRIT) ==> r == Rejected
  {
    if |obj.signatures| > 1 {
      return Rejected;
    }
    if |obj.signatures| == 0 {
      return NoSignature;
    }
    var ok := VerifySignature(v, payload, obj.signatures[0]);
    return if ok then Accepted else Rejected;
  }

  /** Parsing never yields a message without signatures. */
  lemma ParsedHasSignature(env: Env, parsed: RawJws, algs: seq<bytes>)
    requires SanitizedOf(env, parsed, algs).Some?
    ensures SanitizedOf(env, parsed, algs).value.signatures != []
  {
    hide Checked;
    OneChecked(env, RawSig(parsed.protected, parsed.header, parsed.signature), algs);
  }

  /** The first signature that verifies, or -1. */
  method DetachedVerifyMulti(v: Verifier, obj: Message, payload: bytes) returns (index: int)
    ensures -1 <= index < |obj.signatures|
    ensures index >= 0 ==> Verifies(v, payload, obj.signatures[index])
    ensures forall i | 0 <= i < |obj.signatures| && (index < 0 || i < index) :: !Verifies(v, payload, obj.signatures[i])
    ensures index >= 0 ==> !Carries(obj.signatures[index].header, CRIT)
  {
    hide Verifies;
    var i := 0;
    while i < |obj.signatures|
      invariant i <= |obj.signatures|
      invariant forall j | 0 <= j < i :: !Verifies(v, payload, obj.signatures[j])
    {
      var ok := VerifySignature(v, payload, obj.signatures[i]);
      if ok {
        assert Verifies(v, payload, obj.signatures[i]) ==> !Carries(obj.signatures[i].header, CRIT) by {
          NoCritical(v, payload, obj.signatures[i]);
        }
        return i;
      }
      i := i + 1;
    }
    return -1;
  }
}
