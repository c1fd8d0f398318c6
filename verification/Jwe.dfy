/** JWE messages: parsing against the allow-lists, the algorithms that decryption uses, compact serialization. */
module Jwe {
  import opened Bytes
  import opened Base64
  import opened Dots
  import opened Headers
  import opened Protected
  import opened Jws

  datatype RawRecipient = RawRecipient(header: Option<HeaderMap>, encryptedKey: bytes)

  /** The raw structure; only the keys of listed recipients are still base64 text. */
  datatype RawJwe = RawJwe(
    protected: Option<bytes>, unprotected: Option<HeaderMap>, header: Option<HeaderMap>, recipients: seq<RawRecipient>,
    encryptedKey: bytes, iv: bytes, ciphertext: bytes, tag: bytes, aad: Option<bytes>)

  datatype RecipientInfo = RecipientInfo(header: Option<HeaderMap>, encryptedKey: bytes)

  datatype Encryption = Encryption(
    protected: Option<HeaderMap>, unprotected: Option<HeaderMap>, recipients: seq<RecipientInfo>,
    iv: bytes, ciphertext: bytes, tag: bytes, aad: Option<bytes>, original: Option<RawJwe>)

  // Merged headers.

  /** The headers shared by all recipients. */
  function Shared(obj: Encryption): HeaderMap {
    MergeAll([obj.protected, obj.unprotected])
  }

  function ForRecipient(obj: Encryption, r: RecipientInfo): HeaderMap {
    MergeAll([obj.protected, obj.unprotected, r.header])
  }

  lemma MergeThree(a: Option<HeaderMap>, b: Option<HeaderMap>, c: Option<HeaderMap>)
    ensures MergeAll([a, b, c]) == Merged(MergeAll([a, b]), c)
  {
    hide Merged;
    var three := [a, b, c];
    assert three[..|three| - 1] == [a, b];
  }

  method MergedHeaders(obj: Encryption, r: Option<RecipientInfo>) returns (h: HeaderMap)
    ensures h == if r.None? then Shared(obj) else ForRecipient(obj, r.value)
  {
    hide Merged, MergeAll;
    var out := new RawHeader();
    out.Merge(obj.protected);
    out.Merge(obj.unprotected);
    MergeTwo(obj.protected, obj.unprotected);
    if r.Some? {
      out.Merge(r.value.header);
      MergeThree(obj.protected, obj.unprotected, r.value.header);
    }
    return out.m;
  }

  // Parsing.

  predicate Valid(h: HeaderMap, algs: seq<bytes>, encs: seq<bytes>) {
    && (GetString(h, ALG) == [] || GetString(h, ALG) in algs)
    && (GetString(h, ENC) == [] || GetString(h, ENC) in encs)
  }

  predicate ValidRecipient(h: HeaderMap, algs: seq<bytes>, encs: seq<bytes>) {
    GetString(h, ALG) != [] && GetString(h, ENC) != [] && Valid(h, algs, encs)
  }

  predicate HasNonce(h: Option<HeaderMap>) {
    h.Some? && GetString(h.value, NONCE) != []
  }

  /** The protected header; absent, empty and null texts leave none. */
  function ReadProtected(p: Option<bytes>): Option<Option<HeaderMap>> {
    if p.None? || p.value == [] then Some(None)
    else
      var h := HeaderOf(p.value);
      if h.None? then None else if LiteralOf(p.value).Some? then Some(None) else Some(Some(h.value))
  }

  function ReadRecipients(raws: seq<RawRecipient>): Option<seq<RecipientInfo>> {
    if raws == [] then Some([])
    else
      var last := |raws| - 1;
      var init := ReadRecipients(raws[..last]);
      var key := Base64.Decode(raws[last].encryptedKey);
      if init.None? || key.None? || HasNonce(raws[last].header) then None
      else Some(init.value + [RecipientInfo(raws[last].header, key.value)])
  }

  function Unchecked(parsed: RawJwe, p: Option<HeaderMap>, recipients: seq<RecipientInfo>): Encryption {
    Encryption(p, parsed.unprotected, recipients, parsed.iv, parsed.ciphertext, parsed.tag, parsed.aad, Some(parsed))
  }

  predicate AllValid(obj: Encryption, algs: seq<bytes>, encs: seq<bytes>) {
    && (forall i | 0 <= i < |obj.recipients| :: ValidRecipient(ForRecipient(obj, obj.recipients[i]), algs, encs))
    && (obj.protected.Some? ==> Valid(obj.protected.value, algs, encs))
    && (obj.unprotected.Some? ==> Valid(obj.unprotected.value, algs, encs))
  }

  function SanitizedJwe(env: Env, parsed: RawJwe, algs: seq<bytes>, encs: seq<bytes>): Option<Encryption> {
    if algs == [] || encs == [] || HasNonce(parsed.unprotected) || HasNonce(parsed.header) then None
    else
      var p := ReadProtected(parsed.protected);
      if p.None? || !Clean(env, MergeAll([p.value, parsed.unprotected])) then None
      else
        var rs := if parsed.recipients == [] then Some([RecipientInfo(parsed.header, parsed.encryptedKey)])
                  else ReadRecipients(parsed.recipients);
        if rs.None? then None
        else
          var obj := Unchecked(parsed, p.value, rs.value);
          if AllValid(obj, algs, encs) then Some(obj) else None
  }

  method ValidateAlgEnc(h: HeaderMap, algs: seq<bytes>, encs: seq<bytes>) returns (ok: bool)
    ensures ok <==> Valid(h, algs, encs)
  {
    var alg := GetString(h, ALG);
    var enc := GetString(h, ENC);
    if alg != [] {
      var found := Contains(algs, alg);
      if !found {
        return false;
      }
    }
    if enc != [] {
      var found := Contains(encs, enc);
      if !found {
        return false;
      }
    }
    return true;
  }

  /** Decodes the listed recipients' keys and refuses nonces in their headers. */
  method DecodeRecipients(raws: seq<RawRecipient>) returns (rs: Option<seq<RecipientInfo>>)
    ensures rs == ReadRecipients(raws)
  {
    hide Base64.Decode, HasNonce;
    var done: seq<RecipientInfo> := [];
    var i := 0;
    while i < |raws|
      invariant i <= |raws| && ReadRecipients(raws[..i]) == Some(done)
    {
      assert raws[..i + 1][..i] == raws[..i] && raws[..i + 1][i] == raws[i];
      var key := Base64.Decode(raws[i].encryptedKey);
      if key.None? || HasNonce(raws[i].header) {
        StopsAt(raws, i);
        return None;
      }
      done := done + [RecipientInfo(raws[i].header, key.value)];
      i := i + 1;
    }
    assert raws[..i] == raws;
    return Some(done);
  }

  lemma {:induction false} StopsAt(raws: seq<RawRecipient>, i: nat)
    requires i < |raws| && (Base64.Decode(raws[i].encryptedKey).None? || HasNonce(raws[i].header))
    ensures ReadRecipients(raws).None?
    decreases |raws|
  {
    hide Base64.Decode, HasNonce;
    if i < |raws| - 1 { StopsAt(raws[..|raws| - 1], i); }
  }

  /** Checks every recipient, and the two shared headers by themselves. */
  method ValidateAll(obj: Encryption, algs: seq<bytes>, encs: seq<bytes>) returns (ok: bool)
    ensures ok <==> AllValid(obj, algs, encs)
  {
    hide Valid, ForRecipient, GetString;
    var i := 0;
    while i < |obj.recipients|
      invariant i <= |obj.recipients|
      invariant forall j | 0 <= j < i :: ValidRecipient(ForRecipient(obj, obj.recipients[j]), algs, encs)
    {
      var headers := MergedHeaders(obj, Some(obj.recipients[i]));
      var good := GetString(headers, ALG) != [] && GetString(headers, ENC) != [];
      if good {
        good := ValidateAlgEnc(headers, algs, encs);
      }
      if !good {
        return false;
      }
      i := i + 1;
    }
    if obj.protected.Some? {
      var good := ValidateAlgEnc(obj.protected.value, algs, encs);
      if !good {
        return false;
      }
    }
    if obj.unprotected.Some? {
      var good := ValidateAlgEnc(obj.unprotected.value, algs, encs);
      if !good {
        return false;
      }
    }
    return true;
  }

  method Sanitize(env: Env, parsed: RawJwe, algs: seq<bytes>, encs: seq<bytes>) returns (obj: Option<Encryption>)
    ensures obj == SanitizedJwe(env, parsed, algs, encs)
  {
    hide HeaderOf, LiteralOf, Clean, MergeAll, GetString, AllValid, ReadRecipients;
    if |algs| == 0 || |encs| == 0 {
      return None;
    }
    if HasNonce(parsed.unprotected) || HasNonce(parsed.header) {
      return None;
    }
    var p := ReadProtected(parsed.protected);
    if p.None? {
      return None;
    }
    var shared := MergedHeaders(Unchecked(parsed, p.value, []), None);
    if !Clean(env, shared) {
      return None;
    }
    var rs := Some([RecipientInfo(parsed.header, parsed.encryptedKey)]);
    if |parsed.recipients| > 0 {
      rs := DecodeRecipients(parsed.recipients);
      if rs.None? {
        return None;
      }
    }
    var candidate := Unchecked(parsed, p.value, rs.value);
    var ok := ValidateAll(candidate, algs, encs);
    if !ok {
      return None;
    }
    return Some(candidate);
  }

  // The algorithms that decryption uses.

  lemma SharedString(obj: Encryption, k: bytes)
    ensures var s := GetString(Shared(obj), k);
            || s == []
            || (obj.protected.Some? && s == GetString(obj.protected.value, k))
            || (obj.unprotected.Some? && s == GetString(obj.unprotected.value, k))
  {
    hide Merged, IsSet, StringOf;
    var base := Merged(map[], obj.protected);
    MergeTwo(obj.protected, obj.unprotected);
    MergedString(base, obj.unprotected, k);
    MergedString(map[], obj.protected, k);
  }

  /**
   After a successful parse every recipient's key algorithm is in its allow-list, and so is the content
   encryption taken from the shared headers unless they name none.
   */
  lemma ParsedJweAllowed(env: Env, parsed: RawJwe, algs: seq<bytes>, encs: seq<bytes>)
    requires SanitizedJwe(env, parsed, algs, encs).Some?
    ensures var obj := SanitizedJwe(env, parsed, algs, encs).value;
            && (forall i | 0 <= i < |obj.recipients| :: GetString(ForRecipient(obj, obj.recipients[i]), ALG) in algs)
            && (GetString(Shared(obj), ENC) == [] || GetString(Shared(obj), ENC) in encs)
  {
    hide GetString, ForRecipient, Shared, Clean, ReadProtected, ReadRecipients, MergeAll;
    var obj := SanitizedJwe(env, parsed, algs, encs).value;
    SharedString(obj, ENC);
  }

  // Decryption.

  function Ascii(s: string): (b: bytes)
    ensures |b| == |s|
  {
    seq(|s|, i requires 0 <= i < |s| => (s[i] as int) % 256)
  }

  /** The content ciphers that exist. */
  predicate KnownCipher(enc: bytes) {
    || enc == Ascii("A128GCM") || enc == Ascii("A192GCM") || enc == Ascii("A256GCM")
    || enc == Ascii("A128CBC-HS256") || enc == Ascii("A192CBC-HS384") || enc == Ascii("A256CBC-HS512")
  }

  lemma NoNamelessCipher()
    ensures !KnownCipher([])
  {}

  /** What an accepted message lets decryption use: a listed content cipher, and listed key algorithms. */
  lemma CipherAllowed(env: Env, parsed: RawJwe, algs: seq<bytes>, encs: seq<bytes>)
    requires SanitizedJwe(env, parsed, algs, encs).Some?
    ensures var obj := SanitizedJwe(env, parsed, algs, encs).value;
            && (KnownCipher(GetString(Shared(obj), ENC)) ==> GetString(Shared(obj), ENC) in encs)
            && (forall i | 0 <= i < |obj.recipients| :: GetString(ForRecipient(obj, obj.recipients[i]), ALG) in algs)
  {
    hide GetString, ForRecipient, Shared, SanitizedJwe, KnownCipher;
    NoNamelessCipher();
    ParsedJweAllowed(env, parsed, algs, encs);
  }

  /** The authenticated data: the protected header as it was received or as it prints, then the extra data. */
  ghost function AuthDataOf(obj: Encryption): Option<bytes> {
    var head := if obj.original.Some? && obj.original.value.protected.Some?
                then Some(Base64.Encode(obj.original.value.protected.value))
                else if obj.protected.Some? then
                  var t := HeaderText(obj.protected.value);
                  if t.None? then None else Some(Base64.Encode(t.value))
                else Some([]);
    if head.None? then None
    else Some(head.value + if obj.aad.None? then [] else [DOT] + Base64.Encode(obj.aad.value))
  }

  method AuthenticatedData(obj: Encryption) returns (data: Option<bytes>)
    ensures data == AuthDataOf(obj)
  {
    hide HeaderText, Base64.Encode;
    var output: bytes := [];
    if obj.original.Some? && obj.original.value.protected.Some? {
      output := Base64.Encode(obj.original.value.protected.value);
    } else if obj.protected.Some? {
      var t := MarshalHeader(obj.protected.value);
      if t.None? {
        return None;
      }
      output := Base64.Encode(t.value);
    }
    ghost var head := output;
    if obj.aad.Some? {
      output := output + [DOT];
      output := output + Base64.Encode(obj.aad.value);
      Assoc(head, [DOT], Base64.Encode(obj.aad.value));
    } else {
      assert head + [] == head;
    }
    return Some(output);
  }

  /** Code outside this model: unwrapping a recipient's key, opening with a content cipher, decompressing. */
  datatype Decrypter = Decrypter(
    unwrap: (HeaderMap, RecipientInfo) -> Option<bytes>,
    open: (bytes, bytes, bytes, Encryption) -> Option<bytes>,
    inflate: (Encryption, bytes) -> Option<bytes>)

  /** What decryption for recipient `r` gives, with content cipher `enc` and authenticated data `aad`. */
  function OpensFor(d: Decrypter, obj: Encryption, enc: bytes, aad: bytes, r: RecipientInfo): Option<bytes> {
    var cek := d.unwrap(ForRecipient(obj, r), r);
    if cek.None? then None else d.open(enc, cek.value, aad, obj)
  }

  /** The checks before any key is tried. */
  ghost predicate Ready(obj: Encryption) {
    CRIT !in Shared(obj) && KnownCipher(GetString(Shared(obj), ENC)) && AuthDataOf(obj).Some?
  }

  ghost function Attempt(d: Decrypter, obj: Encryption, r: RecipientInfo): Option<bytes>
    requires Ready(obj)
  {
    OpensFor(d, obj, GetString(Shared(obj), ENC), AuthDataOf(obj).value, r)
  }

  method DecryptFor(d: Decrypter, obj: Encryption, r: RecipientInfo, enc: bytes, aad: bytes) returns (p: Option<bytes>)
    requires Ready(obj) && enc == GetString(Shared(obj), ENC) && aad == AuthDataOf(obj).value
    ensures p == Attempt(d, obj, r)
  {
    hide Ready, Shared, ForRecipient, AuthDataOf, GetString;
    var headers := MergedHeaders(obj, Some(r));
    var cek := d.unwrap(headers, r);
    if cek.None? {
      return None;
    }
    p := d.open(enc, cek.value, aad, obj);
  }

  /** The checks that come first; on success, the cipher name and the authenticated data. */
  method Prepare(obj: Encryption) returns (ok: bool, enc: bytes, aad: bytes)
    ensures ok <==> Ready(obj)
    ensures ok ==> enc == GetString(Shared(obj), ENC) && aad == AuthDataOf(obj).value
  {
    hide Shared, AuthDataOf, GetString, KnownCipher;
    var headers := MergedHeaders(obj, None);
    if CRIT in headers {
      return false, [], [];
    }
    enc := GetString(headers, ENC);
    if !KnownCipher(enc) {
      return false, [], [];
    }
    var authData := AuthenticatedData(obj);
    if authData.None? {
      return false, [], [];
    }
    return true, enc, authData.value;
  }

  /** `NoRecipient` is the index error on a message without recipients. */
  datatype Decryption = Plaintext(p: bytes) | Undecrypted | NoRecipient

  /** What decrypting for a single recipient gives. */
  ghost function DecryptResult(d: Decrypter, obj: Encryption): Decryption {
    if |obj.recipients| > 1 || !Ready(obj) then Undecrypted
    else if obj.recipients == [] then NoRecipient
    else
      var p := Attempt(d, obj, obj.recipients[0]);
      var q := if p.None? then None else d.inflate(obj, p.value);
      if q.None? then Undecrypted else Plaintext(q.value)
  }

  /** The key unwraps to `cek` for recipient `r`, the content opens to `p` with it, and that inflates to `q`. */
  ghost predicate Opens(d: Decrypter, obj: Encryption, r: RecipientInfo, cek: bytes, p: bytes, q: bytes) {
    && d.unwrap(ForRecipient(obj, r), r) == Some(cek)
    && AuthDataOf(obj).Some? && d.open(GetString(Shared(obj), ENC), cek, AuthDataOf(obj).value, obj) == Some(p)
    && d.inflate(obj, p) == Some(q)
  }

  /** A plaintext is returned exactly when the key unwraps, the content opens and the result inflates to it. */
  lemma DecryptsExactly(d: Decrypter, obj: Encryption, q: bytes)
    ensures DecryptResult(d, obj) == Plaintext(q) <==>
            && |obj.recipients| == 1 && Ready(obj)
            && exists cek, p :: Opens(d, obj, obj.recipients[0], cek, p, q)
  {
    hide Ready, ForRecipient, Shared, AuthDataOf, GetString;
    ReadyData(obj);
    if DecryptResult(d, obj) == Plaintext(q) {
      var r := obj.recipients[0];
      var cek := d.unwrap(ForRecipient(obj, r), r).value;
      assert Opens(d, obj, r, cek, Attempt(d, obj, r).value, q);
    }
  }

  lemma ReadyData(obj: Encryption)
    ensures Ready(obj) ==> AuthDataOf(obj).Some?
  {}

  /** A critical header in either shared header stops every decryption. */
  lemma CriticalStops(obj: Encryption)
    requires Carries(obj.protected, CRIT) || Carries(obj.unprotected, CRIT)
    ensures !Ready(obj)
  {
    hide AuthDataOf, KnownCipher, GetString;
    var hs := [obj.protected, obj.unprotected];
    FirstSetWins(hs, CRIT);
    if Carries(obj.protected, CRIT) { assert HasAt(hs, 0, CRIT); } else { assert HasAt(hs, 1, CRIT); }
  }

  method Decrypt(d: Decrypter, obj: Encryption) returns (r: Decryption)
    ensures r == DecryptResult(d, obj)
    ensures r == NoRecipient <==> obj.recipients == [] && Ready(obj)
    ensures forall q: bytes ::
              r == Plaintext(q) <==>
              && |obj.recipients| == 1 && Ready(obj)
              && exists cek, p :: Opens(d, obj, obj.recipients[0], cek, p, q)
    ensures Carries(obj.protected, CRIT) || Carries(obj.unprotected, CRIT) ==> r == Undecrypted
  {
    hide Ready, Attempt, Opens;
    forall q: bytes
      ensures DecryptResult(d, obj) == Plaintext(q) <==>
              && |obj.recipients| == 1 && Ready(obj)
              && exists cek, p :: Opens(d, obj, obj.recipients[0], cek, p, q)
    {
      DecryptsExactly(d, obj, q);
    }
    if Carries(obj.protected, CRIT) || Carries(obj.unprotected, CRIT) { CriticalStops(obj); }
    if |obj.recipients| > 1 {
      return Undecrypted;
    }
    var ok, enc, aad := Prepare(obj);
    if !ok {
      return Undecrypted;
    }
    if |obj.recipients| == 0 {
      return NoRecipient;
    }
    var p := DecryptFor(d, obj, obj.recipients[0], enc, aad);
    if p.None? {
      return Undecrypted;
    }
    var plaintext := d.inflate(obj, p.value);
    return if plaintext.None? then Undecrypted else Plaintext(plaintext.value);
  }

  /** Parsing never yields a message without recipients. */
  lemma ParsedHasRecipient(env: Env, parsed: RawJwe, algs: seq<bytes>, encs: seq<bytes>)
    requires SanitizedJwe(env, parsed, algs, encs).Some?
    ensures SanitizedJwe(env, parsed, algs, encs).value.recipients != []
  {
    hide ReadProtected, Clean, MergeAll, AllValid, HasNonce;
  }

  /** Recipient `i` is the first whose key opens the message, and `p` is what it opens to. */
  ghost predicate FirstOpens(d: Decrypter, obj: Encryption, i: nat, p: bytes)
    requires Ready(obj)
  {
    && i < |obj.recipients| && Attempt(d, obj, obj.recipients[i]) == Some(p)
    && forall j | 0 <= j < i :: Attempt(d, obj, obj.recipients[j]).None?
  }

  /** The first recipient from `i` on whose key opens the message, with what it opens to. */
  ghost function FirstFrom(d: Decrypter, obj: Encryption, i: nat): (r: Option<(nat, bytes)>)
    requires Ready(obj)
    ensures r.Some? ==> r.value.0 < |obj.recipients|
    decreases |obj.recipients| - i
  {
    if i >= |obj.recipients| then None
    else
      var p := Attempt(d, obj, obj.recipients[i]);
      if p.Some? then Some((i, p.value)) else FirstFrom(d, obj, i + 1)
  }

  /** What decrypting for several recipients gives. */
  ghost function MultiResult(env: Env, d: Decrypter, obj: Encryption): Option<(nat, HeaderMap, bytes)> {
    if !Ready(obj) then None
    else
      var found := FirstFrom(d, obj, 0);
      if found.None? then None
      else
        var (i, p) := found.value;
        var q := d.inflate(obj, p);
        var headers := ForRecipient(obj, obj.recipients[i]);
        if q.None? || !Clean(env, headers) then None else Some((i, headers, q.value))
  }

  /** The loop over the recipients: the error left at the end is that of the last attempt. */
  method TryRecipients(d: Decrypter, obj: Encryption, enc: bytes, aad: bytes) returns (found: Option<(nat, bytes)>)
    requires Ready(obj) && enc == GetString(Shared(obj), ENC) && aad == AuthDataOf(obj).value
    ensures found.Some? ==> FirstOpens(d, obj, found.value.0, found.value.1)
    ensures found.None? ==> forall j | 0 <= j < |obj.recipients| :: Attempt(d, obj, obj.recipients[j]).None?
    ensures found == FirstFrom(d, obj, 0)
  {
    hide Ready, Shared, AuthDataOf, Attempt, GetString;
    if |obj.recipients| == 0 {
      return None;
    }
    var failed := false;
    var index := -1;
    var plaintext: bytes := [];
    var i := 0;
    while i < |obj.recipients|
      invariant i <= |obj.recipients| && (failed <==> i > 0)
      invariant forall j | 0 <= j < i :: Attempt(d, obj, obj.recipients[j]).None?
      invariant FirstFrom(d, obj, 0) == FirstFrom(d, obj, i)
    {
      var p := DecryptFor(d, obj, obj.recipients[i], enc, aad);
      failed := p.None?;
      if p.Some? {
        index := i;
        plaintext := p.value;
        break;
      }
      i := i + 1;
    }
    if failed {
      return None;
    }
    return Some((index, plaintext));
  }

  /** Decrypts for the first recipient whose key works, and returns its index, merged headers and the plaintext. */
  method DecryptMulti(env: Env, d: Decrypter, obj: Encryption) returns (r: Option<(nat, HeaderMap, bytes)>)
    ensures r == MultiResult(env, d, obj)
    ensures Carries(obj.protected, CRIT) || Carries(obj.unprotected, CRIT) ==> r.None?
    ensures r.Some? ==>
              && Ready(obj)
              && exists p :: FirstOpens(d, obj, r.value.0, p) && d.inflate(obj, p) == Some(r.value.2)
    ensures r.Some? ==>
              && r.value.0 < |obj.recipients| && r.value.1 == ForRecipient(obj, obj.recipients[r.value.0])
              && Clean(env, r.value.1)
    ensures r.None? && Ready(obj) ==>
              forall i: nat, p: bytes | FirstOpens(d, obj, i, p) ::
                d.inflate(obj, p).None? || !Clean(env, ForRecipient(obj, obj.recipients[i]))
  {
    hide Ready, Attempt, Clean, ForRecipient, FirstOpens;
    if Carries(obj.protected, CRIT) || Carries(obj.unprotected, CRIT) { CriticalStops(obj); }
    var ok, enc, aad := Prepare(obj);
    if !ok {
      return None;
    }
    var found := TryRecipients(d, obj, enc, aad);
    OnlyFirst(d, obj, found);
    if found.None? {
      return None;
    }
    var (index, content) := found.value;
    var plaintext := d.inflate(obj, content);
    if plaintext.None? {
      return None;
    }
    var headers := MergedHeaders(obj, Some(obj.recipients[index]));
    if !Clean(env, headers) {
      return None;
    }
    return Some((index, headers, plaintext.value));
  }

  lemma OnlyFirst(d: Decrypter, obj: Encryption, found: Option<(nat, bytes)>)
    requires Ready(obj)
    requires found.Some? ==> FirstOpens(d, obj, found.value.0, found.value.1)
    requires found.None? ==> forall j | 0 <= j < |obj.recipients| :: Attempt(d, obj, obj.recipients[j]).None?
    ensures found.Some? ==> found.value.0 < |obj.recipients|
    ensures forall i: nat, p: bytes | FirstOpens(d, obj, i, p) :: found == Some((i, p))
  {
    hide Ready, Attempt;
  }

  /** With a single recipient whose headers decode, both ways of decrypting agree. */
  lemma MultiAgrees(env: Env, d: Decrypter, obj: Encryption)
    requires |obj.recipients| == 1 && Clean(env, ForRecipient(obj, obj.recipients[0]))
    ensures forall q: bytes ::
              DecryptResult(d, obj) == Plaintext(q) <==>
              MultiResult(env, d, obj) == Some((0, ForRecipient(obj, obj.recipients[0]), q))
    ensures DecryptResult(d, obj).Undecrypted? <==> MultiResult(env, d, obj).None?
  {
    hide Ready, Attempt, ForRecipient, Clean;
    if Ready(obj) {
      var p := Attempt(d, obj, obj.recipients[0]);
      assert FirstFrom(d, obj, 1) == None;
      assert FirstFrom(d, obj, 0) == if p.Some? then Some((0, p.value)) else None;
    }
  }

  /** Two decrypters that do the same with listed names: key algorithms in `algs`, content ciphers in `encs`. */
  ghost predicate AgreeOn(d: Decrypter, e: Decrypter, algs: seq<bytes>, encs: seq<bytes>) {
    && (forall h, r | GetString(h, ALG) in algs :: d.unwrap(h, r) == e.unwrap(h, r))
    && (forall enc, cek, aad, obj | enc in encs :: d.open(enc, cek, aad, obj) == e.open(enc, cek, aad, obj))
    && (forall obj, p :: d.inflate(obj, p) == e.inflate(obj, p))
  }

  lemma SameAttempt(d: Decrypter, e: Decrypter, obj: Encryption, r: RecipientInfo, algs: seq<bytes>, encs: seq<bytes>)
    requires AgreeOn(d, e, algs, encs) && Ready(obj)
    requires GetString(ForRecipient(obj, r), ALG) in algs && GetString(Shared(obj), ENC) in encs
    ensures Attempt(d, obj, r) == Attempt(e, obj, r)
  {
    hide GetString, ForRecipient, Shared, AuthDataOf, KnownCipher;
  }

  lemma {:induction false} SameFirst(d: Decrypter, e: Decrypter, obj: Encryption, i: nat,
                                     algs: seq<bytes>, encs: seq<bytes>)
    requires AgreeOn(d, e, algs, encs) && Ready(obj) && GetString(Shared(obj), ENC) in encs
    requires forall j | 0 <= j < |obj.recipients| :: GetString(ForRecipient(obj, obj.recipients[j]), ALG) in algs
    ensures FirstFrom(d, obj, i) == FirstFrom(e, obj, i)
    decreases |obj.recipients| - i
  {
    hide GetString, ForRecipient, Shared, Ready, AgreeOn, Attempt;
    if i < |obj.recipients| {
      SameAttempt(d, e, obj, obj.recipients[i], algs, encs);
      SameFirst(d, e, obj, i + 1, algs, encs);
    }
  }

  /** Decrypting a parsed message uses no key algorithm and no content cipher outside the caller's lists. */
  lemma OnlyListedUsed(env: Env, parsed: RawJwe, algs: seq<bytes>, encs: seq<bytes>, d: Decrypter, e: Decrypter)
    requires SanitizedJwe(env, parsed, algs, encs).Some? && AgreeOn(d, e, algs, encs)
    ensures var obj := SanitizedJwe(env, parsed, algs, encs).value;
            DecryptResult(d, obj) == DecryptResult(e, obj) && MultiResult(env, d, obj) == MultiResult(env, e, obj)
  {
    hide SanitizedJwe, GetString, ForRecipient, Shared, AuthDataOf, KnownCipher, Attempt, Clean, FirstFrom;
    var obj := SanitizedJwe(env, parsed, algs, encs).value;
    CipherAllowed(env, parsed, algs, encs);
    if Ready(obj) {
      SameFirst(d, e, obj, 0, algs, encs);
      if obj.recipients != [] { SameAttempt(d, e, obj, obj.recipients[0], algs, encs); }
    }
  }

  // Compact serialization.

  ghost function CompactJwe(obj: Encryption): Option<bytes> {
    if |obj.recipients| != 1 || obj.unprotected.Some? || obj.protected.None? || obj.recipients[0].header.Some? then None
    else
      var text := HeaderText(obj.protected.value);
      if text.None? then None
      else Some(Join(Encoded([text.value, obj.recipients[0].encryptedKey, obj.iv, obj.ciphertext, obj.tag])))
  }

  method SerializeCompact(obj: Encryption) returns (s: Option<bytes>)
    ensures s == CompactJwe(obj)
  {
    hide HeaderText, Join, Encoded;
    if |obj.recipients| != 1 || obj.unprotected.Some? || obj.protected.None? || obj.recipients[0].header.Some? {
      return None;
    }
    var serializedProtected := MarshalHeader(obj.protected.value);
    if serializedProtected.None? {
      return None;
    }
    var out := Base64JoinWithDots(
      [serializedProtected.value, obj.recipients[0].encryptedKey, obj.iv, obj.ciphertext, obj.tag]);
    return Some(out);
  }

  /** The raw structure of five decoded parts. */
  function RawOfParts(p: seq<bytes>): RawJwe
    requires |p| == 5
  {
    RawJwe(Some(p[0]), None, None, [], p[1], p[2], p[3], p[4], None)
  }

  function ParsedCompactJwe(env: Env, input: bytes, algs: seq<bytes>, encs: seq<bytes>): Option<Encryption> {
    if DotCount(input) != 4 then None
    else
      var decoded := DecodedParts(Parts(input));
      if decoded.None? then None
      else DecodedCount(Parts(input)); SanitizedJwe(env, RawOfParts(decoded.value), algs, encs)
  }

  lemma {:induction false} DecodedCount(parts: seq<bytes>)
    ensures DecodedParts(parts).Some? ==> |DecodedParts(parts).value| == |parts|
  {
    if parts != [] { DecodedCount(parts[1..]); }
  }

  method DecodeParts(parts: seq<bytes>) returns (out: Option<seq<bytes>>)
    ensures out == DecodedParts(parts)
  {
    hide Base64.Decode;
    var done: seq<bytes> := [];
    var i := 0;
    assert parts[0..] == parts;
    NothingAhead(DecodedParts(parts));
    while i < |parts|
      invariant i <= |parts| && Before(done, DecodedParts(parts[i..])) == DecodedParts(parts)
    {
      assert parts[i..][1..] == parts[i + 1..];
      var d := Base64.Decode(parts[i]);
      if d.None? {
        return None;
      }
      if DecodedParts(parts[i + 1..]).Some? {
        var rest := DecodedParts(parts[i + 1..]).value;
        assert done + ([d.value] + rest) == (done + [d.value]) + rest;
      }
      done := done + [d.value];
      i := i + 1;
    }
    assert parts[i..] == [] && done + [] == done;
    return Some(done);
  }

  function Before(done: seq<bytes>, rest: Option<seq<bytes>>): Option<seq<bytes>> {
    if rest.None? then None else Some(done + rest.value)
  }

  lemma NothingAhead(rest: Option<seq<bytes>>)
    ensures Before([], rest) == rest
  {
    if rest.Some? { assert [] + rest.value == rest.value; }
  }

  method ParseEncryptedCompact(env: Env, input: bytes, algs: seq<bytes>, encs: seq<bytes>)
    returns (obj: Option<Encryption>)
    ensures obj == ParsedCompactJwe(env, input, algs, encs)
  {
    hide Parts, SanitizedJwe, PartsOf, DotCount, DecodedParts;
    var parts := SplitFive(input);
    if parts.None? {
      return None;
    }
    PartsAre(input);
    PartsUnique(input, parts.value, Parts(input));
    var decoded := DecodeParts(parts.value);
    if decoded.None? {
      return None;
    }
    DecodedCount(parts.value);
    obj := Sanitize(env, RawOfParts(decoded.value), algs, encs);
  }
}
