/** Header maps of raw JSON messages: the string getters, `isSet` and `merge`. */
module Headers {
  import opened Bytes
  import opened Grammar
  import opened Parser
  import opened Values

  const ALG: bytes := [0x61, 0x6C, 0x67]
  const ENC: bytes := [0x65, 0x6E, 0x63]
  const B64: bytes := [0x62, 0x36, 0x34]
  const JWK: bytes := [0x6A, 0x77, 0x6B]
  const CRIT: bytes := [0x63, 0x72, 0x69, 0x74]
  const NONCE: bytes := [0x6E, 0x6F, 0x6E, 0x63, 0x65]

  /** A pointer to a raw message, nil when the message was null. */
  type Raw = Option<bytes>

  type HeaderMap = map<bytes, Raw>

  /** The literal that a raw message consists of, if it is one. */
  function LiteralOf(raw: bytes): Option<bytes> {
    var d := Parse(raw);
    if d.Some? && d.value.tree.Leaf? && d.value.tree.text != [] then Some(d.value.tree.text) else None
  }

  /** What decoding into a string variable leaves there; errors and null leave it empty. */
  function StringOf(raw: bytes): bytes {
    var t := LiteralOf(raw);
    if t.Some? && t.value[0] == QUOTE then Unquoted(t.value) else []
  }

  /** Decoding into a string variable succeeds. */
  predicate StringOk(raw: bytes) {
    var t := LiteralOf(raw);
    t.Some? && (t.value[0] == QUOTE || t.value[0] == 0x6E)
  }

  /** Anything but the empty string counts as set, even what does not decode. */
  predicate SetRaw(raw: bytes) {
    var t := LiteralOf(raw);
    !(t.Some? && t.value[0] == QUOTE && Unquoted(t.value) == [])
  }

  function GetString(h: HeaderMap, k: bytes): bytes {
    if k !in h || h[k].None? then [] else StringOf(h[k].value)
  }

  /** `b64` defaults to true, also when its value does not decode as a boolean. */
  function GetB64(h: HeaderMap): bool {
    if B64 !in h || h[B64].None? then true
    else var t := LiteralOf(h[B64].value); !(t.Some? && (t.value[0] == 0x66 || t.value[0] == 0x6E))
  }

  predicate IsSet(h: HeaderMap, k: bytes) {
    k in h && h[k].Some? && SetRaw(h[k].value)
  }

  lemma StringIsSet(h: HeaderMap, k: bytes)
    requires GetString(h, k) != []
    ensures IsSet(h, k)
  {}

  // Merging.

  /** `src` fills in what is not set in `dst`. */
  function Merged(dst: HeaderMap, src: Option<HeaderMap>): HeaderMap {
    if src.None? then dst
    else map k | k in dst.Keys + src.value.Keys :: if k in src.value && !IsSet(dst, k) then src.value[k] else dst[k]
  }

  class RawHeader {
    var m: HeaderMap

    constructor ()
      ensures m == map[]
    {
      m := map[];
    }

    /** Goes through the keys of `src` in any order; the order does not matter. */
    method Merge(src: Option<HeaderMap>)
      modifies this
      ensures m == Merged(old(m), src)
    {
      hide IsSet;
      if src.None? {
        return;
      }
      var todo := src.value.Keys;
      while todo != {}
        invariant todo <= src.value.Keys && m.Keys == old(m).Keys + (src.value.Keys - todo)
        invariant forall k | k in m ::
            if k in src.value && k !in todo && !IsSet(old(m), k) then m[k] == src.value[k]
            else k in old(m) && m[k] == old(m)[k]
        decreases todo
      {
        var k :| k in todo;
        SameAt(m, old(m), k);
        SetHas(old(m), k);
        todo := todo - {k};
        if !IsSet(m, k) {
          m := m[k := src.value[k]];
        }
      }
    }
  }

  lemma SameAt(m: HeaderMap, h: HeaderMap, k: bytes)
    requires (k in m <==> k in h) && (k in m ==> m[k] == h[k])
    ensures IsSet(m, k) == IsSet(h, k) && (IsSet(m, k) ==> k in m)
  {}

  lemma MergedAt(dst: HeaderMap, src: Option<HeaderMap>, k: bytes)
    ensures k in Merged(dst, src) <==> k in dst || (src.Some? && k in src.value)
    ensures k in Merged(dst, src) ==>
              Merged(dst, src)[k] == if src.Some? && k in src.value && !IsSet(dst, k) then src.value[k] else dst[k]
    ensures IsSet(Merged(dst, src), k) <==> IsSet(dst, k) || (src.Some? && IsSet(src.value, k))
  {}

  lemma MergeAssociative(a: HeaderMap, b: HeaderMap, c: HeaderMap)
    ensures Merged(Merged(a, Some(b)), Some(c)) == Merged(a, Some(Merged(b, Some(c))))
  {
    hide Merged, IsSet;
    var x, y := Merged(Merged(a, Some(b)), Some(c)), Merged(a, Some(Merged(b, Some(c))));
    forall k ensures (k in x <==> k in y) && (k in x ==> x[k] == y[k]) {
      MergedAt(a, Some(b), k);
      MergedAt(Merged(a, Some(b)), Some(c), k);
      MergedAt(b, Some(c), k);
      MergedAt(a, Some(Merged(b, Some(c))), k);
      SetHas(a, k);
      SetHas(b, k);
    }
    assert x.Keys == y.Keys;
  }

  lemma SetHas(h: HeaderMap, k: bytes)
    ensures IsSet(h, k) ==> k in h
  {}

  /** Merging the same header once more changes nothing. */
  lemma MergeAgain(a: HeaderMap, b: Option<HeaderMap>)
    ensures Merged(Merged(a, b), b) == Merged(a, b)
  {
    hide Merged, IsSet;
    var x, y := Merged(Merged(a, b), b), Merged(a, b);
    forall k ensures (k in x <==> k in y) && (k in x ==> x[k] == y[k]) {
      MergedAt(a, b, k);
      MergedAt(y, b, k);
    }
    assert x.Keys == y.Keys;
  }

  function MergeAll(hs: seq<Option<HeaderMap>>): HeaderMap {
    if hs == [] then map[] else Merged(MergeAll(hs[..|hs| - 1]), hs[|hs| - 1])
  }

  predicate HasAt(hs: seq<Option<HeaderMap>>, i: int, k: bytes) {
    0 <= i < |hs| && hs[i].Some? && k in hs[i].value
  }

  predicate SetAt(hs: seq<Option<HeaderMap>>, i: int, k: bytes) {
    0 <= i < |hs| && hs[i].Some? && IsSet(hs[i].value, k)
  }

  /** Header `i` is the first one that sets `k`, or the last one that has it when none sets it. */
  ghost predicate Chosen(hs: seq<Option<HeaderMap>>, i: int, k: bytes) {
    && HasAt(hs, i, k)
    && (if SetAt(hs, i, k) then forall j | 0 <= j < i :: !SetAt(hs, j, k)
        else (forall j | 0 <= j < |hs| :: !SetAt(hs, j, k)) && forall j | i < j < |hs| :: !HasAt(hs, j, k))
  }

  /** In a merge of several headers the first set value wins, else the last value present. */
  lemma {:induction false} FirstSetWins(hs: seq<Option<HeaderMap>>, k: bytes)
    ensures k in MergeAll(hs) <==> exists i :: HasAt(hs, i, k)
    ensures k in MergeAll(hs) ==> exists i :: Chosen(hs, i, k)
    ensures forall i | Chosen(hs, i, k) :: MergeAll(hs)[k] == hs[i].value[k]
    ensures IsSet(MergeAll(hs), k) <==> exists i :: SetAt(hs, i, k)
    decreases |hs|
  {
    hide Merged, IsSet;
    if exists i :: HasAt(hs, i, k) { SomeChosen(hs, k); }
    if hs == [] {
      SetHas(map[], k);
    } else {
      var n := |hs| - 1;
      var init := hs[..n];
      FirstSetWins(init, k);
      MergedAt(MergeAll(init), hs[n], k);
      AtInit(hs, k);
      forall i | Chosen(hs, i, k) ensures MergeAll(hs)[k] == hs[i].value[k] {
        if i < n { ChosenInit(hs, i, k); } else { ChosenLast(hs, init, k); }
      }
    }
  }

  /** A name that some header has is chosen from one of them. */
  lemma SomeChosen(hs: seq<Option<HeaderMap>>, k: bytes)
    requires exists i :: HasAt(hs, i, k)
    ensures exists i :: Chosen(hs, i, k)
  {
    hide IsSet;
    if j :| SetAt(hs, j, k) {
      var i := 0;
      while !SetAt(hs, i, k)
        invariant 0 <= i <= j && forall l | 0 <= l < i :: !SetAt(hs, l, k)
        decreases j - i
      {
        i := i + 1;
      }
      SetHas(hs[i].value, k);
      assert Chosen(hs, i, k);
    } else {
      var j :| HasAt(hs, j, k);
      var i := |hs| - 1;
      while !HasAt(hs, i, k)
        invariant j <= i < |hs| && forall l | i < l < |hs| :: !HasAt(hs, l, k)
        decreases i - j
      {
        i := i - 1;
      }
      assert Chosen(hs, i, k);
    }
  }

  lemma AtInit(hs: seq<Option<HeaderMap>>, k: bytes)
    requires hs != []
    ensures var init := hs[..|hs| - 1];
            && (forall i | 0 <= i < |hs| - 1 ::
                  (HasAt(init, i, k) <==> HasAt(hs, i, k)) && (SetAt(init, i, k) <==> SetAt(hs, i, k)))
            && ((exists i :: HasAt(hs, i, k)) <==> (exists i :: HasAt(init, i, k)) || HasAt(hs, |hs| - 1, k))
            && ((exists i :: SetAt(hs, i, k)) <==> (exists i :: SetAt(init, i, k)) || SetAt(hs, |hs| - 1, k))
  {
    hide IsSet;
    var init, n := hs[..|hs| - 1], |hs| - 1;
    if i :| HasAt(hs, i, k) { if i < n { assert HasAt(init, i, k); } }
    if i :| SetAt(hs, i, k) { if i < n { assert SetAt(init, i, k); } }
    if i :| HasAt(init, i, k) { assert HasAt(hs, i, k); }
    if i :| SetAt(init, i, k) { assert SetAt(hs, i, k); }
  }

  lemma ChosenInit(hs: seq<Option<HeaderMap>>, i: nat, k: bytes)
    requires hs != [] && i < |hs| - 1 && Chosen(hs, i, k)
    ensures Chosen(hs[..|hs| - 1], i, k)
    ensures HasAt(hs, |hs| - 1, k) ==> SetAt(hs[..|hs| - 1], i, k)
  {
    hide IsSet;
    AtInit(hs, k);
  }

  lemma ChosenLast(hs: seq<Option<HeaderMap>>, init: seq<Option<HeaderMap>>, k: bytes)
    requires hs != [] && init == hs[..|hs| - 1] && Chosen(hs, |hs| - 1, k)
    ensures forall i :: !SetAt(init, i, k)
  {
    hide IsSet;
    AtInit(hs, k);
    forall i ensures !SetAt(init, i, k) {
      if 0 <= i < |init| { assert SetAt(hs, i, k) <==> SetAt(init, i, k); }
    }
  }

  /** Reading a string from a merge. */
  lemma MergedString(dst: HeaderMap, src: Option<HeaderMap>, k: bytes)
    ensures GetString(Merged(dst, src), k) ==
            if src.Some? && k in src.value && !IsSet(dst, k) then GetString(src.value, k) else GetString(dst, k)
  {
    hide Merged, IsSet, StringOf;
    MergedAt(dst, src, k);
    SetHas(dst, k);
  }
}
