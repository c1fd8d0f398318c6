/** `isValidNumber`, and its agreement with the grammar and with the scanner. */
module Numbers {
  import opened Bytes
  import opened Grammar
  import opened Parser
  import opened ScanCore
  import opened ScanGrammar

  /** The loop that drops leading digits. */
  method SkipDigits(s: bytes) returns (r: bytes)
    ensures r == s[Digits(s)..]
  {
    r := s;
    assert s[0..] == s;
    ghost var n := 0;
    while |r| > 0 && IsDigit(r[0])
      invariant n <= |s| && r == s[n..] && Digits(s) == n + Digits(r)
      decreases |r|
    {
      assert r[1..] == s[n + 1..];
      r := r[1..];
      n := n + 1;
    }
  }

  /** The remaining part `s` of a number is all there is, and is well formed. */
  ghost predicate Whole(n: Option<nat>, s: bytes) {
    n == Some(|s|)
  }

  lemma WholeSuffix(s: bytes, i: nat, n: Option<nat>, m: Option<nat>)
    requires i <= |s| && n == (if m.None? then None else Some(i + m.value))
    ensures Whole(n, s) <==> Whole(m, s[i..])
  {}

  method IsValidNumber(s0: bytes) returns (ok: bool)
    ensures ok <==> IsNumber(s0)
  {
    NumberWhole(s0);
    var s := s0;
    if s == [] {
      return false;
    }
    if s[0] == MINUS {
      s := s[1..];
      if s == [] {
        return false;
      }
    }
    ok := IsUnsigned(s);
  }

  method IsUnsigned(s0: bytes) returns (ok: bool)
    requires s0 != []
    ensures ok <==> Whole(UnsignedLen(s0), s0)
  {
    var s := s0;
    if s[0] == ZERO {
      s := s[1..];
    } else if 0x31 <= s[0] <= NINE {
      s := SkipDigits(s[1..]);
      assert s == s0[Digits(s0)..];
    } else {
      return false;
    }
    WholeSuffix(s0, IntLen(s0).value, UnsignedLen(s0), FracExpLen(s));
    ok := IsFracExp(s);
  }

  method IsFracExp(s0: bytes) returns (ok: bool)
    ensures ok <==> Whole(FracExpLen(s0), s0)
  {
    var s := s0;
    if |s| >= 2 && s[0] == DOT && IsDigit(s[1]) {
      s := SkipDigits(s[2..]);
      var d := Digits(s0[1..]);
      assert s0[1..][1..] == s0[2..];
      assert s == s0[1 + d..];
      WholeSuffix(s0, 1 + d, FracExpLen(s0), ExpLen(s));
    } else {
      assert s0[0..] == s0;
      if s0 != [] && s0[0] == DOT { NoFraction(s0); }
    }
    ok := IsExponent(s);
  }

  lemma NoFraction(s: bytes)
    requires s != [] && s[0] == DOT && (|s| < 2 || !IsDigit(s[1]))
    ensures FracExpLen(s).None? && !Whole(ExpLen(s), s)
  {}

  method IsExponent(s0: bytes) returns (ok: bool)
    ensures ok <==> Whole(ExpLen(s0), s0)
  {
    var s := s0;
    if |s| >= 2 && IsE(s[0]) {
      s := s[1..];
      var g := 1;
      if IsSign(s[0]) {
        s := s[1..];
        g := 2;
        if s == [] {
          assert s0[2..] == [];
          return false;
        }
      }
      assert s == s0[g..];
      s := SkipDigits(s);
      assert s == s0[g..][Digits(s0[g..])..];
    }
    return s == [];
  }

  lemma NumberWhole(s: bytes)
    ensures IsNumber(s) <==> Whole(NumberLen(s), s)
    ensures s != [] && s[0] == MINUS ==> (Whole(NumberLen(s), s) <==> Whole(UnsignedLen(s[1..]), s[1..]))
    ensures s == [] ==> !Whole(NumberLen(s), s)
    ensures s == [MINUS] ==> !Whole(NumberLen(s), s)
  {
    if IsNumber(s) {
      NumberComplete(s, []);
      assert s + [] == s;
    }
    if Whole(NumberLen(s), s) {
      NumberSound(s);
      assert s[..|s|] == s;
    }
  }

  /** A number is what the scanner accepts as one top-level number literal with no white space. */
  lemma NumberIsScanned(s: bytes)
    ensures IsNumber(s) <==>
            && Accepts(START, s) && s != [] && (s[0] == MINUS || IsDigit(s[0])) && !IsSpace(s[|s| - 1])
  {
    AcceptsExactly(s);
    IsJsonParses(s);
    if IsNumber(s) {
      LiteralHead(s);
      assert IsLiteral(s);
      ParseComplete(Doc([], Leaf(s), []));
      assert [] + (s + []) == s;
      NumberLast(s);
    } else if Parse(s).Some? && s != [] && (s[0] == MINUS || IsDigit(s[0])) && !IsSpace(s[|s| - 1]) {
      ScannedNumber(s);
    }
  }

  lemma NumberLast(s: bytes)
    requires IsNumber(s)
    ensures s != [] && !IsSpace(s[|s| - 1])
  {
    var m, i, f, e :| NumberParts(s, m, i, f, e);
    if e != [] {
      assert s[|s| - 1] == e[|e| - 1];
      ExpLast(e);
    } else if f != [] {
      assert s[|s| - 1] == f[|f| - 1];
      assert f[|f| - 1] == f[1..][|f| - 2];
    } else {
      assert s[|s| - 1] == i[|i| - 1];
    }
  }

  lemma ExpLast(e: bytes)
    requires IsExp(e) && e != []
    ensures IsDigit(e[|e| - 1])
  {
    if AllDigits(e[1..]) {
      assert e[|e| - 1] == e[1..][|e| - 2];
    } else {
      assert e[|e| - 1] == e[2..][|e| - 3];
    }
  }

  lemma ScannedNumber(s: bytes)
    requires Parse(s).Some? && s != [] && (s[0] == MINUS || IsDigit(s[0])) && !IsSpace(s[|s| - 1])
    ensures IsNumber(s)
  {
    hide NumberLen, IsNumber, IsLiteral, CharsLen, NameLen;
    assert Spaces(s) == 0 && s[0..] == s;
    var n := LiteralLen(s);
    assert Value(s) == Some((Leaf(s[..n.value]), s[n.value..]));
    var r := s[n.value..];
    assert Spaces(r) == |r| && r[..|r|] == r;
    SpacesRun(r);
    assert n == NumberLen(s);
    NumberSound(s);
    SpaceTail(s, n.value);
    NoTrailing(s, n.value);
  }

  lemma SpaceTail(s: bytes, n: nat)
    requires n <= |s| && AllSpace(s[n..])
    ensures forall i | n <= i < |s| :: IsSpace(s[i])
  {
    forall i | n <= i < |s| ensures IsSpace(s[i]) { assert s[n..][i - n] == s[i]; }
  }

  lemma NoTrailing(s: bytes, n: nat)
    requires n <= |s| && s != [] && !IsSpace(s[|s| - 1]) && forall i | n <= i < |s| :: IsSpace(s[i])
    ensures s[..n] == s
  {
  }
}
