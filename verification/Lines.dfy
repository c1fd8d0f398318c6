/**
 What `Indent` writes, told from the scanner alone: for each byte of the input its answer and the number of
 containers open before and after it.
 */
module Lines {
  import opened Bytes
  import opened Grammar
  import opened Parser
  import opened ScanCore
  import opened ScanGrammar
  import opened Validate
  import opened Indent

  /** A line break, the prefix, and `n` indents. */
  function LineBreak(f: Layout, n: nat): bytes {
    [LF] + f.prefix + Flatten(seq(n, _ => f.indent))
  }

  lemma {:induction false} CopiesFlatten(s: bytes, n: nat)
    ensures Copies(s, n) == Flatten(seq(n, _ => s))
    decreases n
  {
    if n > 0 {
      CopiesFlatten(s, n - 1);
      assert seq(n, _ => s)[1..] == seq(n - 1, _ => s);
    }
  }

  lemma NewlineIs(f: Layout, n: nat)
    ensures Newline(f, n) == LineBreak(f, n)
  {
    CopiesFlatten(f.indent, n);
    Assoc([LF], f.prefix, Copies(f.indent, n));
  }

  /** How many containers are open after `i` bytes. */
  function OpenAt(src: bytes, i: nat): nat
    requires i <= |src|
  {
    |Feed(START, src[..i]).stack|
  }

  /** The last byte before `i` that is not white space was an opening bracket. */
  predicate JustOpened(src: bytes, i: nat)
    requires i <= |src|
    decreases i
  {
    i > 0 &&
    var op := Ops(START, src)[i - 1];
    if op == SkipSpace then JustOpened(src, i - 1) else op == BeginObject || op == BeginArray
  }

  /** What is written for byte `i`. */
  function Piece(src: bytes, i: nat, f: Layout): bytes
    requires i < |src|
  {
    var op := Ops(START, src)[i];
    if op == SkipSpace then []
    else
      (if Closes(op) then (if JustOpened(src, i) then [] else LineBreak(f, OpenAt(src, i + 1)))
       else if JustOpened(src, i) then LineBreak(f, OpenAt(src, i))
       else [])
      + [src[i]]
      + (if op == ObjectValue || op == ArrayValue then LineBreak(f, OpenAt(src, i + 1))
         else if op == ObjectKey then [SPACE]
         else [])
  }

  function Pieces(src: bytes, i: nat, f: Layout): bytes
    requires i <= |src|
    decreases |src| - i
  {
    if i == |src| then [] else Piece(src, i, f) + Pieces(src, i + 1, f)
  }

  lemma EmitIs(op: Op, c: byte, need: bool, depth: int, f: Layout, h: nat, h': nat)
    requires op != Failed && depth + (if need then 1 else 0) == h
    requires op == BeginObject || op == BeginArray ==> h' == h + 1 && (c == LBRACE || c == LBRACKET)
    requires Closes(op) ==> h' + 1 == h && (c == RBRACE || c == RBRACKET)
    requires op == ObjectKey ==> h' == h && c == COLON
    requires op == ObjectValue || op == ArrayValue ==> h' == h && c == COMMA
    requires op == BeginLiteral ==> c !in {LBRACE, LBRACKET, RBRACE, RBRACKET, COLON, COMMA}
    requires op == End ==> IsSpace(c)
    ensures EmitStep(op, c, need, depth, f).out ==
            if op == SkipSpace then []
            else
              (if Closes(op) then (if need then [] else LineBreak(f, h')) else if need then LineBreak(f, h) else [])
              + [c]
              + (if op == ObjectValue || op == ArrayValue then LineBreak(f, h')
                 else if op == ObjectKey then [SPACE]
                 else [])
    ensures EmitStep(op, c, need, depth, f).need <==>
            if op == SkipSpace then need else op == BeginObject || op == BeginArray
  {
    hide Newline, LineBreak;
    NewlineIs(f, h);
    NewlineIs(f, h');
  }

  lemma NotFailedBefore(src: bytes, i: nat)
    requires i < |src| && !Feed(START, src[..i + 1]).failed
    ensures !Feed(START, src[..i]).failed && Ops(START, src)[i] != Failed
    ensures Counted(Feed(START, src[..i]), src[i], Next(Feed(START, src[..i]), src[i]))
    ensures Next(Feed(START, src[..i]), src[i]) == Out(Feed(START, src[..i + 1]), Ops(START, src)[i])
  {
    hide Feed, Ops, Next, Counted;
    FeedSnoc(START, src, i);
    FlagsStay(START, src, i, i + 1);
    NextKept(Feed(START, src[..i]), src[i]);
    NextCounted(Feed(START, src[..i]), src[i]);
  }

  /** The loop's pending indent is an opening bracket with nothing but white space after it. */
  lemma {:induction false} PieceIs(src: bytes, i: nat, f: Layout)
    requires i < |src| && !Feed(START, src[..i + 1]).failed
    ensures var (need, depth) := CountersAt(src, i, f);
            var e := EmitStep(Ops(START, src)[i], src[i], need, depth, f);
            e.out == Piece(src, i, f) && (e.need <==> JustOpened(src, i + 1)) && Ops(START, src)[i] != Failed
    decreases i
  {
    hide Feed, Ops, Next, EmitStep, LineBreak;
    var (need, depth) := CountersAt(src, i, f);
    NotFailedBefore(src, i);
    HeightAlways(src, i, f);
    if i > 0 { PieceIs(src, i - 1, f); }
    EmitIs(Ops(START, src)[i], src[i], need, depth, f, OpenAt(src, i), OpenAt(src, i + 1));
  }

  lemma {:induction false} LaidPieces(src: bytes, i: nat, f: Layout)
    requires i <= |src| && !Feed(START, src).failed
    ensures var (need, depth) := CountersAt(src, i, f);
            Laid(Ops(START, src)[i..], src[i..], need, depth, f) == Pieces(src, i, f)
    decreases |src| - i
  {
    hide Feed, Ops, Next, EmitStep, Piece, Laid;
    var (need, depth) := CountersAt(src, i, f);
    assert src[..|src|] == src;
    if i == |src| {
      LaidEnd(src, need, depth, f);
    } else {
      FlagsStay(START, src, i + 1, |src|);
      PieceIs(src, i, f);
      LaidNext(src, i, need, depth, f, []);
      LaidPieces(src, i + 1, f);
      var e := EmitStep(Ops(START, src)[i], src[i], need, depth, f);
      var all := Laid(Ops(START, src)[i..], src[i..], need, depth, f);
      assert [] + e.out == e.out && [] + all == all;
    }
  }

  /**
   The indented text, byte by byte of the input: line breaks stand after an opening bracket unless the
   container is empty, after a comma, and before the closing bracket, each followed by the prefix and one
   indent for every container open there; a space follows each colon, and white space before the end of the
   value is dropped.
   */
  lemma IndentPieces(s: bytes, f: Layout)
    requires Parse(s).Some?
    ensures IndentText(s, f) == Pieces(s, 0, f)
  {
    hide Feed, Ops, Pieces, Laid, IndentText, Parse;
    LaidDoc(s, f);
    IsJsonParses(s);
    AcceptsExactly(s);
    LaidPieces(s, 0, f);
    assert s[0..] == s && Ops(START, s)[0..] == Ops(START, s);
  }
}
