/** The streaming decoder object: `refill`, `readValue`, `peek`, `Decode` and `Token` over a buffered reader. */
module Stream {
  import opened Bytes
  import opened Grammar
  import opened Parser
  import opened ScanCore
  import opened Scanner
  import opened Validate
  import opened Values
  import opened Decode
  import opened Tokens

  const MIN_READ := 512

  /** A reader that delivers its chunks in order and then fails, with or after the last one. */
  class Reader {
    var chunks: seq<bytes>
    const eager: bool
    const fault: Fault

    constructor (cs: seq<bytes>, e: bool, f: Fault)
      ensures chunks == cs && eager == e && fault == f
    {
      chunks, eager, fault := cs, e, f;
    }

    ghost function Rest(): bytes
      reads this
    {
      Flatten(chunks)
    }

    ghost function Left(): nat
      reads this
    {
      |Rest()| + |chunks|
    }

    method Read(max: nat) returns (p: bytes, e: Option<Fault>)
      requires max > 0
      modifies this
      ensures p + Rest() == old(Rest()) && |p| <= max
      ensures e == None || e == Some(fault)
      ensures if e.Some? then Rest() == [] else Left() < old(Left())
    {
      if chunks == [] {
        return [], Some(fault);
      }
      var c := chunks[0];
      if |c| <= max {
        p, chunks := c, chunks[1..];
        e := if eager && chunks == [] then Some(fault) else None;
      } else {
        p := c[..max];
        var later := chunks[1..];
        chunks := [c[max..]] + later;
        assert chunks[1..] == later;
        Rejoin(c, max);
        Assoc(p, c[max..], Flatten(later));
        e := None;
      }
    }
  }

  class Decoder {
    const r: Reader
    var buf: array<byte>
    var len: nat
    var scanp: nat
    const scan: Scanner
    var err: Option<StreamError>
    var tokenState: TokenState
    var tokenStack: seq<TokenState>

    ghost predicate Valid()
      reads this, scan
    {
      scanp <= len <= buf.Length && scan.Valid() && !scan.redo
    }

    /** The bytes not yet consumed: buffered first, then those the reader still has. */
    ghost function Unread(): bytes
      requires Valid()
      reads this, scan, r, buf
    {
      buf[scanp..len] + r.Rest()
    }

    ghost function View(): Machine
      requires Valid()
      reads this, scan, r, buf
    {
      Machine(Unread(), r.fault, err, tokenState, tokenStack)
    }

    constructor (reader: Reader)
      ensures r == reader && fresh(scan) && fresh(buf) && Valid()
      ensures View() == NewMachine(reader.Rest(), reader.fault)
    {
      r := reader;
      buf := new byte[0];
      len, scanp := 0, 0;
      scan := new Scanner();
      err, tokenState, tokenStack := None, TopValue, [];
      new;
      assert buf[0..0] + r.Rest() == r.Rest();
    }

    ghost function Buffered(): bytes
      requires Valid()
      reads this, scan, buf
    {
      buf[scanp..len]
    }

    /** Moves the unread bytes to the front of the buffer. */
    method SlideDown()
      requires Valid()
      modifies this`len, this`scanp, buf
      ensures Valid() && scanp == 0 && Buffered() == old(Buffered())
    {
      if scanp > 0 {
        var n := len - scanp;
        forall i | 0 <= i < n {
          buf[i] := buf[scanp + i];
        }
        len := n;
        scanp := 0;
      }
    }

    method Grow()
      requires Valid()
      modifies this`buf
      ensures Valid() && (buf == old(buf) || fresh(buf)) && buf.Length - len >= MIN_READ
      ensures Buffered() == old(Buffered())
    {
      if buf.Length - len < MIN_READ {
        var newBuf := new byte[2 * buf.Length + MIN_READ];
        forall i | 0 <= i < len {
          newBuf[i] := buf[i];
        }
        buf := newBuf;
      }
    }

    /** What the reader writes into the free tail of the buffer. */
    method Append(p: bytes)
      requires Valid() && len + |p| <= buf.Length
      modifies this`len, buf
      ensures Valid() && len == old(len) + |p| && Buffered() == old(Buffered()) + p
    {
      forall i | 0 <= i < |p| {
        buf[len + i] := p[i];
      }
      len := len + |p|;
    }

    /** Makes room and reads more: no unread byte is lost or moved relative to the others. */
    method Refill() returns (e: Option<Fault>)
      requires Valid()
      modifies this`buf, this`len, this`scanp, r, buf
      ensures Valid() && scanp == 0 && (buf == old(buf) || fresh(buf))
      ensures Unread() == old(Unread()) && old(len - scanp) <= len
      ensures e == None || e == Some(r.fault)
      ensures if e.Some? then r.Rest() == [] else r.Left() < old(r.Left())
    {
      ghost var held := Buffered();
      SlideDown();
      Grow();
      var p;
      p, e := r.Read(buf.Length - len);
      Append(p);
      Assoc(held, p, r.Rest());
    }

    /** The scanner has read `k` bytes of `u`, and they settle nothing yet. */
    ghost predicate Midway(u: bytes, k: nat)
      reads scan
    {
      Scanned(u, k) && scan.State() == Feed(START, u[..k])
    }

    /** Feeds one byte to the scanner, and a probing space after a closing bracket. */
    method ScanByte(c: byte, ghost u: bytes, ghost k: nat) returns (v: Op)
      requires scan.Valid() && !scan.redo && k < |u| && c == u[k]
      requires Midway(u, k)
      modifies scan
      ensures scan.Valid() && !scan.redo
      ensures v == End ==> forall f :: ReadOutcome(u, f) == Length(k)
      ensures Closes(v) ==> forall f :: ReadOutcome(u, f) == Length(k + 1)
      ensures v == Failed ==> forall f :: ReadOutcome(u, f) == Stopped(Syntax)
      ensures v != End && v != Failed && !Closes(v) ==> Midway(u, k + 1)
    {
      hide Feed, Ops, Next, ReadOutcome, Scanned;
      FeedSnoc(START, u, k);
      ScannedStep(u, k);
      v := scan.Step(c);
      if v == EndObject || v == EndArray {
        ProbeAt(u, k);
        var probe := scan.Step(SPACE);
        if probe != End {
          v := Continue;
        }
      }
    }

    /** Scans buffered bytes from `pos` on until they settle the value, or run out. */
    method ScanBuffer(pos: nat, ghost u: bytes) returns (v: Op, end: nat)
      requires Valid() && scanp <= pos <= len && u == Unread()
      requires Midway(u, pos - scanp)
      modifies scan
      ensures Valid() && pos <= end <= len && v in {End, Failed, Continue}
      ensures v == End ==> ReadOutcome(u, r.fault) == Length(end - scanp)
      ensures v == Failed ==> ReadOutcome(u, r.fault) == Stopped(Syntax)
      ensures v == Continue ==> end == len && Midway(u, end - scanp)
    {
      hide Feed, Ops, Next, ReadOutcome, Scanned, Midway;
      end := pos;
      while end < len
        invariant pos <= end <= len && Valid() && u == Unread()
        invariant Midway(u, end - scanp)
      {
        v := ScanByte(buf[end], u, end - scanp);
        if v == End || v == Failed {
          return;
        }
        end := end + 1;
        if v == EndObject || v == EndArray {
          return End, end;
        }
      }
      v := Continue;
    }

    method NonSpace() returns (found: bool)
      requires Valid()
      ensures found <==> !AllSpace(buf[..len])
    {
      for i := 0 to len
        invariant AllSpace(buf[..i])
      {
        if !IsSpace(buf[i]) {
          return true;
        }
      }
      return false;
    }

    /** The reader has failed and every byte has been scanned: is the value complete, and if not, which error is it? */
    method AtFault(ghost u: bytes) returns (e: Option<StreamError>)
      requires Valid() && scanp == 0 && r.Rest() == [] && u == Unread()
      requires Midway(u, len)
      modifies scan
      ensures Valid() && Unread() == u
      ensures ReadOutcome(u, r.fault) == if e.None? then Length(len) else Stopped(e.value)
    {
      hide Feed, Ops, Next, ReadOutcome, Scanned, AllSpace;
      AllRead(u, buf[..len]);
      OutcomeAtEnd(u, r.fault);
      if r.fault.Eof? {
        var probe := scan.Step(SPACE);
        if probe == End {
          return None;
        }
        var found := NonSpace();
        if found {
          return Some(UnexpectedEof);
        }
      }
      return Some(Reading(r.fault));
    }

    method Restart(ghost u: bytes)
      modifies scan
      ensures scan.Valid() && !scan.redo && Midway(u, 0)
    {
      scan.Reset();
      ScannedStart(u);
    }

    /** Reads one value into the buffer and returns its length; the answer depends only on the unread bytes. */
    method ReadValue() returns (n: nat, e: Option<StreamError>)
      requires Valid()
      modifies this`buf, this`len, this`scanp, this`err, scan, r, buf
      ensures Valid() && (buf == old(buf) || fresh(buf)) && Unread() == old(Unread())
      ensures e.None? ==> ReadOutcome(Unread(), r.fault) == Length(n) && n <= len - scanp && err == old(err)
      ensures e.Some? ==> ReadOutcome(Unread(), r.fault) == Stopped(e.value) && err == e
    {
      hide Feed, Ops, Next, ReadOutcome, Scanned, AllSpace, Midway, Flatten, Safe, Reader.Rest, Reader.Left;
      ghost var u := Unread();
      Restart(u);
      var pos := scanp;
      var fault: Option<Fault> := None;
      while true
        invariant Valid() && scanp <= pos <= len && (buf == old(buf) || fresh(buf)) && Unread() == u && err == old(err)
        invariant Midway(u, pos - scanp)
        invariant fault == None || (fault == Some(r.fault) && scanp == 0 && r.Rest() == [])
        decreases fault.None?, r.Left()
      {
        var v;
        v, pos := ScanBuffer(pos, u);
        if v == End {
          return pos - scanp, None;
        }
        if v == Failed {
          err := Some(Syntax);
          return 0, err;
        }
        if fault.Some? {
          e := AtFault(u);
          if e.None? {
            return pos - scanp, None;
          }
          err := e;
          return 0, e;
        }
        var n := pos - scanp;
        fault := Refill();
        pos := scanp + n;
      }
    }

    /** Skips white space and returns the next byte, without consuming it. */
    method Peek() returns (c: byte, e: Option<Fault>)
      requires Valid()
      modifies this`buf, this`len, this`scanp, r, buf
      ensures Valid() && (buf == old(buf) || fresh(buf))
      ensures e.None? ==> scanp < len && Unread() == Trim(old(Unread()))
      ensures e.None? ==> Unread() != [] && c == Unread()[0] == buf[scanp]
      ensures e.Some? ==> Unread() == old(Unread()) && Trim(Unread()) == [] && e.value == r.fault
    {
      hide Trim, AllSpace;
      ghost var u := Unread();
      var fault: Option<Fault> := None;
      while true
        invariant Valid() && (buf == old(buf) || fresh(buf)) && Unread() == u
        invariant fault == None || (fault == Some(r.fault) && r.Rest() == [])
        decreases fault.None?, r.Left()
      {
        var i := FirstByte();
        if i < len {
          Leading(u, Buffered(), r.Rest(), i - scanp);
          scanp := i;
          return buf[i], None;
        }
        if fault.Some? {
          assert Buffered()[..i - scanp] == Buffered();
          NothingLeft(u, Buffered());
          return 0, fault;
        }
        fault := Refill();
      }
    }

    /** The first buffered byte that is not white space, or the end of the buffer. */
    method FirstByte() returns (i: nat)
      requires Valid()
      ensures scanp <= i <= len && AllSpace(Buffered()[..i - scanp]) && (i < len ==> !IsSpace(buf[i]))
    {
      i := scanp;
      while i < len
        invariant scanp <= i <= len && AllSpace(Buffered()[..i - scanp])
      {
        if !IsSpace(buf[i]) {
          return;
        }
        i := i + 1;
      }
    }

    /** Consumes the byte that `Peek` returned. */
    method Advance()
      requires Valid() && scanp < len
      modifies this`scanp
      ensures Valid() && Unread() == old(Unread())[1..]
    {
      Past(buf[scanp..len], r.Rest());
      assert buf[scanp..len][1..] == buf[scanp + 1..len];
      scanp := scanp + 1;
    }

    /** Passes the comma or colon before a value, if one is due. */
    method TokenPrepareForDecode() returns (e: Option<StreamError>)
      requires Valid()
      modifies this`buf, this`len, this`scanp, this`tokenState, r, buf
      ensures Valid() && (buf == old(buf) || fresh(buf))
      ensures Prepare(old(View())) == (View(), e)
    {
      hide Trim;
      if tokenState == ArrayComma {
        var c, f := Peek();
        if f.Some? {
          return Some(Reading(f.value));
        }
        if c != COMMA {
          return Some(Syntax);
        }
        Advance();
        tokenState := ArrayElem;
      } else if tokenState == ObjectColon {
        var c, f := Peek();
        if f.Some? {
          return Some(Reading(f.value));
        }
        if c != COLON {
          return Some(Syntax);
        }
        Advance();
        tokenState := ObjectMember;
      }
      return None;
    }

    method TokenValueEnd()
      modifies this`tokenState
      ensures tokenState == ValueEnd(old(tokenState))
    {
      if tokenState == ArrayStart || tokenState == ArrayElem {
        tokenState := ArrayComma;
      } else if tokenState == ObjectMember {
        tokenState := ObjectComma;
      }
    }

    /** Takes the value of `n` bytes that `ReadValue` found, and decodes it. */
    method Take(n: nat) returns (reply: Reply)
      requires Valid() && n <= len - scanp && FirstValue(Unread()) == Some(n)
      modifies this`scanp
      ensures Valid() && Unread() == old(Unread())[n..] && reply == ItemReply(old(Unread())[..n])
    {
      hide FirstValue, Parse, Meaning;
      ghost var u := Unread();
      var item := buf[scanp..scanp + n];
      CutFront(buf[scanp..len], r.Rest(), n);
      assert buf[scanp..len][..n] == item && buf[scanp..len][n..] == buf[scanp + n..len];
      FirstValueIsJson(u);
      scanp := scanp + n;
      var v, _ := UnmarshalValid(item);
      reply := if v.Ok? then Scalar(v.v) else Refused(Duplicate);
    }

    /** Reads and decodes the next value. */
    method Decode() returns (reply: Reply)
      requires Valid()
      modifies this, scan, r, buf
      ensures Valid() && (buf == old(buf) || fresh(buf))
      ensures DecodeCall(old(View())) == (View(), reply)
    {
      hide ReadOutcome, ItemReply, Prepare, FirstValue, Allowed;
      if err.Some? {
        return Refused(err.value);
      }
      var e := TokenPrepareForDecode();
      if e.Some? {
        return Refused(e.value);
      }
      if !Allowed(tokenState) {
        return Refused(Syntax);
      }
      var n;
      n, e := ReadValue();
      if e.Some? {
        return Refused(e.value);
      }
      OutcomeLength(Unread(), r.fault);
      reply := Take(n);
      TokenValueEnd();
    }

    /** An opening bracket, just peeked. */
    method OpenToken(obj: bool) returns (reply: Reply)
      requires Valid() && scanp < len
      modifies this`scanp, this`tokenState, this`tokenStack
      ensures Valid() && OpenUp(old(View()), obj) == (View(), reply)
    {
      if !Allowed(tokenState) {
        return Refused(Syntax);
      }
      Advance();
      tokenStack := tokenStack + [tokenState];
      tokenState := if obj then ObjectStart else ArrayStart;
      return Delim(Open(obj));
    }

    /** A closing bracket, just peeked. */
    method CloseToken(obj: bool) returns (reply: Reply)
      requires Valid() && scanp < len && Sound(View())
      modifies this`scanp, this`tokenState, this`tokenStack
      ensures Valid() && CloseUp(old(View()), obj) == (View(), reply)
    {
      hide Sound;
      if obj && tokenState != ObjectStart && tokenState != ObjectComma {
        return Refused(Syntax);
      }
      if !obj && tokenState != ArrayStart && tokenState != ArrayComma {
        return Refused(Syntax);
      }
      HasStack(View());
      Advance();
      var top := |tokenStack| - 1;
      tokenState := tokenStack[top];
      tokenStack := tokenStack[..top];
      TokenValueEnd();
      return Delim(Close(obj));
    }

    /** A quote where a name is expected, just peeked. */
    method ReadName() returns (reply: Reply)
      requires Valid()
      modifies this, scan, r, buf
      ensures Valid() && (buf == old(buf) || fresh(buf))
      ensures NameToken(old(View())) == (View(), reply)
    {
      hide DecodeCall;
      var state := tokenState;
      tokenState := TopValue;
      reply := Decode();
      tokenState := state;
      if reply.Refused? {
        return;
      }
      tokenState := ObjectColon;
    }

    /** A comma or colon, just peeked. */
    method Separate(c: byte) returns (ok: bool)
      requires Valid() && scanp < len && (c == COLON || c == COMMA)
      modifies this`scanp, this`tokenState
      ensures Valid() && ok == Separated(old(tokenState), c).Some?
      ensures ok ==> tokenState == Separated(old(tokenState), c).value && Unread() == old(Unread())[1..]
      ensures !ok ==> View() == old(View())
    {
      if c == COLON {
        if tokenState != ObjectColon {
          return false;
        }
        Advance();
        tokenState := ObjectMember;
        return true;
      }
      if tokenState == ArrayComma {
        Advance();
        tokenState := ArrayElem;
        return true;
      }
      if tokenState == ObjectComma {
        Advance();
        tokenState := ObjectName;
        return true;
      }
      return false;
    }

    /** Returns the next bracket, name or literal. */
    method Token() returns (reply: Reply)
      requires Valid() && Sound(View())
      modifies this, scan, r, buf
      ensures Valid() && (buf == old(buf) || fresh(buf))
      ensures TokenCall(old(View())) == (View(), reply)
    {
      hide DecodeCall, OpenUp, CloseUp, NameToken, Sound, Separated, Allowed, Trim;
      while true
        invariant Valid() && (buf == old(buf) || fresh(buf))
        invariant Sound(View()) && TokenCall(View()) == TokenCall(old(View()))
        decreases |Unread()|
      {
        ghost var m := View();
        var c, f := Peek();
        if f.Some? {
          return Refused(Reading(f.value));
        }
        ghost var p := View();
        SoundAlike(m, p);
        Opening(m);
        if c == LBRACKET || c == LBRACE {
          reply := OpenToken(c == LBRACE);
          return;
        } else if c == RBRACKET || c == RBRACE {
          reply := CloseToken(c == RBRACE);
          return;
        } else if c == COLON || c == COMMA {
          var ok := Separate(c);
          if !ok {
            return Refused(Syntax);
          }
        } else if c == QUOTE && (tokenState == ObjectStart || tokenState == ObjectName) {
          reply := ReadName();
          return;
        } else if !Allowed(tokenState) {
          return Refused(Syntax);
        } else {
          reply := Decode();
          return;
        }
      }
    }
  }

  /** A whole run of `Decode` and `Token` calls: the answers do not depend on how the stream is split. */
  method Play(chunks: seq<bytes>, eager: bool, fault: Fault, calls: seq<Call>)
    returns (replies: seq<Reply>, height: nat)
    ensures Sound(NewMachine(Flatten(chunks), fault))
    ensures Run(NewMachine(Flatten(chunks), fault), calls).1 == replies
    ensures |Run(NewMachine(Flatten(chunks), fault), calls).0.stack| == height
    ensures var open := OpenAfter([], Delims(replies));
            open.Some? && |open.value| == height && Matched(Delims(replies) + Closers(open.value))
  {
    hide DecodeCall, TokenCall, Sound, OpenAfter, Flatten;
    ghost var m := NewMachine(Flatten(chunks), fault);
    TokensNest(Flatten(chunks), fault, calls);
    var r := new Reader(chunks, eager, fault);
    var dec := new Decoder(r);
    replies := [];
    var i := 0;
    assert calls[0..] == calls;
    assert [] + Run(m, calls).1 == Run(m, calls).1;
    while i < |calls|
      invariant 0 <= i <= |calls| && fresh(dec) && fresh(dec.r) && fresh(dec.scan) && fresh(dec.buf)
      invariant dec.Valid() && Sound(dec.View())
      invariant Run(m, calls) == Ahead(replies, Run(dec.View(), calls[i..]))
      decreases |calls| - i
    {
      ghost var was := dec.View();
      RunStep(was, calls[i..]);
      var reply;
      if calls[i].Token? {
        reply := dec.Token();
      } else {
        reply := dec.Decode();
      }
      assert calls[i..][1..] == calls[i + 1..];
      AheadMore(replies, reply, Run(dec.View(), calls[i + 1..]));
      replies := replies + [reply];
      i := i + 1;
    }
    height := |dec.tokenStack|;
  }

  ghost function Ahead(done: seq<Reply>, out: (Machine, seq<Reply>)): (Machine, seq<Reply>) {
    (out.0, done + out.1)
  }

  lemma AheadMore(done: seq<Reply>, reply: Reply, out: (Machine, seq<Reply>))
    ensures Ahead(done, (out.0, [reply] + out.1)) == Ahead(done + [reply], out)
  {
    assert done + ([reply] + out.1) == (done + [reply]) + out.1;
  }

  lemma RunStep(m: Machine, calls: seq<Call>)
    requires Sound(m) && calls != []
    ensures var out := if calls[0].Token? then TokenCall(m) else DecodeCall(m);
            Sound(out.0) &&
            Run(m, calls) == (Run(out.0, calls[1..]).0, [out.1] + Run(out.0, calls[1..]).1)
  {
    hide DecodeCall, TokenCall, Sound;
    CallSteps(m, calls[0]);
  }

  /** One unfolding of `TokenCall`, by the first byte that is not white space. */
  lemma Opening(m: Machine)
    requires Sound(m) && Trim(m.unread) != []
    ensures var u := Trim(m.unread);
            var p := m.(unread := u);
            var c := u[0];
            && |u| <= |m.unread| && Sound(p)
            && (c == LBRACKET || c == LBRACE ==> TokenCall(m) == OpenUp(p, c == LBRACE))
            && (c == RBRACKET || c == RBRACE ==> TokenCall(m) == CloseUp(p, c == RBRACE))
            && ((c == COLON || c == COMMA) && Separated(m.state, c).None? ==> TokenCall(m) == (p, Refused(Syntax)))
            && ((c == COLON || c == COMMA) && Separated(m.state, c).Some? ==>
                  var q := p.(unread := u[1..], state := Separated(m.state, c).value);
                  Sound(q) && TokenCall(m) == TokenCall(q))
            && (c !in {LBRACKET, LBRACE, RBRACKET, RBRACE, COLON, COMMA} ==>
                  TokenCall(m) == if c == QUOTE && (m.state.ObjectStart? || m.state.ObjectName?) then NameToken(p)
                                  else if !Allowed(m.state) then (p, Refused(Syntax)) else DecodeCall(p))
  {
    hide DecodeCall, OpenUp, CloseUp, NameToken, Sound, Allowed;
    var u := Trim(m.unread);
    SoundAlike(m, m.(unread := u));
    if (u[0] == COLON || u[0] == COMMA) && Separated(m.state, u[0]).Some? {
      SoundAlike(m, m.(unread := u[1..], state := Separated(m.state, u[0]).value));
    }
  }

  lemma OutcomeLength(u: bytes, fault: Fault)
    ensures ReadOutcome(u, fault).Length? ==> FirstValue(u) == Some(ReadOutcome(u, fault).n)
  {}

  lemma CutFront(held: bytes, rest: bytes, n: nat)
    requires n <= |held|
    ensures (held + rest)[..n] == held[..n] && (held + rest)[n..] == held[n..] + rest
  {}

  /** Unread bytes that begin with `i` white-space bytes and then another byte. */
  lemma Leading(u: bytes, held: bytes, rest: bytes, i: nat)
    requires u == held + rest && i < |held| && AllSpace(held[..i]) && !IsSpace(held[i])
    ensures Trim(u) == held[i..] + rest && Trim(u)[0] == held[i]
  {
    assert u == held[..i] + (held[i..] + rest);
    TrimOf(held[..i], held[i..] + rest);
  }

  lemma NothingLeft(u: bytes, held: bytes)
    requires u == held + [] && AllSpace(held)
    ensures Trim(u) == []
  {
    assert u == held;
    SpacesOf(held, []);
  }

  lemma AllRead(u: bytes, held: bytes)
    requires u == held + []
    ensures u == held && u[..|held|] == u
  {}

  /** The scan has read `k` bytes of `u` and nothing is settled yet. */
  ghost predicate Scanned(u: bytes, k: nat) {
    && Pending(u, k) && !Feed(START, u[..k]).failed
    && (forall j | 0 <= j < k :: Ops(START, u)[j] != Failed)
  }

  lemma ScannedStart(u: bytes)
    ensures Scanned(u, 0) && Feed(START, u[..0]) == START
  {
    PendingStart(u);
    assert u[..0] == [];
  }

  /** A value closed by a bracket is not a literal. */
  lemma ClosedByBracket(u: bytes, k: nat)
    requires k < |u| && FirstValue(u) == Some(k + 1) && Closes(Ops(START, u)[k])
    ensures !OpenEnded(u)
  {
    hide Feed, Ops, Next, Value;
    if Value(u[Spaces(u)..]).value.0.Leaf? { FirstLeaf(u, k); }
  }

  lemma ScannedStep(u: bytes, k: nat)
    requires Scanned(u, k) && k < |u|
    ensures var op := Ops(START, u)[k];
            var top := Feed(START, u[..k + 1]).endTop;
            && (op == Failed ==> forall f :: ReadOutcome(u, f) == Stopped(Syntax))
            && (op == End ==> forall f :: ReadOutcome(u, f) == Length(k))
            && (Closes(op) && top ==> forall f :: ReadOutcome(u, f) == Length(k + 1))
            && (op != Failed && op != End && !(Closes(op) && top) ==> Scanned(u, k + 1))
  {
    hide Feed, Ops, Next, FirstValue;
    var op := Ops(START, u)[k];
    PendingStep(u, k);
    FeedSnoc(START, u, k);
    if op == Failed {
      assert Failed in Ops(START, u);
    } else if op != End {
      if Closes(op) && Feed(START, u[..k + 1]).endTop {
        ClosedByBracket(u, k);
      } else {
        NoFailure(Feed(START, u[..k]), u[k]);
      }
    }
  }

  lemma OutcomeAtEnd(u: bytes, fault: Fault)
    requires Scanned(u, |u|) && u[..|u|] == u
    ensures ReadOutcome(u, fault) ==
            if fault.Eof? && Next(Feed(START, u), SPACE).op == End then Length(|u|)
            else if fault.Eof? && !AllSpace(u) then Stopped(UnexpectedEof)
            else Stopped(Reading(fault))
  {
    hide Feed, Ops, Next, FirstValue, AllSpace, ScanCore.Eof, Pending, OpenEnded;
    PendingEnd(u);
    NotEnded(u);
    ProbeEnds(Feed(START, u));
    if FirstValue(u).Some? { EndedLiteral(u); }
    assert Failed !in Ops(START, u);
  }

  lemma NotEnded(u: bytes)
    requires Scanned(u, |u|) && u[..|u|] == u
    ensures !Feed(START, u).endTop
  {}

  lemma ProbeEnds(s: Core)
    requires Safe(s) && !s.endTop && !s.failed
    ensures Next(s, SPACE).op == End <==> ScanCore.Eof(s).op != Failed
  {
    NextKept(s, SPACE);
    if Next(s, SPACE).core.endTop { EndsOnlyBy(s, SPACE); }
  }

  lemma EndedLiteral(u: bytes)
    requires Pending(u, |u|) && FirstValue(u).Some?
    ensures OpenEnded(u)
  {
    hide Feed, Ops, Next, Value;
    PendingEnd(u);
    assert u[..|u|] == u;
    if Value(u[Spaces(u)..]).value.0.Node? { FirstNode(u); }
  }
}
