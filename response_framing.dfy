/** How one reply is cut out of the bytes the terminal sends back, as
    `readNextResponse` does it: everything before the first ESC is dropped, the
    byte after it says whether an OSC reply (`]`) or a cursor position report
    (`[`) follows, and the reply runs to its terminator (BEL or `ESC \` for OSC,
    `R` for the report) or fails once it is longer than 100 characters.

    The bytes still to come are a sequence; running out of them is the read
    failure or timeout of the terminal. `NextResponse` is the reference
    definition the reading method is proved against: what it returns and how
    many bytes it takes. */
module ResponseFraming {
  import opened Results
  import opened Text
  import opened ColorReports

  const EscByte: Byte := 0x1B
  const BelByte: Byte := 0x07
  const CsiByte: Byte := 0x5B    // '['
  const OscByte: Byte := 0x5D    // ']'
  const ReportEndByte: Byte := 0x52  // 'R'
  const BackslashByte: Byte := 0x5C  // '\\', the second byte of ST

  /** The longest reply kept reading; one more character ends it with an error. */
  const MaxResponse: nat := 100

  /** The outcome of reading one reply and how many bytes it took. */
  datatype Framing = Framing(result: Result<(string, bool), ColorReadFailure>, consumed: nat)

  /** The position of the first ESC at or after `from`, or the end. */
  function FirstEsc(bytes: seq<Byte>, from: nat): (e: nat)
    requires from <= |bytes|
    ensures from <= e <= |bytes|
    ensures e < |bytes| ==> bytes[e] == EscByte
    ensures forall i :: from <= i < e ==> bytes[i] != EscByte
    decreases |bytes| - from
  {
    if from == |bytes| || bytes[from] == EscByte then from else FirstEsc(bytes, from + 1)
  }

  /** `readNextResponse`: skip to ESC, read the type byte, then the body. */
  function NextResponse(bytes: seq<Byte>): (f: Framing)
    ensures f.consumed <= |bytes|
  {
    var e := FirstEsc(bytes, 0);
    if e + 1 >= |bytes| then Framing(Err(TerminalResponseReadFailure), |bytes|)
    else
      var kind := bytes[e + 1];
      var response := [ByteChar(EscByte), ByteChar(kind)];
      if kind == CsiByte then Body(bytes, e + 2, response, false)
      else if kind == OscByte then Body(bytes, e + 2, response, true)
      else Framing(Err(InvalidTerminalResponse(response)), e + 2)
  }

  /** The body loop from position `pos`, with the reply read so far. */
  function Body(bytes: seq<Byte>, pos: nat, response: string, isOSC: bool): (f: Framing)
    requires pos <= |bytes|
    ensures pos <= f.consumed <= |bytes|
    decreases |bytes| - pos
  {
    if pos == |bytes| then Framing(Err(TerminalResponseReadFailure), pos)
    else
      var b := bytes[pos];
      var r := response + [ByteChar(b)];
      if isOSC && (b == BelByte || HasSuffix(r, ST)) then Framing(Ok((r, true)), pos + 1)
      else if !isOSC && b == ReportEndByte then Framing(Ok((r, false)), pos + 1)
      else if |r| > MaxResponse then Framing(Err(InvalidTerminalResponse(r)), pos + 1)
      else Body(bytes, pos + 1, r, isOSC)
  }

  /** Past the first ESC and the type byte: the body of an OSC reply or a
      report, or the rejection of any other type. */
  lemma ResponseHead(bytes: seq<Byte>, e: nat)
    requires e == FirstEsc(bytes, 0) && e + 1 < |bytes|
    ensures var response := [ByteChar(EscByte), ByteChar(bytes[e + 1])];
      NextResponse(bytes) ==
        if bytes[e + 1] == CsiByte then Body(bytes, e + 2, response, false)
        else if bytes[e + 1] == OscByte then Body(bytes, e + 2, response, true)
        else Framing(Err(InvalidTerminalResponse(response)), e + 2)
  {
  }

  /** One byte of the body loop: it ends the reply, overflows it, or is kept. */
  lemma BodyStep(bytes: seq<Byte>, pos: nat, response: string, isOSC: bool)
    requires pos < |bytes|
    ensures var r := response + [ByteChar(bytes[pos])];
      Body(bytes, pos, response, isOSC) ==
        if isOSC && (bytes[pos] == BelByte || HasSuffix(r, ST)) then Framing(Ok((r, true)), pos + 1)
        else if !isOSC && bytes[pos] == ReportEndByte then Framing(Ok((r, false)), pos + 1)
        else if |r| > MaxResponse then Framing(Err(InvalidTerminalResponse(r)), pos + 1)
        else Body(bytes, pos + 1, r, isOSC)
  {
  }

  /** The reply is finished: BEL or `ESC \` at the end of an OSC reply, `R` at
      the end of a report. */
  predicate Terminated(r: string, isOSC: bool)
  {
    |r| > 0 && if isOSC then r[|r| - 1] == BEL || HasSuffix(r, ST) else r[|r| - 1] == 'R'
  }

  lemma ByteChars()
    ensures ByteChar(EscByte) == ESC && ByteChar(BelByte) == BEL
    ensures ByteChar(CsiByte) == '[' && ByteChar(OscByte) == ']' && ByteChar(ReportEndByte) == 'R'
  {
  }

  /** `ByteChar` tells bytes apart. */
  lemma ByteCharInjective(a: Byte, b: Byte)
    ensures ByteChar(a) == ByteChar(b) <==> a == b
  {
  }

  // ---------------------------------------------------------------------------
  // What a framed reply looks like

  /** The characters of consecutive stretches of bytes, joined. */
  lemma Latin1Split(bytes: seq<Byte>, a: nat, m: nat, c: nat)
    requires a <= m <= c <= |bytes|
    ensures Latin1(bytes[a..c]) == Latin1(bytes[a..m]) + Latin1(bytes[m..c])
  {
    assert bytes[a..c] == bytes[a..m] + bytes[m..c];
    Latin1Append(bytes[a..m], bytes[m..c]);
  }

  /** A reply read from `pos` on consists of the bytes read, appended to what was
      read before. */
  lemma {:induction false} BodyShape(bytes: seq<Byte>, pos: nat, response: string, isOSC: bool)
    requires pos <= |bytes|
    ensures var f := Body(bytes, pos, response, isOSC);
      f.result.Ok? ==>
        && pos < f.consumed
        && f.result.value.1 == isOSC
        && f.result.value.0 == response + Latin1(bytes[pos..f.consumed])
    decreases |bytes| - pos
  {
    if pos < |bytes| {
      var b := bytes[pos];
      var r := response + [ByteChar(b)];
      assert Latin1([b]) == [ByteChar(b)];
      if isOSC && (b == BelByte || HasSuffix(r, ST)) {
        assert bytes[pos..pos + 1] == [b];
      } else if !isOSC && b == ReportEndByte {
        assert bytes[pos..pos + 1] == [b];
      } else if |r| <= MaxResponse {
        BodyShape(bytes, pos + 1, r, isOSC);
        var f := Body(bytes, pos + 1, r, isOSC);
        if f.result.Ok? {
          Latin1Split(bytes, pos, pos + 1, f.consumed);
          ConcatAssoc(response, [ByteChar(b)], Latin1(bytes[pos + 1..f.consumed]));
        }
      }
    }
  }

  /** A body ends at its first terminator and a successful one is never longer
      than 101 characters. */
  lemma {:induction false} BodyEnds(bytes: seq<Byte>, pos: nat, response: string, isOSC: bool)
    requires pos <= |bytes| && |response| <= MaxResponse
    ensures var f := Body(bytes, pos, response, isOSC);
      f.result.Ok? ==> |f.result.value.0| <= MaxResponse + 1 && Terminated(f.result.value.0, isOSC)
    decreases |bytes| - pos
  {
    if pos < |bytes| {
      var b := bytes[pos];
      var r := response + [ByteChar(b)];
      ByteChars();
      if !(isOSC && (b == BelByte || HasSuffix(r, ST))) && !(!isOSC && b == ReportEndByte) && |r| <= MaxResponse {
        BodyEnds(bytes, pos + 1, r, isOSC);
      }
    }
  }

  /** Once the first ESC and a `[` or `]` after it are found, the rest is the body
      loop. */
  lemma Framed(bytes: seq<Byte>) returns (e: nat)
    requires NextResponse(bytes).result.Ok?
    ensures e == FirstEsc(bytes, 0) && e + 2 <= |bytes|
    ensures bytes[e + 1] == CsiByte || bytes[e + 1] == OscByte
    ensures NextResponse(bytes) == Body(bytes, e + 2, [ESC, ByteChar(bytes[e + 1])], bytes[e + 1] == OscByte)
  {
    e := FirstEsc(bytes, 0);
    ByteChars();
  }

  /** A successful reply starts with ESC and its type character, ends with its
      terminator and is at most 101 characters. */
  lemma ResponseShape(bytes: seq<Byte>)
    ensures var f := NextResponse(bytes);
      f.result.Ok? ==>
        var (r, isOSC) := f.result.value;
        && 3 <= |r| <= MaxResponse + 1
        && r[0] == ESC && r[1] == (if isOSC then ']' else '[')
        && Terminated(r, isOSC)
  {
    if NextResponse(bytes).result.Ok? {
      var e := Framed(bytes);
      var kind := bytes[e + 1];
      ByteChars();
      BodyShape(bytes, e + 2, [ESC, ByteChar(kind)], kind == OscByte);
      BodyEnds(bytes, e + 2, [ESC, ByteChar(kind)], kind == OscByte);
    }
  }

  /** A successful reply is exactly the last bytes it took, and the bytes skipped
      before it hold no ESC. */
  lemma ResponseBytes(bytes: seq<Byte>)
    ensures var f := NextResponse(bytes);
      f.result.Ok? ==>
        var r := f.result.value.0;
        && |r| <= f.consumed
        && r == Latin1(bytes[f.consumed - |r|..f.consumed])
        && forall i :: 0 <= i < f.consumed - |r| ==> bytes[i] != EscByte
  {
    if NextResponse(bytes).result.Ok? {
      var e := Framed(bytes);
      var kind := bytes[e + 1];
      var response := [ESC, ByteChar(kind)];
      BodyShape(bytes, e + 2, response, kind == OscByte);
      var f := NextResponse(bytes);
      Latin1Split(bytes, e, e + 2, f.consumed);
      ByteChars();
      assert Latin1(bytes[e..e + 2]) == response;
    }
  }

  /** Without a `[` or `]` after the first ESC the reply is rejected with the two
      characters read. */
  lemma UnknownTypeRejected(bytes: seq<Byte>)
    requires FirstEsc(bytes, 0) + 1 < |bytes|
    requires bytes[FirstEsc(bytes, 0) + 1] != CsiByte && bytes[FirstEsc(bytes, 0) + 1] != OscByte
    ensures NextResponse(bytes) == Framing(Err(InvalidTerminalResponse([ESC, ByteChar(bytes[FirstEsc(bytes, 0) + 1])])), FirstEsc(bytes, 0) + 2)
  {
    ByteChars();
  }

  /** Bytes that never bring an ESC followed by another byte end in a read failure
      that takes them all. */
  lemma NoEscapeFails(bytes: seq<Byte>)
    requires forall i :: 0 <= i < |bytes| - 1 ==> bytes[i] != EscByte
    ensures NextResponse(bytes) == Framing(Err(TerminalResponseReadFailure), |bytes|)
  {
    var e := FirstEsc(bytes, 0);
    assert e >= |bytes| - 1;
  }

  // ---------------------------------------------------------------------------
  // The replies a terminal sends, framed

  /** `payload` holds no byte that could end the body early. */
  predicate QuietPayload(payload: seq<Byte>, isOSC: bool)
  {
    forall i :: 0 <= i < |payload| ==>
      if isOSC then payload[i] != BelByte && payload[i] != EscByte else payload[i] != ReportEndByte
  }

  /** The bytes that end a reply: BEL or `ESC \` after an OSC reply, `R` after
      a cursor position report. */
  predicate ReplyTerminator(term: seq<Byte>, isOSC: bool)
  {
    if isOSC then term == [BelByte] || term == [EscByte, BackslashByte] else term == [ReportEndByte]
  }

  /** The terminator itself, read after a reply that does not end in ESC,
      finishes the body. */
  lemma TerminatorRead(bytes: seq<Byte>, pos: nat, response: string, term: seq<Byte>, isOSC: bool)
    requires ReplyTerminator(term, isOSC)
    requires pos + |term| <= |bytes| && bytes[pos..pos + |term|] == term
    requires |response| + |term| <= MaxResponse + 1
    requires |response| > 0 && (isOSC ==> response[|response| - 1] != ESC)
    ensures Body(bytes, pos, response, isOSC) ==
      Framing(Ok((response + Latin1(term), isOSC)), pos + |term|)
  {
    ByteChars();
    assert bytes[pos] == term[0];
    if term == [EscByte, BackslashByte] {
      var r := response + [ESC];
      assert !HasSuffix(r, ST) by {
        assert r[|r| - 1] == ESC;
      }
      assert |r| <= MaxResponse;
      assert Body(bytes, pos, response, isOSC) == Body(bytes, pos + 1, r, isOSC);
      assert bytes[pos + 1] == BackslashByte;
      var r2 := r + [ByteChar(BackslashByte)];
      assert HasSuffix(r2, ST) by {
        assert r2[|r2| - 2..] == ST;
      }
      assert Body(bytes, pos + 1, r, isOSC) == Framing(Ok((r2, true)), pos + 2);
      assert Latin1(term) == [ESC, '\\'];
      assert r2 == response + Latin1(term);
    } else {
      assert Latin1(term) == [ByteChar(term[0])];
    }
  }

  /** A body with no early terminator and a terminator at the end is read up to
      and including that terminator. */
  lemma {:induction false} BodyReadsThrough(bytes: seq<Byte>, pos: nat, response: string, payload: seq<Byte>, term: seq<Byte>, isOSC: bool)
    requires ReplyTerminator(term, isOSC)
    requires pos + |payload| + |term| <= |bytes| && bytes[pos..pos + |payload| + |term|] == payload + term
    requires QuietPayload(payload, isOSC)
    requires |response| + |payload| + |term| <= MaxResponse + 1
    requires |response| > 0 && (isOSC ==> response[|response| - 1] != ESC)
    ensures Body(bytes, pos, response, isOSC) ==
      Framing(Ok((response + Latin1(payload + term), isOSC)), pos + |payload| + |term|)
    decreases |payload|
  {
    ByteChars();
    if payload == [] {
      assert payload + term == term;
      assert bytes[pos..pos + |term|] == term;
      TerminatorRead(bytes, pos, response, term, isOSC);
    } else {
      var b := bytes[pos];
      var r := response + [ByteChar(b)];
      var end := pos + |payload| + |term|;
      assert b == payload[0] by {
        assert bytes[pos..end][0] == (payload + term)[0];
      }
      if isOSC {
        assert b != BelByte && b != EscByte;
        assert !HasSuffix(r, ST) by {
          assert r[|r| - 2] == response[|response| - 1];
        }
        assert ByteChar(b) != ESC by { ByteCharInjective(b, EscByte); }
      } else {
        assert b != ReportEndByte;
      }
      assert Body(bytes, pos, response, isOSC) == Body(bytes, pos + 1, r, isOSC);
      assert payload + term == [b] + (payload[1..] + term);
      assert bytes[pos + 1..end] == payload[1..] + term by {
        assert bytes[pos + 1..end] == bytes[pos..end][1..];
      }
      BodyReadsThrough(bytes, pos + 1, r, payload[1..], term, isOSC);
      Latin1Append([b], payload[1..] + term);
      assert Latin1([b]) == [ByteChar(b)];
      ConcatAssoc(response, [ByteChar(b)], Latin1(payload[1..] + term));
    }
  }

  /** A body that brings no terminator before it is 101 characters long fails
      on the 101st with the text read so far, after taking that byte. */
  lemma {:induction false} OverlongBodyFails(bytes: seq<Byte>, pos: nat, response: string, payload: seq<Byte>, isOSC: bool)
    requires pos + |payload| <= |bytes| && bytes[pos..pos + |payload|] == payload
    requires QuietPayload(payload, isOSC)
    requires |response| + |payload| == MaxResponse + 1 && |payload| > 0
    requires |response| > 0 && (isOSC ==> response[|response| - 1] != ESC)
    ensures |response + Latin1(payload)| == MaxResponse + 1
    ensures Body(bytes, pos, response, isOSC) ==
      Framing(Err(InvalidTerminalResponse(response + Latin1(payload))), pos + |payload|)
    decreases |payload|
  {
    ByteChars();
    var b := bytes[pos];
    var r := response + [ByteChar(b)];
    var end := pos + |payload|;
    assert b == payload[0] by {
      assert bytes[pos..end][0] == payload[0];
    }
    if isOSC {
      assert b != BelByte && b != EscByte;
      assert !HasSuffix(r, ST) by {
        assert r[|r| - 2] == response[|response| - 1];
      }
      assert ByteChar(b) != ESC by { ByteCharInjective(b, EscByte); }
    } else {
      assert b != ReportEndByte;
      assert ByteChar(b) != 'R' by { ByteCharInjective(b, ReportEndByte); }
    }
    assert payload == [b] + payload[1..];
    Latin1Append([b], payload[1..]);
    assert Latin1([b]) == [ByteChar(b)];
    ConcatAssoc(response, [ByteChar(b)], Latin1(payload[1..]));
    if |payload| == 1 {
      assert Latin1(payload[1..]) == [];
      assert r == response + Latin1(payload);
    } else {
      assert Body(bytes, pos, response, isOSC) == Body(bytes, pos + 1, r, isOSC);
      assert bytes[pos + 1..end] == payload[1..] by {
        assert bytes[pos + 1..end] == bytes[pos..end][1..];
      }
      assert QuietPayload(payload[1..], isOSC) by {
        forall i | 0 <= i < |payload[1..]|
          ensures if isOSC then payload[1..][i] != BelByte && payload[1..][i] != EscByte else payload[1..][i] != ReportEndByte
        {
          assert payload[1..][i] == payload[i + 1];
        }
      }
      OverlongBodyFails(bytes, pos + 1, r, payload[1..], isOSC);
    }
  }

  /** Noise without ESC, then `ESC ] payload` ended by BEL or `ESC \` (or
      `ESC [ payload R`), then anything: the reply is exactly the framed part,
      and only the noise and the reply are taken. */
  lemma FramesReply(noise: seq<Byte>, payload: seq<Byte>, term: seq<Byte>, rest: seq<Byte>, isOSC: bool)
    requires forall i :: 0 <= i < |noise| ==> noise[i] != EscByte
    requires ReplyTerminator(term, isOSC)
    requires QuietPayload(payload, isOSC)
    requires |payload| + |term| + 2 <= MaxResponse + 1
    ensures var reply := [EscByte, if isOSC then OscByte else CsiByte] + payload + term;
      NextResponse(noise + reply + rest) == Framing(Ok((Latin1(reply), isOSC)), |noise| + |reply|)
  {
    var kind := if isOSC then OscByte else CsiByte;
    var reply := [EscByte, kind] + payload + term;
    var bytes := noise + reply + rest;
    ByteChars();
    assert bytes[|noise|] == EscByte;
    assert FirstEsc(bytes, 0) == |noise| by {
      FirstEscAt(bytes, 0, |noise|);
    }
    var response := [ByteChar(EscByte), ByteChar(kind)];
    var pos := |noise| + 2;
    assert reply == [EscByte, kind] + (payload + term);
    assert bytes[pos..pos + |payload| + |term|] == payload + term;
    assert bytes[|noise| + 1] == kind;
    assert NextResponse(bytes) == Body(bytes, pos, response, isOSC);
    BodyReadsThrough(bytes, pos, response, payload, term, isOSC);
    Latin1Append([EscByte, kind], payload + term);
    assert Latin1([EscByte, kind]) == response;
  }

  lemma {:induction false} FirstEscAt(bytes: seq<Byte>, from: nat, e: nat)
    requires from <= e < |bytes| && bytes[e] == EscByte
    requires forall i :: from <= i < e ==> bytes[i] != EscByte
    ensures FirstEsc(bytes, from) == e
    decreases e - from
  {
    if from < e {
      FirstEscAt(bytes, from + 1, e);
    }
  }
}
