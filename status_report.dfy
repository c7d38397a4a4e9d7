/** Asking the terminal for its foreground or background colour
    (`statusReport`, `foregroundColor`, `backgroundColor` and the byte reader
    under them).

    The terminal is an object: the bytes it will still send (`input`), what has
    been written to it (`output`), its local mode flags (`mode`) and every mode
    set on it, in order (`modeLog`). Whether the process is in the foreground and
    whether the terminal attributes can be read are fixed answers of the device,
    given when the object is made. `Report` is the reference definition the
    method is proved against. */
module StatusReports {
  import opened Results
  import opened Text
  import opened ColorReports
  import opened ResponseFraming
  import opened Colors
  import ControlCodes

  // ---------------------------------------------------------------------------
  // Terminal modes

  /** The local mode flags (`c_lflag`): on macOS `tcflag_t` is a 64-bit word. */
  type Flags = bv64

  /** `ECHO` and `ICANON` with their macOS values. */
  const Echo: Flags := 0x8
  const Canonical: Flags := 0x100

  /** The temporary mode as written: echo and canonical input toggled with `^=`.
      Toggling twice gives the saved mode back. */
  function ToggledMode(m: Flags): (r: Flags)
    ensures r ^ Echo ^ Canonical == m
    ensures r & !(Echo | Canonical) == m & !(Echo | Canonical)
  {
    m ^ Echo ^ Canonical
  }

  /** The temporary mode as intended: echo and canonical input off, every other
      flag kept. */
  function QuietMode(m: Flags): (r: Flags)
    ensures r & Echo == 0 && r & Canonical == 0
    ensures r & !(Echo | Canonical) == m & !(Echo | Canonical)
  {
    m & !(Echo | Canonical)
  }

  /** On a terminal that echoes and reads by lines, the usual case, toggling does
      what was meant. */
  lemma ToggleQuietsEchoingTerminal(m: Flags)
    requires m & Echo == Echo && m & Canonical == Canonical
    ensures ToggledMode(m) == QuietMode(m)
  {
  }

  /** On a terminal already without echo, toggling turns echo on while the reply
      is read, and likewise canonical input. */
  lemma ToggleEchoesQuietTerminal(m: Flags)
    requires m & Echo == 0
    ensures ToggledMode(m) & Echo == Echo
    ensures m & Canonical == 0 ==> ToggledMode(m) & Canonical == Canonical
    ensures ToggledMode(m) != QuietMode(m)
  {
  }

  // ---------------------------------------------------------------------------
  // The exchange

  /** Terminals whose `TERM` starts with `screen`, `tmux` or `dumb` are not asked. */
  predicate Unsupported(env: Environment)
  {
    match Get(env, "TERM")
    case None => false
    case Some(term) => HasPrefix(term, "screen") || HasPrefix(term, "tmux") || HasPrefix(term, "dumb")
  }

  /** What is written: the OSC colour query, then the cursor position query. */
  function Query(q: QueryColor): (s: string)
    ensures |s| >= 4 && s[..2] == [ESC, ']'] && s[|s| - 4..] == [ESC, '[', '6', 'n']
  {
    ControlCodes.Osc(IntString(q.RawValue()) + ";?") + [ESC] + ControlCodes.Csi("6", 'n')
  }

  /** Read back, the query asks for colour 10 or 11 with `?` in one OSC frame
      closed by ST, then for the cursor position (`CSI 6 n`). */
  lemma QueryReadsBack(q: QueryColor)
    ensures var s := Query(q);
      && ControlCodes.OscParts(s[..|s| - 4]) == Some((q.RawValue() as int, "?"))
      && ControlCodes.DecodeCsi(s[|s| - 3..]) == Some(ControlCodes.ControlSequence([6], 'n'))
  {
    var body := IntString(q.RawValue()) + ";?";
    var s := Query(q);
    var csi := ControlCodes.Csi("6", 'n');
    assert s == ControlCodes.Osc(body) + ([ESC] + csi);
    assert s[..|s| - 4] == ControlCodes.Osc(body);
    assert s[|s| - 3..] == csi;
    ColorQueryFrame(q.RawValue());
    ControlCodes.CsiDecodes("6", 'n');
    ControlCodes.OneDigitParams('6');
  }

  lemma ColorQueryFrame(v: nat)
    ensures ControlCodes.OscParts(ControlCodes.Osc(IntString(v) + ";?")) == Some((v as int, "?"))
  {
    var digits := IntString(v);
    var body := digits + ";?";
    var i := |digits|;
    assert body[i] == ';' && body[..i] == digits;
    NatStringValue(v);
    IntStringExcludes(v, BEL);
    IntStringExcludes(v, ESC);
    assert ControlCodes.ControlStringText(body) by {
      assert BEL !in body && ESC !in body;
    }
    ControlCodes.OscRoundTrip(body, i);
    assert body[i + 1..] == "?";
  }

  /** The outcome of `statusReport`, the bytes it took, and whether it got as far
      as setting the mode and writing the queries. */
  datatype Exchange = Exchange(result: Result<string, ColorReadFailure>, consumed: nat, queried: bool)

  /** `statusReport` on a terminal that will send `bytes`: the queries go out
      exactly when every check passes, and no more bytes are taken than sent. */
  function Report(env: Environment, foreground: bool, readable: bool, bytes: seq<Byte>): (x: Exchange)
    ensures x.queried <==> !Unsupported(env) && foreground && readable
    ensures x.consumed <= |bytes|
  {
    if Unsupported(env) then Exchange(Err(TerminalDoesntSupportStatusReporting), 0, false)
    else if !foreground then Exchange(Err(NotForeground), 0, false)
    else if !readable then Exchange(Err(TcgetattrFailure), 0, false)
    else Answer(bytes)
  }

  /** What follows the queries: the first reply must be an OSC reply, and the
      cursor position report after it is read and dropped. */
  function Answer(bytes: seq<Byte>): (x: Exchange)
    ensures x.queried && x.consumed <= |bytes|
  {
    var first := NextResponse(bytes);
    if first.result.Err? then Exchange(Err(first.result.error), first.consumed, true)
    else if !first.result.value.1 then Exchange(Err(UnsupportedQuery), first.consumed, true)
    else
      var second := NextResponse(bytes[first.consumed..]);
      if second.result.Err? then Exchange(Err(second.result.error), first.consumed + second.consumed, true)
      else Exchange(Ok(first.result.value.0), first.consumed + second.consumed, true)
  }

  /** `foregroundColor` and `backgroundColor`: the report parsed with the given
      widening; `AsWritten` is `parseTerminalColor`. A failed report is passed
      on, a report that does not parse is rejected whole, and under the
      replicating widening every colour read lies in the 16-bit range. */
  function ColorOf(x: Exchange, w: Widening): (r: Result<RGBAColor16, ColorReadFailure>)
    ensures x.result.Err? ==> r == Err(x.result.error)
    ensures x.result.Ok? && r.Err? ==> r.error == InvalidStatusForColorRead(x.result.value)
    ensures w == Replicating && r.Ok? ==> InRange(r.value)
  {
    match x.result
    case Err(e) => Err(e)
    case Ok(s) => ParseWith(s, w)
  }

  /** The checks come in order and before anything is written: an unsupported
      `TERM`, then a background process, then unreadable attributes. Once past
      them the queries are always written, and no more bytes are taken than the
      terminal sent. */
  lemma RefusalsComeFirst(env: Environment, foreground: bool, readable: bool, bytes: seq<Byte>)
    ensures var x := Report(env, foreground, readable, bytes);
      && (!x.queried <==> Unsupported(env) || !foreground || !readable)
      && (!x.queried ==> x.consumed == 0)
      && (Unsupported(env) ==> x.result == Err(TerminalDoesntSupportStatusReporting))
      && (!Unsupported(env) && !foreground ==> x.result == Err(NotForeground))
      && (!Unsupported(env) && foreground && !readable ==> x.result == Err(TcgetattrFailure))
      && x.consumed <= |bytes|
  {
  }

  /** A report that succeeds is an OSC reply: `ESC ]`, at most 101 characters,
      closed by BEL or `ESC \`, and a cursor position report was read after it. */
  lemma ReportIsOscReply(env: Environment, foreground: bool, readable: bool, bytes: seq<Byte>)
    ensures var x := Report(env, foreground, readable, bytes);
      x.result.Ok? ==>
        var r := x.result.value;
        && 3 <= |r| <= MaxResponse + 1
        && r[..2] == [ESC, ']']
        && Terminated(r, true)
        && x.queried
  {
    ResponseShape(bytes);
  }

  /** A terminal that answers only the cursor position query (noise, then
      `ESC [ … R`) does not support the colour query. */
  lemma CursorOnlyIsUnsupported(env: Environment, noise: seq<Byte>, payload: seq<Byte>, rest: seq<Byte>)
    requires !Unsupported(env)
    requires forall i :: 0 <= i < |noise| ==> noise[i] != EscByte
    requires QuietPayload(payload, false) && |payload| <= MaxResponse - 2
    ensures var reply := [EscByte, CsiByte] + payload + [ReportEndByte];
      Report(env, true, true, noise + reply + rest) == Exchange(Err(UnsupportedQuery), |noise| + |reply|, true)
  {
    FramesReply(noise, payload, [ReportEndByte], rest, false);
  }

  /** The colour reply arrives but nothing after it starts another reply: the
      failure of the second read is the outcome, not the colour, and every byte
      is taken. */
  lemma SecondReadFails(noise: seq<Byte>, payload: seq<Byte>, term: seq<Byte>, rest: seq<Byte>)
    requires forall i :: 0 <= i < |noise| ==> noise[i] != EscByte
    requires ReplyTerminator(term, true) && QuietPayload(payload, true)
    requires |payload| + |term| + 2 <= MaxResponse + 1
    requires forall i :: 0 <= i < |rest| - 1 ==> rest[i] != EscByte
    ensures var reply := [EscByte, OscByte] + payload + term;
      Answer(noise + reply + rest) == Exchange(Err(TerminalResponseReadFailure), |noise + reply + rest|, true)
  {
    var reply := [EscByte, OscByte] + payload + term;
    var bytes := noise + reply + rest;
    FramesReply(noise, payload, term, rest, true);
    assert bytes[|noise| + |reply|..] == rest;
    NoEscapeFails(rest);
  }

  /** The colour reply arrives, then an ESC followed by neither `[` nor `]`: the
      second read's rejection of those two characters is the outcome. */
  lemma SecondReplyInvalid(noise: seq<Byte>, payload: seq<Byte>, term: seq<Byte>, between: seq<Byte>,
                           kind: Byte, rest: seq<Byte>)
    requires forall i :: 0 <= i < |noise| ==> noise[i] != EscByte
    requires ReplyTerminator(term, true) && QuietPayload(payload, true)
    requires |payload| + |term| + 2 <= MaxResponse + 1
    requires forall i :: 0 <= i < |between| ==> between[i] != EscByte
    requires kind != CsiByte && kind != OscByte
    ensures var reply := [EscByte, OscByte] + payload + term;
      Answer(noise + reply + between + [EscByte, kind] + rest) ==
        Exchange(Err(InvalidTerminalResponse([ESC, ByteChar(kind)])), |noise + reply + between| + 2, true)
  {
    var reply := [EscByte, OscByte] + payload + term;
    var second := between + [EscByte, kind] + rest;
    var bytes := noise + reply + between + [EscByte, kind] + rest;
    assert bytes == noise + reply + second;
    FramesReply(noise, payload, term, second, true);
    assert bytes[|noise| + |reply|..] == second;
    assert second[|between|] == EscByte && second[|between| + 1] == kind;
    FirstEscAt(second, 0, |between|);
    UnknownTypeRejected(second);
  }

  // ---------------------------------------------------------------------------
  // A colour query answered

  /** Every character of groups joined by `/` is a hexadecimal digit or `/`. */
  lemma {:induction false} JoinedHex(groups: seq<string>)
    requires forall k :: 0 <= k < |groups| ==> IsHex(groups[k])
    ensures forall i :: 0 <= i < |Join(groups, '/')| ==> IsHexDigit(Join(groups, '/')[i]) || Join(groups, '/')[i] == '/'
    decreases |groups|
  {
    if |groups| > 1 {
      JoinedHex(groups[1..]);
      var j := Join(groups, '/');
      assert j == groups[0] + ['/'] + Join(groups[1..], '/');
      forall i | 0 <= i < |j|
        ensures IsHexDigit(j[i]) || j[i] == '/'
      {
        if i > |groups[0]| {
          assert j[i] == Join(groups[1..], '/')[i - |groups[0]| - 1];
        }
      }
    }
  }

  /** Three or four groups of at most four digits join to at most 19 characters. */
  lemma JoinedLength(groups: seq<string>)
    requires WellFormedGroups(groups)
    ensures |Join(groups, '/')| <= 19
  {
    var rest := groups[1..];
    assert Join(groups, '/') == groups[0] + ['/'] + Join(rest, '/');
    assert Join(rest, '/') == rest[0] + ['/'] + Join(rest[1..], '/');
    if |groups| == 4 {
      var last := rest[1..];
      assert Join(last, '/') == last[0] + ['/'] + Join(last[1..], '/');
    }
  }

  /** A colour reply ended by BEL or `ESC \` is `ESC ]`, a middle with no BEL
      and no ESC, and that terminator. */
  lemma ReplyPayloadQuiet(q: QueryColor, groups: seq<string>, t: string, reply: seq<Byte>)
    requires WellFormedGroups(groups) && (t == [BEL] || t == ST)
    requires Latin1(reply) == ColorStatus(ReplyLead(q), groups, t)
    ensures |reply| >= 2 + |t| && reply[..2] == [EscByte, OscByte]
    ensures ReplyTerminator(reply[|reply| - |t|..], true)
    ensures QuietPayload(reply[2..|reply| - |t|], true)
    ensures |reply| <= MaxResponse + 1
  {
    var s := ColorStatus(ReplyLead(q), groups, t);
    var lead := ReplyLead(q);
    var digits := IntString(q.RawValue());
    var joined := Join(groups, '/');
    JoinedHex(groups);
    JoinedLength(groups);
    assert s == [ESC, ']'] + digits + ";rgb:" + joined + t;
    ByteChars();
    forall i | 0 <= i < |reply|
      ensures ByteChar(reply[i]) == s[i]
    {
    }
    ByteCharInjective(reply[0], EscByte);
    ByteCharInjective(reply[1], OscByte);
    var n := |reply|;
    if t == [BEL] {
      ByteCharInjective(reply[n - 1], BelByte);
      assert reply[n - 1..] == [BelByte];
    } else {
      assert ByteChar(BackslashByte) == '\\';
      ByteCharInjective(reply[n - 2], EscByte);
      ByteCharInjective(reply[n - 1], BackslashByte);
      assert reply[n - 2..] == [EscByte, BackslashByte];
    }
    var payload := reply[2..|reply| - |t|];
    forall i | 0 <= i < |payload|
      ensures payload[i] != BelByte && payload[i] != EscByte
    {
      var c := s[i + 2];
      assert ByteChar(payload[i]) == c;
      if i < |digits| {
        assert c == digits[i];
      } else if i < |digits| + 5 {
        assert c == ";rgb:"[i - |digits|];
      } else {
        assert c == joined[i - |digits| - 5];
      }
      assert c != BEL && c != ESC;
    }
  }

  /** An OSC reply after bytes without ESC, then more such bytes and a cursor
      position report: the answer is the OSC reply, and all of it is taken. */
  lemma OscThenCursor(noise: seq<Byte>, payload: seq<Byte>, term: seq<Byte>, between: seq<Byte>,
                      position: seq<Byte>, rest: seq<Byte>)
    requires forall i :: 0 <= i < |noise| ==> noise[i] != EscByte
    requires forall i :: 0 <= i < |between| ==> between[i] != EscByte
    requires ReplyTerminator(term, true) && QuietPayload(payload, true)
    requires |payload| + |term| + 2 <= MaxResponse + 1
    requires QuietPayload(position, false) && |position| <= MaxResponse - 2
    ensures var reply := [EscByte, OscByte] + payload + term;
      var cursor := [EscByte, CsiByte] + position + [ReportEndByte];
      Answer(noise + reply + between + cursor + rest) ==
        Exchange(Ok(Latin1(reply)), |noise + reply + between + cursor|, true)
  {
    var reply := [EscByte, OscByte] + payload + term;
    var cursor := [EscByte, CsiByte] + position + [ReportEndByte];
    var tail := between + cursor + rest;
    var bytes := noise + reply + between + cursor + rest;
    assert bytes == noise + reply + tail;
    FramesReply(noise, payload, term, tail, true);
    assert bytes[|noise| + |reply|..] == between + cursor + rest;
    FramesReply(between, position, [ReportEndByte], rest, false);
  }

  /** A terminal that answers both queries — noise, the colour reply
      `ESC ] 1x ;rgb: groups` ended by BEL or `ESC \`, noise, then a cursor
      position report — gives the colour reply as the report, all those bytes
      are taken, and the report parses to the colour of its groups under either
      widening. */
  lemma ColorQueryAnswered(env: Environment, q: QueryColor, groups: seq<string>, t: string, w: Widening,
                           reply: seq<Byte>, noise: seq<Byte>, between: seq<Byte>, position: seq<Byte>, rest: seq<Byte>)
    requires !Unsupported(env) && WellFormedGroups(groups) && (t == [BEL] || t == ST)
    requires Latin1(reply) == ColorStatus(ReplyLead(q), groups, t)
    requires forall i :: 0 <= i < |noise| ==> noise[i] != EscByte
    requires forall i :: 0 <= i < |between| ==> between[i] != EscByte
    requires QuietPayload(position, false) && |position| <= MaxResponse - 2
    ensures var cursor := [EscByte, CsiByte] + position + [ReportEndByte];
      var x := Report(env, true, true, noise + reply + between + cursor + rest);
      && x == Exchange(Ok(ColorStatus(ReplyLead(q), groups, t)), |noise + reply + between + cursor|, true)
      && ColorOf(x, w) == Ok(Expected(groups, w))
  {
    ReplyPayloadQuiet(q, groups, t, reply);
    var payload := reply[2..|reply| - |t|];
    var term := reply[|reply| - |t|..];
    assert reply == [EscByte, OscByte] + payload + term;
    OscThenCursor(noise, payload, term, between, position, rest);
    ParseRoundTrip(ReplyLead(q), groups, t, w);
  }

  // ---------------------------------------------------------------------------
  // The terminal

  class Terminal {
    /** The bytes the terminal will still send. */
    var input: seq<Byte>
    /** Everything written to the terminal. */
    var output: string
    /** The current local mode flags. */
    var mode: Flags
    /** Every mode set on the terminal, in order. */
    var modeLog: seq<Flags>
    /** Whether this process is the terminal's foreground process group. */
    const foreground: bool
    /** Whether `tcgetattr` succeeds on the terminal. */
    const readable: bool

    constructor (input: seq<Byte>, mode: Flags, foreground: bool, readable: bool)
      ensures this.input == input && output == [] && this.mode == mode && modeLog == []
      ensures this.foreground == foreground && this.readable == readable
    {
      this.input := input;
      output := [];
      this.mode := mode;
      modeLog := [];
      this.foreground := foreground;
      this.readable := readable;
    }

    /** `readNextByte`: the next byte, or a read failure when none comes. */
    method ReadNextByte() returns (r: Result<Byte, ColorReadFailure>)
      modifies this`input
      ensures old(input) == [] ==> r == Err(TerminalResponseReadFailure) && input == []
      ensures old(input) != [] ==> r == Ok(old(input)[0]) && input == old(input)[1..]
    {
      if input == [] {
        return Err(TerminalResponseReadFailure);
      }
      r := Ok(input[0]);
      input := input[1..];
    }

    /** `readNextResponse`: takes exactly the bytes `NextResponse` says and
        returns its outcome. */
    method ReadNextResponse() returns (r: Result<(string, bool), ColorReadFailure>)
      modifies this`input
      ensures r == NextResponse(old(input)).result
      ensures input == old(input)[NextResponse(old(input)).consumed..]
    {
      ghost var bytes := input;
      ghost var k: nat := 0;
      var start: Byte := 0;
      var found := false;
      while !found
        invariant k <= |bytes| && input == bytes[k..]
        invariant found ==> k >= 1 && start == bytes[k - 1] == EscByte && FirstEsc(bytes, 0) == k - 1
        invariant !found ==> FirstEsc(bytes, 0) == FirstEsc(bytes, k)
        decreases |bytes| - k, !found
      {
        var b := ReadNextByte();
        if b.Err? {
          assert k == |bytes| && FirstEsc(bytes, 0) == k;
          return Err(TerminalResponseReadFailure);
        }
        start := b.value;
        k := k + 1;
        found := start == EscByte;
      }
      ByteChars();
      var kind := ReadNextByte();
      if kind.Err? {
        assert k == |bytes| && FirstEsc(bytes, 0) + 1 == k;
        return Err(TerminalResponseReadFailure);
      }
      assert bytes[k] == kind.value;
      k := k + 1;
      var response := [ByteChar(start), ByteChar(kind.value)];
      ResponseHead(bytes, k - 2);
      var isOSC: bool;
      if kind.value == CsiByte {
        isOSC := false;
      } else if kind.value == OscByte {
        isOSC := true;
      } else {
        return Err(InvalidTerminalResponse(response));
      }
      while true
        invariant k <= |bytes| && input == bytes[k..]
        invariant |response| <= MaxResponse
        invariant NextResponse(bytes) == Body(bytes, k, response, isOSC)
        decreases |bytes| - k
      {
        var b := ReadNextByte();
        if b.Err? {
          return Err(TerminalResponseReadFailure);
        }
        BodyStep(bytes, k, response, isOSC);
        response := response + [ByteChar(b.value)];
        k := k + 1;
        if isOSC {
          if b.value == BelByte || HasSuffix(response, ST) {
            return Ok((response, true));
          }
        } else {
          if b.value == ReportEndByte {
            return Ok((response, false));
          }
        }
        if |response| > MaxResponse {
          return Err(InvalidTerminalResponse(response));
        }
      }
    }

    /** `tcsetattr`: the new mode is in force and recorded. */
    method SetMode(m: Flags)
      modifies this`mode, this`modeLog
      ensures mode == m && modeLog == old(modeLog) + [m]
    {
      mode := m;
      modeLog := modeLog + [m];
    }

    /** Writes `s` to the terminal. */
    method Write(s: string)
      modifies this`output
      ensures output == old(output) + s
    {
      output := output + s;
    }

    /** `statusReport`: refuses before touching the terminal, or sets the
        temporary mode (echo and canonical input toggled), writes the two
        queries, reads the two replies, and on every way out restores the saved
        mode. */
    method StatusReport(env: Environment, q: QueryColor) returns (r: Result<string, ColorReadFailure>)
      modifies this`input, this`output, this`mode, this`modeLog
      ensures var x := Report(env, foreground, readable, old(input));
        && r == x.result
        && x.consumed <= |old(input)|
        && input == old(input)[x.consumed..]
        && output == old(output) + (if x.queried then Query(q) else [])
        && modeLog == old(modeLog) + (if x.queried then [ToggledMode(old(mode)), old(mode)] else [])
      ensures mode == old(mode)
    {
      if Unsupported(env) {
        return Err(TerminalDoesntSupportStatusReporting);
      }
      if !foreground {
        return Err(NotForeground);
      }
      if !readable {
        return Err(TcgetattrFailure);
      }
      var saved := mode;
      ghost var bytes := input;
      assert Report(env, foreground, readable, bytes) == Answer(bytes);
      SetMode(ToggledMode(saved));
      Write(Query(q));
      r := ReadAnswer();
      SetMode(saved);
    }

    /** The two replies after the queries, as `Answer` says. */
    method ReadAnswer() returns (r: Result<string, ColorReadFailure>)
      modifies this`input
      ensures r == Answer(old(input)).result
      ensures input == old(input)[Answer(old(input)).consumed..]
    {
      ghost var bytes := input;
      var first := ReadNextResponse();
      if first.Err? {
        return Err(first.error);
      }
      var (response, isOSC) := first.value;
      if !isOSC {
        return Err(UnsupportedQuery);
      }
      ghost var afterFirst := input;
      var second := ReadNextResponse();
      assert bytes[NextResponse(bytes).consumed..][NextResponse(afterFirst).consumed..]
        == bytes[NextResponse(bytes).consumed + NextResponse(afterFirst).consumed..];
      if second.Err? {
        return Err(second.error);
      }
      return Ok(response);
    }

    /** `foregroundColor` and `backgroundColor`: the report for `q`, parsed by
        `parseTerminalColor`. */
    method QueryColorOf(env: Environment, q: QueryColor) returns (r: Result<RGBAColor16, ColorReadFailure>)
      modifies this`input, this`output, this`mode, this`modeLog
      ensures var x := Report(env, foreground, readable, old(input));
        && r == ColorOf(x, AsWritten)
        && input == old(input)[x.consumed..]
        && output == old(output) + (if x.queried then Query(q) else [])
        && modeLog == old(modeLog) + (if x.queried then [ToggledMode(old(mode)), old(mode)] else [])
      ensures mode == old(mode)
    {
      var report := StatusReport(env, q);
      if report.Err? {
        return Err(report.error);
      }
      r := ParseTerminalColor(report.value);
    }
  }
}
