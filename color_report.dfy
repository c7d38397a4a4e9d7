/** Reading a colour back from the terminal's reply to an OSC 10 or OSC 11 query:
    `ESC ] 11 ; rgb: RRRR / GGGG / BBBB` followed by BEL or `ESC \`. The reply is
    stripped of its terminator, four characters are skipped unchecked, `;rgb:`
    must follow, and what remains splits on `/` into three or four hexadecimal
    groups (red, green, blue and optionally alpha).

    A group of one, two or three digits is widened to 16 bits. As written, one
    and three digits go through `value4bit` and two through `value8bit`;
    `Replicating` widens them by repeating digits instead, as the component
    tests expect, which keeps every channel within 16 bits. */
module ColorReports {
  import opened Results
  import opened Text
  import opened Colors
  import opened Bitwise

  /** `QueryColor`: which colour is asked for, by its OSC number. */
  datatype QueryColor = Foreground | Background
  {
    function RawValue(): (n: nat)
      ensures n == 10 || n == 11
    {
      match this
      case Foreground => 10
      case Background => 11
    }
  }

  /** `ColorReadFailure`: every way a colour query fails. */
  datatype ColorReadFailure =
    | ErrorInSelect(errno: int)
    | InvalidTerminalResponse(response: string)
    | InvalidStatusForColorRead(status: string)
    | NotForeground
    | TcgetattrFailure
    | TerminalDoesntSupportStatusReporting
    | TerminalResponseReadFailure
    | UnsupportedQuery

  /** How a group of fewer than four digits becomes a 16-bit component. */
  datatype Widening = AsWritten | Replicating

  /** The reply without its terminator: one BEL, else one ESC, else `ESC \`. */
  function StripTerminator(s: string): (r: Option<string>)
    ensures r.None? <==> !HasSuffix(s, [BEL]) && !HasSuffix(s, [ESC]) && !HasSuffix(s, ST)
    ensures r.Some? ==> |r.value| < |s| && s[..|r.value|] == r.value
    ensures r.Some? && |s| - |r.value| == 1 ==> s[|s| - 1] == BEL || s[|s| - 1] == ESC
    ensures r.Some? && |s| - |r.value| != 1 ==> |s| - |r.value| == 2 && HasSuffix(s, ST)
  {
    if HasSuffix(s, [BEL]) then Some(s[..|s| - 1])
    else if HasSuffix(s, [ESC]) then Some(s[..|s| - 1])
    else if HasSuffix(s, ST) then Some(s[..|s| - 2])
    else None
  }

  /** `UInt16(group, radix: 16)` on a group without a sign: one or more
      hexadecimal digits whose value fits in 16 bits. */
  function ParseHex16(g: string): (r: Option<nat>)
    ensures r.Some? <==> g != [] && IsHex(g) && HexValue(g) <= 0xFFFF
    ensures r.Some? ==> r.value == HexValue(g)
  {
    if g != [] && IsHex(g) && HexValue(g) <= 0xFFFF then Some(HexValue(g)) else None
  }

  /** `parseComponent`: the group read by `ParseHex16`, widened by its number of
      digits; a group that does not read, or has more than four digits, is no
      component. */
  function ParseComponent(g: string, w: Widening): (r: Option<Component>)
    ensures r.Some? <==> 1 <= |g| <= 4 && IsHex(g)
    ensures w == Replicating && r.Some? ==> 0 <= r.value.rawValue <= Max16
  {
    assert Pow16(1) == 0x10 && Pow16(2) == 0x100 && Pow16(3) == 0x1000 && Pow16(4) == 0x10000;
    match ParseHex16(g)
    case None => None
    case Some(i) =>
      if |g| == 1 then Some(if w == AsWritten then Value4Bit(i) else Replicated4Bit(i))
      else if |g| == 2 then Some(if w == AsWritten then Value8Bit(i) else Replicated8Bit(i))
      else if |g| == 3 then Some(if w == AsWritten then Value4Bit(i) else Replicated12Bit(i))
      else if |g| == 4 then Some(Component(i))
      else None
  }

  /** `parseTerminalColor` with the given widening. Every failure reports the
      whole reply. */
  function ParseWith(s: string, w: Widening): (r: Result<RGBAColor16, ColorReadFailure>)
    ensures r.Err? ==> r.error == InvalidStatusForColorRead(s)
    ensures w == Replicating && r.Ok? ==> InRange(r.value)
  {
    match StripTerminator(s)
    case None => Err(InvalidStatusForColorRead(s))
    case Some(body) =>
      var subs := Drop(body, 4);
      if !HasPrefix(subs, ";rgb:") then Err(InvalidStatusForColorRead(s))
      else
        var groups := Split(subs[5..], '/');
        if !(3 <= |groups| <= 4) then Err(InvalidStatusForColorRead(s))
        else
          match ColorFromGroups(groups, w)
          case Some(c) => Ok(c)
          case None => Err(InvalidStatusForColorRead(s))
  }

  /** The colour of three or four groups, alpha 0xFFFF when there are three;
      nothing when a group is not a component. */
  function ColorFromGroups(groups: seq<string>, w: Widening): (r: Option<RGBAColor16>)
    requires 3 <= |groups| <= 4
    ensures r.Some? <==> forall k :: 0 <= k < |groups| ==> 1 <= |groups[k]| <= 4 && IsHex(groups[k])
    ensures w == Replicating && r.Some? ==> InRange(r.value)
  {
    var alpha := if |groups| == 4 then ParseComponent(groups[3], w) else Some(Component(0xFFFF));
    match (ParseComponent(groups[0], w), ParseComponent(groups[1], w), ParseComponent(groups[2], w), alpha)
    case (Some(red), Some(green), Some(blue), Some(a)) => Some(RGBAColor16(red, green, blue, a))
    case _ => None
  }

  /** `parseTerminalColor` as written; every failure reports the whole reply. */
  function ParseTerminalColor(s: string): (r: Result<RGBAColor16, ColorReadFailure>)
    ensures r.Err? ==> r.error == InvalidStatusForColorRead(s)
  {
    ParseWith(s, AsWritten)
  }

  /** `parseTerminalColor` with replicating widening. */
  function ParseTerminalColorReplicating(s: string): Result<RGBAColor16, ColorReadFailure>
  {
    ParseWith(s, Replicating)
  }

  /** Every channel within the documented 16-bit range. */
  predicate InRange(c: RGBAColor16)
  {
    0 <= c.r.rawValue <= Max16 && 0 <= c.g.rawValue <= Max16 &&
    0 <= c.b.rawValue <= Max16 && 0 <= c.a.rawValue <= Max16
  }

  // ---------------------------------------------------------------------------
  // The replies a terminal sends

  /** A reply: four leading characters, `;rgb:`, the groups joined by `/`, a terminator. */
  function ColorStatus(lead: string, groups: seq<string>, terminator: string): string
  {
    lead + ";rgb:" + Join(groups, '/') + terminator
  }

  /** What precedes `;rgb:` in the reply to a query: `ESC ]` and the OSC number. */
  function ReplyLead(q: QueryColor): (lead: string)
    ensures |lead| == 4
  {
    [ESC, ']'] + IntString(q.RawValue())
  }

  predicate IsTerminator(t: string)
  {
    t == [BEL] || t == [ESC] || t == ST
  }

  /** Three or four groups of one to four hexadecimal digits. */
  predicate WellFormedGroups(groups: seq<string>)
  {
    3 <= |groups| <= 4 && forall k :: 0 <= k < |groups| ==> 1 <= |groups[k]| <= 4 && IsHex(groups[k])
  }

  /** The colour a reply with these groups stands for under the given widening. */
  function Expected(groups: seq<string>, w: Widening): RGBAColor16
    requires WellFormedGroups(groups)
  {
    RGBAColor16(
      ParseComponent(groups[0], w).value,
      ParseComponent(groups[1], w).value,
      ParseComponent(groups[2], w).value,
      if |groups| == 4 then ParseComponent(groups[3], w).value else Component(0xFFFF))
  }

  // ---------------------------------------------------------------------------
  // Properties

  /** The terminator is found whichever of the three the reply ends with. */
  lemma StripsTerminator(text: string, t: string)
    requires IsTerminator(t)
    ensures StripTerminator(text + t) == Some(text)
  {
    var s := text + t;
    assert s[..|text|] == text;
    if t == ST {
      assert s[|s| - 1] == '\\';
      assert !HasSuffix(s, [BEL]) && !HasSuffix(s, [ESC]);
    }
  }

  lemma {:induction false} GroupsSplittable(groups: seq<string>)
    requires forall k :: 0 <= k < |groups| ==> 1 <= |groups[k]| && IsHex(groups[k])
    ensures Splittable(groups, '/')
    decreases |groups|
  {
    if groups != [] {
      assert forall i :: 0 <= i < |groups[0]| ==> groups[0][i] != '/';
      GroupsSplittable(groups[1..]);
    }
  }

  /** A reply with three groups reads as an opaque colour (alpha 0xFFFF), where
      a colour made with no arguments is fully transparent (alpha 0). */
  lemma MissingAlphaIsOpaque(lead: string, groups: seq<string>, t: string, w: Widening)
    requires |lead| == 4 && WellFormedGroups(groups) && |groups| == 3 && IsTerminator(t)
    ensures var r := ParseWith(ColorStatus(lead, groups, t), w);
      r.Ok? && r.value.a == Component(Max16) && r.value.a != DefaultColor.a
  {
    ParseRoundTrip(lead, groups, t, w);
  }

  /** Any well-formed reply reads back as its groups, widened, with alpha 0xFFFF
      when there are only three groups. */
  lemma ParseRoundTrip(lead: string, groups: seq<string>, t: string, w: Widening)
    requires |lead| == 4 && WellFormedGroups(groups) && IsTerminator(t)
    ensures ParseWith(ColorStatus(lead, groups, t), w) == Ok(Expected(groups, w))
  {
    var joined := Join(groups, '/');
    var body := lead + ";rgb:" + joined;
    StripsTerminator(body, t);
    var subs := Drop(body, 4);
    assert subs == ";rgb:" + joined;
    assert HasPrefix(subs, ";rgb:");
    assert subs[5..] == joined;
    GroupsSplittable(groups);
    SplitJoin(groups, '/');
    assert ColorFromGroups(groups, w) == Some(Expected(groups, w));
  }

  /** A channel reported as four hexadecimal digits reads back as itself. */
  lemma FourDigitsReadBack(v: nat, w: Widening)
    requires v <= 0xFFFF
    ensures ParseComponent(Hex4(v), w) == Some(Component(v))
  {
    Hex4RoundTrip(v);
  }

  /** The usual reply, `rgb:RRRR/GGGG/BBBB`, reads back as exactly the reported
      channels, opaque. */
  lemma ReportedColorReadsBack(q: QueryColor, red: nat, green: nat, blue: nat, t: string)
    requires red <= 0xFFFF && green <= 0xFFFF && blue <= 0xFFFF && IsTerminator(t)
    ensures ParseTerminalColor(ColorStatus(ReplyLead(q), [Hex4(red), Hex4(green), Hex4(blue)], t))
      == Ok(RGBAColor16(Component(red), Component(green), Component(blue), Component(0xFFFF)))
  {
    var groups := [Hex4(red), Hex4(green), Hex4(blue)];
    FourDigitsReadBack(red, AsWritten);
    FourDigitsReadBack(green, AsWritten);
    FourDigitsReadBack(blue, AsWritten);
    ParseRoundTrip(ReplyLead(q), groups, t, AsWritten);
  }

  /** A reply without BEL, ESC or `ESC \` at its end is rejected. */
  lemma UnterminatedRejected(s: string)
    requires !HasSuffix(s, [BEL]) && !HasSuffix(s, [ESC]) && !HasSuffix(s, ST)
    ensures ParseTerminalColor(s) == Err(InvalidStatusForColorRead(s))
  {
  }

  /** Without `;rgb:` after the four skipped characters the reply is rejected,
      whatever those four characters are. */
  lemma MissingRgbRejected(lead: string, rest: string, t: string, w: Widening)
    requires |lead| == 4 && IsTerminator(t) && !HasPrefix(rest, ";rgb:")
    ensures ParseWith(lead + rest + t, w) == Err(InvalidStatusForColorRead(lead + rest + t))
  {
    StripsTerminator(lead + rest, t);
    assert Drop(lead + rest, 4) == rest;
  }

  /** Two groups, or five, are rejected however well-formed each group is. */
  lemma GroupCountRejected(lead: string, groups: seq<string>, t: string, w: Widening)
    requires |lead| == 4 && IsTerminator(t) && !(3 <= |groups| <= 4)
    requires forall k :: 0 <= k < |groups| ==> 1 <= |groups[k]| && IsHex(groups[k])
    ensures ParseWith(ColorStatus(lead, groups, t), w).Err?
  {
    var joined := Join(groups, '/');
    var body := lead + ";rgb:" + joined;
    StripsTerminator(body, t);
    assert Drop(body, 4)[5..] == joined;
    GroupsSplittable(groups);
    SplitJoin(groups, '/');
  }

  // ---------------------------------------------------------------------------
  // Where the widenings differ

  /** A group of three digits goes through `value4bit`, not `value12bit`, and
      replication through `Replicated12Bit`. */
  lemma ThreeDigitGroup(g: string)
    requires |g| == 3 && IsHex(g)
    ensures ParseComponent(g, AsWritten) == Some(Value4Bit(HexValue(g)))
    ensures ParseComponent(g, Replicating) == Some(Replicated12Bit(HexValue(g)))
  {
    assert Pow16(3) == 0x1000;
  }

  /** As written, every three-digit group from `010` up leaves the 16-bit range. */
  lemma ThreeDigitGroupOverflows(g: string)
    requires |g| == 3 && IsHex(g) && HexValue(g) >= 0x10
    ensures ParseComponent(g, AsWritten).value.rawValue > Max16
  {
    ThreeDigitGroup(g);
    FourthPowerAbove(HexValue(g));
  }

  lemma FourthPowerAbove(v: int)
    requires v >= 0x10
    ensures v * v * v * v > 0xFFFF
  {
    MulLe(0x10, v, v);
    MulLe(0x10, v, 0x10);
    var s := v * v;
    assert s >= 0x100;
    MulLe(0x100, s, v);
    MulLe(0x10, v, 0x100);
    var c := s * v;
    assert c >= 0x1000;
    MulLe(0x1000, c, v);
    MulLe(0x10, v, 0x1000);
  }

  /** `ESC ] 11 ; rgb: fff / fff / fff BEL`, a white background in three-digit
      groups, reads as written with red above 16 bits, and with replication as
      white. */
  lemma WhiteInThreeDigits(s: string)
    requires s == ColorStatus(ReplyLead(Background), ["fff", "fff", "fff"], [BEL])
    ensures ParseTerminalColor(s).Ok? && ParseTerminalColor(s).value.r.rawValue > Max16
    ensures ParseTerminalColorReplicating(s) == Ok(RGBAColor16(Component(0xFFFF), Component(0xFFFF), Component(0xFFFF), Component(0xFFFF)))
  {
    var g := "fff";
    assert IsHex(g);
    assert HexValue(g) == 0xFFF;
    ParseRoundTrip(ReplyLead(Background), [g, g, g], [BEL], AsWritten);
    ParseRoundTrip(ReplyLead(Background), [g, g, g], [BEL], Replicating);
    ThreeDigitGroupOverflows(g);
    ThreeDigitGroup(g);
  }

  /** Replies in four-digit groups, the form terminals use, read the same either way. */
  lemma FourDigitGroupsAgree(g: string)
    requires |g| == 4
    ensures ParseComponent(g, AsWritten) == ParseComponent(g, Replicating)
  {
  }
}
