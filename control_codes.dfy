/** The escape-sequence encoder: each control code, graphics rendition, operating
    system command and progress state maps to exactly one string, following the
    CSI (`ESC [`) and OSC (`ESC ]`) grammar of ECMA-48.

    Beside the encoder stands a small decoder for CSI sequences (`DecodeCsi`) and
    the cursor motion ECMA-48 gives each final character (`Effect`); the lemmas
    at the end run the encoder's output through them. */
module ControlCodes {
  import opened Results
  import opened Text

  datatype Erase = EndOfScreen | BeginningOfScreen | EntireScreen | SavedLines | EndOfLine | StartOfLine | EntireLine
  {
    /** ED (`J`) for the four screen cases, EL (`K`) for the three line cases,
        each with one one-digit parameter. */
    function RawValue(): (s: string)
      ensures |s| == 3 && s[0] == '[' && IsDigit(s[1])
      ensures s[2] == 'J' <==> this.EndOfScreen? || this.BeginningOfScreen? || this.EntireScreen? || this.SavedLines?
      ensures s[2] != 'J' ==> s[2] == 'K'
    {
      match this
      case EndOfScreen => "[0J"
      case BeginningOfScreen => "[1J"
      case EntireScreen => "[2J"
      case SavedLines => "[3J"
      case EndOfLine => "[0K"
      case StartOfLine => "[1K"
      case EntireLine => "[2K"
    }
  }

  /** The basic eight terminal colours. */
  datatype BasicPalette = Black | Red | Green | Yellow | Blue | Magenta | Cyan | White
  {
    function RawValue(): (i: nat)
      ensures i < 8
    {
      match this
      case Black => 0
      case Red => 1
      case Green => 2
      case Yellow => 3
      case Blue => 4
      case Magenta => 5
      case Cyan => 6
      case White => 7
    }
  }

  type Channel8 = x: int | 0 <= x < 0x100

  /** An 8-bit-per-channel colour, as carried by the true-colour renditions. */
  datatype RGBColor8 = RGBColor8(r: Channel8, g: Channel8, b: Channel8)

  datatype SetGraphicsRendition =
    | Background256(index: int)
    | BackgroundBasic(palette: BasicPalette)
    | BackgroundBasicBright(palette: BasicPalette)
    | BackgroundRGB(rgb: RGBColor8)
    | Blink
    | Bold
    | CrossOut
    | Faint
    | Italic
    | Overline
    | Reset
    | Reverse
    | Text256(index: int)
    | TextBasic(palette: BasicPalette)
    | TextBasicBright(palette: BasicPalette)
    | TextRGB(rgb: RGBColor8)
    | Underline
    | DoubleUnderline
  {
    /** The parameters of one rendition: never empty, and led by a digit. */
    function RawValue(): (s: string)
      ensures s != [] && IsDigit(s[0])
    {
      match this
      case Background256(index) => "48;5;" + IntString(index)
      case BackgroundBasic(p) => IntString(40 + p.RawValue())
      case BackgroundBasicBright(p) => IntString(100 + p.RawValue())
      case BackgroundRGB(c) => "48;2;" + RgbParams(c)
      case Blink => "5"
      case Bold => "1"
      case CrossOut => "9"
      case Faint => "2"
      case Italic => "3"
      case Overline => "53"
      case Reverse => "7"
      case Underline => "4"
      case DoubleUnderline => "21"
      case Text256(index) => "38;5;" + IntString(index)
      case TextBasic(p) => IntString(30 + p.RawValue())
      case TextBasicBright(p) => IntString(90 + p.RawValue())
      case TextRGB(c) => "38;2;" + RgbParams(c)
      case Reset => "0"
    }
  }

  /** The `r;g;b` tail of a true-colour rendition. */
  function RgbParams(c: RGBColor8): string
  {
    IntString(c.r) + ";" + IntString(c.g) + ";" + IntString(c.b)
  }

  /** An OSC 9;4 progress indicator. */
  datatype OSCProgress = Remove | Value(value: int) | Error | Indeterminate | Paused
  {
    /** `4;` and two more parameters, all of it text an OSC frame can carry. */
    function RawValue(): (s: string)
      ensures |s| >= 5 && s[..2] == "4;" && ControlStringText(s)
    {
      var prefix := "4;";
      var n := if this.Value? then Min(100, Max(0, this.value)) else 0;
      IntStringExcludes(n, BEL);
      IntStringExcludes(n, ESC);
      match this
      case Remove => prefix + "0;0"
      case Value(v) => prefix + "1;" + IntString(Min(100, Max(0, v)))
      case Error => prefix + "2;0"
      case Indeterminate => prefix + "3;0"
      case Paused => prefix + "4;0"
    }
  }

  function Min(a: int, b: int): int
  {
    if a <= b then a else b
  }

  function Max(a: int, b: int): int
  {
    if a >= b then a else b
  }

  datatype OperatingSystemCommand =
    | Link(id: Option<string>, target: string, title: string)  // OSC 8
    | SetProgress(progress: OSCProgress)                       // OSC 9
    | SetTitle(title: string)                                  // OSC 0
  {
    /** What stands between `]` and the closing ST. */
    function Action(): string
    {
      match this
      case Link(id, target, title) =>
        var codes := "8;";
        var codes := if id.Some? then codes + "id=" + id.value else codes;
        codes + ";" + target + ST + title + [ESC] + "]8;;"
      case SetProgress(p) => "9;" + p.RawValue()
      case SetTitle(t) => "0;" + t
    }

    /** One OSC frame as it follows ESC: `]`, the action, and ST. */
    function RawValue(): (s: string)
      ensures |s| >= 3 && s[0] == ']' && HasSuffix(s, ST)
    {
      "]" + Action() + ST
    }
  }

  /** An escape sequence ready for output: `rawValue`, preceded by ESC when `escape` is set. */
  datatype ANSICommand = ANSICommand(rawValue: string, escape: bool)
  {
    /** The raw value, behind exactly one ESC when `escape` is set. */
    function Message(): (m: string)
      ensures |m| == |rawValue| + (if escape then 1 else 0)
      ensures m[|m| - |rawValue|..] == rawValue
      ensures escape ==> m[0] == ESC
    {
      (if escape then [ESC] else "") + rawValue
    }
  }

  datatype ANSIControlCode =
    | ClearLine
    | ClearScreen
    | DisableAlternativeBuffer
    | EnableAlternativeBuffer
    | Erase(erase: Erase)
    | InsertBlanks(count: int)
    | InsertLines(count: int)
    | Literal(text: string)
    | MoveCursor(x: int, y: Option<int>)
    | MoveCursorBeginningOfLineDown(n: int)
    | MoveCursorBeginningOfLineUp(n: int)
    | MoveCursorDown(n: int)
    | MoveCursorLeft(n: int)
    | MoveCursorRight(n: int)
    | MoveCursorToColumn(n: int)
    | MoveCursorUp(n: int)
    | OperatingSystemCommand(osc: OperatingSystemCommand)
    | Reset
    | RestoreCursorPosition
    | RestoreScreen
    | SaveCursorPosition
    | SaveScreen
    | SetGraphicsRendition(sgr: seq<SetGraphicsRendition>)
    | ScrollDown(count: int)
    | ScrollUp(count: int)
    | SetCursorHidden(hidden: bool)
  {
    /** Every code but `literal` is escaped, and what follows its ESC opens a
        control sequence (`[`), an operating system command (`]`), or is one of
        the single-character functions RIS (`c`), DECSC (`7`) and DECRC (`8`). */
    function AnsiCommand(): (cmd: ANSICommand)
      ensures cmd.escape <==> !this.Literal?
      ensures !this.Literal? ==> cmd.rawValue != [] && cmd.rawValue[0] in {'[', ']', 'c', '7', '8'}
    {
      match this
      case ClearLine => ANSICommand("[2K", true)
      case ClearScreen => ANSICommand("[2J", true)
      case DisableAlternativeBuffer => ANSICommand("[?1049l", true)
      case EnableAlternativeBuffer => ANSICommand("[?1049h", true)
      case Erase(e) => ANSICommand(e.RawValue(), true)
      case InsertBlanks(n) => ANSICommand(Csi(IntString(n), '@'), true)
      case InsertLines(n) => ANSICommand(Csi(IntString(n), 'L'), true)
      case Literal(str) => ANSICommand(str, false)
      case MoveCursor(x, y) =>
        if y.Some? then ANSICommand(Csi(IntString(y.value + 1) + ";" + IntString(x + 1), 'H'), true)
        else ANSICommand(Csi(IntString(x + 1), 'H'), true)
      case MoveCursorBeginningOfLineDown(n) => ANSICommand(SignedRaw(n, 'E', 'F'), true)
      case MoveCursorBeginningOfLineUp(n) => ANSICommand(SignedRaw(n, 'F', 'E'), true)
      case MoveCursorLeft(n) => ANSICommand(SignedRaw(n, 'D', 'C'), true)
      case MoveCursorDown(n) => ANSICommand(SignedRaw(n, 'B', 'A'), true)
      case MoveCursorRight(n) => ANSICommand(SignedRaw(n, 'C', 'D'), true)
      case MoveCursorToColumn(n) => ANSICommand(Csi(IntString(n), 'G'), true)
      case MoveCursorUp(n) => ANSICommand(SignedRaw(n, 'A', 'B'), true)
      case OperatingSystemCommand(osc) => ANSICommand(osc.RawValue(), true)
      case Reset => ANSICommand("c", true)
      case RestoreCursorPosition => ANSICommand("8", true)
      case RestoreScreen => ANSICommand("[?47l", true)
      case SaveCursorPosition => ANSICommand("7", true)
      case SaveScreen => ANSICommand("[?47h", true)
      case ScrollDown(n) => ANSICommand(Csi(IntString(n), 'T'), true)
      case ScrollUp(n) => ANSICommand(Csi(IntString(n), 'S'), true)
      case SetCursorHidden(hidden) => ANSICommand("[?25" + (if hidden then "l" else "h"), true)
      case SetGraphicsRendition(sgr) => ANSICommand(Csi(Join(RawValues(sgr), ';'), 'm'), true)
    }
  }

  /** A control sequence introduced by `[`: the parameters, then the final character. */
  function Csi(params: string, final: char): string
  {
    "[" + params + [final]
  }

  /** What a relative move by `n` emits: the `forward` final with `n` when `n` is not
      negative, otherwise the `backward` final with the magnitude. */
  function SignedRaw(n: int, forward: char, backward: char): string
  {
    if n >= 0 then Csi(IntString(n), forward) else Csi(IntString(Abs(n)), backward)
  }

  function Abs(n: int): nat
  {
    if n < 0 then -n else n
  }

  function RawValues(sgr: seq<SetGraphicsRendition>): seq<string>
  {
    seq(|sgr|, i requires 0 <= i < |sgr| => sgr[i].RawValue())
  }

  /** The `ESC ] … ESC \` frame around an OSC payload. */
  function Osc(payload: string): string
  {
    [ESC] + "]" + payload + ST
  }

  // ---------------------------------------------------------------------------
  // Reading control sequences back

  datatype ControlSequence = ControlSequence(params: seq<int>, final: char)

  /** One numeric parameter: a non-empty run of decimal digits. ECMA-48 has no
      sign among the parameter characters, so `-` makes a parameter unreadable. */
  function ParseParam(p: string): Option<int>
  {
    if p != [] && AllDigits(p) then Some(DigitsValue(p)) else None
  }

  function ParseAll(pieces: seq<string>): Option<seq<int>>
  {
    if pieces == [] then Some([])
    else match (ParseParam(pieces[0]), ParseAll(pieces[1..]))
      case (Some(n), Some(ns)) => Some([n] + ns)
      case _ => None
  }

  /** Numeric parameters separated by `;`. */
  function ParseParams(p: string): Option<seq<int>>
  {
    ParseAll(Split(p, ';'))
  }

  /** A control sequence as it follows ESC: `[`, the parameters, and one final character. */
  function DecodeCsi(raw: string): Option<ControlSequence>
  {
    if 2 <= |raw| && raw[0] == '[' then
      match ParseParams(raw[1..|raw| - 1])
      case Some(ps) => Some(ControlSequence(ps, raw[|raw| - 1]))
      case None => None
    else None
  }

  /** What a cursor-moving control sequence asks the terminal to do, in terms of its parameters. */
  datatype CursorEffect =
    | Move(dx: int, dy: int)            // CUU, CUD, CUF, CUB: relative move
    | MoveLines(dy: int)                // CNL, CPL: to the first column, dy lines down
    | ToColumn(column: int)             // CHA
    | ToPosition(row: int, column: int) // CUP (1-based; a missing column means column 1)

  /** The final characters of ECMA-48 section 8.3 for cursor motion. */
  function Effect(cs: ControlSequence): Option<CursorEffect>
  {
    var ps := cs.params;
    if |ps| == 1 && cs.final == 'A' then Some(Move(0, -ps[0]))
    else if |ps| == 1 && cs.final == 'B' then Some(Move(0, ps[0]))
    else if |ps| == 1 && cs.final == 'C' then Some(Move(ps[0], 0))
    else if |ps| == 1 && cs.final == 'D' then Some(Move(-ps[0], 0))
    else if |ps| == 1 && cs.final == 'E' then Some(MoveLines(ps[0]))
    else if |ps| == 1 && cs.final == 'F' then Some(MoveLines(-ps[0]))
    else if |ps| == 1 && cs.final == 'G' then Some(ToColumn(ps[0]))
    else if |ps| == 1 && cs.final == 'H' then Some(ToPosition(ps[0], 1))
    else if |ps| == 2 && cs.final == 'H' then Some(ToPosition(ps[0], ps[1]))
    else None
  }

  function CursorEffectOf(c: ANSIControlCode): Option<CursorEffect>
  {
    match DecodeCsi(c.AnsiCommand().rawValue)
    case Some(cs) => Effect(cs)
    case None => None
  }

  // ---------------------------------------------------------------------------
  // Reference tables

  /** The numeric SGR parameters each rendition stands for. */
  function SgrParams(s: SetGraphicsRendition): seq<int>
  {
    match s
    case Background256(i) => [48, 5, i]
    case BackgroundBasic(p) => [40 + p.RawValue()]
    case BackgroundBasicBright(p) => [100 + p.RawValue()]
    case BackgroundRGB(c) => [48, 2, c.r, c.g, c.b]
    case Blink => [5]
    case Bold => [1]
    case CrossOut => [9]
    case Faint => [2]
    case Italic => [3]
    case Overline => [53]
    case Reverse => [7]
    case Underline => [4]
    case DoubleUnderline => [21]
    case Text256(i) => [38, 5, i]
    case TextBasic(p) => [30 + p.RawValue()]
    case TextBasicBright(p) => [90 + p.RawValue()]
    case TextRGB(c) => [38, 2, c.r, c.g, c.b]
    case Reset => [0]
  }

  function AllSgrParams(sgr: seq<SetGraphicsRendition>): seq<int>
  {
    if sgr == [] then [] else SgrParams(sgr[0]) + AllSgrParams(sgr[1..])
  }

  /** The state number of an OSC 9;4 progress report. */
  function ProgressState(p: OSCProgress): nat
  {
    match p
    case Remove => 0
    case Value(_) => 1
    case Error => 2
    case Indeterminate => 3
    case Paused => 4
  }

  predicate IsBasicColor(s: SetGraphicsRendition)
  {
    s.TextBasic? || s.TextBasicBright? || s.BackgroundBasic? || s.BackgroundBasicBright?
  }

  // ---------------------------------------------------------------------------
  // Lemmas

  /** Every code but `literal` is emitted behind ESC; a literal is emitted as it is. */
  lemma MessageEscapes(c: ANSIControlCode)
    ensures c.Literal? ==> c.AnsiCommand().Message() == c.text
    ensures !c.Literal? ==> c.AnsiCommand().Message() == [ESC] + c.AnsiCommand().rawValue
  {
  }

  /** `clearScreen` is `erase(.entireScreen)`, and `clearLine` is `erase(.entireLine)`. */
  lemma ClearIsErase()
    ensures ClearScreen.AnsiCommand() == Erase(EntireScreen).AnsiCommand()
    ensures ClearLine.AnsiCommand() == Erase(EntireLine).AnsiCommand()
  {
  }

  /** Both parameter lists, one after the other, when both read. */
  function Concat(a: Option<seq<int>>, b: Option<seq<int>>): Option<seq<int>>
  {
    if a.Some? && b.Some? then Some(a.value + b.value) else None
  }

  lemma {:induction false} ParseAllAppend(x: seq<string>, y: seq<string>)
    ensures ParseAll(x + y) == Concat(ParseAll(x), ParseAll(y))
    decreases |x|
  {
    if x == [] {
      assert x + y == y;
      if ParseAll(y).Some? {
        assert [] + ParseAll(y).value == ParseAll(y).value;
      }
    } else {
      assert (x + y)[0] == x[0];
      assert (x + y)[1..] == x[1..] + y;
      ParseAllAppend(x[1..], y);
      if ParseParam(x[0]).Some? && ParseAll(x[1..]).Some? && ParseAll(y).Some? {
        var n, a, b := ParseParam(x[0]).value, ParseAll(x[1..]).value, ParseAll(y).value;
        assert [n] + (a + b) == ([n] + a) + b;
      }
    }
  }

  /** Parameters on either side of a `;` read as one list. */
  lemma ParseParamsJoin(a: string, b: string)
    ensures ParseParams(a + ";" + b) == Concat(ParseParams(a), ParseParams(b))
  {
    SplitAround(a, b, ';');
    ParseAllAppend(Split(a, ';'), Split(b, ';'));
  }

  lemma ParseAllSingle(p: string)
    ensures ParseAll([p]) == if ParseParam(p).Some? then Some([ParseParam(p).value]) else None
  {
    assert [p][1..] == [];
    if ParseParam(p).Some? {
      assert [ParseParam(p).value] + [] == [ParseParam(p).value];
    }
  }

  /** A number as Swift renders it reads back as one parameter when it is not
      negative; the `-` of a negative one is no parameter character. */
  lemma ParseParamIntString(n: int)
    ensures ParseParam(IntString(n)) == if n >= 0 then Some(n) else None
  {
    var s := IntString(n);
    if n >= 0 {
      NatStringValue(n);
    } else {
      DigitsLead(s);
    }
  }

  lemma ParseParamsInt(n: int)
    ensures ParseParams(IntString(n)) == if n >= 0 then Some([n]) else None
  {
    var s := IntString(n);
    IntStringExcludes(n, ';');
    SplitFree(s, ';');
    ParseParamIntString(n);
    ParseAllSingle(s);
  }

  lemma ParseParamsDigits(s: string)
    requires s != [] && AllDigits(s)
    ensures ParseParams(s) == Some([DigitsValue(s)])
  {
    DigitsExclude(s, ';');
    DigitsExclude(s, '-');
    SplitFree(s, ';');
    ParseAllSingle(s);
  }

  /** A leading numeric parameter in front of further parameters. */
  lemma ParseParamsCons(n: nat, rest: string, ps: seq<int>, whole: string)
    requires whole == IntString(n) + ";" + rest
    requires ParseParams(rest) == Some(ps)
    ensures ParseParams(whole) == Some([n] + ps)
  {
    ParseParamsJoin(IntString(n), rest);
    ParseParamsInt(n);
  }

  /** Two numbers joined by `;` read back as both, unless one is negative. */
  lemma ParseParams2(b: int, c: int)
    ensures ParseParams(IntString(b) + ";" + IntString(c)) == if b >= 0 && c >= 0 then Some([b, c]) else None
  {
    ParseParamsJoin(IntString(b), IntString(c));
    ParseParamsInt(b);
    ParseParamsInt(c);
    assert [b] + [c] == [b, c];
  }

  lemma ParseParams3(a: nat, b: nat, c: nat)
    ensures ParseParams(IntString(a) + ";" + IntString(b) + ";" + IntString(c)) == Some([a, b, c])
  {
    var bc := IntString(b) + ";" + IntString(c);
    var whole := IntString(a) + ";" + IntString(b) + ";" + IntString(c);
    ConcatAssoc(IntString(a) + ";", IntString(b), ";");
    ConcatAssoc(IntString(a) + ";", IntString(b) + ";", IntString(c));
    ParseParams2(b, c);
    ParseParamsCons(a, bc, [b, c], whole);
    assert [a] + [b, c] == [a, b, c];
  }

  /** An extended colour rendition: a lead (38 or 48), a selector (5 or 2), then the rest. */
  lemma ExtendedParams(prefix: string, lead: nat, selector: nat, tail: string)
    requires prefix == IntString(lead) + ";" + IntString(selector) + ";"
    ensures ParseParams(prefix + tail) == Concat(Some([lead, selector]), ParseParams(tail))
  {
    var a, b := IntString(lead) + ";", IntString(selector) + ";";
    var t := IntString(selector) + ";" + tail;
    ConcatAssoc(a, IntString(selector), ";");
    ConcatAssoc(a, b, tail);
    ParseParamsJoin(IntString(selector), tail);
    ParseParamsJoin(IntString(lead), t);
    ParseParamsInt(lead);
    ParseParamsInt(selector);
    if ParseParams(tail).Some? {
      var ps := ParseParams(tail).value;
      assert [lead] + ([selector] + ps) == [lead, selector] + ps;
    }
  }

  lemma SmallIntStrings()
    ensures IntString(2) == "2" && IntString(5) == "5"
    ensures IntString(38) == "38" && IntString(48) == "48"
  {
    assert NatString(38) == NatString(3) + [DigitChar(8)];
    assert NatString(48) == NatString(4) + [DigitChar(8)];
  }

  lemma IndexedRawValue(s: SetGraphicsRendition)
    requires s.Background256? || s.Text256?
    ensures s.RawValue() == (if s.Background256? then "48;5;" else "38;5;") + IntString(s.index)
  {
  }

  lemma RgbRawValue(s: SetGraphicsRendition)
    requires s.BackgroundRGB? || s.TextRGB?
    ensures s.RawValue() == (if s.BackgroundRGB? then "48;2;" else "38;2;") + RgbParams(s.rgb)
  {
  }

  /** A 256-colour rendition reads back as `38;5;i` or `48;5;i` when its index
      is not negative; a negative index makes the sequence unreadable. */
  lemma IndexedRoundTrip(s: SetGraphicsRendition)
    requires s.Background256? || s.Text256?
    ensures ParseParams(s.RawValue()) == if s.index >= 0 then Some(SgrParams(s)) else None
  {
    ExtendedPrefixes();
    IndexedRawValue(s);
    if s.Background256? {
      IndexedTail("48;5;", 48, s.index);
    } else {
      IndexedTail("38;5;", 38, s.index);
    }
  }

  lemma TrueColorRoundTrip(s: SetGraphicsRendition)
    requires s.BackgroundRGB? || s.TextRGB?
    ensures ParseParams(s.RawValue()) == Some(SgrParams(s))
  {
    ExtendedPrefixes();
    RgbRawValue(s);
    if s.BackgroundRGB? {
      RgbTail("48;2;", 48, s.rgb);
    } else {
      RgbTail("38;2;", 38, s.rgb);
    }
  }

  /** The four extended-colour prefixes, as the numbers they carry. */
  lemma ExtendedPrefixes()
    ensures "48;5;" == IntString(48) + ";" + IntString(5) + ";"
    ensures "38;5;" == IntString(38) + ";" + IntString(5) + ";"
    ensures "48;2;" == IntString(48) + ";" + IntString(2) + ";"
    ensures "38;2;" == IntString(38) + ";" + IntString(2) + ";"
  {
    SmallIntStrings();
  }

  lemma IndexedTail(prefix: string, lead: nat, index: int)
    requires prefix == IntString(lead) + ";" + IntString(5) + ";"
    ensures ParseParams(prefix + IntString(index)) == if index >= 0 then Some([lead, 5, index]) else None
  {
    ParseParamsInt(index);
    ExtendedParams(prefix, lead, 5, IntString(index));
    assert [lead, 5] + [index] == [lead, 5, index];
  }

  lemma RgbTail(prefix: string, lead: nat, c: RGBColor8)
    requires prefix == IntString(lead) + ";" + IntString(2) + ";"
    ensures ParseParams(prefix + RgbParams(c)) == Some([lead, 2, c.r, c.g, c.b])
  {
    ParseParams3(c.r, c.g, c.b);
    ExtendedParams(prefix, lead, 2, RgbParams(c));
    assert [lead, 2] + [c.r, c.g, c.b] == [lead, 2, c.r, c.g, c.b];
  }

  lemma OneDigitParams(c: char)
    requires IsDigit(c)
    ensures ParseParams([c]) == Some([DigitValue(c) as int])
  {
    ParseParamsDigits([c]);
    assert [c][..0] == [];
  }

  lemma TwoDigitParams(c: char, d: char)
    requires IsDigit(c) && IsDigit(d)
    ensures ParseParams([c, d]) == Some([DigitValue(c) * 10 + DigitValue(d)])
  {
    ParseParamsDigits([c, d]);
    assert [c][..0] == [];
    assert DigitsValue([c]) == DigitValue(c);
    assert [c, d][..1] == [c];
  }

  lemma DigitParams(s: SetGraphicsRendition)
    requires !(s.Background256? || s.Text256? || s.BackgroundRGB? || s.TextRGB?) && !IsBasicColor(s)
    ensures ParseParams(s.RawValue()) == Some(SgrParams(s))
  {
    match s
    case Overline => TwoDigitParams('5', '3');
    case DoubleUnderline => TwoDigitParams('2', '1');
    case Blink => OneDigitParams('5');
    case Bold => OneDigitParams('1');
    case CrossOut => OneDigitParams('9');
    case Faint => OneDigitParams('2');
    case Italic => OneDigitParams('3');
    case Reverse => OneDigitParams('7');
    case Underline => OneDigitParams('4');
    case Reset => OneDigitParams('0');
  }

  /** Only a 256-colour index can be negative; every other rendition carries
      parameters ECMA-48 can express. */
  predicate InParameterRange(s: SetGraphicsRendition)
  {
    (s.Background256? || s.Text256?) ==> s.index >= 0
  }

  predicate AllInParameterRange(sgr: seq<SetGraphicsRendition>)
  {
    forall k :: 0 <= k < |sgr| ==> InParameterRange(sgr[k])
  }

  /** Each rendition's text reads back as its numeric SGR parameters, unless it
      carries a negative index. */
  lemma SgrParamsRoundTrip(s: SetGraphicsRendition)
    ensures ParseParams(s.RawValue()) == if InParameterRange(s) then Some(SgrParams(s)) else None
  {
    if s.Background256? || s.Text256? {
      IndexedRoundTrip(s);
    } else if s.BackgroundRGB? || s.TextRGB? {
      TrueColorRoundTrip(s);
    } else if IsBasicColor(s) {
      ParseParamsInt(SgrParams(s)[0]);
    } else {
      DigitParams(s);
    }
  }

  lemma JoinedRawValues(sgr: seq<SetGraphicsRendition>)
    requires |sgr| > 1
    ensures Join(RawValues(sgr), ';') == sgr[0].RawValue() + ";" + Join(RawValues(sgr[1..]), ';')
  {
    assert RawValues(sgr)[1..] == RawValues(sgr[1..]);
  }

  lemma AllInParameterRangeCons(sgr: seq<SetGraphicsRendition>)
    requires |sgr| > 0
    ensures AllInParameterRange(sgr) <==> InParameterRange(sgr[0]) && AllInParameterRange(sgr[1..])
  {
    if InParameterRange(sgr[0]) && AllInParameterRange(sgr[1..]) {
      forall k | 0 <= k < |sgr|
        ensures InParameterRange(sgr[k])
      {
        if k > 0 {
          assert sgr[k] == sgr[1..][k - 1];
        }
      }
    }
  }

  lemma {:induction false} JoinedSgrRoundTrip(sgr: seq<SetGraphicsRendition>)
    ensures ParseParams(Join(RawValues(sgr), ';')) == if AllInParameterRange(sgr) then Some(AllSgrParams(sgr)) else None
    decreases |sgr|
  {
    if |sgr| == 1 {
      SgrParamsRoundTrip(sgr[0]);
      assert Join(RawValues(sgr), ';') == sgr[0].RawValue();
      assert AllSgrParams(sgr[1..]) == [];
      assert AllSgrParams(sgr) == SgrParams(sgr[0]) + [] == SgrParams(sgr[0]);
    } else if |sgr| > 1 {
      JoinedRawValues(sgr);
      SgrParamsRoundTrip(sgr[0]);
      JoinedSgrRoundTrip(sgr[1..]);
      ParseParamsJoin(sgr[0].RawValue(), Join(RawValues(sgr[1..]), ';'));
      AllInParameterRangeCons(sgr);
    } else {
      assert Split("", ';') == [];
    }
  }

  /** `setGraphicsRendition(list)` is one SGR sequence (`ESC [ … m`) carrying the
      parameters of every item in order, unless an item has a negative index;
      the empty list gives `ESC [ m`. */
  lemma SetGraphicsRenditionDecodes(sgr: seq<SetGraphicsRendition>)
    ensures DecodeCsi(SetGraphicsRendition(sgr).AnsiCommand().rawValue) ==
      if AllInParameterRange(sgr) then Some(ControlSequence(AllSgrParams(sgr), 'm')) else None
    ensures sgr == [] ==> SetGraphicsRendition(sgr).AnsiCommand().Message() == [ESC] + "[m"
  {
    var c := SetGraphicsRendition(sgr);
    assert c.AnsiCommand().rawValue == Csi(Join(RawValues(sgr), ';'), 'm');
    JoinedSgrRoundTrip(sgr);
    CsiDecodes(Join(RawValues(sgr), ';'), 'm');
  }

  /** The SGR number of a basic-palette rendition. */
  function BasicNumber(s: SetGraphicsRendition): int
    requires IsBasicColor(s)
  {
    match s
    case TextBasic(p) => 30 + p.RawValue()
    case BackgroundBasic(p) => 40 + p.RawValue()
    case TextBasicBright(p) => 90 + p.RawValue()
    case BackgroundBasicBright(p) => 100 + p.RawValue()
  }

  lemma BasicRawValue(s: SetGraphicsRendition)
    requires IsBasicColor(s)
    ensures s.RawValue() == IntString(BasicNumber(s))
  {
  }

  lemma PaletteInjective(p: BasicPalette, q: BasicPalette)
    ensures p.RawValue() == q.RawValue() <==> p == q
  {
  }

  lemma BasicNumberInjective(a: SetGraphicsRendition, b: SetGraphicsRendition)
    requires IsBasicColor(a) && IsBasicColor(b)
    ensures BasicNumber(a) == BasicNumber(b) <==> a == b
  {
    PaletteInjective(a.palette, b.palette);
  }

  /** The 32 basic-palette renditions all have different codes: text 30+i, background 40+i,
      bright text 90+i, bright background 100+i, with i in 0..7. */
  lemma BasicColorCodesDistinct(a: SetGraphicsRendition, b: SetGraphicsRendition)
    requires IsBasicColor(a) && IsBasicColor(b)
    ensures a.RawValue() == b.RawValue() <==> a == b
  {
    BasicRawValue(a);
    BasicRawValue(b);
    IntStringInjective(BasicNumber(a), BasicNumber(b));
    BasicNumberInjective(a, b);
  }

  lemma CsiDecodes(params: string, final: char)
    ensures DecodeCsi(Csi(params, final)) ==
      if ParseParams(params).Some? then Some(ControlSequence(ParseParams(params).value, final)) else None
  {
    var raw := Csi(params, final);
    assert raw[1..|raw| - 1] == params;
  }

  lemma CountDecodes(k: int, final: char)
    ensures DecodeCsi(Csi(IntString(k), final)) == if k >= 0 then Some(ControlSequence([k], final)) else None
  {
    ParseParamsInt(k);
    CsiDecodes(IntString(k), final);
  }

  /** The control sequence a relative move by `n` stands for. */
  function SignedSequence(n: int, forward: char, backward: char): ControlSequence
  {
    if n >= 0 then ControlSequence([n], forward) else ControlSequence([-n], backward)
  }

  lemma SignedCountDecodes(n: int, forward: char, backward: char)
    ensures DecodeCsi(SignedRaw(n, forward, backward)) == Some(SignedSequence(n, forward, backward))
  {
    if n >= 0 {
      CountDecodes(n, forward);
    } else {
      CountDecodes(Abs(n), backward);
    }
  }

  lemma MoveCursorUpCommand(n: int, raw: string)
    requires raw == SignedRaw(n, 'A', 'B')
    ensures MoveCursorUp(n).AnsiCommand().rawValue == raw
  {
  }

  lemma MoveCursorDownCommand(n: int, raw: string)
    requires raw == SignedRaw(n, 'B', 'A')
    ensures MoveCursorDown(n).AnsiCommand().rawValue == raw
  {
  }

  lemma MoveCursorLeftCommand(n: int, raw: string)
    requires raw == SignedRaw(n, 'D', 'C')
    ensures MoveCursorLeft(n).AnsiCommand().rawValue == raw
  {
  }

  lemma MoveCursorRightCommand(n: int, raw: string)
    requires raw == SignedRaw(n, 'C', 'D')
    ensures MoveCursorRight(n).AnsiCommand().rawValue == raw
  {
  }

  lemma MoveCursorBeginningOfLineDownCommand(n: int, raw: string)
    requires raw == SignedRaw(n, 'E', 'F')
    ensures MoveCursorBeginningOfLineDown(n).AnsiCommand().rawValue == raw
  {
  }

  lemma MoveCursorBeginningOfLineUpCommand(n: int, raw: string)
    requires raw == SignedRaw(n, 'F', 'E')
    ensures MoveCursorBeginningOfLineUp(n).AnsiCommand().rawValue == raw
  {
  }

  /** A code that emits a relative move by `n` has the motion of its control sequence. */
  lemma RelativeEffect(c: ANSIControlCode, n: int, forward: char, backward: char, e: CursorEffect)
    requires c.AnsiCommand().rawValue == SignedRaw(n, forward, backward)
    requires Effect(SignedSequence(n, forward, backward)) == Some(e)
    ensures CursorEffectOf(c) == Some(e)
  {
    SignedCountDecodes(n, forward, backward);
  }

  lemma UpEffect(n: int)
    ensures CursorEffectOf(MoveCursorUp(n)) == Some(Move(0, -n))
  {
    MoveCursorUpCommand(n, SignedRaw(n, 'A', 'B'));
    assert Effect(SignedSequence(n, 'A', 'B')) == Some(Move(0, -n));
    RelativeEffect(MoveCursorUp(n), n, 'A', 'B', Move(0, -n));
  }

  lemma DownEffect(n: int)
    ensures CursorEffectOf(MoveCursorDown(n)) == Some(Move(0, n))
  {
    MoveCursorDownCommand(n, SignedRaw(n, 'B', 'A'));
    assert Effect(SignedSequence(n, 'B', 'A')) == Some(Move(0, n));
    RelativeEffect(MoveCursorDown(n), n, 'B', 'A', Move(0, n));
  }

  lemma LeftEffect(n: int)
    ensures CursorEffectOf(MoveCursorLeft(n)) == Some(Move(-n, 0))
  {
    MoveCursorLeftCommand(n, SignedRaw(n, 'D', 'C'));
    assert Effect(SignedSequence(n, 'D', 'C')) == Some(Move(-n, 0));
    RelativeEffect(MoveCursorLeft(n), n, 'D', 'C', Move(-n, 0));
  }

  lemma RightEffect(n: int)
    ensures CursorEffectOf(MoveCursorRight(n)) == Some(Move(n, 0))
  {
    MoveCursorRightCommand(n, SignedRaw(n, 'C', 'D'));
    assert Effect(SignedSequence(n, 'C', 'D')) == Some(Move(n, 0));
    RelativeEffect(MoveCursorRight(n), n, 'C', 'D', Move(n, 0));
  }

  lemma LineDownEffect(n: int)
    ensures CursorEffectOf(MoveCursorBeginningOfLineDown(n)) == Some(MoveLines(n))
  {
    MoveCursorBeginningOfLineDownCommand(n, SignedRaw(n, 'E', 'F'));
    assert Effect(SignedSequence(n, 'E', 'F')) == Some(MoveLines(n));
    RelativeEffect(MoveCursorBeginningOfLineDown(n), n, 'E', 'F', MoveLines(n));
  }

  lemma LineUpEffect(n: int)
    ensures CursorEffectOf(MoveCursorBeginningOfLineUp(n)) == Some(MoveLines(-n))
  {
    MoveCursorBeginningOfLineUpCommand(n, SignedRaw(n, 'F', 'E'));
    assert Effect(SignedSequence(n, 'F', 'E')) == Some(MoveLines(-n));
    RelativeEffect(MoveCursorBeginningOfLineUp(n), n, 'F', 'E', MoveLines(-n));
  }

  predicate IsRelativeMove(c: ANSIControlCode)
  {
    c.MoveCursorUp? || c.MoveCursorDown? || c.MoveCursorLeft? || c.MoveCursorRight?
    || c.MoveCursorBeginningOfLineDown? || c.MoveCursorBeginningOfLineUp?
  }

  /** The motion each relative move names: up and left are negative, down and right positive. */
  function IntendedMotion(c: ANSIControlCode): CursorEffect
    requires IsRelativeMove(c)
  {
    match c
    case MoveCursorUp(n) => Move(0, -n)
    case MoveCursorDown(n) => Move(0, n)
    case MoveCursorLeft(n) => Move(-n, 0)
    case MoveCursorRight(n) => Move(n, 0)
    case MoveCursorBeginningOfLineDown(n) => MoveLines(n)
    case MoveCursorBeginningOfLineUp(n) => MoveLines(-n)
  }

  /** A relative move by a negative count moves the other way: every relative move
      shifts the cursor by its signed count, whatever the sign. */
  lemma RelativeMovesAreSigned(c: ANSIControlCode)
    requires IsRelativeMove(c)
    ensures CursorEffectOf(c) == Some(IntendedMotion(c))
  {
    var n := c.n;
    if c.MoveCursorUp? {
      assert c == MoveCursorUp(n);
      UpEffect(n);
    } else if c.MoveCursorDown? {
      assert c == MoveCursorDown(n);
      DownEffect(n);
    } else if c.MoveCursorLeft? {
      assert c == MoveCursorLeft(n);
      LeftEffect(n);
    } else if c.MoveCursorRight? {
      assert c == MoveCursorRight(n);
      RightEffect(n);
    } else if c.MoveCursorBeginningOfLineDown? {
      assert c == MoveCursorBeginningOfLineDown(n);
      LineDownEffect(n);
    } else {
      assert c == MoveCursorBeginningOfLineUp(n);
      LineUpEffect(n);
    }
  }

  /** A negative count encodes exactly as the opposite move by its magnitude. */
  lemma NegativeCountFlips(n: int)
    requires n < 0
    ensures MoveCursorUp(n).AnsiCommand() == MoveCursorDown(-n).AnsiCommand()
    ensures MoveCursorDown(n).AnsiCommand() == MoveCursorUp(-n).AnsiCommand()
    ensures MoveCursorLeft(n).AnsiCommand() == MoveCursorRight(-n).AnsiCommand()
    ensures MoveCursorRight(n).AnsiCommand() == MoveCursorLeft(-n).AnsiCommand()
    ensures MoveCursorBeginningOfLineDown(n).AnsiCommand() == MoveCursorBeginningOfLineUp(-n).AnsiCommand()
    ensures MoveCursorBeginningOfLineUp(n).AnsiCommand() == MoveCursorBeginningOfLineDown(-n).AnsiCommand()
  {
    assert Abs(n) == -n;
  }

  /** `moveCursor(x, y)` is a CUP sequence that puts the cursor on 1-based row `y + 1`,
      column `x + 1`; a coordinate below -1 gives a parameter with a `-`, which
      is no CUP sequence at all. */
  lemma MoveCursorToPosition(x: int, y: int)
    ensures CursorEffectOf(MoveCursor(x, Some(y))) ==
      if x >= -1 && y >= -1 then Some(ToPosition(y + 1, x + 1)) else None
  {
    var params := IntString(y + 1) + ";" + IntString(x + 1);
    var raw := Csi(params, 'H');
    MoveCursorCommand(x, y, raw);
    ParseParams2(y + 1, x + 1);
    CsiDecodes(params, 'H');
    EffectOfRaw(MoveCursor(x, Some(y)), raw);
    if x >= -1 && y >= -1 {
      assert Effect(ControlSequence([y + 1, x + 1], 'H')) == Some(ToPosition(y + 1, x + 1));
    }
  }

  lemma MoveCursorCommand(x: int, y: int, raw: string)
    requires raw == Csi(IntString(y + 1) + ";" + IntString(x + 1), 'H')
    ensures MoveCursor(x, Some(y)).AnsiCommand().rawValue == raw
  {
  }

  /** The cursor motion of a code, from its decoded control sequence. */
  lemma EffectOfRaw(c: ANSIControlCode, raw: string)
    requires c.AnsiCommand().rawValue == raw
    ensures CursorEffectOf(c) == if DecodeCsi(raw).Some? then Effect(DecodeCsi(raw).value) else None
  {
  }

  /** The cursor motion of a code that carries one numeric parameter. */
  lemma CodeEffect(c: ANSIControlCode, k: int, final: char)
    requires c.AnsiCommand().rawValue == Csi(IntString(k), final)
    ensures CursorEffectOf(c) == if k >= 0 then Effect(ControlSequence([k], final)) else None
  {
    CountDecodes(k, final);
  }

  /** Without a row, `moveCursor(x)` carries only `x + 1`, which CUP takes as the row:
      the cursor goes to row `x + 1`, column 1. */
  lemma MoveCursorWithoutRow(x: int)
    ensures CursorEffectOf(MoveCursor(x, None)) == if x >= -1 then Some(ToPosition(x + 1, 1)) else None
  {
    var raw := Csi(IntString(x + 1), 'H');
    MoveCursorRowCommand(x, raw);
    CodeEffect(MoveCursor(x, None), x + 1, 'H');
    if x >= -1 {
      SingleCupEffect(ControlSequence([x + 1], 'H'));
    }
  }

  lemma SingleCupEffect(cs: ControlSequence)
    requires |cs.params| == 1 && cs.final == 'H'
    ensures Effect(cs) == Some(ToPosition(cs.params[0], 1))
  {
  }

  lemma MoveCursorRowCommand(x: int, raw: string)
    requires raw == Csi(IntString(x + 1), 'H')
    ensures MoveCursor(x, None).AnsiCommand().rawValue == raw
  {
  }

  /** `moveCursorToColumn(n)` is CHA with `n` as it is given; a negative `n` is
      no CHA sequence. */
  lemma MoveCursorToColumnEffect(n: int)
    ensures CursorEffectOf(MoveCursorToColumn(n)) == if n >= 0 then Some(ToColumn(n)) else None
  {
    MoveCursorToColumnCommand(n, Csi(IntString(n), 'G'));
    CodeEffect(MoveCursorToColumn(n), n, 'G');
    if n >= 0 {
      assert Effect(ControlSequence([n], 'G')) == Some(ToColumn(n));
    }
  }

  lemma MoveCursorToColumnCommand(n: int, raw: string)
    requires raw == Csi(IntString(n), 'G')
    ensures MoveCursorToColumn(n).AnsiCommand().rawValue == raw
  {
  }

  /** OSC 9;4 carries the state number and a percentage that is always within 0..100 and
      equals the requested value when that is in range; the non-value states carry 0. */
  lemma ProgressParams(p: OSCProgress)
    ensures var percent := if p.Value? then Min(100, Max(0, p.value)) else 0;
      && ParseParams(p.RawValue()) == Some([4, ProgressState(p), percent])
      && 0 <= percent <= 100
      && (p.Value? && 0 <= p.value <= 100 ==> percent == p.value)
  {
    var percent := if p.Value? then Min(100, Max(0, p.value)) else 0;
    assert p.RawValue() == IntString(4) + ";" + IntString(ProgressState(p)) + ";" + IntString(percent);
    ParseParams3(4, ProgressState(p), percent);
  }

  /** Text that can stand inside one OSC frame: BEL or ESC would end the
      command string before the closing ST. */
  predicate ControlStringText(s: string)
  {
    BEL !in s && ESC !in s
  }

  /** The number and the text of one `ESC ] Ps ; Pt ESC \` frame, as a terminal reads it:
      the number runs up to the first `;`, the text from there up to the closing ST,
      and nothing in between ends the frame early. */
  function OscParts(m: string): Option<(int, string)>
  {
    if 4 <= |m| && m[0] == ESC && m[1] == ']' && m[|m| - 2] == ESC && m[|m| - 1] == '\\' then
      var body := m[2..|m| - 2];
      var i := IndexOf(body, ';');
      if ControlStringText(body) && 0 < i < |body| && AllDigits(body[..i]) then
        Some((DigitsValue(body[..i]) as int, body[i + 1..]))
      else None
    else None
  }

  /** A frame whose body is a number, `;`, and text reads back as that number and
      that text, unless the body holds a BEL or an ESC. */
  lemma OscRoundTrip(body: string, i: nat)
    requires i < |body| && body[i] == ';'
    requires 0 < i && AllDigits(body[..i])
    ensures OscParts(Osc(body)) == if ControlStringText(body) then Some((DigitsValue(body[..i]), body[i + 1..])) else None
  {
    var m := Osc(body);
    assert |m| == |body| + 4;
    assert m[0] == ESC && m[1] == ']' && m[|m| - 2] == ESC && m[|m| - 1] == '\\';
    assert m[2..|m| - 2] == body;
    DigitsExclude(body[..i], ';');
    assert body[..i] + body[i..] == body;
    IndexOfPrefix(body[..i], body[i..], ';');
    assert body[i..][0] == ';';
    assert IndexOf(body, ';') == i;
  }

  /** The frames the encoder writes carry a one-digit number. */
  lemma CodeFrame(code: char, text: string)
    requires IsDigit(code)
    ensures OscParts(Osc([code, ';'] + text)) == if ControlStringText(text) then Some((DigitValue(code) as int, text)) else None
  {
    var body := [code, ';'] + text;
    OscRoundTrip(body, 1);
    assert body[..1] == [code];
    assert ControlStringText(body) <==> ControlStringText(text);
  }

  /** Every operating system command goes out as one `ESC ] action ESC \` frame. */
  lemma OscFrame(o: OperatingSystemCommand)
    ensures OperatingSystemCommand(o).AnsiCommand().Message() == Osc(o.Action())
  {
    var c := OperatingSystemCommand(o);
    assert c.AnsiCommand() == ANSICommand("]" + o.Action() + ST, true);
    assert [ESC] + ("]" + o.Action() + ST) == [ESC] + "]" + o.Action() + ST;
  }

  /** `setTitle(t)` is OSC 0 carrying `t` unchanged; the title is not escaped,
      so one holding BEL or ESC breaks the frame. */
  lemma TitleMessage(t: string)
    ensures OscParts(OperatingSystemCommand(SetTitle(t)).AnsiCommand().Message()) ==
      if ControlStringText(t) then Some((0, t)) else None
  {
    OscFrame(SetTitle(t));
    CodeFrame('0', t);
  }

  /** `setProgress(p)` is OSC 9 carrying the `4;state;percent` parameters. */
  lemma ProgressMessage(p: OSCProgress)
    ensures OscParts(OperatingSystemCommand(SetProgress(p)).AnsiCommand().Message()) == Some((9, p.RawValue()))
  {
    OscFrame(SetProgress(p));
    CodeFrame('9', p.RawValue());
  }

  /** The parameters of the OSC 8 that opens a hyperlink: the optional `id=` and the target. */
  function LinkParams(id: Option<string>, target: string): string
  {
    (if id.Some? then "id=" + id.value else "") + ";" + target
  }

  /** `link` is an OSC 8 that opens the link to `target`, the title text, and an empty
      OSC 8 that closes the link. */
  lemma LinkFrames(id: Option<string>, target: string, title: string)
    ensures OperatingSystemCommand(Link(id, target, title)).AnsiCommand().Message()
      == Osc("8;" + LinkParams(id, target)) + title + Osc("8;;")
  {
    var o := Link(id, target, title);
    OscFrame(o);
    var open := "8;" + LinkParams(id, target);
    assert o.Action() == open + ST + title + [ESC] + "]8;;";
    LinkFrameShape(open, title);
  }

  lemma LinkFrameShape(open: string, title: string)
    ensures Osc(open + ST + title + [ESC] + "]8;;") == Osc(open) + title + Osc("8;;")
  {
    calc {
      Osc(open + ST + title + [ESC] + "]8;;");
      [ESC] + "]" + (open + ST + title + [ESC] + "]8;;") + ST;
      ([ESC] + "]" + open + ST) + title + ([ESC] + "]8;;" + ST);
      Osc(open) + title + Osc("8;;");
    }
  }

  /** The opening OSC 8 carries the link parameters, unless they hold BEL or
      ESC; the closing one carries empty ones. */
  lemma LinkMessage(id: Option<string>, target: string, title: string)
    ensures OscParts(Osc("8;" + LinkParams(id, target))) ==
      if ControlStringText(LinkParams(id, target)) then Some((8, LinkParams(id, target))) else None
    ensures OscParts(Osc("8;;")) == Some((8, ";"))
  {
    CodeFrame('8', LinkParams(id, target));
    CodeFrame('8', ";");
  }
}
