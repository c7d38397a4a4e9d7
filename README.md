# terminal-ansi in Dafny

A model of the core of `terminal-ansi`, a Swift library for driving Unix
terminals with ANSI escape sequences, and proofs about it. It covers:

- **the encoder** (`ControlCodes`): every `ANSIControlCode`, `Erase`,
  `SetGraphicsRendition`, `OperatingSystemCommand` and `OSCProgress` case maps
  to the string the library writes. Beside the encoder sits a small reference
  decoder: CSI sequences with numeric parameters (`DecodeCsi`, digits only,
  since ECMA-48 has no sign among its parameter characters), the cursor motion
  ECMA-48 assigns to each final character (`Effect`), and single OSC frames
  closed by ST (`OscParts`). The lemmas run the encoder's output back through
  them, including the inputs for which the output is not a well-formed
  sequence (a negative count or index, a title holding BEL or ESC).
- **the 16-bit colour model** (`Colors`): `RGBAColor16.Component`, its order
  and the `value4bit`, `value8bit` and `value12bit` constructors, next to the
  widening that replicates hex digits (`Replicated4Bit`, `Replicated8Bit`,
  `Replicated12Bit`), which the library's colour tests expect.
- **colour-mode detection** (`ColorModes`, `EnvironmentColorModes`): `ColorMode.current`
  and `EnvironmentColorMode.current` / `shouldUseColorIfPossible` as
  functions of an environment map and a TTY flag.
- **`fd_set` support** (`SelectSupport`): `fdZero`, `fdSet` and `fdIsSet` as
  methods over an `array<bv32>` of 32 words.
- **the terminal colour query** (`ColorReports`, `ResponseFraming`,
  `StatusReports`):
  - `parseTerminalColor` as a function.
  - `readNextResponse` as a function over the bytes the terminal sends, and as
    a loop on a `Terminal` object that consumes them.
  - `statusReport` and `foregroundColor`/`backgroundColor` as methods of that
    object, as written: the XOR-toggled mode and `parseTerminalColor`. They
    keep the written query, the terminal's mode flags and the bytes still
    unread as fields. The corrected forms of both (see Findings) sit beside
    them as `QuietMode` and the replicating widening.

Modules: `Results` (Option/Result), `Bitwise` and `Text` (helpers: two's
complement bit operations on `Int64`, decimal and hex digits, Latin-1 bytes,
split/join), then one module per source file as listed above.
`ResponseFraming` and `StatusReports` together model `Inspect.swift`.

## Model

| member | source | states |
|---|---|---|
| ControlCodes.MessageEscapes | Sources/TerminalANSI/ANSIControlCode.swift:86-98 | a command's message is its raw value prefixed with ESC, except for `literal`, whose message is the text unchanged |
| ControlCodes.ANSICommand.Message | Sources/TerminalANSI/ANSIControlCode.swift:95-97 | the message is the raw value, behind exactly one ESC when `escape` is set |
| ControlCodes.ANSIControlCode.AnsiCommand | Sources/TerminalANSI/ANSIControlCode.swift:37-82 | every code but `literal` is escaped, and its raw value opens a CSI (`[`) or OSC (`]`) or is RIS, DECSC or DECRC (`c`, `7`, `8`) |
| ControlCodes.Erase.RawValue | Sources/TerminalANSI/ANSIControlCode.swift:110-120 | the four screen cases are ED (`J`) and the three line cases EL (`K`), each with one digit parameter |
| ControlCodes.SetGraphicsRendition.RawValue | Sources/TerminalANSI/ANSIControlCode.swift:144-165 | every rendition writes a non-empty parameter text led by a digit |
| ControlCodes.OSCProgress.RawValue | Sources/TerminalANSI/ANSIControlCode.swift:207-217 | every progress state writes `4;` and two more parameters, with no BEL or ESC in them |
| ControlCodes.OperatingSystemCommand.RawValue | Sources/TerminalANSI/ANSIControlCode.swift:177-196 | every operating system command is one frame: `]`, its action, and ST |
| ControlCodes.ClearIsErase | Sources/TerminalANSI/ANSIControlCode.swift:39-40 | `clearScreen` and `clearLine` are the same commands as `erase(.entireScreen)` and `erase(.entireLine)`, as the doc comment at line 10 promises |
| ControlCodes.SgrParamsRoundTrip | Sources/TerminalANSI/ANSIControlCode.swift:144-165 | every rendition's raw value decodes as ECMA-48 parameters to exactly that rendition's parameter list (`48;5;n`, `38;2;r;g;b`, `40+p`, `1`, ...); one with a negative 256-colour index does not decode |
| ControlCodes.IndexedRoundTrip | Sources/TerminalANSI/ANSIControlCode.swift:146 | the 256-colour renditions decode to `[48 or 38, 5, index]` for every index ≥ 0; a negative index writes a `-`, which is no parameter character, so the sequence does not decode |
| ControlCodes.TrueColorRoundTrip | Sources/TerminalANSI/ANSIControlCode.swift:149 | the RGB renditions decode to `[48 or 38, 2, r, g, b]` |
| ControlCodes.JoinedSgrRoundTrip | Sources/TerminalANSI/ANSIControlCode.swift:79-80 | the `;`-joined raw values of any list of renditions decode to the concatenation of their parameter lists, exactly when no rendition carries a negative index |
| ControlCodes.SetGraphicsRenditionDecodes | Sources/TerminalANSI/ANSIControlCode.swift:79-80 | `setGraphicsRendition(sgr)` is a CSI sequence with final `m` whose parameters are all of `sgr`'s (when no index is negative), and the empty list writes `ESC [m` |
| ControlCodes.BasicColorCodesDistinct | Sources/TerminalANSI/ANSIControlCode.swift:147-148 | two basic-palette renditions (text, background, bright or not) have the same raw value if and only if they are the same rendition |
| ControlCodes.PaletteInjective | Sources/TerminalANSI/ANSIControlCode.swift:221-230 | two palette colours have the same raw value only when they are the same colour |
| ControlCodes.ParseParamsInt | Sources/TerminalANSI/ANSIControlCode.swift:44 | an interpolated integer reads back as one parameter exactly when it is not negative |
| ControlCodes.ParseParamIntString | Sources/TerminalANSI/ANSIControlCode.swift:44 | Swift's decimal rendering of an integer reads back as that integer exactly when it is not negative |
| ControlCodes.UpEffect | Sources/TerminalANSI/ANSIControlCode.swift:66-67 | `moveCursorUp(n)` moves the cursor by (0, -n) under ECMA-48, for every sign of n |
| ControlCodes.DownEffect | Sources/TerminalANSI/ANSIControlCode.swift:60-61 | `moveCursorDown(n)` moves the cursor by (0, n) |
| ControlCodes.LeftEffect | Sources/TerminalANSI/ANSIControlCode.swift:58-59 | `moveCursorLeft(n)` moves the cursor by (-n, 0) |
| ControlCodes.RightEffect | Sources/TerminalANSI/ANSIControlCode.swift:62-63 | `moveCursorRight(n)` moves the cursor by (n, 0) |
| ControlCodes.LineDownEffect | Sources/TerminalANSI/ANSIControlCode.swift:54-55 | `moveCursorBeginningOfLineDown(n)` moves n lines down to column 1 |
| ControlCodes.LineUpEffect | Sources/TerminalANSI/ANSIControlCode.swift:56-57 | `moveCursorBeginningOfLineUp(n)` moves n lines up to column 1 |
| ControlCodes.RelativeMovesAreSigned | Sources/TerminalANSI/ANSIControlCode.swift:54-67 | every relative move has the signed motion its name promises, so a negative count moves the other way |
| ControlCodes.NegativeCountFlips | Sources/TerminalANSI/ANSIControlCode.swift:54-67 | for n < 0 each relative move is the opposite move by -n |
| ControlCodes.MoveCursorToPosition | Sources/TerminalANSI/ANSIControlCode.swift:48-50 | `moveCursor(x, y)` places the cursor at row y+1, column x+1 (zero-based coordinates become ECMA-48's one-based ones); a coordinate below -1 writes a `-` and is no CUP sequence |
| ControlCodes.MoveCursorWithoutRow | Sources/TerminalANSI/ANSIControlCode.swift:51-52 | without a row, `moveCursor(x, nil)` writes a one-parameter CUP, which ECMA-48 reads as row x+1, column 1; for x below -1 it is no CUP sequence |
| ControlCodes.MoveCursorToColumnEffect | Sources/TerminalANSI/ANSIControlCode.swift:64-65 | `moveCursorToColumn(n)` moves to column n for n ≥ 0; a negative n writes no CHA sequence |
| ControlCodes.ProgressParams | Sources/TerminalANSI/ANSIControlCode.swift:207-217 | a progress state writes `4;state;percent`, the percent clamped to 0…100 and equal to the value when it is already in range |
| ControlCodes.OscRoundTrip | Sources/TerminalANSI/ANSIControlCode.swift:195 | an OSC body `code;rest` framed by `ESC ]` and ST reads back as (code, rest) exactly when the body holds no BEL and no ESC |
| ControlCodes.OscFrame | Sources/TerminalANSI/ANSIControlCode.swift:177-196 | every operating-system command's message is its action framed by `ESC ]` and ST |
| ControlCodes.TitleMessage | Sources/TerminalANSI/ANSIControlCode.swift:192 | `setTitle(t)` reads back as OSC 0 with text t when t holds no BEL and no ESC; the title is written unescaped, so one that does breaks the frame |
| ControlCodes.ProgressMessage | Sources/TerminalANSI/ANSIControlCode.swift:190 | `setProgress(p)` always reads back as OSC 9 with p's raw value |
| ControlCodes.LinkFrames | Sources/TerminalANSI/ANSIControlCode.swift:182-188 | a link is an opening OSC 8 carrying `id=...;target`, the title, and a closing OSC 8 with empty parameters |
| ControlCodes.LinkMessage | Sources/TerminalANSI/ANSIControlCode.swift:182-188 | both halves of a link read back as OSC 8, the opening one when its parameters hold no BEL and no ESC |
| Colors.LessIsStrictTotalOrder | Sources/TerminalANSI/Color.swift:23-27 | `<` on components is irreflexive, transitive, total and asymmetric |
| Colors.Less | Sources/TerminalANSI/Color.swift:23-27 | `<` never holds both ways and never between equal components |
| Colors.Value4Bit | Sources/TerminalANSI/Color.swift:31-33 | `value4bit` is never negative and is zero only for zero |
| Colors.Value8Bit | Sources/TerminalANSI/Color.swift:36-38 | `value8bit` is never negative and is zero only for zero |
| Colors.Value12Bit | Sources/TerminalANSI/Color.swift:41-43 | `value12bit` leaves the lowest hex digit zero for every input, negative ones included |
| Colors.ConstructorsInRange | Sources/TerminalANSI/Color.swift:29-44 | the three constructors stay within 0…0xFFFF for inputs in their documented ranges |
| Colors.ConstructorsKeepZero | Sources/TerminalANSI/Color.swift:29-44 | each constructor maps 0 to 0 |
| Colors.Value4BitBound | Sources/TerminalANSI/Color.swift:31-33 | `value4bit` of one hex digit is at most 15⁴ |
| Colors.Value8BitBound | Sources/TerminalANSI/Color.swift:36-38 | `value8bit` of two hex digits is at most 0xFF² |
| Colors.Value12BitBound | Sources/TerminalANSI/Color.swift:41-43 | `value12bit` of three hex digits is at most v + 0xF |
| Colors.Value12BitIs | Sources/TerminalANSI/Color.swift:42 | the shift-and-mask expression equals 16 · (v AND (v >> 4)) for every 12-bit v |
| Colors.Value4BitAgreesOnlyAtZero | Sources/TerminalANSI/Color.swift:31-33 | `value4bit` agrees with digit replication only at 0 |
| Colors.Value8BitAgreesOnlyAtZero | Sources/TerminalANSI/Color.swift:36-38 | `value8bit` agrees with digit replication only at 0 |
| Colors.Value12BitAgreesOnlyAtZero | Sources/TerminalANSI/Color.swift:41-43 | `value12bit` agrees with digit replication only at 0 |
| Colors.SquaresOnTable | Tests/TerminalANSITests/ColorTests.swift:32-50 | on the test table's inputs 5, 0xF, 0x34 and 0xFF the constructors give 625, 50625, 0x0A90 and 0xFE01 rather than the tabled 0x5555, 0xFFFF, 0x3434 and 0xFFFF |
| Colors.Value12BitOnTable | Tests/TerminalANSITests/ColorTests.swift:60-64 | on 0x34B and 0x962 `value12bit` gives 0 and 0x20 rather than the tabled 0x34BB and 0x9622 |
| Colors.Replicated4Bit | Tests/TerminalANSITests/ColorTests.swift:33-36 | replicating one hex digit stays in 0…0xFFFF, is 0 only for 0 and 0xFFFF only for 0xF |
| Colors.Replicated8Bit | Tests/TerminalANSITests/ColorTests.swift:46-50 | replicating two hex digits stays in range, with the same endpoints |
| Colors.Replicated12Bit | Tests/TerminalANSITests/ColorTests.swift:60-64 | three hex digits plus a repeated last digit stay in range, with the same endpoints |
| Colors.Replicated4BitDigits | Tests/TerminalANSITests/ColorTests.swift:33-36 | the four hex digits of the result are the input digit four times |
| Colors.Replicated8BitDigits | Tests/TerminalANSITests/ColorTests.swift:46-50 | the four hex digits are the input's two digits twice |
| Colors.Replicated12BitDigits | Tests/TerminalANSITests/ColorTests.swift:60-64 | the four hex digits are the input's three digits followed by its last digit |
| Colors.ReplicatedStrictlyMonotone | Tests/TerminalANSITests/ColorTests.swift:32-71 | replication preserves the strict order of inputs |
| Colors.ReplicatedMatchesTable | Tests/TerminalANSITests/ColorTests.swift:32-71 | the replicating widening gives every value in the test table |
| ColorModes.CurrentForDevice | Sources/TerminalANSI/ColorMode.swift:21-27 | a non-TTY gets no colour, a TTY gets the environment's verdict, and the result never ranks above it |
| ColorModes.Current | Sources/TerminalANSI/ColorMode.swift:34-85 | a cloud shell gives true colour; with no decisive `COLORTERM` and no `TERM`, no colour |
| ColorModes.FromTerm | Sources/TerminalANSI/ColorMode.swift:64-84 | from `TERM` alone, true colour comes exactly from the named 24-bit terminals |
| ColorModes.CloudShellDecides | Sources/TerminalANSI/ColorMode.swift:39-41 | `GOOGLE_CLOUD_SHELL=true` means true colour, and any other value of it is as good as absent |
| ColorModes.OnlyKeysMatter | Sources/TerminalANSI/ColorMode.swift:34-85 | the verdict depends only on `GOOGLE_CLOUD_SHELL`, `TERM`, `COLORTERM` and `TERM_PROGRAM` |
| ColorModes.ColorTermCaseInsensitive | Sources/TerminalANSI/ColorMode.swift:45 | `COLORTERM` is compared lower-cased |
| ColorModes.TmuxNeverLowers | Sources/TerminalANSI/ColorMode.swift:49-54 | setting `TERM_PROGRAM=tmux` never lowers the detected mode |
| ColorModes.FromTermSubstrings | Sources/TerminalANSI/ColorMode.swift:80-84 | outside the named terminals, `TERM` gives no colour exactly when it contains neither `color` nor `ansi`, and 256 colours exactly when it contains `256color` |
| ColorModes.NoColorExactly | Sources/TerminalANSI/ColorMode.swift:34-85 | the exact conditions under which no colour is detected |
| ColorModes.ColorTermDecides | Sources/TerminalANSI/ColorMode.swift:43-60 | outside a cloud shell, `COLORTERM` of `24bit` or `truecolor` gives true colour, or 256 colours under `screen` outside tmux; `yes` or `true` gives 256 colours, whatever `TERM` says |
| ColorModes.KnownTermsDecide | Sources/TerminalANSI/ColorMode.swift:62-74 | without a cloud shell or decisive `COLORTERM`, `TERM` of `linux` or `xterm` gives the basic palette and a named 24-bit terminal gives true colour |
| ColorModes.CloudShellCases | Tests/TerminalANSITests/ColorModeGuessTests.swift:15-16 | the two cloud-shell rows of the test table |
| ColorModes.KnownTerminalCases | Tests/TerminalANSITests/ColorModeGuessTests.swift:17-22 | the named true-colour terminals |
| ColorModes.Substring256Case | Tests/TerminalANSITests/ColorModeGuessTests.swift:23 | `TERM` containing `256color` |
| ColorModes.SubstringColorCase | Tests/TerminalANSITests/ColorModeGuessTests.swift:24 | `TERM` containing `color` |
| ColorModes.SubstringAnsiCase | Tests/TerminalANSITests/ColorModeGuessTests.swift:25 | `TERM` containing `ansi` |
| ColorModes.ColorTermCases | Tests/TerminalANSITests/ColorModeGuessTests.swift:26-32 | the `COLORTERM` rows, with and without `screen` and `tmux` |
| EnvironmentColorModes.CurrentExactly | Sources/TerminalANSI/EnvironmentColorMode.swift:31-40 | each verdict holds exactly when its variable is present and every higher-priority one is absent (`NO_COLOR`, then `CLICOLOR_FORCE`, then `CLICOLOR`) |
| EnvironmentColorModes.Current | Sources/TerminalANSI/EnvironmentColorMode.swift:31-40 | colour is disabled exactly when `NO_COLOR` is present |
| EnvironmentColorModes.OnlyPresenceMatters | Sources/TerminalANSI/EnvironmentColorMode.swift:36-39 | only whether the three variables are present matters, never their values |
| EnvironmentColorModes.NoColorWins | Sources/TerminalANSI/EnvironmentColorMode.swift:36 | any `NO_COLOR` value disables colour, on a TTY or not |
| EnvironmentColorModes.ShouldUseColorIfPossible | Sources/TerminalANSI/EnvironmentColorMode.swift:49-62 | on a TTY, colour is used exactly when the mode is not `disable` (the promise of the doc comment at line 48); off a TTY, exactly when the mode is `force` |
| EnvironmentColorModes.ShouldUseColorExactly | Sources/TerminalANSI/EnvironmentColorMode.swift:31-62 | colour is used exactly when `NO_COLOR` is absent and either `CLICOLOR_FORCE` is present or the device is a TTY |
| SelectSupport.FdZero | Sources/TerminalANSI/SelectSupport.swift:10-12 | all 32 words become zero |
| SelectSupport.FdSet | Sources/TerminalANSI/SelectSupport.swift:14-56 | the array becomes `Marks` of its old contents: word fd/16 gains bit fd%16 (truncating division) |
| SelectSupport.FdIsSet | Sources/TerminalANSI/SelectSupport.swift:58-99 | the answer is `Marked`: bit fd%32 of word fd/32, false outside the 32 words |
| SelectSupport.MarksOneWord | Sources/TerminalANSI/SelectSupport.swift:14-56 | for 0 ≤ fd < 512 exactly one word changes, by or-ing in bit fd%16 |
| SelectSupport.MarksOutOfRange | Sources/TerminalANSI/SelectSupport.swift:53 | a descriptor outside 0…511 leaves the set unchanged |
| SelectSupport.MarksIdempotent | Sources/TerminalANSI/SelectSupport.swift:14-56 | setting the same descriptor twice is setting it once |
| SelectSupport.ClearedIsEmpty | Sources/TerminalANSI/SelectSupport.swift:10-12 | no descriptor tests as set in a cleared set |
| SelectSupport.MarkThenTest | Sources/TerminalANSI/SelectSupport.swift:14-99 | after clearing and setting fd, `fdIsSet(fd)` holds exactly when 0 ≤ fd < 16 |
| SelectSupport.LowDescriptorFound | Sources/TerminalANSI/SelectSupport.swift:14-99 | descriptors 0…15 are found after being set |
| SelectSupport.HighDescriptorMissed | Sources/TerminalANSI/SelectSupport.swift:14-99 | descriptors 16…511 are not found after being set |
| SelectSupport.Descriptor20 | Sources/TerminalANSI/SelectSupport.swift:14-99 | setting descriptor 20 sets bit 4 of word 1, where the test looks at bit 20 of word 0 |
| SelectSupport.FdSet32 | Sources/TerminalANSI/SelectSupport.swift:14-56 | the corrected `fdSet` (word fd/32, bit fd%32) updates the array to `Marks32` of its old contents |
| SelectSupport.Marks32Found | Sources/TerminalANSI/SelectSupport.swift:58-99 | after the corrected set, the descriptor tests as set |
| SelectSupport.Marks32Frame | Sources/TerminalANSI/SelectSupport.swift:58-99 | the corrected set changes the test result of no other descriptor |
| SelectSupport.ClearedMarks32 | Sources/TerminalANSI/SelectSupport.swift:10-99 | after clearing and setting fd, exactly fd tests as set |
| SelectSupport.MarkedIs32 | Sources/TerminalANSI/SelectSupport.swift:58-99 | `fdIsSet` reads the same bit as the corrected layout |
| ColorReports.StripTerminator | Sources/TerminalANSI/Inspect.swift:41-49 | fails exactly when the text ends in none of BEL, ESC, ST; otherwise it removes one of them, checked in that order |
| ColorReports.ParseComponent | Sources/TerminalANSI/Inspect.swift:62-71 | a group gives a component exactly when `UInt16(_, radix: 16)` reads it and it has 1 to 4 digits; the replicating widening stays within 16 bits |
| ColorReports.ColorFromGroups | Sources/TerminalANSI/Inspect.swift:61-77 | three or four groups give a colour exactly when every group is 1 to 4 hex digits |
| ColorReports.ParseWith | Sources/TerminalANSI/Inspect.swift:38-78 | every failure is `invalidStatusForColorRead` carrying the whole text; under replicating widening every colour read is within 16 bits |
| ColorReports.ParseTerminalColor | Sources/TerminalANSI/Inspect.swift:38-78 | as written, every failure is `invalidStatusForColorRead` carrying the whole reply |
| ColorReports.StripsTerminator | Sources/TerminalANSI/Inspect.swift:41-49 | each terminator appended to a text is removed again |
| ColorReports.ParseRoundTrip | Sources/TerminalANSI/Inspect.swift:38-78 | a status `lead;rgb:g1/g2/g3[/g4]` with any terminator parses to the colour its groups denote, alpha 0xFFFF when absent |
| ColorReports.MissingAlphaIsOpaque | Sources/TerminalANSI/Inspect.swift:75 | a reply with three groups reads as alpha 0xFFFF, unlike the alpha 0 of a colour made with no arguments (Color.swift:17-20) |
| ColorReports.ReportedColorReadsBack | Sources/TerminalANSI/Inspect.swift:121 | a report of three 4-digit components reads back as exactly those components, opaque |
| ColorReports.FourDigitsReadBack | Sources/TerminalANSI/Inspect.swift:68 | a 4-digit group reads back as its value |
| ColorReports.UnterminatedRejected | Sources/TerminalANSI/Inspect.swift:47-49 | a text without terminator is rejected with itself as the payload |
| ColorReports.MissingRgbRejected | Sources/TerminalANSI/Inspect.swift:51-54 | without `;rgb:` after the first four characters, the text is rejected |
| ColorReports.GroupCountRejected | Sources/TerminalANSI/Inspect.swift:56-60 | fewer than three or more than four groups are rejected |
| ColorReports.ThreeDigitGroup | Sources/TerminalANSI/Inspect.swift:67 | a 3-digit group is widened with `value4bit` as written, and with 12-bit replication when corrected |
| ColorReports.ThreeDigitGroupOverflows | Sources/TerminalANSI/Inspect.swift:67 | any 3-digit group of value 0x10 or more yields a component above 0xFFFF |
| ColorReports.WhiteInThreeDigits | Sources/TerminalANSI/Inspect.swift:67 | `rgb:fff/fff/fff` parses to a red component above 0xFFFF as written, and to opaque white when corrected |
| ColorReports.FourDigitGroupsAgree | Sources/TerminalANSI/Inspect.swift:68 | both widenings agree on 4-digit groups |
| ResponseFraming.FirstEsc | Sources/TerminalANSI/Inspect.swift:180-182 | the skip stops at the first ESC and at nothing before it |
| ResponseFraming.NextResponse | Sources/TerminalANSI/Inspect.swift:177-223 | never takes more bytes than there are |
| ResponseFraming.Body | Sources/TerminalANSI/Inspect.swift:202-222 | the body loop takes at least the bytes it started from and no more than there are |
| ResponseFraming.ResponseShape | Sources/TerminalANSI/Inspect.swift:177-223 | a framed response starts `ESC ]` or `ESC [`, is 3 to 101 characters long, and ends in BEL or ST (OSC) or `R` (CSI), matching its flag |
| ResponseFraming.ResponseBytes | Sources/TerminalANSI/Inspect.swift:177-223 | the response is the Latin-1 reading of exactly the bytes it ends on, and no ESC came before it |
| ResponseFraming.BodyShape | Sources/TerminalANSI/Inspect.swift:202-222 | a body that succeeds is the prefix followed by the bytes read, and the flag is kept |
| ResponseFraming.BodyEnds | Sources/TerminalANSI/Inspect.swift:206-219 | a body that succeeds ends on its terminator and is at most 101 characters |
| ResponseFraming.OverlongBodyFails | Sources/TerminalANSI/Inspect.swift:202-222 | a body that brings no terminator fails once it passes 100 characters: `invalidTerminalResponse` with the 101 characters read, the last byte taken |
| ResponseFraming.UnknownTypeRejected | Sources/TerminalANSI/Inspect.swift:190-198 | a byte other than `[` or `]` after ESC is rejected as `invalidTerminalResponse` of the two characters, after taking them |
| ResponseFraming.NoEscapeFails | Sources/TerminalANSI/Inspect.swift:180-187 | with no ESC before the last byte, the read fails after taking everything |
| ResponseFraming.BodyReadsThrough | Sources/TerminalANSI/Inspect.swift:202-222 | a body with no BEL or ESC inside (no `R` for a report), ended by BEL, `ESC \` or `R`, is read whole up to and including its terminator |
| ResponseFraming.TerminatorRead | Sources/TerminalANSI/Inspect.swift:206-213 | BEL or `ESC \` after an OSC reply, or `R` after a report, ends the body right after it |
| ResponseFraming.FramesReply | Sources/TerminalANSI/Inspect.swift:177-223 | noise without ESC, then `ESC ]` and a quiet payload ended by BEL or `ESC \` (or `ESC [` … `R`), frames exactly that reply, whatever follows it |
| ResponseFraming.ByteCharInjective | Sources/TerminalANSI/Inspect.swift:184-188 | reading a byte as a character loses nothing |
| StatusReports.ToggledMode | Sources/TerminalANSI/Inspect.swift:99-101 | the XOR toggle is its own inverse and touches no flag except ECHO and ICANON |
| StatusReports.ToggleQuietsEchoingTerminal | Sources/TerminalANSI/Inspect.swift:99-101 | on a terminal with ECHO and ICANON set, the toggle clears both |
| StatusReports.ToggleEchoesQuietTerminal | Sources/TerminalANSI/Inspect.swift:99-101 | on a terminal without ECHO, the toggle switches echo on, so it differs from the quiet mode |
| StatusReports.QuietMode | Sources/TerminalANSI/Inspect.swift:99-103 | the corrected mode clears ECHO and ICANON and keeps every other flag |
| StatusReports.Query | Sources/TerminalANSI/Inspect.swift:105-109 | the written text begins with the OSC introducer and ends with the cursor position query `ESC [6n` |
| StatusReports.QueryReadsBack | Sources/TerminalANSI/Inspect.swift:105-109 | the query decodes as one ST-closed OSC frame asking colour 10 or 11 with `?`, then the CSI `6 n` cursor position query |
| StatusReports.Answer | Sources/TerminalANSI/Inspect.swift:111-122 | the reading half never takes more bytes than there are |
| StatusReports.Report | Sources/TerminalANSI/Inspect.swift:80-123 | the queries go out exactly when `TERM` is supported, the process is in the foreground and the attributes read; no more bytes are taken than sent |
| StatusReports.ColorOf | Sources/TerminalANSI/Inspect.swift:15-25 | a failed report's error passes through, a report that does not parse is rejected whole as `invalidStatusForColorRead`, and under the replicating widening every colour read lies within 16 bits |
| StatusReports.RefusalsComeFirst | Sources/TerminalANSI/Inspect.swift:81-93 | an unsupported `TERM`, then a background process, then unreadable attributes are refused in that order, before anything is written or read |
| StatusReports.ReportIsOscReply | Sources/TerminalANSI/Inspect.swift:111-122 | a successful report is a terminated OSC reply of at most 101 characters |
| StatusReports.CursorOnlyIsUnsupported | Sources/TerminalANSI/Inspect.swift:113-116 | a terminal that answers only the cursor query gets `unsupportedQuery` |
| StatusReports.SecondReadFails | Sources/TerminalANSI/Inspect.swift:118-119 | after the colour reply, a second read that runs out of bytes makes the exchange fail with `terminalResponseReadFailure`, all bytes taken, instead of returning the colour |
| StatusReports.SecondReplyInvalid | Sources/TerminalANSI/Inspect.swift:118-119 | after the colour reply, an ESC followed by neither `[` nor `]` makes the exchange fail with `invalidTerminalResponse` of those two characters |
| StatusReports.ReplyPayloadQuiet | Sources/TerminalANSI/Inspect.swift:206-219 | a colour reply ended by BEL or `ESC \` is `ESC ]`, a payload with no early terminator, and that terminator, within the 100-character bound |
| StatusReports.ColorQueryAnswered | Sources/TerminalANSI/Inspect.swift:80-123 | a terminal that answers both queries, the colour reply ended by BEL or `ESC \`, yields the colour reply; all the bytes up to the end of the cursor report are taken, and the reply parses to the colour of its groups under either widening |
| StatusReports.Terminal.ReadNextByte | Sources/TerminalANSI/Inspect.swift:159-175 | takes the next byte, or fails with `terminalResponseReadFailure` when none is left |
| StatusReports.Terminal.ReadNextResponse | Sources/TerminalANSI/Inspect.swift:177-223 | the loop returns what `NextResponse` frames and consumes exactly the bytes it takes |
| StatusReports.Terminal.StatusReport | Sources/TerminalANSI/Inspect.swift:80-123 | returns `Report` of the unread bytes; writes the query only when past the checks; sets the toggled mode (ECHO and ICANON XOR-ed) and then the saved one, leaving the mode as it was |
| StatusReports.Terminal.ReadAnswer | Sources/TerminalANSI/Inspect.swift:111-122 | reads two responses as `Answer` describes |
| StatusReports.Terminal.QueryColorOf | Sources/TerminalANSI/Inspect.swift:15-25 | returns `ColorOf` the report under `parseTerminalColor` as written, with the same effects on input, output and modes as `StatusReport` |

## Left out

- `waitForData` and its `select` loop (Inspect.swift:125-156) are left out: the five-second timeout, `EINTR` retries and `errorInSelect` are I/O. A read that times out or reaches end of input is the same `terminalResponseReadFailure` as running out of bytes.
- `isForeground` and `tcgetattr` are foreign calls. They are the constant fields `foreground` and `readable` of `Terminal`.
- `tcsetattr` is modelled by recording each mode set in `modeLog`. The input discarded by `TCSAFLUSH` is not modelled.
- The local mode flags are those of macOS, the platform the package builds for: `tcflag_t` is a 64-bit word (`bv64`), `ECHO` is 0x8 and `ICANON` is 0x100. Linux differs in `ICANON` (0x2) and in the width (32 bits) only. The toggle and the mask act bit by bit, so neither difference changes a result.
- Write errors are ignored by the source (`try?`), and the model has none.
- `String.count` counts grapheme clusters. The model counts characters, one per byte read, so the "more than 100" bound counts bytes; `ESC \` is the two-character suffix ST.
- `lowercased()` on `COLORTERM` is modelled as ASCII lower-casing (`LowerAscii`). Full Unicode case mapping is not modelled.
- `UInt16(_:radix:)` also accepts a leading `+` or `-`. The model accepts hex digits only.
- Swift traps on `Int` overflow (`v⁴`, `x + 1`) and on the shift in `Int32(1 << bitOffset)` for bit 31. The model's integers are unbounded, apart from the explicit 64-bit bit operations of `value12bit`.
- SelectSupport.FdIsSet: requires `fd % 32 != 31`, the case in which `Int32(1 << 31)` traps in the source.
- `Terminal.swift`, `OutTTY.swift`, `Size.swift`, the HSL and RGB hex-string colour types and the runner are not part of this model.
- `parseTerminalColor` returns `RGBAColor<UInt16>`, whose definition is not part of this model. It is modelled as `RGBAColor16` with `Int` components, so values above 0xFFFF are visible rather than trapping.
- `EnvironmentColorMode.none` is called `Unstated`, because `None` is the `Option` constructor.
- The reading half of `statusReport` is split out as `ReadAnswer`.
- The CSI decoder reads numeric parameters only (digits separated by `;`). Private sequences such as `[?1049h`, and the sub-parameters and intermediate bytes of ECMA-48 section 5.4, are not decoded.
- `OscParts` reads one frame closed by ST and rejects a frame whose text holds BEL or ESC. A BEL-terminated OSC from the encoder does not exist, so that form is not decoded.

## Findings

| source | as written | input that shows it | evidently intended | confidence | as-written member | corrected member |
|---|---|---|---|---|---|---|
| Sources/TerminalANSI/Color.swift:31-38 | `value4bit` is v⁴ and `value8bit` is v² | 0x5 gives 625 and 0x34 gives 0x0A90, where the test table expects 0x5555 and 0x3434 | replicate the hex digits: v·0x1111 and v·0x101 | high, not executed | Colors.SquaresOnTable | Colors.ReplicatedMatchesTable |
| Sources/TerminalANSI/Color.swift:41-43 | shift left by 4, then AND with v OR 0xF | 0x34B gives 0 and 0x962 gives 0x20, where the test table expects 0x34BB and 0x9622 | shift left by 4, then OR with the low hex digit of v | high, not executed | Colors.Value12BitOnTable | Colors.Replicated12BitDigits |
| Sources/TerminalANSI/Inspect.swift:67 | a 3-digit group is widened with `value4bit` | `rgb:fff/fff/fff` gives a red component of 0xFFF⁴, far above 0xFFFF | widen 3 digits as 12 bits | high, not executed | ColorReports.WhiteInThreeDigits | ColorReports.ParseWith |
| Sources/TerminalANSI/SelectSupport.swift:14-16 | `fdSet` uses word fd/16 and bit fd%16, while `fdIsSet` uses fd/32 and fd%32 | descriptor 20: set marks bit 4 of word 1, the test reads bit 20 of word 0 and answers false | word fd/32, bit fd%32 in both | high, not executed | SelectSupport.Descriptor20 | SelectSupport.ClearedMarks32 |
| Sources/TerminalANSI/Inspect.swift:99-101 | the mode used for the query XORs ECHO and ICANON into the saved flags | a terminal with echo already off (flags 0) gets echo switched on during the query | clear both flags by AND-ing with the complement of ECHO OR ICANON | medium, not executed | StatusReports.ToggleEchoesQuietTerminal | StatusReports.QuietMode |
