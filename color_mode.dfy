/** Guessing how many colours a terminal can show from its environment
    variables: Google Cloud Shell, then `COLORTERM`, then the terminal name in
    `TERM`, and nothing at all when the output is not a terminal. */
module ColorModes {
  import opened Results
  import opened Text

  datatype ColorMode = NoColor | Ansi | Ansi256 | TrueColor
  {
    /** How many colours the mode promises, for comparing modes. */
    function Rank(): nat
    {
      match this
      case NoColor => 0
      case Ansi => 1
      case Ansi256 => 2
      case TrueColor => 3
    }
  }

  /** `TERM` values that name a terminal known to show 24-bit colour. */
  const TrueColorTerms: set<string> := {"alacritty", "contour", "rio", "wezterm", "xterm-ghostty", "xterm-kitty"}

  /** `TERM` values that name a terminal known to show the basic palette. */
  const AnsiTerms: set<string> := {"linux", "xterm"}

  /** The four variables the guess reads. */
  const Keys: set<string> := {"GOOGLE_CLOUD_SHELL", "COLORTERM", "TERM", "TERM_PROGRAM"}

  /** `current(environment:)`. A cloud shell means true colour, and with
      neither a decisive `COLORTERM` nor a `TERM` nothing speaks for colour. */
  function Current(env: Environment): (m: ColorMode)
    ensures Get(env, "GOOGLE_CLOUD_SHELL") == Some("true") ==> m == TrueColor
    ensures Get(env, "GOOGLE_CLOUD_SHELL") != Some("true") && !DecisiveColorTerm(env) && "TERM" !in env ==> m == NoColor
  {
    if Get(env, "GOOGLE_CLOUD_SHELL") == Some("true") then TrueColor
    else
      var term := Get(env, "TERM");
      var colorTerm := Get(env, "COLORTERM");
      if colorTerm.Some? && LowerAscii(colorTerm.value) in {"24bit", "truecolor"} then
        // tmux shows 24-bit colour, screen only 256 colours
        if term.Some? && HasPrefix(term.value, "screen") && Get(env, "TERM_PROGRAM") != Some("tmux") then Ansi256
        else TrueColor
      else if colorTerm.Some? && LowerAscii(colorTerm.value) in {"yes", "true"} then Ansi256
      else if term.None? then NoColor
      else FromTerm(term.value)
  }

  /** The checks on the terminal name: exact names first, then substrings. Only
      the named 24-bit terminals give true colour. */
  function FromTerm(term: string): (m: ColorMode)
    ensures m == TrueColor <==> term in TrueColorTerms
  {
    if term in TrueColorTerms then TrueColor
    else if term in AnsiTerms then Ansi
    else if Contains(term, "256color") then Ansi256
    else if Contains(term, "color") then Ansi
    else if Contains(term, "ansi") then Ansi
    else NoColor
  }

  /** `current(environment:fileHandle:)`: no colours unless the output is a terminal. */
  function CurrentForDevice(env: Environment, isTTY: bool): (m: ColorMode)
    ensures !isTTY ==> m == NoColor
    ensures isTTY ==> m == Current(env)
    ensures m.Rank() <= Current(env).Rank()
  {
    if !isTTY then NoColor else Current(env)
  }

  /** `COLORTERM` values that decide the guess on their own. */
  predicate DecisiveColorTerm(env: Environment)
  {
    "COLORTERM" in env && LowerAscii(env["COLORTERM"]) in {"24bit", "truecolor", "yes", "true"}
  }

  // ---------------------------------------------------------------------------
  // Properties

  /** `GOOGLE_CLOUD_SHELL=true` gives true colour whatever else is set; any other
      value of it counts as much as its absence. */
  lemma CloudShellDecides(env: Environment, other: string)
    requires other != "true"
    ensures Get(env, "GOOGLE_CLOUD_SHELL") == Some("true") ==> Current(env) == TrueColor
    ensures Current(env["GOOGLE_CLOUD_SHELL" := other]) == Current(env - {"GOOGLE_CLOUD_SHELL"})
  {
    var with, without := env["GOOGLE_CLOUD_SHELL" := other], env - {"GOOGLE_CLOUD_SHELL"};
    assert forall k :: k != "GOOGLE_CLOUD_SHELL" ==> Get(with, k) == Get(without, k);
  }

  /** Only the four variables in `Keys` matter. */
  lemma OnlyKeysMatter(env: Environment, other: Environment)
    requires forall k :: k in Keys ==> Get(env, k) == Get(other, k)
    ensures Current(env) == Current(other)
  {
    assert Get(env, "GOOGLE_CLOUD_SHELL") == Get(other, "GOOGLE_CLOUD_SHELL");
    assert Get(env, "COLORTERM") == Get(other, "COLORTERM");
    assert Get(env, "TERM") == Get(other, "TERM");
    assert Get(env, "TERM_PROGRAM") == Get(other, "TERM_PROGRAM");
  }

  /** `COLORTERM` is read without regard to ASCII case. */
  lemma ColorTermCaseInsensitive(env: Environment, value: string)
    ensures Current(env["COLORTERM" := value]) == Current(env["COLORTERM" := LowerAscii(value)])
  {
    LowerAsciiIdempotent(value);
    var a, b := env["COLORTERM" := value], env["COLORTERM" := LowerAscii(value)];
    assert forall k :: k != "COLORTERM" ==> Get(a, k) == Get(b, k);
  }

  /** Telling the guess that screen runs inside tmux never lowers it. */
  lemma TmuxNeverLowers(env: Environment)
    ensures Current(env).Rank() <= Current(env["TERM_PROGRAM" := "tmux"]).Rank()
  {
    var t := env["TERM_PROGRAM" := "tmux"];
    assert forall k :: k != "TERM_PROGRAM" ==> Get(env, k) == Get(t, k);
  }

  /** A name containing `256color` contains `color`, so the third substring
      check never decides for a name the second one rejects. */
  lemma FromTermSubstrings(term: string)
    requires term !in TrueColorTerms && term !in AnsiTerms
    ensures FromTerm(term) == NoColor <==> !Contains(term, "color") && !Contains(term, "ansi")
    ensures FromTerm(term) == Ansi256 <==> Contains(term, "256color")
  {
    if Contains(term, "256color") {
      assert "256color" == "256" + "color";
      ContainsTail(term, "256", "color");
    }
  }

  /** A decisive `COLORTERM` settles the guess whatever `TERM` names: `24bit` or
      `truecolor` give true colour, or 256 colours under screen outside tmux;
      `yes` or `true` give 256 colours. */
  lemma ColorTermDecides(env: Environment)
    requires Get(env, "GOOGLE_CLOUD_SHELL") != Some("true") && DecisiveColorTerm(env)
    ensures var v := LowerAscii(env["COLORTERM"]);
      && (v in {"24bit", "truecolor"} ==>
            Current(env) == if "TERM" in env && HasPrefix(env["TERM"], "screen") && Get(env, "TERM_PROGRAM") != Some("tmux")
                            then Ansi256 else TrueColor)
      && (v in {"yes", "true"} ==> Current(env) == Ansi256)
  {
  }

  /** Without a cloud shell or a decisive `COLORTERM`, the exact names `linux`
      and `xterm` give the basic palette and the known 24-bit terminals give true
      colour. */
  lemma KnownTermsDecide(env: Environment)
    requires Get(env, "GOOGLE_CLOUD_SHELL") != Some("true") && !DecisiveColorTerm(env) && "TERM" in env
    ensures env["TERM"] in AnsiTerms ==> Current(env) == Ansi
    ensures env["TERM"] in TrueColorTerms ==> Current(env) == TrueColor
  {
  }

  /** No colours exactly when nothing in the environment speaks for them: no
      cloud shell, no decisive `COLORTERM`, and a missing `TERM` or one that is
      neither a known terminal nor names colour or ANSI. */
  lemma NoColorExactly(env: Environment)
    ensures Current(env) == NoColor <==>
      Get(env, "GOOGLE_CLOUD_SHELL") != Some("true") && !DecisiveColorTerm(env) &&
      ("TERM" !in env ||
       (env["TERM"] !in TrueColorTerms && env["TERM"] !in AnsiTerms &&
        !Contains(env["TERM"], "color") && !Contains(env["TERM"], "ansi")))
  {
    if "TERM" in env && env["TERM"] !in TrueColorTerms && env["TERM"] !in AnsiTerms {
      FromTermSubstrings(env["TERM"]);
    }
  }

  // ---------------------------------------------------------------------------
  // The guessing test table

  lemma CloudShellCases()
    ensures Current(map["GOOGLE_CLOUD_SHELL" := "true"]) == TrueColor
    ensures Current(map["GOOGLE_CLOUD_SHELL" := "false"]) == NoColor
  {
  }

  lemma KnownTerminalCases()
    ensures forall t :: t in TrueColorTerms ==> Current(map["TERM" := t]) == TrueColor
  {
  }

  lemma Substring256Case()
    ensures Current(map["TERM" := "something-256color-middle"]) == Ansi256
  {
    ContainsAt("something-256color-middle", "256color", 10);
  }

  lemma SubstringColorCase(term: string)
    requires term == "foo-color-bar"
    ensures Current(map["TERM" := term]) == Ansi
  {
    assert term[4..9] == "color";
    ContainsAt(term, "color", 4);
    assert '2' !in term;
    ContainsFirst(term, "256color");
  }

  lemma SubstringAnsiCase(term: string)
    requires term == "asdfansiqw"
    ensures Current(map["TERM" := term]) == Ansi
  {
    ContainsAt(term, "ansi", 4);
    assert '2' !in term && 'c' !in term;
    ContainsFirst(term, "256color");
    ContainsFirst(term, "color");
  }

  lemma ColorTermCases()
    ensures Current(map["COLORTERM" := "yes"]) == Ansi256
    ensures Current(map["COLORTERM" := "true"]) == Ansi256
    ensures Current(map["COLORTERM" := "no"]) == NoColor
    ensures Current(map["COLORTERM" := "24bit"]) == TrueColor
    ensures Current(map["COLORTERM" := "truecolor"]) == TrueColor
    ensures Current(map["COLORTERM" := "24bit", "TERM" := "screen"]) == Ansi256
    ensures Current(map["COLORTERM" := "truecolor", "TERM" := "screen", "TERM_PROGRAM" := "tmux"]) == TrueColor
  {
    assert LowerAscii("yes") == "yes" && LowerAscii("true") == "true" && LowerAscii("no") == "no";
    assert LowerAscii("24bit") == "24bit" && LowerAscii("truecolor") == "truecolor";
  }
}
