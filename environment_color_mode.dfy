/** The colour preference the environment states through `NO_COLOR`,
    `CLICOLOR_FORCE` and `CLICOLOR` (the conventions of no-color.org and
    bixense.com/clicolors), and whether colours should then be used on a given
    output device. */
module EnvironmentColorModes {
  import opened Text

  datatype EnvironmentColorMode =
    | Disable  // colours must not be used, whatever the device
    | Enable   // colours are fine if the device shows them
    | Force    // colours are used whatever the device
    | Unstated // nothing in the environment says either way

  /** `current(environment:)`: the first of the three variables present decides,
      whatever its value. */
  function Current(env: Environment): (m: EnvironmentColorMode)
    ensures m == Disable <==> "NO_COLOR" in env
  {
    if "NO_COLOR" in env then Disable
    else if "CLICOLOR_FORCE" in env then Force
    else if "CLICOLOR" in env then Enable
    else Unstated
  }

  /** `shouldUseColorIfPossible(fileHandle:)`, with the device's terminal status
      as `isTTY`: on a terminal colours are used unless the environment disables
      them; off a terminal only when the environment forces them. */
  function ShouldUseColorIfPossible(mode: EnvironmentColorMode, isTTY: bool): (use: bool)
    ensures isTTY ==> (use <==> mode != Disable)
    ensures !isTTY ==> (use <==> mode == Force)
  {
    match mode
    case Disable => false
    case Enable => isTTY
    case Force => true
    case Unstated => isTTY
  }

  /** Which of the three variables are set, and nothing else. */
  function Presence(env: Environment): (bool, bool, bool)
  {
    ("NO_COLOR" in env, "CLICOLOR_FORCE" in env, "CLICOLOR" in env)
  }

  /** Each mode arises exactly when its variable is the first one present. */
  lemma CurrentExactly(env: Environment)
    ensures Current(env) == Disable <==> "NO_COLOR" in env
    ensures Current(env) == Force <==> "NO_COLOR" !in env && "CLICOLOR_FORCE" in env
    ensures Current(env) == Enable <==> "NO_COLOR" !in env && "CLICOLOR_FORCE" !in env && "CLICOLOR" in env
    ensures Current(env) == Unstated <==> "NO_COLOR" !in env && "CLICOLOR_FORCE" !in env && "CLICOLOR" !in env
  {
  }

  /** Only whether the variables are set matters, never their values or any other variable. */
  lemma OnlyPresenceMatters(env: Environment, other: Environment)
    requires Presence(env) == Presence(other)
    ensures Current(env) == Current(other)
  {
  }

  /** `NO_COLOR`, even empty, switches colours off; any value of the others is no match for it. */
  lemma NoColorWins(env: Environment, value: string, isTTY: bool)
    ensures Current(env["NO_COLOR" := value]) == Disable
    ensures !ShouldUseColorIfPossible(Current(env["NO_COLOR" := value]), isTTY)
  {
  }

  /** Composed: colours are used exactly when `NO_COLOR` is unset and either
      `CLICOLOR_FORCE` is set or the device is a terminal. */
  lemma ShouldUseColorExactly(env: Environment, isTTY: bool)
    ensures ShouldUseColorIfPossible(Current(env), isTTY) <==>
      "NO_COLOR" !in env && ("CLICOLOR_FORCE" in env || isTTY)
  {
  }
}
