/** The compiler's diagnostic severities and the renderer's coarser levels. */
module Levels {

  /** The compiler's severity of a diagnostic or of one annotation. */
  datatype Level = Bug | Fatal | Error | Warning | Note | OnceNote | FailureNote | Help | OnceHelp | Allow

  /** The five levels the snippet renderer knows. */
  datatype RenderLevel = Error | Warning | Info | Note | Help

  /** Severity classes of the compiler's levels, from the most to the least severe:
      bug/fatal/error, warning, the note kinds, the help kinds, allow. */
  function SeverityRank(l: Level): (r: nat) {
    match l
    case Bug | Fatal | Error => 4
    case Warning => 3
    case Note | OnceNote | FailureNote => 2
    case Help | OnceHelp => 1
    case Allow => 0
  }

  /** Severity order of the renderer's levels. */
  function RenderRank(l: RenderLevel): (r: nat) {
    match l
    case Error => 4
    case Warning => 3
    case Note => 2
    case Help => 1
    case Info => 0
  }

  /** `to_as_level`: a total mapping that sends each severity class to one renderer level. */
  function ToRenderLevel(l: Level): (r: RenderLevel)
    ensures r == RenderLevel.Error <==> (l.Bug? || l.Fatal? || l.Error?)
    ensures r == RenderLevel.Warning <==> l.Warning?
    ensures r == RenderLevel.Note <==> (l.Note? || l.OnceNote? || l.FailureNote?)
    ensures r == RenderLevel.Help <==> (l.Help? || l.OnceHelp?)
    ensures r == RenderLevel.Info <==> l.Allow?
  {
    match l
    case Bug | Fatal | Error => RenderLevel.Error
    case Warning => RenderLevel.Warning
    case Note | OnceNote | FailureNote => RenderLevel.Note
    case Help | OnceHelp => RenderLevel.Help
    case Allow => RenderLevel.Info
  }

  /** The mapping keeps exactly the severity class: two levels map to the same
      renderer level iff they are equally severe, and a more severe level never maps
      to a less severe renderer level. */
  lemma ToRenderLevelKeepsSeverity(a: Level, b: Level)
    ensures RenderRank(ToRenderLevel(a)) == SeverityRank(a)
    ensures ToRenderLevel(a) == ToRenderLevel(b) <==> SeverityRank(a) == SeverityRank(b)
    ensures SeverityRank(a) <= SeverityRank(b) <==> RenderRank(ToRenderLevel(a)) <= RenderRank(ToRenderLevel(b))
  {
  }

  /** Every renderer level is the image of some compiler level. */
  lemma ToRenderLevelOnto(r: RenderLevel)
    ensures exists l :: ToRenderLevel(l) == r
  {
    match r
    case Error => assert ToRenderLevel(Level.Error) == r;
    case Warning => assert ToRenderLevel(Level.Warning) == r;
    case Note => assert ToRenderLevel(Level.Note) == r;
    case Help => assert ToRenderLevel(Level.Help) == r;
    case Info => assert ToRenderLevel(Allow) == r;
  }
}
