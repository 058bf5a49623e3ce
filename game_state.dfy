/**
 * The top-level game states (src/state/game_state.rs, src/state/mod.rs):
 * the game starts loading, goes to Playing once the character list is
 * loaded, and Escape switches between Playing and Paused.
 */
module GameStates {
  import opened Wrappers
  import opened Keys

  /** `GameState`; `Loading` is the default. */
  datatype GameState = Loading | Playing | Paused

  /** `NextState::set` takes effect at the next state transition; no request keeps the state. */
  function Apply(current: GameState, next: Option<GameState>): GameState {
    if next.Some? then next.value else current
  }

  /** `toggle_pause`: Escape pauses a running game and resumes a paused one. */
  function TogglePause(input: ButtonInput, current: GameState): (next: Option<GameState>)
    ensures JustPressed(input, Escape) && current == Playing ==> next == Some(Paused)
    ensures JustPressed(input, Escape) && current == Paused ==> next == Some(Playing)
    ensures !JustPressed(input, Escape) || current == Loading ==> next == None
  {
    if JustPressed(input, Escape) then
      match current
      case Playing => Some(Paused)
      case Paused => Some(Playing)
      case Loading => None
    else None
  }

  /** Pressing Escape on two frames in a row leaves the game where it was. */
  lemma TogglePauseTwice(first: ButtonInput, second: ButtonInput, s: GameState)
    requires JustPressed(first, Escape) && JustPressed(second, Escape)
    ensures var s1 := Apply(s, TogglePause(first, s));
            Apply(s1, TogglePause(second, s1)) == s
  {
  }

  /** `toggle_pause` never leaves or enters `Loading`. */
  lemma TogglePauseKeepsLoading(input: ButtonInput, s: GameState)
    ensures (Apply(s, TogglePause(input, s)) == Loading) <==> s == Loading
  {
  }

  /**
   * `check_assets_loaded`: once the characters-list resource exists and the
   * asset behind its handle is loaded, ask for Playing. `loaded` is the set of
   * handles the asset store holds.
   */
  function CheckAssetsLoaded(resourceHandle: Option<nat>, loaded: set<nat>): (next: Option<GameState>)
    ensures next == Some(Playing) <==> resourceHandle.Some? && resourceHandle.value in loaded
    ensures next.None? <==> !(resourceHandle.Some? && resourceHandle.value in loaded)
  {
    if resourceHandle.None? then None
    else if resourceHandle.value in loaded then Some(Playing)
    else None
  }

  /**
   * One frame of the state plugin: `check_assets_loaded` runs only while
   * loading, `toggle_pause` only while playing or paused.
   */
  function Frame(current: GameState, input: ButtonInput, resourceHandle: Option<nat>, loaded: set<nat>): GameState {
    if current == Loading then Apply(current, CheckAssetsLoaded(resourceHandle, loaded))
    else Apply(current, TogglePause(input, current))
  }

  /**
   * Loading is left only for Playing, and only once the assets are there;
   * it is never re-entered; Paused is reached only from Playing by Escape.
   */
  lemma FrameTransitions(current: GameState, input: ButtonInput, resourceHandle: Option<nat>, loaded: set<nat>)
    ensures var s := Frame(current, input, resourceHandle, loaded);
            (current == Loading ==> (s != Loading <==> s == Playing && resourceHandle.Some? && resourceHandle.value in loaded)) &&
            (s == Loading ==> current == Loading) &&
            (s == Paused ==> (current == Paused && !JustPressed(input, Escape)) ||
                             (current == Playing && JustPressed(input, Escape)))
  {
  }
}
