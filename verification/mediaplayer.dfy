/** `MyMediaPlayer`: the fullscreen flag, the Escape filter on the video
    widget, and the mute branch of `adjustVolume`. The playback engine and
    the widget calls (`setFullScreen`, `setVolume`) are collaborators; what
    the model keeps is the state those calls are driven from. */
module MediaPlayer {

  datatype Key = KeyEscape | KeyF | KeySpace | KeyLeft | KeyRight | KeyUp | KeyDown | OtherKey(code: int)

  datatype InputEvent = KeyPress(key: Key) | OtherEvent

  /** The level handed to the audio output: silence, or `log(v)/log(100)`
      for a positive linear volume `v` (the logarithm itself is not computed). */
  datatype AudioLevel = Muted | LogScale(linear: int)

  /** `volume` is the last linear volume passed to `adjustVolume`; the
      Python class does not keep it (see the finding in README). */
  datatype Player = Player(fullScreen: bool, level: AudioLevel, volume: int)

  /** A new player: windowed, at the audio output's default full volume. */
  function Fresh(): (p: Player)
    ensures !p.fullScreen
  {
    Player(false, LogScale(100), 100)
  }

  function IsFullScreen(p: Player): bool
  {
    p.fullScreen
  }

  function ToggleFullScreen(p: Player): (r: Player)
    ensures IsFullScreen(r) != IsFullScreen(p)
    ensures r.level == p.level && r.volume == p.volume
  {
    p.(fullScreen := !p.fullScreen)
  }

  /** `adjustVolume(v)`: a non-positive volume mutes, a positive one sets the
      logarithmic level of `v`. */
  function AdjustVolume(p: Player, v: int): (r: Player)
    ensures r.level == Muted <==> v <= 0
    ensures r.level.LogScale? ==> r.level.linear == v
    ensures r.volume == v && r.fullScreen == p.fullScreen
  {
    p.(level := if v > 0 then LogScale(v) else Muted, volume := v)
  }

  /** `eventFilter`: Escape while fullscreen leaves fullscreen and consumes
      the event; everything else is passed on (`False`) untouched. */
  function EventFilter(p: Player, ev: InputEvent): (r: (Player, bool))
    ensures r.1 <==> ev == KeyPress(KeyEscape) && IsFullScreen(p)
    ensures IsFullScreen(r.0) == (IsFullScreen(p) && !r.1)
    ensures ev == KeyPress(KeyEscape) ==> !IsFullScreen(r.0)
    ensures r.0.level == p.level && r.0.volume == p.volume
  {
    if ev.KeyPress? && ev.key == KeyEscape && IsFullScreen(p) then (ToggleFullScreen(p), true)
    else (p, false)
  }

  /** Two toggles give back the player they started from. */
  lemma ToggleTwice(p: Player)
    ensures ToggleFullScreen(ToggleFullScreen(p)) == p
  {
  }

  /** Keys other than Escape, and non-key events, never change the player. */
  lemma OtherEventsPass(p: Player, ev: InputEvent)
    requires ev != KeyPress(KeyEscape)
    ensures EventFilter(p, ev) == (p, false)
  {
  }
}
