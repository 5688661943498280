/** `Main.MainWindow`: the glue between the widgets — keyboard shortcuts,
    the hover preview popup, the playlist-driven skip buttons, and the
    duration caption. */
module MainWindow {
  import opened Wrappers
  import TimeText
  import ProcessTools
  import Slider
  import opened MediaPlayer
  import MediaControls
  import Playlist

  // ---------------------------------------------------------------------------
  // Keyboard shortcuts
  // ---------------------------------------------------------------------------

  /** Arrow keys seek by five seconds. */
  const SeekStepMs: int := 5000

  /** Up and Down move the volume by ten, within 0..100. */
  const VolumeStep: int := 10
  const VolumeMax: int := 100

  /** What the shortcuts act on: the player, its position in milliseconds,
      and the control panel. */
  datatype Window = Window(player: Player, position: int, controls: MediaControls.Controls)

  /** The audio level is the one the recorded volume calls for. */
  predicate Consistent(p: Player)
  {
    p.level == (if p.volume > 0 then LogScale(p.volume) else Muted)
  }

  function Min(a: int, b: int): int { if a <= b then a else b }

  function Max(a: int, b: int): int { if a >= b then a else b }

  /** `keyPressEvent` as intended: `PyQt6` bound and the volume keys reading
      the volume the player last set (see `KeyPressAsWritten` and
      `KeyPressWithImport` for the code as it stands). */
  function KeyPress(w: Window, k: Key): (r: (Window, seq<MediaControls.ControlSignal>))
    ensures k == KeyF ==> IsFullScreen(r.0.player) != IsFullScreen(w.player)
    ensures k == KeyEscape ==> !IsFullScreen(r.0.player)
    ensures k != KeyF && k != KeyEscape ==> IsFullScreen(r.0.player) == IsFullScreen(w.player)
    ensures k == KeySpace ==> r.1 == MediaControls.PlayPauseChange(!w.controls.playChecked)
    ensures k != KeySpace ==> r.1 == [] && r.0.controls == w.controls
    ensures r.0.position == w.position + (if k == KeyRight then SeekStepMs else if k == KeyLeft then -SeekStepMs else 0)
    ensures k == KeyUp ==> r.0.player.volume == Min(w.player.volume + VolumeStep, VolumeMax)
    ensures k == KeyDown ==> r.0.player.volume == Max(w.player.volume - VolumeStep, 0)
    ensures k != KeyUp && k != KeyDown ==> r.0.player.volume == w.player.volume && r.0.player.level == w.player.level
    ensures Consistent(w.player) ==> Consistent(r.0.player)
  {
    match k
    case KeyF => (w.(player := ToggleFullScreen(w.player)), [])
    case KeyEscape =>
      if IsFullScreen(w.player) then (w.(player := ToggleFullScreen(w.player)), []) else (w, [])
    case KeySpace =>
      var c := MediaControls.ClickPlay(w.controls);
      (w.(controls := c.0), c.1)
    case KeyLeft => (w.(position := w.position - SeekStepMs), [])
    case KeyRight => (w.(position := w.position + SeekStepMs), [])
    case KeyUp => (w.(player := AdjustVolume(w.player, Min(w.player.volume + VolumeStep, VolumeMax))), [])
    case KeyDown => (w.(player := AdjustVolume(w.player, Max(w.player.volume - VolumeStep, 0))), [])
    case OtherKey(_) => (w, [])
  }

  /** The errors a shortcut can raise: the name `PyQt6` is unbound in the
      window's module (only `from PyQt6.X import Y` appears there), and the
      player has no `volume` attribute. */
  datatype KeyError = UnboundPyQt6 | NoVolumeAttribute

  /** `keyPressEvent` as written: the first comparison already evaluates
      `PyQt6.QtCore.Qt.Key.Key_F`, so every key raises NameError before any
      branch is taken. */
  function KeyPressAsWritten(w: Window, k: Key): (r: Result<(Window, seq<MediaControls.ControlSignal>), KeyError>)
    ensures r.Failure? && r.error == UnboundPyQt6
  {
    Failure(UnboundPyQt6)
  }

  /** As written no shortcut does anything, while the intended F always
      changes the window. */
  lemma KeysFailAsWritten(w: Window, k: Key)
    ensures KeyPressAsWritten(w, k) == Failure(UnboundPyQt6)
    ensures KeyPress(w, KeyF).0 != w
  {
    assert IsFullScreen(KeyPress(w, KeyF).0.player) != IsFullScreen(w.player);
  }

  /** `keyPressEvent` once `PyQt6.QtCore` is imported, as the slider and
      player modules do: the volume keys still read `self.mediaPlayer.volume`,
      which `MyMediaPlayer` never assigns, so they raise AttributeError
      before `adjustVolume` is reached. */
  function KeyPressWithImport(w: Window, k: Key): (r: Result<(Window, seq<MediaControls.ControlSignal>), KeyError>)
    ensures r.Failure? <==> k == KeyUp || k == KeyDown
    ensures r.Failure? ==> r.error == NoVolumeAttribute
    ensures r.Success? ==> r.value == KeyPress(w, k)
  {
    if k == KeyUp || k == KeyDown then Failure(NoVolumeAttribute) else Success(KeyPress(w, k))
  }

  /** With the import added, every shortcut but the volume keys behaves as
      intended, and the volume keys still never change the volume. */
  lemma ImportRestoresShortcuts(w: Window, k: Key)
    requires k != KeyUp && k != KeyDown
    ensures KeyPressWithImport(w, k) == Success(KeyPress(w, k))
    ensures KeyPressAsWritten(w, k) != KeyPressWithImport(w, k)
  {
  }

  /** Even with the import, the volume keys fail on any window, though the
      intended Up changes the volume whenever it is below the top. */
  lemma VolumeKeysFailAsWritten(w: Window)
    requires w.player.volume <= VolumeMax
    ensures KeyPressWithImport(w, KeyUp) == Failure(NoVolumeAttribute)
    ensures KeyPressWithImport(w, KeyDown) == Failure(NoVolumeAttribute)
    ensures KeyPress(w, KeyUp).0.player.volume != w.player.volume <==> w.player.volume < VolumeMax
  {
  }

  /** A run of shortcuts, in order. */
  function Keys(w: Window, ks: seq<Key>): Window
    decreases |ks|
  {
    if |ks| == 0 then w else Keys(KeyPress(w, ks[0]).0, ks[1..])
  }

  /** Whatever keys are pressed, a volume in 0..100 stays in 0..100 and the
      audio level keeps matching it. */
  lemma {:induction false} VolumeStaysInRange(w: Window, ks: seq<Key>)
    requires 0 <= w.player.volume <= VolumeMax && Consistent(w.player)
    ensures 0 <= Keys(w, ks).player.volume <= VolumeMax
    ensures Consistent(Keys(w, ks).player)
    decreases |ks|
  {
    if |ks| > 0 {
      VolumeStaysInRange(KeyPress(w, ks[0]).0, ks[1..]);
    }
  }

  /** Down undoes Up below the top of the range; Left undoes Right. */
  lemma ShortcutInverses(w: Window)
    ensures 0 <= w.player.volume <= VolumeMax - VolumeStep && Consistent(w.player) ==>
      KeyPress(KeyPress(w, KeyUp).0, KeyDown).0 == w
    ensures KeyPress(KeyPress(w, KeyRight).0, KeyLeft).0 == w
  {
  }

  /** Two presses of F restore the window's screen mode. */
  lemma FullScreenTwice(w: Window)
    ensures KeyPress(KeyPress(w, KeyF).0, KeyF).0 == w
  {
  }

  // ---------------------------------------------------------------------------
  // Hover preview
  // ---------------------------------------------------------------------------

  datatype Geometry = Geometry(x: int, y: int, w: int, h: int)

  /** The preview popup: shown or not, where, what image and caption. */
  datatype Popup = Popup(visible: bool, geometry: Geometry, image: Option<ProcessTools.Thumb>, caption: string)

  /** `int((ms / 1000) * fr)`: the frame shown at `ms` milliseconds. */
  function FrameAt(ms: real, fr: real): (n: int)
    ensures 0.0 <= ms / 1000.0 * fr ==> n as real <= ms / 1000.0 * fr < n as real + 1.0
    ensures ms / 1000.0 * fr < 0.0 ==> n as real - 1.0 < ms / 1000.0 * fr <= n as real
  {
    TimeText.Trunc(ms / 1000.0 * fr)
  }

  /** The popup's rectangle: centred on the pointer, ten pixels above it. */
  function Placement(gx: int, gy: int, w: int, h: int): (g: Geometry)
    ensures g.w == w && g.h == h
    ensures g.y + g.h + 10 == gy
    ensures w >= 0 ==> g.x <= gx <= g.x + g.w
    ensures -1 <= (gx - g.x) - (g.x + g.w - gx) <= 0
  {
    Geometry(gx - w / 2, gy - h - 10, w, h)
  }

  /** `int(s // 60)` for a float `s`. */
  function FloatMinutes(s: real): int
  {
    TimeText.Trunc((s / 60.0).Floor as real)
  }

  /** `int(s % 60)` for a float `s`. */
  function FloatSeconds(s: real): int
  {
    TimeText.Trunc(s - 60.0 * (s / 60.0).Floor as real)
  }

  /** Python's float `s // 60` and `s % 60`, taken to whole numbers, are the
      minutes and seconds of the whole seconds below `s`. */
  lemma FloatClock(s: real)
    ensures FloatMinutes(s) == s.Floor / 60
    ensures FloatSeconds(s) == s.Floor % 60
  {
    var f := s.Floor;
    var a, b := f / 60, f % 60;
    assert f == 60 * a + b && 0 <= b < 60;
    assert f as real == 60.0 * a as real + b as real;
    assert 60.0 * a as real <= s < 60.0 * a as real + 60.0;
    assert a as real <= s / 60.0 < a as real + 1.0;
    assert (s / 60.0).Floor == a;
    var rem := s - 60.0 * a as real;
    assert b as real <= rem < b as real + 1.0;
  }

  /** The caption `f"{int(s//60)}:{int(s % 60):02d}"` for `s = ms/1000`;
      it reads back as the whole seconds below `s`. */
  function PreviewCaption(ms: real): (c: string)
    ensures c == TimeText.ClockText((ms / 1000.0).Floor)
    ensures TimeText.ParseClock(c) == Some((ms / 1000.0).Floor)
  {
    var s := ms / 1000.0;
    FloatClock(s);
    TimeText.ClockRoundTrip(s.Floor);
    TimeText.IntText(FloatMinutes(s)) + ":" + TimeText.Pad2(FloatSeconds(s))
  }

  /** `previewDisplay(display)`: a hide request, or no extractor for the
      current file, hides the popup; otherwise the frame under the pointer
      is extracted and, when it reads, shown above the pointer with its
      time. A frame that does not read leaves the popup as it was. */
  function PreviewDisplay(popup: Popup, display: Slider.Preview, extractor: Option<ProcessTools.PreviewPosition>, fr: real): (r: Popup)
    requires extractor.Some? ==> extractor.value.frameHeight != 0
    ensures display.Hide? || extractor.None? ==> r == popup.(visible := false)
    ensures display.Request? && extractor.Some? && !extractor.value.readable(FrameAt(display.ms, fr)) ==> r == popup
    ensures r.visible && r != popup ==>
      display.Request? && extractor.Some? &&
      r.image == Some(ProcessTools.ThumbOf(extractor.value.frameWidth, extractor.value.frameHeight, FrameAt(display.ms, fr))) &&
      r.geometry == Placement(display.gx, display.gy, popup.geometry.w, popup.geometry.h) &&
      r.caption == PreviewCaption(display.ms)
    ensures display.Request? && extractor.Some? && extractor.value.readable(FrameAt(display.ms, fr)) ==>
      r == Popup(true, Placement(display.gx, display.gy, popup.geometry.w, popup.geometry.h),
                 Some(ProcessTools.ThumbOf(extractor.value.frameWidth, extractor.value.frameHeight, FrameAt(display.ms, fr))),
                 PreviewCaption(display.ms))
    ensures r.geometry.w == popup.geometry.w && r.geometry.h == popup.geometry.h
  {
    match display
    case Hide => popup.(visible := false)
    case Request(gx, gy, ms) =>
      if extractor.None? then popup.(visible := false)
      else
        var e := ProcessTools.Extract(extractor.value, FrameAt(ms, fr));
        if e.image.None? then popup
        else Popup(true, Placement(gx, gy, popup.geometry.w, popup.geometry.h), e.image, PreviewCaption(ms))
  }

  /** Only the latest hover counts: once a frame reads, what an earlier
      request or hide did to the popup is forgotten. */
  lemma LatestHoverWins(popup: Popup, first: Slider.Preview, second: Slider.Preview,
                        extractor: Option<ProcessTools.PreviewPosition>, fr: real)
    requires extractor.Some? ==> extractor.value.frameHeight != 0
    requires second.Request? && extractor.Some? && extractor.value.readable(FrameAt(second.ms, fr))
    ensures PreviewDisplay(PreviewDisplay(popup, first, extractor, fr), second, extractor, fr) ==
            PreviewDisplay(popup, second, extractor, fr)
    ensures PreviewDisplay(popup, second, extractor, fr).visible
  {
  }

  /** Hovering over a slider whose duration is `d` whole seconds asks for a
      frame between 0 and `int(d * fr)`. */
  lemma PreviewFrameWithinDuration(d: nat, x: int, width: int, fr: real)
    requires 0 <= x <= width && width > 0 && fr >= 0.0
    ensures 0 <= FrameAt(Slider.TargetMs(d, x, width), fr) <= TimeText.Trunc(d as real * fr)
  {
    var ms := Slider.TargetMs(d, x, width);
    Slider.TargetWithinMedia(d, x, width);
    var t := ms / 1000.0;
    assert 0.0 <= t <= d as real;
    RealMulMono(t, d as real, fr);
  }

  lemma RealMulMono(a: real, b: real, c: real)
    requires 0.0 <= a <= b && c >= 0.0
    ensures 0.0 <= a * c <= b * c
  {
  }

  // ---------------------------------------------------------------------------
  // Playlist-driven controls
  // ---------------------------------------------------------------------------

  /** `manageControl`'s button states: Prev is disabled on the first row,
      Next on the last. With a current row, each button is enabled exactly
      when the skip it triggers lands on a row. */
  function Buttons(pl: Playlist.Playlist): (r: (bool, bool))
    ensures 0 <= pl.current < |pl.items| ==>
      (r.0 <==> Playlist.SetPrev(pl).current != -1) && (r.1 <==> Playlist.SetNext(pl).current != -1)
    ensures pl.current == -1 ==> r.0 && (r.1 <==> |pl.items| != 0)
  {
    (pl.current != 0, pl.current != |pl.items| - 1)
  }

  /** The wiring of the control panel's `prev` and `next` signals to the
      playlist's `setPrev` and `setNext`; other signals leave it alone. */
  function Route(pl: Playlist.Playlist, out: seq<MediaControls.ControlSignal>): (r: Playlist.Playlist)
    ensures r.items == pl.items
    ensures Playlist.Valid(pl) ==> Playlist.Valid(r)
    decreases |out|
  {
    if |out| == 0 then pl
    else
      var next := match out[0]
        case Prev => Playlist.SetPrev(pl)
        case Next => Playlist.SetNext(pl)
        case _ => pl;
      Route(next, out[1..])
  }

  /** An enabled skip button moves the playlist's current row to the
      neighbouring row, which `itemSelectionChanged` then plays. */
  lemma SkipButtonsNavigate(pl: Playlist.Playlist)
    requires Playlist.Valid(pl) && 0 <= pl.current < |pl.items|
    ensures Route(pl, MediaControls.PrevClicked()) == Playlist.SetPrev(pl)
    ensures Route(pl, MediaControls.NextClicked()) == Playlist.SetNext(pl)
    ensures Buttons(pl).0 ==> Route(pl, MediaControls.PrevClicked()).current == pl.current - 1
    ensures Buttons(pl).1 ==> Route(pl, MediaControls.NextClicked()).current == pl.current + 1
  {
    assert MediaControls.PrevClicked()[1..] == [];
    assert MediaControls.NextClicked()[1..] == [];
  }

  /** Why `manageControl` raised: no current row (`currentItem()` is `None`),
      or the frame extractor failed to open. The exception escapes the slot. */
  datatype ManageError = NoCurrentItem | PreviewFailed(cause: ProcessTools.ToolError)

  /** What a completed `manageControl` leaves behind: the new frame
      extractor, the playlist, and the signals the control panel emitted. */
  datatype Played = Played(extractor: ProcessTools.PreviewPosition, playlist: Playlist.Playlist,
                           out: seq<MediaControls.ControlSignal>)

  /** `manageControl` followed by `__playFile`: set the skip buttons; with a
      current row, load its file into the player, open a frame extractor on
      it (`opening`, which fails on a zero frame height), mark the first row
      holding that path active and ask the player to play. Marking a
      different row changes the selection, so `itemSelectionChanged` runs
      `manageControl` again on that row before the first play request. The
      files loaded are listed in `loaded`, in order. */
  method ManageControl(pl: Playlist.Playlist, opening: Result<ProcessTools.PreviewPosition, ProcessTools.ToolError>)
    returns (prevEnabled: bool, nextEnabled: bool, loaded: seq<string>, r: Result<Played, ManageError>)
    requires Playlist.Valid(pl)
    ensures pl.current == -1 ==>
      (prevEnabled, nextEnabled) == Buttons(pl) && loaded == [] && r == Failure(NoCurrentItem)
    ensures pl.current != -1 && opening.Failure? ==>
      (prevEnabled, nextEnabled) == Buttons(pl) && loaded == [pl.items[pl.current].fullPath] &&
      r == Failure(PreviewFailed(opening.error))
    ensures pl.current != -1 && opening.Success? ==>
      var p := pl.items[pl.current].fullPath;
      r.Success? && r.value.extractor == opening.value &&
      r.value.playlist.items == pl.items && Playlist.Valid(r.value.playlist) &&
      0 <= r.value.playlist.current <= pl.current && pl.items[r.value.playlist.current].fullPath == p &&
      (forall j :: 0 <= j < r.value.playlist.current ==> pl.items[j].fullPath != p) &&
      (prevEnabled, nextEnabled) == Buttons(r.value.playlist) &&
      (r.value.playlist.current == pl.current ==> loaded == [p] && r.value.out == [MediaControls.PlayMedia]) &&
      (r.value.playlist.current != pl.current ==>
        loaded == [p, p] && r.value.out == [MediaControls.PlayMedia, MediaControls.PlayMedia])
    decreases pl.current + 1
  {
    prevEnabled, nextEnabled := Buttons(pl).0, Buttons(pl).1;
    if pl.current == -1 {
      loaded, r := [], Failure(NoCurrentItem);
      return;
    }
    var p := pl.items[pl.current].fullPath;
    loaded := [p];
    if opening.Failure? {
      r := Failure(PreviewFailed(opening.error));
      return;
    }
    var after := Playlist.SetActiveItem(pl, p);
    if after.current == pl.current {
      r := Success(Played(opening.value, after, [MediaControls.PlayMedia]));
    } else {
      var pe, ne, again, inner := ManageControl(after, opening);
      assert inner.value.playlist.current == after.current;
      prevEnabled, nextEnabled := pe, ne;
      loaded := loaded + again;
      r := Success(inner.value.(out := inner.value.out + [MediaControls.PlayMedia]));
    }
  }

  /** The case of a path listed twice: playing the later row re-selects the
      earlier one, whose buttons win, and the player is asked to play twice. */
  method DuplicatePathExample(opening: Result<ProcessTools.PreviewPosition, ProcessTools.ToolError>)
    returns (prevEnabled: bool, nextEnabled: bool, r: Result<Played, ManageError>)
    requires opening.Success?
    ensures !prevEnabled && nextEnabled
    ensures r.Success? && r.value.playlist.current == 0
    ensures r.value.out == [MediaControls.PlayMedia, MediaControls.PlayMedia]
  {
    var x, y := Playlist.Item("x.mp4", "a/x.mp4"), Playlist.Item("y.mp4", "b/y.mp4");
    var pl := Playlist.Playlist([x, y, x], 2);
    var loaded;
    prevEnabled, nextEnabled, loaded, r := ManageControl(pl, opening);
    assert pl.items[0].fullPath == pl.items[2].fullPath;
  }

  // ---------------------------------------------------------------------------
  // Duration caption
  // ---------------------------------------------------------------------------

  /** `__displayReelContent`: the probed duration is cut to whole seconds,
      handed to the seek slider, and shown as `M:SS`. */
  function ReelContent(durationSec: real, s: Slider.Slider): (r: (Slider.Slider, string))
    ensures r.0 == s.(duration := TimeText.Trunc(durationSec))
    ensures TimeText.ParseClock(r.1) == Some(r.0.duration)
  {
    var d := TimeText.Trunc(durationSec);
    TimeText.ClockRoundTrip(d);
    (s.(duration := d), TimeText.ClockText(d))
  }
}
