/** `MyMediaControls`: the play/pause toggle, the skip buttons, the volume
    dial and the slider/label refresh driven by the player's position. */
module MediaControls {
  import opened Wrappers
  import TimeText

  datatype ControlSignal = PlayMedia | PauseMedia | Prev | Next | SeekTo(value: int) | VolumeTo(value: int)

  /** The dial's range, set right after it is created. */
  const DialMin: int := 0
  const DialMax: int := 100

  /** What the controls hold: the play button's checked state, the seek
      slider's value and whether its signals are blocked, the elapsed-time
      label, and the volume dial's value. */
  datatype Controls = Controls(playChecked: bool, sliderValue: int, sliderBlocked: bool,
                               currentLabel: string, dialValue: int)

  /** Slider `setValue`: a changed value is announced through `valueChanged`
      (which the window wires to a seek) unless the signals are blocked. */
  function SetSliderValue(c: Controls, v: int): (r: (Controls, seq<ControlSignal>))
    ensures r.0 == c.(sliderValue := v)
    ensures r.1 == [] || r.1 == [SeekTo(v)]
    ensures r.1 == [SeekTo(v)] <==> !c.sliderBlocked && c.sliderValue != v
  {
    (c.(sliderValue := v), if !c.sliderBlocked && c.sliderValue != v then [SeekTo(v)] else [])
  }

  /** A blocked slider still moves but never asks for a seek, and setting
      the value it already holds is silent, so a repeated `setValue` seeks
      at most once. */
  lemma SliderSeeksOnce(c: Controls, v: int)
    ensures c.sliderBlocked ==> SetSliderValue(c, v) == (c.(sliderValue := v), [])
    ensures SetSliderValue(SetSliderValue(c, v).0, v) == (SetSliderValue(c, v).0, [])
  {
  }

  /** `updateSlider(position)`: move the slider to the player's position with
      its signals blocked, so that no seek is echoed back to the player; show
      the elapsed whole seconds as `M:SS`; unblock the slider again. */
  function UpdateSlider(c: Controls, position: int): (r: (Controls, seq<ControlSignal>))
    ensures r.1 == []
    ensures !r.0.sliderBlocked
    ensures r.0.sliderValue == position
    ensures TimeText.ParseClock(r.0.currentLabel) == Some(TimeText.Trunc(position as real / 1000.0))
    ensures r.0.playChecked == c.playChecked && r.0.dialValue == c.dialValue
  {
    var blocked := c.(sliderBlocked := true);
    var moved := SetSliderValue(blocked, position);
    var seconds := TimeText.Trunc(position as real / 1000.0);
    TimeText.ClockRoundTrip(seconds);
    (moved.0.(currentLabel := TimeText.ClockText(seconds), sliderBlocked := false), moved.1)
  }

  /** For a non-negative position the label shows `position // 1000` seconds. */
  lemma UpdateSliderSeconds(c: Controls, position: nat)
    ensures TimeText.ParseClock(UpdateSlider(c, position).0.currentLabel) == Some(position / 1000)
  {
    var x := position as real / 1000.0;
    var q := position / 1000;
    assert position == 1000 * q + position % 1000;
    assert q as real <= x < q as real + 1.0;
  }

  /** `__playPauseChange`: a checked button asks to play, an unchecked one to pause. */
  function PlayPauseChange(checked: bool): (out: seq<ControlSignal>)
    ensures |out| == 1
    ensures out[0] == PlayMedia <==> checked
    ensures out[0] == PauseMedia <==> !checked
  {
    if checked then [PlayMedia] else [PauseMedia]
  }

  /** A click on the checkable play button flips it and reports the new state. */
  function ClickPlay(c: Controls): (r: (Controls, seq<ControlSignal>))
    ensures r.0.playChecked == !c.playChecked
    ensures r.1 == PlayPauseChange(r.0.playChecked)
  {
    var flipped := c.(playChecked := !c.playChecked);
    (flipped, PlayPauseChange(flipped.playChecked))
  }

  /** Two clicks restore the button and ask once to play and once to pause. */
  lemma ClickPlayTwice(c: Controls)
    ensures ClickPlay(ClickPlay(c).0).0 == c
    ensures multiset(ClickPlay(c).1 + ClickPlay(ClickPlay(c).0).1) == multiset{PlayMedia, PauseMedia}
  {
  }

  /** `__setPrev` and `__setNext`: a skip button click emits its signal once. */
  function PrevClicked(): (out: seq<ControlSignal>)
    ensures out == [Prev]
  {
    [Prev]
  }

  function NextClicked(): (out: seq<ControlSignal>)
    ensures out == [Next]
  {
    [Next]
  }

  /** Dial `setValue`: the value is bounded to the dial's range, and a change
      is announced through `valueChanged` (wired to `adjustVolume`). */
  function SetDialValue(c: Controls, v: int): (r: (Controls, seq<ControlSignal>))
    ensures DialMin <= r.0.dialValue <= DialMax
    ensures DialMin <= v <= DialMax ==> r.0.dialValue == v
    ensures v < DialMin ==> r.0.dialValue == DialMin
    ensures v > DialMax ==> r.0.dialValue == DialMax
    ensures r.1 == (if r.0.dialValue != c.dialValue then [VolumeTo(r.0.dialValue)] else [])
  {
    var b := if v < DialMin then DialMin else if v > DialMax then DialMax else v;
    (c.(dialValue := b), if b != c.dialValue then [VolumeTo(b)] else [])
  }
}
