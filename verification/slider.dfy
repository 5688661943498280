/** The hover throttle of `MySlider`: pointer enter/move/leave events come in,
    `enterPreview`, `exitPreview` and `showPreview(tuple)` signals go out.
    The clock is an integer number of milliseconds passed in with each event
    that reads it; a move reads it twice, because the stamp is taken again
    after the synchronous `showPreview` slot has returned. */
module Slider {

  /** A move is forwarded only when strictly more than this many
      milliseconds have passed since the last forwarded one (or the enter). */
  const ThrottleMs: int := 50

  /** The payload of `showPreview`: `(gx, gy, ms)` or the empty tuple. */
  datatype Preview = Hide | Request(gx: int, gy: int, ms: real)

  datatype Signal = EnterPreview | ExitPreview | ShowPreview(preview: Preview)

  /** A pointer move: the clock when the throttle is checked (`now`), the
      clock when the stamp is re-read after the emitted preview has been
      handled (`after`), the local x, and the global position of the pointer
      as `mapToGlobal` reports it. */
  datatype Move = Move(now: int, after: int, x: int, gx: int, gy: int)

  /** The clock does not run backwards within one move. */
  predicate ClockForward(m: Move)
  {
    m.now <= m.after
  }

  datatype Event = Enter(now: int) | Moved(m: Move) | Leave

  /** `duration` is in whole seconds; `width` is the widget's width. */
  datatype Slider = Slider(duration: int, width: int, inside: bool, sentStamp: int)

  /** A newly constructed slider at clock reading `now`. */
  function Fresh(now: int, width: int): Slider
  {
    Slider(0, width, false, now)
  }

  /** `duration * (x / width) * 1000`: the media time under the pointer. */
  function TargetMs(duration: int, x: int, width: int): real
    requires width != 0
  {
    duration as real * (x as real / width as real) * 1000.0
  }

  /** One event. `mouseMoveEvent` divides by the width before it looks at
      anything else, so a zero width is excluded. */
  function Step(s: Slider, e: Event): (r: (Slider, seq<Signal>))
    requires s.width != 0
    ensures r.0.duration == s.duration && r.0.width == s.width
    ensures e.Enter? ==> r.0.inside && r.0.sentStamp == e.now && r.1 == [EnterPreview]
    ensures e.Leave? ==> !r.0.inside && r.1 == [ExitPreview, ShowPreview(Hide)]
    ensures e.Moved? ==> (r.1 != [] <==> s.inside && e.m.now > s.sentStamp + ThrottleMs)
    ensures e.Moved? && r.1 == [] ==> r.0 == s
    ensures e.Moved? && r.1 != [] ==> r.0.inside && r.0.sentStamp == e.m.after
    ensures e.Moved? && r.1 != [] ==> r.1 == [ShowPreview(Request(e.m.gx, e.m.gy, TargetMs(s.duration, e.m.x, s.width)))]
  {
    match e
    case Enter(now) => (s.(inside := true, sentStamp := now), [EnterPreview])
    case Moved(m) =>
      if s.inside && m.now - s.sentStamp > ThrottleMs then
        (s.(sentStamp := m.after), [ShowPreview(Request(m.gx, m.gy, TargetMs(s.duration, m.x, s.width)))])
      else
        (s, [])
    case Leave => (s.(inside := false), [ExitPreview, ShowPreview(Hide)])
  }

  /** A sequence of events, signals concatenated in order. Moves alone never
      change whether the pointer counts as inside, and every enter or leave
      produces at least one signal. */
  function Run(s: Slider, es: seq<Event>): (r: (Slider, seq<Signal>))
    requires s.width != 0
    ensures r.0.duration == s.duration && r.0.width == s.width
    ensures (forall i :: 0 <= i < |es| ==> es[i].Moved?) ==> r.0.inside == s.inside
    ensures (exists i :: 0 <= i < |es| && !es[i].Moved?) ==> |r.1| > 0
    decreases |es|
  {
    if |es| == 0 then (s, [])
    else
      var r1 := Step(s, es[0]);
      var r2 := Run(r1.0, es[1..]);
      (r2.0, r1.1 + r2.1)
  }

  function Moves(ms: seq<Move>): (es: seq<Event>)
    ensures |es| == |ms| && forall i :: 0 <= i < |ms| ==> es[i] == Moved(ms[i])
  {
    seq(|ms|, i requires 0 <= i < |ms| => Moved(ms[i]))
  }

  /** The moves of an uninterrupted stretch that get through the throttle. */
  function Passed(s: Slider, ms: seq<Move>): seq<Move>
    requires s.width != 0
    decreases |ms|
  {
    if |ms| == 0 then []
    else
      var r1 := Step(s, Moved(ms[0]));
      (if r1.1 == [] then [] else [ms[0]]) + Passed(r1.0, ms[1..])
  }

  /** The requests those moves produce. */
  function Requests(s: Slider, ps: seq<Move>): (out: seq<Signal>)
    requires s.width != 0
    ensures |out| == |ps|
  {
    seq(|ps|, i requires 0 <= i < |ps| =>
      ShowPreview(Request(ps[i].gx, ps[i].gy, TargetMs(s.duration, ps[i].x, s.width))))
  }

  /** Each forwarded move is checked more than 50 ms after the stamp the
      previous one left (its `after` reading), and the first more than 50 ms
      after `prev`. */
  ghost predicate Spaced(prev: int, ps: seq<Move>)
    decreases |ps|
  {
    |ps| == 0 || (ps[0].now - prev > ThrottleMs && Spaced(ps[0].after, ps[1..]))
  }

  // ---------------------------------------------------------------------------
  // Properties
  // ---------------------------------------------------------------------------

  lemma RunCons(s: Slider, e: Event, rest: seq<Event>)
    requires s.width != 0
    ensures Run(s, [e] + rest) == (Run(Step(s, e).0, rest).0, Step(s, e).1 + Run(Step(s, e).0, rest).1)
  {
    var es := [e] + rest;
    assert es[0] == e && es[1..] == rest;
  }

  lemma {:induction false} RunAppend(s: Slider, a: seq<Event>, b: seq<Event>)
    requires s.width != 0
    ensures Run(s, a + b) == (Run(Run(s, a).0, b).0, Run(s, a).1 + Run(Run(s, a).0, b).1)
    decreases |a|
  {
    if |a| == 0 {
      assert a + b == b;
      assert [] + Run(s, b).1 == Run(s, b).1;
    } else {
      var e, tail := a[0], a[1..];
      assert a == [e] + tail;
      assert a + b == [e] + (tail + b);
      var r1 := Step(s, e);
      RunCons(s, e, tail);
      RunCons(s, e, tail + b);
      RunAppend(r1.0, tail, b);
      var m := Run(r1.0, tail);
      var t := Run(m.0, b);
      assert r1.1 + (m.1 + t.1) == (r1.1 + m.1) + t.1;
    }
  }

  lemma RunSingle(s: Slider, e: Event)
    requires s.width != 0
    ensures Run(s, [e]) == Step(s, e)
  {
    assert [e][0] == e;
    assert [e][1..] == [];
    assert Run(Step(s, e).0, []) == (Step(s, e).0, []);
    assert Step(s, e).1 + [] == Step(s, e).1;
  }

  /** Over a stretch of moves the slider emits exactly one request per move
      that passes the throttle, in order, and keeps its `inside` flag. */
  lemma {:induction false} MovesEmitRequests(s: Slider, ms: seq<Move>)
    requires s.width != 0
    ensures Run(s, Moves(ms)).1 == Requests(s, Passed(s, ms))
    ensures Run(s, Moves(ms)).0.inside == s.inside
    decreases |ms|
  {
    if |ms| > 0 {
      var r1 := Step(s, Moved(ms[0]));
      MovesCons(ms);
      RunCons(s, Moved(ms[0]), Moves(ms[1..]));
      MovesEmitRequests(r1.0, ms[1..]);
      var tail := Passed(r1.0, ms[1..]);
      RequestsSameSlider(r1.0, s, tail);
      if r1.1 != [] {
        RequestsCons(s, ms[0], tail);
      } else {
        assert [] + tail == tail;
      }
    }
  }

  lemma MovesCons(ms: seq<Move>)
    requires |ms| > 0
    ensures Moves(ms) == [Moved(ms[0])] + Moves(ms[1..])
  {
  }

  /** Requests depend on the slider only through its duration and width. */
  lemma RequestsSameSlider(s: Slider, t: Slider, ps: seq<Move>)
    requires s.width != 0 && s.width == t.width && s.duration == t.duration
    ensures Requests(s, ps) == Requests(t, ps)
  {
  }

  lemma RequestsCons(s: Slider, m: Move, ps: seq<Move>)
    requires s.width != 0
    ensures Requests(s, [m] + ps) ==
      [ShowPreview(Request(m.gx, m.gy, TargetMs(s.duration, m.x, s.width)))] + Requests(s, ps)
  {
    var l, r := Requests(s, [m] + ps), [ShowPreview(Request(m.gx, m.gy, TargetMs(s.duration, m.x, s.width)))] + Requests(s, ps);
    assert |l| == |r|;
    forall k | 0 <= k < |l|
      ensures l[k] == r[k]
    {
      if k > 0 {
        assert ([m] + ps)[k] == ps[k - 1];
      }
    }
  }

  /** The throttle: forwarded moves are spaced more than 50 ms apart, the
      first more than 50 ms after the last stamp (the enter); a slider that is
      not inside forwards nothing; the forwarded moves are a subsequence. */
  lemma {:induction false} ThrottleSpacing(s: Slider, ms: seq<Move>)
    requires s.width != 0
    ensures Spaced(s.sentStamp, Passed(s, ms))
    ensures !s.inside ==> Passed(s, ms) == []
    ensures forall p :: p in Passed(s, ms) ==> p in ms
    decreases |ms|
  {
    if |ms| > 0 {
      var r1 := Step(s, Moved(ms[0]));
      ThrottleSpacing(r1.0, ms[1..]);
      var tail := Passed(r1.0, ms[1..]);
      if r1.1 != [] {
        assert r1.0.sentStamp == ms[0].after;
        var ps := [ms[0]] + tail;
        assert ps[1..] == tail;
        assert Passed(s, ms) == ps;
      } else {
        assert r1.0 == s;
        assert Passed(s, ms) == [] + tail == tail;
      }
    }
  }

  /** `n` forwarded moves that are spaced out end at least `51 * n` ms after
      the stamp they started from. */
  lemma {:induction false} SpacedSpan(prev: int, ps: seq<Move>)
    requires Spaced(prev, ps) && |ps| > 0
    requires forall m :: m in ps ==> ClockForward(m)
    ensures ps[|ps| - 1].now >= prev + (ThrottleMs + 1) * |ps|
    decreases |ps|
  {
    if |ps| > 1 {
      assert ps[0] in ps;
      assert forall m :: m in ps[1..] ==> m in ps;
      SpacedSpan(ps[0].after, ps[1..]);
      assert ps[1..][|ps| - 2] == ps[|ps| - 1];
    }
  }

  /** Rate limit: if every move of a hover happens within `span` ms of the
      stamp, at most `span / 51` of them are forwarded (a second of hovering
      yields at most 19 requests, however fast the events come, and fewer
      when the preview slot is slow). */
  lemma HoverRateLimit(s: Slider, ms: seq<Move>, span: nat)
    requires s.width != 0
    requires forall m :: m in ms ==> ClockForward(m)
    requires forall i :: 0 <= i < |ms| ==> ms[i].now <= s.sentStamp + span
    ensures |Passed(s, ms)| <= span / (ThrottleMs + 1)
  {
    var ps := Passed(s, ms);
    ThrottleSpacing(s, ms);
    if |ps| > 0 {
      SpacedSpan(s.sentStamp, ps);
      assert ps[|ps| - 1] in ms;
      assert (ThrottleMs + 1) * |ps| <= span;
    }
  }

  /** A whole hover: `enter`, any moves, `leave`. The signals are the enter
      notice, the throttled requests (the first more than 50 ms after the
      enter), then the exit notice and exactly one hide, at the very end;
      the slider is left outside. */
  lemma HoverSession(s: Slider, t0: int, ms: seq<Move>)
    requires s.width != 0
    ensures var entered := s.(inside := true, sentStamp := t0);
      var r := Run(s, [Enter(t0)] + Moves(ms) + [Leave]);
      && r.1 == [EnterPreview] + Requests(s, Passed(entered, ms)) + [ExitPreview, ShowPreview(Hide)]
      && Spaced(t0, Passed(entered, ms))
      && !r.0.inside
      && (forall i :: 0 <= i < |r.1| ==> (r.1[i] == ShowPreview(Hide) <==> i == |r.1| - 1))
  {
    var entered := s.(inside := true, sentStamp := t0);
    RunAppend(s, [Enter(t0)] + Moves(ms), [Leave]);
    RunAppend(s, [Enter(t0)], Moves(ms));
    RunSingle(s, Enter(t0));
    MovesEmitRequests(entered, ms);
    ThrottleSpacing(entered, ms);
    var mid := Run(entered, Moves(ms));
    RunSingle(mid.0, Leave);
    var reqs := Requests(s, Passed(entered, ms));
    RequestsSameSlider(entered, s, Passed(entered, ms));
    RequestsNeverHide(s, Passed(entered, ms));
    OnlyLastHides(reqs);
  }

  lemma RequestsNeverHide(s: Slider, ps: seq<Move>)
    requires s.width != 0
    ensures forall k :: 0 <= k < |Requests(s, ps)| ==> Requests(s, ps)[k] != ShowPreview(Hide)
  {
  }

  /** In enter, requests, exit, hide: only the last signal hides the popup. */
  lemma OnlyLastHides(reqs: seq<Signal>)
    requires forall k :: 0 <= k < |reqs| ==> reqs[k] != ShowPreview(Hide)
    ensures var out := [EnterPreview] + reqs + [ExitPreview, ShowPreview(Hide)];
      forall i :: 0 <= i < |out| ==> (out[i] == ShowPreview(Hide) <==> i == |out| - 1)
  {
    var out := [EnterPreview] + reqs + [ExitPreview, ShowPreview(Hide)];
    forall i | 0 <= i < |out|
      ensures out[i] == ShowPreview(Hide) <==> i == |out| - 1
    {
      if 1 <= i <= |reqs| {
        assert out[i] == reqs[i - 1];
      }
    }
  }

  /** After `leave`, moves are ignored until the next `enter`; a freshly
      constructed slider ignores them too. */
  lemma OutsideIgnoresMoves(s: Slider, now: int, ms: seq<Move>)
    requires s.width != 0
    ensures Passed(Step(s, Leave).0, ms) == []
    ensures Passed(Fresh(now, s.width), ms) == []
  {
    ThrottleSpacing(Step(s, Leave).0, ms);
    ThrottleSpacing(Fresh(now, s.width), ms);
  }

  /** Hovering inside the widget (`0 <= x <= width`) asks for a time between
      the start and the end of the media. */
  lemma TargetWithinMedia(duration: nat, x: int, width: int)
    requires 0 <= x <= width && width > 0
    ensures 0.0 <= TargetMs(duration, x, width) <= duration as real * 1000.0
  {
    var f := x as real / width as real;
    UnitRatio(x, width);
    ScaleWithin(duration as real, f);
  }

  lemma UnitRatio(x: int, width: int)
    requires 0 <= x <= width && width > 0
    ensures 0.0 <= x as real / width as real <= 1.0
  {
  }

  lemma ScaleWithin(d: real, f: real)
    requires d >= 0.0 && 0.0 <= f <= 1.0
    ensures 0.0 <= d * f <= d
  {
  }

  /** A slow preview slot delays the next request: after an enter at 0, a
      move checked at 60 whose preview takes until 90, then a move at 130,
      only the first move is forwarded (130 is 40 ms after the new stamp). */
  lemma SlowSlotExample(s: Slider)
    requires s.width != 0
    ensures var entered := Step(s, Enter(0)).0;
      Passed(entered, [Move(60, 90, 1, 0, 0), Move(130, 130, 2, 0, 0)]) == [Move(60, 90, 1, 0, 0)]
  {
    var entered := Step(s, Enter(0)).0;
    var ms := [Move(60, 90, 1, 0, 0), Move(130, 130, 2, 0, 0)];
    var r1 := Step(entered, Moved(ms[0]));
    assert r1.0.sentStamp == 90;
    assert ms[1..] == [ms[1]];
    assert Passed(r1.0, ms[1..]) == [];
  }

  /** The halfway point of a 100-second slider is 50 s; of a 120-second one, 60 s. */
  lemma TargetExamples()
    ensures TargetMs(100, 50, 100) == 50000.0
    ensures TargetMs(120, 50, 100) == 60000.0
  {
  }
}
