/** `MyThumbnailDisplay`: the horizontal strip of sampled frames and the
    green playhead line drawn over it. */
module ThumbnailDisplay {
  import opened ProcessTools

  /** A pixmap placed in the scene at `(x, y)`. */
  datatype Placed = Placed(x: int, y: int, image: Thumb)

  /** The strip's state: images added since the last clear, the strip's
      width, the duration in milliseconds, the pixmaps in the scene, the x
      positions of the playhead lines in the scene (the last one is the line
      the widget moves), and the x the view is centred on. */
  datatype Strip = Strip(count: int, totalWidth: int, duration: real,
                         pixmaps: seq<Placed>, lines: seq<real>, centre: real)

  /** Once a duration is set there is a playhead line to move. */
  predicate Valid(s: Strip)
  {
    s.duration != 0.0 ==> |s.lines| > 0
  }

  /** `clearDisplay`: counters back to zero and an empty scene. */
  function ClearDisplay(s: Strip): (r: Strip)
    ensures Valid(r)
    ensures r.count == 0 && r.totalWidth == 0 && r.duration == 0.0
    ensures |r.pixmaps| == 0 && |r.lines| == 0
  {
    Strip(0, 0, 0.0, [], [], s.centre)
  }

  /** Where `addImage` puts the image for sample `pos`. */
  function PlaceOf(img: Thumb, pos: int): Placed
  {
    Placed(pos * img.width, 0, img)
  }

  /** `addImage(img, pos)`: one more pixmap, at `pos` image widths from the
      left; the strip is taken to be one hundred such widths. */
  function AddImage(s: Strip, img: Thumb, pos: int): (r: Strip)
    ensures Valid(s) ==> Valid(r)
    ensures r.pixmaps == s.pixmaps + [PlaceOf(img, pos)]
    ensures r.count == s.count + 1 && r.totalWidth == ThumbBudget * img.width
    ensures r.duration == s.duration && r.lines == s.lines
  {
    s.(pixmaps := s.pixmaps + [PlaceOf(img, pos)], count := s.count + 1,
       totalWidth := ThumbBudget * img.width)
  }

  /** `setDuration(d)`: store `d` seconds as milliseconds and add a new
      playhead line at the left edge (earlier lines stay in the scene). */
  function SetDuration(s: Strip, d: real): (r: Strip)
    ensures Valid(r)
    ensures r.duration / 1000.0 == d
    ensures r.lines == s.lines + [0.0] && r.pixmaps == s.pixmaps
  {
    s.(duration := d * 1000.0, lines := s.lines + [0.0])
  }

  /** `setPosition(pos)`: with a duration set, the playhead and the view
      centre move to the same fraction of the strip as `pos` is of the
      duration; without one nothing happens. */
  function SetPosition(s: Strip, pos: real): (r: Strip)
    requires Valid(s)
    ensures Valid(r)
    ensures s.duration == 0.0 ==> r == s
    ensures s.duration != 0.0 ==>
      |r.lines| == |s.lines| && r.lines[..|s.lines| - 1] == s.lines[..|s.lines| - 1] &&
      r.lines[|r.lines| - 1] == r.centre &&
      r.centre * s.duration == pos * s.totalWidth as real
    ensures r.pixmaps == s.pixmaps && r.duration == s.duration
  {
    if s.duration == 0.0 then s
    else
      var p := pos / s.duration * s.totalWidth as real;
      s.(lines := s.lines[|s.lines| - 1 := p], centre := p)
  }

  /** The playhead sits at the left edge at time 0 and at the right edge at
      the end of the media. */
  lemma PlayheadEnds(s: Strip, d: real)
    requires d != 0.0
    ensures SetPosition(SetDuration(s, d), 0.0).centre == 0.0
    ensures SetPosition(SetDuration(s, d), d * 1000.0).centre == s.totalWidth as real
  {
  }

  /** `f` applied to each element, in order. */
  function MapSeq<A, B>(f: A -> B, s: seq<A>): (r: seq<B>)
    ensures |r| == |s|
  {
    if |s| == 0 then [] else MapSeq(f, s[..|s| - 1]) + [f(s[|s| - 1])]
  }

  lemma {:induction false} MapAppend<A, B>(f: A -> B, a: seq<A>, b: seq<A>)
    ensures MapSeq(f, a + b) == MapSeq(f, a) + MapSeq(f, b)
    decreases |b|
  {
    if |b| == 0 {
      assert a + b == a;
      assert MapSeq(f, a) + [] == MapSeq(f, a);
    } else {
      var init, last := b[..|b| - 1], b[|b| - 1];
      var ab := a + b;
      assert ab[..|ab| - 1] == a + init;
      assert ab[|ab| - 1] == last;
      MapAppend(f, a, init);
      var p := [f(last)];
      assert MapSeq(f, a) + MapSeq(f, init) + p == MapSeq(f, a) + (MapSeq(f, init) + p);
    }
  }

  /** Taking out element `i` of a sequence. */
  lemma SplitMultiset<T>(s: seq<T>, i: int)
    requires 0 <= i < |s|
    ensures multiset(s) == multiset(s[..i] + s[i + 1..]) + multiset{s[i]}
  {
    assert s == s[..i] + ([s[i]] + s[i + 1..]);
  }

  lemma MapAround<A, B>(f: A -> B, l: seq<A>, x: A, r: seq<A>)
    ensures MapSeq(f, l + ([x] + r)) == MapSeq(f, l) + ([f(x)] + MapSeq(f, r))
    ensures MapSeq(f, l + r) == MapSeq(f, l) + MapSeq(f, r)
  {
    MapAppend(f, l, [x] + r);
    MapAppend(f, [x], r);
    MapAppend(f, l, r);
    assert [x][..0] == [];
    assert MapSeq(f, [x]) == [f(x)];
  }

  lemma MultisetAround<T>(l: seq<T>, x: T, r: seq<T>)
    ensures multiset(l + ([x] + r)) == multiset(l + r) + multiset{x}
  {
  }

  lemma SeqAround<T>(s: seq<T>, i: int)
    requires 0 <= i < |s|
    ensures s == s[..i] + ([s[i]] + s[i + 1..])
  {
  }

  /** The mapped sequence splits the same way. */
  lemma MapSplit<A, B>(f: A -> B, s: seq<A>, i: int)
    requires 0 <= i < |s|
    ensures multiset(MapSeq(f, s)) == multiset(MapSeq(f, s[..i] + s[i + 1..])) + multiset{f(s[i])}
  {
    var l, r, x := s[..i], s[i + 1..], s[i];
    var ml, mr, fx := MapSeq(f, l), MapSeq(f, r), f(x);
    calc {
      multiset(MapSeq(f, s));
    == { SeqAround(s, i); MapAround(f, l, x, r); }
      multiset(ml + ([fx] + mr));
    == { MultisetAround(ml, fx, mr); }
      multiset(ml + mr) + multiset{fx};
    == { MapAround(f, l, x, r); }
      multiset(MapSeq(f, l + r)) + multiset{fx};
    }
  }

  lemma Cancel<T>(m: multiset<T>, n: multiset<T>, x: T)
    requires m + multiset{x} == n + multiset{x}
    ensures m == n
  {
    assert m == (m + multiset{x}) - multiset{x};
    assert n == (n + multiset{x}) - multiset{x};
  }

  /** Where an element of a sequence sits. */
  lemma IndexOf<T>(s: seq<T>, x: T) returns (i: int)
    requires x in multiset(s)
    ensures 0 <= i < |s| && s[i] == x
  {
    assert x in s;
    i :| 0 <= i < |s| && s[i] == x;
  }

  /** Removing the same element from two permutations leaves permutations. */
  lemma RemoveFromBoth<T>(a: seq<T>, b: seq<T>, i: int)
    requires multiset(a) == multiset(b) && |a| > 0
    requires 0 <= i < |b| && b[i] == a[0]
    ensures multiset(a[..0] + a[1..]) == multiset(b[..i] + b[i + 1..])
  {
    SplitMultiset(a, 0);
    SplitMultiset(b, i);
    Cancel(multiset(a[..0] + a[1..]), multiset(b[..i] + b[i + 1..]), a[0]);
  }

  /** Mapping a permutation gives a permutation. */
  lemma {:induction false} MapPermute<A, B>(f: A -> B, a: seq<A>, b: seq<A>)
    requires multiset(a) == multiset(b)
    ensures multiset(MapSeq(f, a)) == multiset(MapSeq(f, b))
    decreases |a|
  {
    if |a| == 0 {
      assert |b| == |multiset(b)| == 0;
    } else {
      assert a[0] in multiset(b);
      var i := IndexOf(b, a[0]);
      RemoveFromBoth(a, b, i);
      MapPermute(f, a[..0] + a[1..], b[..i] + b[i + 1..]);
      MapSplit(f, a, 0);
      MapSplit(f, b, i);
    }
  }

  function Place(arrival: (Thumb, int)): Placed
  {
    PlaceOf(arrival.0, arrival.1)
  }

  /** `addImage` for each arrival in turn. */
  function AddAll(s: Strip, arrivals: seq<(Thumb, int)>): (r: Strip)
    ensures Valid(s) ==> Valid(r)
    ensures r.duration == s.duration && r.lines == s.lines
  {
    if |arrivals| == 0 then s
    else
      var last := arrivals[|arrivals| - 1];
      AddImage(AddAll(s, arrivals[..|arrivals| - 1]), last.0, last.1)
  }

  /** The strip gains one pixmap per arrival, in arrival order. */
  lemma {:induction false} AddAllShape(s: Strip, arrivals: seq<(Thumb, int)>)
    ensures AddAll(s, arrivals).pixmaps == s.pixmaps + MapSeq(Place, arrivals)
    ensures AddAll(s, arrivals).count == s.count + |arrivals|
  {
    if |arrivals| > 0 {
      var init := arrivals[..|arrivals| - 1];
      AddAllShape(s, init);
      var p := [Place(arrivals[|arrivals| - 1])];
      assert MapSeq(Place, arrivals) == MapSeq(Place, init) + p;
      assert s.pixmaps + MapSeq(Place, init) + p == s.pixmaps + (MapSeq(Place, init) + p);
    }
  }

  /** The worker threads deliver images in an order the window does not
      control; the strip ends up with the same pixmaps at the same places,
      and the same count, whatever that order. */
  lemma ArrivalOrderIrrelevant(s: Strip, a: seq<(Thumb, int)>, b: seq<(Thumb, int)>)
    requires multiset(a) == multiset(b)
    ensures multiset(AddAll(s, a).pixmaps) == multiset(AddAll(s, b).pixmaps)
    ensures AddAll(s, a).count == AddAll(s, b).count
  {
    AddAllShape(s, a);
    AddAllShape(s, b);
    MapPermute(Place, a, b);
    assert |a| == |multiset(a)| == |b|;
  }

  /** Images of one width `w > 0` for distinct sample indices never overlap
      in the strip. */
  lemma DistinctSamplesApart(img1: Thumb, img2: Thumb, p1: int, p2: int)
    requires img1.width == img2.width > 0 && p1 < p2
    ensures PlaceOf(img1, p1).x + img1.width <= PlaceOf(img2, p2).x
  {
    MulMono(img1.width, p1 + 1, p2);
    assert img1.width * (p1 + 1) == p1 * img1.width + img1.width;
  }
}
