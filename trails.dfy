/** The animated trails of the renderer.  Every city record holds a fixed
    anchor (its projected position), a fixed colour and a list of trail points
    that each animation tick extends by a random step; when the list grows
    past its capacity it snaps back to the anchor.  Random draws are inputs,
    and the line a tick draws is returned as a segment. */
module Trails {
  import opened Projection
  import opened Palette
  import opened Wrappers

  /** Most points a trail holds. */
  const Capacity: nat := 120

  /** Each step moves each coordinate by a draw in [-Jitter, Jitter). */
  const Jitter: real := 8.0

  predicate InJitter(d: real) {
    -Jitter <= d < Jitter
  }

  /** The line a tick draws, in the city's colour. */
  datatype Segment = Segment(from: Point, to: Point, color: Rgb)

  /** A trail is at most Capacity long and, unless empty, starts at its anchor. */
  predicate TrailInvariant(lines: seq<Point>, anchor: Point) {
    |lines| <= Capacity && (lines != [] ==> lines[0] == anchor)
  }

  /** The trail after the empty-list seeding at the start of a tick. */
  function Seeded(lines: seq<Point>, anchor: Point): (s: seq<Point>)
    ensures s != []
  {
    if lines == [] then [anchor] else lines
  }

  function Last(s: seq<Point>): Point
    requires s != []
  {
    s[|s| - 1]
  }

  /** The point a tick appends: the last point moved by (dx, dy). */
  function NextPoint(lines: seq<Point>, anchor: Point, dx: real, dy: real): Point {
    var last := Last(Seeded(lines, anchor));
    Point(last.x + dx, last.y + dy)
  }

  /** The trail after one tick: seed if empty, append the next point, and
      collapse to the anchor alone if the result is over capacity. */
  function Step(lines: seq<Point>, anchor: Point, dx: real, dy: real): (r: seq<Point>)
    ensures 1 <= |r|
    ensures |lines| <= Capacity ==> |r| <= Capacity
    ensures (lines == [] || lines[0] == anchor) ==> r[0] == anchor
    ensures |Seeded(lines, anchor)| < Capacity ==> r == Seeded(lines, anchor) + [NextPoint(lines, anchor, dx, dy)]
    ensures |Seeded(lines, anchor)| >= Capacity ==> r == [anchor]
  {
    var grown := Seeded(lines, anchor) + [NextPoint(lines, anchor, dx, dy)];
    if |grown| > Capacity then [anchor] else grown
  }

  /** The segment a tick draws: from the last point before the step to the
      appended point, drawn even on the tick that collapses the trail. */
  function StepSegment(lines: seq<Point>, anchor: Point, color: Rgb, dx: real, dy: real): (seg: Segment)
    ensures seg.from == Last(Seeded(lines, anchor))
    ensures |Seeded(lines, anchor)| < Capacity ==> seg.to == Last(Step(lines, anchor, dx, dy))
    ensures seg.color == color
    ensures seg.to == Point(seg.from.x + dx, seg.from.y + dy)
    ensures InJitter(dx) && InJitter(dy) ==>
              -Jitter <= seg.to.x - seg.from.x < Jitter && -Jitter <= seg.to.y - seg.from.y < Jitter
  {
    Segment(Last(Seeded(lines, anchor)), NextPoint(lines, anchor, dx, dy), color)
  }

  /** Ticks with jitter draws js applied one after another. */
  function Run(lines: seq<Point>, anchor: Point, js: seq<(real, real)>): seq<Point>
    decreases |js|
  {
    if js == [] then lines else Run(Step(lines, anchor, js[0].0, js[0].1), anchor, js[1..])
  }

  /** An empty trail is seeded and stepped in the same tick. */
  lemma StepFromEmpty(anchor: Point, dx: real, dy: real)
    ensures Step([], anchor, dx, dy) == [anchor, Point(anchor.x + dx, anchor.y + dy)]
  {
  }

  /** Lengths cycle with period Capacity: a trail of length n (1..Capacity)
      has length ((n - 1 + k) mod Capacity) + 1 after k ticks. */
  lemma {:induction false} RunLength(lines: seq<Point>, anchor: Point, js: seq<(real, real)>)
    requires 1 <= |lines| <= Capacity
    ensures |Run(lines, anchor, js)| == (|lines| - 1 + |js|) % Capacity + 1
    decreases |js|
  {
    if js != [] {
      var next := Step(lines, anchor, js[0].0, js[0].1);
      RunLength(next, anchor, js[1..]);
      var k := |js| - 1;
      if |lines| < Capacity {
        assert |next| == |lines| + 1;
        assert |next| - 1 + k == |lines| - 1 + |js|;
      } else {
        assert |next| == 1;
        ModShift(k);
      }
    }
  }

  lemma ModShift(k: nat)
    ensures (k + Capacity) % Capacity == k % Capacity
  {
  }

  /** From an empty trail: the first tick gives two points, every further
      tick adds one, and the tick whose push would reach Capacity + 1 leaves
      the anchor alone. */
  lemma RunFromEmpty(anchor: Point, js: seq<(real, real)>)
    requires js != []
    ensures |Run([], anchor, js)| == |js| % Capacity + 1
    ensures |js| == Capacity ==> Run([], anchor, js) == [anchor]
  {
    var first := Step([], anchor, js[0].0, js[0].1);
    assert first == Step([anchor], anchor, js[0].0, js[0].1);
    RunLength(first, anchor, js[1..]);
    if |js| == Capacity {
      RunResets([anchor], anchor, js);
    }
  }

  /** A run that brings the trail to Capacity + 1 ends at the anchor alone. */
  lemma {:induction false} RunResets(lines: seq<Point>, anchor: Point, js: seq<(real, real)>)
    requires 1 <= |lines| <= Capacity && |lines| + |js| == Capacity + 1
    ensures Run(lines, anchor, js) == [anchor]
    decreases |js|
  {
    var next := Step(lines, anchor, js[0].0, js[0].1);
    if |lines| == Capacity {
      assert next == [anchor];
      assert js[1..] == [];
    } else {
      RunResets(next, anchor, js[1..]);
    }
  }

  /** A city: name, coordinates and temperature from intake, its projected
      anchor and palette colour (all fixed once created) and its trail. */
  class City {
    const name: string
    const lat: real
    const lon: real
    const temp: real
    const x: real
    const y: real
    const color: Rgb
    var lines: seq<Point>

    function Anchor(): Point {
      Point(x, y)
    }

    ghost predicate Valid()
      reads this
    {
      TrailInvariant(lines, Anchor())
    }

    constructor (name: string, lat: real, lon: real, temp: real, width: real, height: real)
      ensures this.name == name && this.lat == lat && this.lon == lon && this.temp == temp
      ensures Anchor() == LatLonToXY(lat, lon, width, height)
      ensures color == TempToColor(temp)
      ensures lines == []
      ensures Valid()
    {
      var pos := LatLonToXY(lat, lon, width, height);
      this.name, this.lat, this.lon, this.temp := name, lat, lon, temp;
      x, y := pos.x, pos.y;
      color := TempToColor(temp);
      lines := [];
    }

    /** One animation tick for this city, given the two random draws. */
    method Tick(dx: real, dy: real) returns (seg: Segment)
      requires InJitter(dx) && InJitter(dy)
      modifies this
      ensures lines == Step(old(lines), Anchor(), dx, dy)
      ensures seg == StepSegment(old(lines), Anchor(), color, dx, dy)
      ensures old(Valid()) ==> Valid()
    {
      if |lines| == 0 {
        lines := lines + [Point(x, y)];
      }
      var lastPoint := lines[|lines| - 1];
      var nextPoint := Point(lastPoint.x + dx, lastPoint.y + dy);
      lines := lines + [nextPoint];
      seg := Segment(lastPoint, nextPoint, color);
      if |lines| > Capacity {
        lines := lines[1..];
        lines := [Point(x, y)];
      }
    }
  }

  /** What city intake delivers once both lookups succeed. */
  datatype Reading = Reading(lat: real, lon: real, temp: real)

  /** The ordered list of cities; cities are only ever appended. */
  class Registry {
    var cities: seq<City>

    /** No city occurs twice, so ticking one leaves the others alone. */
    predicate Distinct()
      reads this
    {
      forall i, j :: 0 <= i < j < |cities| ==> cities[i] != cities[j]
    }

    ghost predicate Valid()
      reads this, cities
    {
      Distinct() && forall i :: 0 <= i < |cities| ==> cities[i].Valid()
    }

    constructor ()
      ensures cities == [] && Valid()
    {
      cities := [];
    }

    /** Adds a city from the intake outcome: nothing happens when the name
        was not found (or fetching failed); otherwise a new city with an
        empty trail is appended. */
    method AddCity(name: string, found: Option<Reading>, width: real, height: real) returns (added: bool)
      requires Valid()
      modifies this
      ensures Valid()
      ensures added <==> found.Some?
      ensures !added ==> cities == old(cities)
      ensures added ==> |cities| == |old(cities)| + 1 && cities[..|old(cities)|] == old(cities)
      ensures added ==> fresh(cities[|cities| - 1])
      ensures added ==> var c := cities[|cities| - 1];
                c.name == name && c.lat == found.value.lat && c.lon == found.value.lon
                && c.temp == found.value.temp && c.lines == []
                && c.Anchor() == LatLonToXY(found.value.lat, found.value.lon, width, height)
                && c.color == TempToColor(found.value.temp)
    {
      match found
      case None =>
        added := false;
      case Some(reading) =>
        var city := new City(name, reading.lat, reading.lon, reading.temp, width, height);
        cities := cities + [city];
        added := true;
    }

    /** One animation frame: ticks every city in order, the i-th with the
        i-th pair of random draws, and returns the drawn segments in order. */
    method Draw(jitter: seq<(real, real)>) returns (segments: seq<Segment>)
      requires Valid()
      requires |jitter| == |cities|
      requires forall i :: 0 <= i < |jitter| ==> InJitter(jitter[i].0) && InJitter(jitter[i].1)
      modifies cities
      ensures Valid() && cities == old(cities)
      ensures |segments| == |cities|
      ensures forall i :: 0 <= i < |cities| ==>
                cities[i].lines == Step(old(cities[i].lines), cities[i].Anchor(), jitter[i].0, jitter[i].1)
                && segments[i] == StepSegment(old(cities[i].lines), cities[i].Anchor(), cities[i].color, jitter[i].0, jitter[i].1)
    {
      segments := [];
      var i := 0;
      while i < |cities|
        invariant 0 <= i <= |cities| && |segments| == i
        invariant Valid()
        invariant forall j :: 0 <= j < i ==>
                    cities[j].lines == Step(old(cities[j].lines), cities[j].Anchor(), jitter[j].0, jitter[j].1)
                    && segments[j] == StepSegment(old(cities[j].lines), cities[j].Anchor(), cities[j].color, jitter[j].0, jitter[j].1)
        invariant forall j :: i <= j < |cities| ==> cities[j].lines == old(cities[j].lines)
      {
        label BeforeTick:
        var seg := cities[i].Tick(jitter[i].0, jitter[i].1);
        assert forall j :: 0 <= j < |cities| && j != i ==> cities[j].lines == old@BeforeTick(cities[j].lines);
        segments := segments + [seg];
        i := i + 1;
      }
    }
  }
}
