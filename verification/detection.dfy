/** The detector as a whole: sample dark luma points, group them, keep groups of at least
    `MinArea` points, and turn each box into a `DetectedObject`. */
module Detection {
  import opened Geometry
  import opened LumaSampler
  import opened Clustering

  /** The `minArea` the detector passes to the clusterer. */
  const MinArea := 20

  /** A detection result. Width and height are integer pixel extents, so the area is exact;
      the id comes from the rectangle's hash and is opaque here. */
  datatype DetectedObject = DetectedObject(centerX: real, centerY: real, width: int, height: int, id: int) {

    /** `area()`: width times height. */
    function Area(): (a: int)
      ensures width >= 0 && height >= 0 ==> a >= 0
      ensures a == 0 <==> width == 0 || height == 0
    {
      width * height
    }
  }

  /** `Rect.centerX()`: Android computes `(left + right) >> 1`, the midpoint rounded down. */
  function Centre(lo: int, hi: int): (c: int)
    ensures 2 * c <= lo + hi < 2 * c + 2
    ensures lo <= hi ==> lo <= c <= hi
  {
    (lo + hi) / 2
  }

  /** The `Rect` to `DetectedObject` mapping: the extents are the box's `width()` and
      `height()`, the centre is the midpoint rounded down to a whole pixel (so it lies inside a
      well-formed box), and the id is the box's hash. */
  function ToDetectedObject(r: Rect, id: int): (o: DetectedObject)
    ensures o.width == r.right - r.left && o.height == r.bottom - r.top
    ensures o.centerX == Centre(r.left, r.right) as real && o.centerY == Centre(r.top, r.bottom) as real
    ensures r.left <= r.right ==> r.left as real <= o.centerX <= r.right as real
    ensures r.top <= r.bottom ==> r.top as real <= o.centerY <= r.bottom as real
    ensures o.width >= 0 <==> r.left <= r.right
    ensures o.height >= 0 <==> r.top <= r.bottom
    ensures o.Area() == (r.right - r.left) * (r.bottom - r.top)
    ensures o.id == id
  {
    DetectedObject(Centre(r.left, r.right) as real, Centre(r.top, r.bottom) as real, r.Width(), r.Height(), id)
  }

  /** The box a detected object describes: the centre minus half the extent (rounded down),
      then the extent added back. */
  function BoxOf(o: DetectedObject): Rect {
    var left := o.centerX.Floor - o.width / 2;
    var top := o.centerY.Floor - o.height / 2;
    Rect(left, top, left + o.width, top + o.height)
  }

  /** No information about the box is lost: the rectangle can be rebuilt from the object. */
  lemma ToDetectedObjectRoundTrip(r: Rect, id: int)
    ensures BoxOf(ToDetectedObject(r, id)) == r
  {
  }

  /** The `.map { rect -> DetectedObject(...) }` over the clusterer's boxes, in order. */
  function ToDetectedObjects(rects: seq<Rect>, hash: Rect -> int): (objs: seq<DetectedObject>)
    ensures |objs| == |rects|
    ensures forall i :: 0 <= i < |rects| ==> objs[i] == ToDetectedObject(rects[i], hash(rects[i]))
  {
    if |rects| == 0 then [] else [ToDetectedObject(rects[0], hash(rects[0]))] + ToDetectedObjects(rects[1..], hash)
  }

  /** Two distinct points of the sampling grid are never neighbours: their coordinates differ
      by a non-zero multiple of `Step` (8) on some axis, more than the search radius 2. */
  lemma GridPointsNotAdjacent(p: Point, q: Point)
    requires p.x % Step == 0 && p.y % Step == 0
    requires q.x % Step == 0 && q.y % Step == 0
    ensures !Adjacent(p, q)
  {
  }

  /** With grid-aligned input and any `minArea` above 1, the clusterer returns no box. */
  lemma GridInputYieldsNoBoxes(points: seq<Point>, groups: seq<seq<Point>>, minArea: int)
    requires forall p :: p in points ==> p.x % Step == 0 && p.y % Step == 0
    requires IsPartition(groups, points)
    requires minArea > 1
    ensures KeepLarge(groups, minArea) == []
  {
    forall p, q | p in points && q in points
      ensures !Adjacent(p, q)
    {
      GridPointsNotAdjacent(p, q);
    }
    IsolatedPointsFormSingletons(groups, points);
    NothingLargeKeepsNothing(groups, minArea);
  }

  /** `detectMovingObjectsYUVParallel` as written: sampling every 8th pixel while grouping
      neighbours only within distance 2 leaves every group a single point, so with
      `MinArea` 20 the detector never reports an object, whatever the frame holds. */
  method DetectMovingObjects(yuv: seq<SByte>, width: nat, height: nat, hash: Rect -> int)
    returns (objects: seq<DetectedObject>)
    ensures objects == []
  {
    var points := SampleDarkPoints(yuv, width, height);
    var rects, components := GroupDiffPoints(points, MinArea);
    GridInputYieldsNoBoxes(points, components, MinArea);
    objects := ToDetectedObjects(rects, hash);
  }
}
