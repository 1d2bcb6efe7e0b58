/** The dark-pixel sampler of the detector (`detectMovingObjectsYUVParallel`) and the
    Y‖V‖U buffer it reads (`toYUVByteArray`). Despite its name the sampler compares each
    sampled luma byte with a fixed brightness bound in ONE frame; no previous frame is used. */
module LumaSampler {
  import opened Wrappers
  import opened Geometry

  /** A Kotlin `Byte`: signed, two's complement. */
  newtype SByte = b: int | -128 <= b < 128

  /** Rows and columns visited: every eighth one, starting at 0. */
  const Step := 8

  /** A sampled pixel is reported when its luma is strictly below this. */
  const DarkBound := 50

  /** `b.toInt() and 0xFF`: the byte read as unsigned, the value in `0..255` that is
      congruent to `b` modulo 256. */
  function Unsigned(b: SByte): (r: int)
    ensures 0 <= r < 256
    ensures r % 256 == b as int % 256
  {
    if b < 0 then b as int + 256 else b as int
  }

  /** `yuvData.take(width * height)`: the first `width * height` bytes, or all of them
      when the buffer is shorter. */
  function Luma(buf: seq<SByte>, width: nat, height: nat): (luma: seq<SByte>)
    ensures |luma| <= width * height && |luma| <= |buf|
    ensures |luma| == width * height || |luma| == |buf|
    ensures luma == buf[..|luma|]
  {
    if |buf| <= width * height then buf else buf[..width * height]
  }

  /** The reference condition for a point to be reported: it lies on the sampling grid inside
      the frame, its row-major index falls inside the luma prefix, and the byte there is dark. */
  predicate Emits(buf: seq<SByte>, width: nat, height: nat, p: Point) {
    var luma := Luma(buf, width, height);
    && p.x % Step == 0 && p.y % Step == 0
    && 0 <= p.x < width && 0 <= p.y < height
    && p.y * width + p.x < |luma|
    && Unsigned(luma[p.y * width + p.x]) < DarkBound
  }

  /** Strict row-major order: rows first, then columns. */
  predicate RowMajorBefore(p: Point, q: Point) {
    p.y < q.y || (p.y == q.y && p.x < q.x)
  }

  /** A grid coordinate `a` in `[b, b + Step)` with `b` on the grid is `b` itself. */
  lemma GridSlot(a: int, b: int)
    requires a % Step == 0 && b % Step == 0
    requires b <= a < b + Step
    ensures a == b
  {
  }

  /** One row's coroutine: the grid points of row `y` that `Emits` describes, left to right. */
  method SampleRow(buf: seq<SByte>, width: nat, height: nat, y: int) returns (row: seq<Point>)
    requires 0 <= y < height && y % Step == 0
    ensures forall p :: p in row <==> Emits(buf, width, height, p) && p.y == y
    ensures forall i, j :: 0 <= i < j < |row| ==> RowMajorBefore(row[i], row[j])
  {
    var luma := Luma(buf, width, height);
    row := [];
    var x := 0;
    while x < width
      invariant x >= 0 && x % Step == 0
      invariant forall p :: p in row <==> Emits(buf, width, height, p) && p.y == y && p.x < x
      invariant forall i, j :: 0 <= i < j < |row| ==> RowMajorBefore(row[i], row[j])
    {
      var index := y * width + x;
      if index < |luma| && Unsigned(luma[index]) < DarkBound {
        row := row + [Point(x, y)];
      }
      forall p | Emits(buf, width, height, p) && p.y == y && x <= p.x < x + Step
        ensures p.x == x
      {
        GridSlot(p.x, x);
      }
      x := x + Step;
    }
  }

  /** The sampler run row after row, as the row-level coroutines would if run one at a time.
      It reports exactly the points `Emits` describes, each once, in row-major order. */
  method SampleDarkPoints(buf: seq<SByte>, width: nat, height: nat) returns (pts: seq<Point>)
    ensures forall p :: p in pts <==> Emits(buf, width, height, p)
    ensures forall i, j :: 0 <= i < j < |pts| ==> pts[i] != pts[j]
  {
    pts := [];
    var y := 0;
    while y < height
      invariant y >= 0 && y % Step == 0
      invariant forall p :: p in pts <==> Emits(buf, width, height, p) && p.y < y
      invariant forall i, j :: 0 <= i < j < |pts| ==> RowMajorBefore(pts[i], pts[j])
    {
      var row := SampleRow(buf, width, height, y);
      forall p | Emits(buf, width, height, p) && y <= p.y < y + Step
        ensures p.y == y
      {
        GridSlot(p.y, y);
      }
      pts := pts + row;
      y := y + Step;
    }
  }

  /** The camera formats the view model distinguishes. */
  datatype ImageFormat = Yuv420_888 | OtherFormat

  /** `toYUVByteArray`: for a YUV_420_888 image, the Y plane, then the V plane, then the U
      plane; any other format yields no buffer. */
  function ToYuvBytes(format: ImageFormat, y: seq<SByte>, u: seq<SByte>, v: seq<SByte>): (r: Option<seq<SByte>>)
    ensures r.Some? <==> format == Yuv420_888
    ensures r.Some? ==> |r.value| == |y| + |u| + |v|
    ensures r.Some? ==> r.value[..|y|] == y && r.value[|y|..|y| + |v|] == v && r.value[|y| + |v|..] == u
  {
    if format != Yuv420_888 then None else Some(y + v + u)
  }

  /** When the Y plane holds at least `width * height` bytes, the sampler sees only luma:
      sampling the concatenated buffer is sampling the Y plane alone. */
  lemma SamplingReadsLumaPlane(y: seq<SByte>, u: seq<SByte>, v: seq<SByte>, width: nat, height: nat, p: Point)
    requires |y| >= width * height
    ensures Emits(ToYuvBytes(Yuv420_888, y, u, v).value, width, height, p) <==> Emits(y, width, height, p)
  {
  }
}
