/** One pixel of a stack of layers: what software composition makes of it, and what the client target
    makes of it when the place of one layer in it is cleared and a video plane is put behind. */
module Blending {

  /** A premultiplied sample: one colour channel and the coverage. */
  datatype Sample = Sample(color: real, alpha: real) {
    ghost predicate Valid() {
      0.0 <= color <= alpha <= 1.0
    }
  }

  const TRANSPARENT := Sample(0.0, 0.0)

  /** A layer at a pixel, with what software draws of it: drawn by the client; or the video layer, and
      whether the client erases its place; or a device layer that nobody shows; or not there. */
  datatype Cell =
    | Drawn(sample: Sample)
    | Video(sample: Sample, erases: bool)
    | Lost(sample: Sample)
    | Absent

  /** Blending a premultiplied sample over an opaque colour. */
  function Mix(top: Sample, below: real): real {
    top.color + (1.0 - top.alpha) * below
  }

  /** Blending it over a premultiplied sample. */
  function Over(top: Sample, below: Sample): Sample {
    Sample(Mix(top, below.color), Mix(Sample(top.alpha, top.alpha), below.alpha))
  }

  /** Everything composed in software on a black screen. */
  function Software(column: seq<Cell>): real {
    if column == [] then 0.0
    else
      var below := Software(column[..|column| - 1]);
      match column[|column| - 1]
      case Drawn(s) => Mix(s, below)
      case Video(s, _) => Mix(s, below)
      case Lost(s) => Mix(s, below)
      case Absent => below
  }

  /** The client target. */
  function Client(column: seq<Cell>): Sample {
    if column == [] then TRANSPARENT
    else
      var below := Client(column[..|column| - 1]);
      match column[|column| - 1]
      case Drawn(s) => Over(s, below)
      case Video(_, erases) => if erases then TRANSPARENT else below
      case Lost(_) => below
      case Absent => below
  }

  /** What the client layers of the column let through. */
  function Through(column: seq<Cell>): real {
    if column == [] then 1.0
    else
      var below := Through(column[..|column| - 1]);
      match column[|column| - 1]
      case Drawn(s) => (1.0 - s.alpha) * below
      case _ => below
  }

  ghost predicate ValidCell(cell: Cell) {
    match cell
    case Drawn(s) => s.Valid()
    case Video(s, _) => s.Valid()
    case Lost(_) => false
    case Absent => true
  }

  ghost predicate ValidColumn(column: seq<Cell>) {
    forall cell <- column :: ValidCell(cell)
  }

  /** The layers the client draws, and layers that are not there. */
  ghost predicate ClientOnly(column: seq<Cell>) {
    forall cell <- column :: cell.Drawn? || cell.Absent?
  }

  ghost predicate AllAbsent(column: seq<Cell>) {
    forall cell <- column :: cell.Absent?
  }

  /** Client layers only: the client target is the software picture. */
  lemma {:induction false} ClientIsSoftware(column: seq<Cell>)
    requires ClientOnly(column)
    ensures Client(column).color == Software(column)
  {
    if column != [] {
      ClientIsSoftware(column[..|column| - 1]);
    }
  }

  lemma {:induction false} NothingThere(column: seq<Cell>)
    requires AllAbsent(column)
    ensures Client(column) == TRANSPARENT && Software(column) == 0.0 && Through(column) == 1.0
  {
    if column != [] {
      assert column[|column| - 1] in column;
      NothingThere(column[..|column| - 1]);
    }
  }

  /** What a plane of the given colour misses of the software picture of the video layer and what is below
      it, seen through the layers above. */
  function Gap(column: seq<Cell>, at: nat, plane: real): real
    requires at < |column|
  {
    GapOf(Through(column[at + 1..]), Software(column[..at + 1]), plane)
  }

  function GapOf(t: real, missed: real, plane: real): real {
    t * (plane - missed)
  }

  /** A client target that lets through t, and lacks what it lets through of a colour. */
  ghost predicate Lacks(target: Sample, exact: real, t: real, missed: real) {
    1.0 - target.alpha == t && target.color == exact - t * missed
  }

  /** The client target of a punched column, by induction over the layers above the video layer: it lets
      through what they let through, and of the software picture it lacks what they let through of the
      video layer and what is below it. */
  lemma {:induction false} PunchedTarget(column: seq<Cell>, at: nat)
    requires at < |column| && column[at].Video?
    requires column[at].erases || Client(column[..at]) == TRANSPARENT
    requires ClientOnly(column[at + 1..])
    ensures Lacks(Client(column), Software(column), Through(column[at + 1..]), Software(column[..at + 1]))
  {
    var n := |column| - 1;
    if at == n {
      assert column[..n + 1] == column && column[n + 1..] == [];
      Erased(Software(column));
    } else {
      var below := column[..n];
      assert below[..at] == column[..at] && below[..at + 1] == column[..at + 1];
      LayersAbove(column, at);
      PunchedTarget(below, at);
      ThroughGrows(column, at);
      if column[n].Drawn? {
        LayerAbove(column[n].sample, Client(below), Software(below), Through(below[at + 1..]),
                   Software(column[..at + 1]));
        DrawnOnTop(column);
      }
    }
  }

  lemma DrawnOnTop(column: seq<Cell>)
    requires column != [] && column[|column| - 1].Drawn?
    ensures var top, below := column[|column| - 1].sample, column[..|column| - 1];
            Client(column) == Over(top, Client(below)) && Software(column) == Mix(top, Software(below))
  {
  }

  lemma Erased(exact: real)
    ensures Lacks(TRANSPARENT, exact, 1.0, exact)
  {
  }

  /** One more client layer on top. */
  lemma LayerAbove(top: Sample, client: Sample, exact: real, t: real, missed: real)
    requires Lacks(client, exact, t, missed)
    ensures Lacks(Over(top, client), Mix(top, exact), (1.0 - top.alpha) * t, missed)
  {
    var k := 1.0 - top.alpha;
    assert k * client.color == k * exact - k * (t * missed);
    assert k * (t * missed) == (k * t) * missed;
  }

  /** The client target blended over a plane of any colour misses the software picture by exactly the gap. */
  lemma PunchedPixel(column: seq<Cell>, at: nat, plane: real)
    requires at < |column| && column[at].Video?
    requires column[at].erases || Client(column[..at]) == TRANSPARENT
    requires ClientOnly(column[at + 1..])
    ensures Mix(Client(column), plane) - Software(column) == Gap(column, at, plane)
  {
    PunchedTarget(column, at);
    OverPlane(Client(column), Software(column), Through(column[at + 1..]), Software(column[..at + 1]), plane);
  }

  lemma OverPlane(target: Sample, exact: real, t: real, missed: real, plane: real)
    requires Lacks(target, exact, t, missed)
    ensures Mix(target, plane) - exact == GapOf(t, missed, plane)
  {
    assert (1.0 - target.alpha) * plane == t * plane;
  }

  lemma LayersAbove(column: seq<Cell>, at: nat)
    requires at < |column| - 1 && ClientOnly(column[at + 1..])
    ensures var top := column[|column| - 1];
            ClientOnly(column[..|column| - 1][at + 1..]) && (top.Drawn? || top.Absent?)
  {
    var n := |column| - 1;
    assert column[n] == column[at + 1..][n - at - 1];
    assert column[..n][at + 1..] == column[at + 1..][..n - at - 1];
  }

  lemma ThroughGrows(column: seq<Cell>, at: nat)
    requires at < |column| - 1
    ensures var top, below := column[|column| - 1], Through(column[..|column| - 1][at + 1..]);
            Through(column[at + 1..]) == if top.Drawn? then (1.0 - top.sample.alpha) * below else below
  {
    var n, above := |column| - 1, column[at + 1..];
    assert above[|above| - 1] == column[n];
    assert above[..|above| - 1] == column[..n][at + 1..];
  }

  lemma UpToVideo(column: seq<Cell>, at: nat)
    requires at < |column| && column[at].Video?
    ensures Software(column[..at + 1]) == Mix(column[at].sample, Software(column[..at]))
  {
    assert column[..at + 1][..at] == column[..at];
  }

  /** At an opaque video layer of plane alpha p that the plane shows unfaded, the gap is the share that p
      lacks to 1 of the difference between the video's colour and what is below it. */
  lemma OpaqueGap(column: seq<Cell>, at: nat, color: real, p: real)
    requires at < |column| && column[at].Video? && column[at].sample == Sample(p * color, p)
    ensures Gap(column, at, color) == Through(column[at + 1..]) * ((1.0 - p) * (color - Software(column[..at])))
  {
    UpToVideo(column, at);
    VideoShare(color, p, Software(column[..at]));
    SameFactor(Through(column[at + 1..]), color - Software(column[..at + 1]),
               (1.0 - p) * (color - Software(column[..at])));
  }

  lemma VideoShare(color: real, p: real, below: real)
    ensures color - Mix(Sample(p * color, p), below) == (1.0 - p) * (color - below)
  {
  }

  lemma SameFactor(t: real, a: real, b: real)
    requires a == b
    ensures t * a == t * b
  {
  }

  // How large the gap can be.

  lemma NotNegative(a: real, b: real)
    requires 0.0 <= a && 0.0 <= b
    ensures 0.0 <= a * b
  {
  }

  lemma Fraction(k: real, a: real) returns (share: real)
    requires 0.0 <= k <= 1.0 && 0.0 <= a
    ensures share == k * a && 0.0 <= share <= a
  {
    share := k * a;
    NotNegative(k, a);
    NotNegative(1.0 - k, a);
    assert (1.0 - k) * a == a - share;
  }

  lemma MixInRange(top: Sample, below: real)
    requires top.Valid() && 0.0 <= below <= 1.0
    ensures 0.0 <= Mix(top, below) <= 1.0
  {
    var share := Fraction(below, 1.0 - top.alpha);
    assert Mix(top, below) == top.color + share;
  }

  lemma ScaledIsValid(p: real, s: Sample)
    requires 0.0 <= p <= 1.0 && s.Valid()
    ensures Sample(p * s.color, p * s.alpha).Valid()
  {
    var color := Fraction(p, s.color);
    var rest := Fraction(p, s.alpha - s.color);
    var alpha := Fraction(p, s.alpha);
    assert alpha == color + rest;
  }

  lemma {:induction false} SoftwareInRange(column: seq<Cell>)
    requires ValidColumn(column)
    ensures 0.0 <= Software(column) <= 1.0
  {
    if column != [] {
      var n := |column| - 1;
      SoftwareInRange(column[..n]);
      assert ValidCell(column[n]);
      match column[n]
      case Drawn(s) => MixInRange(s, Software(column[..n]));
      case Video(s, _) => MixInRange(s, Software(column[..n]));
      case _ =>
    }
  }

  lemma {:induction false} ThroughInRange(column: seq<Cell>)
    requires ValidColumn(column)
    ensures 0.0 <= Through(column) <= 1.0
  {
    if column != [] {
      var n := |column| - 1;
      ThroughInRange(column[..n]);
      assert ValidCell(column[n]);
      if column[n].Drawn? {
        var _ := Fraction(1.0 - column[n].sample.alpha, Through(column[..n]));
      }
    }
  }

  /** A share of at most q either way. */
  lemma Between(q: real, d: real) returns (e: real)
    requires 0.0 <= q && -1.0 <= d <= 1.0
    ensures e == q * d && -q <= e <= q
  {
    e := q * d;
    NotNegative(q, 1.0 - d);
    NotNegative(q, 1.0 + d);
    assert q * (1.0 - d) == q - e && q * (1.0 + d) == q + e;
  }

  lemma Shrinks(t: real, x: real, q: real)
    requires 0.0 <= t <= 1.0 && -q <= x <= q
    ensures -q <= t * x <= q
  {
    var share := Fraction(t, q);
    NotNegative(t, q - x);
    NotNegative(t, q + x);
    assert t * (q - x) == share - t * x && t * (q + x) == share + t * x;
  }

  lemma GapIsSmall(column: seq<Cell>, at: nat, color: real, p: real)
    requires ValidColumn(column) && at < |column| && column[at].Video? && column[at].sample == Sample(p * color, p)
    requires 0.0 <= color <= 1.0 && 0.0 <= p <= 1.0
    ensures -(1.0 - p) <= Gap(column, at, color) <= 1.0 - p
  {
    OpaqueGap(column, at, color, p);
    SoftwareInRange(column[..at]);
    ThroughInRange(column[at + 1..]);
    var t, d := Through(column[at + 1..]), color - Software(column[..at]);
    var e := Between(1.0 - p, d);
    SameFactor(t, e, (1.0 - p) * d);
    Shrinks(t, e, 1.0 - p);
  }

  lemma NoGap(column: seq<Cell>, at: nat, plane: real)
    requires at < |column|
    ensures Gap(column, at, plane) == 0.0
            <==> Through(column[at + 1..]) == 0.0 || plane == Software(column[..at + 1])
  {
    ZeroProduct(Through(column[at + 1..]), plane - Software(column[..at + 1]));
  }

  lemma ZeroProduct(a: real, b: real)
    ensures a * b == 0.0 <==> a == 0.0 || b == 0.0
  {
  }

  // Layers above that hide everything or let something through, and layers below that are dark or not.

  lemma {:induction false} Hidden(column: seq<Cell>, k: nat)
    requires k < |column| && column[k].Drawn? && column[k].sample.alpha == 1.0
    ensures Through(column) == 0.0
  {
    var n := |column| - 1;
    if k < n {
      Hidden(column[..n], k);
    }
  }

  lemma {:induction false} LetThrough(column: seq<Cell>)
    requires forall cell <- column :: cell.Absent? || (cell.Drawn? && 0.0 <= cell.sample.alpha < 1.0)
    ensures 0.0 < Through(column)
  {
    if column != [] {
      var n := |column| - 1;
      assert column[n] in column;
      LetThrough(column[..n]);
      if column[n].Drawn? {
        Positive(1.0 - column[n].sample.alpha, Through(column[..n]));
      }
    }
  }

  lemma Positive(a: real, b: real)
    requires 0.0 < a && 0.0 < b
    ensures 0.0 < a * b
  {
  }

  lemma {:induction false} Dark(column: seq<Cell>)
    requires forall cell <- column :: cell.Absent? || (cell.Drawn? && cell.sample.color == 0.0)
    ensures Software(column) == 0.0
  {
    if column != [] {
      assert column[|column| - 1] in column;
      Dark(column[..|column| - 1]);
    }
  }

  /** Not there, or a faded white. */
  ghost predicate WhiteCell(cell: Cell) {
    cell.Absent? || (cell.Drawn? && cell.sample.Valid() && cell.sample.color == cell.sample.alpha)
  }

  lemma {:induction false} Bright(column: seq<Cell>, k: nat)
    requires forall cell <- column :: WhiteCell(cell)
    requires k < |column| && column[k].Drawn? && 0.0 < column[k].sample.color
    ensures 0.0 < Software(column)
  {
    var n := |column| - 1;
    assert column[n] in column;
    forall cell <- column[..n]
      ensures ValidCell(cell)
    {
      assert cell in column;
      assert WhiteCell(cell);
    }
    SoftwareInRange(column[..n]);
    if k < n {
      Bright(column[..n], k);
    }
    if column[n].Drawn? {
      WhiteOver(column[n].sample.alpha, Software(column[..n]));
    }
  }

  lemma WhiteOver(alpha: real, below: real)
    requires 0.0 <= alpha <= 1.0 && 0.0 <= below && (0.0 < alpha || 0.0 < below)
    ensures 0.0 < Mix(Sample(alpha, alpha), below)
  {
    NotNegative(1.0 - alpha, below);
    if alpha == 0.0 {
      assert (1.0 - alpha) * below == below;
    }
  }

  // The same of the layers above and below a given one.

  lemma HiddenAbove(column: seq<Cell>, at: nat, k: nat)
    requires at < k < |column| && column[k].Drawn? && column[k].sample.alpha == 1.0
    ensures Through(column[at + 1..]) == 0.0
  {
    Hidden(column[at + 1..], k - at - 1);
  }

  lemma LetThroughAbove(column: seq<Cell>, at: nat)
    requires at < |column|
    requires forall k :: at < k < |column| ==>
               column[k].Absent? || (column[k].Drawn? && 0.0 <= column[k].sample.alpha < 1.0)
    ensures 0.0 < Through(column[at + 1..])
  {
    LetThrough(column[at + 1..]);
  }

  lemma DarkBelow(column: seq<Cell>, at: nat)
    requires at < |column|
    requires forall k :: 0 <= k < at ==>
               column[k].Absent? || (column[k].Drawn? && column[k].sample.color == 0.0)
    ensures Software(column[..at]) == 0.0
  {
    Dark(column[..at]);
  }

  lemma BrightBelow(column: seq<Cell>, at: nat, k: nat)
    requires k < at < |column| && column[k].Drawn? && 0.0 < column[k].sample.color
    requires forall j :: 0 <= j < at ==> WhiteCell(column[j])
    ensures 0.0 < Software(column[..at])
  {
    Bright(column[..at], k);
  }
}
