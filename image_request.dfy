/** requestPixmap: an image id such as `clock/10/30/2` is split on `/`; the
    first segment names the kind of image and the others are its arguments.
    The dispatch is modelled up to the renderer it selects: a `Route` names
    the renderer and the arguments parsed for it. */
module ImageRequest {
  import opened CppArith
  import opened Text
  import opened Svg
  import opened QuantityGrid
  import opened DesignElements

  const BackgroundKind := "background"
  const SpecialButtonKind := "specialbutton"
  const ButtonKind := "button"
  const FrameKind := "frame"
  const ObjectKind := "object"
  const ClockKind := "clock"
  const NotesKind := "notes"
  const QuantityKind := "quantity"
  const LessonIconKind := "lessonicon"

  /** The renderer an id selects, with its parsed arguments; `NullImage` is
      the null pixmap returned for an id that is rejected. */
  datatype Route =
    | NullImage
    | Background(elementId: string)
    | SpecialButton(elementId: string)
    | Button(variation: int)
    | Frame
    | Object(elementId: string)
    | Clock(hour: int, minute: int, variation: int)
    | Notes(notes: seq<string>)
    | Quantity(quantity: int, item: string)
    | LessonIcon(iconId: string, buttonVariation: int)

  /** The first segment that selects a route. */
  function KindName(r: Route): string
    requires !r.NullImage?
  {
    match r
    case Background(_) => BackgroundKind
    case SpecialButton(_) => SpecialButtonKind
    case Button(_) => ButtonKind
    case Frame => FrameKind
    case Object(_) => ObjectKind
    case Clock(_, _, _) => ClockKind
    case Notes(_) => NotesKind
    case Quantity(_, _) => QuantityKind
    case LessonIcon(_, _) => LessonIconKind
  }

  predicate KnownKind(kind: string)
  {
    kind in {BackgroundKind, SpecialButtonKind, ButtonKind, FrameKind, ObjectKind,
             ClockKind, NotesKind, QuantityKind, LessonIconKind}
  }

  /** The number of segments a kind must have, when it is fixed. */
  function RequiredSegments(kind: string): (n: int)
  {
    if kind == ClockKind then 4
    else if kind == QuantityKind || kind == LessonIconKind then 3
    else 0
  }

  /** The requested size is empty: both sides are below one pixel. */
  predicate EmptyRequest(requested: Size)
  {
    requested.width < 1 && requested.height < 1
  }

  /** requestPixmap's dispatch; `toInt` is QString::toInt. */
  function RequestPixmap(id: string, requested: Size, toInt: string -> int): (r: Route)
    ensures var segs := Split(id, '/');
      && (r.NullImage? <==>
            || EmptyRequest(requested)
            || |segs| < 2
            || !KnownKind(segs[0])
            || (RequiredSegments(segs[0]) != 0 && |segs| != RequiredSegments(segs[0])))
      && (!r.NullImage? ==> KindName(r) == segs[0])
      && (r.Background? || r.SpecialButton? || r.Object? ==> r.elementId == segs[1])
      && (r.Button? ==> r.variation == toInt(segs[1]))
      && (r.Clock? ==> r == Clock(toInt(segs[1]), toInt(segs[2]), toInt(segs[3])))
      && (r.Notes? ==> r.notes == SkipEmptyParts(Split(segs[1], ',')))
      && (r.Quantity? ==> r == Quantity(toInt(segs[1]), segs[2]))
      && (r.LessonIcon? ==> r == LessonIcon(segs[1], toInt(segs[2])))
  {
    var idSegments := Split(id, '/');
    if EmptyRequest(requested) then NullImage
    else if |idSegments| < 2 then NullImage
    else
      var kind := idSegments[0];
      var elementId := idSegments[1];
      if kind == BackgroundKind then Background(elementId)
      else if kind == SpecialButtonKind then SpecialButton(elementId)
      else if kind == ButtonKind then Button(toInt(elementId))
      else if kind == FrameKind then Frame
      else if kind == ObjectKind then Object(elementId)
      else if kind == ClockKind then
        if |idSegments| != 4 then NullImage
        else Clock(toInt(idSegments[1]), toInt(idSegments[2]), toInt(idSegments[3]))
      else if kind == NotesKind then Notes(SkipEmptyParts(Split(elementId, ',')))
      else if kind == QuantityKind then
        if |idSegments| != 3 then NullImage
        else Quantity(toInt(idSegments[1]), idSegments[2])
      else if kind == LessonIconKind then
        if |idSegments| != 3 then NullImage
        else LessonIcon(idSegments[1], toInt(idSegments[2]))
      else NullImage
  }

  /** `toInt` reads back every decimal number. */
  ghost predicate ReadsDecimals(toInt: string -> int)
  {
    forall n: int :: toInt(IntString(n)) == n
  }

  /** A route some id selects: its text arguments hold no `/`, and the notes
      are non-empty and hold no `,`. */
  ghost predicate Addressable(r: Route)
  {
    match r
    case NullImage => false
    case Background(e) => '/' !in e
    case SpecialButton(e) => '/' !in e
    case Object(e) => '/' !in e
    case Quantity(_, item) => '/' !in item
    case LessonIcon(icon, _) => '/' !in icon
    case Notes(notes) =>
      forall i :: 0 <= i < |notes| ==> notes[i] != [] && ',' !in notes[i] && '/' !in notes[i]
    case _ => true
  }

  /** The segments of the id that selects a route. */
  function Segments(r: Route): (segs: seq<string>)
    requires !r.NullImage?
    ensures |segs| >= 2 && segs[0] == KindName(r)
  {
    match r
    case Background(e) => [BackgroundKind, e]
    case SpecialButton(e) => [SpecialButtonKind, e]
    case Button(v) => [ButtonKind, IntString(v)]
    case Frame => [FrameKind, IntString(0)]
    case Object(e) => [ObjectKind, e]
    case Clock(h, m, v) => [ClockKind, IntString(h), IntString(m), IntString(v)]
    case Notes(notes) => [NotesKind, if notes == [] then "" else Join(notes, ',')]
    case Quantity(q, item) => [QuantityKind, IntString(q), item]
    case LessonIcon(icon, v) => [LessonIconKind, icon, IntString(v)]
  }

  /** The id that selects a route. */
  function RouteId(r: Route): string
    requires !r.NullImage?
  {
    Join(Segments(r), '/')
  }

  /** Every addressable route is selected by its id, for any non-empty
      requested size: the dispatch parses back what the id encodes. */
  lemma RequestPixmapRouteId(r: Route, requested: Size, toInt: string -> int)
    requires Addressable(r) && ReadsDecimals(toInt) && !EmptyRequest(requested)
    ensures RequestPixmap(RouteId(r), requested, toInt) == r
  {
    var segs := Segments(r);
    forall i | 0 <= i < |segs|
      ensures '/' !in segs[i]
    {
      SegmentAvoidsSlash(r, i);
    }
    SplitJoin(segs, '/');
    if r.Notes? {
      NotesRouteId(r, requested, toInt);
    } else {
      OtherRouteId(r, requested, toInt);
    }
  }

  lemma NotesRouteId(r: Route, requested: Size, toInt: string -> int)
    requires r.Notes? && Addressable(r) && !EmptyRequest(requested)
    requires Split(RouteId(r), '/') == Segments(r)
    ensures RequestPixmap(RouteId(r), requested, toInt) == r
  {
    if r.notes != [] {
      SplitJoin(r.notes, ',');
      SkipEmptyPartsKeepsNonEmpty(r.notes);
    }
  }

  lemma OtherRouteId(r: Route, requested: Size, toInt: string -> int)
    requires !r.Notes? && Addressable(r) && ReadsDecimals(toInt) && !EmptyRequest(requested)
    requires Split(RouteId(r), '/') == Segments(r)
    ensures RequestPixmap(RouteId(r), requested, toInt) == r
  {
  }

  lemma SegmentAvoidsSlash(r: Route, i: nat)
    requires Addressable(r) && i < |Segments(r)|
    ensures '/' !in Segments(r)[i]
  {
    match r
    case Button(v) => IntStringAvoids(v, '/');
    case Frame => IntStringAvoids(0, '/');
    case Clock(h, m, v) =>
      IntStringAvoids(h, '/');
      IntStringAvoids(m, '/');
      IntStringAvoids(v, '/');
    case Quantity(q, _) => IntStringAvoids(q, '/');
    case LessonIcon(_, v) => IntStringAvoids(v, '/');
    case Notes(notes) =>
      if notes != [] {
        JoinAvoids(notes, ',', '/');
      }
    case _ =>
  }

  /** As written: `quantity/0/apple` reaches the quantity layout with no
      items, where the column count is zero and the last-row count at line
      115 takes a remainder by zero. */
  lemma QuantityZeroReachesLayout(requested: Size, toInt: string -> int)
    requires ReadsDecimals(toInt) && !EmptyRequest(requested)
    ensures RequestPixmap("quantity/0/apple", requested, toInt) == Quantity(0, "apple")
    ensures !ValidQuantity(0) && CeilSqrt(0) == 0
  {
    assert IntString(0) == "0";
    assert RouteId(Quantity(0, "apple")) == "quantity/0/apple";
    RequestPixmapRouteId(Quantity(0, "apple"), requested, toInt);
  }

  /** As written: `button/-1` reaches the design-element pick with a
      negative variation, whose index into a group of two is negative. */
  lemma NegativeButtonVariation(requested: Size, toInt: string -> int)
    requires ReadsDecimals(toInt) && !EmptyRequest(requested)
    ensures RequestPixmap("button/-1", requested, toInt) == Button(-1)
    ensures VariationIndex(-1, 2) == -1
  {
    assert IntString(-1) == "-1";
    assert RouteId(Button(-1)) == "button/-1";
    assert Abs(-1) == 1 && Abs(2) == 2 && 1 % 2 == 1;
    RequestPixmapRouteId(Button(-1), requested, toInt);
  }

  /** The dispatch with the quantity and the variations checked: a quantity
      below one and a negative button variation give the null pixmap. */
  function RequestPixmapChecked(id: string, requested: Size, toInt: string -> int): (r: Route)
    ensures r.Quantity? ==> ValidQuantity(r.quantity)
    ensures r.Button? ==> r.variation >= 0
    ensures r.LessonIcon? ==> r.buttonVariation >= 0
    ensures var raw := RequestPixmap(id, requested, toInt);
      r == (if || (raw.Quantity? && !ValidQuantity(raw.quantity))
               || (raw.Button? && raw.variation < 0)
               || (raw.LessonIcon? && raw.buttonVariation < 0)
            then NullImage else raw)
  {
    var r := RequestPixmap(id, requested, toInt);
    match r
    case Quantity(q, _) => if ValidQuantity(q) then r else NullImage
    case Button(v) => if v >= 0 then r else NullImage
    case LessonIcon(_, v) => if v >= 0 then r else NullImage
    case _ => r
  }
}
