/** The clock images: which of the sheet's clock variations is drawn and how
    far the two hands are rotated. The sheet's hands are drawn at their
    rest positions: the minute hand on 12, the hour hand on 6. */
module Clock {
  import opened CppArith
  import opened Text
  import opened Svg
  import opened Options

  const BackgroundBase := "background"
  const MinuteBase := "minute"
  const HourBase := "hour"
  const ForegroundBase := "foreground"

  /** The hour at which the sheet's hour hand rests. */
  const HoursSkew := 6

  /** clockVariationsCount: how many clocks the sheet holds, counting
      `background_1`, `background_2`, ... up to the first missing one. */
  method ClockVariationsCount(clocks: Sheet) returns (count: nat)
    ensures forall k :: 1 <= k <= count ==> ElementExists(clocks, Numbered(BackgroundBase, k))
    ensures !ElementExists(clocks, Numbered(BackgroundBase, count + 1))
  {
    count := 0;
    ghost var unseen := clocks.Keys;
    while true
      invariant forall k :: 1 <= k <= count ==> ElementExists(clocks, Numbered(BackgroundBase, k))
      invariant forall k: nat :: k > count && Numbered(BackgroundBase, k) in clocks ==>
                  Numbered(BackgroundBase, k) in unseen
      decreases unseen
    {
      var elementId := Numbered(BackgroundBase, count + 1);
      if ElementExists(clocks, elementId) {
        unseen := unseen - {elementId};
        forall k: nat | k > count + 1 && Numbered(BackgroundBase, k) in clocks
          ensures Numbered(BackgroundBase, k) in unseen
        {
          if Numbered(BackgroundBase, k) == elementId {
            NumberedInjective(BackgroundBase, k, count + 1);
          }
        }
        count := count + 1;
      } else {
        break;
      }
    }
  }

  /** The 1-based variation drawn for a requested variation. */
  function ActualVariation(variation: int, variationsCount: int): (v: int)
    requires variationsCount >= 1
    ensures variation >= 0 ==> 1 <= v <= variationsCount
    ensures variation >= 0 ==> v - 1 == variation % variationsCount
    ensures variation < 0 ==> 2 - variationsCount <= v <= 1
  {
    Rem(variation, variationsCount) + 1
  }

  /** Rotation of the minute hand, in degrees: six per minute. */
  function MinuteRotation(minute: int): (r: int)
    ensures -360 < r < 360
    ensures minute >= 0 ==> 0 <= r < 360 && r == (minute * 6) % 360
  {
    Rem(minute * 6, 360)
  }

  /** Rotation of the hour hand, in degrees, from its rest position on 6. */
  function HourRotation(hour: int, minute: int): (r: int)
    ensures -360 < r < 360
    ensures hour >= 0 && minute >= 0 ==> 0 <= r < 360
  {
    Rem(Quot((hour + HoursSkew) * 360 + MinuteRotation(minute), 12), 360)
  }

  /** Minute 60 shows the same angle as minute 0, and so on around the dial. */
  lemma MinuteRotationPeriodic(minute: int)
    requires minute >= 0
    ensures MinuteRotation(minute + 60) == MinuteRotation(minute)
  {
    assert (minute + 60) * 6 == minute * 6 + 360;
  }

  /** Within an hour the hour hand sits at 30 degrees per hour past its rest
      position plus half a degree per whole two minutes elapsed. */
  lemma {:induction false} HourRotationWithinHour(hour: int, minute: int)
    requires hour >= 0 && 0 <= minute < 60
    ensures HourRotation(hour, minute) == ((hour + HoursSkew) * 30 + minute / 2) % 360
  {
    var n := (hour + HoursSkew) * 360 + MinuteRotation(minute);
    assert MinuteRotation(minute) == minute * 6;
    assert n == 12 * ((hour + HoursSkew) * 30) + minute * 6;
    DivAddMultiple((hour + HoursSkew) * 30, minute * 6);
    assert (minute * 6) / 12 == minute / 2;
    assert Quot(n, 12) == (hour + HoursSkew) * 30 + minute / 2;
  }

  /** Measured from 12 o'clock, because the rest position is on 6, the hour
      hand points at 30 degrees per hour and half a degree per two minutes. */
  lemma HourHandFromTwelve(hour: int, minute: int)
    requires hour >= 0 && 0 <= minute < 60
    ensures (HourRotation(hour, minute) + 180) % 360 == (hour * 30 + minute / 2) % 360
  {
    HourRotationWithinHour(hour, minute);
    var x := hour * 30 + minute / 2;
    assert (hour + HoursSkew) * 30 + minute / 2 == x + 180;
    var r := HourRotation(hour, minute);
    assert r == (x + 180) % 360;
    ModHalfTurn(x + 180);
    ModHalfTurn(x);
    assert (r + 180) % 360 == (x + 360) % 360;
  }

  /** Hours `h` and `h + 12` show the same rotation. */
  lemma {:induction false} HourRotationTwelveHourPeriodic(hour: int, minute: int)
    requires hour >= 0 && minute >= 0
    ensures HourRotation(hour + 12, minute) == HourRotation(hour, minute)
  {
    var n := (hour + HoursSkew) * 360 + MinuteRotation(minute);
    var n' := (hour + 12 + HoursSkew) * 360 + MinuteRotation(minute);
    assert n' == 12 * 360 + n;
    assert n >= 0;
    DivAddMultiple(360, n);
    var h, h' := Quot(n, 12), Quot(n', 12);
    assert h == n / 12 && h' == n' / 12;
    assert h' == h + 360 && h >= 0;
    assert Rem(h', 360) == h' % 360 && Rem(h, 360) == h % 360;
    assert (h + 360) % 360 == h % 360;
  }

  lemma DivAddMultiple(a: int, b: nat)
    requires a >= 0
    ensures (12 * a + b) / 12 == a + b / 12
  {
  }

  lemma ModHalfTurn(y: int)
    requires y >= 0
    ensures (y % 360 + 180) % 360 == (y + 180) % 360 && (y + 360) % 360 == y % 360
  {
    var q, r := y / 360, y % 360;
    assert y == 360 * q + r;
    assert y + 180 == 360 * q + (r + 180);
    assert y + 360 == 360 * (q + 1) + r;
  }

  /** What the clock image is made of: the elements drawn for the chosen
      variation, the two rotations, the background size reported back and
      the pixel size of the image, the background's scaled into the request. */
  datatype ClockFace = ClockFace(
    backgroundId: string,
    minuteHandId: string,
    hourHandId: string,
    foregroundId: Option<string>,
    minuteRotation: int,
    hourRotation: int,
    reportedSize: Size,
    size: Size)

  /** clock: the face for a time and a requested variation, given the number
      of variations the sheet holds. */
  function ClockImage(hour: int, minute: int, variation: int, variationsCount: int,
                      clocks: Sheet, requested: Size, scale: Scaler): (f: ClockFace)
    requires variationsCount >= 1
    ensures f.foregroundId.Some? <==>
              ElementExists(clocks, Numbered(ForegroundBase, ActualVariation(variation, variationsCount)))
    ensures hour >= 0 && minute >= 0 ==> 0 <= f.minuteRotation < 360 && 0 <= f.hourRotation < 360
  {
    var v := ActualVariation(variation, variationsCount);
    var backgroundId := Numbered(BackgroundBase, v);
    var foregroundId := Numbered(ForegroundBase, v);
    var pixmapSize := ToSize(BoundsOnElement(clocks, backgroundId));
    ClockFace(
      backgroundId,
      Numbered(MinuteBase, v),
      Numbered(HourBase, v),
      if ElementExists(clocks, foregroundId) then Some(foregroundId) else None,
      MinuteRotation(minute),
      HourRotation(hour, minute),
      pixmapSize,
      scale(pixmapSize, requested, KeepAspectRatio))
  }

  /** For a non-negative variation on a sheet whose variations `1..count`
      all exist, the background drawn is one of them. */
  lemma ClockBackgroundExists(hour: int, minute: int, variation: int, variationsCount: int,
                              clocks: Sheet, requested: Size, scale: Scaler)
    requires variationsCount >= 1 && variation >= 0
    requires forall k :: 1 <= k <= variationsCount ==> ElementExists(clocks, Numbered(BackgroundBase, k))
    ensures ElementExists(clocks, ClockImage(hour, minute, variation, variationsCount, clocks, requested, scale).backgroundId)
  {
    var v := ActualVariation(variation, variationsCount);
    assert ElementExists(clocks, Numbered(BackgroundBase, v));
  }
}
