# Touch'n'learn image provider and audio feedback, modelled in Dafny

Touch'n'learn is a children's learning game. This project models two of its parts.

**The image provider.** The user interface asks it for images by id, for example `clock/10/30/2`, `button/3` or `quantity/7/apple`. The id is split on `/`: the first segment names the kind of image and the others are its arguments. The dispatch picks one of these renderers:

- **Sheet elements.** An element of a vector sheet (background, special button, object) is scaled to the requested size.
- **Design elements.** The buttons and frames of the design sheet come in numbered variations (`button_1`, `button_2`, ...). Variations are grouped by their width-to-height ratio. A request picks the group whose ratio is nearest the requested one, and then a variation inside that group.
- **Clocks.** A clock face is chosen from the clock sheet's numbered variations. Its two hands are rotated to the requested time.
- **Quantities.** `q` countable items are laid out on a nearly square grid. One of eight pictures is drawn at random for each item, and the last row is centred.

**The audio feedback object.** It holds:

- the audio volume;
- the lists of "correct" and "incorrect" sounds, read from the data directory by file-name prefix;
- the rule that plays a random sound from a list, never the same one twice in a row;
- the volume keys, each of which changes the volume by 20 within 0 to 100.

The project has one Dafny module per concern. All modules are checked together.

| file | module | what it holds |
|---|---|---|
| `option.dfy` | `Options` | `Option` |
| `text.dfy` | `Text` | decimal numbers, numbered element ids, prefix test, split and join on a separator, skipping empty parts |
| `cpp_arith.dfy` | `CppArith` | C++ truncating integer division and remainder |
| `svg.dfy` | `Svg` | sheets as maps from element id to bounds, `qRound`/`toSize`, the `renderedSvgElement` rule |
| `design_elements.dfy` | `DesignElements` | `elementsWithSizes` (grouping and sorting by ratio), the nearest-ratio pick, `renderedDesignElement` |
| `clock.dfy` | `Clock` | `clockVariationsCount`, the chosen variation, the hand rotations, the clock image |
| `quantity_grid.dfy` | `QuantityGrid` | the grid layout and the cells of a quantity image |
| `image_request.dfy` | `ImageRequest` | `requestPixmap`'s dispatch and its round trip with the ids |
| `feedback.dfy` | `AudioFeedback` | the `Feedback` class, `playSound`, `init`'s classification, the `VolumeKeyListener` class |

How the model represents the parts it does not compute:

- **Sheets.** A vector sheet is a `map` from element id to bounding rectangle.
- **Rendered images.** A rendered image is a `Pixmap` value naming the element drawn, the size reported back and the pixel size.
- **Toolkit routines.** Three routines are function parameters: `QSize::scale` (a `Scaler`), `QString::toInt` (a `toInt` function) and `qrand` (a sequence of draws).
- **Feedback state.** The feedback object's state is a `class` whose methods update its fields, as the source does. Its sound players are named by the file each plays.

## Model

| member | source | states |
|---|---|---|
| `Text.Numbered` | src/imageprovider.cpp:140-142 | the id `base_n` is the base, an underscore and the decimal number |
| `Text.NumberedInjective` | src/imageprovider.cpp:140-142 | distinct numbers give distinct ids on one base, so the numbered variations never collide |
| `Text.Split` | src/imageprovider.cpp:326 | splitting gives one part more than there are separators, and no part holds the separator |
| `Text.JoinSplit` | src/imageprovider.cpp:326 | joining the parts of a split with the separator gives the id back |
| `Text.SplitJoin` | src/imageprovider.cpp:326 | splitting a join of separator-free parts gives the parts back |
| `Text.SkipEmptyParts` | src/imageprovider.cpp:353 | the kept parts are exactly the non-empty ones |
| `Text.SkipEmptyPartsKeepsNonEmpty` | src/imageprovider.cpp:353 | a list with no empty part is kept whole |
| `Text.SkipEmptyPartsAppend` | src/imageprovider.cpp:353 | skipping works part by part over two lists in a row, so the kept parts stay in order with repeats kept |
| `CppArith.Quot` | src/imageprovider.cpp:195 | C++ `/` truncates toward zero: the quotient of the magnitudes, negated exactly when the operands' signs differ |
| `CppArith.Rem` | src/imageprovider.cpp:168 | C++ `%`: quotient times divisor plus remainder gives the dividend; magnitude below the divisor's, sign of the dividend |
| `Svg.Round` | src/imageprovider.cpp:271 | `qRound`: the result is within half a unit of the argument, halves going up |
| `Svg.BoundsId` | src/imageprovider.cpp:265-266 | the bounds are taken from the element or its `_rect` companion, the companion preferred; they come from an element the sheet holds exactly when it holds either |
| `Svg.RenderedSvgElement` | src/imageprovider.cpp:262-286 | null exactly when the bounds have a side below 1 or the scaled size has a side below 1; the rounded size is reported whenever the bounds are proper, also for the second null case; otherwise the element itself at the scaled size |
| `DesignElements.Variants` | src/imageprovider.cpp:77-90 | the `i`-th variation read is `base_(i+1)`, with a positive ratio |
| `DesignElements.Runs` | src/imageprovider.cpp:77-92 | the grouping has at most as many groups as variations, and the last group has the last variation's ratio |
| `DesignElements.ExpandRuns` | src/imageprovider.cpp:77-92 | grouping loses, adds and reorders nothing: the groups taken apart give the variations back in sheet order |
| `DesignElements.RunsAreMaximal` | src/imageprovider.cpp:82-89 | no group is empty and neighbouring groups differ in ratio |
| `DesignElements.RunsExpand` | src/imageprovider.cpp:77-92 | maximal runs regroup into themselves, so the grouping is the only cut into maximal runs |
| `DesignElements.RunsPartition` | src/imageprovider.cpp:71-95 | in any order of the groups, their ids are `base_1` to `base_n`, each exactly once |
| `DesignElements.InsertByRatio` | src/imageprovider.cpp:93 | an insertion adds exactly the inserted group |
| `DesignElements.InsertKeepsSorted` | src/imageprovider.cpp:93 | inserting into a ratio-sorted list keeps it sorted |
| `DesignElements.SortByRatio` | src/imageprovider.cpp:93 | `qSort`: the result is sorted by ratio and is a permutation of the input |
| `DesignElements.ElementsWithSizes` | src/imageprovider.cpp:71-95 | reads `base_1` up to the first missing variation; the result is sorted by ratio and is a permutation of the maximal runs of equal ratio |
| `DesignElements.NearestRatioIndex` | src/imageprovider.cpp:290-299 | the walk with early exit finds a group of nearest ratio; for a zero requested height it keeps the last group |
| `DesignElements.VariationIndex` | src/imageprovider.cpp:300 | for a non-negative variation an index inside the group equal to `variation mod count`; for a negative one an index in `(-count, 0]` |
| `DesignElements.RenderedDesignElement` | src/imageprovider.cpp:288-302 | the image is the chosen variation of a group of nearest ratio, rendered ignoring the aspect ratio |
| `Clock.ClockVariationsCount` | src/imageprovider.cpp:136-149 | `background_1` to `background_count` exist and `background_(count+1)` does not |
| `Clock.ActualVariation` | src/imageprovider.cpp:168 | a non-negative variation selects a variation `1..count` equal to `variation mod count + 1`; a negative one lands in `2-count..1` |
| `Clock.MinuteRotation` | src/imageprovider.cpp:190 | within (-360, 360); for a non-negative minute, six degrees per minute modulo 360 |
| `Clock.MinuteRotationPeriodic` | src/imageprovider.cpp:190 | minute `m + 60` shows the same angle as minute `m` |
| `Clock.HourRotation` | src/imageprovider.cpp:194-195 | within (-360, 360); within [0, 360) for a non-negative time |
| `Clock.HourRotationWithinHour` | src/imageprovider.cpp:194-195 | for minutes 0 to 59, 30 degrees per hour past the rest position plus half a degree per whole two minutes, modulo 360 |
| `Clock.HourHandFromTwelve` | src/imageprovider.cpp:194-195 | measured from 12 o'clock, the hour hand points at `hour * 30 + minute / 2` degrees modulo 360 |
| `Clock.HourRotationTwelveHourPeriodic` | src/imageprovider.cpp:194-195 | hours `h` and `h + 12` give the same rotation |
| `Clock.ClockImage` | src/imageprovider.cpp:165-204 | a foreground is drawn exactly when the chosen variation's foreground exists; both rotations are in [0, 360) for a non-negative time |
| `Clock.ClockBackgroundExists` | src/imageprovider.cpp:165-172 | for a non-negative variation, the drawn background is one the sheet holds |
| `QuantityGrid.CeilSqrt` | src/imageprovider.cpp:113 | the least `c` with `c * c >= q` |
| `QuantityGrid.CeilQuot` | src/imageprovider.cpp:114 | the least `r` with `r * c >= q` |
| `QuantityGrid.Layout` | src/imageprovider.cpp:113-116 | enough cells for `q` items and no spare row; the last row holds between 1 and `columns` items, and all rows add up to `q` |
| `QuantityGrid.LayoutNearlySquare` | src/imageprovider.cpp:113-114 | never more rows than columns, and at most one row fewer |
| `QuantityGrid.LayoutFitsRequest` | src/imageprovider.cpp:116-117 | the image fits the requested size, and a cell one pixel larger would not fit at least three cells each way |
| `QuantityGrid.ItemId` | src/imageprovider.cpp:125 | each item is drawn as one of `item_1` to `item_8` |
| `QuantityGrid.CellInside` | src/imageprovider.cpp:126-127 | every item's cell lies inside the image |
| `QuantityGrid.LastRowCentred` | src/imageprovider.cpp:126 | the empty space left and right of the last row differ by at most one pixel |
| `QuantityGrid.RowMajor` | src/imageprovider.cpp:121-124 | items are placed row by row, left to right |
| `QuantityGrid.CellsDisjoint` | src/imageprovider.cpp:121-127 | no two items' cells overlap |
| `QuantityGrid.Quantity` | src/imageprovider.cpp:110-134 | the image has the grid's size and exactly `q` cells; cell `k` shows the picture of the `k`-th draw in the `k`-th grid cell |
| `ImageRequest.RequestPixmap` | src/imageprovider.cpp:324-368 | null exactly when the request is empty, the id has fewer than two segments, the kind is unknown, or a clock, quantity or lesson icon has the wrong number of segments; otherwise the route of the named kind with its arguments taken from the segments |
| `ImageRequest.Segments` | src/imageprovider.cpp:335-365 | an id for a route has at least two segments, the first naming its kind |
| `ImageRequest.RequestPixmapRouteId` | src/imageprovider.cpp:324-368 | every route whose text arguments hold no separator is selected by its own id, for any non-empty request |
| `ImageRequest.QuantityZeroReachesLayout` | src/imageprovider.cpp:113-115 | `quantity/0/apple` reaches the quantity layout with zero items, where the column count is zero |
| `ImageRequest.NegativeButtonVariation` | src/imageprovider.cpp:300 | `button/-1` reaches the variation pick, and the index it gives in a group of two is -1 |
| `ImageRequest.RequestPixmapChecked` | src/imageprovider.cpp:340-365 | the dispatch with a quantity below one and a negative button variation rejected; otherwise the same as `RequestPixmap` |
| `AudioFeedback.Clamp` | src/feedback.cpp:147 | `qBound(0, v, 100)`: in range, the identity in range, and nearest in range to the argument |
| `AudioFeedback.UpsClimb` | src/feedback.cpp:235-238 | `n` presses of volume-up give `min(100, v + 20n)` |
| `AudioFeedback.DownsDescend` | src/feedback.cpp:240-243 | `n` presses of volume-down give `max(0, v - 20n)` |
| `AudioFeedback.UpsReachTop` | src/feedback.cpp:235-238 | five presses reach 100 from any volume |
| `AudioFeedback.DownsReachBottom` | src/feedback.cpp:240-243 | five presses reach 0 from any volume |
| `AudioFeedback.FirstFreshDraw` | src/feedback.cpp:162-165 | the first draw whose sound differs from the previous one |
| `AudioFeedback.PlaySound` | src/feedback.cpp:153-171 | nothing for no sounds; the only sound, without touching the previous one, for one sound; otherwise the first draw differing from the previous sound, which becomes the previous sound; played at the given volume |
| `AudioFeedback.PrefixesExclusive` | src/feedback.cpp:218-221 | no file name starts with both `correct` and `incorrect` |
| `AudioFeedback.PathsAppend` | src/feedback.cpp:217-222 | classification keeps directory order across consecutive runs of files |
| `AudioFeedback.PathsMembers` | src/feedback.cpp:217-222 | a path is listed as a correct (incorrect) sound exactly when a file so named has it |
| `AudioFeedback.PathsCount` | src/feedback.cpp:217-222 | the two lists together are no longer than the directory listing, and a listing with no sound file gives two empty lists |
| `AudioFeedback.PathsCountExact` | src/feedback.cpp:217-222 | each list is exactly as long as the number of files of its class, so each such file contributes one path |
| `AudioFeedback.Feedback.constructor` | src/feedback.cpp:120-127 | volume 100, no sounds, no previous sound |
| `AudioFeedback.Feedback.AudioVolume` | src/feedback.cpp:140-143 | the volume, within 0 to 100 |
| `AudioFeedback.Feedback.SetAudioVolume` | src/feedback.cpp:145-150 | the volume becomes the clamped value; the change is signalled, with that value, exactly when asked for; nothing else changes |
| `AudioFeedback.Feedback.Init` | src/feedback.cpp:213-223 | a new volume key listener for this object; the correct and incorrect sounds gain the classified paths in directory order; nothing else changes |
| `AudioFeedback.Feedback.PlayCorrectSound` | src/feedback.cpp:225-228 | `playSound` over the correct sounds at the current volume: with two or more sounds, the first draw differing from the previous sound is played and becomes the previous sound; nothing else changes |
| `AudioFeedback.Feedback.PlayIncorrectSound` | src/feedback.cpp:230-233 | `playSound` over the incorrect sounds at the current volume: with two or more sounds, the first draw differing from the previous sound is played and becomes the previous sound; nothing else changes |
| `AudioFeedback.VolumeKeyListener.VolumeUp` | src/feedback.cpp:235-238 | the volume is one press higher, signalled; nothing else changes |
| `AudioFeedback.VolumeKeyListener.VolumeDown` | src/feedback.cpp:240-243 | the volume is one press lower, signalled; nothing else changes |

## Left out

- Rendering, painting and pixmap allocation are not modelled. A rendered image is described by the element drawn and its sizes. The clock's transforms and scale factor (lines 182-188 and 151-163) are left out as well. Only the rotation angles passed to them are modelled.
- `QSize::scale`, `QString::toInt` and `qrand` are toolkit routines. They are parameters of the model. The round trip assumes that `toInt` reads back every decimal number.
- The notes image (lines 206-260) and the lesson icon's placement (lines 304-322) are not modelled. Their ids are parsed by `RequestPixmap` only.
- The renderers' global caches, `setDataPath` and the data directory are not modelled. `Init` takes the directory listing as its input.
- The media players and their stop, seek and play calls are not modelled. `PlaySound` returns the sound it would play.
- The RemCon and shortcut wiring of the volume keys (feedback.cpp up to line 117) is not modelled. The timer that calls `init` is left out as well.
- The Phonon variant of `playSound` (feedback.cpp:181-201) ignores the volume. It is otherwise the same; `Playback` carries the volume the Qt Mobility variant sets.
- `MinuteRotation`, `HourRotation`: the rotations are computed on unbounded integers. Overflow of 32-bit `int` for huge hours or minutes is not modelled.
- `ElementsWithSizes` requires every variation to have a positive width and height. In the source, a zero width gives ratio 0. When a group of another ratio follows, the check at line 84 drops the zero-ratio group. When the zero-ratio group is the last one, lines 91-92 append it anyway. A zero height gives an infinity or NaN ratio.
- `ElementsWithSizes`: `qFuzzyCompare` is modelled as exact equality of ratios.
- `ElementsWithSizes`: the order `qSort` gives to groups of equal ratio is stated only as a permutation.
- `NearestRatioIndex`: the infinite or NaN ratio of a requested height of 0 is an `Option` with no value. Every comparison with it fails, so the last group is kept. This is what the source's floating-point comparisons do.
- `NearestRatioIndex`, `RenderedDesignElement`: when two groups are equally near, the contract says only that a nearest group wins, not which one. The source's walk picks a definite group. For sorted ratios 1, 2, 3 and requested 1.5 it picks the first group; for ratios 1, 2 it keeps the last.
- `RequestPixmap`: a `Route` does not carry the size out-parameter. The dispatch's own null returns (lines 327-334, 347-350, 355-358, 361-364 and 367) leave it untouched. The size a renderer reports is modelled in `Pixmap`, `ClockFace` and `QuantityImage`.
- `RenderedDesignElement` requires a non-empty list of non-empty groups, which elementsWithSizes builds for any sheet holding `base_1`. It also requires `variation >= 0`. The negative case is a finding below.
- `ClockImage` requires at least one clock variation. For a sheet without clocks, the source divides by zero at line 168.
- `QuantityGrid.Layout` requires a quantity of at least one. Zero is a finding below. The floating-point `ceil(sqrt(q))` and `ceil(q / c)` are taken as the exact integer values.
- feedback.h is not part of this model. The default of `setAudioVolume`'s `emitChangedSignal` (used by the volume keys) is taken as true.

## Findings

| source | as written | input that shows it | evidently intended | confidence | as-written member | corrected member |
|---|---|---|---|---|---|---|
| src/imageprovider.cpp:113-115 | a quantity read from the id is passed to the layout unchecked | `quantity/0/apple`: the column count is 0 and line 115 takes a remainder by zero | reject quantities below one | not executed | `ImageRequest.QuantityZeroReachesLayout` | `ImageRequest.RequestPixmapChecked` |
| src/imageprovider.cpp:300 | the button variation read at line 341 is used in a C++ `%` | `button/-1` with a group of two variations: index `-1 % 2 == -1` is out of range | reject negative variations | not executed | `ImageRequest.NegativeButtonVariation` | `ImageRequest.RequestPixmapChecked` |
