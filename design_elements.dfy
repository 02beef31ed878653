/** Buttons and frames of the design sheet. An element `base` comes in
    variations `base_1`, `base_2`, ..., and variations of equal width to
    height ratio form a group. A request picks the group whose ratio is
    nearest the requested one and a variation within it. */
module DesignElements {
  import opened CppArith
  import opened Text
  import opened Svg
  import opened Options

  /** A group of variations sharing one width to height ratio. */
  datatype ElementVariations = ElementVariations(elementIds: seq<string>, widthToHeightRatio: real)

  /** One variation and its ratio. */
  datatype Variant = Variant(id: string, ratio: real)

  /** Every variation `base_k` the sheet holds has a proper, non-empty size. */
  ghost predicate PositiveSizes(sheet: Sheet, base: string)
  {
    forall k: nat :: Numbered(base, k) in sheet ==>
      sheet[Numbered(base, k)].width > 0.0 && sheet[Numbered(base, k)].height > 0.0
  }

  /** The sheet holds `base_1` to `base_n`. */
  ghost predicate NumberedUpTo(sheet: Sheet, base: string, n: nat)
  {
    forall k :: 1 <= k <= n ==> Numbered(base, k) in sheet
  }

  function Ratio(r: RectF): real
    requires r.height > 0.0
  {
    r.width / r.height
  }

  /** The variations `base_1` to `base_n` with their ratios, in sheet order. */
  function Variants(sheet: Sheet, base: string, n: nat): (vs: seq<Variant>)
    requires NumberedUpTo(sheet, base, n) && PositiveSizes(sheet, base)
    ensures |vs| == n
    ensures forall i :: 0 <= i < n ==> vs[i].id == Numbered(base, i + 1) && vs[i].ratio > 0.0
  {
    if n == 0 then []
    else
      var id := Numbered(base, n);
      var prev := Variants(sheet, base, n - 1);
      var vs := prev + [Variant(id, Ratio(sheet[id]))];
      assert forall i :: 0 <= i < n - 1 ==> vs[i] == prev[i];
      vs
  }

  lemma VariantsSnoc(sheet: Sheet, base: string, n: nat)
    requires n >= 1 && NumberedUpTo(sheet, base, n) && PositiveSizes(sheet, base)
    ensures var id := Numbered(base, n);
      Variants(sheet, base, n) ==
        Variants(sheet, base, n - 1) + [Variant(id, sheet[id].width / sheet[id].height)]
  {
  }

  function Last<T>(s: seq<T>): T
    requires s != []
  {
    s[|s| - 1]
  }

  /** The variations grouped into maximal runs of consecutive equal ratios. */
  function Runs(vs: seq<Variant>): (groups: seq<ElementVariations>)
    ensures |groups| <= |vs|
    ensures vs != [] ==> groups != [] && Last(groups).widthToHeightRatio == Last(vs).ratio
    decreases |vs|
  {
    if vs == [] then []
    else
      var prev := Runs(vs[..|vs| - 1]);
      var v := Last(vs);
      if prev != [] && Last(prev).widthToHeightRatio == v.ratio then
        prev[..|prev| - 1] + [Last(prev).(elementIds := Last(prev).elementIds + [v.id])]
      else
        prev + [ElementVariations([v.id], v.ratio)]
  }

  /** The variations of one group, each with the group's ratio. */
  function Members(g: ElementVariations): (vs: seq<Variant>)
    ensures |vs| == |g.elementIds|
  {
    seq(|g.elementIds|, i requires 0 <= i < |g.elementIds| => Variant(g.elementIds[i], g.widthToHeightRatio))
  }

  /** The groups taken apart again: all their variations, group by group. */
  function Expand(groups: seq<ElementVariations>): seq<Variant>
    decreases |groups|
  {
    if groups == [] then [] else Expand(groups[..|groups| - 1]) + Members(Last(groups))
  }

  /** The ids of all groups, group by group. */
  function Ids(groups: seq<ElementVariations>): seq<string>
    decreases |groups|
  {
    if groups == [] then [] else Ids(groups[..|groups| - 1]) + Last(groups).elementIds
  }

  /** The ids of some variations, in order. */
  function VariantIds(vs: seq<Variant>): (ids: seq<string>)
    ensures |ids| == |vs|
  {
    seq(|vs|, i requires 0 <= i < |vs| => vs[i].id)
  }

  /** The ids `base_1` to `base_n`. */
  function NumberedIds(base: string, n: nat): (ids: seq<string>)
    ensures |ids| == n
  {
    seq(n, i requires 0 <= i < n => Numbered(base, i + 1))
  }

  /** Groups that are maximal runs: none is empty and neighbours differ in ratio. */
  ghost predicate MaximalRuns(groups: seq<ElementVariations>)
  {
    && (forall j :: 0 <= j < |groups| ==> groups[j].elementIds != [])
    && (forall j :: 0 <= j < |groups| - 1 ==>
          groups[j].widthToHeightRatio != groups[j + 1].widthToHeightRatio)
  }

  /** Grouping loses, adds and reorders nothing: every variation is in its
      group, with its own ratio, in sheet order. */
  lemma {:induction false} ExpandRuns(vs: seq<Variant>)
    ensures Expand(Runs(vs)) == vs
    decreases |vs|
  {
    if vs != [] {
      var init, v := vs[..|vs| - 1], Last(vs);
      var prev := Runs(init);
      ExpandRuns(init);
      assert init + [v] == vs;
      if prev != [] && Last(prev).widthToHeightRatio == v.ratio {
        ExpandMerge(prev[..|prev| - 1], Last(prev), v);
        assert prev[..|prev| - 1] + [Last(prev)] == prev;
      } else {
        ExpandNewGroup(prev, v);
      }
    }
  }

  lemma ExpandAppend(groups: seq<ElementVariations>, g: ElementVariations)
    ensures Expand(groups + [g]) == Expand(groups) + Members(g)
  {
    assert (groups + [g])[..|groups|] == groups;
  }

  lemma ExpandMerge(init: seq<ElementVariations>, l: ElementVariations, v: Variant)
    requires l.widthToHeightRatio == v.ratio
    ensures Expand(init + [l.(elementIds := l.elementIds + [v.id])]) == Expand(init + [l]) + [v]
  {
    ExpandAppend(init, l.(elementIds := l.elementIds + [v.id]));
    ExpandAppend(init, l);
    assert Members(l.(elementIds := l.elementIds + [v.id])) == Members(l) + [v];
  }

  lemma ExpandNewGroup(prev: seq<ElementVariations>, v: Variant)
    ensures Expand(prev + [ElementVariations([v.id], v.ratio)]) == Expand(prev) + [v]
  {
    ExpandAppend(prev, ElementVariations([v.id], v.ratio));
    assert Members(ElementVariations([v.id], v.ratio)) == [v];
  }

  /** Runs, one variation at a time. */
  lemma RunsSnoc(vs: seq<Variant>, v: Variant)
    ensures var r := Runs(vs);
      Runs(vs + [v]) ==
        if r != [] && Last(r).widthToHeightRatio == v.ratio
        then r[..|r| - 1] + [Last(r).(elementIds := Last(r).elementIds + [v.id])]
        else r + [ElementVariations([v.id], v.ratio)]
  {
    assert (vs + [v])[..|vs|] == vs;
  }

  /** The groups are maximal runs. */
  lemma {:induction false} RunsAreMaximal(vs: seq<Variant>)
    ensures MaximalRuns(Runs(vs))
    decreases |vs|
  {
    if vs != [] {
      RunsAreMaximal(vs[..|vs| - 1]);
    }
  }

  /** Appending a whole group whose ratio differs from the last run's adds it as one run. */
  lemma {:induction false} RunsAppendGroup(vs: seq<Variant>, g: ElementVariations)
    requires g.elementIds != []
    requires vs != [] ==> Last(vs).ratio != g.widthToHeightRatio
    ensures Runs(vs + Members(g)) == Runs(vs) + [g]
    decreases |g.elementIds|
  {
    var ids := g.elementIds;
    assert ids[..|ids| - 1] + [Last(ids)] == ids;
    var g' := g.(elementIds := ids[..|ids| - 1]);
    var v := Variant(Last(ids), g.widthToHeightRatio);
    var w := vs + Members(g');
    MembersSnoc(g);
    assert vs + Members(g) == w + [v];
    RunsSnoc(w, v);
    if |ids| == 1 {
      assert w == vs;
      assert [v.id] == ids;
    } else {
      RunsAppendGroup(vs, g');
      RunsLastGrows(Runs(vs), g', v.id);
    }
  }

  lemma MembersSnoc(g: ElementVariations)
    requires g.elementIds != []
    ensures Members(g) == Members(g.(elementIds := g.elementIds[..|g.elementIds| - 1]))
                          + [Variant(Last(g.elementIds), g.widthToHeightRatio)]
  {
  }

  lemma RunsLastGrows(r: seq<ElementVariations>, g: ElementVariations, id: string)
    ensures var s := r + [g];
      s[..|s| - 1] + [Last(s).(elementIds := Last(s).elementIds + [id])]
        == r + [g.(elementIds := g.elementIds + [id])]
  {
    var s := r + [g];
    assert s[..|s| - 1] == r;
  }

  /** Conversely, maximal runs are regrouped into themselves: the grouping
      is the only way to cut the variations into maximal runs. */
  lemma {:induction false} RunsExpand(groups: seq<ElementVariations>)
    requires MaximalRuns(groups)
    ensures Runs(Expand(groups)) == groups
    decreases |groups|
  {
    if groups != [] {
      var init := groups[..|groups| - 1];
      assert MaximalRuns(init);
      RunsExpand(init);
      if init != [] {
        ExpandNonEmpty(init);
        assert Last(Expand(init)).ratio == Last(Runs(Expand(init))).widthToHeightRatio;
      }
      RunsAppendGroup(Expand(init), Last(groups));
      assert init + [Last(groups)] == groups;
    }
  }

  lemma ExpandNonEmpty(groups: seq<ElementVariations>)
    requires groups != [] && Last(groups).elementIds != []
    ensures Expand(groups) != []
  {
    assert |Members(Last(groups))| > 0;
  }

  predicate SortedByRatio(groups: seq<ElementVariations>)
  {
    forall i, j :: 0 <= i < j < |groups| ==> groups[i].widthToHeightRatio <= groups[j].widthToHeightRatio
  }

  lemma {:induction false} IdsAppend(p: seq<ElementVariations>, q: seq<ElementVariations>)
    ensures Ids(p + q) == Ids(p) + Ids(q)
    decreases |q|
  {
    if q == [] {
      assert p + q == p;
    } else {
      var q' := q[..|q| - 1];
      assert (p + q)[..|p + q| - 1] == p + q';
      assert Last(p + q) == Last(q);
      IdsAppend(p, q');
    }
  }

  /** The ids of the expanded groups are the groups' ids. */
  lemma {:induction false} VariantIdsOfExpand(groups: seq<ElementVariations>)
    ensures VariantIds(Expand(groups)) == Ids(groups)
    decreases |groups|
  {
    if groups != [] {
      var init := groups[..|groups| - 1];
      VariantIdsOfExpand(init);
      var a, b := Expand(init), Members(Last(groups));
      assert VariantIds(a + b) == VariantIds(a) + VariantIds(b);
      assert VariantIds(b) == Last(groups).elementIds;
    }
  }

  /** Reordering the groups reorders their ids and nothing more. */
  lemma {:induction false} IdsOfPermutation(a: seq<ElementVariations>, b: seq<ElementVariations>)
    requires multiset(a) == multiset(b)
    ensures multiset(Ids(a)) == multiset(Ids(b))
    decreases |a|
  {
    if a == [] {
      assert |b| == |multiset(b)| == 0;
    } else {
      var a', x := a[..|a| - 1], Last(a);
      assert a == a' + [x];
      assert x in multiset(b);
      var k :| 0 <= k < |b| && b[k] == x;
      var b' := b[..k] + b[k + 1..];
      assert b == b[..k] + [x] + b[k + 1..];
      RemoveMatching(a', x, b, k);
      IdsOfPermutation(a', b');
      IdsAppend(b[..k] + [x], b[k + 1..]);
      IdsAppend(b[..k], [x]);
      IdsAppend(b[..k], b[k + 1..]);
      assert Ids([x]) == x.elementIds by {
        assert [x][..0] == [];
      }
    }
  }

  lemma RemoveMatching<T>(a: seq<T>, x: T, b: seq<T>, k: nat)
    requires multiset(a + [x]) == multiset(b) && k < |b| && b[k] == x
    ensures multiset(a) == multiset(b[..k] + b[k + 1..])
  {
    assert b == b[..k] + [x] + b[k + 1..];
    assert multiset(b) == multiset(b[..k]) + multiset{x} + multiset(b[k + 1..]);
    var rest := multiset(b[..k]) + multiset(b[k + 1..]);
    assert multiset(a) + multiset{x} == rest + multiset{x};
    assert multiset(a) == multiset(a) + multiset{x} - multiset{x};
    assert rest == rest + multiset{x} - multiset{x};
    assert multiset(b[..k] + b[k + 1..]) == rest;
  }

  /** The ids of the runs are the ids of the variations, in order. */
  lemma RunsIds(vs: seq<Variant>)
    ensures Ids(Runs(vs)) == VariantIds(vs)
  {
    VariantIdsOfExpand(Runs(vs));
    ExpandRuns(vs);
  }

  lemma VariantsIds(sheet: Sheet, base: string, n: nat)
    requires NumberedUpTo(sheet, base, n) && PositiveSizes(sheet, base)
    ensures VariantIds(Variants(sheet, base, n)) == NumberedIds(base, n)
  {
  }

  /** `base_1` to `base_n` are n different ids. */
  lemma NumberedIdsDistinct(base: string, n: nat)
    ensures forall i, j :: 0 <= i < j < n ==> NumberedIds(base, n)[i] != NumberedIds(base, n)[j]
  {
    forall i, j | 0 <= i < j < n
      ensures NumberedIds(base, n)[i] != NumberedIds(base, n)[j]
    {
      if Numbered(base, i + 1) == Numbered(base, j + 1) {
        NumberedInjective(base, i + 1, j + 1);
      }
    }
  }

  /** The ids of the runs, in any order of the runs, are the variations
      `base_1` to `base_n`, each exactly once. */
  lemma RunsPartition(sheet: Sheet, base: string, n: nat, groups: seq<ElementVariations>)
    requires NumberedUpTo(sheet, base, n) && PositiveSizes(sheet, base)
    requires multiset(groups) == multiset(Runs(Variants(sheet, base, n)))
    ensures multiset(Ids(groups)) == multiset(NumberedIds(base, n))
    ensures forall i, j :: 0 <= i < j < n ==> NumberedIds(base, n)[i] != NumberedIds(base, n)[j]
  {
    IdsOfPermutation(groups, Runs(Variants(sheet, base, n)));
    RunsIds(Variants(sheet, base, n));
    VariantsIds(sheet, base, n);
    NumberedIdsDistinct(base, n);
  }

  /** Insert `g` before the first group of greater ratio. */
  function InsertByRatio(g: ElementVariations, sorted: seq<ElementVariations>): (r: seq<ElementVariations>)
    ensures multiset(r) == multiset(sorted) + multiset{g}
    decreases |sorted|
  {
    if sorted == [] then [g]
    else if g.widthToHeightRatio <= sorted[0].widthToHeightRatio then [g] + sorted
    else
      assert sorted == [sorted[0]] + sorted[1..];
      [sorted[0]] + InsertByRatio(g, sorted[1..])
  }

  /** Inserting into a sorted sequence keeps it sorted. */
  lemma {:induction false} InsertKeepsSorted(g: ElementVariations, sorted: seq<ElementVariations>)
    requires SortedByRatio(sorted)
    ensures SortedByRatio(InsertByRatio(g, sorted))
    decreases |sorted|
  {
    if sorted != [] && g.widthToHeightRatio > sorted[0].widthToHeightRatio {
      var rest := InsertByRatio(g, sorted[1..]);
      InsertKeepsSorted(g, sorted[1..]);
      forall j | 0 <= j < |rest|
        ensures sorted[0].widthToHeightRatio <= rest[j].widthToHeightRatio
      {
        assert rest[j] in multiset(rest);
        assert rest[j] in multiset(sorted[1..]) || rest[j] == g;
      }
    }
  }

  /** qSort on ratios: the groups in ascending ratio order. */
  function SortByRatio(groups: seq<ElementVariations>): (r: seq<ElementVariations>)
    ensures SortedByRatio(r)
    ensures multiset(r) == multiset(groups)
    decreases |groups|
  {
    if groups == [] then []
    else
      assert groups == [groups[0]] + groups[1..];
      var sortedRest := SortByRatio(groups[1..]);
      InsertKeepsSorted(groups[0], sortedRest);
      InsertByRatio(groups[0], sortedRest)
  }

  /** The loop's state after the variations `vs`: the closed groups and,
      last, the open group are the runs of `vs`; before the first variation
      the open group is the empty placeholder of ratio -1. */
  ghost predicate OpenGroups(result: seq<ElementVariations>, element: ElementVariations, vs: seq<Variant>)
  {
    && (vs == [] ==> result == [] && element == ElementVariations([], -1.0))
    && (vs != [] ==> element.elementIds != [] && element.widthToHeightRatio > 0.0 &&
                     result + [element] == Runs(vs))
  }

  /** One pass of the grouping loop keeps the groups so far, with the open
      group last, equal to the runs of the variations seen. */
  lemma GroupingStep(prev: seq<Variant>, v: Variant,
                     result: seq<ElementVariations>, element: ElementVariations,
                     result': seq<ElementVariations>, element': ElementVariations)
    requires v.ratio > 0.0 && OpenGroups(result, element, prev)
    requires v.ratio != element.widthToHeightRatio ==>
               && result' == (if element.widthToHeightRatio > 0.0 then result + [element] else result)
               && element' == ElementVariations([v.id], v.ratio)
    requires v.ratio == element.widthToHeightRatio ==>
               result' == result && element' == element.(elementIds := element.elementIds + [v.id])
    ensures OpenGroups(result', element', prev + [v])
  {
    RunsSnoc(prev, v);
    if prev != [] {
      var runs := result + [element];
      assert runs[..|runs| - 1] == result;
    }
  }

  /** After the loop, closing the open group (when it holds anything)
      leaves exactly the runs. */
  lemma ClosedGroups(result: seq<ElementVariations>, element: ElementVariations, vs: seq<Variant>)
    requires OpenGroups(result, element, vs)
    ensures (if element.elementIds != [] then result + [element] else result) == Runs(vs)
  {
  }

  /** Once `base_i` is seen, the later variations are still unseen. */
  lemma UnseenStep(design: Sheet, base: string, unseen: set<string>, i: nat)
    requires forall k: nat :: k >= i && Numbered(base, k) in design ==> Numbered(base, k) in unseen
    ensures forall k: nat :: k >= i + 1 && Numbered(base, k) in design ==>
              Numbered(base, k) in unseen - {Numbered(base, i)}
  {
    forall k: nat | k >= i + 1 && Numbered(base, k) in design
      ensures Numbered(base, k) in unseen - {Numbered(base, i)}
    {
      if Numbered(base, k) == Numbered(base, i) {
        NumberedInjective(base, k, i);
      }
    }
  }

  /** elementsWithSizes: the variations of `base` in the design sheet,
      grouped by ratio and sorted by ratio. `count` is how many variations
      the sheet holds: `base_1` to `base_count`, and no `base_(count+1)`. */
  method ElementsWithSizes(design: Sheet, base: string) returns (result: seq<ElementVariations>, ghost count: nat)
    requires PositiveSizes(design, base)
    ensures NumberedUpTo(design, base, count) && Numbered(base, count + 1) !in design
    ensures SortedByRatio(result)
    ensures multiset(result) == multiset(Runs(Variants(design, base, count)))
  {
    result := [];
    var element := ElementVariations([], -1.0);
    var i := 1;
    ghost var unseen := design.Keys;
    ghost var seen: seq<Variant> := [];
    while true
      invariant i >= 1 && NumberedUpTo(design, base, i - 1)
      invariant seen == Variants(design, base, i - 1)
      invariant OpenGroups(result, element, seen)
      invariant forall k: nat :: k >= i && Numbered(base, k) in design ==> Numbered(base, k) in unseen
      decreases unseen
    {
      var id := Numbered(base, i);
      if id !in design {
        break;
      }
      assert NumberedUpTo(design, base, i);
      ghost var result0, element0 := result, element;
      var size := design[id];
      var widthToHeightRatio := size.width / size.height;
      if widthToHeightRatio != element.widthToHeightRatio {
        if element.widthToHeightRatio > 0.0 {
          result := result + [element];
        }
        element := ElementVariations([], widthToHeightRatio);
      }
      element := element.(elementIds := element.elementIds + [id]);
      VariantsSnoc(design, base, i);
      GroupingStep(seen, Variant(id, widthToHeightRatio), result0, element0, result, element);
      seen := seen + [Variant(id, widthToHeightRatio)];
      UnseenStep(design, base, unseen, i);
      unseen := unseen - {id};
      i := i + 1;
    }
    ClosedGroups(result, element, seen);
    if element.elementIds != [] {
      result := result + [element];
    }
    count := i - 1;
    assert result == Runs(Variants(design, base, count));
    result := SortByRatio(result);
  }

  /** The ratio of the requested size; None when its height is zero, where
      the floating-point division gives an infinity or NaN. */
  function RequestedRatio(requested: Size): Option<real>
  {
    if requested.height == 0 then None else Some(requested.width as real / requested.height as real)
  }

  function AbsReal(x: real): real
  {
    if x < 0.0 then -x else x
  }

  /** Whether ratio `a` is strictly nearer the requested ratio than `b`; an
      infinite or NaN requested ratio is nearer to nothing. */
  predicate Nearer(requested: Option<real>, a: real, b: real)
  {
    match requested
    case None => false
    case Some(r) => AbsReal(r - a) < AbsReal(r - b)
  }

  /** Group `b` has a ratio nearest the requested one; for an infinite or NaN
      requested ratio, the widest group. */
  ghost predicate Nearest(elements: seq<ElementVariations>, requested: Option<real>, b: nat)
  {
    && b < |elements|
    && (requested.None? ==> b == |elements| - 1)
    && (requested.Some? ==> forall k :: 0 <= k < |elements| ==>
          !Nearer(requested, elements[k].widthToHeightRatio, elements[b].widthToHeightRatio))
  }

  /** The best-so-far walk of renderedDesignElement over the sorted groups,
      starting from the last one and stopping once ratios only grow apart. */
  method NearestRatioIndex(elements: seq<ElementVariations>, requested: Option<real>) returns (best: nat)
    requires |elements| >= 1 && SortedByRatio(elements)
    ensures Nearest(elements, requested, best)
  {
    var n := |elements|;
    best := n - 1;
    var i := 0;
    while i < n
      invariant 0 <= i <= n && best < n
      invariant requested.None? ==> best == n - 1
      invariant !Nearer(requested, elements[n - 1].widthToHeightRatio, elements[best].widthToHeightRatio)
      invariant forall k :: 0 <= k < i ==>
                  !Nearer(requested, elements[k].widthToHeightRatio, elements[best].widthToHeightRatio)
    {
      var e := elements[i];
      if Nearer(requested, e.widthToHeightRatio, elements[best].widthToHeightRatio) {
        best := i;
      } else if e.widthToHeightRatio > elements[best].widthToHeightRatio {
        forall k | i <= k < n
          ensures !Nearer(requested, elements[k].widthToHeightRatio, elements[best].widthToHeightRatio)
        {
          assert e.widthToHeightRatio <= elements[k].widthToHeightRatio;
        }
        break;
      }
      i := i + 1;
    }
  }

  /** The index within a group of `count` variations that variation
      `variation` selects: `variation % count`, negative for a negative
      variation. */
  function VariationIndex(variation: int, count: int): (i: int)
    requires count >= 1
    ensures variation >= 0 ==> 0 <= i < count && i == variation % count
    ensures variation < 0 ==> -count < i <= 0
  {
    Rem(variation, count)
  }

  /** renderedDesignElement: the variation `variation` of the group nearest
      the requested ratio, rendered at exactly the requested size. */
  method RenderedDesignElement(elements: seq<ElementVariations>, variation: int, requested: Size,
                               design: Sheet, scale: Scaler) returns (p: Pixmap)
    requires |elements| >= 1 && SortedByRatio(elements)
    requires forall j :: 0 <= j < |elements| ==> elements[j].elementIds != []
    requires variation >= 0
    ensures exists b: nat :: Nearest(elements, RequestedRatio(requested), b) &&
              p == RenderedSvgElement(design,
                     elements[b].elementIds[variation % |elements[b].elementIds|],
                     IgnoreAspectRatio, requested, scale)
  {
    var requestedRatio := RequestedRatio(requested);
    var b := NearestRatioIndex(elements, requestedRatio);
    var ids := elements[b].elementIds;
    var index := VariationIndex(variation, |ids|);
    p := RenderedSvgElement(design, ids[index], IgnoreAspectRatio, requested, scale);
  }
}
