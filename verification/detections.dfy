/** `mapDetectionsToElements`: object detections, sorted by area, become the five image
    element slots by fixed selection rules, each with a fallback region. */
module Detections {
  import opened Numeric
  import opened Sorting
  import opened Regions

  /** A detector result: a box in coordinates relative to the image (0 to 1) and a score. */
  datatype Detection = Detection(xmin: real, ymin: real, xmax: real, ymax: real, score: real)

  /** A detection measured in pixels (the program's `bx`, `by`, `bw`, `bh`): corner, size,
      area and centre. */
  datatype Obj = Obj(left: real, top: real, width: real, height: real, area: real, cx: real, cy: real, score: real)

  /** Scales a detection to a `w`-by-`h` image. */
  function Measure(d: Detection, w: Pos, h: Pos): (o: Obj)
    ensures o.left == d.xmin * w as real && o.left + o.width == d.xmax * w as real
    ensures o.top == d.ymin * h as real && o.top + o.height == d.ymax * h as real
    ensures o.area == o.width * o.height
    ensures o.cx == (d.xmin + d.xmax) * w as real / 2.0 && o.cy == (d.ymin + d.ymax) * h as real / 2.0
    ensures o.score == d.score
  {
    var left, top := d.xmin * w as real, d.ymin * h as real;
    var width, height := (d.xmax - d.xmin) * w as real, (d.ymax - d.ymin) * h as real;
    Obj(left, top, width, height, width * height, left + width / 2.0, top + height / 2.0, d.score)
  }

  function Area(o: Obj): real { o.area }

  /** Every detection measured, in order of non-increasing area. */
  function SortedObjs(dets: seq<Detection>, w: Pos, h: Pos): (objs: seq<Obj>)
    ensures |objs| == |dets|
    ensures SortedDesc(objs, Area)
    ensures multiset(objs) == multiset(seq(|dets|, i requires 0 <= i < |dets| => Measure(dets[i], w, h)))
  {
    SortDesc(seq(|dets|, i requires 0 <= i < |dets| => Measure(dets[i], w, h)), Area)
  }

  /** The centre lies in one of the four corner zones: outside the middle 40% both across
      and down. */
  predicate InCorner(o: Obj, w: Pos, h: Pos)
  {
    (o.cx < w as real * 0.3 || o.cx > w as real * 0.7) && (o.cy < h as real * 0.3 || o.cy > h as real * 0.7)
  }

  /** The centre lies in the top 35% of the image. */
  predicate NearTop(o: Obj, h: Pos)
  {
    o.cy < h as real * 0.35
  }

  /** The last position below `n`, other than the main object at 0, holding a corner
      object: the last element of `cornerObjs`. */
  function LastCorner(objs: seq<Obj>, w: Pos, h: Pos, n: nat): (r: Option<nat>)
    requires n <= |objs|
    ensures r.Some? ==> 1 <= r.value < n && InCorner(objs[r.value], w, h)
    ensures r.Some? ==> forall j :: r.value < j < n ==> !InCorner(objs[j], w, h)
    ensures r.None? ==> forall j :: 1 <= j < n ==> !InCorner(objs[j], w, h)
  {
    if n <= 1 then None
    else if InCorner(objs[n - 1], w, h) then Some(n - 1)
    else LastCorner(objs, w, h, n - 1)
  }

  /** The first position from `k` on holding an object near the top: `topObjs[0]` when
      `k` is 1. */
  function FirstTop(objs: seq<Obj>, h: Pos, k: nat): (r: Option<nat>)
    ensures r.Some? ==> k <= r.value < |objs| && NearTop(objs[r.value], h)
    ensures r.Some? ==> forall j :: k <= j < r.value ==> !NearTop(objs[j], h)
    ensures r.None? ==> forall j :: k <= j < |objs| ==> !NearTop(objs[j], h)
    decreases |objs| - k
  {
    if k >= |objs| then None
    else if NearTop(objs[k], h) then Some(k)
    else FirstTop(objs, h, k + 1)
  }

  /** Position `j` is neither the logo nor the title pick; an absent pick excludes
      nothing, as `d !== undefined` always holds. */
  predicate NotPicked(j: nat, logo: Option<nat>, title: Option<nat>)
  {
    (logo.None? || j != logo.value) && (title.None? || j != title.value)
  }

  /** The first position from `k` on that is neither the logo nor the title pick:
      `auxCandidates[0]` when `k` is 1. */
  function FirstAux(objs: seq<Obj>, logo: Option<nat>, title: Option<nat>, k: nat): (r: Option<nat>)
    ensures r.Some? ==> k <= r.value < |objs| && NotPicked(r.value, logo, title)
    ensures r.Some? ==> forall j :: k <= j < r.value ==> !NotPicked(j, logo, title)
    ensures r.None? ==> forall j :: k <= j < |objs| ==> !NotPicked(j, logo, title)
    decreases |objs| - k
  {
    if k >= |objs| then None
    else if NotPicked(k, logo, title) then Some(k)
    else FirstAux(objs, logo, title, k + 1)
  }

  /** The crop for a detected object, with the detector's score as its confidence. */
  function PickOf(o: Obj): Pick
  {
    Pick(Box(o.left, o.top, o.width, o.height), o.score)
  }

  /** The fallback auxiliary band: 80% of the width and 30% of the height, in the lower
      part when the main object's centre lies in the upper half. */
  function AuxFallback(main: Obj, w: Pos, h: Pos): (b: Box)
    ensures b.x == w as real * 0.1 && b.w == w as real * 0.8 && b.h == h as real * 0.3
    ensures main.cy < h as real * 0.5 ==> b.y == h as real * 0.6
    ensures main.cy >= h as real * 0.5 ==> b.y == 0.0
    ensures Within(b, w as real, h as real)
  {
    Box(w as real * 0.1, if main.cy < h as real * 0.5 then h as real * 0.6 else 0.0, w as real * 0.8, h as real * 0.3)
  }

  /** The five slots chosen from the detections, or no value when there are none (the
      caller then runs the saliency fallback). */
  function MapDetections(dets: seq<Detection>, w: Pos, h: Pos): (r: Option<Slots>)
    ensures r.None? <==> |dets| == 0
    ensures r.Some? ==> r.value.bg == Pick(Box(0.0, 0.0, w as real, h as real), 0.95)
    ensures r.Some? ==> r.value.main == PickOf(SortedObjs(dets, w, h)[0])
  {
    var objs := SortedObjs(dets, w, h);
    if |objs| == 0 then None
    else
      var main := objs[0];
      var logo := LastCorner(objs, w, h, |objs|);
      var title := FirstTop(objs, h, 1);
      var aux := FirstAux(objs, logo, title, 1);
      Some(Slots(
        bg := Pick(Box(0.0, 0.0, w as real, h as real), 0.95),
        main := PickOf(main),
        logo := if logo.Some? then PickOf(objs[logo.value]) else Pick(Box(0.0, 0.0, w as real * 0.25, h as real * 0.25), 0.4),
        title := if title.Some? then PickOf(objs[title.value]) else Pick(Box(0.0, 0.0, w as real, h as real * 0.22), 0.5),
        aux := if aux.Some? then PickOf(objs[aux.value]) else Pick(AuxFallback(main, w, h), 0.35)))
  }

  /** Every detection, measured, appears in the sorted list. */
  lemma MeasuredInSorted(dets: seq<Detection>, w: Pos, h: Pos, i: int)
    requires 0 <= i < |dets|
    ensures Measure(dets[i], w, h) in SortedObjs(dets, w, h)
  {
    var all := seq(|dets|, j requires 0 <= j < |dets| => Measure(dets[j], w, h));
    assert all[i] == Measure(dets[i], w, h);
    assert all[i] in multiset(all);
    assert Measure(dets[i], w, h) in multiset(SortedObjs(dets, w, h));
  }

  /** The main slot holds a detection of the largest area. */
  lemma MainIsLargest(dets: seq<Detection>, w: Pos, h: Pos)
    requires |dets| > 0
    ensures MapDetections(dets, w, h).value.main.box == PickOf(SortedObjs(dets, w, h)[0]).box
    ensures forall i :: 0 <= i < |dets| ==> Measure(dets[i], w, h).area <= SortedObjs(dets, w, h)[0].area
    ensures exists i :: 0 <= i < |dets| && Measure(dets[i], w, h) == SortedObjs(dets, w, h)[0]
  {
    var objs := SortedObjs(dets, w, h);
    var all := seq(|dets|, j requires 0 <= j < |dets| => Measure(dets[j], w, h));
    forall i | 0 <= i < |dets| ensures Measure(dets[i], w, h).area <= objs[0].area {
      MeasuredInSorted(dets, w, h, i);
      var k :| 0 <= k < |objs| && objs[k] == Measure(dets[i], w, h);
      if k > 0 {
        assert Area(objs[0]) >= Area(objs[k]);
      }
    }
    assert objs[0] in multiset(all);
    var i :| 0 <= i < |all| && all[i] == objs[0];
    assert Measure(dets[i], w, h) == objs[0];
  }

  /** A detected logo is the smallest-area corner object other than the main one; with
      no such object the logo slot is the top-left quarter-size region. */
  lemma LogoRule(dets: seq<Detection>, w: Pos, h: Pos)
    requires |dets| > 0
    ensures var objs := SortedObjs(dets, w, h);
      var logo := MapDetections(dets, w, h).value.logo;
      (exists k :: 1 <= k < |objs| && InCorner(objs[k], w, h) && logo == PickOf(objs[k])
         && forall j :: 1 <= j < |objs| && InCorner(objs[j], w, h) ==> objs[k].area <= objs[j].area)
      || ((forall j :: 1 <= j < |objs| ==> !InCorner(objs[j], w, h))
         && logo == Pick(Box(0.0, 0.0, w as real * 0.25, h as real * 0.25), 0.4))
  {
    var objs := SortedObjs(dets, w, h);
    var r := LastCorner(objs, w, h, |objs|);
    if r.Some? {
      var k := r.value;
      forall j | 1 <= j < |objs| && InCorner(objs[j], w, h) ensures objs[k].area <= objs[j].area {
        if j < k {
          assert Area(objs[j]) >= Area(objs[k]);
        }
      }
    }
  }

  /** A detected title is the largest-area object other than the main one whose centre is
      in the top 35%; with none, the title slot is the top 22% strip. */
  lemma TitleRule(dets: seq<Detection>, w: Pos, h: Pos)
    requires |dets| > 0
    ensures var objs := SortedObjs(dets, w, h);
      var title := MapDetections(dets, w, h).value.title;
      (exists k :: 1 <= k < |objs| && NearTop(objs[k], h) && title == PickOf(objs[k])
         && forall j :: 1 <= j < |objs| && NearTop(objs[j], h) ==> objs[j].area <= objs[k].area)
      || ((forall j :: 1 <= j < |objs| ==> !NearTop(objs[j], h))
         && title == Pick(Box(0.0, 0.0, w as real, h as real * 0.22), 0.5))
  {
    var objs := SortedObjs(dets, w, h);
    var r := FirstTop(objs, h, 1);
    if r.Some? {
      var k := r.value;
      forall j | 1 <= j < |objs| && NearTop(objs[j], h) ensures objs[j].area <= objs[k].area {
        if k < j {
          assert Area(objs[k]) >= Area(objs[j]);
        }
      }
    }
  }

  /** The auxiliary slot holds the largest-area object that is none of main, logo and
      title; with none left, it holds the band on the side away from the main object. */
  lemma AuxRule(dets: seq<Detection>, w: Pos, h: Pos)
    requires |dets| > 0
    ensures var objs := SortedObjs(dets, w, h);
      var logo, title := LastCorner(objs, w, h, |objs|), FirstTop(objs, h, 1);
      var aux := MapDetections(dets, w, h).value.aux;
      (exists k :: 1 <= k < |objs| && NotPicked(k, logo, title) && aux == PickOf(objs[k])
         && forall j :: 1 <= j < |objs| && NotPicked(j, logo, title) ==> objs[j].area <= objs[k].area)
      || ((forall j :: 1 <= j < |objs| ==> !NotPicked(j, logo, title))
         && aux == Pick(AuxFallback(objs[0], w, h), 0.35))
  {
    var objs := SortedObjs(dets, w, h);
    var logo, title := LastCorner(objs, w, h, |objs|), FirstTop(objs, h, 1);
    var r := FirstAux(objs, logo, title, 1);
    if r.Some? {
      var k := r.value;
      forall j | 1 <= j < |objs| && NotPicked(j, logo, title) ensures objs[j].area <= objs[k].area {
        if k < j {
          assert Area(objs[k]) >= Area(objs[j]);
        }
      }
    }
  }

  /** At most two objects are taken by the logo and title rules, so with four or more
      detections the auxiliary slot always holds a detected object. */
  lemma AuxDetectedWhenEnough(dets: seq<Detection>, w: Pos, h: Pos)
    requires |dets| >= 4
    ensures var objs := SortedObjs(dets, w, h);
      FirstAux(objs, LastCorner(objs, w, h, |objs|), FirstTop(objs, h, 1), 1).Some?
  {
    var objs := SortedObjs(dets, w, h);
    var logo, title := LastCorner(objs, w, h, |objs|), FirstTop(objs, h, 1);
    if !NotPicked(1, logo, title) && !NotPicked(2, logo, title) {
      assert NotPicked(3, logo, title);
    }
  }
}
