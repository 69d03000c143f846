/** The layout engine behind `composeImage` and `compositeAIWithElements`: the aspect
    class of the target canvas, the golden-ratio font scale, the cover and contain fits,
    the anchor of every image and text layer, and the walk over the layer order. Drawing
    is modelled as the list of draw commands the walk emits, each tagged with its layer. */
module Layout {
  import opened Numeric
  import opened Regions
  import opened LayerOrder

  /** The ratio between consecutive font sizes. */
  const Phi: real := 1.618

  /** The tag of the commands drawn before the layer walk: the background crop, the
      fallback gradient or the generated background. */
  const Background: string := "background"

  /** A source canvas; the layout reads only its size. */
  datatype Canvas = Canvas(w: Pos, h: Pos)

  /** One entry of the offsets table: a shift in percent of the canvas size and a scale. */
  datatype Offset = Offset(dx: real, dy: real, scale: real)

  datatype Offsets = Offsets(main: Offset, logo: Offset, titleImg: Offset, aux: Offset,
                             title: Offset, subtitle: Offset, desc: Offset, note: Offset, date: Offset)

  /** The table `composeImage` falls back to, and the only one it is ever given: no shifts,
      scale 1. */
  const DefaultOffsets: Offsets :=
    Offsets(Offset(0.0, 0.0, 1.0), Offset(0.0, 0.0, 1.0), Offset(0.0, 0.0, 1.0), Offset(0.0, 0.0, 1.0),
            Offset(0.0, 0.0, 1.0), Offset(0.0, 0.0, 1.0), Offset(0.0, 0.0, 1.0), Offset(0.0, 0.0, 1.0),
            Offset(0.0, 0.0, 1.0))

  /** The table `compositeAIWithElements` uses: the main visual at 60 %, the logo doubled. */
  const AIOffsets: Offsets :=
    Offsets(Offset(0.0, 0.0, 0.6), Offset(0.0, 0.0, 2.0), Offset(0.0, 0.0, 1.0), Offset(0.0, 0.0, 1.0),
            Offset(0.0, 0.0, 1.0), Offset(0.0, 0.0, 1.0), Offset(0.0, 0.0, 1.0), Offset(0.0, 0.0, 1.0),
            Offset(0.0, 0.0, 1.0))

  /** `scale || 1`: a zero scale means 1. */
  function ScaleOf(o: Offset): real
  {
    if o.scale == 0.0 then 1.0 else o.scale
  }

  /** No image layer is mirrored by a negative scale. */
  predicate ScalesOk(o: Offsets)
  {
    o.main.scale >= 0.0 && o.logo.scale >= 0.0 && o.titleImg.scale >= 0.0 && o.aux.scale >= 0.0
  }

  /** The three aspect flags `isPortrait`, `isLandscape` and `isSquare`. */
  datatype Aspect = Aspect(portrait: bool, landscape: bool, square: bool)

  /** The aspect class of a `tw`-by-`th` canvas: portrait when it is more than 1.2 times as
      tall as wide, landscape when more than 1.2 times as wide as tall, square otherwise;
      exactly one flag is set. */
  function AspectOf(tw: real, th: real): (a: Aspect)
    ensures tw > 0.0 && th > 0.0 ==>
      (a.portrait && !a.landscape && !a.square) ||
      (!a.portrait && a.landscape && !a.square) ||
      (!a.portrait && !a.landscape && a.square)
    ensures a.portrait <==> th / 1.2 > tw
    ensures a.landscape <==> tw / 1.2 > th
  {
    var p, l := th > tw * 1.2, tw > th * 1.2;
    Aspect(p, l, !p && !l)
  }

  /** The five font sizes in pixels. */
  datatype Fonts = Fonts(note: int, date: int, desc: int, subtitle: int, title: int)

  /** Font sizes on a golden-ratio scale from a base of 2.8 % of the shorter side: the note
      is the base rounded; date, description, subtitle and title are the base times 0.8 Phi,
      Phi, Phi squared and Phi cubed, rounded; every size is at least the one below it. */
  function FontsFor(tw: real, th: real): (f: Fonts)
    requires tw >= 0.0 && th >= 0.0
    ensures 0 <= f.note <= f.date <= f.desc <= f.subtitle <= f.title
    ensures -0.5 < f.note as real - 0.028 * Min(tw, th) <= 0.5
    ensures -0.5 < f.date as real - 0.028 * Min(tw, th) * Phi * 0.8 <= 0.5
    ensures -0.5 < f.desc as real - 0.028 * Min(tw, th) * Phi <= 0.5
    ensures -0.5 < f.subtitle as real - 0.028 * Min(tw, th) * Phi * Phi <= 0.5
    ensures -0.5 < f.title as real - 0.028 * Min(tw, th) * Phi * Phi * Phi <= 0.5
  {
    var base := Min(tw, th) * 0.028;
    RoundMonotone(0.0, base);
    RoundMonotone(base, base * Phi * 0.8);
    RoundMonotone(base * Phi * 0.8, base * Phi);
    RoundMonotone(base * Phi, base * Phi * Phi);
    RoundMonotone(base * Phi * Phi, base * Phi * Phi * Phi);
    Fonts(Round(base), Round(base * Phi * 0.8), Round(base * Phi), Round(base * Phi * Phi),
          Round(base * Phi * Phi * Phi))
  }

  /** `textShift`: portrait canvases keep the texts where they are, the others move them
      down by a tenth of the height. */
  function TextShift(a: Aspect, th: real): (r: real)
    ensures th > 0.0 ==> (r == 0.0 <==> a.portrait)
    ensures !a.portrait ==> r == th * 0.10
  {
    if a.portrait then 0.0 else th * 0.10
  }

  /** One entry of the texts object: the trimmed text, the chosen weight (0 when the
      weight field is empty) and the chosen colour ("" when none is set). */
  datatype TextItem = TextItem(text: string, weight: nat, color: string)

  /** The `params` object handed to `drawLayer`. */
  datatype Scene = Scene(tw: real, th: real, crops: map<string, Canvas>, offsets: Offsets,
                         aspect: Aspect, texts: map<string, TextItem>, fonts: Fonts, shift: real)

  /** A scene the program can build: positive canvas size and no negative image scale. */
  predicate Valid(s: Scene)
  {
    s.tw > 0.0 && s.th > 0.0 && ScalesOk(s.offsets)
  }

  /** The scene both compose functions derive from the canvas size, texts, crops and
      offsets. */
  function SceneFor(tw: Pos, th: Pos, texts: map<string, TextItem>, crops: map<string, Canvas>,
                    offsets: Offsets): (s: Scene)
    ensures ScalesOk(offsets) ==> Valid(s)
    ensures s.crops == crops && s.texts == texts && s.offsets == offsets
  {
    var a := AspectOf(tw as real, th as real);
    Scene(tw as real, th as real, crops, offsets, a, texts, FontsFor(tw as real, th as real),
          TextShift(a, th as real))
  }

  /** One draw call: an image (source rectangle into destination rectangle), a text, or a
      fill; each carries the layer it belongs to. */
  datatype DrawOp =
    | Image(layer: string, src: Box, dst: Box)
    | Text(layer: string, text: string, color: string, weight: nat, size: int, x: real, y: real,
           maxWidth: real)
    | Fill(layer: string, dst: Box)

  /** `a` lies inside `b`. */
  predicate Inside(a: Box, b: Box)
  {
    b.x <= a.x && a.x + a.w <= b.x + b.w && b.y <= a.y && a.y + a.h <= b.y + b.h
  }

  /** `a` and `b` have the same centre. */
  predicate Centred(a: Box, b: Box)
  {
    2.0 * a.x + a.w == 2.0 * b.x + b.w && 2.0 * a.y + a.h == 2.0 * b.y + b.h
  }

  /** The whole of a `w`-by-`h` area. */
  function Full(w: real, h: real): Box
  {
    Box(0.0, 0.0, w, h)
  }

  /** `drawCover`: the part of the source drawn into a `dw`-by-`dh` destination. It lies
      inside the source, shares its centre, spans its full width or full height, and has the
      destination's aspect ratio, so the destination is covered without distortion. */
  function Cover(src: Canvas, dw: real, dh: real): (c: Box)
    requires dw > 0.0 && dh > 0.0
    ensures Inside(c, Full(src.w as real, src.h as real))
    ensures Centred(c, Full(src.w as real, src.h as real))
    ensures (c.x == 0.0 && c.w == src.w as real) || (c.y == 0.0 && c.h == src.h as real)
    ensures c.w > 0.0 && c.h > 0.0
    ensures c.w * dh == c.h * dw
  {
    var sw, sh := src.w as real, src.h as real;
    var srcRatio, dstRatio := sw / sh, dw / dh;
    assert dstRatio * dh == dw;
    PositiveProduct(sh, dstRatio);
    QuotientAbove(sw, sh, dstRatio);
    if srcRatio > dstRatio then
      var cropW := sh * dstRatio;
      Box((sw - cropW) / 2.0, 0.0, cropW, sh)
    else
      var cropH := sw / dstRatio;
      QuotientAbove(sw, dstRatio, sh);
      assert cropH * dstRatio == sw;
      assert cropH * dw == sw * dh by {
        calc {
          cropH * dw;
          cropH * (dstRatio * dh);
          (cropH * dstRatio) * dh;
        }
      }
      Box(0.0, (sh - cropH) / 2.0, sw, cropH)
  }

  /** `drawContain`: where the whole source lands inside the destination box. The result
      lies inside the box, shares its centre, keeps the source's aspect ratio and touches
      either both sides or both the top and the bottom of the box. */
  function Contain(src: Canvas, dst: Box): (r: Box)
    requires dst.w > 0.0 && dst.h > 0.0
    ensures Inside(r, dst) && Centred(r, dst)
    ensures r.w * src.h as real == r.h * src.w as real
    ensures r.w == dst.w || r.h == dst.h
    ensures r.w > 0.0 && r.h > 0.0
  {
    var sw, sh := src.w as real, src.h as real;
    var scale := Min(dst.w / sw, dst.h / sh);
    var rw, rh := sw * scale, sh * scale;
    assert sw * (dst.w / sw) == dst.w && sh * (dst.h / sh) == dst.h;
    ScaleLe(scale, dst.w / sw, sw);
    ScaleLe(scale, dst.h / sh, sh);
    PositiveProduct(sw, scale);
    PositiveProduct(sh, scale);
    Box(dst.x + (dst.w - rw) / 2.0, dst.y + (dst.h - rh) / 2.0, rw, rh)
  }

  /** The box scaled by `sc` about its own centre, then shifted by `(ox, oy)`. */
  function ScaleAbout(b: Box, sc: real, ox: real, oy: real): Box
  {
    Box(b.x + (b.w - b.w * sc) / 2.0 + ox, b.y + (b.h - b.h * sc) / 2.0 + oy, b.w * sc, b.h * sc)
  }

  /** Scaling keeps the centre, and a scale of at most 1 keeps the box inside the original. */
  lemma ScaleAboutCentre(b: Box, sc: real)
    requires b.w >= 0.0 && b.h >= 0.0
    ensures Centred(ScaleAbout(b, sc, 0.0, 0.0), b)
    ensures 0.0 <= sc <= 1.0 ==> Inside(ScaleAbout(b, sc, 0.0, 0.0), b)
  {
    if 0.0 <= sc <= 1.0 {
      ScaleLe(sc, 1.0, b.w);
      ScaleLe(sc, 1.0, b.h);
      ScaleLe(0.0, sc, b.w);
      ScaleLe(0.0, sc, b.h);
    }
  }

  /** The destination of the main visual: the whole canvas scaled about its centre and
      shifted. */
  function MainBox(s: Scene): Box
  {
    Placed(Full(s.tw, s.th), s.offsets.main, s)
  }

  /** The unscaled slot of the title image for each aspect class. */
  function TitleSlot(s: Scene): Box
  {
    var tw, th := s.tw, s.th;
    if s.aspect.portrait then Box((tw - tw * 0.30) / 2.0, th * 0.47, tw * 0.30, th * 0.08)
    else if s.aspect.landscape then Box(tw * 0.58, th * 0.06, tw * 0.22, th * 0.12)
    else Box((tw - tw * 0.28) / 2.0, th * 0.53, tw * 0.28, th * 0.10)
  }

  /** The unscaled slot of the auxiliary image: a square whose side is a fraction of the
      canvas width. */
  function AuxSlot(s: Scene): Box
  {
    var tw, th := s.tw, s.th;
    if s.aspect.portrait then Box(tw * 0.74, th * 0.40, tw * 0.22, tw * 0.22)
    else if s.aspect.landscape then Box(tw * 0.82, th * 0.04, tw * 0.14, tw * 0.14)
    else Box(tw * 0.78, th * 0.36, tw * 0.18, tw * 0.18)
  }

  /** A slot scaled about its centre and shifted by the layer's offset. */
  function Placed(slot: Box, o: Offset, s: Scene): Box
  {
    ScaleAbout(slot, ScaleOf(o), s.tw * o.dx / 100.0, s.th * o.dy / 100.0)
  }

  /** A slot of positive size stays of positive size once placed, the scale being
      positive. */
  lemma ScaledPositive(slot: Box, o: Offset, s: Scene)
    requires slot.w > 0.0 && slot.h > 0.0 && o.scale >= 0.0
    ensures Placed(slot, o, s).w > 0.0 && Placed(slot, o, s).h > 0.0
  {
    PositiveProduct(slot.w, ScaleOf(o));
    PositiveProduct(slot.h, ScaleOf(o));
  }

  /** The title image slot lies inside the canvas in every aspect class. */
  lemma TitleSlotInside(s: Scene)
    requires Valid(s)
    ensures Inside(TitleSlot(s), Full(s.tw, s.th))
  {
  }

  /** The auxiliary image slot lies inside the canvas for portrait and square canvases; on
      a landscape canvas only while the canvas is at most 6.86 times as wide as tall, as its
      side follows the width while its top follows the height. */
  lemma AuxSlotInside(s: Scene)
    requires Valid(s) && s.aspect == AspectOf(s.tw, s.th)
    ensures !s.aspect.landscape ==> Inside(AuxSlot(s), Full(s.tw, s.th))
    ensures s.aspect.landscape ==> (Inside(AuxSlot(s), Full(s.tw, s.th)) <==> s.tw * 0.14 <= s.th * 0.96)
  {
  }

  /** With no shift and a scale of at most 1 the title image is drawn inside the canvas. */
  lemma TitleImageInside(s: Scene)
    requires Valid(s) && ThumbTitle in s.crops
    requires s.offsets.titleImg.dx == 0.0 && s.offsets.titleImg.dy == 0.0 && s.offsets.titleImg.scale <= 1.0
    ensures Inside(DrawLayer(ThumbTitle, s)[0].dst, Full(s.tw, s.th))
  {
    var slot := TitleSlot(s);
    TitleSlotInside(s);
    ScaleAboutCentre(slot, ScaleOf(s.offsets.titleImg));
    assert Placed(slot, s.offsets.titleImg, s) == ScaleAbout(slot, ScaleOf(s.offsets.titleImg), 0.0, 0.0);
  }

  /** With no shift and a scale of at most 1 the auxiliary image is drawn inside the canvas,
      unless the canvas is a landscape more than 6.86 times as wide as tall. */
  lemma AuxImageInside(s: Scene)
    requires Valid(s) && s.aspect == AspectOf(s.tw, s.th) && ThumbAux in s.crops
    requires s.offsets.aux.dx == 0.0 && s.offsets.aux.dy == 0.0 && s.offsets.aux.scale <= 1.0
    requires s.aspect.landscape ==> s.tw * 0.14 <= s.th * 0.96
    ensures Inside(DrawLayer(ThumbAux, s)[0].dst, Full(s.tw, s.th))
  {
    var slot := AuxSlot(s);
    AuxSlotInside(s);
    ScaleAboutCentre(slot, ScaleOf(s.offsets.aux));
    assert Placed(slot, s.offsets.aux, s) == ScaleAbout(slot, ScaleOf(s.offsets.aux), 0.0, 0.0);
  }

  /** The logo's width and height: first fitted into a square of 30 % of the shorter side
      times the scale, then forced to a height of exactly 100 pixels. */
  function LogoSize(c: Canvas, tw: real, th: real, scale: real): (r: (int, int))
    ensures r.1 == 100
  {
    var logoMax := Round(Min(tw, th) * 0.30 * scale);
    var ratio := c.w as real / c.h as real;
    var (lw, lh) :=
      if ratio >= 1.0 then (logoMax, Round(logoMax as real / ratio))
      else (Round(logoMax as real * ratio), logoMax);
    if lh != 100 then (Round(100.0 * ratio), 100) else (lw, lh)
  }

  /** Whatever the canvas size and scale, the logo is 100 pixels high and as wide as its
      aspect ratio asks, up to rounding: half a pixel, or half the ratio when it is wider
      than tall and the first fit already gave a height of 100. */
  lemma LogoKeepsAspect(c: Canvas, tw: real, th: real, scale: real)
    ensures var ratio := c.w as real / c.h as real;
      -0.5 * Max(1.0, ratio) <= LogoSize(c, tw, th, scale).0 as real - 100.0 * ratio <= 0.5 * Max(1.0, ratio)
  {
    var logoMax := Round(Min(tw, th) * 0.30 * scale);
    var ratio := c.w as real / c.h as real;
    PositiveProduct(c.w as real, 1.0 / c.h as real);
    if ratio >= 1.0 && Round(logoMax as real / ratio) == 100 {
      var q := logoMax as real / ratio;
      assert q * ratio == logoMax as real;
      assert 99.5 <= q <= 100.5;
      ScaleLe(99.5, q, ratio);
      ScaleLe(q, 100.5, ratio);
      assert 99.5 * ratio <= q * ratio <= 100.5 * ratio;
      assert LogoSize(c, tw, th, scale).0 == logoMax;
    }
  }

  /** Where the logo lands: centred across the canvas and centred on a line at a tenth of
      the height, before its offset. */
  function LogoBox(c: Canvas, s: Scene): (b: Box)
    ensures s.offsets.logo.dx == 0.0 ==> 2.0 * b.x + b.w == s.tw
    ensures s.offsets.logo.dy == 0.0 ==> 2.0 * b.y + b.h == s.th * 0.20
    ensures b.h == 100.0
  {
    var o := s.offsets.logo;
    var (lw, lh) := LogoSize(c, s.tw, s.th, ScaleOf(o));
    Box((s.tw - lw as real) / 2.0 + s.tw * o.dx / 100.0,
        (s.th * 0.28 - lh as real) / 2.0 - s.th * 0.04 + s.th * o.dy / 100.0,
        lw as real, lh as real)
  }

  /** The key of a text layer in the texts and offsets objects. */
  function TextKey(id: string): Option<string>
  {
    if id == TextTitle then Some("title")
    else if id == TextSubtitle then Some("subtitle")
    else if id == TextDesc then Some("desc")
    else if id == TextNote then Some("note")
    else if id == TextDate then Some("date")
    else None
  }

  function TextOffset(o: Offsets, key: string): Offset
  {
    if key == "title" then o.title
    else if key == "subtitle" then o.subtitle
    else if key == "desc" then o.desc
    else if key == "note" then o.note
    else o.date
  }

  /** The baseline of each text before its offset: the title at 28 % of the height plus the
      shift, the subtitle 1.3 title sizes below, the description below the subtitle (at 40 %
      on portrait canvases), the note 60 pixels above the bottom and the date above the
      title. */
  function TextBaseY(key: string, s: Scene): real
  {
    var subtitleY := s.th * 0.28 + s.fonts.title as real * 1.3 + s.shift;
    if key == "title" then s.th * 0.28 + s.shift
    else if key == "subtitle" then subtitleY
    else if key == "desc" then
      (if s.aspect.portrait then s.th * 0.40 else subtitleY + s.fonts.subtitle as real + s.th * 0.10)
    else if key == "note" then s.th - 60.0
    else s.th * 0.28 + s.shift - s.th * 0.10 - (if s.aspect.portrait then 0.0 else s.th * 0.05)
  }

  /** Font size and default weight of each text. */
  function TextStyle(key: string, f: Fonts): (int, nat)
  {
    if key == "title" then (f.title, 800)
    else if key == "subtitle" then (f.subtitle, 700)
    else if key == "desc" then (f.desc, 400)
    else if key == "note" then (f.note, 400)
    else (f.date, 700)
  }

  /** The date sits above the title, the title above the subtitle, and on canvases that are
      not portrait the description below the subtitle. */
  lemma TextStack(tw: Pos, th: Pos, texts: map<string, TextItem>, crops: map<string, Canvas>, offsets: Offsets)
    ensures var s := SceneFor(tw, th, texts, crops, offsets);
      TextBaseY("date", s) < TextBaseY("title", s) <= TextBaseY("subtitle", s) &&
      (!s.aspect.portrait ==> TextBaseY("subtitle", s) < TextBaseY("desc", s))
  {
  }

  /** `td.weight || dw`: the chosen weight, or the text's default weight when none is chosen. */
  function Chosen(weight: nat, default: nat): (w: nat)
    ensures weight != 0 ==> w == weight
    ensures weight == 0 ==> w == default
  {
    if weight == 0 then default else weight
  }

  /** The text command of a text layer whose entry is present. */
  function TextOp(id: string, key: string, s: Scene): (op: DrawOp)
    requires key in s.texts
    ensures op.Text? && op.layer == id && op.text == s.texts[key].text
    ensures op.x == s.tw / 2.0 + s.tw * TextOffset(s.offsets, key).dx / 100.0
    ensures TextOffset(s.offsets, key).dx == 0.0 ==> op.x == s.tw / 2.0
    ensures op.color == (if s.texts[key].color == [] then "#FFFFFF" else s.texts[key].color)
    ensures key == "title" ==> op.size == s.fonts.title && op.weight == Chosen(s.texts[key].weight, 800)
    ensures key == "subtitle" ==> op.size == s.fonts.subtitle && op.weight == Chosen(s.texts[key].weight, 700)
    ensures key == "desc" ==> op.size == s.fonts.desc && op.weight == Chosen(s.texts[key].weight, 400)
    ensures key == "note" ==> op.size == s.fonts.note && op.weight == Chosen(s.texts[key].weight, 400)
    ensures key == "date" ==> op.size == s.fonts.date && op.weight == Chosen(s.texts[key].weight, 700)
    ensures op.y == TextBaseY(key, s) + s.th * TextOffset(s.offsets, key).dy / 100.0
    ensures op.maxWidth == s.tw * 0.85
  {
    var o := TextOffset(s.offsets, key);
    var td := s.texts[key];
    var (size, weight) := TextStyle(key, s.fonts);
    Text(id, td.text, if td.color == [] then "#FFFFFF" else td.color, Chosen(td.weight, weight), size,
         s.tw / 2.0 + s.tw * o.dx / 100.0, TextBaseY(key, s) + s.th * o.dy / 100.0, s.tw * 0.85)
  }

  /** The crop key of an image layer: the logo layer is `thumbLogo`, the others share their
      layer id. */
  predicate IsImageLayer(id: string)
  {
    id == ThumbMain || id == ThumbTitle || id == ThumbAux || id == ThumbLogo
  }

  /** Whether `drawLayer` draws anything for the id: an image layer whose crop exists, or a
      text layer whose entry exists with non-empty text. */
  predicate Drawn(id: string, s: Scene)
  {
    (IsImageLayer(id) && id in s.crops) ||
    (TextKey(id).Some? && TextKey(id).value in s.texts && s.texts[TextKey(id).value].text != [])
  }

  /** `drawLayer`: the commands one layer adds, at most one and tagged with the layer. */
  function DrawLayer(id: string, s: Scene): (ops: seq<DrawOp>)
    requires Valid(s)
    ensures |ops| == (if Drawn(id, s) then 1 else 0)
    ensures forall op | op in ops :: op.layer == id
  {
    if IsImageLayer(id) then
      if id !in s.crops then []
      else
        var c := s.crops[id];
        if id == ThumbMain then
          var dst := MainBox(s);
          ScaledPositive(Full(s.tw, s.th), s.offsets.main, s);
          [Image(id, Cover(c, dst.w, dst.h), dst)]
        else if id == ThumbTitle then
          var dst := Placed(TitleSlot(s), s.offsets.titleImg, s);
          ScaledPositive(TitleSlot(s), s.offsets.titleImg, s);
          [Image(id, Full(c.w as real, c.h as real), Contain(c, dst))]
        else if id == ThumbAux then
          var dst := Placed(AuxSlot(s), s.offsets.aux, s);
          ScaledPositive(AuxSlot(s), s.offsets.aux, s);
          [Image(id, Full(c.w as real, c.h as real), Contain(c, dst))]
        else
          [Image(id, Full(c.w as real, c.h as real), LogoBox(c, s))]
    else
      match TextKey(id)
      case None => []
      case Some(key) =>
        if key in s.texts && s.texts[key].text != [] then [TextOp(id, key, s)] else []
  }

  /** The commands of the layer walk `for (const layerId of layerOrder) drawLayer(...)`. */
  function Walk(order: seq<string>, s: Scene): seq<DrawOp>
    requires Valid(s)
  {
    if order == [] then [] else Walk(order[..|order| - 1], s) + DrawLayer(order[|order| - 1], s)
  }

  /** Every command of the walk belongs to a layer of the order, every layer that has
      something to draw is drawn, and, the order having no repeats, the layers come in the
      order's sequence: each at most once. */
  lemma WalkFollowsOrder(order: seq<string>, s: Scene)
    requires Valid(s) && Distinct(order)
    ensures forall i | 0 <= i < |Walk(order, s)| :: Walk(order, s)[i].layer in order
    ensures forall i, j | 0 <= i < j < |Walk(order, s)| ::
      IndexOf(order, Walk(order, s)[i].layer) < IndexOf(order, Walk(order, s)[j].layer)
    ensures forall id | id in order && Drawn(id, s) :: exists i | 0 <= i < |Walk(order, s)| :: Walk(order, s)[i].layer == id
  {
    WalkLayers(order, s);
    WalkOrdered(order, s);
    WalkComplete(order, s);
  }

  lemma {:induction false} WalkLayers(order: seq<string>, s: Scene)
    requires Valid(s)
    ensures forall i | 0 <= i < |Walk(order, s)| :: Walk(order, s)[i].layer in order
  {
    if order != [] {
      var n := |order| - 1;
      var pre, last := order[..n], order[n];
      WalkLayers(pre, s);
      var ops, tail := Walk(pre, s), DrawLayer(last, s);
      var all: seq<DrawOp> := ops + tail;
      forall i | 0 <= i < |all| ensures all[i].layer in order {
        if i < |ops| {
          assert all[i] == ops[i];
          assert ops[i].layer in pre;
        } else {
          assert all[i] in tail;
        }
      }
    }
  }

  lemma {:induction false} WalkOrdered(order: seq<string>, s: Scene)
    requires Valid(s) && Distinct(order)
    ensures forall i, j | 0 <= i < j < |Walk(order, s)| ::
      IndexOf(order, Walk(order, s)[i].layer) < IndexOf(order, Walk(order, s)[j].layer)
  {
    if order != [] {
      var n := |order| - 1;
      var pre, last := order[..n], order[n];
      var ops, tail := Walk(pre, s), DrawLayer(last, s);
      assert Distinct(pre);
      WalkOrdered(pre, s);
      WalkLayers(pre, s);
      IndexOfDistinct(order, n);
      forall i | 0 <= i < |ops| ensures IndexOf(order, ops[i].layer) == IndexOf(pre, ops[i].layer) < n {
        var k := IndexOf(pre, ops[i].layer);
        assert pre[k] == order[k];
        IndexOfDistinct(order, k);
        IndexOfDistinct(pre, k);
      }
    }
  }

  lemma {:induction false} WalkComplete(order: seq<string>, s: Scene)
    requires Valid(s)
    ensures forall id | id in order && Drawn(id, s) :: exists i | 0 <= i < |Walk(order, s)| :: Walk(order, s)[i].layer == id
  {
    if order != [] {
      var n := |order| - 1;
      var pre, last := order[..n], order[n];
      var ops, tail := Walk(pre, s), DrawLayer(last, s);
      WalkComplete(pre, s);
      SplitLast(order);
      var all := ops + tail;
      assert Walk(order, s) == all;
      forall id | id in order && Drawn(id, s) ensures exists i | 0 <= i < |all| :: all[i].layer == id {
        if id == last {
          assert all[|ops|].layer == id;
        } else {
          assert id in pre;
          var i :| 0 <= i < |ops| && ops[i].layer == id;
          assert all[i].layer == id;
        }
      }
    }
  }

  /** What goes under the layers in `composeImage`: the background crop covering the
      canvas, or the fallback gradient when there is none. */
  function BackgroundOp(s: Scene): (op: DrawOp)
    requires Valid(s)
    ensures !op.Text? && op.layer == Background && op.dst == Full(s.tw, s.th)
    ensures op.Image? <==> ThumbBg in s.crops
  {
    if ThumbBg in s.crops then Image(Background, Cover(s.crops[ThumbBg], s.tw, s.th), Full(s.tw, s.th))
    else Fill(Background, Full(s.tw, s.th))
  }

  const ThumbBg: string := "thumbBg"

  /** `composeImage`: the background, then every layer in the current order. */
  method ComposeImage(tw: Pos, th: Pos, texts: map<string, TextItem>, crops: map<string, Canvas>,
                      offsets: Offsets, order: seq<string>) returns (ops: seq<DrawOp>)
    requires ScalesOk(offsets)
    ensures ops == [BackgroundOp(SceneFor(tw, th, texts, crops, offsets))] + Walk(order, SceneFor(tw, th, texts, crops, offsets))
  {
    var s := SceneFor(tw, th, texts, crops, offsets);
    ops := [BackgroundOp(s)];
    var i := 0;
    while i < |order|
      invariant 0 <= i <= |order|
      invariant ops == [BackgroundOp(s)] + Walk(order[..i], s)
    {
      assert order[..i + 1][..i] == order[..i];
      ops := ops + DrawLayer(order[i], s);
      i := i + 1;
    }
    assert order[..|order|] == order;
  }

  /** The crops `compositeAIWithElements` keeps: all but the background and the main
      visual, which the generated background replaces. */
  function AICrops(crops: map<string, Canvas>): (r: map<string, Canvas>)
    ensures ThumbBg !in r && ThumbMain !in r
    ensures forall k | k in crops && k != ThumbBg && k != ThumbMain :: k in r && r[k] == crops[k]
    ensures forall k | k in r :: k in crops
  {
    crops - {ThumbBg, ThumbMain}
  }

  /** `compositeAIWithElements`: the generated background covering the canvas, then every
      layer in the current order with the AI offsets and without the background and main
      crops. */
  method ComposeAI(bg: Canvas, tw: Pos, th: Pos, texts: map<string, TextItem>, crops: map<string, Canvas>,
                   order: seq<string>) returns (ops: seq<DrawOp>)
    ensures ops == [Image(Background, Cover(bg, tw as real, th as real), Full(tw as real, th as real))] +
                   Walk(order, SceneFor(tw, th, texts, AICrops(crops), AIOffsets))
  {
    var s := SceneFor(tw, th, texts, AICrops(crops), AIOffsets);
    ops := [Image(Background, Cover(bg, tw as real, th as real), Full(tw as real, th as real))];
    var i := 0;
    while i < |order|
      invariant 0 <= i <= |order|
      invariant ops == [Image(Background, Cover(bg, tw as real, th as real), Full(tw as real, th as real))] + Walk(order[..i], s)
    {
      assert order[..i + 1][..i] == order[..i];
      ops := ops + DrawLayer(order[i], s);
      i := i + 1;
    }
    assert order[..|order|] == order;
  }

  /** Every command of the walk belongs to a layer that has something to draw. */
  lemma {:induction false} WalkDrawsOnlyDrawn(order: seq<string>, s: Scene)
    requires Valid(s)
    ensures forall op | op in Walk(order, s) :: Drawn(op.layer, s)
  {
    if order != [] {
      WalkDrawsOnlyDrawn(order[..|order| - 1], s);
    }
  }

  /** The AI composite never draws the background crop or the main visual: the only
      background is the generated one, and the main layer emits nothing. */
  lemma AIDropsMain(tw: Pos, th: Pos, texts: map<string, TextItem>, crops: map<string, Canvas>,
                    order: seq<string>)
    ensures forall op | op in Walk(order, SceneFor(tw, th, texts, AICrops(crops), AIOffsets)) ::
      op.layer != ThumbMain && op.layer != ThumbBg
  {
    WalkDrawsOnlyDrawn(order, SceneFor(tw, th, texts, AICrops(crops), AIOffsets));
  }

  /** With the default offsets the main visual covers the whole canvas. */
  lemma DefaultMainFillsCanvas(tw: Pos, th: Pos, texts: map<string, TextItem>, crops: map<string, Canvas>)
    requires ThumbMain in crops
    ensures DrawLayer(ThumbMain, SceneFor(tw, th, texts, crops, DefaultOffsets)) ==
      [Image(ThumbMain, Cover(crops[ThumbMain], tw as real, th as real), Full(tw as real, th as real))]
  {
  }
}
