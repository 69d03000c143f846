/** `classifyTextBySize` and `fillTextInput`: the text lines the OCR engine found are ranked
    by their height, split into title, subtitle, description and note, and each group is
    written into its text field in reading order. */
module TextBuckets {
  import opened Numeric
  import opened Sorting

  /** A line as the OCR engine reports it: text, box top and bottom, confidence. */
  datatype OcrLine = OcrLine(text: string, y0: real, y1: real, confidence: real)

  /** A kept line: trimmed text, box height (the stand-in for its font size) and top. */
  datatype Line = Line(text: string, height: real, confidence: real, y: real)

  /** The characters JavaScript's `trim` removes and `\s` matches: the white space and line
      terminators of ECMAScript. */
  predicate IsSpace(c: char)
  {
    c == ' ' || c == '\t' || c == '\n' || c == '\r' || c == '\U{000B}' || c == '\U{000C}' ||
    c == '\U{00A0}' || c == '\U{1680}' || ('\U{2000}' <= c <= '\U{200A}') || c == '\U{2028}' ||
    c == '\U{2029}' || c == '\U{202F}' || c == '\U{205F}' || c == '\U{3000}' || c == '\U{FEFF}'
  }

  /** `trimStart`: the longest suffix that does not begin with white space. */
  function TrimStart(s: string): (r: string)
    ensures |r| <= |s| && (r == [] || !IsSpace(r[0]))
    ensures r == s[|s| - |r|..]
    ensures forall k | 0 <= k < |s| - |r| :: IsSpace(s[k])
  {
    if s != [] && IsSpace(s[0]) then TrimStart(s[1..]) else s
  }

  /** `trimEnd`: the longest prefix that does not end with white space. */
  function TrimEnd(s: string): (r: string)
    ensures |r| <= |s| && (r == [] || !IsSpace(r[|r| - 1]))
    ensures r == s[..|r|]
    ensures forall k | |r| <= k < |s| :: IsSpace(s[k])
  {
    if s != [] && IsSpace(s[|s| - 1]) then TrimEnd(s[..|s| - 1]) else s
  }

  /** `r` is `s[i..j]` and everything of `s` outside that slice is white space. */
  predicate MiddleCut(s: string, i: int, j: int, r: string)
  {
    0 <= i <= j <= |s| && r == s[i..j] &&
    (forall k | 0 <= k < i :: IsSpace(s[k])) && (forall k | j <= k < |s| :: IsSpace(s[k]))
  }

  /** `str.trim()`: the middle of the string, with only white space cut off on either side
      and no white space left at either end. */
  function Trim(s: string): (r: string)
    ensures r == [] || (!IsSpace(r[0]) && !IsSpace(r[|r| - 1]))
    ensures exists i, j :: MiddleCut(s, i, j, r)
  {
    var t := TrimStart(s);
    var r := TrimEnd(t);
    TrimCut(s, t, r);
    r
  }

  /** Cutting white space off the start and then off the end cuts only white space, on
      both sides. */
  lemma TrimCut(s: string, t: string, r: string)
    requires |t| <= |s| && t == s[|s| - |t|..] && forall k | 0 <= k < |s| - |t| :: IsSpace(s[k])
    requires |r| <= |t| && r == t[..|r|] && forall k | |r| <= k < |t| :: IsSpace(t[k])
    ensures MiddleCut(s, |s| - |t|, |s| - |t| + |r|, r)
  {
    var i, j := |s| - |t|, |s| - |t| + |r|;
    assert r == s[i..j];
    forall k | j <= k < |s|
      ensures IsSpace(s[k])
    {
      assert s[k] == t[k - i];
    }
  }

  /** `str.replace(/\s+/g, '')`: every white-space character removed, the rest kept in
      order. */
  function StripSpaces(s: string): (r: string)
    ensures forall i | 0 <= i < |r| :: !IsSpace(r[i])
    ensures forall c | c in s && !IsSpace(c) :: c in r
    ensures |r| <= |s|
  {
    if s == [] then []
    else (if IsSpace(s[0]) then [] else [s[0]]) + StripSpaces(s[1..])
  }

  /** Removing white space works piece by piece: the pieces' results, in order. */
  lemma {:induction false} StripSpacesConcat(a: string, b: string)
    ensures StripSpaces(a + b) == StripSpaces(a) + StripSpaces(b)
  {
    if a == [] {
      assert a + b == b;
    } else {
      assert (a + b)[0] == a[0] && (a + b)[1..] == a[1..] + b;
      StripSpacesConcat(a[1..], b);
    }
  }

  /** A single character is dropped when it is white space and kept otherwise. */
  lemma StripSpacesChar(c: char)
    ensures StripSpaces([c]) == (if IsSpace(c) then [] else [c])
  {
    assert [c][1..] == [];
  }

  /** The lines kept for ranking: non-blank text read with confidence above 30, measured. */
  function Kept(raw: seq<OcrLine>): (r: seq<Line>)
    ensures forall l | l in r :: l.text != [] && l.confidence > 30.0
    ensures forall l | l in r :: exists o | o in raw :: Keeps(o) && l == Measured(o)
    ensures |r| <= |raw|
  {
    if raw == [] then []
    else
      var pre, l := raw[..|raw| - 1], raw[|raw| - 1];
      var r := Kept(pre) + (if Keeps(l) then [Measured(l)] else []);
      assert forall x | x in r :: exists o | o in raw :: Keeps(o) && x == Measured(o) by {
        forall x | x in r
          ensures exists o | o in raw :: Keeps(o) && x == Measured(o)
        {
          if x in Kept(pre) {
            var o :| o in pre && Keeps(o) && x == Measured(o);
            assert o in raw;
          } else {
            assert l in raw && Keeps(l) && x == Measured(l);
          }
        }
      }
      r
  }

  /** The filter of `classifyTextBySize`: non-blank text read with confidence above 30. */
  predicate Keeps(o: OcrLine)
  {
    |Trim(o.text)| > 0 && o.confidence > 30.0
  }

  /** Keeping works piece by piece and keeps the input order: the kept lines of a
      concatenation are those of the first part followed by those of the second. */
  lemma {:induction false} KeptConcat(a: seq<OcrLine>, b: seq<OcrLine>)
    ensures Kept(a + b) == Kept(a) + Kept(b)
  {
    if b == [] {
      assert a + b == a;
    } else {
      var front, o := b[..|b| - 1], b[|b| - 1];
      var last := if Keeps(o) then [Measured(o)] else [];
      assert b == front + [o];
      calc {
        Kept(a + b);
        { AppendAssoc(a, front, [o]); }
        Kept((a + front) + [o]);
        { KeptSnoc(a + front, o); }
        Kept(a + front) + last;
        { KeptConcat(a, front); }
        (Kept(a) + Kept(front)) + last;
        { AppendAssoc(Kept(a), Kept(front), last); }
        Kept(a) + (Kept(front) + last);
        { KeptSnoc(front, o); }
        Kept(a) + Kept(b);
      }
    }
  }

  /** Appending one line appends its measurement exactly when it passes the filter. */
  lemma KeptSnoc(s: seq<OcrLine>, o: OcrLine)
    ensures Kept(s + [o]) == Kept(s) + (if Keeps(o) then [Measured(o)] else [])
  {
    assert (s + [o])[..|s|] == s;
  }

  lemma AppendAssoc<T>(x: seq<T>, y: seq<T>, z: seq<T>)
    ensures (x + y) + z == x + (y + z)
  {
  }

  /** A single line is kept, measured, exactly when it passes the filter. */
  lemma KeptOne(o: OcrLine)
    ensures Kept([o]) == (if Keeps(o) then [Measured(o)] else [])
  {
    assert [o][..0] == [];
  }

  /** Every line with text read with confidence above 30 is kept. */
  lemma {:induction false} KeptComplete(raw: seq<OcrLine>, o: OcrLine)
    requires o in raw && |Trim(o.text)| > 0 && o.confidence > 30.0
    ensures Measured(o) in Kept(raw)
  {
    var pre := raw[..|raw| - 1];
    if o != raw[|raw| - 1] {
      assert raw == pre + [raw[|raw| - 1]];
      KeptComplete(pre, o);
    }
  }

  /** The kept form of an OCR line. */
  function Measured(o: OcrLine): Line
  {
    Line(Trim(o.text), o.y1 - o.y0, o.confidence, o.y0)
  }

  function Height(l: Line): real { l.height }

  /** `Math.max(...heights)`. */
  function MaxHeight(lines: seq<Line>): (m: real)
    requires lines != []
    ensures forall l | l in lines :: l.height <= m
    ensures exists l | l in lines :: l.height == m
  {
    if |lines| == 1 then lines[0].height
    else
      var rest := MaxHeight(lines[1..]);
      assert forall l | l in lines[1..] :: l in lines;
      if lines[0].height >= rest then lines[0].height else rest
  }

  /** `Math.min(...heights)`. */
  function MinHeight(lines: seq<Line>): (m: real)
    requires lines != []
    ensures forall l | l in lines :: m <= l.height
    ensures exists l | l in lines :: l.height == m
  {
    if |lines| == 1 then lines[0].height
    else
      var rest := MinHeight(lines[1..]);
      assert forall l | l in lines[1..] :: l in lines;
      if lines[0].height <= rest then lines[0].height else rest
  }

  /** The place of a height between the shortest (0) and the tallest (1) line. */
  function Ratio(height: real, minH: real, range: real): real
    requires range > 0.0
  {
    (height - minH) / range
  }

  /** The bucket for a ratio: 0 title above 0.7, 1 subtitle above 0.4, 2 description above
      0.15, 3 note. */
  function BandOfRatio(ratio: real): (b: int)
    ensures 0 <= b <= 3
  {
    if ratio > 0.7 then 0 else if ratio > 0.4 then 1 else if ratio > 0.15 then 2 else 3
  }

  /** The bucket of a line, with the ratio's thresholds multiplied out by the (positive)
      spread. */
  function BandOf(height: real, minH: real, range: real): (b: int)
    ensures 0 <= b <= 3
  {
    var d := height - minH;
    if d > 0.7 * range then 0 else if d > 0.4 * range then 1 else if d > 0.15 * range then 2 else 3
  }

  /** Multiplying the thresholds out picks the same bucket as comparing the ratio. */
  lemma BandOfAgrees(height: real, minH: real, range: real)
    requires range > 0.0
    ensures BandOfRatio(Ratio(height, minH, range)) == BandOf(height, minH, range)
  {
    QuotientAbove(height - minH, range, 0.7);
    QuotientAbove(height - minH, range, 0.4);
    QuotientAbove(height - minH, range, 0.15);
  }

  /** A taller line never lands in a lower bucket than a shorter one. */
  lemma BandMonotone(h1: real, h2: real, minH: real, range: real)
    requires range > 0.0 && h1 <= h2
    ensures BandOfRatio(Ratio(h2, minH, range)) <= BandOfRatio(Ratio(h1, minH, range))
  {
    BandOfAgrees(h1, minH, range);
    BandOfAgrees(h2, minH, range);
  }

  /** The lines of `lines` in bucket `k`, in order. */
  function InBand(lines: seq<Line>, k: int, minH: real, range: real): (r: seq<Line>)
    ensures forall l | l in r :: l in lines && BandOf(l.height, minH, range) == k
  {
    if lines == [] then []
    else
      var l := lines[|lines| - 1];
      InBand(lines[..|lines| - 1], k, minH, range) + (if BandOf(l.height, minH, range) == k then [l] else [])
  }

  /** Every line lands in exactly one bucket: the four buckets together hold the lines. */
  lemma {:induction false} BandsPartition(lines: seq<Line>, minH: real, range: real)
    ensures multiset(InBand(lines, 0, minH, range)) + multiset(InBand(lines, 1, minH, range)) +
            multiset(InBand(lines, 2, minH, range)) + multiset(InBand(lines, 3, minH, range)) == multiset(lines)
  {
    if lines != [] {
      var pre, l := lines[..|lines| - 1], lines[|lines| - 1];
      BandsPartition(pre, minH, range);
      var b := BandOf(l.height, minH, range);
      var m0, m1, m2, m3 := multiset(InBand(pre, 0, minH, range)), multiset(InBand(pre, 1, minH, range)),
        multiset(InBand(pre, 2, minH, range)), multiset(InBand(pre, 3, minH, range));
      calc {
        multiset(InBand(lines, 0, minH, range)) + multiset(InBand(lines, 1, minH, range)) +
        multiset(InBand(lines, 2, minH, range)) + multiset(InBand(lines, 3, minH, range));
        { InBandLast(lines, 0, minH, range); InBandLast(lines, 1, minH, range);
          InBandLast(lines, 2, minH, range); InBandLast(lines, 3, minH, range); }
        Added(m0, l, b == 0) + Added(m1, l, b == 1) + Added(m2, l, b == 2) + Added(m3, l, b == 3);
        { AddedOnce(m0, m1, m2, m3, l, b); }
        m0 + m1 + m2 + m3 + multiset{l};
        multiset(pre) + multiset{l};
        { MultisetLast(lines); }
        multiset(lines);
      }
    }
  }

  lemma MultisetLast<T>(s: seq<T>)
    requires s != []
    ensures multiset(s) == multiset(s[..|s| - 1]) + multiset{s[|s| - 1]}
  {
    SplitLast(s);
  }


  lemma InBandLast(lines: seq<Line>, k: int, minH: real, range: real)
    requires lines != []
    ensures var l := lines[|lines| - 1];
      multiset(InBand(lines, k, minH, range)) ==
      Added(multiset(InBand(lines[..|lines| - 1], k, minH, range)), l, BandOf(l.height, minH, range) == k)
  {
  }

  /** Adding a line to exactly one of four buckets adds it once to their union. */
  lemma AddedOnce(m0: multiset<Line>, m1: multiset<Line>, m2: multiset<Line>, m3: multiset<Line>, l: Line, b: int)
    requires 0 <= b <= 3
    ensures Added(m0, l, b == 0) + Added(m1, l, b == 1) + Added(m2, l, b == 2) + Added(m3, l, b == 3) ==
            m0 + m1 + m2 + m3 + multiset{l}
  {
  }

  function Added(m: multiset<Line>, l: Line, add: bool): multiset<Line>
  {
    if add then m + multiset{l} else m
  }

  /** `maxH - minH || 1`: a zero spread counts as 1. */
  function Spread(lines: seq<Line>): (r: real)
    requires lines != []
    ensures r > 0.0
  {
    var d := MaxHeight(lines) - MinHeight(lines);
    if d == 0.0 then 1.0 else d
  }

  /** When the heights differ, the tallest lines go to the title and the shortest to the
      note. */
  lemma TallestTitleShortestNote(lines: seq<Line>, l: Line)
    requires lines != [] && l in lines && MaxHeight(lines) > MinHeight(lines)
    ensures l.height == MaxHeight(lines) ==> BandOfRatio(Ratio(l.height, MinHeight(lines), Spread(lines))) == 0
    ensures l.height == MinHeight(lines) ==> BandOfRatio(Ratio(l.height, MinHeight(lines), Spread(lines))) == 3
  {
    BandOfAgrees(l.height, MinHeight(lines), Spread(lines));
  }

  /** When every line has the same height the spread is taken as 1, every ratio is 0, and
      all lines go to the note. */
  lemma {:induction false} UniformHeightsAllNote(lines: seq<Line>)
    requires lines != [] && MaxHeight(lines) == MinHeight(lines)
    ensures InBand(lines, 3, MinHeight(lines), Spread(lines)) == lines
  {
    var minH, range := MinHeight(lines), Spread(lines);
    forall i | 0 <= i < |lines| ensures BandOf(lines[i].height, minH, range) == 3 {
      assert lines[i] in lines;
    }
    AllInBand(lines, 3, minH, range);
  }

  lemma {:induction false} AllInBand(lines: seq<Line>, k: int, minH: real, range: real)
    requires forall i | 0 <= i < |lines| :: BandOf(lines[i].height, minH, range) == k
    ensures InBand(lines, k, minH, range) == lines
  {
    if lines != [] {
      var pre := lines[..|lines| - 1];
      assert forall i | 0 <= i < |pre| :: pre[i] == lines[i];
      AllInBand(pre, k, minH, range);
      SplitLast(lines);
    }
  }

  /** The four text fields. */
  datatype Fields = Fields(title: string, subtitle: string, desc: string, note: string)

  /** Top of the box, negated, so that the descending sort puts the top line first:
      `(a, b) => a.y - b.y`. */
  function Up(l: Line): real { -l.y }

  function JoinStripped(lines: seq<Line>): (r: string)
    ensures forall i | 0 <= i < |r| :: !IsSpace(r[i])
  {
    if lines == [] then []
    else
      var head, rest := StripSpaces(lines[0].text), JoinStripped(lines[1..]);
      assert forall i | |head| <= i < |head + rest| :: (head + rest)[i] == rest[i - |head|];
      head + rest
  }

  /** Joining works piece by piece: the joined pieces, in order. */
  lemma {:induction false} JoinStrippedConcat(a: seq<Line>, b: seq<Line>)
    ensures JoinStripped(a + b) == JoinStripped(a) + JoinStripped(b)
  {
    if a == [] {
      assert a + b == b;
    } else {
      assert (a + b)[0] == a[0] && (a + b)[1..] == a[1..] + b;
      JoinStrippedConcat(a[1..], b);
    }
  }

  /** One line joins to its own text with the white space removed. */
  lemma JoinStrippedOne(l: Line)
    ensures JoinStripped([l]) == StripSpaces(l.text)
  {
    assert JoinStripped([l]) == StripSpaces(l.text) + JoinStripped([]);
  }

  /** `fillTextInput`: the group's lines from top to bottom, white space removed, joined
      without separator; an empty group clears the field. */
  function FillText(lines: seq<Line>): (r: string)
    ensures forall i | 0 <= i < |r| :: !IsSpace(r[i])
    ensures lines == [] ==> r == []
    ensures exists s: seq<Line> :: (multiset(s) == multiset(lines) &&
      (forall i, j :: 0 <= i < j < |s| ==> s[i].y <= s[j].y) && r == JoinStripped(s))
  {
    if lines == [] then
      assert JoinStripped([]) == [] && multiset(lines) == multiset([]);
      []
    else
      var s := SortDesc(lines, Up);
      assert forall i, j :: 0 <= i < j < |s| ==> s[i].y <= s[j].y by {
        forall i, j | 0 <= i < j < |s| ensures s[i].y <= s[j].y {
          assert Up(s[i]) >= Up(s[j]);
        }
      }
      JoinStripped(s)
  }

  /** The kept lines, tallest first. */
  function Ranked(raw: seq<OcrLine>): (r: seq<Line>)
    ensures SortedDesc(r, Height) && multiset(r) == multiset(Kept(raw))
  {
    SortDesc(Kept(raw), Height)
  }

  /** What `classifyTextBySize` writes: nothing when no line is kept; one line becomes the
      title; two lines the title and the subtitle; more lines are split by height. */
  function Classification(raw: seq<OcrLine>): (r: Option<Fields>)
    ensures r == None <==> Kept(raw) == []
  {
    var lines := Ranked(raw);
    if lines == [] then None
    else if |lines| == 1 then Some(Fields(FillText([lines[0]]), "", "", ""))
    else if |lines| == 2 then Some(Fields(FillText([lines[0]]), FillText([lines[1]]), "", ""))
    else
      var minH, range := MinHeight(lines), Spread(lines);
      Some(Fields(FillText(InBand(lines, 0, minH, range)), FillText(InBand(lines, 1, minH, range)),
                  FillText(InBand(lines, 2, minH, range)), FillText(InBand(lines, 3, minH, range))))
  }

  /** A group of one line fills its field with that line's text, white space removed. */
  lemma FillOne(l: Line)
    ensures FillText([l]) == StripSpaces(l.text)
  {
    var sorted := SortDesc([l], Up);
    assert multiset(sorted) == multiset{l};
    assert |sorted| == 1 && sorted[0] in multiset(sorted);
    assert sorted == [l];
    assert JoinStripped([l]) == StripSpaces(l.text) + JoinStripped([]);
  }

  /** With two kept lines the taller becomes the title and the other the subtitle. */
  lemma TwoLines(raw: seq<OcrLine>)
    requires |Kept(raw)| == 2
    ensures exists t, u :: (multiset{t, u} == multiset(Kept(raw)) && t.height >= u.height &&
      Classification(raw) == Some(Fields(StripSpaces(t.text), StripSpaces(u.text), "", "")))
  {
    var lines := Ranked(raw);
    assert |lines| == 2 by { assert |multiset(lines)| == |multiset(Kept(raw))|; }
    var t, u := lines[0], lines[1];
    assert lines == [t, u];
    assert Classification(raw) == Some(Fields(StripSpaces(t.text), StripSpaces(u.text), "", "")) by {
      FillOne(t);
      FillOne(u);
    }
    assert multiset{t, u} == multiset(Kept(raw));
  }

  /** A single kept line becomes the title and the other fields are cleared. */
  lemma OneLine(raw: seq<OcrLine>)
    requires |Kept(raw)| == 1
    ensures Classification(raw) == Some(Fields(StripSpaces(Kept(raw)[0].text), "", "", ""))
  {
    var lines := Ranked(raw);
    assert multiset(lines) == multiset(Kept(raw)) == multiset{Kept(raw)[0]};
    assert |lines| == 1 && lines[0] in multiset(lines);
    FillOne(lines[0]);
  }

  /** With three or more kept lines, each kept line is in exactly one of the four
      groups. */
  lemma ManyLinesPartition(raw: seq<OcrLine>)
    requires |Kept(raw)| >= 3
    ensures var lines := Ranked(raw);
      var minH, range := MinHeight(lines), Spread(lines);
      multiset(InBand(lines, 0, minH, range)) + multiset(InBand(lines, 1, minH, range)) +
      multiset(InBand(lines, 2, minH, range)) + multiset(InBand(lines, 3, minH, range)) == multiset(Kept(raw))
  {
    var lines := Ranked(raw);
    assert |lines| == |Kept(raw)| by { assert |multiset(lines)| == |multiset(Kept(raw))|; }
    BandsPartition(lines, MinHeight(lines), Spread(lines));
  }

  /** The bucketing loop: each line pushed onto the bucket of its band. */
  method BucketLines(lines: seq<Line>, minH: real, range: real) returns (title: seq<Line>, subtitle: seq<Line>, body: seq<Line>, note: seq<Line>)
    requires range > 0.0
    ensures title == InBand(lines, 0, minH, range) && subtitle == InBand(lines, 1, minH, range)
    ensures body == InBand(lines, 2, minH, range) && note == InBand(lines, 3, minH, range)
  {
    title, subtitle, body, note := [], [], [], [];
    var i := 0;
    while i < |lines|
      invariant 0 <= i <= |lines|
      invariant title == InBand(lines[..i], 0, minH, range) && subtitle == InBand(lines[..i], 1, minH, range)
      invariant body == InBand(lines[..i], 2, minH, range) && note == InBand(lines[..i], 3, minH, range)
    {
      var line := lines[i];
      assert lines[..i + 1][..i] == lines[..i];
      var ratio := Ratio(line.height, minH, range);
      BandOfAgrees(line.height, minH, range);
      if ratio > 0.7 {
        title := title + [line];
      } else if ratio > 0.4 {
        subtitle := subtitle + [line];
      } else if ratio > 0.15 {
        body := body + [line];
      } else {
        note := note + [line];
      }
      i := i + 1;
    }
    assert lines[..i] == lines;
  }

  /** `classifyTextBySize` followed by the four `fillTextInput` calls. */
  method ClassifyTextBySize(raw: seq<OcrLine>) returns (r: Option<Fields>)
    ensures r == Classification(raw)
  {
    var lines := Ranked(raw);
    if lines == [] {
      return None;
    }
    var maxH, minH := MaxHeight(lines), MinHeight(lines);
    var range := if maxH - minH == 0.0 then 1.0 else maxH - minH;
    var title, subtitle, body, note := BucketLines(lines, minH, range);
    if |lines| == 1 {
      title, subtitle, body, note := [lines[0]], [], [], [];
    } else if |lines| == 2 {
      title, subtitle, body, note := [lines[0]], [lines[1]], [], [];
    }
    r := Some(Fields(FillText(title), FillText(subtitle), FillText(body), FillText(note)));
  }
}
