/** The list of export-size presets: the built-in defaults, the test that shows the
    "restore defaults" button, the restore itself and the delete button. */
module Presets {

  datatype Preset = Preset(w: int, h: int, name: string)

  /** The built-in presets, in the order they are first listed. */
  const DefaultPresets: seq<Preset> := [
    Preset(1200, 630, "Facebook 貼文"),
    Preset(1080, 1080, "Instagram 貼文"),
    Preset(1080, 1920, "Instagram 限動"),
    Preset(1280, 720, "YouTube 縮圖"),
    Preset(1040, 1040, "LINE 橫幅"),
    Preset(300, 250, "Google 廣告"),
    Preset(600, 400, "電子報")
  ]

  /** Some preset of the list has the size of `d`; names are not compared. */
  predicate HasSize(list: seq<Preset>, d: Preset)
  {
    exists p | p in list :: p.w == d.w && p.h == d.h
  }

  /** Whether the restore button is shown: some default size is missing from the list. */
  predicate HasMissing(list: seq<Preset>)
  {
    exists d | d in DefaultPresets :: !HasSize(list, d)
  }

  /** One step of the restore loop: `unshift` the default when its size is missing. */
  function Step(list: seq<Preset>, d: Preset): seq<Preset>
  {
    if HasSize(list, d) then list else [d] + list
  }

  /** The list after the restore loop has visited `ds`, in order. */
  function RestoreAll(list: seq<Preset>, ds: seq<Preset>): seq<Preset>
  {
    if ds == [] then list else Step(RestoreAll(list, ds[..|ds| - 1]), ds[|ds| - 1])
  }

  /** The defaults, in order, whose size is missing from the list. */
  function Missing(list: seq<Preset>, ds: seq<Preset>): seq<Preset>
  {
    if ds == [] then []
    else (if HasSize(list, ds[0]) then [] else [ds[0]]) + Missing(list, ds[1..])
  }

  function Reverse<T>(s: seq<T>): (r: seq<T>)
    ensures |r| == |s|
    ensures forall x | x in r :: x in s
  {
    if s == [] then [] else Reverse(s[1..]) + [s[0]]
  }

  /** No two of the sequence share a size. */
  predicate DistinctSizes(ds: seq<Preset>)
  {
    forall i, j :: 0 <= i < j < |ds| ==> ds[i].w != ds[j].w || ds[i].h != ds[j].h
  }

  lemma {:induction false} MissingLast(list: seq<Preset>, ds: seq<Preset>)
    requires ds != []
    ensures Missing(list, ds) ==
      Missing(list, ds[..|ds| - 1]) + (if HasSize(list, ds[|ds| - 1]) then [] else [ds[|ds| - 1]])
  {
    if |ds| > 1 {
      MissingLast(list, ds[1..]);
      assert ds[1..][..|ds| - 2] == ds[..|ds| - 1][1..];
    }
  }

  lemma ReverseAppend<T>(s: seq<T>, x: T)
    ensures Reverse(s + [x]) == [x] + Reverse(s)
  {
    if s != [] {
      assert (s + [x])[1..] == s[1..] + [x];
    }
  }

  lemma HasSizeSplit(a: seq<Preset>, b: seq<Preset>, d: Preset)
    ensures HasSize(a + b, d) <==> HasSize(a, d) || HasSize(b, d)
  {
    if HasSize(a + b, d) {
      var p :| p in a + b && p.w == d.w && p.h == d.h;
      assert p in a || p in b;
    }
    if HasSize(a, d) {
      var p :| p in a && p.w == d.w && p.h == d.h;
      assert p in a + b;
    }
    if HasSize(b, d) {
      var p :| p in b && p.w == d.w && p.h == d.h;
      assert p in a + b;
    }
  }

  /** A default never shares its size with the missing defaults listed before it. */
  lemma MissingOthers(list: seq<Preset>, ds: seq<Preset>)
    requires ds != [] && DistinctSizes(ds)
    ensures !HasSize(Reverse(Missing(list, ds[..|ds| - 1])), ds[|ds| - 1])
  {
    var pre, d := ds[..|ds| - 1], ds[|ds| - 1];
    forall p | p in Reverse(Missing(list, pre)) ensures p.w != d.w || p.h != d.h {
      MissingMember(list, pre, p);
      var k :| 0 <= k < |pre| && pre[k] == p;
      assert ds[k] == p;
    }
  }

  /** The restore puts exactly the missing defaults in front of the list, the last default
      first (each one is `unshift`ed), and keeps the list itself as it was. */
  lemma {:induction false} RestoreAllIsMissingFirst(list: seq<Preset>, ds: seq<Preset>)
    requires DistinctSizes(ds)
    ensures RestoreAll(list, ds) == Reverse(Missing(list, ds)) + list
  {
    if ds != [] {
      var pre, d := ds[..|ds| - 1], ds[|ds| - 1];
      assert DistinctSizes(pre);
      RestoreAllIsMissingFirst(list, pre);
      MissingLast(list, ds);
      var added := Missing(list, pre);
      HasSizeSplit(Reverse(added), list, d);
      MissingOthers(list, ds);
      if !HasSize(list, d) {
        ReverseAppend(added, d);
        assert [d] + (Reverse(added) + list) == ([d] + Reverse(added)) + list;
      } else {
        assert added + [] == added;
      }
    }
  }

  lemma {:induction false} MissingMember(list: seq<Preset>, ds: seq<Preset>, p: Preset)
    requires p in Missing(list, ds)
    ensures p in ds && !HasSize(list, p)
  {
    if ds != [] && !(p in (if HasSize(list, ds[0]) then [] else [ds[0]])) {
      MissingMember(list, ds[1..], p);
    }
  }

  /** After the restore no default size is missing, so the restore button hides. */
  lemma {:induction false} RestoreComplete(list: seq<Preset>, ds: seq<Preset>)
    ensures forall d | d in ds :: HasSize(RestoreAll(list, ds), d)
  {
    if ds != [] {
      var pre := ds[..|ds| - 1];
      RestoreComplete(list, pre);
      var cur := RestoreAll(list, pre);
      forall d | d in ds ensures HasSize(RestoreAll(list, ds), d) {
        if d in pre {
          var p :| p in cur && p.w == d.w && p.h == d.h;
          assert p in RestoreAll(list, ds);
        } else {
          assert d == ds[|ds| - 1];
          if !HasSize(cur, d) {
            assert d in RestoreAll(list, ds);
          }
        }
      }
    }
  }

  /** When no default is missing the restore changes nothing. */
  lemma {:induction false} RestoreNoOp(list: seq<Preset>, ds: seq<Preset>)
    requires forall d | d in ds :: HasSize(list, d)
    ensures RestoreAll(list, ds) == list
  {
    if ds != [] {
      RestoreNoOp(list, ds[..|ds| - 1]);
    }
  }

  /** Restoring a second time changes nothing. */
  lemma RestoreIdempotent(list: seq<Preset>)
    ensures RestoreAll(RestoreAll(list, DefaultPresets), DefaultPresets) == RestoreAll(list, DefaultPresets)
    ensures !HasMissing(RestoreAll(list, DefaultPresets))
  {
    RestoreComplete(list, DefaultPresets);
    RestoreNoOp(RestoreAll(list, DefaultPresets), DefaultPresets);
  }

  /** Restoring the built-in presets, whose sizes are all different, puts the missing ones
      in front of the list, last default first. */
  lemma RestoreDefaultsShape(list: seq<Preset>)
    ensures RestoreAll(list, DefaultPresets) == Reverse(Missing(list, DefaultPresets)) + list
  {
    assert DistinctSizes(DefaultPresets);
    RestoreAllIsMissingFirst(list, DefaultPresets);
  }

  /** The program's `allPresets`. */
  class PresetList {
    var presets: seq<Preset>

    /** A first start: the defaults followed by the presets saved under the old key. */
    constructor(saved: seq<Preset>)
      ensures presets == DefaultPresets + saved
    {
      presets := DefaultPresets + saved;
    }

    /** The restore button: each default whose size is missing is put in front. */
    method RestoreDefaults()
      modifies this
      ensures presets == RestoreAll(old(presets), DefaultPresets)
      ensures !HasMissing(presets)
    {
      RestoreComplete(presets, DefaultPresets);
      ghost var start := presets;
      var i := 0;
      while i < |DefaultPresets|
        invariant 0 <= i <= |DefaultPresets|
        invariant presets == RestoreAll(start, DefaultPresets[..i])
      {
        var d := DefaultPresets[i];
        assert DefaultPresets[..i + 1][..i] == DefaultPresets[..i];
        if !(exists p | p in presets :: p.w == d.w && p.h == d.h) {
          presets := [d] + presets;
        }
        i := i + 1;
      }
      assert DefaultPresets[..i] == DefaultPresets;
    }

    /** A delete button: removes the preset at its index and keeps the others in order. */
    method Delete(idx: nat)
      requires idx < |presets|
      modifies this
      ensures presets == old(presets[..idx]) + old(presets[idx + 1..])
    {
      presets := presets[..idx] + presets[idx + 1..];
    }
  }
}
