/** The drawing order of the nine movable layers (`layerOrder`) and the up/down buttons
    that reorder it (`moveLayer`). The background is not part of the order: it is always
    drawn first. */
module LayerOrder {

  const ThumbMain: string := "thumbMain"
  const ThumbTitle: string := "thumbTitle"
  const ThumbAux: string := "thumbAux"
  const ThumbLogo: string := "thumbLogo"
  const TextTitle: string := "textTitle"
  const TextSubtitle: string := "textSubtitle"
  const TextDesc: string := "textDesc"
  const TextNote: string := "textNote"
  const TextDate: string := "textDate"

  /** The order the program starts with: images first, then the texts, top to bottom. */
  const DefaultOrder: seq<string> :=
    [ThumbMain, ThumbTitle, ThumbAux, ThumbLogo, TextTitle, TextSubtitle, TextDesc, TextNote, TextDate]

  /** No id occurs twice. */
  predicate Distinct(s: seq<string>)
  {
    forall i, j :: 0 <= i < j < |s| ==> s[i] != s[j]
  }

  /** Sequences whose entries differ in their fifth or sixth character are distinct. */
  lemma DistinctByKey(s: seq<string>)
    requires forall i | 0 <= i < |s| :: |s[i]| >= 6
    requires forall i, j :: 0 <= i < j < |s| ==> s[i][4] != s[j][4] || s[i][5] != s[j][5]
    ensures Distinct(s)
  {
  }

  /** The starting order has no repeats. */
  lemma DefaultDistinct()
    ensures Distinct(DefaultOrder)
  {
    DistinctByKey(DefaultOrder);
  }

  /** `Array.prototype.indexOf`: the first position of `x`, or -1 when it is absent. */
  function IndexOf(s: seq<string>, x: string): (i: int)
    ensures -1 <= i < |s|
    ensures i == -1 <==> x !in s
    ensures 0 <= i ==> s[i] == x && x !in s[..i]
  {
    if s == [] then -1
    else if s[0] == x then 0
    else
      var j := IndexOf(s[1..], x);
      if j == -1 then -1
      else
        assert s[..j + 1] == [s[0]] + s[1..][..j];
        j + 1
  }

  /** In a sequence without repeats the position of `s[k]` is `k`. */
  lemma IndexOfDistinct(s: seq<string>, k: int)
    requires Distinct(s) && 0 <= k < |s|
    ensures IndexOf(s, s[k]) == k
  {
    var i := IndexOf(s, s[k]);
    forall j | 0 <= j < i ensures s[j] != s[k] {
      assert s[j] == s[..i][j];
    }
  }

  /** The position a move sends the layer at `idx` to: one earlier for 'up', one later
      for any other direction. */
  function Target(idx: int, up: bool): int
  {
    if up then idx - 1 else idx + 1
  }

  /** The order after `moveLayer(id, up ? 'up' : 'down')`: the layer trades places with its
      neighbour; an unknown id, or a move past either end, changes nothing. */
  function Moved(order: seq<string>, id: string, up: bool): (r: seq<string>)
    ensures |r| == |order|
  {
    var idx := IndexOf(order, id);
    if idx == -1 then order
    else
      var n := Target(idx, up);
      if n < 0 || n >= |order| then order
      else order[idx := order[n]][n := order[idx]]
  }

  /** A valid move swaps the layer with its neighbour and leaves every other position as it
      was. */
  lemma MovedSwaps(order: seq<string>, id: string, up: bool)
    requires id in order
    requires 0 <= Target(IndexOf(order, id), up) < |order|
    ensures Moved(order, id, up)[Target(IndexOf(order, id), up)] == id
    ensures Moved(order, id, up)[IndexOf(order, id)] == order[Target(IndexOf(order, id), up)]
    ensures forall k :: 0 <= k < |order| && k != IndexOf(order, id) && k != Target(IndexOf(order, id), up) ==>
              Moved(order, id, up)[k] == order[k]
  {
  }

  /** An unknown id, the first layer moved up or the last one moved down: nothing changes. */
  lemma MovedNoOp(order: seq<string>, id: string, up: bool)
    requires id !in order || (up && IndexOf(order, id) == 0) || (!up && IndexOf(order, id) == |order| - 1)
    ensures Moved(order, id, up) == order
  {
  }

  /** Every move reorders the layers without adding, losing or repeating any. */
  lemma MovedPermutes(order: seq<string>, id: string, up: bool)
    ensures multiset(Moved(order, id, up)) == multiset(order)
    ensures Distinct(order) ==> Distinct(Moved(order, id, up))
  {
    var idx := IndexOf(order, id);
    if idx != -1 {
      var n := Target(idx, up);
      if 0 <= n < |order| {
        SwapPermutes(order, idx, n);
        if Distinct(order) {
          SwapDistinct(order, idx, n);
        }
      }
    }
  }

  /** Trading the entries at two positions keeps the multiset. */
  lemma SwapPermutes(s: seq<string>, a: int, b: int)
    requires 0 <= a < |s| && 0 <= b < |s|
    ensures multiset(s[a := s[b]][b := s[a]]) == multiset(s)
  {
    var t := s[a := s[b]];
    assert multiset(t) == multiset(s) - multiset{s[a]} + multiset{s[b]};
    assert multiset(t[b := s[a]]) == multiset(t) - multiset{t[b]} + multiset{s[a]};
  }

  /** Trading the entries at two positions keeps them distinct. */
  lemma SwapDistinct(s: seq<string>, a: int, b: int)
    requires 0 <= a < |s| && 0 <= b < |s| && Distinct(s)
    ensures Distinct(s[a := s[b]][b := s[a]])
  {
    var r := s[a := s[b]][b := s[a]];
    forall i, j | 0 <= i < j < |r| ensures r[i] != r[j] {
      var i', j' := if i == a then b else if i == b then a else i,
                    if j == a then b else if j == b then a else j;
      assert r[i] == s[i'] && r[j] == s[j'];
    }
  }

  /** Moving a layer back the way it came restores the order. */
  lemma MoveBack(order: seq<string>, id: string, up: bool)
    requires Distinct(order) && id in order
    requires 0 <= Target(IndexOf(order, id), up) < |order|
    ensures Moved(Moved(order, id, up), id, !up) == order
  {
    var idx := IndexOf(order, id);
    var n := Target(idx, up);
    var r := Moved(order, id, up);
    assert r == order[idx := order[n]][n := order[idx]];
    SwapDistinct(order, idx, n);
    IndexOfDistinct(r, n);
    assert Target(n, !up) == idx;
    SwapBack(order, idx, n);
  }

  /** Trading two entries twice restores the sequence. */
  lemma SwapBack(s: seq<string>, a: int, b: int)
    requires 0 <= a < |s| && 0 <= b < |s|
    ensures var t := s[a := s[b]][b := s[a]]; t[b := t[a]][a := t[b]] == s
  {
  }

  /** The program's `layerOrder`: the layers in drawing order, first drawn first. */
  class LayerStack {
    var order: seq<string>

    /** The order holds each of the nine layers exactly once. */
    predicate Valid()
      reads this
    {
      multiset(order) == multiset(DefaultOrder) && Distinct(order)
    }

    constructor()
      ensures order == DefaultOrder && Valid()
    {
      DefaultDistinct();
      order := DefaultOrder;
    }

    /** `moveLayer`: swaps the layer with the one before it (`up`) or after it. */
    method MoveLayer(id: string, up: bool)
      requires Valid()
      modifies this
      ensures order == Moved(old(order), id, up)
      ensures Valid()
    {
      MovedPermutes(order, id, up);
      var idx := IndexOf(order, id);
      if idx == -1 {
        return;
      }
      var newIdx := if up then idx - 1 else idx + 1;
      if newIdx < 0 || newIdx >= |order| {
        return;
      }
      order := order[idx := order[newIdx]][newIdx := order[idx]];
    }
  }
}
