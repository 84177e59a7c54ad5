/**
 * What the store hands to the host for painting: the ranges of a document's highlights,
 * bucketed by the style (colour and opacity) they are painted with.
 */
module Rendering {
  import opened Positions
  import opened Decorations

  /** `getColorRGB`: the red, green and blue components each colour is painted with. */
  function ColorRGB(c: Color): (rgb: (nat, nat, nat))
    ensures rgb.0 <= 255 && rgb.1 <= 255 && rgb.2 <= 255
  {
    match c
    case Red => (255, 0, 0)
    case Blue => (0, 0, 255)
    case Green => (0, 255, 0)
    case Purple => (128, 0, 128)
  }

  /** Different colours are painted differently. */
  lemma ColorRGBInjective(a: Color, b: Color)
    ensures ColorRGB(a) == ColorRGB(b) ==> a == b
  {
  }

  /** `getDecorationKey`: the style key, the pair of a colour and an opacity. */
  datatype StyleKey = StyleKey(color: Color, opacity: real)

  function DecorationKey(color: Color, opacity: real): (k: StyleKey)
    ensures k.color == color && k.opacity == opacity
  {
    StyleKey(color, opacity)
  }

  /** Two highlights share a style key exactly when they share colour and opacity. */
  lemma DecorationKeyInjective(c1: Color, o1: real, c2: Color, o2: real)
    ensures DecorationKey(c1, o1) == DecorationKey(c2, o2) <==> c1 == c2 && o1 == o2
  {
  }

  /** The style a highlight is painted with. */
  function StyleOf(d: Decoration): StyleKey {
    DecorationKey(d.color, d.opacity)
  }

  /** `decorationsByType`: ranges to paint, by style key. */
  type Groups = map<StyleKey, seq<Range>>

  /** Every entry of `order` names a highlight of `decs`. */
  predicate Enumerates(decs: DocumentDecorations, order: seq<string>) {
    forall i :: 0 <= i < |order| ==> order[i] in decs
  }

  /**
   * The groups after visiting the highlights named by `order` in turn: a highlight's style
   * key gets an empty list the first time it is seen, and the highlight's range is pushed
   * onto the list of its key.
   */
  function GroupRanges(decs: DocumentDecorations, order: seq<string>): Groups
    requires Enumerates(decs, order)
    decreases |order|
  {
    if order == [] then map[]
    else
      var n := |order| - 1;
      var g := GroupRanges(decs, order[..n]);
      var d := decs[order[n]];
      var key := DecorationKey(d.color, d.opacity);
      var g' := if key in g then g else g[key := []];
      g'[key := g'[key] + [d.range]]
  }

  /** The reference: the ranges, in `order`, of exactly the highlights whose style is `key`. */
  function RangesWithStyle(decs: DocumentDecorations, order: seq<string>, key: StyleKey): seq<Range>
    requires Enumerates(decs, order)
    decreases |order|
  {
    if order == [] then []
    else
      var n := |order| - 1;
      var d := decs[order[n]];
      RangesWithStyle(decs, order[..n], key) + (if StyleOf(d) == key then [d.range] else [])
  }

  /** The number of ranges across all groups. */
  ghost function TotalSize(g: Groups): nat
    decreases |g.Keys|
  {
    if g.Keys == {} then 0
    else
      var key :| key in g.Keys;
      |g[key]| + TotalSize(g - {key})
  }

  /** The total can be counted starting from any group. */
  lemma {:induction false} TotalSizeRemove(g: Groups, key: StyleKey)
    requires key in g
    ensures TotalSize(g) == |g[key]| + TotalSize(g - {key})
    decreases |g.Keys|
  {
    var first :| first in g.Keys && TotalSize(g) == |g[first]| + TotalSize(g - {first});
    if first != key {
      TotalSizeRemove(g - {first}, key);
      TotalSizeRemove(g - {key}, first);
      assert (g - {first}) - {key} == (g - {key}) - {first};
    }
  }

  /**
   * The grouping is by style key and keeps the visiting order: a key has a group exactly
   * when some visited highlight has that style, and its group holds the ranges of exactly
   * those highlights.
   */
  lemma {:induction false} GroupRangesContents(decs: DocumentDecorations, order: seq<string>, key: StyleKey)
    requires Enumerates(decs, order)
    ensures key in GroupRanges(decs, order) <==> exists i :: 0 <= i < |order| && StyleOf(decs[order[i]]) == key
    ensures key in GroupRanges(decs, order) ==> GroupRanges(decs, order)[key] == RangesWithStyle(decs, order, key)
    ensures key !in GroupRanges(decs, order) ==> RangesWithStyle(decs, order, key) == []
    decreases |order|
  {
    if order != [] {
      var n := |order| - 1;
      GroupRangesContents(decs, order[..n], key);
      assert forall i :: 0 <= i < n ==> order[..n][i] == order[i];
    }
  }

  /** No group is empty. */
  lemma {:induction false} GroupsAreNonEmpty(decs: DocumentDecorations, order: seq<string>, key: StyleKey)
    requires Enumerates(decs, order)
    requires key in GroupRanges(decs, order)
    ensures |GroupRanges(decs, order)[key]| > 0
    decreases |order|
  {
    var n := |order| - 1;
    var g := GroupRanges(decs, order[..n]);
    if key in g {
      GroupsAreNonEmpty(decs, order[..n], key);
    }
  }

  /** Together the groups hold one range per visited highlight. */
  lemma {:induction false} GroupRangesTotal(decs: DocumentDecorations, order: seq<string>)
    requires Enumerates(decs, order)
    ensures TotalSize(GroupRanges(decs, order)) == |order|
    decreases |order|
  {
    if order != [] {
      var n := |order| - 1;
      var g := GroupRanges(decs, order[..n]);
      GroupRangesTotal(decs, order[..n]);
      var d := decs[order[n]];
      var key := DecorationKey(d.color, d.opacity);
      var g' := GroupRanges(decs, order);
      TotalSizeRemove(g', key);
      assert g' - {key} == g - {key};
      if key in g {
        TotalSizeRemove(g, key);
      } else {
        assert g - {key} == g;
      }
    }
  }

  /** Each visited highlight's range is in the group of its own style key. */
  lemma {:induction false} RangeInOwnGroup(decs: DocumentDecorations, order: seq<string>, i: nat)
    requires Enumerates(decs, order)
    requires i < |order|
    ensures StyleOf(decs[order[i]]) in GroupRanges(decs, order)
    ensures decs[order[i]].range in GroupRanges(decs, order)[StyleOf(decs[order[i]])]
    decreases |order|
  {
    var n := |order| - 1;
    var key := StyleOf(decs[order[n]]);
    if i < n {
      RangeInOwnGroup(decs, order[..n], i);
    }
  }

  /** Visiting one more highlight pushes its range onto the group of its key. */
  lemma GroupRangesAppend(decs: DocumentDecorations, order: seq<string>, id: string)
    requires Enumerates(decs, order) && id in decs
    ensures Enumerates(decs, order + [id])
    ensures var g := GroupRanges(decs, order);
      var key := StyleOf(decs[id]);
      var g' := if key in g then g else g[key := []];
      GroupRanges(decs, order + [id]) == g'[key := g'[key] + [decs[id].range]]
  {
    assert (order + [id])[..|order|] == order;
  }

  /**
   * The loop of `updateEditorDecorations` that fills `decorationsByType`: visits every
   * highlight once, in some order, and groups its range under its style key.
   */
  method GroupByStyle(decs: DocumentDecorations) returns (groups: Groups, ghost order: seq<string>)
    ensures forall i, j :: 0 <= i < j < |order| ==> order[i] != order[j]
    ensures forall id :: id in order <==> id in decs
    ensures Enumerates(decs, order) && groups == GroupRanges(decs, order)
    ensures TotalSize(groups) == |decs|
  {
    groups := map[];
    order := [];
    var rest := decs.Keys;
    while rest != {}
      invariant rest <= decs.Keys
      invariant forall id :: id in order <==> id in decs && id !in rest
      invariant forall i, j :: 0 <= i < j < |order| ==> order[i] != order[j]
      invariant |order| + |rest| == |decs|
      invariant Enumerates(decs, order) && groups == GroupRanges(decs, order)
      decreases |rest|
    {
      var id :| id in rest;
      var d := decs[id];
      var key := DecorationKey(d.color, d.opacity);
      GroupRangesAppend(decs, order, id);
      if key !in groups {
        groups := groups[key := []];
      }
      groups := groups[key := groups[key] + [d.range]];
      order := order + [id];
      rest := rest - {id};
    }
    GroupRangesTotal(decs, order);
  }

  /** The opacities a decoration type is created for: 0.1 to 1.0 in steps of 0.1. */
  const OpacityBuckets: seq<real> := [0.1, 0.2, 0.3, 0.4, 0.5, 0.6, 0.7, 0.8, 0.9, 1.0]

  /** The style keys `createDecorationTypes` makes a decoration type for: every colour at every bucket. */
  predicate HasDecorationType(key: StyleKey) {
    key.opacity in OpacityBuckets
  }

  /**
   * The groups that reach the painter as written: a group is painted only when a decoration
   * type exists for its key exactly; the others are dropped.
   */
  function PaintedGroups(groups: Groups): (painted: Groups)
    ensures painted.Keys <= groups.Keys
    ensures forall key :: key in groups ==> (key in painted <==> HasDecorationType(key))
    ensures forall key :: key in painted ==> painted[key] == groups[key]
  {
    map key | key in groups && HasDecorationType(key) :: groups[key]
  }

  /**
   * As written, a highlight made at an opacity the input prompt accepts but that is not one
   * of the ten buckets, 0.55 for instance, is stored but never painted.
   */
  lemma UnbucketedOpacityIsNotPainted(id: string, range: Range)
    ensures var decs := map[id := Decoration(id, range, Blue, 0.55)];
      && Enumerates(decs, [id])
      && GroupRanges(decs, [id]) == map[StyleKey(Blue, 0.55) := [range]]
      && PaintedGroups(GroupRanges(decs, [id])) == map[]
  {
    var decs := map[id := Decoration(id, range, Blue, 0.55)];
    var key := StyleKey(Blue, 0.55);
    assert [id][..0] == [];
    assert GroupRanges(decs, []) == map[];
    var empty: Groups := map[key := []];
    assert GroupRanges(decs, [id]) == empty[key := empty[key] + [range]];
    assert empty[key] + [range] == [range];
    assert !HasDecorationType(StyleKey(Blue, 0.55));
  }

  /** The distance of `x` from zero. */
  function Abs(x: real): real {
    if x < 0.0 then -x else x
  }

  /** The index, 1 to 10, of the bucket nearest to `opacity`, clamped to the bucket range. */
  function BucketIndex(opacity: real): (n: int)
    ensures 1 <= n <= 10
  {
    var k := (opacity * 10.0 + 0.5).Floor;
    if k < 1 then 1 else if k > 10 then 10 else k
  }

  /**
   * The style a highlight is painted with once its opacity is rounded to the nearest bucket,
   * as the ten buckets evidently intend; an opacity already on a bucket is kept.
   */
  function BucketKey(key: StyleKey): (r: StyleKey)
    ensures HasDecorationType(r)
    ensures r.color == key.color
    ensures HasDecorationType(key) ==> r == key
    ensures forall i :: 0 <= i < |OpacityBuckets| ==> Abs(r.opacity - key.opacity) <= Abs(OpacityBuckets[i] - key.opacity)
  {
    var n := BucketIndex(key.opacity);
    assert OpacityBuckets[n - 1] == n as real / 10.0;
    if HasDecorationType(key) then
      BucketOpacityIndex(key.opacity);
      key
    else
      StyleKey(key.color, OpacityBuckets[n - 1])
  }

  /** Each bucket's index is recovered from it by rounding. */
  lemma BucketOpacityIndex(opacity: real)
    requires opacity in OpacityBuckets
    ensures OpacityBuckets[BucketIndex(opacity) - 1] == opacity
  {
    var i :| 0 <= i < |OpacityBuckets| && OpacityBuckets[i] == opacity;
    assert opacity == (i + 1) as real / 10.0;
    assert opacity * 10.0 + 0.5 == (i + 1) as real + 0.5;
  }
}
