/**
 * The highlights of one document and what the toggle-style `highlight` command does to them,
 * stated as functions of the document's highlights before the call.
 */
module Decorations {
  import opened Positions

  /** The closed set of highlight colours. */
  datatype Color = Red | Blue | Green | Purple

  /** One highlight: a range of the document painted in `color` at `opacity`. */
  datatype Decoration = Decoration(id: string, range: Range, color: Color, opacity: real)

  /** The highlights of one document, by id. */
  type DocumentDecorations = map<string, Decoration>

  /** Every highlight's range is one the host could have built. */
  predicate WellFormedDocument(decs: DocumentDecorations) {
    forall id :: id in decs ==> WellFormed(decs[id].range)
  }

  /** Every highlight is filed under its own id. */
  predicate KeyedById(decs: DocumentDecorations) {
    forall id :: id in decs ==> decs[id].id == id
  }

  /**
   * The range `highlight` works on for one selection: the selection itself, or, when only a
   * cursor is placed, the whole line the cursor is on (`lineLength` gives each line's length).
   */
  function EffectiveRange(s: Selection, lineLength: nat -> nat): (r: Range)
    ensures WellFormed(r)
    ensures !s.IsEmpty() ==> r == s.AsRange()
    ensures s.IsEmpty() ==> r == LineRange(s.active.line, lineLength(s.active.line))
  {
    if s.IsEmpty() then LineRange(s.active.line, lineLength(s.active.line)) else s.AsRange()
  }

  /**
   * The effective selections: one per selection, so only an empty list of selections yields
   * an empty list, and each one is well-formed.
   */
  function EffectiveSelections(selections: seq<Selection>, lineLength: nat -> nat): (eff: seq<Range>)
    ensures |eff| == |selections|
    ensures forall i :: 0 <= i < |eff| ==> eff[i] == EffectiveRange(selections[i], lineLength)
    ensures forall i :: 0 <= i < |eff| ==> WellFormed(eff[i])
  {
    seq(|selections|, i requires 0 <= i < |selections| => EffectiveRange(selections[i], lineLength))
  }

  /** Some effective selection overlaps `range`. */
  predicate OverlapsAny(range: Range, eff: seq<Range>) {
    exists i :: 0 <= i < |eff| && RangesOverlap(eff[i], range)
  }

  /** The ids of the highlights that some effective selection overlaps. */
  function OverlappingIds(decs: DocumentDecorations, eff: seq<Range>): (hit: set<string>)
    ensures hit <= decs.Keys
    ensures forall id :: id in decs ==> (id in hit <==> OverlapsAny(decs[id].range, eff))
  {
    set id | id in decs && OverlapsAny(decs[id].range, eff)
  }

  /** `hasExistingHighlight`: some stored highlight is hit by some effective selection. */
  predicate HasOverlap(decs: DocumentDecorations, eff: seq<Range>) {
    OverlappingIds(decs, eff) != {}
  }

  /** The highlights that survive the removal step. */
  function RemoveOverlapping(decs: DocumentDecorations, eff: seq<Range>): DocumentDecorations {
    decs - OverlappingIds(decs, eff)
  }

  /** `ids` are pairwise distinct and none of them is already in use. */
  predicate FreshIds(ids: seq<string>, decs: DocumentDecorations) {
    && (forall i, j :: 0 <= i < j < |ids| ==> ids[i] != ids[j])
    && (forall i :: 0 <= i < |ids| ==> ids[i] !in decs)
  }

  /** The highlights after adding, for each effective selection in turn, one under the matching id. */
  function AddAll(decs: DocumentDecorations, eff: seq<Range>, ids: seq<string>, color: Color, opacity: real): DocumentDecorations
    requires |ids| == |eff|
    decreases |eff|
  {
    if |eff| == 0 then decs
    else
      var n := |eff| - 1;
      AddAll(decs, eff[..n], ids[..n], color, opacity)[ids[n] := Decoration(ids[n], eff[n], color, opacity)]
  }

  /**
   * What `highlight` leaves in the document: the hit highlights removed if there were any,
   * otherwise one new highlight per effective selection, filed under `ids`.
   */
  function Toggle(decs: DocumentDecorations, eff: seq<Range>, ids: seq<string>, color: Color, opacity: real): DocumentDecorations
    requires !HasOverlap(decs, eff) ==> |ids| == |eff|
  {
    if HasOverlap(decs, eff) then RemoveOverlapping(decs, eff) else AddAll(decs, eff, ids, color, opacity)
  }

  /** Removing the hit highlights removes exactly those and leaves the rest as they were. */
  lemma RemoveOverlappingSpec(decs: DocumentDecorations, eff: seq<Range>)
    ensures var r := RemoveOverlapping(decs, eff);
      && r.Keys == decs.Keys - OverlappingIds(decs, eff)
      && |r| == |decs| - |OverlappingIds(decs, eff)|
      && (forall id :: id in r ==> r[id] == decs[id])
      && (forall id :: id in decs ==> (id in r <==> !OverlapsAny(decs[id].range, eff)))
  {
    var hit := OverlappingIds(decs, eff);
    var r := RemoveOverlapping(decs, eff);
    assert decs.Keys == r.Keys + hit;
    assert r.Keys !! hit;
  }

  /** Adding under fresh ids adds exactly those ids, one new entry each. */
  lemma {:induction false} AddAllKeys(decs: DocumentDecorations, eff: seq<Range>, ids: seq<string>, color: Color, opacity: real)
    requires |ids| == |eff| && FreshIds(ids, decs)
    ensures forall id :: id in AddAll(decs, eff, ids, color, opacity) <==> id in decs || id in ids
    ensures |AddAll(decs, eff, ids, color, opacity)| == |decs| + |eff|
    decreases |eff|
  {
    if |eff| > 0 {
      var n := |eff| - 1;
      var front, frontIds := eff[..n], ids[..n];
      assert FreshIds(frontIds, decs);
      AddAllKeys(decs, front, frontIds, color, opacity);
      assert eff == front + [eff[n]] && ids == frontIds + [ids[n]];
      AddAllAppend(decs, front, frontIds, eff[n], ids[n], color, opacity);
      assert ids[n] !in decs && ids[n] !in frontIds;
    }
  }

  /** Adding under fresh ids leaves every highlight already there as it was. */
  lemma {:induction false} AddAllKeepsOld(decs: DocumentDecorations, eff: seq<Range>, ids: seq<string>, color: Color, opacity: real, id: string)
    requires |ids| == |eff| && FreshIds(ids, decs)
    requires id in decs
    ensures var r := AddAll(decs, eff, ids, color, opacity); id in r && r[id] == decs[id]
    decreases |eff|
  {
    if |eff| > 0 {
      var n := |eff| - 1;
      assert FreshIds(ids[..n], decs);
      AddAllKeepsOld(decs, eff[..n], ids[..n], color, opacity, id);
    }
  }

  /** Adding under fresh ids files selection `i`'s range, colour and opacity under `ids[i]`. */
  lemma {:induction false} AddAllNew(decs: DocumentDecorations, eff: seq<Range>, ids: seq<string>, color: Color, opacity: real, i: nat)
    requires |ids| == |eff| && FreshIds(ids, decs)
    requires i < |ids|
    ensures var r := AddAll(decs, eff, ids, color, opacity);
      ids[i] in r && r[ids[i]] == Decoration(ids[i], eff[i], color, opacity)
    decreases |eff|
  {
    var n := |eff| - 1;
    if i < n {
      assert FreshIds(ids[..n], decs);
      AddAllNew(decs, eff[..n], ids[..n], color, opacity, i);
      assert ids[i] != ids[n];
    }
  }

  /**
   * Adding under fresh ids keeps every highlight already there, adds one highlight per
   * effective selection with that selection's range, the given colour and opacity, and
   * nothing else.
   */
  lemma AddAllSpec(decs: DocumentDecorations, eff: seq<Range>, ids: seq<string>, color: Color, opacity: real)
    requires |ids| == |eff| && FreshIds(ids, decs)
    ensures var r := AddAll(decs, eff, ids, color, opacity);
      && (forall id :: id in r <==> id in decs || id in ids)
      && |r| == |decs| + |eff|
      && (forall id :: id in decs ==> r[id] == decs[id])
      && (forall i :: 0 <= i < |ids| ==> r[ids[i]] == Decoration(ids[i], eff[i], color, opacity))
  {
    AddAllKeys(decs, eff, ids, color, opacity);
    forall id | id in decs
      ensures AddAll(decs, eff, ids, color, opacity)[id] == decs[id]
    {
      AddAllKeepsOld(decs, eff, ids, color, opacity, id);
    }
    forall i | 0 <= i < |ids|
      ensures AddAll(decs, eff, ids, color, opacity)[ids[i]] == Decoration(ids[i], eff[i], color, opacity)
    {
      AddAllNew(decs, eff, ids, color, opacity, i);
    }
  }

  /** When some highlight is hit, `highlight` only removes: every hit one goes, nothing is added. */
  lemma ToggleTurnsOff(decs: DocumentDecorations, eff: seq<Range>, ids: seq<string>, color: Color, opacity: real)
    requires HasOverlap(decs, eff)
    ensures var r := Toggle(decs, eff, ids, color, opacity);
      && r.Keys <= decs.Keys
      && |r| == |decs| - |OverlappingIds(decs, eff)|
      && |r| < |decs|
      && (forall id :: id in decs && OverlapsAny(decs[id].range, eff) ==> id !in r)
      && (forall id :: id in r ==> r[id] == decs[id])
  {
    RemoveOverlappingSpec(decs, eff);
  }

  /**
   * When no highlight is hit, `highlight` only adds: one new highlight per effective
   * selection, with its range, the given colour and opacity; every earlier one stays.
   */
  lemma ToggleTurnsOn(decs: DocumentDecorations, eff: seq<Range>, ids: seq<string>, color: Color, opacity: real)
    requires !HasOverlap(decs, eff) && |ids| == |eff| && FreshIds(ids, decs)
    ensures var r := Toggle(decs, eff, ids, color, opacity);
      && r.Keys == decs.Keys + (set id | id in ids)
      && |r| == |decs| + |eff|
      && (forall id :: id in decs ==> r[id] == decs[id])
      && (forall i :: 0 <= i < |ids| ==> r[ids[i]] == Decoration(ids[i], eff[i], color, opacity))
  {
    AddAllSpec(decs, eff, ids, color, opacity);
  }

  /** A highlight that no effective selection overlaps keeps its id, range, colour and opacity. */
  lemma ToggleKeepsUntouched(decs: DocumentDecorations, eff: seq<Range>, ids: seq<string>, color: Color, opacity: real, id: string)
    requires !HasOverlap(decs, eff) ==> |ids| == |eff| && FreshIds(ids, decs)
    requires id in decs && !OverlapsAny(decs[id].range, eff)
    ensures var r := Toggle(decs, eff, ids, color, opacity); id in r && r[id] == decs[id]
  {
    if HasOverlap(decs, eff) {
      RemoveOverlappingSpec(decs, eff);
    } else {
      AddAllSpec(decs, eff, ids, color, opacity);
    }
  }

  /** With no selections, `highlight` changes nothing. */
  lemma ToggleWithoutSelections(decs: DocumentDecorations, color: Color, opacity: real)
    ensures !HasOverlap(decs, [])
    ensures Toggle(decs, [], [], color, opacity) == decs
  {
    assert OverlappingIds(decs, []) == {};
  }

  /** `highlight` keeps every range well-formed and every highlight filed under its own id. */
  lemma ToggleKeepsInvariants(decs: DocumentDecorations, eff: seq<Range>, ids: seq<string>, color: Color, opacity: real)
    requires !HasOverlap(decs, eff) ==> |ids| == |eff| && FreshIds(ids, decs)
    requires forall i :: 0 <= i < |eff| ==> WellFormed(eff[i])
    ensures WellFormedDocument(decs) ==> WellFormedDocument(Toggle(decs, eff, ids, color, opacity))
    ensures KeyedById(decs) ==> KeyedById(Toggle(decs, eff, ids, color, opacity))
  {
    var r := Toggle(decs, eff, ids, color, opacity);
    if HasOverlap(decs, eff) {
      RemoveOverlappingSpec(decs, eff);
    } else {
      AddAllSpec(decs, eff, ids, color, opacity);
      forall id | id in r
        ensures (WellFormedDocument(decs) ==> WellFormed(r[id].range)) && (KeyedById(decs) ==> r[id].id == id)
      {
        if id !in decs {
          var i :| 0 <= i < |ids| && ids[i] == id;
        }
      }
    }
  }

  /**
   * The toggle law: highlighting the same non-empty selections twice, where nothing was
   * highlighted before, turns the new highlights off again and restores the document.
   */
  lemma ToggleTwice(decs: DocumentDecorations, eff: seq<Range>, ids: seq<string>, color: Color, opacity: real)
    requires eff != [] && forall i :: 0 <= i < |eff| ==> WellFormed(eff[i])
    requires !HasOverlap(decs, eff) && |ids| == |eff| && FreshIds(ids, decs)
    ensures var once := Toggle(decs, eff, ids, color, opacity);
      && HasOverlap(once, eff)
      && OverlappingIds(once, eff) == (set id | id in ids)
      && Toggle(once, eff, [], color, opacity) == decs
  {
    var once := Toggle(decs, eff, ids, color, opacity);
    AddAllSpec(decs, eff, ids, color, opacity);
    var added := set id | id in ids;
    forall id | id in once
      ensures id in OverlappingIds(once, eff) <==> id in added
    {
      if id in added {
        var i :| 0 <= i < |ids| && ids[i] == id;
        RangeOverlapsItself(eff[i]);
        assert RangesOverlap(eff[i], once[id].range);
      } else {
        assert id in decs && id !in OverlappingIds(decs, eff);
      }
    }
    assert OverlappingIds(once, eff) == added;
    assert ids[0] in added;
    assert once - added == decs;
  }

  /** No two distinct highlights of the document overlap. */
  predicate Disjoint(decs: DocumentDecorations) {
    forall a, b :: a in decs && b in decs && a != b ==> !RangesOverlap(decs[a].range, decs[b].range)
  }

  /** No two of the effective selections overlap. */
  predicate PairwiseDisjoint(eff: seq<Range>) {
    forall i, j :: 0 <= i < |eff| && 0 <= j < |eff| && i != j ==> !RangesOverlap(eff[i], eff[j])
  }

  /**
   * `highlight` keeps the highlights of a document apart as long as the effective selections
   * are apart: removing only drops highlights, and adding only happens when no stored
   * highlight is hit.
   */
  lemma ToggleKeepsDisjoint(decs: DocumentDecorations, eff: seq<Range>, ids: seq<string>, color: Color, opacity: real)
    requires !HasOverlap(decs, eff) ==> |ids| == |eff| && FreshIds(ids, decs)
    requires Disjoint(decs) && PairwiseDisjoint(eff)
    ensures Disjoint(Toggle(decs, eff, ids, color, opacity))
  {
    var r := Toggle(decs, eff, ids, color, opacity);
    if HasOverlap(decs, eff) {
      RemoveOverlappingSpec(decs, eff);
    } else {
      AddAllSpec(decs, eff, ids, color, opacity);
      forall a, b | a in r && b in r && a != b
        ensures !RangesOverlap(r[a].range, r[b].range)
      {
        if a in decs && b in decs {
        } else if a in decs {
          var j :| 0 <= j < |ids| && ids[j] == b;
          assert a !in OverlappingIds(decs, eff);
          RangesOverlapSymmetric(eff[j], decs[a].range);
        } else if b in decs {
          var i :| 0 <= i < |ids| && ids[i] == a;
          assert b !in OverlappingIds(decs, eff);
        } else {
          var i :| 0 <= i < |ids| && ids[i] == a;
          var j :| 0 <= j < |ids| && ids[j] == b;
        }
      }
    }
  }

  /**
   * Two cursors on the same line both widen to that whole line, and over a document without
   * highlights both are added, so the document ends up with two overlapping highlights.
   */
  lemma TwoCursorsOnOneLineOverlap(line: nat, c1: nat, c2: nat, a: string, b: string, lineLength: nat -> nat)
    requires c1 != c2 && a != b
    ensures var eff := EffectiveSelections([Selection(Position(line, c1), Position(line, c1)), Selection(Position(line, c2), Position(line, c2))], lineLength);
      && !HasOverlap(map[], eff)
      && !PairwiseDisjoint(eff)
      && !Disjoint(Toggle(map[], eff, [a, b], Blue, 0.8))
  {
    var eff := EffectiveSelections([Selection(Position(line, c1), Position(line, c1)), Selection(Position(line, c2), Position(line, c2))], lineLength);
    var whole := LineRange(line, lineLength(line));
    assert eff[0] == whole && eff[1] == whole;
    RangeOverlapsItself(whole);
    assert OverlappingIds(map[], eff) == {};
    AddAllSpec(map[], eff, [a, b], Blue, 0.8);
    var r := Toggle(map[], eff, [a, b], Blue, 0.8);
    assert r[a].range == whole && r[b].range == whole;
  }

  /**
   * The first loop of `highlight`: collects the ids of the highlights that some effective
   * selection overlaps, and whether there was any.
   */
  method FindOverlapping(decs: DocumentDecorations, eff: seq<Range>) returns (toRemove: set<string>, hasExistingHighlight: bool)
    ensures toRemove == OverlappingIds(decs, eff)
    ensures hasExistingHighlight == HasOverlap(decs, eff)
  {
    toRemove := {};
    hasExistingHighlight := false;
    var rest := decs.Keys;
    while rest != {}
      invariant rest <= decs.Keys
      invariant toRemove <= decs.Keys
      invariant forall id :: id in toRemove <==> id in decs && id !in rest && OverlapsAny(decs[id].range, eff)
      invariant hasExistingHighlight == (toRemove != {})
      decreases |rest|
    {
      var id :| id in rest;
      if OverlapsAny(decs[id].range, eff) {
        toRemove := toRemove + {id};
        hasExistingHighlight := true;
      }
      rest := rest - {id};
    }
    assert toRemove == OverlappingIds(decs, eff);
  }

  /** The second loop of `highlight`: deletes each collected id. */
  method RemoveAll(decs: DocumentDecorations, toRemove: set<string>) returns (r: DocumentDecorations)
    ensures r.Keys == decs.Keys - toRemove
    ensures forall id :: id in r ==> r[id] == decs[id]
    ensures r == decs - toRemove
  {
    r := decs;
    var doomed := toRemove;
    while doomed != {}
      invariant doomed <= toRemove
      invariant r == decs - (toRemove - doomed)
      decreases |doomed|
    {
      var id :| id in doomed;
      r := r - {id};
      doomed := doomed - {id};
    }
  }

  /**
   * The last loop of `highlight`: for each effective selection in turn, draws an id not yet
   * in use and files a new highlight with that selection's range, `color` and `opacity`
   * under it. `ids` lists the ids drawn.
   */
  method AddHighlights(decs: DocumentDecorations, eff: seq<Range>, color: Color, opacity: real)
    returns (r: DocumentDecorations, ghost ids: seq<string>)
    ensures |ids| == |eff| && FreshIds(ids, decs)
    ensures r == AddAll(decs, eff, ids, color, opacity)
  {
    r := decs;
    ids := [];
    var i := 0;
    while i < |eff|
      invariant 0 <= i <= |eff|
      invariant |ids| == i && FreshIds(ids, decs)
      invariant r == AddAll(decs, eff[..i], ids, color, opacity)
    {
      var id := GenerateId(r.Keys);
      AddAllStep(decs, eff[..i], ids, eff[i], id, color, opacity);
      assert eff[..i] + [eff[i]] == eff[..i + 1];
      r := r[id := Decoration(id, eff[i], color, opacity)];
      ids := ids + [id];
      i := i + 1;
    }
    assert eff[..|eff|] == eff;
  }

  /**
   * Adding one more selection under an id not yet in use extends the map by exactly that
   * entry, and the ids stay fresh.
   */
  lemma AddAllStep(decs: DocumentDecorations, eff: seq<Range>, ids: seq<string>, range: Range, id: string, color: Color, opacity: real)
    requires |ids| == |eff| && FreshIds(ids, decs)
    requires id !in AddAll(decs, eff, ids, color, opacity)
    ensures FreshIds(ids + [id], decs)
    ensures AddAll(decs, eff + [range], ids + [id], color, opacity)
         == AddAll(decs, eff, ids, color, opacity)[id := Decoration(id, range, color, opacity)]
  {
    AddAllKeys(decs, eff, ids, color, opacity);
    AddAllAppend(decs, eff, ids, range, id, color, opacity);
  }

  /** Adding one more selection under one more id extends the map by exactly that entry. */
  lemma AddAllAppend(decs: DocumentDecorations, eff: seq<Range>, ids: seq<string>, range: Range, id: string, color: Color, opacity: real)
    requires |ids| == |eff|
    ensures AddAll(decs, eff + [range], ids + [id], color, opacity)
         == AddAll(decs, eff, ids, color, opacity)[id := Decoration(id, range, color, opacity)]
  {
    assert (eff + [range])[..|eff|] == eff;
    assert (ids + [id])[..|ids|] == ids;
  }

  /**
   * The stand-in for the random id generator: an id not in `used`, longer than every id
   * in it.
   */
  method GenerateId(used: set<string>) returns (id: string)
    ensures id !in used
  {
    var longest: nat := 0;
    var rest := used;
    while rest != {}
      invariant rest <= used
      invariant forall u :: u in used && u !in rest ==> |u| <= longest
      decreases |rest|
    {
      var u :| u in rest;
      if |u| > longest {
        longest := |u|;
      }
      rest := rest - {u};
    }
    id := seq(longest + 1, _ => 'x');
  }
}
