/**
 * `HighlightManager`: the in-memory store of every document's highlights, with the colour
 * and opacity the next highlight gets, and the operations that change them in place.
 */
module Manager {
  import opened Wrappers
  import opened Positions
  import opened Decorations
  import opened Persistence
  import opened Rendering

  /** The colour used when none was saved. */
  const DefaultColor: Color := Blue

  /** The opacity used when none was saved. */
  const DefaultOpacity: real := 0.8

  /** The store once `doc` has an entry: an empty one is added only when it had none. */
  function WithDocument(store: Store, doc: string): (r: Store)
    ensures doc in r
    ensures doc in store ==> r == store
    ensures doc !in store ==> r[doc] == map[] && r - {doc} == store
  {
    if doc in store then store else store[doc := map[]]
  }

  /** Making sure a document has an entry a second time changes nothing. */
  lemma WithDocumentIdempotent(store: Store, doc: string)
    ensures WithDocument(WithDocument(store, doc), doc) == WithDocument(store, doc)
  {
  }

  /** Making sure a document has an entry leaves every other document's entry alone. */
  lemma WithDocumentKeepsOthers(store: Store, doc: string, other: string)
    requires other != doc
    ensures other in WithDocument(store, doc) <==> other in store
    ensures other in store ==> WithDocument(store, doc)[other] == store[other]
  {
  }

  /** Saving after clearing a document saves everything else as before, and nothing for it. */
  lemma ClearedStoreSavesWithoutDocument(store: Store, doc: string)
    ensures StoreToRecord(store - {doc}) == StoreToRecord(store) - {doc}
  {
  }

  class HighlightManager {
    /** The highlights of each document, by document key. */
    var editorDecorations: Store
    /** The colour the next highlight gets. */
    var lastColor: Color
    /** The opacity the next highlight gets. */
    var lastOpacity: real

    /** Every stored range is one the host could have built. */
    ghost predicate Valid()
      reads this
    {
      WellFormedStore(editorDecorations)
    }

    /** The highlights of `doc`, or none when it has no entry. */
    function DocumentOrEmpty(doc: string): (decs: DocumentDecorations)
      reads this
      ensures doc in editorDecorations ==> decs == editorDecorations[doc]
      ensures doc !in editorDecorations ==> decs == map[]
    {
      if doc in editorDecorations then editorDecorations[doc] else map[]
    }

    /**
     * Starts from what was saved: the saved colour and opacity, falling back to blue and
     * 0.8, and every saved document's highlights rebuilt from their records.
     */
    constructor (storedColor: Option<Color>, storedOpacity: Option<real>, saved: StoreRecord)
      ensures Valid()
      ensures lastColor == storedColor.GetOr(DefaultColor)
      ensures lastOpacity == storedOpacity.GetOr(DefaultOpacity)
      ensures editorDecorations == StoreFromRecord(saved)
    {
      lastColor := storedColor.GetOr(DefaultColor);
      lastOpacity := storedOpacity.GetOr(DefaultOpacity);
      var restored := RestoreStore(saved);
      editorDecorations := restored;
    }

    /** `setLastColor`: the next highlight gets `color`. */
    method SetLastColor(color: Color)
      modifies this`lastColor
      ensures lastColor == color
    {
      lastColor := color;
    }

    /** `getLastColor`. */
    method GetLastColor() returns (color: Color)
      ensures color == lastColor
    {
      color := lastColor;
    }

    /** `setLastOpacity`: the next highlight gets `opacity`. */
    method SetLastOpacity(opacity: real)
      modifies this`lastOpacity
      ensures lastOpacity == opacity
    {
      lastOpacity := opacity;
    }

    /**
     * `getOrCreateEditorDecorations`: gives `doc`'s highlights, first adding an empty entry
     * for it when it has none; no other document's entry changes.
     */
    method GetOrCreateEditorDecorations(doc: string) returns (decs: DocumentDecorations)
      requires Valid()
      modifies this`editorDecorations
      ensures Valid()
      ensures editorDecorations == WithDocument(old(editorDecorations), doc)
      ensures decs == old(DocumentOrEmpty(doc))
    {
      if doc !in editorDecorations {
        editorDecorations := editorDecorations[doc := map[]];
      }
      decs := editorDecorations[doc];
    }

    /**
     * `highlight`: toggles highlighting over the selections of `doc`. Each empty selection
     * is widened to its whole line; if any stored highlight overlaps any of the resulting
     * ranges, every such highlight is removed and nothing is added, otherwise one highlight
     * per range is added under a fresh id with the current colour and opacity. The ghost
     * result lists the ids added.
     */
    method Highlight(doc: string, selections: seq<Selection>, lineLength: nat -> nat) returns (ghost added: seq<string>)
      requires Valid()
      modifies this`editorDecorations
      ensures Valid()
      ensures var before := old(DocumentOrEmpty(doc));
        var eff := EffectiveSelections(selections, lineLength);
        && (HasOverlap(before, eff) ==> added == [])
        && (!HasOverlap(before, eff) ==> |added| == |eff| && FreshIds(added, before))
        && editorDecorations == old(editorDecorations)[doc := Toggle(before, eff, added, lastColor, lastOpacity)]
    {
      var decorations := GetOrCreateEditorDecorations(doc);
      ghost var before := decorations;
      var eff := EffectiveSelections(selections, lineLength);
      added := [];
      if |eff| == 0 {
        ToggleWithoutSelections(before, lastColor, lastOpacity);
        return;
      }

      var toRemove, hasExistingHighlight := FindOverlapping(decorations, eff);
      decorations := RemoveAll(decorations, toRemove);
      if !hasExistingHighlight {
        assert decorations == before;
        decorations, added := AddHighlights(decorations, eff, lastColor, lastOpacity);
      }
      assert decorations == Toggle(before, eff, added, lastColor, lastOpacity);
      assert WellFormedDocument(before);
      ToggleKeepsInvariants(before, eff, added, lastColor, lastOpacity);
      editorDecorations := editorDecorations[doc := decorations];
    }

    /**
     * `updateEditorDecorations` without the painting: makes sure `doc` has an entry and
     * groups its highlights' ranges by style key, one range per highlight.
     */
    method UpdateEditorDecorations(doc: string) returns (groups: Groups, ghost order: seq<string>)
      requires Valid()
      modifies this`editorDecorations
      ensures Valid()
      ensures editorDecorations == WithDocument(old(editorDecorations), doc)
      ensures forall id :: id in order <==> id in editorDecorations[doc]
      ensures Enumerates(editorDecorations[doc], order) && groups == GroupRanges(editorDecorations[doc], order)
      ensures TotalSize(groups) == |editorDecorations[doc]|
    {
      var decs := GetOrCreateEditorDecorations(doc);
      groups, order := GroupByStyle(decs);
    }

    /** `clearAllHighlights`: drops `doc`'s entry; every other document keeps its highlights. */
    method ClearAllHighlights(doc: string)
      requires Valid()
      modifies this`editorDecorations
      ensures Valid()
      ensures editorDecorations == old(editorDecorations) - {doc}
    {
      editorDecorations := editorDecorations - {doc};
    }

    /** `saveDecorations`'s projection: every document's highlights as plain records. */
    method SaveDecorations() returns (saved: StoreRecord)
      ensures saved == StoreToRecord(editorDecorations)
      ensures Valid() ==> StoreFromRecord(saved) == editorDecorations
    {
      saved := SaveStore(editorDecorations);
      if Valid() {
        RestoreAfterSave(editorDecorations);
      }
    }
  }

  /**
   * A client: with nothing saved, placing the cursor on line 2 and highlighting paints that
   * whole line blue at 0.8; switching to red and highlighting the same line again turns the
   * highlight off, leaving the document without highlights.
   */
  method HighlightTwiceScenario(doc: string, lineLength: nat -> nat) {
    var m := new HighlightManager(None, None, map[]);
    assert m.lastColor == Blue && m.lastOpacity == 0.8;
    var cursor := Position(2, 0);
    var selections := [Selection(cursor, cursor)];
    var eff := EffectiveSelections(selections, lineLength);
    var line := LineRange(2, lineLength(2));
    assert eff == [line];
    assert !HasOverlap(map[], eff);

    ghost var ids := m.Highlight(doc, selections, lineLength);
    ToggleTurnsOn(map[], eff, ids, Blue, 0.8);
    var once := m.editorDecorations[doc];
    assert once.Keys == {ids[0]};
    assert once[ids[0]] == Decoration(ids[0], line, Blue, 0.8);

    m.SetLastColor(Red);
    ToggleTwice(map[], eff, ids, Blue, 0.8);
    ghost var none := m.Highlight(doc, selections, lineLength);
    assert m.editorDecorations[doc] == map[];
    assert none == [];
  }
}
