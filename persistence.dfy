/**
 * The projection between the in-memory highlight store and the plain records it is saved as:
 * every range is flattened to `{line, character}` records on save and rebuilt on restore.
 */
module Persistence {
  import opened Positions
  import opened Decorations

  /** The in-memory store: the highlights of each document, by document key. */
  type Store = map<string, DocumentDecorations>

  /** A position as saved: a plain `{line, character}` record. */
  datatype PositionRecord = PositionRecord(line: nat, character: nat)

  /** A range as saved: its two ends as plain records. */
  datatype RangeRecord = RangeRecord(start: PositionRecord, end: PositionRecord)

  /** A highlight as saved: its fields, with the range flattened. */
  datatype DecorationRecord = DecorationRecord(id: string, range: RangeRecord, color: Color, opacity: real)

  /** The saved highlights of one document, by id. */
  type DocumentRecord = map<string, DecorationRecord>

  /** The whole saved store, by document key. */
  type StoreRecord = map<string, DocumentRecord>

  /** Every highlight of every document has a well-formed range. */
  predicate WellFormedStore(store: Store) {
    forall key :: key in store ==> WellFormedDocument(store[key])
  }

  /** A saved range whose start does not come after its end. */
  predicate OrderedRecord(r: RangeRecord) {
    IsBeforeOrEqual(PositionFromRecord(r.start), PositionFromRecord(r.end))
  }

  /** Every saved range of every document is ordered. */
  predicate OrderedStoreRecord(rec: StoreRecord) {
    forall key, id :: key in rec && id in rec[key] ==> OrderedRecord(rec[key][id].range)
  }

  function PositionToRecord(p: Position): PositionRecord {
    PositionRecord(p.line, p.character)
  }

  function PositionFromRecord(p: PositionRecord): Position {
    Position(p.line, p.character)
  }

  /** Saving one highlight: the same id, colour and opacity, the range as two plain records. */
  function DecorationToRecord(d: Decoration): (rec: DecorationRecord)
    ensures rec.id == d.id && rec.color == d.color && rec.opacity == d.opacity
    ensures PositionFromRecord(rec.range.start) == d.range.start && PositionFromRecord(rec.range.end) == d.range.end
  {
    DecorationRecord(d.id, RangeRecord(PositionToRecord(d.range.start), PositionToRecord(d.range.end)), d.color, d.opacity)
  }

  /**
   * Restoring one highlight: its fields as saved, with the range rebuilt by the host's range
   * constructor (which puts the earlier end first).
   */
  function DecorationFromRecord(rec: DecorationRecord): (d: Decoration)
    ensures WellFormed(d.range)
    ensures d.id == rec.id && d.color == rec.color && d.opacity == rec.opacity
  {
    var r := MakeRange(PositionFromRecord(rec.range.start), PositionFromRecord(rec.range.end));
    Decoration(rec.id, r, rec.color, rec.opacity)
  }

  /** Saving one document: one record per highlight, under the same id. */
  function DocumentToRecord(decs: DocumentDecorations): (rec: DocumentRecord)
    ensures rec.Keys == decs.Keys
  {
    map id | id in decs :: DecorationToRecord(decs[id])
  }

  /** Restoring one document: one highlight per record, under the same id. */
  function DocumentFromRecord(rec: DocumentRecord): (decs: DocumentDecorations)
    ensures decs.Keys == rec.Keys
    ensures WellFormedDocument(decs)
  {
    map id | id in rec :: DecorationFromRecord(rec[id])
  }

  /** `saveDecorations`'s projection: every document key, every id. */
  function StoreToRecord(store: Store): (rec: StoreRecord)
    ensures rec.Keys == store.Keys
  {
    map key | key in store :: DocumentToRecord(store[key])
  }

  /** The constructor's restore: every saved document key, every saved id. */
  function StoreFromRecord(rec: StoreRecord): (store: Store)
    ensures store.Keys == rec.Keys
    ensures WellFormedStore(store)
  {
    map key | key in rec :: DocumentFromRecord(rec[key])
  }

  /** A highlight with a well-formed range survives saving and restoring unchanged. */
  lemma DecorationRoundTrip(d: Decoration)
    requires WellFormed(d.range)
    ensures DecorationFromRecord(DecorationToRecord(d)) == d
  {
  }

  /** Restoring what was saved gives back every document, id, range, colour and opacity. */
  lemma RestoreAfterSave(store: Store)
    requires WellFormedStore(store)
    ensures StoreFromRecord(StoreToRecord(store)) == store
  {
    var back := StoreFromRecord(StoreToRecord(store));
    forall key | key in store
      ensures back[key] == store[key]
    {
      var decs := store[key];
      forall id | id in decs
        ensures back[key][id] == decs[id]
      {
        DecorationRoundTrip(decs[id]);
      }
    }
  }

  /** Saving what was restored gives back the saved records, as long as each range was ordered. */
  lemma SaveAfterRestore(rec: StoreRecord)
    requires OrderedStoreRecord(rec)
    ensures StoreToRecord(StoreFromRecord(rec)) == rec
  {
    var back := StoreToRecord(StoreFromRecord(rec));
    forall key | key in rec
      ensures back[key] == rec[key]
    {
      forall id | id in rec[key]
        ensures back[key][id] == rec[key][id]
      {
        assert OrderedRecord(rec[key][id].range);
      }
    }
  }

  /** A saved range whose ends are out of order comes back with its ends swapped. */
  lemma RestoreSwapsUnorderedEnds(rec: DecorationRecord)
    requires !OrderedRecord(rec.range)
    ensures DecorationToRecord(DecorationFromRecord(rec)).range == RangeRecord(rec.range.end, rec.range.start)
  {
  }

  /** The inner loop of `saveDecorations`: one record per highlight of one document. */
  method SaveDocument(decs: DocumentDecorations) returns (rec: DocumentRecord)
    ensures rec == DocumentToRecord(decs)
  {
    rec := map[];
    var rest := decs.Keys;
    while rest != {}
      invariant rest <= decs.Keys
      invariant rec == map id | id in decs && id !in rest :: DecorationToRecord(decs[id])
      decreases |rest|
    {
      var id :| id in rest;
      rec := rec[id := DecorationToRecord(decs[id])];
      rest := rest - {id};
    }
  }

  /** The inner loop of the constructor's restore: one highlight per record of one document. */
  method RestoreDocument(rec: DocumentRecord) returns (decs: DocumentDecorations)
    ensures decs == DocumentFromRecord(rec)
  {
    decs := map[];
    var rest := rec.Keys;
    while rest != {}
      invariant rest <= rec.Keys
      invariant decs == map id | id in rec && id !in rest :: DecorationFromRecord(rec[id])
      decreases |rest|
    {
      var id :| id in rest;
      decs := decs[id := DecorationFromRecord(rec[id])];
      rest := rest - {id};
    }
  }

  /** The outer loop of `saveDecorations`: one saved document per document key. */
  method SaveStore(store: Store) returns (rec: StoreRecord)
    ensures rec == StoreToRecord(store)
  {
    rec := map[];
    var rest := store.Keys;
    while rest != {}
      invariant rest <= store.Keys
      invariant rec == map key | key in store && key !in rest :: DocumentToRecord(store[key])
      decreases |rest|
    {
      var key :| key in rest;
      var saved := SaveDocument(store[key]);
      rec := rec[key := saved];
      rest := rest - {key};
    }
  }

  /** The outer loop of the constructor's restore: one document per saved document key. */
  method RestoreStore(rec: StoreRecord) returns (store: Store)
    ensures store == StoreFromRecord(rec)
  {
    store := map[];
    var rest := rec.Keys;
    while rest != {}
      invariant rest <= rec.Keys
      invariant store == map key | key in rec && key !in rest :: DocumentFromRecord(rec[key])
      decreases |rest|
    {
      var key :| key in rest;
      var decs := RestoreDocument(rec[key]);
      store := store[key := decs];
      rest := rest - {key};
    }
  }
}
