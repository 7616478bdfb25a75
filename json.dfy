/** JSON save and load at the level of values: the object `getAppState`
    builds for `JSON.stringify`, and the state `loadFromJson` rebuilds from the
    value `JSON.parse` gives back. The text syntax of JSON is not modelled. */
module JsonState {
  import opened Wrappers
  import opened Notes

  /** One element of a parsed `pairs` array: `null`, or an object whose
      `cue`, `notes` and `isImportant` properties are each present or absent. */
  datatype JsonPair =
    | NullItem
    | PairObject(cue: Option<string>, notes: Option<string>, isImportant: Option<bool>)

  /** The value `JSON.parse` returns: `null`, or an object with optional
      `topic`, `summary` and `pairs` (`pairs` is `None` when it is absent or
      not an array, both of which `loadFromJson` ignores). */
  datatype Json =
    | Null
    | Object(topic: Option<string>, summary: Option<string>, pairs: Option<seq<JsonPair>>)

  /** The object one pair contributes to `getAppState`. */
  function PairJson(p: Pair): JsonPair {
    PairObject(Some(p.cue), Some(p.notes), Some(p.isImportant))
  }

  function PairsJson(ps: seq<Pair>): (r: seq<JsonPair>)
    ensures |r| == |ps|
    ensures forall k :: 0 <= k < |ps| ==> r[k] == PairJson(ps[k])
  {
    if ps == [] then [] else [PairJson(ps[0])] + PairsJson(ps[1..])
  }

  /** `getAppState`: the topic, the summary and every pair in list order.
      `lastModified` reads the clock and is left out. */
  function AppState(d: Doc): (j: Json)
    ensures j.Object? && j.pairs.Some? && |j.pairs.value| == |d.pairs|
  {
    Object(Some(d.topic), Some(d.summary), Some(PairsJson(d.pairs)))
  }

  /** `createNotePair(pair.cue, pair.notes, pair.isImportant)`: an absent
      property takes the parameter's default, `''`, `''` or `false`. */
  function PairFrom(p: JsonPair): (r: Pair)
    requires p.PairObject?
    ensures p.cue.None? ==> r.cue == ""
    ensures p.notes.None? ==> r.notes == ""
    ensures r.isImportant <==> p.isImportant == Some(true)
  {
    Pair(p.cue.GetOr(""), p.notes.GetOr(""), p.isImportant.GetOr(false))
  }

  /** An array `forEach` can walk to its end: no element is `null` (reading
      `pair.cue` of `null` throws). */
  predicate NoNullItem(items: seq<JsonPair>) {
    forall k :: 0 <= k < |items| ==> items[k].PairObject?
  }

  /** The pairs `forEach` appends before it stops: one per element, up to the
      first `null` one. */
  function PairsBefore(items: seq<JsonPair>): (r: seq<Pair>)
    ensures |r| <= |items|
    ensures forall k :: 0 <= k < |r| ==> items[k].PairObject? && r[k] == PairFrom(items[k])
    ensures NoNullItem(items) ==> |r| == |items|
    ensures |r| < |items| ==> items[|r|].NullItem?
  {
    if items == [] || items[0].NullItem? then []
    else
      var rest := PairsBefore(items[1..]);
      assert NoNullItem(items) ==> NoNullItem(items[1..]) by {
        if NoNullItem(items) {
          forall k | 0 <= k < |items| - 1 ensures items[1..][k].PairObject? {
            assert items[1..][k] == items[k + 1];
          }
        }
      }
      [PairFrom(items[0])] + rest
  }

  /** The state of a load together with whether it got to its end. */
  datatype Loaded = Loaded(doc: Doc, ok: bool)

  /** The state a complete `loadFromJson` of an object sets: a topic and a
      summary only when present and truthy (an empty string leaves the `''`
      of `clearEditor`), the pairs in array order, one empty pair when there
      are none. */
  function FromObject(j: Json): (d: Doc)
    requires j.Object? && NoNullItem(j.pairs.GetOr([]))
    ensures d.topic == j.topic.GetOr("") && d.summary == j.summary.GetOr("")
    ensures d.pairs != []
    ensures var items := j.pairs.GetOr([]);
      items == [] ==> d.pairs == [EmptyPair]
    ensures var items := j.pairs.GetOr([]);
      items != [] ==> |d.pairs| == |items| && forall k :: 0 <= k < |items| ==> d.pairs[k] == PairFrom(items[k])
  {
    var ps := PairsBefore(j.pairs.GetOr([]));
    Doc(j.topic.GetOr(""), j.summary.GetOr(""), if ps == [] then [EmptyPair] else ps)
  }

  /** `handleFileUpload` on a `.json` file as the code stands. `parsed` is
      the outcome of `JSON.parse`: `None` when the text is not JSON, which
      throws before anything changes. A `null` document is cleared by
      `clearEditor` and then throws at `data.topic`, leaving no pair at all;
      a `null` array element throws after the pairs before it were
      appended, and the one-empty-pair rule is never reached. */
  function LoadJsonAsWritten(parsed: Option<Json>, d: Doc): (r: Loaded)
    ensures parsed.None? ==> r == Loaded(d, false)
    ensures parsed == Some(Null) ==> r == Loaded(Doc("", "", []), false)
    ensures r.ok <==> parsed.Some? && parsed.value.Object? && NoNullItem(parsed.value.pairs.GetOr([]))
    ensures r.ok ==> r.doc == FromObject(parsed.value)
  {
    match parsed
    case None => Loaded(d, false)
    case Some(Null) => Loaded(Doc("", "", []), false)
    case Some(Object(t, s, items)) =>
      var ps := PairsBefore(items.GetOr([]));
      if NoNullItem(items.GetOr([])) then Loaded(FromObject(parsed.value), true)
      else Loaded(Doc(t.GetOr(""), s.GetOr(""), ps), false)
  }

  /** A `null` document wipes the editor and leaves it without a single
      pair, although a load otherwise always leaves one. */
  lemma NullDocumentWipes(d: Doc)
    ensures LoadJsonAsWritten(Some(Null), d).doc.pairs == []
    ensures !LoadJsonAsWritten(Some(Null), d).ok
  {
  }

  /** `{"pairs": [{"cue": "a"}, null]}`: the first pair is kept, the load
      fails, and the state is neither the old one nor a complete load. */
  lemma {:induction false} NullItemTruncates(d: Doc)
    ensures var j := Object(None, None, Some([PairObject(Some("a"), None, None), NullItem]));
      LoadJsonAsWritten(Some(j), d) == Loaded(Doc("", "", [Pair("a", "", false)]), false)
  {
    var items := [PairObject(Some("a"), None, None), NullItem];
    assert !NoNullItem(items) by { assert items[1].NullItem?; }
    assert items[1..] == [NullItem];
    assert PairsBefore(items) == [Pair("a", "", false)];
  }

  /** `loadFromJson` as evidently intended: an input that would throw leaves
      the state as it was, so every load either completes, with at least one
      pair, or changes nothing. */
  function LoadJson(parsed: Option<Json>, d: Doc): (r: Loaded)
    ensures !r.ok ==> r.doc == d
    ensures r.ok ==> r.doc.pairs != []
    ensures r.ok <==> parsed.Some? && parsed.value.Object? && NoNullItem(parsed.value.pairs.GetOr([]))
    ensures r.ok ==> r.doc == FromObject(parsed.value)
  {
    match parsed
    case Some(Object(_, _, items)) =>
      if NoNullItem(items.GetOr([])) then Loaded(FromObject(parsed.value), true) else Loaded(d, false)
    case _ => Loaded(d, false)
  }

  /** On the inputs that do not throw the corrected loader is the code. */
  lemma LoadJsonAgrees(parsed: Option<Json>, d: Doc)
    requires parsed.Some? && parsed.value.Object? && NoNullItem(parsed.value.pairs.GetOr([]))
    ensures LoadJson(parsed, d) == LoadJsonAsWritten(parsed, d)
  {
  }

  /** Reading back the pairs `getAppState` wrote gives them back. */
  lemma {:induction false} PairsJsonRead(ps: seq<Pair>)
    ensures NoNullItem(PairsJson(ps))
    ensures PairsBefore(PairsJson(ps)) == ps
  {
    var items := PairsJson(ps);
    var r := PairsBefore(items);
    assert |r| == |ps|;
    forall k | 0 <= k < |ps| ensures r[k] == ps[k] {
      assert r[k] == PairFrom(PairJson(ps[k]));
    }
  }

  /** Saving and loading: `loadFromJson` of the object `getAppState` built
      restores the topic, the summary and the pairs, with their order and
      flags, when there is at least one pair; an empty list comes back as
      one empty pair. */
  lemma {:induction false} JsonRoundTrip(d: Doc, current: Doc)
    ensures var r := LoadJson(Some(AppState(d)), current);
      r.ok && r.doc == if d.pairs == [] then d.(pairs := [EmptyPair]) else d
  {
    PairsJsonRead(d.pairs);
  }
}
