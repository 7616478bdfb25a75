/** The editor page: the topic input, the summary text area and the list of
    note pairs, and what its buttons and its file upload do to them. The
    pair list stands for the children of `notesContainer`; `createNotePair`
    appends to it. */
module EditorState {
  import opened Wrappers
  import opened Text
  import opened Notes
  import MarkdownExport
  import MarkdownImport
  import Bulk
  import JsonState
  import Files

  /** What an upload ended with: the notification the page shows. */
  datatype Upload = JsonLoaded | MarkdownLoaded | Unsupported | ParseFailed

  class Editor {
    var topic: string
    var summary: string
    var pairs: seq<Pair>

    /** The editor's state as a value, as `getAppState` reads it. */
    function State(): Doc
      reads this
    {
      Doc(topic, summary, pairs)
    }

    /** The page as loaded: empty inputs and one empty pair. */
    constructor ()
      ensures topic == "" && summary == "" && pairs == [EmptyPair]
    {
      topic := "";
      summary := "";
      pairs := [EmptyPair];
    }

    /** `createNotePair(cue, notes, isImportant)`: one pair appended. */
    method AddPair(cue: string, notes: string, isImportant: bool)
      modifies this
      ensures pairs == old(pairs) + [Pair(cue, notes, isImportant)]
      ensures topic == old(topic) && summary == old(summary)
    {
      pairs := pairs + [Pair(cue, notes, isImportant)];
    }

    /** The remove button of the pair at `i`. */
    method Remove(i: nat)
      requires i < |pairs|
      modifies this
      ensures pairs == Removed(old(pairs), i)
      ensures topic == old(topic) && summary == old(summary)
    {
      pairs := Removed(pairs, i);
    }

    /** The move-up button of the pair at `i`. */
    method MoveUp(i: nat)
      requires i < |pairs|
      modifies this
      ensures pairs == MovedUp(old(pairs), i)
      ensures topic == old(topic) && summary == old(summary)
    {
      pairs := MovedUp(pairs, i);
    }

    /** The move-down button of the pair at `i`. */
    method MoveDown(i: nat)
      requires i < |pairs|
      modifies this
      ensures pairs == MovedDown(old(pairs), i)
      ensures topic == old(topic) && summary == old(summary)
    {
      pairs := MovedDown(pairs, i);
    }

    /** The star button of the pair at `i`. */
    method ToggleStar(i: nat)
      requires i < |pairs|
      modifies this
      ensures pairs == Toggled(old(pairs), i)
      ensures topic == old(topic) && summary == old(summary)
    {
      pairs := Toggled(pairs, i);
    }

    /** `updateMoveButtons`: for each pair in order, whether its up and its
        down button are disabled. Up is disabled exactly on the first pair,
        down exactly on the last. */
    method MoveButtons() returns (upDisabled: seq<bool>, downDisabled: seq<bool>)
      ensures |upDisabled| == |pairs| && |downDisabled| == |pairs|
      ensures forall k :: 0 <= k < |pairs| ==> (upDisabled[k] <==> k == 0)
      ensures forall k :: 0 <= k < |pairs| ==> (downDisabled[k] <==> k == |pairs| - 1)
    {
      upDisabled, downDisabled := [], [];
      var index := 0;
      while index < |pairs|
        invariant index <= |pairs|
        invariant |upDisabled| == index && |downDisabled| == index
        invariant forall k :: 0 <= k < index ==> (upDisabled[k] <==> k == 0)
        invariant forall k :: 0 <= k < index ==> (downDisabled[k] <==> k == |pairs| - 1)
      {
        upDisabled := upDisabled + [index == 0];
        downDisabled := downDisabled + [index == |pairs| - 1];
        index := index + 1;
      }
    }

    /** `clearEditor`: both inputs emptied and every pair removed. */
    method ClearEditor()
      modifies this
      ensures topic == "" && summary == "" && pairs == []
    {
      topic := "";
      summary := "";
      pairs := [];
    }

    /** The confirmed clear-all: everything emptied, then one empty pair. */
    method ClearAll()
      modifies this
      ensures topic == "" && summary == "" && pairs == [EmptyPair]
    {
      ClearEditor();
      AddPair("", "", false);
    }

    /** `getAppState`, `lastModified` aside: one object per pair, in list
        order. */
    method GetAppState() returns (j: JsonState.Json)
      ensures j == JsonState.AppState(State())
    {
      var ps := pairs;
      var items: seq<JsonState.JsonPair> := [];
      var k := 0;
      while k < |ps|
        invariant k <= |ps|
        invariant items == JsonState.PairsJson(ps[..k])
      {
        PairsJsonSnoc(ps[..k], ps[k]);
        assert ps[..k + 1] == ps[..k] + [ps[k]];
        items := items + [JsonState.PairJson(ps[k])];
        k := k + 1;
      }
      assert ps[..k] == ps;
      j := JsonState.Object(Some(topic), Some(summary), Some(items));
    }

    /** `saveNotesAsJson`, the download aside: the object to write and the
        file name. */
    method SaveAsJson() returns (name: string, j: JsonState.Json)
      ensures name == Files.FileName(topic, Files.JsonFormat)
      ensures j == JsonState.AppState(State())
    {
      j := GetAppState();
      name := Files.Slug(topic) + ".json";
    }

    /** `saveNotesAsMarkdown`, the download aside: the text to write and the
        file name. */
    method SaveAsMarkdown() returns (name: string, md: string)
      ensures name == Files.FileName(topic, Files.MarkdownFormat)
      ensures md == MarkdownExport.Markdown(State())
    {
      var d := State();
      md := MarkdownExport.GenerateMarkdown(d);
      name := Files.Slug(topic) + ".md";
    }

    /** `loadFromJson` on the outcome of `JSON.parse`, in its corrected form:
        the value is checked before the editor is cleared, so an input that
        would throw leaves everything as it was. */
    method LoadFromJson(parsed: Option<JsonState.Json>) returns (ok: bool)
      modifies this
      ensures var r := JsonState.LoadJson(parsed, old(State()));
        ok == r.ok && State() == r.doc
    {
      if parsed.None? || parsed.value.Null? || !JsonState.NoNullItem(parsed.value.pairs.GetOr([])) {
        return false;
      }
      var data := parsed.value;
      ClearEditor();
      if data.topic.Some? && data.topic.value != "" {
        topic := data.topic.value;
      }
      if data.summary.Some? && data.summary.value != "" {
        summary := data.summary.value;
      }
      var items := data.pairs.GetOr([]);
      var k := 0;
      while k < |items|
        invariant k <= |items|
        invariant topic == data.topic.GetOr("") && summary == data.summary.GetOr("")
        invariant |pairs| == k
        invariant forall i :: 0 <= i < k ==> pairs[i] == JsonState.PairFrom(items[i])
      {
        var item := items[k];
        AddPair(item.cue.GetOr(""), item.notes.GetOr(""), item.isImportant.GetOr(false));
        k := k + 1;
      }
      if |pairs| == 0 {
        AddPair("", "", false);
      }
      ok := true;
    }

    /** `loadFromMarkdown`: the editor cleared, the topic and the summary set
        when their expressions match, one pair appended per `exec` match, and
        one empty pair when there was none. */
    method LoadFromMarkdown(md: string)
      modifies this
      ensures State() == MarkdownImport.ParseMarkdown(md)
    {
      ClearEditor();
      var topicMatch := MarkdownImport.TopicMatch(md);
      if topicMatch.Some? {
        topic := Trim(topicMatch.value);
      }
      var summaryMatch := MarkdownImport.SummaryMatch(md);
      if summaryMatch.Some? {
        summary := Trim(MarkdownImport.StripQuotes(summaryMatch.value));
      }
      var pairCount := ScanMatches(md);
      if pairCount == 0 {
        AddPair("", "", false);
      }
    }

    /** The `exec` loop of `loadFromMarkdown`, run on a cleared editor: one
        pair appended per match, in the order of the matches, and their
        number counted. */
    method ScanMatches(md: string) returns (pairCount: nat)
      requires pairs == []
      modifies this
      ensures pairs == MarkdownImport.Pairs(md) && pairCount == |pairs|
      ensures topic == old(topic) && summary == old(summary)
    {
      var lastIndex := 0;
      pairCount := 0;
      var next := MarkdownImport.NextMatch(md, lastIndex);
      assert pairs + MarkdownImport.Pairs(md[0..]) == MarkdownImport.Pairs(md) by {
        assert md[0..] == md;
      }
      while next.Some?
        invariant lastIndex <= |md|
        invariant next == MarkdownImport.NextMatch(md, lastIndex)
        invariant pairs + MarkdownImport.Pairs(md[lastIndex..]) == MarkdownImport.Pairs(md)
        invariant pairCount == |pairs|
        invariant topic == old(topic) && summary == old(summary)
        decreases |md| - lastIndex
      {
        var (p, m) := next.value;
        var pair := ReadMatch(m);
        ghost var from := lastIndex;
        ghost var before := pairs;
        AddPair(pair.cue, pair.notes, pair.isImportant);
        pairCount := pairCount + 1;
        lastIndex := p + m.len;
        ScanInvariant(before, pairs, md, from, p, m, lastIndex);
        next := MarkdownImport.NextMatch(md, lastIndex);
      }
      MarkdownImport.NoNextMatch(md, lastIndex);
      assert pairs + [] == pairs;
    }

    /** The bulk-add dialog's import button (`tolerant` picks the variant):
        the pairs the blocks give are appended in block order and `count` is
        their number; the topic and the summary do not change. */
    method BulkImport(text: string, tolerant: bool) returns (count: nat)
      modifies this
      ensures pairs == old(pairs) + Bulk.Imported(text, tolerant)
      ensures count == |Bulk.Imported(text, tolerant)|
      ensures topic == old(topic) && summary == old(summary)
    {
      if Trim(text) == "" {
        return 0;
      }
      var blocks := Bulk.BulkBlocks(text, tolerant);
      ghost var start := pairs;
      count := 0;
      var i := 0;
      while i < |blocks|
        invariant i <= |blocks|
        invariant pairs == start + Bulk.Entries(blocks[..i], tolerant)
        invariant count == |Bulk.Entries(blocks[..i], tolerant)|
        invariant topic == old(topic) && summary == old(summary)
      {
        var pair := Bulk.Entry(blocks[i], tolerant);
        Bulk.EntriesStep(blocks, i, tolerant);
        if pair.Some? {
          var p := pair.value;
          AddPair(p.cue, p.notes, p.isImportant);
          ConcatAssoc(start, Bulk.Entries(blocks[..i], tolerant), [p]);
          count := count + 1;
        }
        i := i + 1;
      }
      assert blocks[..i] == blocks;
    }

    /** `handleFileUpload` once the file is read: a `.json` name (tried
        first) goes to the JSON loader with `parsed`, the outcome of
        `JSON.parse` on the text; a `.md` name to the Markdown loader; any
        other name changes nothing. A load that throws is reported as a
        parse failure. */
    method HandleFileUpload(name: string, text: string, parsed: Option<JsonState.Json>) returns (outcome: Upload)
      modifies this
      ensures Files.Kind(name).None? ==> outcome == Unsupported && State() == old(State())
      ensures Files.Kind(name) == Some(Files.MarkdownFormat) ==>
        outcome == MarkdownLoaded && State() == MarkdownImport.ParseMarkdown(text)
      ensures Files.Kind(name) == Some(Files.JsonFormat) ==>
        var r := JsonState.LoadJson(parsed, old(State()));
        State() == r.doc && outcome == (if r.ok then JsonLoaded else ParseFailed)
    {
      if EndsWith(name, ".json") {
        var ok := LoadFromJson(parsed);
        outcome := if ok then JsonLoaded else ParseFailed;
      } else if EndsWith(name, ".md") {
        LoadFromMarkdown(text);
        outcome := MarkdownLoaded;
      } else {
        outcome := Unsupported;
      }
    }
  }

  /** The body of the `exec` loop: the cue trimmed, a leading star taken
      off (and the cue trimmed again) to mark the pair important, and one
      `> ` removed from each line of the notes, which are then trimmed. */
  method ReadMatch(m: MarkdownImport.Match) returns (pair: Pair)
    ensures pair == MarkdownImport.MakePair(m.cue, m.notes)
  {
    var cue := Trim(m.cue);
    var isImportant := false;
    if StartsWith(cue, [MarkdownExport.Star]) {
      isImportant := true;
      cue := Trim(cue[1..]);
    }
    var notes := Trim(MarkdownImport.StripQuotes(m.notes));
    pair := Pair(cue, notes, isImportant);
  }

  lemma {:induction false} PairsJsonSnoc(ps: seq<Pair>, p: Pair)
    ensures JsonState.PairsJson(ps + [p]) == JsonState.PairsJson(ps) + [JsonState.PairJson(p)]
  {
    var l := JsonState.PairsJson(ps + [p]);
    assert forall k :: 0 <= k < |ps| ==> (ps + [p])[k] == ps[k];
    assert l == JsonState.PairsJson(ps) + [JsonState.PairJson(p)];
  }

  /** One round of the `exec` loop keeps the scan's invariant: the pairs
      appended so far followed by the pairs still ahead are all the pairs. */
  lemma {:induction false} ScanInvariant(before: seq<Pair>, after: seq<Pair>, md: string, from: nat, p: nat, m: MarkdownImport.Match, to: nat)
    requires from <= |md| && MarkdownImport.NextMatch(md, from) == Some((p, m)) && to == p + m.len
    requires before + MarkdownImport.Pairs(md[from..]) == MarkdownImport.Pairs(md)
    requires after == before + [MarkdownImport.MakePair(m.cue, m.notes)]
    ensures to <= |md| && after + MarkdownImport.Pairs(md[to..]) == MarkdownImport.Pairs(md)
  {
    MarkdownImport.NextMatchStep(md, from, p, m);
    StepJoin(before, after, MarkdownImport.MakePair(m.cue, m.notes),
      MarkdownImport.Pairs(md[from..]), MarkdownImport.Pairs(md[to..]), MarkdownImport.Pairs(md));
  }

  /** Moving one element from what is left to what is done keeps the whole. */
  lemma StepJoin<T>(before: seq<T>, after: seq<T>, x: T, rest: seq<T>, tail: seq<T>, whole: seq<T>)
    requires before + rest == whole && rest == [x] + tail && after == before + [x]
    ensures after + tail == whole
  {
    ConcatAssoc(before, [x], tail);
  }
}
