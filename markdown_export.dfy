/** `generateMarkdown`: the editor's state as a Markdown document of callout
    blocks, one `> [!QUESTION]-` block per pair worth writing and a trailing
    `> [!SUMMARY] Summary` block. */
module MarkdownExport {
  import opened Text
  import opened Notes

  /** U+2B50, the star that marks an important pair (one UTF-16 code unit). */
  const Star: char := '\U{2B50}'
  const QuestionMarker := "> [!QUESTION]- "
  const SummaryHeader := "> [!SUMMARY] Summary\n"
  /** The title written when the topic is the empty string. */
  const DefaultTitle := "My Notes"

  /** The cue as written on the question line: trimmed, and prefixed `⭐ `
      when the pair is starred. */
  function CueLine(p: Pair): string {
    if p.isImportant then [Star, ' '] + Trim(p.cue) else Trim(p.cue)
  }

  /** Whether `generateMarkdown` writes a block for the pair (`if (cue || notes)`). */
  predicate Emitted(p: Pair) {
    CueLine(p) != "" || Trim(p.notes) != ""
  }

  /** The drop rule: a starred pair is always written; an unstarred one only
      when its trimmed cue or its trimmed notes are non-empty. */
  lemma DropRule(p: Pair)
    ensures Emitted(p) <==> p.isImportant || Trim(p.cue) != "" || Trim(p.notes) != ""
  {
  }

  /** Each line quoted with `> ` and ended by a newline. */
  function Quoted(ls: seq<string>): string {
    if ls == [] then "" else "> " + ls[0] + "\n" + Quoted(ls[1..])
  }

  lemma {:induction false} QuotedAppend(ls: seq<string>, l: string)
    ensures Quoted(ls + [l]) == Quoted(ls) + "> " + l + "\n"
  {
    if ls == [] {
      assert ls + [l] == [l];
    } else {
      assert (ls + [l])[1..] == ls[1..] + [l];
      QuotedAppend(ls[1..], l);
    }
  }

  /** The block written for one pair: the question line, the quoted lines of
      the trimmed notes, and a blank line. */
  function Block(p: Pair): string {
    QuestionMarker + CueLine(p) + "\n" + Quoted(SplitLines(Trim(p.notes))) + "\n"
  }

  /** The pairs that get a block, in list order. */
  function EmittedPairs(ps: seq<Pair>): (es: seq<Pair>)
    ensures |es| <= |ps|
    ensures forall k :: 0 <= k < |es| ==> Emitted(es[k])
  {
    if ps == [] then []
    else
      var last := ps[|ps| - 1];
      EmittedPairs(ps[..|ps| - 1]) + (if Emitted(last) then [last] else [])
  }

  /** Filtering respects concatenation, so blocks keep the pairs' order. */
  lemma {:induction false} EmittedPairsAppend(ps: seq<Pair>, qs: seq<Pair>)
    ensures EmittedPairs(ps + qs) == EmittedPairs(ps) + EmittedPairs(qs)
    decreases |qs|
  {
    if qs == [] {
      assert ps + qs == ps;
    } else {
      assert (ps + qs)[..|ps + qs| - 1] == ps + qs[..|qs| - 1];
      EmittedPairsAppend(ps, qs[..|qs| - 1]);
    }
  }

  /** A list of pairs that all get a block is written in full. */
  lemma {:induction false} EmittedPairsAll(ps: seq<Pair>)
    requires forall k :: 0 <= k < |ps| ==> Emitted(ps[k])
    ensures EmittedPairs(ps) == ps
  {
    if ps != [] {
      EmittedPairsAll(ps[..|ps| - 1]);
      assert ps == ps[..|ps| - 1] + [ps[|ps| - 1]];
    }
  }

  function Blocks(es: seq<Pair>): string {
    if es == [] then "" else Block(es[0]) + Blocks(es[1..])
  }

  lemma {:induction false} BlocksAppend(es: seq<Pair>, e: Pair)
    ensures Blocks(es + [e]) == Blocks(es) + Block(e)
  {
    if es == [] {
      assert es + [e] == [e];
    } else {
      assert (es + [e])[1..] == es[1..] + [e];
      BlocksAppend(es[1..], e);
    }
  }

  /** `notesContent` after the loop over the pairs. */
  function NotesContent(ps: seq<Pair>): string {
    Blocks(EmittedPairs(ps))
  }

  /** `summary.split('\n')` with each line trimmed. */
  function TrimmedLines(ls: seq<string>): (r: seq<string>)
    ensures |r| == |ls| && forall i :: 0 <= i < |ls| ==> r[i] == Trim(ls[i])
  {
    seq(|ls|, i requires 0 <= i < |ls| => Trim(ls[i]))
  }

  /** `summaryContent`: nothing for an empty summary, otherwise the header
      followed by every line of the summary trimmed and quoted. */
  function SummaryContent(summary: string): string {
    if summary == "" then "" else SummaryHeader + Quoted(TrimmedLines(SplitLines(summary)))
  }

  /** The first line: the topic as entered, or `My Notes` for the empty string. */
  function Heading(topic: string): string {
    "# " + (if topic == "" then DefaultTitle else topic)
  }

  /** The whole document, trimmed. The specification of `GenerateMarkdown`. */
  function Markdown(d: Doc): string {
    Trim(Heading(d.topic) + "\n\n" + Trim(NotesContent(d.pairs)) + "\n\n" + Trim(SummaryContent(d.summary)))
  }

  /** The document is never empty, starts with `#` and has no leading or
      trailing white space. */
  lemma {:induction false} MarkdownShape(d: Doc)
    ensures Markdown(d) != [] && Markdown(d)[0] == '#' && !IsSpace(Markdown(d)[|Markdown(d)| - 1])
  {
    var h := Heading(d.topic);
    var tn := Trim(NotesContent(d.pairs));
    var ts := Trim(SummaryContent(d.summary));
    var md := Trim(h + "\n\n" + tn + "\n\n" + ts);
    assert Markdown(d) == md;
    DocumentShape(h, tn, ts);
    assert md != [] && md[0] == '#';
    assert !IsSpace(md[|md| - 1]);
  }

  /** The heading line, `# ` and the topic or `My Notes`, is the first line
      of the document whenever the topic does not end in white space. */
  lemma {:induction false} HeadingKept(d: Doc)
    requires d.topic == "" || !IsSpace(d.topic[|d.topic| - 1])
    ensures Markdown(d) == Heading(d.topic) || StartsWith(Markdown(d), Heading(d.topic) + "\n")
  {
    var h := Heading(d.topic);
    var tn := Trim(NotesContent(d.pairs));
    var ts := Trim(SummaryContent(d.summary));
    var md := Trim(h + "\n\n" + tn + "\n\n" + ts);
    assert Markdown(d) == md;
    HeadingEnds(d.topic);
    DocumentHeading(h, tn, ts, md);
  }

  /** The heading line starts with `# ` and ends where the title does. */
  lemma {:induction false} HeadingEnds(topic: string)
    requires topic == "" || !IsSpace(topic[|topic| - 1])
    ensures var h := Heading(topic); StartsWith(h, "# ") && !IsSpace(h[|h| - 1])
  {
    var title := if topic == "" then DefaultTitle else topic;
    assert !IsSpace(title[|title| - 1]) by {
      if topic == "" { assert title[|title| - 1] == 's'; }
    }
    PrefixedLast("# ", title);
  }

  lemma {:induction false} PrefixedLast(a: string, b: string)
    requires b != []
    ensures StartsWith(a + b, a) && (a + b)[|a + b| - 1] == b[|b| - 1]
  {
    assert (a + b)[..|a|] == a;
  }

  /** The shape of any document assembled from a `# ` heading and two
      trimmed parts. */
  lemma {:induction false} DocumentShape(h: string, tn: string, ts: string)
    requires StartsWith(h, "# ")
    ensures var md := Trim(h + "\n\n" + tn + "\n\n" + ts);
      md != [] && md[0] == '#' && !IsSpace(md[|md| - 1])
  {
    var x := h + "\n\n" + tn + "\n\n" + ts;
    assert x[0] == h[0] == '#';
    TrimOfNonSpaceStart(x);
  }

  /** An assembled document begins with its heading line when that line ends
      in a non-space character. */
  lemma {:induction false} DocumentHeading(h: string, tn: string, ts: string, md: string)
    requires StartsWith(h, "# ") && !IsSpace(h[|h| - 1])
    requires md == Trim(h + "\n\n" + tn + "\n\n" + ts)
    ensures md == h || StartsWith(md, h + "\n")
  {
    var x := h + "\n\n" + tn + "\n\n" + ts;
    var rest := "\n\n" + tn + "\n\n" + ts;
    assert x == h + rest;
    assert x[0] == h[0] == '#';
    TrimOfNonSpaceStart(x);
    HeadingLine(h, rest);
  }

  /** Trimming the whole document leaves its first line intact when that line
      ends in a non-space character. */
  lemma {:induction false} HeadingLine(h: string, rest: string)
    requires h != [] && !IsSpace(h[|h| - 1])
    requires rest == [] || rest[0] == '\n'
    ensures TrimEnd(h + rest) == h || StartsWith(TrimEnd(h + rest), h + "\n")
  {
    if TrimEnd(rest) == [] {
      TrimEndDrops(rest);
      TrimEndOfSpaces(h, rest);
      TrimEndOfNonSpaceEnd(h);
    } else {
      TrimEndAppend(h, rest);
      assert TrimEnd(rest)[0] == '\n';
      assert (h + TrimEnd(rest))[..|h| + 1] == h + "\n";
    }
  }

  /** The trimmed summary block: the header, then the quoted lines with the
      trailing white space of the last one dropped. */
  lemma {:induction false} TrimmedSummary(summary: string)
    requires summary != ""
    ensures var q := Quoted(TrimmedLines(SplitLines(summary)));
      Trim(SummaryContent(summary)) == SummaryHeader + TrimEnd(q) && TrimEnd(q) != []
  {
    var sc := SummaryContent(summary);
    var ls := TrimmedLines(SplitLines(summary));
    var q := Quoted(ls);
    assert sc == SummaryHeader + q;
    TrimOfNonSpaceStart(sc);
    assert q == "> " + ls[0] + "\n" + Quoted(ls[1..]);
    assert q[0] == '>';
    TrimOfNonSpaceStart(q);
    TrimEndAppend(SummaryHeader, q);
  }

  /** A non-empty summary is written last, under its header, with every line
      trimmed and quoted (the final trim may drop the last quote's space). */
  lemma {:induction false} SummaryAtEnd(d: Doc)
    requires d.summary != ""
    ensures var ts := Trim(SummaryContent(d.summary));
      && StartsWith(ts, SummaryHeader)
      && EndsWith(Markdown(d), ts)
  {
    TrimmedSummary(d.summary);
    var ts := Trim(SummaryContent(d.summary));
    assert !IsSpace(ts[|ts| - 1]);
    var h := Heading(d.topic);
    var tn := Trim(NotesContent(d.pairs));
    var front := h + "\n\n" + tn + "\n\n";
    var x := front + ts;
    assert Markdown(d) == Trim(x);
    TrimOfNonSpaceStart(x);
    TrimEndOfNonSpaceEnd(x);
    assert x[|front|..] == ts;
  }

  /** An empty summary adds nothing: the document is the heading and the
      notes part alone. */
  lemma {:induction false} NoSummaryBlock(d: Doc)
    requires d.summary == ""
    ensures Markdown(d) == Trim(Heading(d.topic) + "\n\n" + Trim(NotesContent(d.pairs)))
  {
    var x := Heading(d.topic) + "\n\n" + Trim(NotesContent(d.pairs));
    var ts := Trim(SummaryContent(d.summary));
    assert ts == "" by {
      assert SummaryContent(d.summary) == "";
      TrimEmpty("");
    }
    assert Markdown(d) == Trim(x + "\n\n" + ts);
    TrimBlankTail(x);
  }

  lemma TrimBlankTail(x: string)
    ensures Trim(x + "\n\n" + "") == Trim(x)
  {
    assert x + "\n\n" + "" == x + "\n\n";
    TrimAppendSpaces(x, "\n\n");
  }

  lemma NotesContentStep(ps: seq<Pair>, i: nat)
    requires i < |ps|
    ensures NotesContent(ps[..i + 1]) == NotesContent(ps[..i]) + (if Emitted(ps[i]) then Block(ps[i]) else "")
  {
    assert ps[..i + 1][..i] == ps[..i];
    if Emitted(ps[i]) {
      BlocksAppend(EmittedPairs(ps[..i]), ps[i]);
    } else {
      assert EmittedPairs(ps[..i + 1]) == EmittedPairs(ps[..i]);
    }
  }

  /** One turn of a quoting loop: appending the next quoted line to a prefix
      of the quoted block. */
  lemma {:induction false} QuotedStep(front: string, ls: seq<string>, j: nat)
    requires j < |ls|
    ensures front + Quoted(ls[..j]) + "> " + ls[j] + "\n" == front + Quoted(ls[..j + 1])
  {
    assert ls[..j + 1] == ls[..j] + [ls[j]];
    QuotedAppend(ls[..j], ls[j]);
  }

  /** The last turn of the outer loop: the question line, the quoted lines
      and the blank line appended one after another make one block. */
  lemma {:induction false} BlockAfter(before: string, p: Pair)
    ensures before + QuestionMarker + CueLine(p) + "\n" + Quoted(SplitLines(Trim(p.notes))) + "\n"
      == before + Block(p)
  {
    var c := CueLine(p);
    var q := Quoted(SplitLines(Trim(p.notes)));
    assert Block(p) == QuestionMarker + c + "\n" + q + "\n";
  }

  /** `generateMarkdown` as written: two loops that grow `notesContent` and
      `summaryContent` with `+=`, then one trimmed template string. */
  method GenerateMarkdown(d: Doc) returns (md: string)
    ensures md == Markdown(d)
  {
    var notesContent := "";
    for i := 0 to |d.pairs|
      invariant notesContent == NotesContent(d.pairs[..i])
    {
      var pair := d.pairs[i];
      var cue := Trim(pair.cue);
      var notes := Trim(pair.notes);
      if pair.isImportant {
        cue := [Star, ' '] + cue;
      }
      assert cue == CueLine(pair);
      NotesContentStep(d.pairs, i);
      if cue != "" || notes != "" {
        ghost var before := notesContent;
        notesContent := notesContent + QuestionMarker + cue + "\n";
        ghost var front := notesContent;
        assert notesContent == front + Quoted([]);
        var lines := SplitLines(notes);
        for j := 0 to |lines|
          invariant notesContent == front + Quoted(lines[..j])
        {
          QuotedStep(front, lines, j);
          notesContent := notesContent + "> " + lines[j] + "\n";
        }
        assert lines[..|lines|] == lines;
        notesContent := notesContent + "\n";
        BlockAfter(before, pair);
      }
    }
    assert d.pairs[..|d.pairs|] == d.pairs;

    var summaryContent := "";
    if d.summary != "" {
      summaryContent := summaryContent + SummaryHeader;
      var lines := SplitLines(d.summary);
      ghost var trimmed := TrimmedLines(lines);
      for j := 0 to |lines|
        invariant summaryContent == SummaryHeader + Quoted(trimmed[..j])
      {
        QuotedStep(SummaryHeader, trimmed, j);
        summaryContent := summaryContent + "> " + Trim(lines[j]) + "\n";
      }
      assert trimmed[..|lines|] == trimmed;
    }

    var title := if d.topic == "" then DefaultTitle else d.topic;
    md := Trim("# " + title + "\n\n" + Trim(notesContent) + "\n\n" + Trim(summaryContent));
    assert Heading(d.topic) == "# " + title;
  }
}
