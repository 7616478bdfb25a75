/** `loadFromMarkdown`: the three regular expressions of the Markdown loader
    written out as functions on strings, and the document they recover. */
module MarkdownImport {
  import opened Wrappers
  import opened Text
  import opened Notes
  import opened MarkdownExport

  // ---------------------------------------------------------------------------
  // `/^# (.*)/`

  /** The capture of `/^# (.*)/`: when the text begins with `# `, the rest of
      its first line. */
  function TopicMatch(md: string): (r: Option<string>)
    ensures r.Some? <==> StartsWith(md, "# ")
    ensures r.Some? ==> var t := r.value;
      && 2 + |t| <= |md| && md[2..2 + |t|] == t && SingleLine(t)
      && (2 + |t| == |md| || IsLineTerminator(md[2 + |t|]))
  {
    if StartsWith(md, "# ") then
      var n := LineLength(md[2..]);
      LineLengthLine(md[2..]);
      assert md[2..2 + n] == md[2..][..n];
      Some(md[2..2 + n])
    else None
  }

  // ---------------------------------------------------------------------------
  // `(?:> .*\n?)*` and `.replace(/^> /gm, '')`

  /** Length of the prefix matched by `(?:> .*\n?)*`: each round needs `> `,
      takes the line up to its terminator and a `\n` when there is one.
      Every round is forced, so greedy matching never backtracks. */
  function QuoteRun(s: string): (n: nat)
    ensures n <= |s|
    decreases |s|
  {
    if StartsWith(s, "> ") then
      var l := 2 + LineLength(s[2..]);
      if l < |s| && s[l] == '\n' then l + 1 + QuoteRun(s[l + 1..]) else l
    else 0
  }

  /** `s[..n]` is a run of quoted lines: it is empty or starts with `> `, its
      only line breaks are `\n`, and each line after a `\n` inside it starts
      with `> ` again. */
  predicate QuotedLines(s: string, n: nat) {
    && n <= |s|
    && (n > 0 ==> 2 <= n && s[0] == '>' && s[1] == ' ')
    && (forall j :: 0 <= j < n && IsLineTerminator(s[j]) ==> s[j] == '\n')
    && (forall j :: 0 <= j && j + 1 < n && s[j] == '\n' ==> j + 3 <= n && s[j + 1] == '>' && s[j + 2] == ' ')
  }

  /** The run `s[..n]` cannot be extended: it reaches the end of the text,
      or its last line stops at a line terminator other than `\n`, or the
      line after it does not start with `> `. */
  predicate RunEnds(s: string, n: nat) {
    && n <= |s|
    && (|| n == |s|
        || (0 < n && s[n - 1] != '\n' && IsLineTerminator(s[n]) && s[n] != '\n')
        || ((n == 0 || s[n - 1] == '\n') && !StartsWith(s[n..], "> ")))
  }

  /** `QuoteRun` is a maximal run of quoted lines. */
  lemma {:induction false} QuoteRunShape(s: string)
    ensures QuotedLines(s, QuoteRun(s)) && RunEnds(s, QuoteRun(s))
    decreases |s|
  {
    if !StartsWith(s, "> ") {
      assert QuoteRun(s) == 0 && s[0..] == s;
    } else {
      var l := 2 + LineLength(s[2..]);
      QuotedHead(s);
      if l < |s| && s[l] == '\n' {
        var m := QuoteRun(s[l + 1..]);
        QuoteRunShape(s[l + 1..]);
        assert QuoteRun(s) == l + 1 + m;
        QuotedNext(s, l, m);
        RunEndsNext(s, l, m);
      } else {
        assert QuoteRun(s) == l;
      }
    }
  }

  /** The first quoted line: `> ` and then no line terminator up to `l`. */
  predicate QuotedLine(s: string, l: nat) {
    && 2 <= l <= |s| && s[0] == '>' && s[1] == ' '
    && (forall k :: 0 <= k < l ==> !IsLineTerminator(s[k]))
    && (l < |s| ==> IsLineTerminator(s[l]))
  }

  lemma {:induction false} QuotedHead(s: string)
    requires StartsWith(s, "> ")
    ensures QuotedLine(s, 2 + LineLength(s[2..]))
  {
    var t := s[2..];
    LineEndFirst(t, 0);
    assert s[..2] == "> ";
    forall k | 2 <= k < 2 + LineLength(t) ensures !IsLineTerminator(s[k]) {
      assert s[k] == t[k - 2];
    }
  }

  lemma {:induction false} QuotedNext(s: string, l: nat, m: nat)
    requires QuotedLine(s, l) && l < |s| && s[l] == '\n'
    requires QuotedLines(s[l + 1..], m)
    ensures QuotedLines(s, l + 1 + m)
  {
    var rest := s[l + 1..];
    var n := l + 1 + m;
    forall j | 0 <= j < n && IsLineTerminator(s[j]) ensures s[j] == '\n' {
      if j > l { assert s[j] == rest[j - l - 1]; }
    }
    forall j | 0 <= j && j + 1 < n && s[j] == '\n'
      ensures j + 3 <= n && s[j + 1] == '>' && s[j + 2] == ' '
    {
      if j == l {
        assert rest[0] == s[l + 1] && rest[1] == s[l + 2];
      } else {
        assert s[j] == rest[j - l - 1];
        assert rest[j - l] == s[j + 1] && rest[j - l + 1] == s[j + 2];
      }
    }
  }

  lemma {:induction false} RunEndsNext(s: string, l: nat, m: nat)
    requires QuotedLine(s, l) && l < |s| && s[l] == '\n'
    requires m <= |s| - l - 1 && RunEnds(s[l + 1..], m)
    ensures RunEnds(s, l + 1 + m)
  {
    var rest := s[l + 1..];
    var n := l + 1 + m;
    assert s[n..] == rest[m..];
    assert s[n - 1] == if m == 0 then s[l] else rest[m - 1];
    if n < |s| {
      assert s[n] == rest[m];
    }
  }

  /** A maximal run of quoted lines is the one `QuoteRun` measures. */
  lemma {:induction false} QuoteRunUnique(s: string, n: nat)
    requires QuotedLines(s, n) && RunEnds(s, n)
    ensures n == QuoteRun(s)
  {
    var q := QuoteRun(s);
    QuoteRunShape(s);
    if n < q {
      RunPrefix(s, n, q);
    } else if q < n {
      RunPrefix(s, q, n);
    }
  }

  /** A run that cannot be extended is no proper prefix of another run. */
  lemma {:induction false} RunPrefix(s: string, a: nat, b: nat)
    requires a <= b && QuotedLines(s, b) && RunEnds(s, a)
    ensures a == b
  {
  }

  /** `.replace(/^> /gm, '')` on the part of a text from some position on,
      `atLineStart` saying whether that position is the start of a line (the
      start of the text or just after a line terminator). */
  function StripFrom(s: string, atLineStart: bool): string
    decreases |s|
  {
    if s == [] then []
    else if atLineStart && StartsWith(s, "> ") then StripFrom(s[2..], false)
    else [s[0]] + StripFrom(s[1..], IsLineTerminator(s[0]))
  }

  /** `.replace(/^> /gm, '')`: one `> ` removed at the start of every line. */
  function StripQuotes(s: string): string {
    StripFrom(s, true)
  }

  // ---------------------------------------------------------------------------
  // `/> \[!SUMMARY\] Summary\n((?:> .*\n?)*)/`

  /** The capture of the summary expression: the quoted lines right after the
      first `> [!SUMMARY] Summary` line, or `None` when the text has none. */
  function SummaryMatch(md: string): (r: Option<string>)
    ensures r.Some? <==> Contains(md, SummaryHeader)
  {
    match IndexOf(md, SummaryHeader)
    case None => None
    case Some(k) =>
      var body := md[k + |SummaryHeader|..];
      Some(body[..QuoteRun(body)])
  }

  // ---------------------------------------------------------------------------
  // `/> \[!QUESTION\]- (.*)\n((?:> .*\n?)*)/g`

  /** One match of the question expression: its two captures and its length. */
  datatype Match = Match(cue: string, notes: string, len: nat)

  /** The question expression tried at the very start of `s`: the marker, the
      rest of the line, a `\n` (no other line terminator), then the quoted
      lines. */
  function PairAt(s: string): (r: Option<Match>)
    ensures r.Some? ==> 0 < r.value.len <= |s|
  {
    if !StartsWith(s, QuestionMarker) then None
    else
      var c := |QuestionMarker| + LineLength(s[|QuestionMarker|..]);
      if c < |s| && s[c] == '\n' then
        var n := QuoteRun(s[c + 1..]);
        Some(Match(s[|QuestionMarker|..c], s[c + 1..c + 1 + n], c + 1 + n))
      else None
  }

  /** What a match of the question expression covers: the marker, a one-line
      cue and its `\n`, then the captured quoted lines. */
  lemma {:induction false} PairAtShape(s: string)
    requires PairAt(s).Some?
    ensures var m := PairAt(s).value;
      && StartsWith(s, QuestionMarker)
      && |QuestionMarker| + |m.cue| + 1 <= m.len
      && s[..|QuestionMarker| + |m.cue| + 1] == QuestionMarker + m.cue + "\n"
      && SingleLine(m.cue)
      && s[|QuestionMarker| + |m.cue| + 1..m.len] == m.notes
  {
    var c := |QuestionMarker| + LineLength(s[|QuestionMarker|..]);
    LineLengthLine(s[|QuestionMarker|..]);
    SliceParts(s, |QuestionMarker|, c);
  }

  /** The pair `loadFromMarkdown` builds from one match: the trimmed cue, and
      when it starts with the star the pair is important and the cue loses
      the star and is trimmed again; the notes lose one `> ` per line and are
      trimmed. */
  function MakePair(rawCue: string, rawNotes: string): (p: Pair)
    ensures p.isImportant <==> StartsWith(Trim(rawCue), [Star])
    ensures p.cue == [] || (!IsSpace(p.cue[0]) && !IsSpace(p.cue[|p.cue| - 1]))
    ensures p.notes == [] || (!IsSpace(p.notes[0]) && !IsSpace(p.notes[|p.notes| - 1]))
  {
    var cue := Trim(rawCue);
    var notes := Trim(StripQuotes(rawNotes));
    if StartsWith(cue, [Star]) then Pair(Trim(cue[1..]), notes, true) else Pair(cue, notes, false)
  }

  /** The `exec` loop: from each position, a match appends one pair and the
      search resumes after it; otherwise the search moves on one character. */
  function Pairs(s: string): seq<Pair>
    decreases |s|
  {
    if s == [] then []
    else
      match PairAt(s)
      case Some(m) => [MakePair(m.cue, m.notes)] + Pairs(s[m.len..])
      case None => Pairs(s[1..])
  }

  /** The topic `loadFromMarkdown` sets: the trimmed capture, or the empty
      string `clearEditor` left when the text does not begin with `# `. */
  function ParsedTopic(md: string): (t: string)
    ensures !StartsWith(md, "# ") ==> t == ""
    ensures t == [] || (!IsSpace(t[0]) && !IsSpace(t[|t| - 1]))
  {
    match TopicMatch(md)
    case Some(g) => Trim(g)
    case None => ""
  }

  /** The summary `loadFromMarkdown` sets: the capture with one `> ` removed
      per line, trimmed; the empty string when there is no summary header. */
  function ParsedSummary(md: string): (t: string)
    ensures !Contains(md, SummaryHeader) ==> t == ""
    ensures t == [] || (!IsSpace(t[0]) && !IsSpace(t[|t| - 1]))
  {
    match SummaryMatch(md)
    case Some(g) => Trim(StripQuotes(g))
    case None => ""
  }

  /** The editor state `loadFromMarkdown` leaves: everything cleared first,
      then the topic and the summary when their expressions match, the pairs
      found, or one empty pair when there were none. */
  function ParseMarkdown(md: string): (d: Doc)
    ensures d.pairs != []
    ensures Pairs(md) != [] ==> d.pairs == Pairs(md)
    ensures Pairs(md) == [] ==> d.pairs == [EmptyPair]
  {
    var ps := Pairs(md);
    Doc(ParsedTopic(md), ParsedSummary(md), if ps == [] then [EmptyPair] else ps)
  }

  // ---------------------------------------------------------------------------
  // The `exec` loop one step at a time

  /** `pairRegex.exec(md)` with `lastIndex` at `from`: the leftmost match
      starting at or after `from`, with its position. */
  function NextMatch(md: string, from: nat): (r: Option<(nat, Match)>)
    requires from <= |md|
    ensures r.Some? ==> from <= r.value.0 && r.value.0 + r.value.1.len <= |md|
    decreases |md| - from
  {
    if from == |md| then None
    else
      match PairAt(md[from..])
      case Some(m) => Some((from, m))
      case None => NextMatch(md, from + 1)
  }

  /** What `exec` returns is the leftmost match: the expression matches at
      the position returned and at no position between `from` and it, and
      `None` means it matches nowhere from `from` on. */
  lemma {:induction false} NextMatchLeftmost(md: string, from: nat)
    requires from <= |md|
    ensures var r := NextMatch(md, from);
      && (r.Some? ==> PairAt(md[r.value.0..]) == Some(r.value.1))
      && (r.Some? ==> forall q :: from <= q < r.value.0 ==> PairAt(md[q..]).None?)
      && (r.None? ==> forall q :: from <= q < |md| ==> PairAt(md[q..]).None?)
    decreases |md| - from
  {
    if from < |md| && PairAt(md[from..]).None? {
      var r := NextMatch(md, from);
      assert r == NextMatch(md, from + 1);
      NextMatchLeftmost(md, from + 1);
      if r.Some? {
        forall q | from <= q < r.value.0 ensures PairAt(md[q..]).None? {
          if q > from { assert from + 1 <= q; }
        }
      } else {
        forall q | from <= q < |md| ensures PairAt(md[q..]).None? {
          if q > from { assert from + 1 <= q; }
        }
      }
    }
  }

  /** When `exec` finds nothing more, the scan finds no further pair. */
  lemma {:induction false} NoNextMatch(md: string, from: nat)
    requires from <= |md| && NextMatch(md, from).None?
    ensures Pairs(md[from..]) == []
    decreases |md| - from
  {
    if from < |md| {
      var s := md[from..];
      assert PairAt(s).None?;
      assert Pairs(s) == Pairs(md[from + 1..]) by {
        assert s[1..] == md[from + 1..];
      }
      NoNextMatch(md, from + 1);
    }
  }

  /** One round of the `exec` loop is one step of the scan: the match
      contributes its pair and the scan resumes where the match ends. */
  lemma {:induction false} NextMatchStep(md: string, from: nat, p: nat, m: Match)
    requires from <= |md| && NextMatch(md, from) == Some((p, m))
    ensures Pairs(md[from..]) == [MakePair(m.cue, m.notes)] + Pairs(md[p + m.len..])
    decreases |md| - from
  {
    var s := md[from..];
    if p == from {
      assert PairAt(s) == Some(m);
      assert s != [];
      assert Pairs(s) == [MakePair(m.cue, m.notes)] + Pairs(s[m.len..]);
      assert s[m.len..] == md[p + m.len..];
    } else {
      assert PairAt(s).None?;
      assert Pairs(s) == Pairs(md[from + 1..]) by {
        assert s[1..] == md[from + 1..];
      }
      NextMatchStep(md, from + 1, p, m);
    }
  }
}
