/** The qualified Markdown round trip: `loadFromMarkdown(generateMarkdown(state))`
    gives back the topic, the summary with every line trimmed, and exactly the
    pairs that were written, in order, with their flags and trimmed text. */
module MarkdownRoundTrip {
  import opened Wrappers
  import opened Text
  import opened Notes
  import opened MarkdownExport
  import opened MarkdownImport

  // ---------------------------------------------------------------------------
  // Marker-free text

  /** `[!` at position `j`. */
  predicate BangAt(s: string, j: int) {
    0 <= j < |s| - 1 && s[j] == '[' && s[j + 1] == '!'
  }

  /** `[!` followed by `c` at position `j`. */
  predicate MarkerAt(s: string, j: int, c: char) {
    0 <= j < |s| - 2 && s[j] == '[' && s[j + 1] == '!' && s[j + 2] == c
  }

  /** The text holds no `[!`, so no line of it is a callout marker. */
  predicate NoBang(s: string) {
    forall j :: 0 <= j < |s| - 1 ==> !BangAt(s, j)
  }

  /** The text holds no `[!` followed by `c`. */
  predicate Free(s: string, c: char) {
    forall j :: 0 <= j < |s| - 2 ==> !MarkerAt(s, j, c)
  }

  /** The field conditions: no `[!`, and `\n` as the only line break. */
  predicate Clean(s: string) {
    NoBang(s) && OnlyNewlineBreaks(s)
  }

  lemma NoBangFree(s: string, c: char)
    requires NoBang(s)
    ensures Free(s, c)
  {
    forall j | 0 <= j < |s| - 2 ensures !MarkerAt(s, j, c) {
      assert !BangAt(s, j);
    }
  }

  /** Two marker-free texts stay marker-free when joined, unless the join
      itself completes a `[!c`. */
  lemma {:induction false} FreeAppend(a: string, b: string, c: char)
    requires Free(a, c) && Free(b, c)
    requires a == [] || b == [] || (a[|a| - 1] != '[' && a[|a| - 1] != '!') || (b[0] != '!' && b[0] != c)
    ensures Free(a + b, c)
  {
    var s := a + b;
    forall j | 0 <= j < |s| - 2
      ensures !MarkerAt(s, j, c)
    {
      if j + 2 < |a| {
        assert !MarkerAt(a, j, c);
        assert s[j] == a[j] && s[j + 1] == a[j + 1] && s[j + 2] == a[j + 2];
      } else if j >= |a| {
        assert !MarkerAt(b, j - |a|, c);
        assert s[j] == b[j - |a|] && s[j + 1] == b[j + 1 - |a|] && s[j + 2] == b[j + 2 - |a|];
      } else if j == |a| - 1 {
        assert s[j] == a[|a| - 1] && s[j + 1] == b[0] && s[j + 2] == b[1];
      } else {
        assert s[j] == a[|a| - 2] && s[j + 1] == a[|a| - 1] && s[j + 2] == b[0];
      }
    }
  }

  lemma {:induction false} FreePrefix(s: string, n: nat, c: char)
    requires Free(s, c) && n <= |s|
    ensures Free(s[..n], c) && Free(s[n..], c)
  {
    forall j | 0 <= j < n - 2 ensures !MarkerAt(s[..n], j, c) {
      assert !MarkerAt(s, j, c);
    }
    forall j | 0 <= j < |s| - n - 2 ensures !MarkerAt(s[n..], j, c) {
      assert !MarkerAt(s, n + j, c);
    }
  }

  lemma {:induction false} CleanSlice(s: string, i: nat, j: nat)
    requires Clean(s) && i <= j <= |s|
    ensures Clean(s[i..j])
  {
    NoBangSlice(s, i, j);
    assert forall k :: 0 <= k < j - i ==> s[i..j][k] == s[i + k];
  }

  /** The trimmed text is a slice of the text. */
  lemma {:induction false} TrimSlice(s: string)
    ensures var i := |s| - |TrimStart(s)|; i + |Trim(s)| <= |s| && Trim(s) == s[i..i + |Trim(s)|]
  {
    var t := TrimStart(s);
    var r := Trim(s);
    TrimStartDrops(s);
    TrimEndDrops(t);
    var i := |s| - |t|;
    assert r == TrimEnd(t) == t[..|r|];
    assert t == s[i..];
    assert s[i..][..|r|] == s[i..i + |r|];
  }

  lemma {:induction false} CleanTrim(s: string)
    requires Clean(s)
    ensures Clean(Trim(s))
  {
    TrimSlice(s);
    CleanSlice(s, |s| - |TrimStart(s)|, |s| - |TrimStart(s)| + |Trim(s)|);
  }

  lemma {:induction false} NoBangTrim(s: string)
    requires NoBang(s)
    ensures NoBang(Trim(s))
  {
    TrimSlice(s);
    NoBangSlice(s, |s| - |TrimStart(s)|, |s| - |TrimStart(s)| + |Trim(s)|);
  }

  /** Every line of a clean text is clean and has no line terminator. */
  lemma {:induction false} CleanLines(s: string)
    requires Clean(s)
    ensures var ls := SplitLines(s); forall i :: 0 <= i < |ls| ==> Clean(ls[i]) && SingleLine(ls[i])
    decreases |s|
  {
    var k := IndexOfChar(s, '\n');
    IndexOfCharFirst(s, '\n');
    CleanSlice(s, 0, k);
    assert s[0..k] == s[..k];
    assert SingleLine(s[..k]) by {
      forall i | 0 <= i < k ensures !IsLineTerminator(s[..k][i]) {
        assert s[..k][i] == s[i] != '\n';
      }
    }
    if k < |s| {
      CleanSlice(s, k + 1, |s|);
      assert s[k + 1..|s|] == s[k + 1..];
      CleanLines(s[k + 1..]);
      assert SplitLines(s) == [s[..k]] + SplitLines(s[k + 1..]);
    } else {
      assert s[..k] == s;
    }
  }

  lemma {:induction false} NoBangSlice(s: string, i: nat, j: nat)
    requires NoBang(s) && i <= j <= |s|
    ensures NoBang(s[i..j])
  {
    forall k | 0 <= k < j - i - 1 ensures !BangAt(s[i..j], k) {
      assert !BangAt(s, i + k);
    }
  }

  lemma {:induction false} SingleLineTrim(s: string)
    requires SingleLine(s)
    ensures SingleLine(Trim(s))
  {
    TrimSlice(s);
    var i := |s| - |TrimStart(s)|;
    assert forall k :: 0 <= k < |Trim(s)| ==> Trim(s)[k] == s[i + k];
  }

  // ---------------------------------------------------------------------------
  // Searching across marker-free text

  /** Text without `[!Q` holds no question match, so the scan passes over it
      unchanged, provided what follows cannot complete a marker begun in it. */
  lemma {:induction false} SkipFree(x: string, y: string)
    requires Free(x, 'Q')
    requires y == [] || (y[0] != ' ' && y[0] != '[' && y[0] != '!' && y[0] != 'Q')
    ensures Pairs(x + y) == Pairs(y)
    decreases |x|
  {
    if x == [] {
      assert x + y == y;
    } else {
      var s := x + y;
      if |x| >= 5 {
        assert !MarkerAt(x, 2, 'Q');
        assert s[2] == x[2] && s[3] == x[3] && s[4] == x[4];
        assert !StartsWith(s, QuestionMarker) by {
          assert QuestionMarker[2] == '[' && QuestionMarker[3] == '!' && QuestionMarker[4] == 'Q';
        }
      } else if |s| >= |QuestionMarker| {
        assert s[|x|] == y[0];
        assert QuestionMarker[|x|] != y[0];
        assert !StartsWith(s, QuestionMarker) by {
          assert s[..|QuestionMarker|][|x|] == s[|x|];
        }
      }
      assert PairAt(s) == None;
      assert s[1..] == x[1..] + y;
      FreePrefix(x, 1, 'Q');
      SkipFree(x[1..], y);
    }
  }

  /** Text without `[!S` holds no summary header. */
  lemma {:induction false} NoHeader(s: string)
    requires Free(s, 'S')
    ensures !Contains(s, SummaryHeader)
  {
    forall k | 0 <= k <= |s|
      ensures !StartsWith(s[k..], SummaryHeader)
    {
      if k + |SummaryHeader| <= |s| {
        assert !MarkerAt(s, k + 2, 'S');
        assert s[k..][..|SummaryHeader|][2] == s[k + 2];
        assert s[k..][..|SummaryHeader|][3] == s[k + 3];
        assert s[k..][..|SummaryHeader|][4] == s[k + 4];
      }
    }
  }

  /** The first summary header is the one that follows text without `[!S`. */
  lemma {:induction false} HeaderAt(a: string, b: string)
    requires Free(a, 'S') && StartsWith(b, SummaryHeader)
    ensures IndexOf(a + b, SummaryHeader) == Some(|a|)
  {
    var s := a + b;
    assert s[|a|..] == b;
    forall k | 0 <= k < |a|
      ensures !StartsWith(s[k..], SummaryHeader)
    {
      if k + 4 < |a| {
        assert !MarkerAt(a, k + 2, 'S');
        assert s[k..][..|SummaryHeader|][2] == a[k + 2];
        assert s[k..][..|SummaryHeader|][3] == a[k + 3];
        assert s[k..][..|SummaryHeader|][4] == a[k + 4];
      } else {
        assert s[k..][|a| - k] == b[0] == '>';
        assert SummaryHeader[|a| - k] != '>';
        assert |a| - k < |SummaryHeader|;
      }
    }
    IndexOfAt(s, SummaryHeader, |a|);
  }

  // ---------------------------------------------------------------------------
  // Quoted lines

  lemma {:induction false} QuoteRunQuoted(ls: seq<string>, r: string)
    requires forall i :: 0 <= i < |ls| ==> SingleLine(ls[i])
    ensures QuoteRun(Quoted(ls) + r) == |Quoted(ls)| + QuoteRun(r)
  {
    if ls == [] {
      assert Quoted(ls) + r == r;
    } else {
      var l := ls[0];
      var rest := Quoted(ls[1..]) + r;
      var s := Quoted(ls) + r;
      QuotedCons(ls, r);
      LineParts("> ", l, rest);
      LineLengthOfLine(l, "\n" + rest);
      assert QuoteRun(s) == 2 + |l| + 1 + QuoteRun(rest);
      QuoteRunQuoted(ls[1..], r);
    }
  }

  /** The first quoted line of a block, and what follows it. */
  lemma {:induction false} QuotedCons(ls: seq<string>, r: string)
    requires ls != []
    ensures Quoted(ls) + r == "> " + ls[0] + "\n" + (Quoted(ls[1..]) + r)
    ensures |Quoted(ls)| == 2 + |ls[0]| + 1 + |Quoted(ls[1..])|
  {
    ConcatAssoc("> " + ls[0] + "\n", Quoted(ls[1..]), r);
  }

  lemma QuoteRunStop(r: string)
    requires !StartsWith(r, "> ")
    ensures QuoteRun(r) == 0
  {
  }

  lemma {:induction false} QuoteRunLine(l: string)
    requires SingleLine(l)
    ensures QuoteRun("> " + l) == |"> " + l|
  {
    var s := "> " + l;
    assert s[2..] == l;
    LineLengthOfLine(l, []);
    assert l + [] == l;
  }

  lemma {:induction false} StripLine(l: string, t: string)
    requires SingleLine(l)
    ensures StripFrom(l + t, false) == l + StripFrom(t, false)
  {
    if l == [] {
      assert l + t == t;
    } else {
      assert (l + t)[0] == l[0] && (l + t)[1..] == l[1..] + t;
      StripLine(l[1..], t);
      assert l == [l[0]] + l[1..];
    }
  }

  /** Stripping the quotes from quoted lines gives the lines back, one per
      line. */
  lemma {:induction false} StripQuoted(ls: seq<string>, r: string)
    requires ls != [] && forall i :: 0 <= i < |ls| ==> SingleLine(ls[i])
    ensures StripFrom(Quoted(ls) + r, true) == JoinLines(ls) + "\n" + StripFrom(r, true)
  {
    var l := ls[0];
    var rest := Quoted(ls[1..]) + r;
    var s := Quoted(ls) + r;
    QuotedCons(ls, r);
    LineParts("> ", l, rest);
    assert StripFrom(s, true) == StripFrom(l + ("\n" + rest), false);
    StripLine(l, "\n" + rest);
    assert StripFrom("\n" + rest, false) == "\n" + StripFrom(rest, true) by {
      assert ("\n" + rest)[1..] == rest;
    }
    if |ls| == 1 {
      assert rest == r;
      assert JoinLines(ls) == l;
      ConcatAssoc(l, "\n", StripFrom(r, true));
    } else {
      StripQuoted(ls[1..], r);
      assert JoinLines(ls) == l + "\n" + JoinLines(ls[1..]);
      StripJoin(l, JoinLines(ls[1..]), StripFrom(r, true));
    }
  }

  lemma StripJoin(l: string, j: string, t: string)
    ensures l + ("\n" + (j + "\n" + t)) == l + "\n" + j + "\n" + t
  {
  }

  lemma {:induction false} StripLastLine(l: string)
    requires SingleLine(l)
    ensures StripFrom("> " + l, true) == l
  {
    var s := "> " + l;
    assert s[2..] == l + [];
    StripLine(l, []);
  }

  lemma {:induction false} JoinLinesAppend(ls: seq<string>, l: string)
    requires ls != []
    ensures JoinLines(ls + [l]) == JoinLines(ls) + "\n" + l
  {
    if |ls| == 1 {
      assert (ls + [l])[1..] == [l];
    } else {
      assert (ls + [l])[1..] == ls[1..] + [l];
      JoinLinesAppend(ls[1..], l);
    }
  }

  // ---------------------------------------------------------------------------
  // The last quoted block after the document's final trim

  /** A quoted block with its final newline trimmed away: the last quote
      shrinks to `>` when the last line is empty. */
  function Partial(ls: seq<string>): string
    requires ls != []
  {
    var init := ls[..|ls| - 1];
    var last := ls[|ls| - 1];
    if last == "" then Quoted(init) + ">" else Quoted(init) + "> " + last
  }

  /** Trimming the end of a quoted block whose last line is empty or ends in
      a non-space character leaves `Partial`. */
  lemma {:induction false} TrimEndQuoted(ls: seq<string>)
    requires ls != []
    requires var last := ls[|ls| - 1]; last == "" || !IsSpace(last[|last| - 1])
    ensures TrimEnd(Quoted(ls)) == Partial(ls) && TrimEnd(Quoted(ls) + "\n") == Partial(ls)
  {
    var init := ls[..|ls| - 1];
    var last := ls[|ls| - 1];
    assert ls == init + [last];
    QuotedAppend(init, last);
    TrimEndLast(Quoted(init), last);
  }

  /** The final trim of a quoted block, written out for its last line. */
  lemma {:induction false} TrimEndLast(q: string, last: string)
    requires last == "" || !IsSpace(last[|last| - 1])
    ensures var p := if last == "" then q + ">" else q + "> " + last;
      TrimEnd(q + "> " + last + "\n") == p && TrimEnd(q + "> " + last + "\n" + "\n") == p
  {
    if last == "" {
      var p := q + ">";
      EmptyLastShape(q);
      assert AllSpace(" \n") && AllSpace(" \n\n");
      TrimEndOfSpaces(p, " \n");
      TrimEndOfSpaces(p, " \n\n");
      assert p[|p| - 1] == '>';
      TrimEndOfNonSpaceEnd(p);
    } else {
      var p := q + "> " + last;
      LastShape(q, last);
      assert AllSpace("\n") && AllSpace("\n\n");
      TrimEndOfSpaces(p, "\n");
      TrimEndOfSpaces(p, "\n\n");
      assert p[|p| - 1] == last[|last| - 1];
      TrimEndOfNonSpaceEnd(p);
    }
  }

  lemma EmptyLastShape(q: string)
    ensures q + "> " + "" + "\n" == (q + ">") + " \n"
    ensures q + "> " + "" + "\n" + "\n" == (q + ">") + " \n\n"
  {
  }

  lemma LastShape(q: string, last: string)
    ensures q + "> " + last + "\n" + "\n" == (q + "> " + last) + "\n\n"
  {
  }

  /** What the quoted-lines expression captures from a trimmed block whose
      last line is empty, and where it leaves off. */
  lemma {:induction false} PartialEmptyLast(init: seq<string>, r: string)
    requires forall i :: 0 <= i < |init| ==> SingleLine(init[i])
    requires r == [] || r[0] == '\n'
    ensures var s := Quoted(init) + ">" + r; var n := QuoteRun(s);
      && StripQuotes(s[..n]) == JoinLines(init + [""])
      && s[n..] == ">" + r
  {
    var q := Quoted(init);
    var x := ">" + r;
    ConcatAssoc(q, ">", r);
    QuoteRunQuoted(init, x);
    BareMarkerStop(r);
    AppendParts(q, x);
    StripEmptyLast(init);
  }

  /** A `>` line without its space ends the quoted lines. */
  lemma {:induction false} BareMarkerStop(r: string)
    requires r == [] || r[0] == '\n'
    ensures QuoteRun(">" + r) == 0
  {
    var x := ">" + r;
    if r != [] { assert x[1] == r[0]; }
    QuoteRunStop(x);
  }

  /** Removing the quote markers from quoted lines gives the lines joined,
      with the `\n` that ends the last one. */
  lemma {:induction false} StripAll(ls: seq<string>)
    requires ls != [] && forall i :: 0 <= i < |ls| ==> SingleLine(ls[i])
    ensures StripQuotes(Quoted(ls)) == JoinLines(ls) + "\n"
  {
    StripQuoted(ls, []);
    AppendNil(Quoted(ls));
    AppendNil(JoinLines(ls) + "\n");
  }

  /** The lines read back from quoted lines followed by one more, empty,
      line. */
  lemma {:induction false} StripEmptyLast(init: seq<string>)
    requires forall i :: 0 <= i < |init| ==> SingleLine(init[i])
    ensures StripQuotes(Quoted(init)) == JoinLines(init + [""])
  {
    if init == [] {
      assert init + [""] == [""];
    } else {
      StripAll(init);
      JoinLinesAppend(init, "");
      AppendNil(JoinLines(init) + "\n");
    }
  }

  /** The same for a block whose last line is not empty, at the end of the
      document. */
  lemma {:induction false} PartialAtEnd(init: seq<string>, last: string)
    requires forall i :: 0 <= i < |init| ==> SingleLine(init[i])
    requires SingleLine(last)
    ensures var s := Quoted(init) + "> " + last; QuoteRun(s) == |s| && StripQuotes(s) == JoinLines(init + [last])
  {
    var s := Quoted(init) + "> " + last;
    assert s == Quoted(init) + ("> " + last);
    QuoteRunQuoted(init, "> " + last);
    QuoteRunLine(last);
    StripLastLine(last);
    if init == [] {
      assert s == "> " + last;
    } else {
      StripQuoted(init, "> " + last);
      JoinLinesAppend(init, last);
    }
  }

  /** The same for a block whose last line is not empty, followed by a blank
      line. */
  lemma {:induction false} PartialBeforeBlank(init: seq<string>, last: string, r: string)
    requires forall i :: 0 <= i < |init| ==> SingleLine(init[i])
    requires SingleLine(last)
    requires |r| >= 2 && r[0] == '\n' && r[1] == '\n'
    ensures var s := Quoted(init) + "> " + last + r; var n := QuoteRun(s);
      && Trim(StripQuotes(s[..n])) == Trim(JoinLines(init + [last]))
      && s[n..] == r[1..]
  {
    var ls := init + [last];
    var t := r[1..];
    QuotedAppend(init, last);
    BlankStop(r);
    ConcatAssoc(Quoted(init) + "> " + last, "\n", t);
    AllLinesSingle(init, last);
    QuoteRunQuoted(ls, t);
    AppendParts(Quoted(ls), t);
    StripAll(ls);
    TrimNewline(JoinLines(ls));
  }

  /** A blank line ends the quoted lines before it. */
  lemma {:induction false} BlankStop(r: string)
    requires |r| >= 2 && r[0] == '\n' && r[1] == '\n'
    ensures r == "\n" + r[1..] && QuoteRun(r[1..]) == 0
  {
    var t := r[1..];
    assert t[0] == '\n';
    QuoteRunStop(t);
  }

  lemma AllLinesSingle(init: seq<string>, last: string)
    requires forall i :: 0 <= i < |init| ==> SingleLine(init[i])
    requires SingleLine(last)
    ensures var ls := init + [last]; forall i :: 0 <= i < |ls| ==> SingleLine(ls[i])
  {
  }

  // ---------------------------------------------------------------------------
  // One pair

  /** The conditions on one pair under which its block reads back: no `[!`
      in its text, a cue whose trimmed text is one line, notes whose line
      breaks are `\n`, and a star at the start of the cue only when the pair
      is important. */
  predicate SafePair(p: Pair) {
    && NoBang(p.cue) && SingleLine(Trim(p.cue))
    && Clean(p.notes)
    && (!p.isImportant ==> !StartsWith(Trim(p.cue), [Star]))
  }

  /** The pair as it reads back: trimmed cue and notes, flag kept. */
  function Restore(p: Pair): Pair {
    Pair(Trim(p.cue), Trim(p.notes), p.isImportant)
  }

  function RestoreAll(es: seq<Pair>): (rs: seq<Pair>)
    ensures |rs| == |es| && forall i :: 0 <= i < |es| ==> rs[i] == Restore(es[i])
  {
    seq(|es|, i requires 0 <= i < |es| => Restore(es[i]))
  }

  /** The last line of a text that ends in a non-space character is not
      empty and ends in that character. */
  lemma {:induction false} LastLineTrimmed(t: string)
    requires t == [] || !IsSpace(t[|t| - 1])
    ensures var ls := SplitLines(t); var last := ls[|ls| - 1];
      last == "" || !IsSpace(last[|last| - 1])
  {
    LastLine(t);
    var ls := SplitLines(t);
    var last := ls[|ls| - 1];
    if t != [] && last != [] {
      assert last[|last| - 1] == t[|t| - 1];
    }
  }

  /** The lines of clean, trimmed notes are clean and hold no line break. */
  lemma {:induction false} NotesLinesClean(p: Pair)
    requires Clean(p.notes)
    ensures forall i :: 0 <= i < |SplitLines(Trim(p.notes))| ==>
      Clean(SplitLines(Trim(p.notes))[i]) && SingleLine(SplitLines(Trim(p.notes))[i])
  {
    CleanTrim(p.notes);
    CleanLines(Trim(p.notes));
  }

  /** Joining the lines of the trimmed notes gives back the trimmed notes. */
  lemma {:induction false} NotesLinesJoin(p: Pair)
    ensures Trim(JoinLines(SplitLines(Trim(p.notes)))) == Trim(p.notes)
  {
    JoinSplitLines(Trim(p.notes));
    TrimIdempotent(p.notes);
  }

  /** The cue line of a safe pair is one line. */
  lemma {:induction false} CueLineSingle(p: Pair)
    requires SafePair(p)
    ensures SingleLine(CueLine(p))
  {
    if p.isImportant {
      StarredSingle(Trim(p.cue));
    }
  }

  /** The star and its space in front of a one-line cue keep it one line. */
  lemma {:induction false} StarredSingle(t: string)
    requires SingleLine(t)
    ensures SingleLine([Star, ' '] + t)
  {
    var s := [Star, ' '] + t;
    forall i | 0 <= i < |s| ensures !IsLineTerminator(s[i]) {
      if i >= 2 { assert s[i] == t[i - 2]; }
    }
  }

  /** Reading the question line back gives the trimmed cue and the flag. */
  lemma {:induction false} CueRoundTrip(p: Pair, raw: string)
    requires SafePair(p)
    ensures MakePair(CueLine(p), raw) == Pair(Trim(p.cue), Trim(StripQuotes(raw)), p.isImportant)
  {
    if p.isImportant {
      StarredCue(Trim(p.cue));
    } else {
      TrimIdempotent(p.cue);
    }
  }

  /** A starred cue line, trimmed, starts with the star, and the cue comes
      back once the star is dropped and the rest trimmed. */
  lemma {:induction false} StarredCue(t: string)
    requires t == [] || (!IsSpace(t[0]) && !IsSpace(t[|t| - 1]))
    ensures var c := [Star, ' '] + t;
      StartsWith(Trim(c), [Star]) && Trim(Trim(c)[1..]) == t
  {
    var c := [Star, ' '] + t;
    TrimOfNonSpaceStart(c);
    assert Trim(c)[0] == Star;
    if t == [] {
      assert c == [Star, ' '];
      assert TrimEnd(c) == [Star];
    } else {
      TrimEndOfNonSpaceEnd(c);
      assert c[1..] == [' '] + t + [];
      TrimExact([' '], t, []);
    }
  }

  /** The question expression at a question line reads the line and the
      quoted lines after it. */
  lemma {:induction false} PairAtLine(c: string, body: string)
    requires SingleLine(c)
    ensures var n := QuoteRun(body);
      PairAt(QuestionMarker + c + "\n" + body)
        == Some(Match(c, body[..n], |QuestionMarker| + |c| + 1 + n))
  {
    var s := QuestionMarker + c + "\n" + body;
    LineParts(QuestionMarker, c, body);
    LineLengthOfLine(c, "\n" + body);
    var q := |QuestionMarker|;
    var cc := q + LineLength(s[q..]);
    assert cc == q + |c|;
    var n := QuoteRun(body);
    assert s[cc + 1..cc + 1 + n] == body[..n];
  }

  /** The pieces of a line `c` between a prefix `a` and the text after it. */
  lemma {:induction false} LineParts(a: string, c: string, body: string)
    ensures var s := a + c + "\n" + body;
      && s[..|a|] == a && s[|a|..] == c + ("\n" + body)
      && s[|a| + |c|] == '\n' && s[|a|..|a| + |c|] == c && s[|a| + |c| + 1..] == body
  {
    var s := a + c + "\n" + body;
    assert s == a + (c + ("\n" + body));
    assert s[|a|..] == c + ("\n" + body);
    assert s[|a|..][|c|..] == "\n" + body;
  }

  /** The question expression at a question line followed by exactly `q`
      of quoted lines. */
  lemma {:induction false} PairAtQuoted(c: string, q: string, t: string)
    requires SingleLine(c)
    requires QuoteRun(q + t) == |q|
    ensures PairAt(QuestionMarker + c + "\n" + (q + t))
      == Some(Match(c, q, |QuestionMarker| + |c| + 1 + |q|))
  {
    PairAtLine(c, q + t);
    assert (q + t)[..|q|] == q;
  }

  /** One step of the `exec` loop at a match. */
  lemma {:induction false} PairsStep(s: string, m: Match)
    requires PairAt(s) == Some(m)
    ensures Pairs(s) == [MakePair(m.cue, m.notes)] + Pairs(s[m.len..])
  {
  }

  /** The quoted notes of a safe pair end where its block does. */
  lemma {:induction false} BlockQuoteRun(p: Pair, r: string)
    requires SafePair(p)
    ensures var q := Quoted(SplitLines(Trim(p.notes)));
      QuoteRun(q + ("\n" + r)) == |q|
  {
    var ls := SplitLines(Trim(p.notes));
    NotesLinesClean(p);
    QuoteRunQuoted(ls, "\n" + r);
    NewlineStop(r);
  }

  /** The question expression at a question line, quoted lines and a new
      line. */
  lemma {:induction false} PairAtBlockText(c: string, q: string, r: string)
    requires SingleLine(c)
    requires QuoteRun(q + ("\n" + r)) == |q|
    ensures PairAt(QuestionMarker + c + "\n" + q + "\n" + r)
      == Some(Match(c, q, |QuestionMarker| + |c| + 1 + |q|))
  {
    var x := QuestionMarker + c + "\n";
    ConcatAssoc(x + q, "\n", r);
    ConcatAssoc(x, q, "\n" + r);
    PairAtQuoted(c, q, "\n" + r);
  }

  /** A question line, quoted lines and a blank line read back as one pair;
      the scan resumes after the blank line. */
  lemma {:induction false} BlockTextRead(c: string, q: string, r: string)
    requires SingleLine(c)
    requires QuoteRun(q + ("\n" + r)) == |q|
    ensures Pairs(QuestionMarker + c + "\n" + q + "\n" + r) == [MakePair(c, q)] + Pairs(r)
  {
    var a := QuestionMarker + c + "\n" + q;
    var s := a + "\n" + r;
    var m := Match(c, q, |QuestionMarker| + |c| + 1 + |q|);
    PairAtBlockText(c, q, r);
    PairsStep(s, m);
    assert s[m.len..] == "\n" + r by {
      ConcatAssoc(a, "\n", r);
      assert |a| == m.len;
    }
    SkipNewline(r);
  }

  /** The pair built from the captures of a block is the restored pair. */
  lemma {:induction false} BlockPair(p: Pair)
    requires SafePair(p)
    ensures MakePair(CueLine(p), Quoted(SplitLines(Trim(p.notes)))) == Restore(p)
  {
    var ls := SplitLines(Trim(p.notes));
    var q := Quoted(ls);
    NotesLinesClean(p);
    NotesLinesJoin(p);
    StripAll(ls);
    TrimNewline(JoinLines(ls));
    CueRoundTrip(p, q);
  }

  /** A whole block reads back as its pair; the scan resumes at the blank
      line after it. */
  lemma {:induction false} BlockRead(p: Pair, r: string)
    requires SafePair(p)
    ensures Pairs(Block(p) + r) == [Restore(p)] + Pairs(r)
  {
    var c := CueLine(p);
    var q := Quoted(SplitLines(Trim(p.notes)));
    CueLineSingle(p);
    BlockQuoteRun(p, r);
    BlockTextRead(c, q, r);
    BlockPair(p);
  }

  lemma {:induction false} NewlineStop(r: string)
    ensures QuoteRun("\n" + r) == 0
  {
    assert ("\n" + r)[0] == '\n';
  }

  /** A blank line between blocks is passed over. */
  lemma {:induction false} SkipNewline(r: string)
    ensures Pairs("\n" + r) == Pairs(r)
  {
    var s := "\n" + r;
    assert s[0] == '\n' && QuestionMarker[0] == '>';
    assert !StartsWith(s, QuestionMarker);
    assert s[1..] == r;
  }

  lemma {:induction false} RestoreAllCons(es: seq<Pair>)
    requires es != []
    ensures RestoreAll(es) == [Restore(es[0])] + RestoreAll(es[1..])
  {
  }

  lemma {:induction false} BlocksCons(es: seq<Pair>, r: string)
    requires es != []
    ensures Blocks(es) + r == Block(es[0]) + (Blocks(es[1..]) + r)
  {
    assert Blocks(es) == Block(es[0]) + Blocks(es[1..]);
    ConcatAssoc(Block(es[0]), Blocks(es[1..]), r);
  }

  /** One more block in front keeps the reading. */
  lemma {:induction false} BlocksStep(es: seq<Pair>, r: string)
    requires es != [] && SafePair(es[0])
    requires Pairs(Blocks(es[1..]) + r) == RestoreAll(es[1..]) + Pairs(r)
    ensures Pairs(Blocks(es) + r) == RestoreAll(es) + Pairs(r)
  {
    var e, tail := es[0], es[1..];
    var rest := Blocks(tail) + r;
    calc {
      Pairs(Blocks(es) + r);
      { BlocksCons(es, r); }
      Pairs(Block(e) + rest);
      { BlockRead(e, rest); }
      [Restore(e)] + Pairs(rest);
      [Restore(e)] + (RestoreAll(tail) + Pairs(r));
      { ConcatAssoc([Restore(e)], RestoreAll(tail), Pairs(r)); }
      ([Restore(e)] + RestoreAll(tail)) + Pairs(r);
      { RestoreAllCons(es); }
      RestoreAll(es) + Pairs(r);
    }
  }

  /** A slice of safe pairs holds only safe pairs. */
  lemma SafeSlice(es: seq<Pair>, a: nat, b: nat)
    requires a <= b <= |es|
    requires forall i :: 0 <= i < |es| ==> SafePair(es[i])
    ensures forall i :: 0 <= i < b - a ==> SafePair(es[a..b][i])
  {
    forall i | 0 <= i < b - a ensures SafePair(es[a..b][i]) {
      assert es[a..b][i] == es[a + i];
    }
  }

  /** Consecutive blocks read back as their restored pairs. */
  lemma {:induction false} BlocksRead(es: seq<Pair>, r: string)
    requires forall i :: 0 <= i < |es| ==> SafePair(es[i])
    ensures Pairs(Blocks(es) + r) == RestoreAll(es) + Pairs(r)
  {
    if es == [] {
      assert Blocks(es) + r == r;
      assert RestoreAll(es) == [];
    } else {
      var tail := es[1..];
      SafeSlice(es, 1, |es|);
      BlocksRead(tail, r);
      BlocksStep(es, r);
    }
  }

  // ---------------------------------------------------------------------------
  // Where the markers are

  lemma {:induction false} NoBangAppend(a: string, b: string)
    requires NoBang(a) && NoBang(b)
    requires a == [] || b == [] || a[|a| - 1] != '[' || b[0] != '!'
    ensures NoBang(a + b)
  {
    var s := a + b;
    forall j | 0 <= j < |s| - 1
      ensures !BangAt(s, j)
    {
      if j + 1 < |a| {
        assert !BangAt(a, j);
        assert s[j] == a[j] && s[j + 1] == a[j + 1];
      } else if j >= |a| {
        assert !BangAt(b, j - |a|);
        assert s[j] == b[j - |a|] && s[j + 1] == b[j + 1 - |a|];
      } else {
        assert s[j] == a[|a| - 1] && s[j + 1] == b[0];
      }
    }
  }

  /** Quoting lines without `[!` adds none. */
  lemma {:induction false} NoBangQuoted(ls: seq<string>)
    requires forall i :: 0 <= i < |ls| ==> NoBang(ls[i])
    ensures NoBang(Quoted(ls))
  {
    if ls != [] {
      var l := ls[0];
      NoBangQuoted(ls[1..]);
      NoBangAppend("> ", l);
      assert ("> " + l + "\n")[|"> " + l + "\n"| - 1] == '\n';
      NoBangAppend("> " + l, "\n");
      NoBangAppend("> " + l + "\n", Quoted(ls[1..]));
    }
  }

  lemma {:induction false} NoBangPartial(ls: seq<string>)
    requires ls != [] && forall i :: 0 <= i < |ls| ==> NoBang(ls[i])
    ensures NoBang(Partial(ls))
  {
    var init := ls[..|ls| - 1];
    var last := ls[|ls| - 1];
    NoBangQuoted(init);
    if last == "" {
      NoBangAppend(Quoted(init), ">");
    } else {
      NoBangAppend(Quoted(init), "> ");
      NoBangAppend(Quoted(init) + "> ", last);
    }
  }

  lemma FreeMarkers()
    ensures Free(QuestionMarker, 'S') && Free(SummaryHeader, 'Q')
    ensures NoBang(DefaultTitle) && NoBang("# ")
  {
  }

  /** A block holds a question marker but no summary marker. */
  lemma {:induction false} FreeBlock(p: Pair)
    requires SafePair(p)
    ensures Free(Block(p), 'S')
  {
    var c := CueLine(p);
    var q := Quoted(SplitLines(Trim(p.notes)));
    var t := c + "\n" + q + "\n";
    BlockBodyNoBang(p);
    NoBangFree(t, 'S');
    FreeMarkers();
    FreeAppend(QuestionMarker, t, 'S');
    ConcatAssoc(QuestionMarker, c + "\n" + q, "\n");
    ConcatAssoc(QuestionMarker, c + "\n", q);
    ConcatAssoc(QuestionMarker, c, "\n");
  }

  /** The quoted lines of a safe pair's notes hold no `[!`. */
  lemma {:induction false} NotesNoBang(p: Pair)
    requires SafePair(p)
    ensures NoBang(Quoted(SplitLines(Trim(p.notes))))
  {
    var ls := SplitLines(Trim(p.notes));
    NotesLinesClean(p);
    forall i | 0 <= i < |ls| ensures NoBang(ls[i]) {
      assert Clean(ls[i]);
    }
    NoBangQuoted(ls);
  }

  /** A block after its marker holds no `[!`. */
  lemma {:induction false} BlockBodyNoBang(p: Pair)
    requires SafePair(p)
    ensures NoBang(CueLine(p) + "\n" + Quoted(SplitLines(Trim(p.notes))) + "\n")
  {
    var c := CueLine(p);
    var q := Quoted(SplitLines(Trim(p.notes)));
    CueNoBang(p);
    NotesNoBang(p);
    NoBangAppend(c, "\n");
    NoBangAppend(c + "\n", q);
    NoBangAppend(c + "\n" + q, "\n");
  }

  lemma {:induction false} CueNoBang(p: Pair)
    requires SafePair(p)
    ensures NoBang(CueLine(p))
  {
    NoBangTrim(p.cue);
    if p.isImportant {
      NoBangAppend([Star, ' '], Trim(p.cue));
    }
  }

  lemma {:induction false} FreeBlocks(es: seq<Pair>)
    requires forall i :: 0 <= i < |es| ==> SafePair(es[i])
    ensures Free(Blocks(es), 'S')
  {
    if es != [] {
      var b := Block(es[0]);
      FreeBlock(es[0]);
      FreeBlocks(es[1..]);
      assert b[|b| - 1] == '\n';
      FreeAppend(b, Blocks(es[1..]), 'S');
    }
  }

  // ---------------------------------------------------------------------------
  // The last block and the summary block after the final trim

  /** The quoted-lines expression on a trimmed quoted block, at the end of the
      document or before a blank line: stripping the capture gives the lines
      back up to white space at the ends, and what follows holds no
      question marker. */
  lemma {:induction false} PartialRead(ls: seq<string>, r: string)
    requires ls != [] && forall i :: 0 <= i < |ls| ==> SingleLine(ls[i])
    requires r == [] || (|r| >= 2 && r[0] == '\n' && r[1] == '\n')
    requires Free(r, 'Q')
    ensures var body := Partial(ls) + r; var n := QuoteRun(body);
      Trim(StripQuotes(body[..n])) == Trim(JoinLines(ls)) && Free(body[n..], 'Q')
  {
    var init := ls[..|ls| - 1];
    var last := ls[|ls| - 1];
    assert ls == init + [last];
    var body := Partial(ls) + r;
    if last == "" {
      assert body == Quoted(init) + ">" + r;
      PartialEmptyLast(init, r);
      FreeAppend(">", r, 'Q');
    } else if r == [] {
      assert body == Quoted(init) + "> " + last;
      PartialAtEnd(init, last);
      assert body[..|body|] == body;
    } else {
      assert body == Quoted(init) + "> " + last + r;
      PartialBeforeBlank(init, last, r);
      FreePrefix(r, 1, 'Q');
    }
  }

  /** A question line followed by text whose quoted lines end the pairs. */
  lemma {:induction false} LastPairText(c: string, body: string)
    requires SingleLine(c)
    requires Pairs(body[QuoteRun(body)..]) == []
    ensures Pairs(QuestionMarker + c + "\n" + body) == [MakePair(c, body[..QuoteRun(body)])]
  {
    var n := QuoteRun(body);
    var pre := QuestionMarker + c + "\n";
    var m := Match(c, body[..n], |QuestionMarker| + |c| + 1 + n);
    PairAtLine(c, body);
    PairsOne(pre, body, m, n);
  }

  /** A match over a prefix and part of the text after it, followed by
      nothing the scan reads, gives exactly one pair. */
  lemma {:induction false} PairsOne(pre: string, body: string, m: Match, n: nat)
    requires n <= |body| && m.len == |pre| + n
    requires PairAt(pre + body) == Some(m) && Pairs(body[n..]) == []
    ensures Pairs(pre + body) == [MakePair(m.cue, m.notes)]
  {
    DropPrefix(pre, body, n);
    PairsStep(pre + body, m);
  }

  lemma DropPrefix<T>(pre: seq<T>, body: seq<T>, n: nat)
    requires n <= |body|
    ensures (pre + body)[|pre| + n..] == body[n..]
  {
  }

  /** The last block, trimmed by the document's final trim, still reads back
      as its pair, and nothing after it is read as a pair. */
  lemma {:induction false} LastBlockRead(p: Pair, r: string)
    requires SafePair(p)
    requires r == [] || (|r| >= 2 && r[0] == '\n' && r[1] == '\n')
    requires Free(r, 'Q')
    ensures Pairs(QuestionMarker + CueLine(p) + "\n" + Partial(SplitLines(Trim(p.notes))) + r) == [Restore(p)]
  {
    var c := CueLine(p);
    var ls := SplitLines(Trim(p.notes));
    var body := Partial(ls) + r;
    var n := QuoteRun(body);
    assert Trim(StripQuotes(body[..n])) == Trim(p.notes) && Free(body[n..], 'Q') by {
      NotesLinesClean(p);
      NotesLinesJoin(p);
      PartialRead(ls, r);
    }
    assert Pairs(body[n..]) == [] by {
      SkipFree(body[n..], []);
      assert body[n..] + [] == body[n..];
    }
    assert SingleLine(c) by { CueLineSingle(p); }
    assert Pairs(QuestionMarker + c + "\n" + body) == [MakePair(c, body[..n])] by {
      LastPairText(c, body);
    }
    assert MakePair(c, body[..n]) == Restore(p) by {
      CueRoundTrip(p, body[..n]);
    }
    ConcatAssoc(QuestionMarker + c + "\n", Partial(ls), r);
  }

  /** The trimmed end of a block: the quoted notes lose their final newlines. */
  lemma {:induction false} TrimBlock(p: Pair)
    requires SafePair(p)
    ensures TrimEnd(Block(p)) == QuestionMarker + CueLine(p) + "\n" + Partial(SplitLines(Trim(p.notes)))
  {
    var ls := SplitLines(Trim(p.notes));
    var x := QuestionMarker + CueLine(p) + "\n";
    var q := Quoted(ls);
    assert TrimEnd(q + "\n") == Partial(ls) by {
      LastLineTrimmed(Trim(p.notes));
      TrimEndQuoted(ls);
    }
    assert TrimEnd(q + "\n") != [];
    ConcatAssoc(x, q, "\n");
    TrimEndAppend(x, q + "\n");
  }

  /** The notes part of the document: every block but the last in full, then
      the last one as the final trim leaves it. */
  lemma {:induction false} TrimBlocks(es: seq<Pair>)
    requires es != [] && forall i :: 0 <= i < |es| ==> SafePair(es[i])
    ensures var last := es[|es| - 1];
      Trim(Blocks(es)) == Blocks(es[..|es| - 1]) + (QuestionMarker + CueLine(last) + "\n" + Partial(SplitLines(Trim(last.notes))))
  {
    var init, last := es[..|es| - 1], es[|es| - 1];
    assert es == init + [last];
    BlocksAppend(init, last);
    var b := Block(last);
    assert Blocks(es) == Blocks(init) + b;
    assert Blocks(es)[0] == '>' by {
      assert Blocks(es) == Block(es[0]) + Blocks(es[1..]);
    }
    TrimOfNonSpaceStart(Blocks(es));
    TrimBlock(last);
    assert TrimEnd(b) != [];
    TrimEndAppend(Blocks(init), b);
  }

  // ---------------------------------------------------------------------------
  // The document's layout

  /** The three parts of the document after the final trim: all of them when
      there is a summary, heading and notes when only the summary is empty,
      the heading alone when both are. */
  lemma {:induction false} Layout(h: string, tn: string, ts: string)
    requires StartsWith(h, "# ")
    requires tn == [] || !IsSpace(tn[|tn| - 1])
    requires ts == [] || !IsSpace(ts[|ts| - 1])
    ensures ts != [] ==> Trim(h + "\n\n" + tn + "\n\n" + ts) == h + "\n\n" + tn + "\n\n" + ts
    ensures ts == [] && tn != [] ==> Trim(h + "\n\n" + tn + "\n\n" + ts) == h + "\n\n" + tn
    ensures ts == [] && tn == [] ==> Trim(h + "\n\n" + tn + "\n\n" + ts) == TrimEnd(h)
  {
    var x := h + "\n\n" + tn + "\n\n" + ts;
    assert x[0] == '#';
    TrimOfNonSpaceStart(x);
    if ts != [] {
      assert x[|x| - 1] == ts[|ts| - 1];
      TrimEndOfNonSpaceEnd(x);
    } else if tn != [] {
      LayoutNoSummary(h, tn, x);
    } else {
      LayoutTopicOnly(h, x);
    }
  }

  lemma {:induction false} LayoutNoSummary(h: string, tn: string, x: string)
    requires tn != [] && !IsSpace(tn[|tn| - 1])
    requires x == h + "\n\n" + tn + "\n\n" + []
    ensures TrimEnd(x) == h + "\n\n" + tn
  {
    var y := h + "\n\n" + tn;
    assert x == y + "\n\n";
    assert AllSpace("\n\n");
    TrimEndOfSpaces(y, "\n\n");
    assert y[|y| - 1] == tn[|tn| - 1];
    TrimEndOfNonSpaceEnd(y);
  }

  lemma {:induction false} LayoutTopicOnly(h: string, x: string)
    requires x == h + "\n\n" + [] + "\n\n" + []
    ensures TrimEnd(x) == TrimEnd(h)
  {
    assert x == h + "\n\n\n\n";
    assert AllSpace("\n\n\n\n");
    TrimEndOfSpaces(h, "\n\n\n\n");
  }

  lemma {:induction false} TrimOfTrimEnd(t: string)
    ensures Trim(TrimEnd(t)) == Trim(t)
  {
    TrimEndDrops(t);
    var k := |TrimEnd(t)|;
    assert t == TrimEnd(t) + t[k..];
    TrimAppendSpaces(TrimEnd(t), t[k..]);
  }

  /** The heading line followed by more lines gives the trimmed title. */
  lemma {:induction false} TopicAfter(title: string, rest: string)
    requires SingleLine(title)
    requires rest == [] || rest[0] == '\n'
    ensures ParsedTopic("# " + title + rest) == Trim(title)
  {
    var md := "# " + title + rest;
    assert md[..2] == "# ";
    assert md[2..] == title + rest;
    LineLengthOfLine(title, rest);
    assert md[2..2 + |title|] == title;
  }

  /** The heading line alone, trimmed, gives the trimmed title too. */
  lemma {:induction false} TopicAlone(title: string)
    requires SingleLine(title)
    ensures ParsedTopic(TrimEnd("# " + title)) == Trim(title)
  {
    var t := TrimEnd(title);
    TrimEndDrops(title);
    if t == [] {
      assert AllSpace(title) by {
        assert title[|t|..] == title;
      }
      TrimEndOfSpaces("# ", title);
      assert TrimEnd("# ") == "#" by {
        assert "# "[..1] == "#";
      }
      TrimEmpty(title);
    } else {
      TrimEndAppend("# ", title);
      assert forall i :: 0 <= i < |t| ==> t[i] == title[i];
      assert SingleLine(t);
      TopicAfter(t, []);
      assert "# " + t + [] == "# " + t;
      TrimOfTrimEnd(title);
    }
  }

  lemma {:induction false} RestoreAllSnoc(es: seq<Pair>)
    requires es != []
    ensures RestoreAll(es) == RestoreAll(es[..|es| - 1]) + [Restore(es[|es| - 1])]
  {
  }

  /** The heading line quotes no marker. */
  lemma {:induction false} HeadingNoBang(topic: string)
    requires NoBang(topic)
    ensures NoBang(Heading(topic))
  {
    FreeMarkers();
    if topic == "" {
      NoBangAppend("# ", DefaultTitle);
    } else {
      NoBangAppend("# ", topic);
    }
  }

  /** Marker-free heading and notes stay marker-free with the blank lines. */
  lemma {:induction false} FreeLayout(h: string, tn: string, c: char)
    requires Free(h, c) && Free(tn, c) && c != '\n'
    ensures Free(h + "\n\n" + tn + "\n\n", c)
  {
    assert Free("\n\n", c);
    FreeAppend(h, "\n\n", c);
    FreeAppend(h + "\n\n", tn, c);
    FreeAppend(h + "\n\n" + tn, "\n\n", c);
  }

  lemma LayoutText(h: string, a: string, b: string, r: string)
    ensures h + "\n\n" + (a + b) + r == h + ("\n" + ("\n" + (a + (b + r))))
  {
  }

  /** The heading and the blank line after it hold no pair. */
  lemma {:induction false} SkipHeading(h: string, tail: string)
    requires Free(h, 'Q')
    ensures Pairs(h + ("\n" + ("\n" + tail))) == Pairs(tail)
  {
    SkipFree(h, "\n" + ("\n" + tail));
    SkipNewline("\n" + tail);
    SkipNewline(tail);
  }

  /** The pairs read from a document whose notes part holds blocks: the scan
      passes over the heading and the blank lines, reads every block, and
      finds nothing after the last one. */
  lemma {:induction false} PairsOfLayout(h: string, es: seq<Pair>, r: string)
    requires Free(h, 'Q')
    requires es != [] && forall i :: 0 <= i < |es| ==> SafePair(es[i])
    requires r == [] || (|r| >= 2 && r[0] == '\n' && r[1] == '\n')
    requires Free(r, 'Q')
    ensures Pairs(h + "\n\n" + Trim(Blocks(es)) + r) == RestoreAll(es)
  {
    var init, last := es[..|es| - 1], es[|es| - 1];
    var lastBlock := QuestionMarker + CueLine(last) + "\n" + Partial(SplitLines(Trim(last.notes)));
    assert Trim(Blocks(es)) == Blocks(init) + lastBlock by { TrimBlocks(es); }
    var tail := Blocks(init) + (lastBlock + r);
    SafeSlice(es, 0, |es| - 1);
    calc {
      Pairs(h + "\n\n" + Trim(Blocks(es)) + r);
      { LayoutText(h, Blocks(init), lastBlock, r); }
      Pairs(h + ("\n" + ("\n" + tail)));
      { SkipHeading(h, tail); }
      Pairs(tail);
      { BlocksRead(init, lastBlock + r); }
      RestoreAll(init) + Pairs(lastBlock + r);
      { LastBlockRead(last, r); }
      RestoreAll(init) + [Restore(last)];
      { RestoreAllSnoc(es); }
      RestoreAll(es);
    }
  }

  // ---------------------------------------------------------------------------
  // The summary block

  /** The summary's lines as written: trimmed, one line each, marker-free;
      the summary part of the document is the header and those lines quoted,
      the final trim cutting into the last one. */
  lemma {:induction false} SummaryBlock(summary: string)
    requires Clean(summary)
    ensures var tl := TrimmedLines(SplitLines(summary));
      && (forall i :: 0 <= i < |tl| ==> SingleLine(tl[i]) && NoBang(tl[i]))
      && (summary != "" ==> Trim(SummaryContent(summary)) == SummaryHeader + Partial(tl))
  {
    var ls := SplitLines(summary);
    var tl := TrimmedLines(ls);
    assert forall i :: 0 <= i < |tl| ==> SingleLine(tl[i]) && NoBang(tl[i]) by {
      CleanLines(summary);
      forall i | 0 <= i < |tl| ensures SingleLine(tl[i]) && NoBang(tl[i]) {
        assert Clean(ls[i]) && SingleLine(ls[i]);
        CleanTrim(ls[i]);
        SingleLineTrim(ls[i]);
      }
    }
    if summary != "" {
      TrimmedSummary(summary);
      TrimEndQuoted(tl);
    }
  }

  /** The summary capture after marker-free text is the summary header's
      quoted lines, with the quotes gone. */
  lemma {:induction false} SummaryRead(pre: string, tl: seq<string>)
    requires Free(pre, 'S')
    requires tl != [] && forall i :: 0 <= i < |tl| ==> SingleLine(tl[i])
    ensures ParsedSummary(pre + (SummaryHeader + Partial(tl))) == Trim(JoinLines(tl))
  {
    var ts := SummaryHeader + Partial(tl);
    var md := pre + ts;
    assert StartsWith(ts, SummaryHeader);
    HeaderAt(pre, ts);
    var body := md[|pre| + |SummaryHeader|..];
    assert body == Partial(tl);
    assert body + [] == body;
    PartialRead(tl, []);
  }

  /** The empty summary reads back as the empty string. */
  lemma EmptySummary()
    ensures Trim(JoinLines(TrimmedLines(SplitLines("")))) == ""
  {
    assert SplitLines("") == [""];
    assert TrimmedLines([""]) == [""];
  }

  lemma {:induction false} FreeTrim(s: string, c: char)
    requires Free(s, c)
    ensures Free(Trim(s), c)
  {
    TrimSlice(s);
    var i := |s| - |TrimStart(s)|;
    var j := i + |Trim(s)|;
    FreePrefix(s, j, c);
    FreePrefix(s[..j], i, c);
    assert s[..j][i..] == s[i..j];
  }

  /** The topic read back from any assembled document: the trimmed title. */
  lemma {:induction false} TopicOfLayout(title: string, tn: string, ts: string)
    requires SingleLine(title)
    requires tn == [] || !IsSpace(tn[|tn| - 1])
    requires ts == [] || !IsSpace(ts[|ts| - 1])
    ensures ParsedTopic(Trim("# " + title + "\n\n" + tn + "\n\n" + ts)) == Trim(title)
  {
    var h := "# " + title;
    Layout(h, tn, ts);
    if ts != [] {
      assert h + "\n\n" + tn + "\n\n" + ts == "# " + title + ("\n\n" + tn + "\n\n" + ts);
      TopicAfter(title, "\n\n" + tn + "\n\n" + ts);
    } else if tn != [] {
      assert h + "\n\n" + tn == "# " + title + ("\n\n" + tn);
      TopicAfter(title, "\n\n" + tn);
    } else {
      TopicAlone(title);
    }
  }

  /** No pairs are read back from an assembled document without blocks. */
  lemma {:induction false} NoPairsOfDoc(h: string, ts: string)
    requires StartsWith(h, "# ") && Free(h, 'Q')
    requires ts == [] || !IsSpace(ts[|ts| - 1])
    requires Free(ts, 'Q')
    ensures Pairs(Trim(h + "\n\n" + "" + "\n\n" + ts)) == []
  {
    var md := Trim(h + "\n\n" + "" + "\n\n" + ts);
    Layout(h, "", ts);
    assert Free(md, 'Q') by {
      if ts != [] {
        FreeLayout(h, "", 'Q');
        FreeAppend(h + "\n\n" + "" + "\n\n", ts, 'Q');
      } else {
        TrimEndDrops(h);
        FreePrefix(h, |TrimEnd(h)|, 'Q');
      }
    }
    SkipFree(md, []);
    assert md + [] == md;
  }

  /** The pairs read back from an assembled document with blocks. */
  lemma {:induction false} BlockPairsOfDoc(h: string, es: seq<Pair>, ts: string)
    requires StartsWith(h, "# ") && Free(h, 'Q')
    requires es != [] && forall i :: 0 <= i < |es| ==> SafePair(es[i])
    requires ts == [] || !IsSpace(ts[|ts| - 1])
    requires Free(ts, 'Q')
    ensures Pairs(Trim(h + "\n\n" + Trim(Blocks(es)) + "\n\n" + ts)) == RestoreAll(es)
  {
    var tn := Trim(Blocks(es));
    assert tn != [] by { TrimBlocks(es); }
    var md := Trim(h + "\n\n" + tn + "\n\n" + ts);
    if ts != [] {
      var r := "\n\n" + ts;
      assert Free(r, 'Q') by {
        assert Free("\n\n", 'Q');
        FreeAppend("\n\n", ts, 'Q');
      }
      Layout(h, tn, ts);
      ConcatAssoc(h + "\n\n" + tn, "\n\n", ts);
      PairsOfLayout(h, es, r);
    } else {
      Layout(h, tn, ts);
      AppendNil(h + "\n\n" + tn);
      PairsOfLayout(h, es, []);
    }
  }

  /** The pairs read back from any assembled document whose heading and
      summary part hold no question marker: the restored pairs of the
      blocks. */
  lemma {:induction false} PairsOfDoc(h: string, es: seq<Pair>, ts: string)
    requires StartsWith(h, "# ") && Free(h, 'Q')
    requires forall i :: 0 <= i < |es| ==> SafePair(es[i])
    requires ts == [] || !IsSpace(ts[|ts| - 1])
    requires Free(ts, 'Q')
    ensures Pairs(Trim(h + "\n\n" + Trim(Blocks(es)) + "\n\n" + ts)) == RestoreAll(es)
  {
    if es == [] {
      assert Trim(Blocks(es)) == "";
      NoPairsOfDoc(h, ts);
    } else {
      BlockPairsOfDoc(h, es, ts);
    }
  }

  /** The summary read back from any assembled document whose heading and
      notes part hold no summary marker. */
  lemma {:induction false} SummaryOfDoc(h: string, tn: string, summary: string)
    requires StartsWith(h, "# ") && Free(h, 'S') && Free(tn, 'S')
    requires tn == [] || !IsSpace(tn[|tn| - 1])
    requires Clean(summary)
    ensures ParsedSummary(Trim(h + "\n\n" + tn + "\n\n" + Trim(SummaryContent(summary))))
      == Trim(JoinLines(TrimmedLines(SplitLines(summary))))
  {
    var tl := TrimmedLines(SplitLines(summary));
    var ts := Trim(SummaryContent(summary));
    var pre := h + "\n\n" + tn + "\n\n";
    var md := Trim(h + "\n\n" + tn + "\n\n" + ts);
    Layout(h, tn, ts);
    FreeLayout(h, tn, 'S');
    SummaryBlock(summary);
    if summary != "" {
      assert md == pre + (SummaryHeader + Partial(tl));
      SummaryRead(pre, tl);
    } else {
      assert ts == "";
      assert md == pre[..|md|] by {
        if tn != [] {
          assert pre == md + "\n\n";
        } else {
          TrimEndDrops(h);
        }
      }
      FreePrefix(pre, |md|, 'S');
      NoHeader(md);
      EmptySummary();
    }
  }

  // ---------------------------------------------------------------------------
  // The round trip

  /** The editor states whose document reads back as `ReadBack` says: a
      one-line topic and fields without `[!`, notes and summary broken only
      by `\n`, and a star at the start of a cue only on important pairs. */
  predicate SafeDoc(d: Doc) {
    && SingleLine(d.topic) && NoBang(d.topic)
    && Clean(d.summary)
    && forall i :: 0 <= i < |d.pairs| ==> SafePair(d.pairs[i])
  }

  /** The state `loadFromMarkdown` recovers from `generateMarkdown`'s output:
      the trimmed title (`My Notes` for an empty topic), the summary with
      each line trimmed and the whole trimmed, and the written pairs with
      trimmed text (one empty pair when none was written). */
  function ReadBack(d: Doc): Doc {
    var es := EmittedPairs(d.pairs);
    Doc(Trim(if d.topic == "" then DefaultTitle else d.topic),
        Trim(JoinLines(TrimmedLines(SplitLines(d.summary)))),
        if es == [] then [EmptyPair] else RestoreAll(es))
  }

  lemma {:induction false} EmittedSafe(ps: seq<Pair>)
    requires forall i :: 0 <= i < |ps| ==> SafePair(ps[i])
    ensures forall k :: 0 <= k < |EmittedPairs(ps)| ==> SafePair(EmittedPairs(ps)[k])
  {
    if ps != [] {
      var init, last := ps[..|ps| - 1], ps[|ps| - 1];
      SafeSlice(ps, 0, |ps| - 1);
      EmittedSafe(init);
      var a := EmittedPairs(init);
      var b: seq<Pair> := if Emitted(last) then [last] else [];
      assert EmittedPairs(ps) == a + b;
      forall k | 0 <= k < |a + b| ensures SafePair((a + b)[k]) {
        if k < |a| {
          assert (a + b)[k] == a[k];
        } else {
          assert (a + b)[k] == last;
        }
      }
    }
  }

  /** The topic survives the round trip, trimmed; it only has to be one line. */
  lemma {:induction false} TopicRoundTrip(d: Doc)
    requires SingleLine(d.topic)
    ensures ParsedTopic(Markdown(d)) == ReadBack(d).topic
  {
    var title := if d.topic == "" then DefaultTitle else d.topic;
    assert Heading(d.topic) == "# " + title;
    TopicOfLayout(title, Trim(NotesContent(d.pairs)), Trim(SummaryContent(d.summary)));
  }

  /** The written pairs survive the round trip, in order, with their flags. */
  lemma {:induction false} PairsRoundTrip(d: Doc)
    requires SafeDoc(d)
    ensures Pairs(Markdown(d)) == RestoreAll(EmittedPairs(d.pairs))
  {
    var h := Heading(d.topic);
    var es := EmittedPairs(d.pairs);
    var ts := Trim(SummaryContent(d.summary));
    assert StartsWith(h, "# ") && Free(h, 'Q') by {
      HeadingNoBang(d.topic);
      NoBangFree(h, 'Q');
    }
    SummaryFree(d);
    assert forall k :: 0 <= k < |es| ==> SafePair(es[k]) by { EmittedSafe(d.pairs); }
    assert Markdown(d) == Trim(h + "\n\n" + Trim(Blocks(es)) + "\n\n" + ts);
    PairsOfDoc(h, es, ts);
  }

  /** The trimmed summary block holds no question marker. */
  lemma {:induction false} SummaryFree(d: Doc)
    requires SafeDoc(d)
    ensures Free(Trim(SummaryContent(d.summary)), 'Q')
  {
    var ts := Trim(SummaryContent(d.summary));
    SummaryBlock(d.summary);
    var tl := TrimmedLines(SplitLines(d.summary));
    if d.summary != "" {
      assert forall i :: 0 <= i < |tl| ==> NoBang(tl[i]);
      NoBangPartial(tl);
      NoBangFree(Partial(tl), 'Q');
      FreeMarkers();
      FreeAppend(SummaryHeader, Partial(tl), 'Q');
    } else {
      assert ts == "";
    }
  }

  /** The summary survives the round trip with every line trimmed. */
  lemma {:induction false} SummaryRoundTrip(d: Doc)
    requires SafeDoc(d)
    ensures ParsedSummary(Markdown(d)) == ReadBack(d).summary
  {
    var h := Heading(d.topic);
    var tn := Trim(NotesContent(d.pairs));
    assert StartsWith(h, "# ") && Free(h, 'S') by {
      HeadingNoBang(d.topic);
      NoBangFree(h, 'S');
    }
    assert Free(tn, 'S') by {
      var es := EmittedPairs(d.pairs);
      assert forall k :: 0 <= k < |es| ==> SafePair(es[k]) by { EmittedSafe(d.pairs); }
      FreeBlocks(es);
      FreeTrim(Blocks(es), 'S');
    }
    var ts := Trim(SummaryContent(d.summary));
    assert Markdown(d) == Trim(h + "\n\n" + tn + "\n\n" + ts);
    assert ParsedSummary(Trim(h + "\n\n" + tn + "\n\n" + ts)) == ReadBack(d).summary by {
      SummaryOfDoc(h, tn, d.summary);
    }
  }

  /** The document holds a summary block exactly when the summary is
      non-empty, as long as the topic and the pairs hold no `[!`. */
  lemma {:induction false} SummaryHeaderIff(d: Doc)
    requires NoBang(d.topic)
    requires forall i :: 0 <= i < |d.pairs| ==> SafePair(d.pairs[i])
    ensures Contains(Markdown(d), SummaryHeader) <==> d.summary != ""
  {
    if d.summary != "" {
      SummaryHeaderPresent(d);
    } else {
      SummaryHeaderAbsent(d);
    }
  }

  lemma {:induction false} SummaryHeaderPresent(d: Doc)
    requires d.summary != ""
    ensures Contains(Markdown(d), SummaryHeader)
  {
    var md := Markdown(d);
    SummaryAtEnd(d);
    var ts := Trim(SummaryContent(d.summary));
    var k := |md| - |ts|;
    assert md[k..][..|SummaryHeader|] == ts[..|SummaryHeader|];
    ContainsAt(md, SummaryHeader, k);
  }

  lemma {:induction false} SummaryHeaderAbsent(d: Doc)
    requires d.summary == "" && NoBang(d.topic)
    requires forall i :: 0 <= i < |d.pairs| ==> SafePair(d.pairs[i])
    ensures !Contains(Markdown(d), SummaryHeader)
  {
    var h := Heading(d.topic);
    var tn := Trim(NotesContent(d.pairs));
    assert Free(h, 'S') by {
      HeadingNoBang(d.topic);
      NoBangFree(h, 'S');
    }
    NotesPartFree(d.pairs);
    NoSummaryBlock(d);
    var x := h + "\n\n" + tn;
    assert Free(x, 'S') by {
      assert Free("\n\n", 'S');
      FreeAppend(h, "\n\n", 'S');
      FreeAppend(h + "\n\n", tn, 'S');
    }
    FreeTrim(x, 'S');
    NoHeader(Trim(x));
  }

  /** The trimmed notes part of safe pairs holds no summary marker. */
  lemma {:induction false} NotesPartFree(ps: seq<Pair>)
    requires forall i :: 0 <= i < |ps| ==> SafePair(ps[i])
    ensures Free(Trim(NotesContent(ps)), 'S')
  {
    var es := EmittedPairs(ps);
    assert forall k :: 0 <= k < |es| ==> SafePair(es[k]) by { EmittedSafe(ps); }
    FreeBlocks(es);
    FreeTrim(Blocks(es), 'S');
  }

  /** The round trip: reading back the document written for a safe state
      gives `ReadBack` of that state. */
  lemma {:induction false} RoundTrip(d: Doc)
    requires SafeDoc(d)
    ensures ParseMarkdown(Markdown(d)) == ReadBack(d)
  {
    var md := Markdown(d);
    var es := EmittedPairs(d.pairs);
    TopicRoundTrip(d);
    SummaryRoundTrip(d);
    PairsRoundTrip(d);
    assert Pairs(md) == [] <==> es == [];
  }

  /** A state already in the form the loader produces: a trimmed topic, a
      trimmed summary of trimmed lines, and at least one pair, every pair
      written and holding trimmed text. */
  predicate Settled(d: Doc) {
    && d.topic != "" && Trim(d.topic) == d.topic
    && Trim(d.summary) == d.summary
    && (var ls := SplitLines(d.summary); forall i :: 0 <= i < |ls| ==> Trim(ls[i]) == ls[i])
    && d.pairs != []
    && forall i :: 0 <= i < |d.pairs| ==> Emitted(d.pairs[i]) && Restore(d.pairs[i]) == d.pairs[i]
  }

  lemma {:induction false} SettledSummary(summary: string)
    requires Trim(summary) == summary
    requires var ls := SplitLines(summary); forall i :: 0 <= i < |ls| ==> Trim(ls[i]) == ls[i]
    ensures Trim(JoinLines(TrimmedLines(SplitLines(summary)))) == summary
  {
    var ls := SplitLines(summary);
    var tl := TrimmedLines(ls);
    forall i | 0 <= i < |ls| ensures tl[i] == ls[i] {
      assert tl[i] == Trim(ls[i]);
      assert Trim(SplitLines(summary)[i]) == SplitLines(summary)[i];
    }
    assert tl == ls;
    JoinSplitLines(summary);
  }

  lemma {:induction false} SettledPairs(ps: seq<Pair>)
    requires ps != []
    requires forall i :: 0 <= i < |ps| ==> Emitted(ps[i]) && Restore(ps[i]) == ps[i]
    ensures EmittedPairs(ps) == ps && RestoreAll(ps) == ps
  {
    EmittedPairsAll(ps);
  }

  /** A settled safe state reads back exactly: saving and loading it changes
      nothing. */
  lemma {:induction false} RoundTripSettled(d: Doc)
    requires SafeDoc(d) && Settled(d)
    ensures ParseMarkdown(Markdown(d)) == d
  {
    assert ParseMarkdown(Markdown(d)) == ReadBack(d) by { RoundTrip(d); }
    SettledSummary(d.summary);
    SettledPairs(d.pairs);
    var r := ReadBack(d);
    assert r.topic == d.topic && r.summary == d.summary && r.pairs == d.pairs;
  }
}
