/** The "bulk add" dialog: pasted text cut into blocks at blank lines, each
    block cut into a cue and notes at a dashed separator line. Two variants
    exist: the tolerant one of `editor.js` (line endings normalised, any
    separator line of three or more dashes, a fallback on a bare `---`) and
    the strict one of `script.js` (only `\n---\n`, no fallback). */
module Bulk {
  import opened Wrappers
  import opened Text
  import opened Notes

  // ---------------------------------------------------------------------------
  // Runs of characters

  /** Length of the leading run of white space (`\s*` taken greedily). */
  function SpaceRun(s: string): (n: nat)
    ensures n <= |s| && AllSpace(s[..n]) && (n < |s| ==> !IsSpace(s[n]))
  {
    if s != [] && IsSpace(s[0]) then
      var n := 1 + SpaceRun(s[1..]);
      assert s[..n] == [s[0]] + s[1..][..n - 1];
      n
    else 0
  }

  predicate AllDash(s: string) {
    forall i :: 0 <= i < |s| ==> s[i] == '-'
  }

  /** Length of the leading run of `-` (`-{3,}` taken greedily). */
  function DashRun(s: string): (n: nat)
    ensures n <= |s| && AllDash(s[..n]) && (n < |s| ==> s[n] != '-')
  {
    if s != [] && s[0] == '-' then
      var n := 1 + DashRun(s[1..]);
      assert s[..n] == [s[0]] + s[1..][..n - 1];
      n
    else 0
  }

  /** Index of the last `\n`, if any. */
  function LastNewline(s: string): (r: Option<nat>)
    ensures r.Some? ==> r.value < |s| && s[r.value] == '\n' && forall k :: r.value < k < |s| ==> s[k] != '\n'
    ensures r.None? ==> forall k :: 0 <= k < |s| ==> s[k] != '\n'
  {
    if s == [] then None
    else if s[|s| - 1] == '\n' then Some(|s| - 1)
    else LastNewline(s[..|s| - 1])
  }

  /** A prefix of length `m` that `\s*\n` matches. */
  predicate SpacesNewline(s: string, m: nat) {
    1 <= m <= |s| && AllSpace(s[..m]) && s[m - 1] == '\n'
  }

  /** `\s*\n` at the start of `s`: the greedy `\s*` backs off to the last
      newline of the white-space run, so the match is the longest one. */
  function SpacesToNewline(s: string): (r: Option<nat>)
    ensures r.Some? ==> SpacesNewline(s, r.value)
    ensures r.Some? ==> forall m :: r.value < m <= |s| ==> !SpacesNewline(s, m)
    ensures r.None? ==> forall m :: 0 <= m <= |s| ==> !SpacesNewline(s, m)
  {
    var k := SpaceRun(s);
    match LastNewline(s[..k])
    case Some(j) =>
      assert s[..j + 1] == s[..k][..j + 1];
      LongerStops(s, k, j);
      Some(j + 1)
    case None =>
      NoneStops(s, k);
      None
  }

  lemma {:induction false} LongerStops(s: string, k: nat, j: nat)
    requires k <= |s| && (k < |s| ==> !IsSpace(s[k]))
    requires j < k && forall i :: j < i < k ==> s[..k][i] != '\n'
    ensures forall m :: j + 1 < m <= |s| ==> !SpacesNewline(s, m)
  {
    forall m | j + 1 < m <= |s|
      ensures !SpacesNewline(s, m)
    {
      if m - 1 >= k {
        assert s[..m][k] == s[k];
      } else {
        assert s[..k][m - 1] == s[m - 1];
      }
    }
  }

  lemma {:induction false} NoneStops(s: string, k: nat)
    requires k <= |s| && (k < |s| ==> !IsSpace(s[k]))
    requires forall i :: 0 <= i < k ==> s[..k][i] != '\n'
    ensures forall m :: 0 <= m <= |s| ==> !SpacesNewline(s, m)
  {
    forall m | 0 <= m <= |s|
      ensures !SpacesNewline(s, m)
    {
      if m == 0 {
      } else if m - 1 >= k {
        assert s[..m][k] == s[k];
      } else {
        assert s[..k][m - 1] == s[m - 1];
      }
    }
  }

  // ---------------------------------------------------------------------------
  // The separators

  /** The four separators `split` is called with. */
  datatype Separator =
    | BlankLine       // /\n\s*\n/
    | DashLine        // /\n\s*-{3,}\s*\n/
    | StrictDashLine  // /\n---\n/
    | ThreeDashes     // '---'

  /** Length of the separator's match at the very start of `t`, if it
      matches there. */
  function SepLen(k: Separator, t: string): (r: Option<nat>)
    ensures r.Some? ==> 1 <= r.value <= |t|
  {
    match k
    case BlankLine =>
      if t != [] && t[0] == '\n' then
        match SpacesToNewline(t[1..])
        case Some(n) => Some(1 + n)
        case None => None
      else None
    case DashLine =>
      // `\s*` must take the whole white-space run and `-{3,}` the whole dash
      // run, since neither may be followed by what the next part needs.
      if t != [] && t[0] == '\n' then
        var a := 1 + SpaceRun(t[1..]);
        var b := a + DashRun(t[a..]);
        if b - a >= 3 then
          match SpacesToNewline(t[b..])
          case Some(n) => Some(b + n)
          case None => None
        else None
      else None
    case StrictDashLine =>
      if StartsWith(t, "\n---\n") then Some(5) else None
    case ThreeDashes =>
      if StartsWith(t, "---") then Some(3) else None
  }

  /** No match of the separator starts before position `i`. */
  predicate NoSepBefore(k: Separator, s: string, i: nat)
    requires i <= |s|
  {
    forall j :: 0 <= j < i ==> SepLen(k, s[j..]).None?
  }

  // ---------------------------------------------------------------------------
  // `split`

  /** `split` from some position on, `part` holding the text since the last
      match: a match ends the part and the search resumes after it; otherwise
      the character joins the part. None of the separators matches the empty
      string, so this is the loop of ECMAScript's `RegExp.prototype[@@split]`
      and, for `'---'`, of `String.prototype.split`. */
  function SplitFrom(k: Separator, s: string, part: string): (r: seq<string>)
    ensures |r| >= 1
    decreases |s|
  {
    if s == [] then [part]
    else
      match SepLen(k, s)
      case Some(n) => [part] + SplitFrom(k, s[n..], "")
      case None => SplitFrom(k, s[1..], part + [s[0]])
  }

  /** `s.split(separator)` */
  function Split(k: Separator, s: string): seq<string> {
    SplitFrom(k, s, "")
  }

  /** With no match anywhere the text stays in one piece. */
  lemma {:induction false} SplitNone(k: Separator, s: string, part: string)
    requires NoSepBefore(k, s, |s|)
    ensures SplitFrom(k, s, part) == [part + s]
    decreases |s|
  {
    if s == [] {
      assert part + s == part;
    } else {
      assert s[0..] == s;
      assert NoSepBefore(k, s[1..], |s| - 1) by {
        forall j | 0 <= j < |s| - 1 ensures SepLen(k, s[1..][j..]).None? {
          assert s[1..][j..] == s[j + 1..];
        }
      }
      SplitNone(k, s[1..], part + [s[0]]);
      assert part + [s[0]] + s[1..] == part + s;
    }
  }

  /** The first match ends the first piece. */
  lemma {:induction false} SplitAt(k: Separator, s: string, part: string, i: nat, n: nat)
    requires i < |s| && NoSepBefore(k, s, i) && SepLen(k, s[i..]) == Some(n)
    ensures SplitFrom(k, s, part) == [part + s[..i]] + Split(k, s[i + n..])
  {
    SkipTo(k, s, part, i);
    SplitFromMatch(k, s[i..], part + s[..i], n);
    assert s[i..][n..] == s[i + n..];
  }

  /** Characters before the first match only grow the current piece. */
  lemma {:induction false} SkipTo(k: Separator, s: string, part: string, i: nat)
    requires i <= |s| && NoSepBefore(k, s, i)
    ensures SplitFrom(k, s, part) == SplitFrom(k, s[i..], part + s[..i])
    decreases i
  {
    if i == 0 {
      assert s[0..] == s;
      assert part + s[..0] == part;
    } else {
      assert SepLen(k, s).None? by { assert s[0..] == s; }
      SplitFromSkip(k, s, part);
      NoSepShift(k, s, i);
      SkipTo(k, s[1..], part + [s[0]], i - 1);
      assert s[1..][i - 1..] == s[i..];
      SliceShift(s, part, i);
    }
  }

  /** A match at the start ends the current piece. */
  lemma {:induction false} SplitFromMatch(k: Separator, s: string, part: string, n: nat)
    requires s != [] && SepLen(k, s) == Some(n)
    ensures SplitFrom(k, s, part) == [part] + Split(k, s[n..])
  {
  }

  /** No match at the start: the character joins the current piece. */
  lemma {:induction false} SplitFromSkip(k: Separator, s: string, part: string)
    requires s != [] && SepLen(k, s).None?
    ensures SplitFrom(k, s, part) == SplitFrom(k, s[1..], part + [s[0]])
  {
  }

  /** Dropping the first character keeps "no match before" one position
      earlier. */
  lemma {:induction false} NoSepShift(k: Separator, s: string, i: nat)
    requires 0 < i <= |s| && NoSepBefore(k, s, i)
    ensures NoSepBefore(k, s[1..], i - 1)
  {
    forall j | 0 <= j < i - 1 ensures SepLen(k, s[1..][j..]).None? {
      assert s[1..][j..] == s[j + 1..];
    }
  }

  lemma {:induction false} SliceShift(s: string, part: string, i: nat)
    requires 0 < i <= |s|
    ensures part + [s[0]] + s[1..][..i - 1] == part + s[..i]
  {
    assert s[..i] == [s[0]] + s[1..][..i - 1];
  }

  /** The text stays in one piece exactly when the separator matches
      nowhere in it. */
  lemma {:induction false} SplitOne(k: Separator, s: string, part: string)
    ensures |SplitFrom(k, s, part)| == 1 <==> NoSepBefore(k, s, |s|)
    decreases |s|
  {
    if NoSepBefore(k, s, |s|) {
      SplitNone(k, s, part);
    } else if s != [] {
      assert s[0..] == s;
      if SepLen(k, s).None? {
        assert !NoSepBefore(k, s[1..], |s| - 1) by {
          var j :| 0 <= j < |s| && SepLen(k, s[j..]).Some?;
          assert j > 0;
          assert s[1..][j - 1..] == s[j..];
        }
        SplitOne(k, s[1..], part + [s[0]]);
      }
    }
  }

  /** `parts.join('---')` */
  function JoinDashes(parts: seq<string>): string {
    if parts == [] then "" else if |parts| == 1 then parts[0] else parts[0] + "---" + JoinDashes(parts[1..])
  }

  /** Joining the pieces of a split on `---` with `---` gives the text back. */
  lemma {:induction false} JoinSplitDashes(s: string, part: string)
    ensures JoinDashes(SplitFrom(ThreeDashes, s, part)) == part + s
    decreases |s|
  {
    if s == [] {
      assert part + s == part;
    } else {
      match SepLen(ThreeDashes, s)
      case Some(n) =>
        var rest := SplitFrom(ThreeDashes, s[n..], "");
        JoinSplitDashes(s[n..], "");
        assert ([part] + rest)[1..] == rest;
        assert s == "---" + s[3..] by { assert s[..3] == "---"; }
        assert "" + s[3..] == s[3..];
      case None =>
        JoinSplitDashes(s[1..], part + [s[0]]);
        assert part + [s[0]] + s[1..] == part + s;
    }
  }

  // ---------------------------------------------------------------------------
  // One block

  /** The two-part rule shared by both variants: exactly two parts, trimmed,
      and a pair only when one of them is non-empty. */
  function TwoParts(parts: seq<string>): (r: Option<Pair>)
    ensures r.Some? ==> |parts| == 2 && r.value == Pair(Trim(parts[0]), Trim(parts[1]), false)
    ensures r.Some? <==> |parts| == 2 && (Trim(parts[0]) != "" || Trim(parts[1]) != "")
  {
    if |parts| == 2 then
      var cue := Trim(parts[0]);
      var notes := Trim(parts[1]);
      if cue != "" || notes != "" then Some(Pair(cue, notes, false)) else None
    else None
  }

  /** The tolerant block rule: two parts around one separator line; failing
      that, when the block has no separator line but holds `---`, the text
      around the first `---`, appended even when both parts are empty. */
  function TolerantEntry(p: string): Option<Pair> {
    var parts := Split(DashLine, p);
    if |parts| == 2 then TwoParts(parts)
    else if |parts| == 1 && Contains(p, "---") then
      var simple := Split(ThreeDashes, p);
      if |simple| >= 2 then
        Some(Pair(Trim(simple[0]), Trim(JoinDashes(simple[1..])), false))
      else None
    else None
  }

  /** The strict block rule: two parts around `\n---\n`. */
  function StrictEntry(p: string): Option<Pair> {
    TwoParts(Split(StrictDashLine, p))
  }

  function Entry(p: string, tolerant: bool): Option<Pair> {
    if tolerant then TolerantEntry(p) else StrictEntry(p)
  }

  // ---------------------------------------------------------------------------
  // The whole text

  /** `text.replace(/\r\n/g, '\n')` */
  function NormalizeLineEnds(s: string): string
    decreases |s|
  {
    if s == [] then []
    else if |s| >= 2 && s[0] == '\r' && s[1] == '\n' then "\n" + NormalizeLineEnds(s[2..])
    else [s[0]] + NormalizeLineEnds(s[1..])
  }

  /** The text that is split into blocks. */
  function Prepared(text: string, tolerant: bool): string {
    if tolerant then Trim(NormalizeLineEnds(text)) else Trim(text)
  }

  /** The blocks: the prepared text split at blank lines. */
  function BulkBlocks(text: string, tolerant: bool): seq<string> {
    Split(BlankLine, Prepared(text, tolerant))
  }

  /** The pairs the blocks give, in block order. */
  function Entries(blocks: seq<string>, tolerant: bool): seq<Pair> {
    if blocks == [] then []
    else
      var last := Entry(blocks[|blocks| - 1], tolerant);
      Entries(blocks[..|blocks| - 1], tolerant) + (if last.Some? then [last.value] else [])
  }

  /** One more block appends its pair, if it gives one. */
  lemma EntriesStep(blocks: seq<string>, i: nat, tolerant: bool)
    requires i < |blocks|
    ensures var e := Entry(blocks[i], tolerant);
      Entries(blocks[..i + 1], tolerant) == Entries(blocks[..i], tolerant) + (if e.Some? then [e.value] else [])
  {
    assert blocks[..i + 1][..i] == blocks[..i];
  }

  /** The pairs one import appends: none when the text is blank. The
      specification of `Editor.BulkImport`. */
  function Imported(text: string, tolerant: bool): seq<Pair> {
    if Trim(text) == "" then [] else Entries(BulkBlocks(text, tolerant), tolerant)
  }

  // ---------------------------------------------------------------------------
  // Properties

  /** White space alone adds nothing. */
  lemma BlankAddsNothing(text: string, tolerant: bool)
    requires AllSpace(text)
    ensures Imported(text, tolerant) == []
  {
    TrimEmpty(text);
  }

  lemma {:induction false} EntriesAppend(xs: seq<string>, ys: seq<string>, tolerant: bool)
    ensures Entries(xs + ys, tolerant) == Entries(xs, tolerant) + Entries(ys, tolerant)
    decreases |ys|
  {
    if ys == [] {
      assert xs + ys == xs;
    } else {
      assert (xs + ys)[..|xs + ys| - 1] == xs + ys[..|ys| - 1];
      EntriesAppend(xs, ys[..|ys| - 1], tolerant);
    }
  }

  /** Each block gives at most one pair, no pair is starred, and every pair
      is the pair of one block, blocks and pairs in the same order. */
  lemma {:induction false} EntriesShape(blocks: seq<string>, tolerant: bool)
    ensures var es := Entries(blocks, tolerant);
      && |es| <= |blocks|
      && (forall i :: 0 <= i < |es| ==> !es[i].isImportant)
  {
    if blocks != [] {
      var init := blocks[..|blocks| - 1];
      EntriesShape(init, tolerant);
      var last := Entry(blocks[|blocks| - 1], tolerant);
      var a := Entries(init, tolerant);
      var b: seq<Pair> := if last.Some? then [last.value] else [];
      assert Entries(blocks, tolerant) == a + b;
      if last.Some? {
        if tolerant {
          var p := blocks[|blocks| - 1];
          assert !last.value.isImportant;
        }
        assert !b[0].isImportant;
      }
      assert forall i :: 0 <= i < |a + b| ==> (a + b)[i] == (if i < |a| then a[i] else b[i - |a|]);
    }
  }

  /** The import as a whole: at most one pair per block, none starred. */
  lemma {:induction false} ImportedShape(text: string, tolerant: bool)
    ensures |Imported(text, tolerant)| <= |BulkBlocks(text, tolerant)|
    ensures forall i :: 0 <= i < |Imported(text, tolerant)| ==> !Imported(text, tolerant)[i].isImportant
  {
    EntriesShape(BulkBlocks(text, tolerant), tolerant);
  }

  /** A block with exactly one separator match gives the two pieces around
      it. */
  lemma {:induction false} OneSeparator(k: Separator, p: string, i: nat, n: nat)
    requires i < |p| && NoSepBefore(k, p, i) && SepLen(k, p[i..]) == Some(n)
    requires NoSepBefore(k, p[i + n..], |p| - (i + n))
    ensures Split(k, p) == [p[..i], p[i + n..]]
  {
    SplitAt(k, p, "", i, n);
    SplitNone(k, p[i + n..], "");
    assert "" + p[..i] == p[..i] && "" + p[i + n..] == p[i + n..];
  }

  /** A block with two separator matches splits into three pieces or more. */
  lemma {:induction false} TwoSeparators(k: Separator, p: string, i: nat, n: nat, j: nat, m: nat)
    requires i < |p| && NoSepBefore(k, p, i) && SepLen(k, p[i..]) == Some(n)
    requires j < |p| - (i + n) && NoSepBefore(k, p[i + n..], j) && SepLen(k, p[i + n..][j..]) == Some(m)
    ensures |Split(k, p)| >= 3
  {
    SplitAt(k, p, "", i, n);
    SplitAt(k, p[i + n..], "", j, m);
  }

  /** The tolerant rule on a block with one separator line: the trimmed text
      before it as the cue and after it as the notes, unless both are empty. */
  lemma {:induction false} TolerantOneSeparator(p: string, i: nat, n: nat)
    requires i < |p| && NoSepBefore(DashLine, p, i) && SepLen(DashLine, p[i..]) == Some(n)
    requires NoSepBefore(DashLine, p[i + n..], |p| - (i + n))
    ensures var cue, notes := Trim(p[..i]), Trim(p[i + n..]);
      TolerantEntry(p) == if cue != "" || notes != "" then Some(Pair(cue, notes, false)) else None
  {
    OneSeparator(DashLine, p, i, n);
  }

  /** The tolerant rule on a block with two separator lines: nothing. */
  lemma {:induction false} TolerantTwoSeparators(p: string, i: nat, n: nat, j: nat, m: nat)
    requires i < |p| && NoSepBefore(DashLine, p, i) && SepLen(DashLine, p[i..]) == Some(n)
    requires j < |p| - (i + n) && NoSepBefore(DashLine, p[i + n..], j) && SepLen(DashLine, p[i + n..][j..]) == Some(m)
    ensures TolerantEntry(p) == None
  {
    TwoSeparators(DashLine, p, i, n, j, m);
  }

  /** The fallback: a block with no separator line but a `---` gives the
      text around the first `---`, later ones kept in the notes, even when
      both parts are empty. */
  lemma {:induction false} Fallback(p: string, i: nat)
    requires NoSepBefore(DashLine, p, |p|)
    requires IndexOf(p, "---") == Some(i)
    ensures TolerantEntry(p) == Some(Pair(Trim(p[..i]), Trim(p[i + 3..]), false))
  {
    SplitNone(DashLine, p, "");
    assert "" + p == p;
    IndexOfLeftmost(p, "---");
    assert NoSepBefore(ThreeDashes, p, i) by {
      forall j | 0 <= j < i ensures SepLen(ThreeDashes, p[j..]).None? {
        assert !StartsWith(p[j..], "---");
      }
    }
    assert SepLen(ThreeDashes, p[i..]) == Some(3);
    SplitAt(ThreeDashes, p, "", i, 3);
    var simple := Split(ThreeDashes, p);
    assert simple[0] == p[..i] by { assert "" + p[..i] == p[..i]; }
    assert simple[1..] == Split(ThreeDashes, p[i + 3..]);
    JoinSplitDashes(p[i + 3..], "");
    assert "" + p[i + 3..] == p[i + 3..];
  }

  /** A block with neither a separator line nor `---` gives nothing. */
  lemma {:induction false} NoSeparator(p: string)
    requires NoSepBefore(DashLine, p, |p|)
    requires !Contains(p, "---")
    ensures TolerantEntry(p) == None
  {
    SplitOne(DashLine, p, "");
  }

  /** The strict rule on a block with exactly one `\n---\n`. */
  lemma {:induction false} StrictOneSeparator(p: string, i: nat)
    requires i < |p| && NoSepBefore(StrictDashLine, p, i) && SepLen(StrictDashLine, p[i..]) == Some(5)
    requires NoSepBefore(StrictDashLine, p[i + 5..], |p| - (i + 5))
    ensures var cue, notes := Trim(p[..i]), Trim(p[i + 5..]);
      StrictEntry(p) == if cue != "" || notes != "" then Some(Pair(cue, notes, false)) else None
  {
    OneSeparator(StrictDashLine, p, i, 5);
  }

  /** The strict rule on a block without `\n---\n`: nothing, with no
      fallback. */
  lemma {:induction false} StrictNoSeparator(p: string)
    requires NoSepBefore(StrictDashLine, p, |p|)
    ensures StrictEntry(p) == None
  {
    SplitNone(StrictDashLine, p, "");
  }

  // ---------------------------------------------------------------------------
  // Line endings

  /** Every line break is written `\r\n`. */
  predicate CRLFBreaks(s: string) {
    forall i :: 0 <= i < |s| && s[i] == '\n' ==> i > 0 && s[i - 1] == '\r'
  }

  /** The strict rule does not normalise line endings: a block whose line
      breaks are all `\r\n` never holds `\n---\n` and gives nothing. */
  lemma {:induction false} StrictIgnoresCRLF(p: string)
    requires CRLFBreaks(p)
    ensures StrictEntry(p) == None
  {
    forall j | 0 <= j < |p| ensures SepLen(StrictDashLine, p[j..]).None? {
      if j + 5 <= |p| {
        assert p[j..][3] == p[j + 3] && p[j..][4] == p[j + 4];
        if p[j + 4] == '\n' {
          assert p[j + 3] == '\r';
        }
      }
    }
    StrictNoSeparator(p);
  }

  /** The text with every `\n` written as `\r\n`. */
  function WithCRLF(s: string): (r: string)
    ensures |r| >= |s|
  {
    if s == [] then []
    else if s[0] == '\n' then "\r\n" + WithCRLF(s[1..])
    else [s[0]] + WithCRLF(s[1..])
  }

  lemma {:induction false} NormalizeWithCRLF(s: string)
    requires forall i :: 0 <= i < |s| ==> s[i] != '\r'
    ensures NormalizeLineEnds(WithCRLF(s)) == s
  {
    if s != [] {
      NormalizeWithCRLF(s[1..]);
      var w := WithCRLF(s);
      if s[0] == '\n' {
        assert w[2..] == WithCRLF(s[1..]);
      } else {
        assert w[0] == s[0] && w[1..] == WithCRLF(s[1..]);
      }
    }
  }

  lemma {:induction false} SpaceWithCRLF(s: string)
    ensures AllSpace(WithCRLF(s)) <==> AllSpace(s)
  {
    if s != [] {
      SpaceWithCRLF(s[1..]);
      var w := WithCRLF(s);
      var t := WithCRLF(s[1..]);
      if s[0] == '\n' {
        assert w == "\r\n" + t;
        assert AllSpace(w) <==> AllSpace(t) by {
          assert forall i :: 0 <= i < |t| ==> w[i + 2] == t[i];
        }
      } else {
        assert w == [s[0]] + t;
        assert AllSpace(w) <==> IsSpace(s[0]) && AllSpace(t) by {
          assert w[0] == s[0];
          assert forall i :: 0 <= i < |t| ==> w[i + 1] == t[i];
        }
      }
      assert AllSpace(s) <==> IsSpace(s[0]) && AllSpace(s[1..]) by {
        assert forall i :: 1 <= i < |s| ==> s[i] == s[1..][i - 1];
      }
    }
  }

  /** The tolerant import reads `\r\n` line endings as `\n`. */
  lemma {:induction false} CRLFSameAsLF(s: string)
    requires forall i :: 0 <= i < |s| ==> s[i] != '\r'
    ensures Imported(WithCRLF(s), true) == Imported(s, true)
  {
    assert Trim(WithCRLF(s)) == "" <==> Trim(s) == "" by {
      TrimEmpty(WithCRLF(s));
      TrimEmpty(s);
      SpaceWithCRLF(s);
    }
    NormalizeWithCRLF(s);
    assert NormalizeLineEnds(s) == s by {
      NormalizeWithoutCR(s);
    }
  }

  lemma {:induction false} NormalizeWithoutCR(s: string)
    requires forall i :: 0 <= i < |s| ==> s[i] != '\r'
    ensures NormalizeLineEnds(s) == s
  {
    if s != [] {
      NormalizeWithoutCR(s[1..]);
      assert s == [s[0]] + s[1..];
    }
  }
}
