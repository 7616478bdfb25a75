/** File names: the slug a download is named after, and the extension test
    that sends an uploaded file to the JSON or the Markdown loader. */
module Files {
  import opened Wrappers
  import opened Text

  /** `\w`: an ASCII letter, a digit or `_`. */
  predicate IsWordChar(c: char) {
    ('a' <= c <= 'z') || ('A' <= c <= 'Z') || ('0' <= c <= '9') || c == '_'
  }

  /** `toLowerCase`, on ASCII letters. */
  function LowerChar(c: char): (r: char)
    ensures IsWordChar(r) <==> IsWordChar(c)
    ensures !('A' <= r <= 'Z')
  {
    if 'A' <= c <= 'Z' then (c as int - 'A' as int + 'a' as int) as char else c
  }

  /** `toLowerCase`, character by character. */
  function Lower(s: string): string {
    seq(|s|, i requires 0 <= i < |s| => LowerChar(s[i]))
  }

  /** `.replace(/[\s\W-]+/g, '-')` from some position on, `inRun` saying
      whether the character before it was already replaced. Every character
      of the class is a non-word character, so each maximal run of
      non-word characters becomes one `-`. */
  function Collapse(s: string, inRun: bool): string
    decreases |s|
  {
    if s == [] then []
    else if IsWordChar(s[0]) then [s[0]] + Collapse(s[1..], false)
    else if inRun then Collapse(s[1..], true)
    else "-" + Collapse(s[1..], true)
  }

  /** The name downloads are given, before the suffix: the trimmed topic or
      `untitled-notes`, lower-cased, runs of non-word characters made `-`. */
  function Slug(topic: string): string {
    var t := Trim(topic);
    Collapse(Lower(if t == "" then "untitled-notes" else t), false)
  }

  /** The characters a slug may hold. */
  predicate SlugChar(c: char) {
    ('a' <= c <= 'z') || ('0' <= c <= '9') || c == '_' || c == '-'
  }

  /** No two `-` side by side. */
  predicate NoDoubleDash(s: string) {
    forall i :: 0 <= i < |s| - 1 ==> !(s[i] == '-' && s[i + 1] == '-')
  }

  /** The word characters of a text, in order. */
  function Words(s: string): (r: string)
    ensures forall i :: 0 <= i < |r| ==> IsWordChar(r[i])
  {
    if s == [] then [] else (if IsWordChar(s[0]) then [s[0]] else []) + Words(s[1..])
  }

  /** What `Collapse` gives: slug characters only (when the input has no
      upper-case letter), no double dash, never a leading dash after a
      replaced character, the word characters kept in order, and nothing
      lost when there is a character. */
  lemma {:induction false} CollapseFacts(s: string, inRun: bool)
    requires forall i :: 0 <= i < |s| ==> !('A' <= s[i] <= 'Z')
    ensures var r := Collapse(s, inRun);
      && (forall i :: 0 <= i < |r| ==> SlugChar(r[i]))
      && NoDoubleDash(r)
      && (inRun && r != [] ==> r[0] != '-')
      && Words(r) == Words(s)
      && (s != [] && !inRun ==> r != [])
  {
    CollapseChars(s, inRun);
    CollapseDashes(s, inRun);
    CollapseWords(s, inRun);
  }

  lemma {:induction false} CollapseChars(s: string, inRun: bool)
    requires forall i :: 0 <= i < |s| ==> !('A' <= s[i] <= 'Z')
    ensures forall i :: 0 <= i < |Collapse(s, inRun)| ==> SlugChar(Collapse(s, inRun)[i])
    decreases |s|
  {
    if s != [] {
      var rest := Collapse(s[1..], !IsWordChar(s[0]));
      CollapseChars(s[1..], !IsWordChar(s[0]));
      var r := Collapse(s, inRun);
      if IsWordChar(s[0]) || !inRun {
        assert r == [r[0]] + rest;
        assert SlugChar(r[0]);
        forall i | 1 <= i < |r| ensures SlugChar(r[i]) {
          assert r[i] == rest[i - 1];
        }
      } else {
        assert r == rest;
      }
    }
  }

  lemma {:induction false} CollapseDashes(s: string, inRun: bool)
    ensures var r := Collapse(s, inRun);
      && NoDoubleDash(r)
      && (inRun && r != [] ==> r[0] != '-')
      && (s != [] && !inRun ==> r != [])
    decreases |s|
  {
    if s != [] {
      var rest := Collapse(s[1..], !IsWordChar(s[0]));
      CollapseDashes(s[1..], !IsWordChar(s[0]));
      var r := Collapse(s, inRun);
      if IsWordChar(s[0]) || !inRun {
        assert r == [r[0]] + rest;
        forall i | 0 <= i < |r| - 1 ensures !(r[i] == '-' && r[i + 1] == '-') {
          if i > 0 { assert r[i] == rest[i - 1] && r[i + 1] == rest[i]; }
        }
      }
    }
  }

  lemma {:induction false} CollapseWords(s: string, inRun: bool)
    ensures Words(Collapse(s, inRun)) == Words(s)
    decreases |s|
  {
    if s != [] {
      var rest := Collapse(s[1..], !IsWordChar(s[0]));
      CollapseWords(s[1..], !IsWordChar(s[0]));
      var r := Collapse(s, inRun);
      if IsWordChar(s[0]) {
        assert r == [s[0]] + rest;
        assert Words(r) == [s[0]] + Words(rest) by { assert r[1..] == rest; }
      } else if !inRun {
        assert r == "-" + rest;
        assert Words(r) == Words(rest) by { assert r[1..] == rest; }
      }
    }
  }

  lemma {:induction false} LowerFacts(s: string)
    ensures forall i :: 0 <= i < |Lower(s)| ==> !('A' <= Lower(s)[i] <= 'Z')
    ensures Words(Lower(s)) == Lower(Words(s))
    decreases |s|
  {
    if s != [] {
      LowerFacts(s[1..]);
      var l := Lower(s);
      assert l[1..] == Lower(s[1..]);
      assert Words(l) == (if IsWordChar(l[0]) then [l[0]] else []) + Words(l[1..]);
      var w := if IsWordChar(s[0]) then [s[0]] else [];
      assert Lower(w + Words(s[1..])) == Lower(w) + Lower(Words(s[1..])) by {
        LowerAppend(w, Words(s[1..]));
      }
    }
  }

  lemma {:induction false} LowerAppend(a: string, b: string)
    ensures Lower(a + b) == Lower(a) + Lower(b)
  {
    var l := Lower(a + b);
    assert forall i :: 0 <= i < |a + b| ==> l[i] == LowerChar((a + b)[i]);
    assert l == Lower(a) + Lower(b);
  }

  /** The slug of any topic: only `a-z`, `0-9`, `_` and `-`, never `--`,
      never empty, its word characters those of the trimmed topic (or of
      `untitled-notes`), lower-cased and in order. */
  lemma {:induction false} SlugShape(topic: string)
    ensures var r := Slug(topic);
      && r != []
      && (forall i :: 0 <= i < |r| ==> SlugChar(r[i]))
      && NoDoubleDash(r)
    ensures var t := Trim(topic);
      Words(Slug(topic)) == Lower(Words(if t == "" then "untitled-notes" else t))
  {
    var t := Trim(topic);
    var u := if t == "" then "untitled-notes" else t;
    LowerFacts(u);
    CollapseFacts(Lower(u), false);
  }

  /** A blank topic is saved as `untitled-notes`. */
  lemma {:induction false} BlankSlug(topic: string)
    requires AllSpace(topic)
    ensures Slug(topic) == "untitled-notes"
  {
    TrimEmpty(topic);
    UntitledKeeps();
  }

  lemma {:induction false} UntitledKeeps()
    ensures Collapse(Lower("untitled-notes"), false) == "untitled-notes"
  {
    assert "untitled-notes" == "untitled" + "-" + "notes";
    DashedSlug("untitled", "notes");
  }

  /** Two runs of lower-case word characters joined by one `-` are a slug
      already. */
  lemma {:induction false} DashedSlug(a: string, b: string)
    requires forall i :: 0 <= i < |a| ==> SlugChar(a[i]) && a[i] != '-'
    requires forall i :: 0 <= i < |b| ==> SlugChar(b[i]) && b[i] != '-'
    ensures Lower(a + "-" + b) == a + "-" + b
    ensures Collapse(Lower(a + "-" + b), false) == a + "-" + b
  {
    var u := a + "-" + b;
    assert forall i :: 0 <= i < |u| ==> SlugChar(u[i]) by {
      forall i | 0 <= i < |u| ensures SlugChar(u[i]) {
        if i < |a| { assert u[i] == a[i]; } else if i > |a| { assert u[i] == b[i - |a| - 1]; }
      }
    }
    assert Lower(u) == u by {
      forall i | 0 <= i < |u| ensures LowerChar(u[i]) == u[i] {
        assert SlugChar(u[i]);
      }
    }
    assert NoDoubleDash(u) by {
      forall i | 0 <= i < |u| - 1 ensures !(u[i] == '-' && u[i + 1] == '-') {
        if i < |a| { assert u[i] == a[i]; } else { assert u[i + 1] == b[i - |a|]; }
      }
    }
    CollapseKeeps(u);
  }

  /** A text of slug characters with no double dash can start a slug: it
      collapses to itself. */
  lemma {:induction false} CollapseKeeps(s: string)
    requires forall i :: 0 <= i < |s| ==> SlugChar(s[i])
    requires NoDoubleDash(s)
    ensures Collapse(s, false) == s
    ensures s != [] && s[0] != '-' ==> Collapse(s, true) == s
    decreases |s|
  {
    if s != [] {
      var t := s[1..];
      assert forall i :: 0 <= i < |t| ==> t[i] == s[i + 1];
      CollapseKeeps(t);
      if t != [] && s[0] == '-' {
        assert t[0] != '-';
      }
    }
  }

  /** Naming a download after its slug again changes nothing. */
  lemma {:induction false} SlugIdempotent(topic: string)
    ensures Slug(Slug(topic)) == Slug(topic)
  {
    SlugShape(topic);
    SlugOfSlugText(Slug(topic));
  }

  /** A non-empty text of slug characters with no double dash is its own
      slug. */
  lemma {:induction false} SlugOfSlugText(r: string)
    requires r != []
    requires forall i :: 0 <= i < |r| ==> SlugChar(r[i])
    requires NoDoubleDash(r)
    ensures Slug(r) == r
  {
    assert forall i :: 0 <= i < |r| ==> !IsSpace(r[i]) by {
      forall i | 0 <= i < |r| ensures !IsSpace(r[i]) { assert SlugChar(r[i]); }
    }
    TrimOfNonSpaceStart(r);
    TrimEndOfNonSpaceEnd(r);
    assert Lower(r) == r by {
      forall i | 0 <= i < |r| ensures LowerChar(r[i]) == r[i] { assert SlugChar(r[i]); }
    }
    CollapseKeeps(r);
  }

  // ---------------------------------------------------------------------------
  // Suffixes and dispatch

  datatype Format = JsonFormat | MarkdownFormat

  function Suffix(f: Format): string {
    match f
    case JsonFormat => ".json"
    case MarkdownFormat => ".md"
  }

  /** The name a download is saved under. */
  function FileName(topic: string, f: Format): (name: string)
    ensures EndsWith(name, Suffix(f))
  {
    var name := Slug(topic) + Suffix(f);
    assert name[|name| - |Suffix(f)|..] == Suffix(f);
    name
  }

  /** `handleFileUpload`'s test: `.json` is tried first, then `.md`;
      anything else is not a notes file. */
  function Kind(name: string): (r: Option<Format>)
    ensures r == Some(JsonFormat) <==> EndsWith(name, ".json")
    ensures r == Some(MarkdownFormat) <==> EndsWith(name, ".md") && !EndsWith(name, ".json")
    ensures r.None? <==> !EndsWith(name, ".json") && !EndsWith(name, ".md")
  {
    if EndsWith(name, ".json") then Some(JsonFormat)
    else if EndsWith(name, ".md") then Some(MarkdownFormat)
    else None
  }

  /** A saved file is read back by the loader of its own format. */
  lemma {:induction false} KindOfFileName(topic: string, f: Format)
    ensures Kind(FileName(topic, f)) == Some(f)
  {
    var name := FileName(topic, f);
    if f == MarkdownFormat {
      assert name[|name| - 1] == 'd';
      if |name| >= 5 {
        assert name[|name| - 5..][4] == name[|name| - 1];
      }
    }
  }
}
