/**
 A model of `extract_data_from_html` in WebScrapper.py: reject empty content,
 then keep, in document order, the text of every anchor that has an `href` and
 whose text matches the regular expression `.*python.*` under `re.match` with
 `re.IGNORECASE`.

 The HTML parser is an oracle: `anchorsOf(markup)` is the list of `<a>`
 elements the parser finds in `markup`, in document order, each reduced to its
 text (`get_text()`) and whether it carries an `href` attribute.
 */
module Extractor {

  /** One `<a>` element as the parser reports it. */
  datatype Anchor = Anchor(text: string, hasHref: bool)

  /** The argument of `extract_data_from_html`: `None` (what the fetch returns
      when its loop never runs) or a string. */
  datatype Content = Absent | Markup(markup: string)

  /** What the routine produces: the list of titles, or the `ValueError` it raises. */
  datatype Extraction = Titles(titles: seq<string>) | ValueError(message: string)

  const EmptyContentMessage := "HTML content is invalid or empty!!"

  /** The literal part of the pattern `.*python.*`. */
  const Keyword := "python"

  // ---------------------------------------------------------------------------
  // The title pattern
  // ---------------------------------------------------------------------------

  /** Case folding of one character as far as the keyword needs it: the ASCII
      capitals map to their lower-case letters, every other character to itself. */
  function Fold(c: char): char
  {
    if 'A' <= c <= 'Z' then (c as int + 32) as char else c
  }

  /** `s` with every character folded. */
  function FoldAll(s: string): string {
    seq(|s|, i requires 0 <= i < |s| => Fold(s[i]))
  }

  /** `s` begins with the keyword, ignoring case. */
  predicate StartsWithKeyword(s: string) {
    |Keyword| <= |s| && FoldAll(s[..|Keyword|]) == Keyword
  }

  /** What `re.match(r'.*python.*', t, re.IGNORECASE)` accepts: the leading
      `.*` consumes some prefix `t[..i]` that holds no newline (without
      `re.DOTALL`, `.` does not match `\n`), the keyword follows at `i`, and the
      trailing `.*` may match the empty string. */
  ghost predicate PatternMatches(t: string) {
    exists i :: 0 <= i <= |t| && '\n' !in t[..i] && StartsWithKeyword(t[i..])
  }

  /** A left-to-right scan for the keyword that gives up at the first newline. */
  function MentionsKeyword(t: string): bool
    decreases |t|
  {
    if StartsWithKeyword(t) then true
    else if t == [] || t[0] == '\n' then false
    else MentionsKeyword(t[1..])
  }

  /** A keyword at the start is matched with an empty leading `.*`. */
  lemma PatternAtStart(t: string)
    requires StartsWithKeyword(t)
    ensures PatternMatches(t)
  {
    assert t[..0] == [] && t[0..] == t;
  }

  /** Neither an empty title nor one whose first line is empty matches, unless
      the keyword starts right at the beginning. */
  lemma PatternBlockedByNewline(t: string)
    requires !StartsWithKeyword(t)
    requires t == [] || t[0] == '\n'
    ensures !PatternMatches(t)
  {
  }

  /** A match in the rest of the title extends over a first character that is
      not a newline. */
  lemma PatternAfterFirst(t: string)
    requires t != [] && t[0] != '\n'
    requires PatternMatches(t[1..])
    ensures PatternMatches(t)
  {
  }

  /** Unless the keyword starts at the beginning, a match must let the leading
      `.*` consume the first character. */
  lemma PatternPastFirst(t: string)
    requires !StartsWithKeyword(t)
    requires PatternMatches(t)
    ensures t != [] && PatternMatches(t[1..])
  {
    var i :| 0 <= i <= |t| && '\n' !in t[..i] && StartsWithKeyword(t[i..]);
    assert i != 0 by { assert t[0..] == t; }
    var rest := t[1..];
    assert rest[..i - 1] == t[..i][1..];
    assert rest[i - 1..] == t[i..];
    assert 0 <= i - 1 <= |rest| && '\n' !in rest[..i - 1] && StartsWithKeyword(rest[i - 1..]);
  }

  /** The scan accepts exactly the titles the regular expression matches. */
  lemma {:induction false} MentionsKeywordIsPattern(t: string)
    ensures MentionsKeyword(t) <==> PatternMatches(t)
    decreases |t|
  {
    if StartsWithKeyword(t) {
      PatternAtStart(t);
    } else if t == [] || t[0] == '\n' {
      PatternBlockedByNewline(t);
    } else {
      MentionsKeywordIsPattern(t[1..]);
      if PatternMatches(t) {
        PatternPastFirst(t);
      }
      if PatternMatches(t[1..]) {
        PatternAfterFirst(t);
      }
    }
  }

  /** The keyword occurs, ignoring case, somewhere in `s`. */
  ghost predicate ContainsKeyword(s: string) {
    exists i :: 0 <= i <= |s| && StartsWithKeyword(s[i..])
  }

  /** The text before the first newline (all of `t` when it has none). */
  function FirstLine(t: string): (line: string)
    ensures '\n' !in line
    ensures line == t || (|line| < |t| && t[|line|] == '\n')
    ensures line <= t
  {
    if t == [] || t[0] == '\n' then [] else [t[0]] + FirstLine(t[1..])
  }

  /** No letter of the keyword is a newline, so a newline never folds onto one. */
  lemma NewlineNotInKeyword(c: char, j: nat)
    requires j < |Keyword| && Fold(c) == Keyword[j]
    ensures c != '\n'
  {
  }

  lemma ContainsKeywordCons(c: char, s: string)
    ensures ContainsKeyword([c] + s) <==> StartsWithKeyword([c] + s) || ContainsKeyword(s)
  {
    var cs := [c] + s;
    if ContainsKeyword(cs) && !StartsWithKeyword(cs) {
      var i :| 0 <= i <= |cs| && StartsWithKeyword(cs[i..]);
      assert i != 0 by { assert cs[0..] == cs; }
      assert s[i - 1..] == cs[i..];
    }
    if ContainsKeyword(s) {
      var i :| 0 <= i <= |s| && StartsWithKeyword(s[i..]);
      assert cs[i + 1..] == s[i..];
    }
    if StartsWithKeyword(cs) {
      assert cs[0..] == cs;
    }
  }

  /** The title pattern matches exactly when the keyword occurs, ignoring case,
      in the first line of the title. */
  lemma {:induction false} MentionsKeywordInFirstLine(t: string)
    ensures MentionsKeyword(t) <==> ContainsKeyword(FirstLine(t))
    decreases |t|
  {
    var line := FirstLine(t);
    if StartsWithKeyword(t) {
      if |line| < |Keyword| {
        assert FoldAll(t[..|Keyword|])[|line|] == Fold(t[|line|]);
        NewlineNotInKeyword(t[|line|], |line|);
      }
      assert line[..|Keyword|] == t[..|Keyword|];
      assert line[0..] == line;
    } else if t == [] || t[0] == '\n' {
      assert line == [];
    } else {
      MentionsKeywordInFirstLine(t[1..]);
      var rest := FirstLine(t[1..]);
      assert line == [t[0]] + rest;
      ContainsKeywordCons(t[0], rest);
    }
  }

  // ---------------------------------------------------------------------------
  // The filter
  // ---------------------------------------------------------------------------

  /** The anchor is one whose text the routine appends. */
  predicate Kept(a: Anchor) {
    a.hasHref && MentionsKeyword(a.text)
  }

  /** The loop over `soup.find_all('a', href=True)`: the texts of the kept
      anchors, in document order. */
  function TitlesOf(anchors: seq<Anchor>): (titles: seq<string>)
    ensures |titles| <= |anchors|
    ensures forall t :: t in titles ==> exists a :: a in anchors && Kept(a) && a.text == t
  {
    if anchors == [] then []
    else (if Kept(anchors[0]) then [anchors[0].text] else []) + TitlesOf(anchors[1..])
  }

  /** Filtering a concatenation filters each part: the result keeps the order of
      the document. */
  lemma {:induction false} TitlesOfConcat(a: seq<Anchor>, b: seq<Anchor>)
    ensures TitlesOf(a + b) == TitlesOf(a) + TitlesOf(b)
    decreases |a|
  {
    if a != [] {
      var head := if Kept(a[0]) then [a[0].text] else [];
      assert (a + b)[0] == a[0];
      assert (a + b)[1..] == a[1..] + b;
      TitlesOfConcat(a[1..], b);
      calc {
        TitlesOf(a + b);
        head + TitlesOf(a[1..] + b);
        head + (TitlesOf(a[1..]) + TitlesOf(b));
        (head + TitlesOf(a[1..])) + TitlesOf(b);
        TitlesOf(a) + TitlesOf(b);
      }
    } else {
      assert a + b == b;
    }
  }

  /** A title appears in the result exactly when some anchor with an `href`
      carries it and matches the pattern. */
  lemma {:induction false} TitlesOfMembership(anchors: seq<Anchor>, t: string)
    ensures t in TitlesOf(anchors) <==>
            exists i :: 0 <= i < |anchors| && anchors[i].hasHref && anchors[i].text == t && PatternMatches(t)
    decreases |anchors|
  {
    if anchors != [] {
      TitlesOfMembership(anchors[1..], t);
      MentionsKeywordIsPattern(t);
      if exists i :: 0 <= i < |anchors[1..]| && anchors[1..][i].hasHref && anchors[1..][i].text == t && PatternMatches(t) {
        var i :| 0 <= i < |anchors[1..]| && anchors[1..][i].hasHref && anchors[1..][i].text == t && PatternMatches(t);
        assert anchors[i + 1] == anchors[1..][i];
      }
      if exists i :: 0 <= i < |anchors| && anchors[i].hasHref && anchors[i].text == t && PatternMatches(t) {
        var i :| 0 <= i < |anchors| && anchors[i].hasHref && anchors[i].text == t && PatternMatches(t);
        if i > 0 {
          assert anchors[1..][i - 1] == anchors[i];
        }
      }
    }
  }

  /** An anchor without an `href` never contributes: removing it changes nothing. */
  lemma HrefLessAnchorIgnored(before: seq<Anchor>, a: Anchor, after: seq<Anchor>)
    requires !a.hasHref
    ensures TitlesOf(before + [a] + after) == TitlesOf(before + after)
  {
    TitlesOfConcat(before + [a], after);
    TitlesOfConcat(before, [a]);
    TitlesOfConcat(before, after);
    assert TitlesOf([a]) == [] + TitlesOf([]);
  }

  /** The routine: an empty or absent document raises `ValueError` before the
      parser is consulted; otherwise the titles of the parsed anchors. */
  function ExtractData(content: Content, anchorsOf: string -> seq<Anchor>): (r: Extraction)
    ensures r.ValueError? <==> content == Absent || content == Markup("")
    ensures r.ValueError? ==> r.message == EmptyContentMessage
    ensures r.Titles? ==> |r.titles| <= |anchorsOf(content.markup)|
  {
    match content
    case Absent => ValueError(EmptyContentMessage)
    case Markup(markup) =>
      if markup == "" then ValueError(EmptyContentMessage) else Titles(TitlesOf(anchorsOf(markup)))
  }

  /** The result does not depend on the parser when the content is rejected, and
      otherwise holds exactly the matching titles of anchors with an `href`, in
      document order and with one entry per such anchor. */
  lemma ExtractDataTitles(content: Content, anchorsOf: string -> seq<Anchor>, other: string -> seq<Anchor>, t: string)
    ensures content == Absent || content == Markup("") ==> ExtractData(content, anchorsOf) == ExtractData(content, other)
    ensures ExtractData(content, anchorsOf).Titles? ==>
      var anchors := anchorsOf(content.markup);
      (t in ExtractData(content, anchorsOf).titles <==>
       exists i :: 0 <= i < |anchors| && anchors[i].hasHref && anchors[i].text == t && PatternMatches(t))
    ensures ExtractData(content, anchorsOf).Titles? ==>
      exists picked :: SelectsKept(anchorsOf(content.markup), ExtractData(content, anchorsOf).titles, picked)
  {
    if content.Markup? {
      TitlesOfMembership(anchorsOf(content.markup), t);
      TitlesOfSelects(anchorsOf(content.markup));
    }
  }

  /** Extending the scanned prefix by one anchor appends at most its title. */
  lemma TitlesOfPrefix(anchors: seq<Anchor>, n: nat)
    requires n < |anchors|
    ensures TitlesOf(anchors[..n + 1])
         == TitlesOf(anchors[..n]) + (if Kept(anchors[n]) then [anchors[n].text] else [])
  {
    TitlesOfConcat(anchors[..n], [anchors[n]]);
    assert anchors[..n + 1] == anchors[..n] + [anchors[n]];
    assert TitlesOf([anchors[n]]) == (if Kept(anchors[n]) then [anchors[n].text] else []) + TitlesOf([]);
  }

  // ---------------------------------------------------------------------------
  // The loop as written
  // ---------------------------------------------------------------------------

  /** `titles` is the text of the anchors at positions `picked`, which are
      strictly increasing and are exactly the positions of the kept anchors
      among the first `n`. */
  ghost predicate SelectsKeptUpTo(anchors: seq<Anchor>, n: nat, titles: seq<string>, picked: seq<nat>)
    requires n <= |anchors|
  {
    && |picked| == |titles|
    && (forall k :: 0 <= k < |picked| ==>
          picked[k] < n && Kept(anchors[picked[k]]) && titles[k] == anchors[picked[k]].text)
    && (forall k, l :: 0 <= k < l < |picked| ==> picked[k] < picked[l])
    && (forall i :: 0 <= i < n && Kept(anchors[i]) ==> i in picked)
  }

  /** The selection of kept anchors over the whole document. */
  ghost predicate SelectsKept(anchors: seq<Anchor>, titles: seq<string>, picked: seq<nat>) {
    SelectsKeptUpTo(anchors, |anchors|, titles, picked)
  }

  /** One more iteration of the loop keeps the selection exact. */
  lemma SelectsKeptStep(anchors: seq<Anchor>, n: nat, titles: seq<string>, picked: seq<nat>)
    requires n < |anchors|
    requires SelectsKeptUpTo(anchors, n, titles, picked)
    ensures Kept(anchors[n]) ==>
      SelectsKeptUpTo(anchors, n + 1, titles + [anchors[n].text], picked + [n])
    ensures !Kept(anchors[n]) ==> SelectsKeptUpTo(anchors, n + 1, titles, picked)
  {
  }

  /** The positions of the kept anchors among the first `n`, in order. */
  function KeptPositions(anchors: seq<Anchor>, n: nat): seq<nat>
    requires n <= |anchors|
  {
    if n == 0 then []
    else KeptPositions(anchors, n - 1) + (if Kept(anchors[n - 1]) then [n - 1] else [])
  }

  /** The filter over a prefix selects exactly the kept anchors of that prefix. */
  lemma {:induction false} TitlesOfSelectsUpTo(anchors: seq<Anchor>, n: nat)
    requires n <= |anchors|
    ensures SelectsKeptUpTo(anchors, n, TitlesOf(anchors[..n]), KeptPositions(anchors, n))
  {
    if n > 0 {
      var titles, picked := TitlesOf(anchors[..n - 1]), KeptPositions(anchors, n - 1);
      TitlesOfSelectsUpTo(anchors, n - 1);
      TitlesOfPrefix(anchors, n - 1);
      SelectsKeptStep(anchors, n - 1, titles, picked);
      if Kept(anchors[n - 1]) {
        assert TitlesOf(anchors[..n]) == titles + [anchors[n - 1].text];
        assert KeptPositions(anchors, n) == picked + [n - 1];
      } else {
        assert TitlesOf(anchors[..n]) == titles;
        assert KeptPositions(anchors, n) == picked;
      }
    }
  }

  /** The filter is an order-preserving selection: its titles are the texts of
      the kept anchors, taken at strictly increasing positions, none skipped. */
  lemma TitlesOfSelects(anchors: seq<Anchor>)
    ensures exists picked :: SelectsKept(anchors, TitlesOf(anchors), picked)
  {
    TitlesOfSelectsUpTo(anchors, |anchors|);
    assert anchors[..|anchors|] == anchors;
    assert SelectsKept(anchors, TitlesOf(anchors), KeptPositions(anchors, |anchors|));
  }

  /** The `for link in ...` loop, appending one title per kept anchor. Besides
      the titles it returns the positions of the anchors they came from, which
      witness that the result is an order-preserving selection of the anchors. */
  method CollectTitles(anchors: seq<Anchor>) returns (titles: seq<string>, picked: seq<nat>)
    ensures titles == TitlesOf(anchors)
    ensures SelectsKept(anchors, titles, picked)
  {
    titles, picked := [], [];
    var n := 0;
    while n < |anchors|
      invariant n <= |anchors|
      invariant titles == TitlesOf(anchors[..n])
      invariant SelectsKeptUpTo(anchors, n, titles, picked)
    {
      TitlesOfPrefix(anchors, n);
      SelectsKeptStep(anchors, n, titles, picked);
      if Kept(anchors[n]) {
        titles := titles + [anchors[n].text];
        picked := picked + [n];
      }
      n := n + 1;
    }
    assert anchors[..n] == anchors;
  }
}
