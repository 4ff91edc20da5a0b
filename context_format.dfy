/** The context block handed to the model: the retrieved texts joined, in
    retrieval order, by a blank line ("\n\n"). */
module ContextFormat {
  import opened Documents

  /** The separator `format_docs` puts between two passages. */
  const Separator: string := "\n\n"

  /** Python's `Separator.join(parts)`: every passage, with one separator between neighbours. */
  function Join(parts: seq<string>): (r: string)
    ensures |parts| >= 1 ==> |r| == TotalLength(parts) + |Separator| * (|parts| - 1)
  {
    if parts == [] then ""
    else if |parts| == 1 then parts[0]
    else parts[0] + Separator + Join(parts[1..])
  }

  /** `format_docs(docs)`: the page contents of the documents, joined. No
      documents give the empty context; one document's text passes through unchanged. */
  function FormatDocs(docs: seq<Document>): (r: string)
    ensures docs == [] ==> r == ""
    ensures |docs| == 1 ==> r == docs[0].pageContent
  {
    Join(Contents(docs))
  }

  /** Python's `s.split(Separator)`: cut at each leftmost, non-overlapping occurrence. */
  function Split(s: string): (r: seq<string>)
    ensures |r| >= 1
    decreases |s|
  {
    if |s| < 2 then [s]
    else if s[0] == '\n' && s[1] == '\n' then [""] + Split(s[2..])
    else
      var t := Split(s[1..]);
      [[s[0]] + t[0]] + t[1..]
  }

  /** `Separator in s`. */
  predicate ContainsSeparator(s: string)
  {
    exists i :: 0 <= i < |s| - 1 && s[i] == '\n' && s[i + 1] == '\n'
  }

  predicate EndsWithNewline(s: string)
  {
    |s| > 0 && s[|s| - 1] == '\n'
  }

  function TotalLength(parts: seq<string>): nat
  {
    if parts == [] then 0 else |parts[0]| + TotalLength(parts[1..])
  }

  /** Where the `i`-th passage starts in the joined text: after every earlier
      passage and its separator. */
  function Offset(parts: seq<string>, i: nat): nat
    requires i <= |parts|
  {
    if i == 0 then 0 else Offset(parts, i - 1) + |parts[i - 1]| + |Separator|
  }

  /** Offsets in `parts` are offsets in its tail shifted by the first passage and a separator. */
  lemma {:induction false} OffsetShift(parts: seq<string>, i: nat)
    requires 0 < i <= |parts|
    ensures Offset(parts, i) == |parts[0]| + |Separator| + Offset(parts[1..], i - 1)
  {
    if i > 1 {
      OffsetShift(parts, i - 1);
    }
  }

  /** The join of two or more passages: the first, a separator, then the join of the rest. */
  lemma JoinHead(parts: seq<string>)
    requires |parts| > 1
    ensures var lead := |parts[0]| + |Separator|;
      && |Join(parts)| == lead + |Join(parts[1..])|
      && Join(parts)[..|parts[0]|] == parts[0]
      && Join(parts)[|parts[0]|..lead] == Separator
      && Join(parts)[lead..] == Join(parts[1..])
  {
  }

  /** Passage `i` sits, unchanged, at `Offset(parts, i)` of the joined text. */
  lemma {:induction false} JoinKeepsPassage(parts: seq<string>, i: nat)
    requires i < |parts|
    ensures Offset(parts, i) + |parts[i]| <= |Join(parts)|
    ensures Join(parts)[Offset(parts, i)..Offset(parts, i) + |parts[i]|] == parts[i]
  {
    if |parts| > 1 {
      JoinHead(parts);
      if i > 0 {
        var rest := parts[1..];
        JoinKeepsPassage(rest, i - 1);
        OffsetShift(parts, i);
        var at := Offset(rest, i - 1);
        SliceWithin(Join(parts), Join(rest), |parts[0]| + |Separator|, at, at + |rest[i - 1]|);
      }
    }
  }

  /** Between passage `i` and passage `i + 1` there is exactly one separator. */
  lemma {:induction false} JoinSeparatesNeighbours(parts: seq<string>, i: nat)
    requires i + 1 < |parts|
    ensures Offset(parts, i + 1) <= |Join(parts)|
    ensures Join(parts)[Offset(parts, i) + |parts[i]|..Offset(parts, i + 1)] == Separator
  {
    JoinHead(parts);
    if i > 0 {
      var rest := parts[1..];
      JoinSeparatesNeighbours(rest, i - 1);
      OffsetShift(parts, i);
      OffsetShift(parts, i + 1);
      SliceWithin(Join(parts), Join(rest), |parts[0]| + |Separator|, Offset(rest, i - 1) + |rest[i - 1]|, Offset(rest, i));
    }
  }

  /** A slice of a text found at `start` inside `p` is found at the shifted position. */
  lemma SliceWithin(p: string, c: string, start: nat, x: nat, y: nat)
    requires start + |c| <= |p| && p[start..start + |c|] == c
    requires x <= y <= |c|
    ensures p[start + x..start + y] == c[x..y]
  {
    assert forall k :: x <= k < y ==> p[start + k] == c[k];
  }

  /** Dropping the first character of a separator-free text keeps it separator-free. */
  lemma SeparatorFreeSuffix(s: string)
    requires |s| > 0 && !ContainsSeparator(s)
    ensures !ContainsSeparator(s[1..])
    ensures |s| >= 2 ==> !(s[0] == '\n' && s[1] == '\n')
  {
    forall i | 0 <= i < |s[1..]| - 1
      ensures !(s[1..][i] == '\n' && s[1..][i + 1] == '\n')
    {
      assert s[1..][i] == s[i + 1] && s[1..][i + 1] == s[i + 2];
    }
  }

  /** Splitting a text with no separator in it gives the text back as one piece. */
  lemma {:induction false} SplitWithoutSeparator(s: string)
    requires !ContainsSeparator(s)
    ensures Split(s) == [s]
    decreases |s|
  {
    if |s| >= 2 {
      SeparatorFreeSuffix(s);
      SplitWithoutSeparator(s[1..]);
      assert s == [s[0]] + s[1..];
    }
  }

  /** A separator after a passage that neither contains one nor ends in a newline
      is the first cut `Split` makes. */
  lemma {:induction false} SplitAfterPassage(p: string, rest: string)
    requires !ContainsSeparator(p) && !EndsWithNewline(p)
    ensures Split(p + Separator + rest) == [p] + Split(rest)
    decreases |p|
  {
    var s := p + Separator + rest;
    if p == [] {
      assert s == Separator + rest;
      assert s[2..] == rest;
    } else {
      var q := p[1..];
      assert s[0] == p[0];
      assert |q| > 0 ==> s[1] == p[1];
      SeparatorFreeSuffix(p);
      assert |q| > 0 ==> q[|q| - 1] == p[|p| - 1];
      SplitAfterPassage(q, rest);
      assert s[1..] == q + Separator + rest;
      assert p == [p[0]] + q;
    }
  }

  /** Splitting the context on the separator recovers the passages in retrieval
      order, provided there is at least one, none contains a separator, and none
      but the last ends in a newline. */
  lemma {:induction false} SplitJoinRoundTrip(parts: seq<string>)
    requires |parts| >= 1
    requires forall i :: 0 <= i < |parts| ==> !ContainsSeparator(parts[i])
    requires forall i :: 0 <= i < |parts| - 1 ==> !EndsWithNewline(parts[i])
    ensures Split(Join(parts)) == parts
  {
    if |parts| == 1 {
      SplitWithoutSeparator(parts[0]);
    } else {
      SplitAfterPassage(parts[0], Join(parts[1..]));
      SplitJoinRoundTrip(parts[1..]);
    }
  }

  /** The newline condition is needed: a passage ending in a newline makes the
      join ambiguous, so no split can recover both lists below. */
  lemma JoinAmbiguousAfterTrailingNewline()
    ensures Join(["a\n", "b"]) == Join(["a", "\nb"])
    ensures Split(Join(["a\n", "b"])) == ["a", "\nb"]
  {
    assert Join(["a\n", "b"]) == "a\n\n\nb";
    assert "a\n\n\nb"[1..] == "\n\n\nb";
    assert "\n\n\nb"[2..] == "\nb";
    assert "\nb"[1..] == "b";
    assert Split("b") == ["b"];
    assert ['\n'] + "b" == "\nb";
    assert Split("\nb") == ["\nb"];
    assert Split("\n\n\nb") == ["", "\nb"];
    assert ['a'] + "" == "a";
  }

  /** `format_docs` round trip: with passages free of separators and trailing
      newlines, splitting the context gives back each document's text in order. */
  lemma FormatDocsRoundTrip(docs: seq<Document>)
    requires |docs| >= 1
    requires forall i :: 0 <= i < |docs| ==> !ContainsSeparator(docs[i].pageContent)
    requires forall i :: 0 <= i < |docs| - 1 ==> !EndsWithNewline(docs[i].pageContent)
    ensures |Split(FormatDocs(docs))| == |docs|
    ensures forall i :: 0 <= i < |docs| ==> Split(FormatDocs(docs))[i] == docs[i].pageContent
  {
    SplitJoinRoundTrip(Contents(docs));
  }
}
