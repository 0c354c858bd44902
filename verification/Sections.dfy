/** The delimited section of a text: where its markers are, and what replacing it does. */
module Sections {
  import opened Outcomes
  import opened Text

  const SECTION_START := "# BEGIN PYMESH DNS"
  const SECTION_END := "# END PYMESH DNS"

  /** The word stands at position `i` of the text. */
  predicate At(text: string, word: string, i: int) {
    0 <= i && i + |word| <= |text| && text[i..i + |word|] == word
  }

  /** First position at or after `from`, if any. */
  function Find(text: string, word: string, from: nat): (r: Option<nat>)
    ensures r.Some? ==> from <= r.value && At(text, word, r.value)
    ensures r.Some? ==> forall i :: from <= i < r.value ==> !At(text, word, i)
    ensures r.None? ==> forall i :: from <= i ==> !At(text, word, i)
    decreases |text| - from
  {
    if from > |text| then None
    else if At(text, word, from) then Some(from)
    else if from == |text| then None
    else Find(text, word, from + 1)
  }

  predicate Contains(text: string, word: string) {
    Find(text, word, 0).Some?
  }

  datatype Match = Match(start: nat, end: nat)

  /** One leftmost match of START .*? END \n? (dot matching newlines) at or after `from`. */
  function Search(text: string, from: nat): (r: Option<Match>)
    ensures r.Some? ==> from <= r.value.start < r.value.end <= |text|
  {
    match Find(text, SECTION_START, from)
    case None => None
    case Some(s) =>
      match Find(text, SECTION_END, s + |SECTION_START|)
      case None => None
      case Some(e) =>
        Some(Match(s, OverNewline(text, e + |SECTION_END|)))
  }

  /** The optional newline after the end marker. */
  function OverNewline(text: string, i: nat): (r: nat)
    ensures i <= r <= i + 1
    ensures i <= |text| ==> r <= |text|
  {
    if i < |text| && text[i] == '\n' then i + 1 else i
  }

  /** The pattern matches at `s`, its end marker standing at `e`. */
  ghost predicate Matches(text: string, s: nat, e: nat) {
    s + |SECTION_START| <= e && At(text, SECTION_START, s) && At(text, SECTION_END, e)
  }

  /** `Search` is the leftmost match of the pattern, and non-greedy: its end marker is the first one. */
  lemma SearchIsLeftmostShortest(text: string, from: nat)
    ensures match Search(text, from)
            case None => forall s: nat, e: nat :: from <= s ==> !Matches(text, s, e)
            case Some(m) => exists e: nat ::
              && Matches(text, m.start, e) && m.end == OverNewline(text, e + |SECTION_END|)
              && (forall e': nat :: e' < e ==> !Matches(text, m.start, e'))
              && (forall s: nat, e': nat :: from <= s < m.start ==> !Matches(text, s, e'))
  {
    match Find(text, SECTION_START, from)
    case None =>
    case Some(s) =>
      match Find(text, SECTION_END, s + |SECTION_START|)
      case None =>
      case Some(e) => assert Matches(text, s, e);
  }

  /** What lies between the matches, from `from` on: one piece more than there are matches. */
  function Gaps(text: string, from: nat): (r: seq<string>)
    requires from <= |text|
    ensures |r| >= 1
    decreases |text| - from
  {
    match Search(text, from)
    case None => [text[from..]]
    case Some(m) => [text[from..m.start]] + Gaps(text, m.end)
  }

  /** Every match replaced by what the replacement template makes of it. */
  function Replaced(text: string, from: nat, expand: string -> string): string
    requires from <= |text|
    decreases |text| - from
  {
    match Search(text, from)
    case None => text[from..]
    case Some(m) => text[from..m.start] + expand(text[m.start..m.end]) + Replaced(text, m.end, expand)
  }

  /** A template that ignores its match puts one text into all the gaps. */
  lemma {:induction false} LiteralReplacement(text: string, from: nat, expand: string -> string, replacement: string)
    requires from <= |text| && forall m :: expand(m) == replacement
    ensures Replaced(text, from, expand) == Join(Gaps(text, from), replacement)
    decreases |text| - from
  {
    hide Search;
    var m := Search(text, from);
    if m.Some? {
      LiteralReplacement(text, m.value.end, expand, replacement);
      assert Gaps(text, from)[1..] == Gaps(text, m.value.end);
    }
  }

  /** A template that gives every match back changes nothing: gaps and matches make up the text. */
  lemma {:induction false} IdentityReplacement(text: string, from: nat, expand: string -> string)
    requires from <= |text| && forall m :: expand(m) == m
    ensures Replaced(text, from, expand) == text[from..]
    decreases |text| - from
  {
    hide Search;
    var m := Search(text, from);
    if m.Some? {
      IdentityReplacement(text, m.value.end, expand);
    }
  }

  lemma ReplacedStep(text: string, from: nat, expand: string -> string)
    requires from <= |text|
    ensures match Search(text, from)
            case None => Replaced(text, from, expand) == text[from..]
            case Some(m) =>
              Replaced(text, from, expand) ==
              text[from..m.start] + expand(text[m.start..m.end]) + Replaced(text, m.end, expand)
  {
    hide Search;
  }

  /** `re.sub(pattern, template, text)`, the template already compiled. */
  method Substitute(text: string, expand: string -> string) returns (r: string)
    ensures r == Replaced(text, 0, expand)
  {
    hide Search, Replaced;
    r := "";
    var from := 0;
    var m := Search(text, from);
    while m.Some?
      invariant from <= |text| && m == Search(text, from)
      invariant r + Replaced(text, from, expand) == Replaced(text, 0, expand)
      decreases |text| - from
    {
      ReplacedStep(text, from, expand);
      r := r + text[from..m.value.start] + expand(text[m.value.start..m.value.end]);
      from := m.value.end;
      m := Search(text, from);
    }
    ReplacedStep(text, from, expand);
    r := r + text[from..];
  }

  // ----- Blocks, and texts with blocks in them

  /** A generated block: one section, whose markers stand at its two ends only. */
  ghost predicate IsBlock(b: string) {
    && |b| > |SECTION_START| + |SECTION_END|
    && At(b, SECTION_START, 0)
    && At(b, SECTION_END, |b| - |SECTION_END| - 1)
    && b[|b| - 1] == '\n'
    && (forall i :: i != 0 ==> !At(b, SECTION_START, i))
    && (forall i :: i != |b| - |SECTION_END| - 1 ==> !At(b, SECTION_END, i))
  }

  // A marker starts with its only '#'.
  lemma MarkersStartWithHash(marker: string, k: nat)
    requires marker == SECTION_START || marker == SECTION_END
    requires k < |marker|
    ensures marker[k] == '#' <==> k == 0
    ensures marker[k] != '\n'
  {
  }

  lemma AtReads(text: string, word: string, i: int, k: nat)
    requires At(text, word, i) && k < |word|
    ensures text[i + k] == word[k]
  {
    assert text[i..i + |word|][k] == word[k];
  }

  lemma AtInside(pre: string, mid: string, post: string, word: string, i: nat)
    requires i + |word| <= |mid|
    ensures At(pre + mid + post, word, |pre| + i) <==> At(mid, word, i)
  {
    assert (pre + mid + post)[|pre| + i..|pre| + i + |word|] == mid[i..i + |word|];
  }

  // No marker reaches across the start of a block.
  lemma NoMarkerAcross(text: string, marker: string, i: nat, p: nat)
    requires marker == SECTION_START || marker == SECTION_END
    requires p < |text| && text[p] == '#' && i < p < i + |marker|
    ensures !At(text, marker, i)
  {
    if At(text, marker, i) {
      AtReads(text, marker, i, p - i);
      MarkersStartWithHash(marker, p - i);
      assert false;
    }
  }

  lemma FindIs(text: string, word: string, from: nat, at: nat)
    requires from <= at && At(text, word, at)
    requires forall i :: from <= i < at ==> !At(text, word, i)
    ensures Find(text, word, from) == Some(at)
  {
  }

  lemma BlockStartsWithHash(b: string)
    requires IsBlock(b)
    ensures b[0] == '#'
  {
    AtReads(b, SECTION_START, 0, 0);
    MarkersStartWithHash(SECTION_START, 0);
  }

  lemma StartFoundAtBlock(pre: string, gap: string, b: string, rest: string)
    requires IsBlock(b) && !Contains(gap, SECTION_START)
    ensures Find(pre + gap + b + rest, SECTION_START, |pre|) == Some(|pre + gap|)
  {
    hide At, Find, SECTION_START, SECTION_END;
    var text := pre + gap + b + rest;
    var p := |pre + gap|;
    BlockStartsWithHash(b);
    assert text[p] == '#';
    AtInside(pre + gap, b, rest, SECTION_START, 0);
    forall i: nat | |pre| <= i < p ensures !At(text, SECTION_START, i) {
      if i + |SECTION_START| <= p {
        assert text == pre + gap + (b + rest);
        AtInside(pre, gap, b + rest, SECTION_START, i - |pre|);
      } else {
        NoMarkerAcross(text, SECTION_START, i, p);
      }
    }
    FindIs(text, SECTION_START, |pre|, p);
  }

  // From anywhere in or before a block, if no end marker comes earlier, the block's own one is next.
  lemma EndFoundInBlock(pre: string, b: string, rest: string, from: nat)
    requires IsBlock(b) && from <= |pre| + |b| - |SECTION_END| - 1
    requires forall i: nat :: from <= i && i + |SECTION_END| <= |pre| ==> !At(pre, SECTION_END, i)
    ensures Find(pre + b + rest, SECTION_END, from) == Some(|pre| + |b| - |SECTION_END| - 1)
  {
    hide At, Find, SECTION_START, SECTION_END;
    var text := pre + b + rest;
    var p := |pre|;
    var e := p + |b| - |SECTION_END| - 1;
    BlockStartsWithHash(b);
    assert text[p] == '#';
    AtInside(pre, b, rest, SECTION_END, e - p);
    forall i: nat | from <= i < e ensures !At(text, SECTION_END, i) {
      if i + |SECTION_END| <= p {
        assert text == [] + pre + (b + rest);
        AtInside([], pre, b + rest, SECTION_END, i);
      } else if i < p {
        NoMarkerAcross(text, SECTION_END, i, p);
      } else {
        AtInside(pre, b, rest, SECTION_END, i - p);
      }
    }
    FindIs(text, SECTION_END, from, e);
  }

  lemma SearchFindsBlock(pre: string, gap: string, b: string, rest: string)
    requires IsBlock(b) && !Contains(gap, SECTION_START)
    ensures Search(pre + gap + b + rest, |pre|) == Some(Match(|pre + gap|, |pre + gap + b|))
  {
    hide At, Find, Contains;
    var p := |pre + gap|;
    StartFoundAtBlock(pre, gap, b, rest);
    EndFoundInBlock(pre + gap, b, rest, p + |SECTION_START|);
    assert (pre + gap + b + rest)[p + |b| - 1] == b[|b| - 1];
  }

  /** What a scan leaves: pieces before a match hold no start marker, the last piece no match. */
  ghost predicate Separated(pieces: seq<string>) {
    && |pieces| >= 1
    && (forall i :: 0 <= i < |pieces| - 1 ==> !Contains(pieces[i], SECTION_START))
    && Search(pieces[|pieces| - 1], 0) == None
  }

  lemma AtShifts(pre: string, text: string, word: string, i: nat)
    ensures At(pre + text, word, |pre| + i) <==> At(text, word, i)
  {
    if i + |word| <= |text| {
      assert pre + text == pre + text + [];
      AtInside(pre, text, [], word, i);
    }
  }

  lemma {:induction false} FindShifts(pre: string, text: string, word: string, from: nat)
    ensures Find(pre + text, word, |pre| + from) ==
            match Find(text, word, from) case None => None case Some(i) => Some(|pre| + i)
    decreases |text| - from
  {
    hide At;
    AtShifts(pre, text, word, from);
    if from < |text| && !At(text, word, from) {
      FindShifts(pre, text, word, from + 1);
      assert Find(pre + text, word, |pre| + from) == Find(pre + text, word, |pre| + from + 1);
    }
  }

  lemma SearchShifts(pre: string, text: string, from: nat)
    ensures Search(pre + text, |pre| + from) ==
            match Search(text, from) case None => None case Some(m) => Some(Match(|pre| + m.start, |pre| + m.end))
  {
    hide At, Find;
    FindShifts(pre, text, SECTION_START, from);
    var start := Find(text, SECTION_START, from);
    if start.Some? {
      var after := start.value + |SECTION_START|;
      assert |pre| + after == |pre| + start.value + |SECTION_START|;
      FindShifts(pre, text, SECTION_END, after);
      var end := Find(text, SECTION_END, after);
      if end.Some? {
        assert OverNewline(pre + text, |pre| + (end.value + |SECTION_END|))
            == |pre| + OverNewline(text, end.value + |SECTION_END|);
        assert |pre| + (end.value + |SECTION_END|) == |pre| + end.value + |SECTION_END|;
      }
    }
  }

  lemma GapHasNoStart(text: string, from: nat, m: Match)
    requires from <= |text| && Search(text, from) == Some(m)
    ensures !Contains(text[from..m.start], SECTION_START)
  {
    var gap := text[from..m.start];
    match Find(gap, SECTION_START, 0)
    case None =>
    case Some(i) =>
      assert text == text[..from] + gap + text[m.start..];
      AtInside(text[..from], gap, text[m.start..], SECTION_START, i);
  }

  lemma {:induction false} GapsAreSeparated(text: string, from: nat)
    requires from <= |text|
    ensures Separated(Gaps(text, from))
    decreases |text| - from
  {
    hide At, Find, Contains;
    match Search(text, from)
    case None =>
      assert text[..from] + text[from..] == text;
      SearchShifts(text[..from], text[from..], 0);
    case Some(m) =>
      GapsAreSeparated(text, m.end);
      GapHasNoStart(text, from, m);
  }

  /** Scanning a text made of separated pieces and blocks gives the pieces back. */
  lemma {:induction false} GapsOfJoin(pre: string, pieces: seq<string>, b: string)
    requires IsBlock(b) && Separated(pieces)
    ensures Gaps(pre + Join(pieces, b), |pre|) == pieces
    decreases |pieces|
  {
    hide At, Find, Contains;
    var text := pre + Join(pieces, b);
    if |pieces| == 1 {
      SearchShifts(pre, pieces[0], 0);
      assert text[|pre|..] == pieces[0];
    } else {
      var tail := Join(pieces[1..], b);
      var pre' := pre + pieces[0] + b;
      assert text == pre' + tail;
      SearchFindsBlock(pre, pieces[0], b, tail);
      assert text[|pre|..|pre + pieces[0]|] == pieces[0];
      GapsOfJoin(pre', pieces[1..], b);
    }
  }

  /** Pieces with a block of its own between any two of them. */
  function Woven(pieces: seq<string>, blocks: seq<string>): string
    requires |pieces| == |blocks| + 1
  {
    if blocks == [] then pieces[0] else pieces[0] + blocks[0] + Woven(pieces[1..], blocks[1..])
  }

  /** The same whatever blocks stand between the pieces. */
  lemma {:induction false} GapsOfWoven(pre: string, pieces: seq<string>, blocks: seq<string>)
    requires |pieces| == |blocks| + 1 && Separated(pieces) && forall b :: b in blocks ==> IsBlock(b)
    ensures Gaps(pre + Woven(pieces, blocks), |pre|) == pieces
    decreases |pieces|
  {
    hide At, Find, Contains, IsBlock;
    var text := pre + Woven(pieces, blocks);
    if blocks == [] {
      SearchShifts(pre, pieces[0], 0);
      assert text[|pre|..] == pieces[0];
    } else {
      var tail := Woven(pieces[1..], blocks[1..]);
      var pre' := pre + pieces[0] + blocks[0];
      assert text == pre' + tail;
      assert blocks[0] in blocks;
      SearchFindsBlock(pre, pieces[0], blocks[0], tail);
      assert text[|pre|..|pre + pieces[0]|] == pieces[0];
      GapsOfWoven(pre', pieces[1..], blocks[1..]);
    }
  }

  /** Substituting twice is substituting the second time. */
  lemma SubstituteTwice(text: string, b1: string, b2: string)
    requires IsBlock(b1)
    ensures Join(Gaps(Join(Gaps(text, 0), b1), 0), b2) == Join(Gaps(text, 0), b2)
  {
    GapsAreSeparated(text, 0);
    GapsOfJoin([], Gaps(text, 0), b1);
    assert [] + Join(Gaps(text, 0), b1) == Join(Gaps(text, 0), b1);
  }
}
