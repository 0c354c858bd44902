/** The hosts file: rewriting its PyMesh section on every sync, removing it on shutdown. */
module Hosts {
  import opened Outcomes
  import opened Sections
  import opened Text

  /** The characters `str.rstrip` strips. */
  predicate IsSpace(c: char) {
    var n := c as int;
    || 9 <= n <= 13 || 28 <= n <= 32 || n == 0x85 || n == 0xa0 || n == 0x1680
    || 0x2000 <= n <= 0x200a || n == 0x2028 || n == 0x2029 || n == 0x202f || n == 0x205f || n == 0x3000
  }

  function RStrip(text: string): (r: string)
    ensures r <= text
    ensures r != [] ==> !IsSpace(r[|r| - 1])
    ensures forall i :: |r| <= i < |text| ==> IsSpace(text[i])
  {
    if text != [] && IsSpace(text[|text| - 1]) then RStrip(text[..|text| - 1]) else text
  }

  predicate HasBothMarkers(text: string) {
    Contains(text, SECTION_START) && Contains(text, SECTION_END)
  }

  /** What a sync makes of the file's text. */
  function Synced(text: string, block: string): string {
    if HasBothMarkers(text) then Join(Gaps(text, 0), block)
    else RStrip(text) + "\n\n" + block
  }

  /** What a shutdown makes of the file's text. */
  function Removed(text: string): string {
    if HasBothMarkers(text) then Join(Gaps(text, 0), "") else text
  }

  /** How the regular-expression library compiles a replacement template: it raises, or gives the
      text that replaces each match. */
  type TemplateCompiler = string -> Option<string -> string>

  /** A template without backslashes stands for itself. */
  ghost predicate CompilesPlainText(compile: TemplateCompiler) {
    forall template :: '\\' !in template ==>
      compile(template).Some? && forall m :: compile(template).value(m) == template
  }

  /** What a sync makes of the file's text when the block is a template; none if it does not compile. */
  function Rewritten(compile: TemplateCompiler, text: string, block: string): Option<string> {
    if HasBothMarkers(text) then
      match compile(block)
      case None => None
      case Some(expand) => Some(Replaced(text, 0, expand))
    else
      Some(RStrip(text) + "\n\n" + block)
  }

  /** Where no template is used, or the block has no backslash in it, the block goes in as it is. */
  lemma PlainBlockIsSynced(compile: TemplateCompiler, text: string, block: string)
    requires CompilesPlainText(compile)
    requires '\\' !in block || !HasBothMarkers(text)
    ensures Rewritten(compile, text, block) == Some(Synced(text, block))
  {
    hide HasBothMarkers, Replaced, Gaps, RStrip, Join;
    if HasBothMarkers(text) {
      LiteralReplacement(text, 0, compile(block).value, block);
    }
  }

  class HostsFile {
    var content: Option<string>
    var writable: bool

    /** The rewriting half of `sync_hosts_file`. */
    method Sync(compile: TemplateCompiler, block: string) returns (ok: bool)
      modifies this`content
      ensures ok == (old(content).Some? && writable && Rewritten(compile, old(content).value, block).Some?)
      ensures content == if ok then Rewritten(compile, old(content).value, block) else old(content)
    {
      if content.None? {
        return false;
      }
      var text := content.value;
      var updated;
      if HasBothMarkers(text) {
        var template := compile(block);
        if template.None? {
          return false;
        }
        updated := Substitute(text, template.value);
      } else {
        updated := RStrip(text) + "\n\n" + block;
      }
      if !writable {
        return false;
      }
      content := Some(updated);
      return true;
    }

    method Remove() returns (ok: bool)
      modifies this`content
      ensures ok == (old(content).Some? && (writable || !HasBothMarkers(old(content).value)))
      ensures content == if ok then Some(Removed(old(content).value)) else old(content)
    {
      if content.None? {
        return false;
      }
      if HasBothMarkers(content.value) {
        if !writable {
          return false;
        }
        var nothing := (m: string) => "";
        var updated := Substitute(content.value, nothing);
        LiteralReplacement(content.value, 0, nothing, "");
        content := Some(updated);
      }
      return true;
    }
  }

  // ----- Where markers can be after a sync

  lemma ContainsIff(text: string, word: string)
    ensures Contains(text, word) <==> exists i: nat :: At(text, word, i)
  {
  }

  lemma ContainsPart(pre: string, mid: string, post: string, word: string)
    requires Contains(mid, word)
    ensures Contains(pre + mid + post, word)
  {
    var i := Find(mid, word, 0).value;
    AtInside(pre, mid, post, word, i);
  }

  lemma MarkersEndInLetters()
    ensures !IsSpace(SECTION_START[|SECTION_START| - 1]) && !IsSpace(SECTION_END[|SECTION_END| - 1])
  {
  }

  lemma AtInFront(lead: string, more: string, word: string, i: nat)
    requires i + |word| <= |lead|
    ensures At(lead + more, word, i) <==> At(lead, word, i)
  {
    assert [] + lead + more == lead + more;
    AtInside([], lead, more, word, i);
  }

  lemma SamePlacesSameFind(a: string, b: string, word: string)
    requires forall i: nat :: At(a, word, i) <==> At(b, word, i)
    ensures Find(a, word, 0) == Find(b, word, 0)
  {
    hide At;
    match Find(b, word, 0) {
      case Some(i) => FindIs(a, word, 0, i);
      case None =>
    }
  }

  lemma StripKeepsMarkerAt(text: string, marker: string, i: nat)
    requires marker == SECTION_START || marker == SECTION_END
    ensures At(RStrip(text), marker, i) <==> At(text, marker, i)
  {
    hide RStrip;
    var r := RStrip(text);
    if i + |marker| <= |r| {
      assert text == r + text[|r|..];
      AtInFront(r, text[|r|..], marker, i);
    } else if At(text, marker, i) {
      AtReads(text, marker, i, |marker| - 1);
      MarkersEndInLetters();
      assert false;
    }
  }

  // Stripping trailing whitespace cuts no marker.
  lemma StripKeepsMarkers(text: string, marker: string)
    requires marker == SECTION_START || marker == SECTION_END
    ensures Find(RStrip(text), marker, 0) == Find(text, marker, 0)
  {
    hide RStrip, At, Find, SECTION_START, SECTION_END;
    forall i: nat ensures At(RStrip(text), marker, i) <==> At(text, marker, i) {
      StripKeepsMarkerAt(text, marker, i);
    }
    SamePlacesSameFind(RStrip(text), text, marker);
  }

  lemma BlankLinesKeepMarkerAt(r: string, marker: string, i: nat)
    requires marker == SECTION_START || marker == SECTION_END
    ensures At(r + "\n\n", marker, i) <==> At(r, marker, i)
  {
    var text := r + "\n\n";
    if i + |marker| <= |r| {
      AtInFront(r, "\n\n", marker, i);
    } else if At(text, marker, i) {
      var k := if i < |r| then |r| - i else 0;
      AtReads(text, marker, i, k);
      MarkersStartWithHash(marker, k);
      assert false;
    }
  }

  // The blank lines put before an appended block complete no marker.
  lemma BlankLinesKeepMarkers(r: string, marker: string)
    requires marker == SECTION_START || marker == SECTION_END
    ensures Find(r + "\n\n", marker, 0) == Find(r, marker, 0)
  {
    hide At, Find, SECTION_START, SECTION_END;
    forall i: nat ensures At(r + "\n\n", marker, i) <==> At(r, marker, i) {
      BlankLinesKeepMarkerAt(r, marker, i);
    }
    SamePlacesSameFind(r + "\n\n", r, marker);
  }

  lemma LeadKeepsMarkers(text: string, marker: string)
    requires marker == SECTION_START || marker == SECTION_END
    ensures Find(RStrip(text) + "\n\n", marker, 0) == Find(text, marker, 0)
  {
    StripKeepsMarkers(text, marker);
    BlankLinesKeepMarkers(RStrip(text), marker);
  }

  lemma BlockHasBothMarkers(b: string)
    requires IsBlock(b)
    ensures HasBothMarkers(b)
  {
    ContainsIff(b, SECTION_START);
    ContainsIff(b, SECTION_END);
  }

  lemma PartHasBothMarkers(pre: string, b: string, post: string)
    requires IsBlock(b)
    ensures HasBothMarkers(pre + b + post)
  {
    BlockHasBothMarkers(b);
    ContainsPart(pre, b, post, SECTION_START);
    ContainsPart(pre, b, post, SECTION_END);
  }

  lemma SyncedHasBothMarkers(text: string, b: string)
    requires IsBlock(b)
    ensures HasBothMarkers(Synced(text, b))
  {
    hide Contains, At, Find, IsBlock, RStrip, Search;
    if !HasBothMarkers(text) {
      PartHasBothMarkers(RStrip(text) + "\n\n", b, []);
      assert RStrip(text) + "\n\n" + b + [] == RStrip(text) + "\n\n" + b;
    } else if |Gaps(text, 0)| > 1 {
      var gaps := Gaps(text, 0);
      PartHasBothMarkers(gaps[0], b, Join(gaps[1..], b));
    } else {
      OneGapIsAll(text);
    }
  }

  lemma OneGapIsAll(text: string)
    requires |Gaps(text, 0)| == 1
    ensures Gaps(text, 0) == [text]
  {
    assert text[0..] == text;
  }

  // ----- Last write wins

  // After an append the block is the one section, and everything before it the one gap.
  lemma AppendedGaps(text: string, b: string)
    requires IsBlock(b) && !Contains(text, SECTION_START)
    ensures Gaps(RStrip(text) + "\n\n" + b, 0) == [RStrip(text) + "\n\n", ""]
  {
    var lead := RStrip(text) + "\n\n";
    LeadKeepsMarkers(text, SECTION_START);
    assert Separated([lead, ""]);
    GapsOfJoin([], [lead, ""], b);
    assert [] + Join([lead, ""], b) == lead + b;
  }

  predicate StaleStart(text: string) {
    Contains(text, SECTION_START) && !Contains(text, SECTION_END)
  }

  lemma StartInside(text: string)
    requires Contains(text, SECTION_START)
    ensures Find(text, SECTION_START, 0).value < |text|
  {
  }

  lemma AtEnds(text: string, word: string, i: int)
    requires At(text, word, i)
    ensures 0 <= i <= i + |word| <= |text|
  {
  }

  lemma FirstFindStays(lead: string, more: string, word: string, s: nat)
    requires Find(lead, word, 0) == Some(s)
    ensures Find(lead + more, word, 0) == Some(s)
    ensures s + |word| <= |lead|
  {
    hide Find, At;
    AtEnds(lead, word, s);
    forall i: nat | i <= s ensures At(lead + more, word, i) <==> At(lead, word, i) {
      AtInFront(lead, more, word, i);
    }
    FindIs(lead + more, word, 0, s);
  }

  // A start marker without an end reaches to the end of the appended block.
  lemma StaleStartSearch(lead: string, b: string, s: nat)
    requires IsBlock(b) && Find(lead, SECTION_START, 0) == Some(s) && !Contains(lead, SECTION_END)
    ensures Search(lead + b, 0) == Some(Match(s, |lead + b|))
  {
    hide At, Find, Contains, SECTION_START, SECTION_END;
    FirstFindStays(lead, b, SECTION_START, s);
    StaleEnd(lead, b, s + |SECTION_START|);
    assert (lead + b)[|lead + b| - 1] == b[|b| - 1];
  }

  lemma StaleEnd(lead: string, b: string, from: nat)
    requires IsBlock(b) && from <= |lead| && !Contains(lead, SECTION_END)
    ensures Find(lead + b, SECTION_END, from) == Some(|lead + b| - |SECTION_END| - 1)
  {
    assert lead + b == lead + b + [];
    EndFoundInBlock(lead, b, [], from);
  }

  lemma NothingAfterTheEnd(text: string)
    ensures Search(text, |text|) == None
  {
  }

  lemma JoinTwo(first: string, last: string, glue: string)
    ensures Join([first, last], glue) == first + glue + last
  {
    assert [first, last][1..] == [last];
  }

  lemma CutAtMatch(whole: string, s: nat, b: string)
    requires Search(whole, 0) == Some(Match(s, |whole|))
    ensures Join(Gaps(whole, 0), b) == whole[..s] + b
  {
    hide Search;
    NothingAfterTheEnd(whole);
    assert whole[|whole|..] == "";
    assert Gaps(whole, |whole|) == [""];
    assert Gaps(whole, 0) == [whole[0..s], ""];
    JoinTwo(whole[0..s], "", b);
  }

  lemma SamePrefix(text: string, r: string, more: string, s: nat)
    requires r <= text && s <= |r|
    ensures (r + more)[..s] == text[..s]
  {
  }

  lemma StaleStartMatch(text: string, b: string)
    requires IsBlock(b) && StaleStart(text)
    ensures var s := Find(text, SECTION_START, 0).value;
            && s < |RStrip(text)|
            && Search(RStrip(text) + "\n\n" + b, 0) == Some(Match(s, |RStrip(text) + "\n\n" + b|))
  {
    hide At, Find, IsBlock, Search, SECTION_START, SECTION_END;
    LeadKeepsMarkers(text, SECTION_START);
    LeadKeepsMarkers(text, SECTION_END);
    StripKeepsMarkers(text, SECTION_START);
    StartInside(RStrip(text));
    StaleStartSearch(RStrip(text) + "\n\n", b, Find(text, SECTION_START, 0).value);
  }

  /** With a stale start marker the second sync deletes everything from that marker on. */
  lemma StaleStartResync(text: string, b1: string, b2: string)
    requires IsBlock(b1) && StaleStart(text)
    ensures var s := Find(text, SECTION_START, 0).value;
            s < |RStrip(text)| && Synced(Synced(text, b1), b2) == text[..s] + b2
  {
    hide At, Find, IsBlock, Search, Gaps, Join, SECTION_START, SECTION_END;
    SyncedHasBothMarkers(text, b1);
    StaleStartMatch(text, b1);
    var s := Find(text, SECTION_START, 0).value;
    CutAtMatch(RStrip(text) + "\n\n" + b1, s, b2);
    SamePrefix(text, RStrip(text), "\n\n" + b1, s);
    assert RStrip(text) + "\n\n" + b1 == RStrip(text) + ("\n\n" + b1);
  }

  /** A second sync leaves exactly what it alone would have left, unless the file holds a start
      marker and no end marker; in that case it never does. */
  lemma LastWriteWinsIff(text: string, b1: string, b2: string)
    requires IsBlock(b1) && IsBlock(b2)
    ensures Synced(Synced(text, b1), b2) == Synced(text, b2) <==> !StaleStart(text)
  {
    hide At, Find, IsBlock, Search;
    SyncedHasBothMarkers(text, b1);
    if HasBothMarkers(text) {
      SubstituteTwice(text, b1, b2);
    } else if StaleStart(text) {
      StaleStartResync(text, b1, b2);
      assert |Synced(Synced(text, b1), b2)| < |Synced(text, b2)|;
    } else {
      AppendedGaps(text, b1);
      JoinTwo(RStrip(text) + "\n\n", "", b2);
    }
  }

  /** A sync leaves the text around the sections as it is, piece by piece. */
  lemma SurroundingsKept(text: string, b: string)
    requires IsBlock(b) && !StaleStart(text)
    ensures Gaps(Synced(text, b), 0) ==
            if HasBothMarkers(text) then Gaps(text, 0) else [RStrip(text) + "\n\n", ""]
  {
    if HasBothMarkers(text) {
      GapsAreSeparated(text, 0);
      GapsOfJoin([], Gaps(text, 0), b);
      assert [] + Join(Gaps(text, 0), b) == Join(Gaps(text, 0), b);
    } else {
      AppendedGaps(text, b);
    }
  }

  lemma WovenHasBothMarkers(pieces: seq<string>, blocks: seq<string>)
    requires |pieces| == |blocks| + 1 && blocks != [] && IsBlock(blocks[0])
    ensures HasBothMarkers(Woven(pieces, blocks))
  {
    hide IsBlock, HasBothMarkers;
    PartHasBothMarkers(pieces[0], blocks[0], Woven(pieces[1..], blocks[1..]));
  }

  /** On a text of pieces with sections between them: a sync puts its block in the place of each, a
      shutdown puts nothing there, and both keep every piece, the last one included. */
  lemma PiecesAreKept(pieces: seq<string>, blocks: seq<string>, b: string)
    requires |pieces| == |blocks| + 1 && blocks != [] && Separated(pieces)
    requires forall b' :: b' in blocks ==> IsBlock(b')
    ensures Synced(Woven(pieces, blocks), b) == Join(pieces, b)
    ensures Removed(Woven(pieces, blocks)) == Join(pieces, "")
  {
    hide IsBlock, Separated, HasBothMarkers, Gaps;
    assert blocks[0] in blocks;
    WovenHasBothMarkers(pieces, blocks);
    GapsOfWoven([], pieces, blocks);
    assert [] + Woven(pieces, blocks) == Woven(pieces, blocks);
  }

  /** One section between two texts without a start marker. */
  lemma TextAroundIsKept(pre: string, section: string, post: string, b: string)
    requires IsBlock(section) && !Contains(pre, SECTION_START) && !Contains(post, SECTION_START)
    ensures Synced(pre + section + post, b) == pre + b + post
    ensures Removed(pre + section + post) == pre + post
  {
    hide IsBlock, Contains, Synced, Removed, Find;
    assert Separated([pre, post]) by {
      NoStartNoMatch(post);
    }
    WovenTwo(pre, section, post);
    PiecesAreKept([pre, post], [section], b);
    JoinTwo(pre, post, b);
    JoinTwo(pre, post, "");
    assert pre + "" + post == pre + post;
  }

  lemma NoStartNoMatch(text: string)
    requires !Contains(text, SECTION_START)
    ensures Search(text, 0) == None
  {
  }

  lemma WovenTwo(pre: string, section: string, post: string)
    ensures Woven([pre, post], [section]) == pre + section + post
  {
    assert [pre, post][1..] == [post] && [section][1..] == [];
  }

  /** A sync puts its block into the file, except when both markers are there and no start marker is
      followed by an end marker: then it changes nothing at all. */
  lemma SyncInstallsIff(text: string, b: string)
    requires IsBlock(b)
    ensures Contains(Synced(text, b), b) <==> !(HasBothMarkers(text) && Search(text, 0) == None)
    ensures HasBothMarkers(text) && Search(text, 0) == None ==> Synced(text, b) == text
  {
    if !HasBothMarkers(text) {
      var lead := RStrip(text) + "\n\n";
      assert lead + b == lead + b + [];
      ContainsItself(b);
      ContainsPart(lead, b, [], b);
    } else if Search(text, 0) == None {
      OneGapIsAll(text);
      if Contains(text, b) {
        BlockIsAMatch(text, b, Find(text, b, 0).value);
      }
    } else {
      var gaps := Gaps(text, 0);
      ContainsItself(b);
      ContainsPart(gaps[0], b, Join(gaps[1..], b), b);
    }
  }

  lemma ContainsItself(b: string)
    ensures At(b, b, 0) && Contains(b, b)
  {
    assert At(b, b, 0);
  }

  lemma BlockIsAMatch(text: string, b: string, i: nat)
    requires IsBlock(b) && At(text, b, i)
    ensures Search(text, 0).Some?
  {
    var e := |b| - |SECTION_END| - 1;
    assert text == text[..i] + b + text[i + |b|..];
    AtInside(text[..i], b, text[i + |b|..], SECTION_START, 0);
    AtInside(text[..i], b, text[i + |b|..], SECTION_END, e);
    assert Matches(text, i, i + e) by {
      MarkersDoNotOverlap(b);
    }
    SearchIsLeftmostShortest(text, 0);
  }

  lemma MarkersDoNotOverlap(b: string)
    requires IsBlock(b)
    ensures |SECTION_START| <= |b| - |SECTION_END| - 1
  {
  }

  // ----- The failing inputs

  /** A file cut off inside a section loses all of it on the second sync. */
  lemma CutOffFileIsLost(rest: string, b1: string, b2: string)
    requires '#' !in rest && IsBlock(b1)
    ensures StaleStart(SECTION_START + rest)
    ensures Synced(Synced(SECTION_START + rest, b1), b2) == b2
  {
    hide Synced, IsBlock, Find, RStrip;
    var text := SECTION_START + rest;
    assert At(text, SECTION_START, 0);
    ContainsIff(text, SECTION_START);
    ContainsIff(text, SECTION_END);
    forall i: nat ensures !At(text, SECTION_END, i) {
      if At(text, SECTION_END, i) {
        AtReads(text, SECTION_END, i, 0);
        AtReads(text, SECTION_END, i, 2);
        HashesOfCutOffFile(rest, i);
        assert false;
      }
    }
    FindIs(text, SECTION_START, 0, 0);
    StaleStartResync(text, b1, b2);
  }

  lemma HashesOfCutOffFile(rest: string, i: nat)
    requires '#' !in rest && i < |SECTION_START + rest| && (SECTION_START + rest)[i] == '#'
    ensures i == 0
  {
    if i < |SECTION_START| {
      MarkersStartWithHash(SECTION_START, i);
    }
  }

  /** Two lines, of which the second sync leaves neither, though alone it would keep both. */
  lemma StaleStartExample(b1: string, b2: string) returns (text: string)
    requires IsBlock(b1) && IsBlock(b2)
    ensures text == SECTION_START + "\n127.0.0.1 localhost\n"
    ensures Synced(Synced(text, b1), b2) == b2 && Synced(text, b2) == RStrip(text) + "\n\n" + b2
  {
    hide IsBlock, RStrip;
    text := SECTION_START + "\n127.0.0.1 localhost\n";
    CutOffFileIsLost("\n127.0.0.1 localhost\n", b1, b2);
  }

  lemma StartIsHash()
    ensures SECTION_START != "" && SECTION_START[0] == '#'
  {
  }

  lemma StartFoundAtTheEnd(lead: string)
    requires !Contains(lead, SECTION_START)
    ensures Find(lead + SECTION_START, SECTION_START, 0) == Some(|lead|)
  {
    hide Find, At, SECTION_START, SECTION_END;
    var text := lead + SECTION_START;
    StartIsHash();
    ContainsItself(SECTION_START);
    AtShifts(lead, SECTION_START, SECTION_START, 0);
    forall i: nat | i < |lead| ensures !At(text, SECTION_START, i) {
      if i + |SECTION_START| <= |lead| {
        AtInFront(lead, SECTION_START, SECTION_START, i);
      } else {
        NoMarkerAcross(text, SECTION_START, i, |lead|);
      }
    }
    FindIs(text, SECTION_START, 0, |lead|);
  }

  /** A file whose only start marker is its last word, behind an end marker, is never updated. */
  lemma MisplacedEndIsStuck(lead: string, b: string)
    requires IsBlock(b) && Contains(lead, SECTION_END) && !Contains(lead, SECTION_START)
    ensures var text := lead + SECTION_START;
            HasBothMarkers(text) && Synced(text, b) == text && !Contains(text, b)
  {
    var text := lead + SECTION_START;
    assert Search(text, 0) == None && HasBothMarkers(text) by {
      hide IsBlock, SECTION_START, SECTION_END;
      StartFoundAtTheEnd(lead);
      FirstFindStays(lead, SECTION_START, SECTION_END, Find(lead, SECTION_END, 0).value);
      NothingFoundAtTheEnd(text);
    }
    hide IsBlock, Synced, Find, Search, SECTION_START, SECTION_END;
    SyncInstallsIff(text, b);
  }

  lemma NothingFoundAtTheEnd(text: string)
    ensures Find(text, SECTION_END, |text|) == None
  {
  }

  /** An end marker before the only start marker: both are there, and no sync changes anything. */
  lemma MisplacedEndExample(b: string) returns (text: string)
    requires IsBlock(b)
    ensures text == SECTION_END + "\n" + SECTION_START
    ensures HasBothMarkers(text) && Synced(text, b) == text && !Contains(text, b)
  {
    hide IsBlock, Synced, Find, HasBothMarkers;
    var lead := SECTION_END + "\n";
    assert At(lead, SECTION_END, 0);
    ContainsIff(lead, SECTION_END);
    assert |lead| < |SECTION_START|;
    ContainsIff(lead, SECTION_START);
    MisplacedEndIsStuck(lead, b);
    text := lead + SECTION_START;
  }

  // ----- Runs: syncs, shutdowns and restarts

  datatype DaemonEvent = SyncBlock(block: string) | Shutdown

  function DaemonRun(text: string, events: seq<DaemonEvent>): string {
    if events == [] then text
    else
      var before := DaemonRun(text, events[..|events| - 1]);
      match events[|events| - 1]
      case SyncBlock(b) => Synced(before, b)
      case Shutdown => Removed(before)
  }

  /** Every block that is synced is one section. */
  ghost predicate SyncsBlocks(events: seq<DaemonEvent>) {
    forall e :: e in events && e.SyncBlock? ==> IsBlock(e.block)
  }

  /** Whatever is synced in whatever order, the last write alone decides the text. */
  lemma {:induction false} SyncRun(text: string, syncs: seq<DaemonEvent>)
    requires syncs != [] && !StaleStart(text)
    requires SyncsBlocks(syncs) && Shutdown !in syncs
    ensures DaemonRun(text, syncs) == Synced(text, syncs[|syncs| - 1].block)
  {
    hide Synced, StaleStart, IsBlock;
    var n := |syncs| - 1;
    assert syncs[n] in syncs;
    if n > 0 {
      SyncRun(text, syncs[..n]);
      assert syncs[n - 1] in syncs;
      LastWriteWinsIff(text, syncs[n - 1].block, syncs[n].block);
    } else {
      assert syncs[..n] == [];
    }
  }

  lemma RemovedAfterAppend(text: string, b: string)
    requires IsBlock(b) && !Contains(text, SECTION_START)
    ensures Removed(RStrip(text) + "\n\n" + b) == RStrip(text) + "\n\n"
  {
    hide RStrip, IsBlock, At, Find, Gaps, Contains;
    AppendedGaps(text, b);
    JoinTwo(RStrip(text) + "\n\n", "", "");
    var lead := RStrip(text) + "\n\n";
    PartHasBothMarkers(lead, b, []);
    assert lead + b + [] == lead + b;
  }

  lemma StripOne(text: string, c: char)
    requires IsSpace(c)
    ensures RStrip(text + [c]) == RStrip(text)
  {
    assert (text + [c])[..|text|] == text;
  }

  /** Blanks at the end of the text make no difference. */
  lemma {:induction false} StripIgnoresBlanks(text: string, blanks: string)
    requires forall c :: c in blanks ==> c in " \t\r\n"
    ensures RStrip(text + blanks) == RStrip(text)
  {
    hide RStrip;
    if blanks == "" {
      assert text + blanks == text;
    } else {
      var n := |blanks| - 1;
      StripIgnoresBlanks(text, blanks[..n]);
      assert blanks[n] in blanks;
      StripOne(text + blanks[..n], blanks[n]);
      assert text + blanks[..n] + [blanks[n]] == text + blanks;
    }
  }

  lemma StripIgnoresBlankLines(text: string)
    ensures RStrip(RStrip(text) + "\n\n") == RStrip(text)
  {
    hide RStrip;
    StripIgnoresBlanks(RStrip(text), "\n\n");
    StripTwice(text);
  }

  lemma StripTwice(text: string)
    ensures RStrip(RStrip(text)) == RStrip(text)
  {
  }

  /** The stripped text and the last block after a final sync; the stripped text and two newlines
      after a final shutdown, if anything was synced; otherwise the text itself. */
  ghost function Settled(text: string, events: seq<DaemonEvent>): string {
    if events != [] && events[|events| - 1].SyncBlock? then RStrip(text) + "\n\n" + events[|events| - 1].block
    else if exists e :: e in events && e.SyncBlock? then RStrip(text) + "\n\n"
    else text
  }

  /** On a text without a start marker, any run of syncs, shutdowns and restarts settles: restarts
      never grow the file. */
  lemma {:induction false} DaemonRunNeverGrows(text: string, events: seq<DaemonEvent>)
    requires !Contains(text, SECTION_START) && SyncsBlocks(events)
    ensures DaemonRun(text, events) == Settled(text, events)
  {
    hide IsBlock, RStrip, Gaps, Join, At, Find, SECTION_START, SECTION_END;
    if events != [] {
      var n := |events| - 1;
      var prior := events[..n];
      DaemonRunNeverGrows(text, prior);
      assert events == prior + [events[n]];
      LeadKeepsMarkers(text, SECTION_START);
      StripIgnoresBlankLines(text);
      if n > 0 && events[n - 1].SyncBlock? {
        var b := events[n - 1].block;
        assert events[n - 1] in events;
        RemovedAfterAppend(text, b);
        if events[n].SyncBlock? {
          LastWriteWinsIff(text, b, events[n].block);
        }
      }
    }
  }

  lemma {:induction false} DaemonRunConcat(text: string, a: seq<DaemonEvent>, b: seq<DaemonEvent>)
    ensures DaemonRun(text, a + b) == DaemonRun(DaemonRun(text, a), b)
  {
    hide Synced, Removed;
    if b == [] {
      assert a + b == a;
    } else {
      var n := |b| - 1;
      DaemonRunConcat(text, a, b[..n]);
      assert (a + b)[..|a + b| - 1] == a + b[..n];
    }
  }

  /** A sync before a shutdown leaves no trace where sections stood already. */
  lemma RemovedAfterSync(text: string, b: string)
    requires IsBlock(b) && HasBothMarkers(text)
    ensures Removed(Synced(text, b)) == Removed(text)
  {
    hide Gaps, Join, HasBothMarkers;
    SyncedHasBothMarkers(text, b);
    SubstituteTwice(text, b, "");
  }

  /** A text that holds sections, after a crash say, loses exactly those at the first shutdown,
      whatever was synced before it; where what remains has no start marker, the file then settles. */
  lemma SectionsGoAtFirstShutdown(text: string, syncs: seq<DaemonEvent>, events: seq<DaemonEvent>)
    requires HasBothMarkers(text)
    requires SyncsBlocks(syncs) && Shutdown !in syncs && SyncsBlocks(events)
    ensures DaemonRun(text, syncs + [Shutdown] + events) == DaemonRun(Removed(text), events)
    ensures !Contains(Removed(text), SECTION_START) ==>
              DaemonRun(text, syncs + [Shutdown] + events) == Settled(Removed(text), events)
  {
    hide Synced, Removed, IsBlock, Settled, Contains;
    DaemonRunConcat(text, syncs + [Shutdown], events);
    var n := |syncs|;
    assert (syncs + [Shutdown])[..n] == syncs;
    if n > 0 {
      SyncRun(text, syncs);
      assert syncs[n - 1] in syncs;
      RemovedAfterSync(text, syncs[n - 1].block);
    }
    if !Contains(Removed(text), SECTION_START) {
      DaemonRunNeverGrows(Removed(text), events);
    }
  }

  lemma {:induction false} GapsFitText(text: string, from: nat)
    requires from <= |text|
    ensures |Join(Gaps(text, from), "")| <= |text| - from
    decreases |text| - from
  {
    hide Search;
    var m := Search(text, from);
    if m.Some? {
      GapsFitText(text, m.value.end);
      assert Gaps(text, from)[1..] == Gaps(text, m.value.end);
    }
  }

  lemma RemovedShrinks(text: string)
    ensures |Removed(text)| <= |text|
  {
    hide Gaps, Join, HasBothMarkers;
    GapsFitText(text, 0);
  }

  lemma {:induction false} MatchesTakeRoom(text: string, from: nat)
    requires from <= |text| && Search(text, from).Some?
    ensures |Join(Gaps(text, from), "")| < |text| - from
  {
    hide Search;
    var m := Search(text, from).value;
    GapsFitText(text, m.end);
    assert Gaps(text, from)[1..] == Gaps(text, m.end);
  }

  /** A shutdown leaves a text alone exactly when no start marker in it is followed by an end marker. */
  lemma RemovedUnchangedIff(text: string)
    ensures Removed(text) == text <==> Search(text, 0) == None
  {
    if Search(text, 0).Some? {
      MatchesTakeRoom(text, 0);
      MatchHasBothMarkers(text);
    } else {
      OneGapIsAll(text);
    }
  }

  lemma MatchHasBothMarkers(text: string)
    requires Search(text, 0).Some?
    ensures HasBothMarkers(text)
  {
    SearchIsLeftmostShortest(text, 0);
    var e: nat :| Matches(text, Search(text, 0).value.start, e);
  }

  lemma RemovedAfterStaleSync(text: string, b: string)
    requires IsBlock(b) && StaleStart(text)
    ensures HasBothMarkers(Synced(text, b)) && |Removed(Synced(text, b))| <= |text|
  {
    hide At, Find, IsBlock, Search, Gaps, Join, SECTION_START, SECTION_END;
    SyncedHasBothMarkers(text, b);
    StaleStartMatch(text, b);
    CutAtMatch(RStrip(text) + "\n\n" + b, Find(text, SECTION_START, 0).value, "");
  }

  // From a text with a start marker, syncs and then a shutdown leave no more than there was.
  lemma RoundShrinks(text: string, syncs: seq<DaemonEvent>)
    requires Contains(text, SECTION_START)
    requires SyncsBlocks(syncs) && Shutdown !in syncs
    ensures |Removed(DaemonRun(text, syncs))| <= |text|
  {
    hide Synced, Removed, IsBlock, Contains;
    if syncs == [] {
      RemovedShrinks(text);
    } else if HasBothMarkers(text) {
      SyncRun(text, syncs);
      assert syncs[|syncs| - 1] in syncs;
      RemovedAfterSync(text, syncs[|syncs| - 1].block);
      RemovedShrinks(text);
    } else {
      StaleRoundShrinks(text, syncs);
    }
  }

  lemma StaleRoundShrinks(text: string, syncs: seq<DaemonEvent>)
    requires StaleStart(text) && syncs != []
    requires SyncsBlocks(syncs) && Shutdown !in syncs
    ensures |Removed(DaemonRun(text, syncs))| <= |text|
  {
    hide Synced, Removed, IsBlock, StaleStart, HasBothMarkers;
    assert syncs[0] in syncs;
    var once, more := Synced(text, syncs[0].block), syncs[1..];
    RemovedAfterStaleSync(text, syncs[0].block);
    assert syncs == [syncs[0]] + more && [syncs[0]][..0] == [];
    DaemonRunConcat(text, [syncs[0]], more);
    assert DaemonRun(text, [syncs[0]]) == once;
    if more != [] {
      BothMarkersAreNotStale(once);
      SyncRun(once, more);
      assert more[|more| - 1] in syncs;
      RemovedAfterSync(once, more[|more| - 1].block);
    }
  }

  lemma BothMarkersAreNotStale(text: string)
    requires HasBothMarkers(text)
    ensures !StaleStart(text)
  {
  }

  lemma {:induction false} FirstShutdown(events: seq<DaemonEvent>) returns (k: nat)
    requires Shutdown in events
    ensures k < |events| && events[k] == Shutdown && Shutdown !in events[..k]
  {
    if events[0] == Shutdown {
      k := 0;
    } else {
      k := FirstShutdown(events[1..]);
      assert events[..k + 1] == [events[0]] + events[1..][..k];
      k := k + 1;
    }
  }

  /** Whatever the file held before, after any number of syncs, shutdowns and restarts, of which the
      last is a shutdown, it is at most two newlines longer. */
  lemma {:induction false} ShutdownNeverGrows(text: string, events: seq<DaemonEvent>)
    requires events != [] && events[|events| - 1] == Shutdown && SyncsBlocks(events)
    ensures |DaemonRun(text, events)| <= |text| + 2
    decreases |events|
  {
    hide DaemonRun, Contains, RStrip, IsBlock;
    if !Contains(text, SECTION_START) {
      DaemonRunNeverGrows(text, events);
    } else {
      var k := FirstShutdown(events);
      var syncs, rest := events[..k], events[k + 1..];
      assert events == syncs + [Shutdown] + rest;
      DaemonRunConcat(text, syncs + [Shutdown], rest);
      RunShutdown(text, syncs);
      RoundShrinks(text, syncs);
      var after := Removed(DaemonRun(text, syncs));
      if rest == [] {
        RunNothing(after);
      } else {
        ShutdownNeverGrows(after, rest);
      }
    }
  }

  lemma RunShutdown(text: string, syncs: seq<DaemonEvent>)
    ensures DaemonRun(text, syncs + [Shutdown]) == Removed(DaemonRun(text, syncs))
  {
    hide Removed;
    assert (syncs + [Shutdown])[..|syncs|] == syncs;
  }

  lemma RunNothing(text: string)
    ensures DaemonRun(text, []) == text
  {
  }
}
