/** The scan for compressed sections in a firmware image. */
module SectionScan {
  import opened Wrappers
  import opened Wire
  import opened Lzss

  const SECTION_PAGE_BYTES: nat := 0x4000
  const SECTION_HEADER_BYTES: nat := 20
  const MAX_SECTION_OUTPUT_BYTES: nat := 256 * 1024 * 1024

  datatype Header = Header(uncompressed: nat, stored: nat)

  function WordAt(image: Bytes, offset: nat): nat
    requires offset + 4 <= |image|
  {
    LeValue(image[offset..offset + 4])
  }

  /** `section_header`. */
  function SectionHeader(image: Bytes, offset: nat): (h: Option<Header>)
    ensures h.Some? ==>
              SECTION_HEADER_BYTES < h.value.stored < h.value.uncompressed && offset + h.value.stored <= |image|
  {
    if offset + SECTION_HEADER_BYTES > |image| then None
    else
      var uncompressed, stored := WordAt(image, offset), WordAt(image, offset + 4);
      var pages, pageSize, four := WordAt(image, offset + 8), WordAt(image, offset + 12), WordAt(image, offset + 16);
      if pageSize != SECTION_PAGE_BYTES || four != 4 || pages == 0 then None
      else if !(stored > (pages - 1) * SECTION_PAGE_BYTES && stored <= pages * SECTION_PAGE_BYTES) then None
      else if stored <= SECTION_HEADER_BYTES || uncompressed <= stored || offset + stored > |image| then None
      else Some(Header(uncompressed, stored))
  }

  /** The five words of a section header: sizes, pages, page size and alignment. */
  function HeaderBytes(uncompressed: nat, stored: nat, pages: nat): Bytes {
    LeBytes(uncompressed, 4) + LeBytes(stored, 4) + LeBytes(pages, 4) + LeBytes(0x4000, 4) + LeBytes(4, 4)
  }

  /** A header that can be spelled: more stored bytes than the header's own, fewer than it
      expands to, and the fewest pages of 16 KiB that hold them. */
  predicate Plausible(uncompressed: nat, stored: nat, pages: nat) {
    && 20 < stored < uncompressed < 0x1_0000_0000
    && 0 < pages && (pages - 1) * 0x4000 < stored <= pages * 0x4000
  }

  predicate SpellsHeader(image: Bytes, offset: nat, uncompressed: nat, stored: nat, pages: nat) {
    && offset + stored <= |image| && Plausible(uncompressed, stored, pages)
    && image[offset..offset + 20] == HeaderBytes(uncompressed, stored, pages)
  }

  lemma WordsAreSpelled(image: Bytes, offset: nat, u: nat, st: nat, pages: nat)
    requires offset + 20 <= |image|
    requires u < 0x1_0000_0000 && st < 0x1_0000_0000 && pages < 0x1_0000_0000
    ensures image[offset..offset + 20] == HeaderBytes(u, st, pages) <==>
              && WordAt(image, offset) == u && WordAt(image, offset + 4) == st && WordAt(image, offset + 8) == pages
              && WordAt(image, offset + 12) == 0x4000 && WordAt(image, offset + 16) == 4
  {
    FiveWords(image[offset..offset + 20], LeBytes(u, 4), LeBytes(st, 4), LeBytes(pages, 4), LeBytes(0x4000, 4), LeBytes(4, 4));
    WordIsSpelled(image, offset, u);
    WordIsSpelled(image, offset + 4, st);
    WordIsSpelled(image, offset + 8, pages);
    WordIsSpelled(image, offset + 12, 0x4000);
    WordIsSpelled(image, offset + 16, 4);
    hide WordAt;
    var b := image[offset..offset + 20];
    assert b[0..4] == image[offset..offset + 4] && b[4..8] == image[offset + 4..offset + 4 + 4]
           && b[8..12] == image[offset + 8..offset + 8 + 4] && b[12..16] == image[offset + 12..offset + 12 + 4]
           && b[16..20] == image[offset + 16..offset + 16 + 4];
  }

  lemma WordIsSpelled(image: Bytes, offset: nat, w: nat)
    requires offset + 4 <= |image| && w < 0x1_0000_0000
    ensures image[offset..offset + 4] == LeBytes(w, 4) <==> WordAt(image, offset) == w
  {
    WidthBounds();
    LeRoundTrip(w, 4);
    LeUnique(image[offset..offset + 4]);
  }

  lemma FiveWords(b: Bytes, w0: Bytes, w1: Bytes, w2: Bytes, w3: Bytes, w4: Bytes)
    requires |b| == 20 && |w0| == |w1| == |w2| == |w3| == |w4| == 4
    ensures b == w0 + w1 + w2 + w3 + w4 <==> b[0..4] == w0 && b[4..8] == w1 && b[8..12] == w2 && b[12..16] == w3 && b[16..20] == w4
  {
    TwoParts(b, w0, w1 + w2 + w3 + w4);
    TwoParts(b[4..], w1, w2 + w3 + w4);
    TwoParts(b[4..][4..], w2, w3 + w4);
    TwoParts(b[4..][4..][4..], w3, w4);
    assert w0 + w1 + w2 + w3 + w4 == w0 + (w1 + w2 + w3 + w4);
    assert w1 + w2 + w3 + w4 == w1 + (w2 + w3 + w4);
    assert w2 + w3 + w4 == w2 + (w3 + w4);
    assert b[4..][..4] == b[4..8] && b[4..][4..] == b[8..];
    assert b[8..][..4] == b[8..12] && b[8..][4..] == b[12..];
    assert b[12..][..4] == b[12..16] && b[12..][4..] == b[16..20];
  }

  lemma TwoParts(b: Bytes, w: Bytes, rest: Bytes)
    requires |b| == |w| + |rest|
    ensures b == w + rest <==> b[..|w|] == w && b[|w|..] == rest
  {
    assert b == b[..|w|] + b[|w|..];
    assert (w + rest)[..|w|] == w && (w + rest)[|w|..] == rest;
  }

  lemma WordIsNarrow(image: Bytes, offset: nat)
    requires offset + 4 <= |image|
    ensures WordAt(image, offset) < 0x1_0000_0000
  {
    WidthBounds();
  }

  /** A header is found exactly where the bytes are the spelling of a plausible one, and it is
      the one they spell. */
  lemma HeaderIsExact(image: Bytes, offset: nat, u: nat, st: nat)
    ensures SectionHeader(image, offset) == Some(Header(u, st)) <==>
              exists pages: nat :: SpellsHeader(image, offset, u, st, pages)
  {
    if offset + 20 <= |image| {
      WordIsNarrow(image, offset);
      WordIsNarrow(image, offset + 8);
      hide WordAt, HeaderBytes;
      var pages := WordAt(image, offset + 8);
      if SectionHeader(image, offset) == Some(Header(u, st)) {
        WordsAreSpelled(image, offset, u, st, pages);
        assert SpellsHeader(image, offset, u, st, pages);
      }
      if p: nat :| SpellsHeader(image, offset, u, st, p) {
        assert p < 0x1_0000_0000;
        WordsAreSpelled(image, offset, u, st, p);
      }
    }
  }

  predicate HeaderAt(image: Bytes, offset: nat) {
    offset % 4 == 0 && SectionHeader(image, offset).Some?
  }

  datatype Section = Section(offset: nat, stored: nat, bytes: Bytes) {
    predicate Covers(o: nat) { offset <= o < offset + stored }
  }

  /** The section the header at `offset` announces, decoded to exactly its declared size. */
  predicate Decodes(image: Bytes, s: Section) {
    && HeaderAt(image, s.offset)
    && var h := SectionHeader(image, s.offset).value;
    && s.stored == h.stored && |s.bytes| == h.uncompressed <= MAX_SECTION_OUTPUT_BYTES
    && Decoded([], image[s.offset + SECTION_HEADER_BYTES..s.offset + s.stored], h.uncompressed) == Some(s.bytes)
  }

  ghost predicate InOrder(sections: seq<Section>) {
    forall i, j | 0 <= i < j < |sections| :: sections[i].offset + sections[i].stored <= sections[j].offset
  }

  ghost predicate Covered(sections: seq<Section>, o: nat) {
    exists i | 0 <= i < |sections| :: sections[i].Covers(o)
  }

  /** Every header on the four-byte grid below `limit` is recorded or inside a recorded one. */
  ghost predicate CoveredBelow(image: Bytes, sections: seq<Section>, limit: nat) {
    forall o: nat | o < limit && HeaderAt(image, o) :: Covered(sections, o)
  }

  ghost predicate AllDecode(image: Bytes, sections: seq<Section>, limit: nat) {
    forall i | 0 <= i < |sections| :: Decodes(image, sections[i]) && sections[i].offset + sections[i].stored <= limit
  }

  /** A complete scan below `limit`: in order, disjoint, in range, each section decoded to its
      declared size, no header missed. */
  ghost predicate ScanOf(image: Bytes, sections: seq<Section>, limit: nat) {
    AllDecode(image, sections, limit) && InOrder(sections) && CoveredBelow(image, sections, limit)
  }

  /** The section at `offset` cannot be unpacked. */
  predicate BadSection(image: Bytes, offset: nat) {
    && HeaderAt(image, offset)
    && var h := SectionHeader(image, offset).value;
    || h.uncompressed > MAX_SECTION_OUTPUT_BYTES
    || match Decoded([], image[offset + SECTION_HEADER_BYTES..offset + h.stored], h.uncompressed)
       case None => true
       case Some(bytes) => |bytes| != h.uncompressed
  }

  // ---------- the same by the bytes ----------

  ghost predicate IsHeader(image: Bytes, o: nat) {
    o % 4 == 0 && exists u: nat, st: nat, pages: nat :: SpellsHeader(image, o, u, st, pages)
  }

  /** The image spells this section: a header with its sizes, then tokens that expand to it. */
  ghost predicate SpellsSection(image: Bytes, s: Section) {
    && s.offset % 4 == 0 && |s.bytes| <= 268_435_456
    && 20 < s.stored && s.offset + s.stored <= |image|
    && (exists pages: nat :: SpellsHeader(image, s.offset, |s.bytes|, s.stored, pages))
    && ExpandsTo(image[s.offset + 20..s.offset + s.stored], s.bytes)
  }

  ghost predicate ExpandsTo(stream: Bytes, bytes: Bytes) {
    exists ts :: SpellsTokens(stream, ts, bytes)
  }

  predicate SpellsTokens(stream: Bytes, ts: seq<Token>, bytes: Bytes) {
    WellFormedTokens(ts) && stream == PrintTokens(ts) && bytes == Expand([], ts)
  }

  /** Below `limit`: sections that the image spells, in order and disjoint, and every header is
      one of theirs or inside one. */
  ghost predicate SpelledScan(image: Bytes, sections: seq<Section>, limit: nat) {
    && (forall i | 0 <= i < |sections| :: SpellsSection(image, sections[i]) && sections[i].offset + sections[i].stored <= limit)
    && InOrder(sections)
    && forall o: nat | o < limit && IsHeader(image, o) :: Covered(sections, o)
  }

  /** A header that no section spelled by the image has. */
  ghost predicate SpelledUnreadable(image: Bytes, offset: nat) {
    IsHeader(image, offset) && forall s: Section | s.offset == offset :: !SpellsSection(image, s)
  }

  lemma HeadersAgree(image: Bytes, o: nat)
    ensures HeaderAt(image, o) <==> IsHeader(image, o)
  {
    hide SectionHeader, SpellsHeader;
    if HeaderAt(image, o) {
      var h := SectionHeader(image, o).value;
      HeaderIsExact(image, o, h.uncompressed, h.stored);
    }
    if IsHeader(image, o) {
      var u: nat, st: nat, pages: nat :| SpellsHeader(image, o, u, st, pages);
      HeaderIsExact(image, o, u, st);
    }
  }

  lemma DecodedIsSpelled(stream: Bytes, bytes: Bytes)
    ensures Decoded([], stream, |bytes|) == Some(bytes) <==> ExpandsTo(stream, bytes)
  {
    if ParseTokens(stream).Some? {
      PrintParseTokens(stream);
      if Decoded([], stream, |bytes|) == Some(bytes) { assert SpellsTokens(stream, ParseTokens(stream).value, bytes); }
    }
    if ts :| SpellsTokens(stream, ts, bytes) { ParsePrintTokens(ts); }
  }

  lemma DecodesIsHeaderAndStream(image: Bytes, s: Section)
    ensures Decodes(image, s) <==>
              && s.offset % 4 == 0 && |s.bytes| <= MAX_SECTION_OUTPUT_BYTES
              && 20 < s.stored && s.offset + s.stored <= |image|
              && SectionHeader(image, s.offset) == Some(Header(|s.bytes|, s.stored))
              && Decoded([], image[s.offset + 20..s.offset + s.stored], |s.bytes|) == Some(s.bytes)
  {
    hide SectionHeader, Decoded;
  }

  lemma SectionsAgree(image: Bytes, s: Section)
    ensures Decodes(image, s) <==> SpellsSection(image, s)
  {
    hide SpellsHeader, Decodes, SectionHeader, Decoded, ExpandsTo;
    DecodesIsHeaderAndStream(image, s);
    HeaderIsExact(image, s.offset, |s.bytes|, s.stored);
    if 20 < s.stored && s.offset + s.stored <= |image| { DecodedIsSpelled(image[s.offset + 20..s.offset + s.stored], s.bytes); }
  }

  lemma ScansAgree(image: Bytes, sections: seq<Section>, limit: nat)
    ensures ScanOf(image, sections, limit) <==> SpelledScan(image, sections, limit)
  {
    hide HeaderAt, IsHeader, Decodes, SpellsSection, Covered, InOrder;
    forall o: nat ensures HeaderAt(image, o) <==> IsHeader(image, o) { HeadersAgree(image, o); }
    forall s: Section ensures Decodes(image, s) <==> SpellsSection(image, s) { SectionsAgree(image, s); }
  }

  lemma UnreadableAgrees(image: Bytes, offset: nat)
    ensures BadSection(image, offset) <==> SpelledUnreadable(image, offset)
  {
    hide SpellsSection, IsHeader;
    HeadersAgree(image, offset);
    forall s: Section ensures Decodes(image, s) <==> SpellsSection(image, s) { SectionsAgree(image, s); }
    BadIsUndecoded(image, offset);
  }

  lemma BadIsUndecoded(image: Bytes, offset: nat)
    ensures BadSection(image, offset) <==> HeaderAt(image, offset) && forall s: Section | s.offset == offset :: !Decodes(image, s)
  {
    hide SectionHeader, Decoded;
    if HeaderAt(image, offset) && !BadSection(image, offset) {
      var h := SectionHeader(image, offset).value;
      var bytes := Decoded([], image[offset + SECTION_HEADER_BYTES..offset + h.stored], h.uncompressed).value;
      assert Decodes(image, Section(offset, h.stored, bytes));
    }
  }

  datatype ScanResult = Sections(sections: seq<Section>) | Unreadable(offset: nat)

  function NextMultipleOf4(x: nat): (r: nat)
    ensures r % 4 == 0 && x <= r < x + 4
  {
    (x + 3) / 4 * 4
  }

  /** The scan loop: stop at the first section that cannot be unpacked, otherwise record all. */
  method Scan(image: Bytes) returns (r: ScanResult, ghost before: seq<Section>)
    ensures r.Sections? ==> SpelledScan(image, r.sections, |image|)
    ensures r.Unreadable? ==>
              SpelledUnreadable(image, r.offset) && SpelledScan(image, before, r.offset) && !Covered(before, r.offset)
    ensures r.Sections? <==> exists sections :: SpelledScan(image, sections, |image|)
  {
    hide ScanOf, Covered, Decoded, SectionHeader, SpelledScan, SpelledUnreadable;
    forall sections: seq<Section>, limit: nat ensures ScanOf(image, sections, limit) <==> SpelledScan(image, sections, limit) {
      ScansAgree(image, sections, limit);
    }
    var sections: seq<Section> := [];
    before := [];
    var offset := 0;
    NothingScanned(image);
    while offset + SECTION_HEADER_BYTES <= |image|
      invariant offset % 4 == 0
      invariant ScanOf(image, sections, offset)
      decreases |image| - offset
    {
      var header := SectionHeader(image, offset);
      if header.None? {
        SkipHeaderless(image, sections, offset);
        offset := offset + 4;
        continue;
      }
      var h := header.value;
      NotCoveredHere(image, sections, offset);
      if h.uncompressed > MAX_SECTION_OUTPUT_BYTES {
        UnreadableAgrees(image, offset);
        NoScanPastBadSection(image, sections, offset);
        return Unreadable(offset), sections;
      }
      var bytes := Decompress(image[offset + SECTION_HEADER_BYTES..offset + h.stored], h.uncompressed);
      if bytes.None? || |bytes.value| != h.uncompressed {
        UnreadableAgrees(image, offset);
        NoScanPastBadSection(image, sections, offset);
        return Unreadable(offset), sections;
      }
      var section := Section(offset, h.stored, bytes.value);
      Recorded(image, sections, section, NextMultipleOf4(offset + h.stored));
      sections := sections + [section];
      offset := NextMultipleOf4(offset + h.stored);
    }
    NoRoomForHeaders(image, sections, offset);
    r := Sections(sections);
  }

  lemma NothingScanned(image: Bytes)
    ensures ScanOf(image, [], 0)
  {}

  lemma NotCoveredHere(image: Bytes, sections: seq<Section>, offset: nat)
    requires ScanOf(image, sections, offset)
    ensures !Covered(sections, offset)
  {}

  lemma SkipHeaderless(image: Bytes, sections: seq<Section>, offset: nat)
    requires offset % 4 == 0 && ScanOf(image, sections, offset) && SectionHeader(image, offset).None?
    ensures ScanOf(image, sections, offset + 4)
  {}

  lemma Recorded(image: Bytes, sections: seq<Section>, section: Section, next: nat)
    requires ScanOf(image, sections, section.offset) && Decodes(image, section)
    requires next == NextMultipleOf4(section.offset + section.stored)
    ensures ScanOf(image, sections + [section], next)
  {
    hide Decodes, SectionHeader;
    DecodesAligned(image, section);
    var all := sections + [section];
    forall o: nat | o < next && HeaderAt(image, o) ensures Covered(all, o) {
      if o < section.offset {
        assert Covered(sections, o);
        var i :| 0 <= i < |sections| && sections[i].Covers(o);
        assert all[i].Covers(o);
      } else {
        assert o % 4 == 0;
        assert o < section.offset + section.stored;
        assert all[|sections|].Covers(o);
      }
    }
  }

  lemma DecodesAligned(image: Bytes, s: Section)
    requires Decodes(image, s)
    ensures HeaderAt(image, s.offset) && s.offset % 4 == 0
    ensures 0 < s.stored == SectionHeader(image, s.offset).value.stored && s.offset + s.stored <= |image|
  {}

  lemma NoRoomForHeaders(image: Bytes, sections: seq<Section>, offset: nat)
    requires offset + SECTION_HEADER_BYTES > |image| && ScanOf(image, sections, offset)
    ensures ScanOf(image, sections, |image|)
  {}

  /** The scan is determined by the image: two complete scans agree on every section. */
  lemma {:induction false} ScanAgrees(image: Bytes, a: seq<Section>, b: seq<Section>, k: nat)
    requires ScanOf(image, a, |image|) && ScanOf(image, b, |image|)
    requires k <= |a| && k <= |b|
    ensures a[..k] == b[..k]
  {
    hide Decodes;
    if k != 0 {
      ScanAgrees(image, a, b, k - 1);
      NotBefore(image, a, b, k - 1);
      NotBefore(image, b, a, k - 1);
      SameSection(image, a[k - 1], b[k - 1]);
      assert a[..k] == a[..k - 1] + [a[k - 1]] && b[..k] == b[..k - 1] + [b[k - 1]];
    }
  }

  lemma SameSection(image: Bytes, a: Section, b: Section)
    requires Decodes(image, a) && Decodes(image, b) && a.offset == b.offset
    ensures a == b
  {
    hide Decoded, SectionHeader;
  }

  /** After a common prefix, the next section of one scan is no earlier than the other's. */
  lemma NotBefore(image: Bytes, a: seq<Section>, b: seq<Section>, k: nat)
    requires ScanOf(image, a, |image|) && ScanOf(image, b, |image|)
    requires k < |a| && k <= |b| && a[..k] == b[..k]
    ensures k < |b| && b[k].offset <= a[k].offset
  {
    DecodesAligned(image, a[k]);
    hide AllDecode, HeaderAt, InOrder, Covered;
    assert Covered(b, a[k].offset);
    CoveredLater(a, b, k);
  }

  lemma CoveredLater(a: seq<Section>, b: seq<Section>, k: nat)
    requires InOrder(a) && InOrder(b) && k < |a| && k <= |b| && a[..k] == b[..k]
    requires Covered(b, a[k].offset)
    ensures k < |b| && b[k].offset <= a[k].offset
  {}

  lemma ScanIsUnique(image: Bytes, a: seq<Section>, b: seq<Section>)
    requires ScanOf(image, a, |image|) && ScanOf(image, b, |image|)
    ensures a == b
  {
    hide ScanOf;
    var n := if |a| < |b| then |a| else |b|;
    ScanAgrees(image, a, b, n);
    if |a| > n { NotBefore(image, a, b, n); }
    if |b| > n { NotBefore(image, b, a, n); }
    assert a[..n] == a && b[..n] == b;
  }

  /** A scan that got as far as `offset` holds every section that a complete scan has before it. */
  lemma {:induction false} EarlierSectionsAgree(image: Bytes, before: seq<Section>, offset: nat, all: seq<Section>, k: nat)
    requires ScanOf(image, before, offset) && offset <= |image| && ScanOf(image, all, |image|)
    requires k < |all| && all[k].offset < offset
    ensures k < |before| && before[..k + 1] == all[..k + 1] && before[k] == all[k]
    decreases k
  {
    hide Decodes, HeaderAt;
    if k > 0 {
      assert all[k - 1].offset + all[k - 1].stored <= all[k].offset;
      EarlierSectionsAgree(image, before, offset, all, k - 1);
    }
    assert all[..k] == before[..k];
    DecodesAligned(image, all[k]);
    assert Covered(before, all[k].offset);
    CoveredLater(all, before, k);
    DecodesAligned(image, before[k]);
    assert Covered(all, before[k].offset);
    CoveredLater(before, all, k);
    SameSection(image, all[k], before[k]);
    assert before[..k + 1] == before[..k] + [before[k]] && all[..k + 1] == all[..k] + [all[k]];
  }

  /** So a complete scan has a section where that one stopped, if a header is there uncovered. */
  lemma CompleteScanHasHeader(image: Bytes, before: seq<Section>, offset: nat, all: seq<Section>)
    requires ScanOf(image, before, offset) && ScanOf(image, all, |image|)
    requires HeaderAt(image, offset) && offset < |image|
    ensures Covered(before, offset) || exists j | 0 <= j < |all| :: all[j].offset == offset
  {
    hide AllDecode, InOrder, HeaderAt;
    assert Covered(all, offset);
    var j :| 0 <= j < |all| && all[j].Covers(offset);
    if all[j].offset < offset {
      EarlierSectionsAgree(image, before, offset, all, j);
      assert before[j].Covers(offset);
    }
  }

  /** Where a scan stops because a section cannot be unpacked, the image has no complete scan. */
  lemma NoScanPastBadSection(image: Bytes, before: seq<Section>, offset: nat)
    requires ScanOf(image, before, offset) && BadSection(image, offset) && !Covered(before, offset)
    ensures !exists sections :: ScanOf(image, sections, |image|)
  {
    HeaderHasRoom(image, offset);
    hide BadSection, Covered, CoveredBelow, InOrder, Decodes, HeaderAt;
    forall all: seq<Section> ensures !ScanOf(image, all, |image|) {
      if ScanOf(image, all, |image|) {
        CompleteScanHasHeader(image, before, offset, all);
        var j :| 0 <= j < |all| && all[j].offset == offset;
        BadIsNotDecoded(image, all[j]);
      }
    }
  }

  lemma HeaderHasRoom(image: Bytes, offset: nat)
    requires BadSection(image, offset)
    ensures HeaderAt(image, offset) && offset < |image|
  {}

  lemma BadIsNotDecoded(image: Bytes, s: Section)
    requires BadSection(image, s.offset)
    ensures !Decodes(image, s)
  {
    hide Decoded, SectionHeader;
  }
}
