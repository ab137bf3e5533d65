/** The data of one tmpfs file: a size and a sparse vector of pages, holes reading as zeros. */
module TmpfsData {
  import opened Flat

  type Page = p: seq<byte> | |p| == PAGE_SIZE witness Zeros(PAGE_SIZE)

  type Pages = seq<Option<Page>>

  datatype FileData = FileData(size: nat, pages: Pages)

  const EMPTY_FILE := FileData(0, [])

  /** The byte stored at `i`, zero in a hole and past the vector. */
  function ByteAt(pages: Pages, i: nat): byte {
    var page := i / PAGE_SIZE;
    if page < |pages| && pages[page].Some? then pages[page].value[i % PAGE_SIZE] else 0
  }

  /** The flat file that the pages stand for. */
  function Contents(f: FileData): (c: seq<byte>)
    ensures |c| == f.size
  {
    seq(f.size, i requires 0 <= i => ByteAt(f.pages, i))
  }

  /** No byte past the end is set. */
  ghost predicate Clean(f: FileData) {
    forall i: nat | i >= f.size :: ByteAt(f.pages, i) == 0
  }

  /** No page past the end is present. */
  ghost predicate NoSpare(f: FileData) {
    forall p | 0 <= p < |f.pages| && p * PAGE_SIZE >= f.size :: f.pages[p].None?
  }

  /** The number of present pages. */
  function Present(pages: Pages): nat {
    if pages == [] then 0 else (if pages[0].Some? then 1 else 0) + Present(pages[1..])
  }

  lemma {:induction false} PresentConcat(a: Pages, b: Pages)
    ensures Present(a + b) == Present(a) + Present(b)
  {
    if a == [] {
      assert a + b == b;
    } else {
      assert (a + b)[1..] == a[1..] + b;
      PresentConcat(a[1..], b);
    }
  }

  lemma {:induction false} PresentOfHoles(pages: Pages)
    requires forall p | p in pages :: p.None?
    ensures Present(pages) == 0
  {
    if pages != [] {
      assert pages[0] in pages;
      PresentOfHoles(pages[1..]);
    }
  }

  lemma PresentUpdate(pages: Pages, p: nat, page: Option<Page>)
    requires p < |pages|
    ensures Present(pages[p := page])
            == Present(pages) + (if page.Some? then 1 else 0) - (if pages[p].Some? then 1 else 0)
  {
    var rest := pages[p + 1..];
    assert pages == pages[..p] + ([pages[p]] + rest);
    assert pages[p := page] == pages[..p] + ([page] + rest);
    PresentConcat(pages[..p], [pages[p]] + rest);
    PresentConcat(pages[..p], [page] + rest);
    assert ([pages[p]] + rest)[1..] == rest && ([page] + rest)[1..] == rest;
  }

  /** Copies bytes out of one page, zeros where it is a hole. */
  method ReadPiece(pages: Pages, at: nat, n: nat) returns (piece: seq<byte>)
    requires at % PAGE_SIZE + n <= PAGE_SIZE
    ensures |piece| == n && forall k | 0 <= k < n :: piece[k] == ByteAt(pages, at + k)
  {
    var page, pageOffset := at / PAGE_SIZE, at % PAGE_SIZE;
    piece := if page < |pages| && pages[page].Some? then pages[page].value[pageOffset..pageOffset + n] else Zeros(n);
    forall k | 0 <= k < n ensures piece[k] == ByteAt(pages, at + k) {
      SamePage(at, k);
    }
  }

  /** Reads page by page up to the end of the file. */
  method ReadData(f: FileData, off: nat, len: nat) returns (buf: seq<byte>)
    ensures buf == Read(Contents(f), off, len)
  {
    if off >= f.size {
      return [];
    }
    var readSize := Min(len, f.size - off);
    buf := [];
    while |buf| < readSize
      invariant |buf| <= readSize
      invariant forall k | 0 <= k < |buf| :: buf[k] == ByteAt(f.pages, off + k)
      decreases readSize - |buf|
    {
      var at := off + |buf|;
      var piece := ReadPiece(f.pages, at, Min(PAGE_SIZE - at % PAGE_SIZE, readSize - |buf|));
      buf := buf + piece;
    }
  }

  /** Bytes that do not cross the page end share the page. */
  lemma SamePage(at: nat, k: nat)
    requires at % PAGE_SIZE + k < PAGE_SIZE
    ensures (at + k) / PAGE_SIZE == at / PAGE_SIZE && (at + k) % PAGE_SIZE == at % PAGE_SIZE + k
  {
  }

  /** The vector grown with holes to at least `n` entries. */
  function Resize(pages: Pages, n: nat): (r: Pages)
    ensures |r| == Max(|pages|, n)
    ensures forall p | 0 <= p < |r| :: r[p] == if p < |pages| then pages[p] else None
  {
    if n <= |pages| then pages else pages + seq(n - |pages|, _ => None)
  }

  /** Resizing changes no byte and adds no present page. */
  lemma ResizeIsInvisible(pages: Pages, n: nat)
    ensures forall i: nat :: ByteAt(Resize(pages, n), i) == ByteAt(pages, i)
    ensures Present(Resize(pages, n)) == Present(pages)
  {
    if n > |pages| {
      var holes: Pages := seq(n - |pages|, _ => None);
      PresentConcat(pages, holes);
      PresentOfHoles(holes);
    }
  }

  /** Whether `n` frames can be had. */
  predicate Enough(frames: Option<nat>, n: nat) {
    frames.None? || n <= frames.value
  }

  /** Puts a zeroed page into the holes of `[start, end)`, one after the other until no more frames can be had. */
  method FillHoles(pages: Pages, start: nat, end: nat, frames: Option<nat>) returns (filled: Pages, taken: nat)
    requires start <= end <= |pages|
    ensures |filled| == |pages| && Present(filled) == Present(pages) + taken
    ensures taken == if Enough(frames, Holes(pages, start, end)) then Holes(pages, start, end) else frames.value
    ensures forall p | 0 <= p < |pages| ::
              filled[p] == pages[p] || (start <= p < end && pages[p].None? && filled[p] == Some(Zeros(PAGE_SIZE)))
    ensures Enough(frames, Holes(pages, start, end)) ==> forall p | start <= p < end :: filled[p].Some?
    ensures forall i: nat :: ByteAt(filled, i) == ByteAt(pages, i)
  {
    filled, taken := pages, 0;
    var p := start;
    while p < end
      invariant start <= p <= end && |filled| == |pages| && Present(filled) == Present(pages) + taken
      invariant forall q | 0 <= q < |pages| ::
                  filled[q] == if start <= q < p && pages[q].None? then Some(Zeros(PAGE_SIZE)) else pages[q]
      invariant taken + Holes(pages, p, end) == Holes(pages, start, end) && Enough(frames, taken)
    {
      if filled[p].None? {
        if frames == Some(taken) {
          return;
        }
        PresentUpdate(filled, p, Some(Zeros(PAGE_SIZE)));
        filled, taken := filled[p := Some(Zeros(PAGE_SIZE))], taken + 1;
      }
      p := p + 1;
    }
  }

  /** How many entries of `[start, end)` are holes. */
  function Holes(pages: Pages, start: nat, end: nat): nat
    requires start <= end <= |pages|
    decreases end - start
  {
    if start == end then 0 else (if pages[start].None? then 1 else 0) + Holes(pages, start + 1, end)
  }

  /** Copies `buf` into present pages, page by page. */
  method CopyIn(pages: Pages, off: nat, buf: seq<byte>) returns (r: Pages)
    requires buf != [] ==> off + |buf| <= |pages| * PAGE_SIZE
    requires forall p | off / PAGE_SIZE <= p < |pages| && p * PAGE_SIZE < off + |buf| :: pages[p].Some?
    ensures |r| == |pages| && Present(r) == Present(pages)
    ensures forall p | 0 <= p < |pages| :: r[p].Some? == pages[p].Some?
    ensures forall i: nat :: ByteAt(r, i) == if off <= i < off + |buf| then buf[i - off] else ByteAt(pages, i)
  {
    r := pages;
    var written := 0;
    while written < |buf|
      invariant 0 <= written <= |buf| && |r| == |pages|
      invariant forall p | 0 <= p < |pages| :: r[p].Some? == pages[p].Some?
      invariant Present(r) == Present(pages)
      invariant forall i: nat :: ByteAt(r, i) == if off <= i < off + written then buf[i - off] else ByteAt(pages, i)
    {
      var at := off + written;
      var page := at / PAGE_SIZE;
      var pageOffset := at % PAGE_SIZE;
      var n := Min(PAGE_SIZE - pageOffset, |buf| - written);
      ghost var before := r;
      var frame := r[page].value;
      var now: Page := frame[..pageOffset] + buf[written..written + n] + frame[pageOffset + n..];
      PresentUpdate(r, page, Some(now));
      r := r[page := Some(now)];
      forall i: nat ensures ByteAt(r, i) == if at <= i < at + n then buf[i - off] else ByteAt(before, i) {
        PageUpdate(before, page, now, at, n, i);
      }
      written := written + n;
    }
  }

  /** Replacing one page affects only the bytes of that page. */
  lemma PageUpdate(before: Pages, page: nat, now: Page, at: nat, n: nat, i: nat)
    requires page < |before| && page == at / PAGE_SIZE && n <= PAGE_SIZE - at % PAGE_SIZE
    ensures ByteAt(before[page := Some(now)], i)
            == if i / PAGE_SIZE == page then now[i % PAGE_SIZE] else ByteAt(before, i)
    ensures at <= i < at + n ==> i / PAGE_SIZE == page && i % PAGE_SIZE == at % PAGE_SIZE + (i - at)
    ensures i / PAGE_SIZE == page && !(at <= i < at + n) ==>
              i % PAGE_SIZE < at % PAGE_SIZE || i % PAGE_SIZE >= at % PAGE_SIZE + n
  {
    if at <= i < at + n {
      SamePage(at, i - at);
    }
  }

  /** How many new pages a write needs. */
  function PagesNeeded(f: FileData, off: nat, len: nat): nat {
    if len == 0 then 0
    else
      var start, end := off / PAGE_SIZE, DivCeil(off + len, PAGE_SIZE);
      Holes(Resize(f.pages, end), start, end)
  }

  /** How many new pages a write gets: all it needs, none over the quota, or as many as there are frames. */
  function PagesTaken(f: FileData, off: nat, len: nat, budget: Option<nat>, frames: Option<nat>): nat {
    var needed := PagesNeeded(f, off, len);
    if !Enough(budget, needed) then 0 else if Enough(frames, needed) then needed else frames.value
  }

  /**
   Writes `buf` at `off` when the new pages fit `budget` and `frames` can be had for them (no limit when `None`).
   It is the flat write exactly unless it is an empty one past the end, which still moves the size up to `off`.
   A write that runs out of frames keeps those it got, even past the end of the file.
   */
  method WriteData(f: FileData, off: nat, buf: seq<byte>, budget: Option<nat>, frames: Option<nat>)
    returns (ok: bool, g: FileData, taken: nat)
    requires Clean(f)
    ensures Clean(g) && Present(g.pages) == Present(f.pages) + taken
    ensures ok <==> Enough(budget, PagesNeeded(f, off, |buf|)) && Enough(frames, PagesNeeded(f, off, |buf|))
    ensures taken == PagesTaken(f, off, |buf|, budget, frames)
    ensures NoSpare(f) && (ok || taken == 0) ==> NoSpare(g)
    ensures ok ==> (Contents(g) == Write(Contents(f), off, buf) <==> !(buf == [] && off > f.size))
    ensures ok && buf == [] ==> Contents(g) == Truncate(Contents(f), Max(f.size, off))
    ensures !ok ==> Contents(g) == Contents(f)
  {
    var data := f.pages;
    taken := 0;
    if buf != [] {
      var start, end := off / PAGE_SIZE, DivCeil(off + |buf|, PAGE_SIZE);
      ResizeIsInvisible(data, end);
      data := Resize(data, end);
      var needed := Holes(data, start, end);
      if budget.Some? && needed > budget.value {
        return false, FileData(f.size, data), 0;
      }
      ghost var before := data;
      data, taken := FillHoles(data, start, end, frames);
      if taken < needed {
        UnchangedIsClean(f, FileData(f.size, data));
        TakenIsSeen(before, data, start, end, taken);
        return false, FileData(f.size, data), taken;
      }
      data := CopyIn(data, off, buf);
    }
    ok := true;
    g := FileData(Max(f.size, off + |buf|), data);
    WrittenIsClean(f, g, off, buf);
    WriteRefinesFlat(f, g, off, buf);
  }

  /** Where no byte and no size changed, the contents did not either. */
  lemma UnchangedIsClean(f: FileData, g: FileData)
    requires Clean(f) && g.size == f.size && forall i: nat :: ByteAt(g.pages, i) == ByteAt(f.pages, i)
    ensures Clean(g) && Contents(g) == Contents(f)
  {
  }

  /** Where no page was taken, the vector is as it was. */
  lemma TakenIsSeen(before: Pages, after: Pages, start: nat, end: nat, taken: nat)
    requires |after| == |before| && Present(after) == Present(before) + taken
    requires forall p | 0 <= p < |before| :: after[p] == before[p] || (before[p].None? && after[p].Some?)
    ensures taken == 0 ==> after == before
  {
    if after != before {
      MorePresent(before, after);
    }
  }

  lemma {:induction false} MorePresent(before: Pages, after: Pages)
    requires |after| == |before|
    requires forall p | 0 <= p < |before| :: after[p] == before[p] || (before[p].None? && after[p].Some?)
    ensures Present(after) >= Present(before) && (after != before ==> Present(after) > Present(before))
  {
    if before != [] {
      MorePresent(before[1..], after[1..]);
      assert before == [before[0]] + before[1..] && after == [after[0]] + after[1..];
    }
  }

  /** Bytes changed only under the write, and pages appeared only there, so the end stays clean. */
  lemma WrittenIsClean(f: FileData, g: FileData, off: nat, buf: seq<byte>)
    requires Clean(f) && g.size == Max(f.size, off + |buf|)
    requires forall i: nat :: ByteAt(g.pages, i) == if off <= i < off + |buf| then buf[i - off] else ByteAt(f.pages, i)
    requires forall p | 0 <= p < |g.pages| && g.pages[p].Some? ::
               (p < |f.pages| && f.pages[p].Some?) || p * PAGE_SIZE < off + |buf|
    ensures Clean(g) && (NoSpare(f) ==> NoSpare(g))
    ensures buf != [] ==> Contents(g) == Write(Contents(f), off, buf)
    ensures buf == [] ==> Contents(g) == Truncate(Contents(f), Max(f.size, off))
  {
    if buf != [] {
      assert forall i: nat | i < g.size :: Contents(g)[i] == ByteAt(g.pages, i);
      assert forall i: nat | i < g.size ::
          Write(Contents(f), off, buf)[i] == if off <= i < off + |buf| then buf[i - off] else ByteAt(f.pages, i);
    }
  }

  lemma WriteRefinesFlat(f: FileData, g: FileData, off: nat, buf: seq<byte>)
    requires buf != [] ==> Contents(g) == Write(Contents(f), off, buf)
    requires buf == [] ==> Contents(g) == Truncate(Contents(f), Max(f.size, off))
    ensures Contents(g) == Write(Contents(f), off, buf) <==> !(buf == [] && off > f.size)
  {
    if buf == [] && off <= f.size {
      assert Truncate(Contents(f), f.size) == Contents(f);
    }
  }

  /** The slice of pages to free would start past its end, so the shrink stops the kernel. */
  predicate ShrinkPanics(f: FileData, size: nat) {
    size < f.size && DivCeil(size, PAGE_SIZE) > |f.pages|
  }

  /** The file shrinks, and the kernel survives it. */
  predicate Shrinks(f: FileData, size: nat) {
    size < f.size && !ShrinkPanics(f, size)
  }

  /** Where the pages of the file end in its vector. */
  function EndPage(f: FileData): (end: nat)
    ensures end <= |f.pages|
  {
    Min(DivCeil(f.size, PAGE_SIZE), |f.pages|)
  }

  /** The present pages that a truncation gives back. */
  function PagesCut(f: FileData, size: nat): nat {
    if Shrinks(f, size) then
      FewerPages(size, f.size);
      Present(f.pages[DivCeil(size, PAGE_SIZE)..EndPage(f)])
    else 0
  }

  /** The present pages past the end, which a truncation drops without giving them back. */
  function PagesLost(f: FileData, size: nat): nat {
    if Shrinks(f, size) then Present(f.pages[EndPage(f)..]) else 0
  }

  lemma FewerPages(small: nat, big: nat)
    requires small <= big
    ensures DivCeil(small, PAGE_SIZE) <= DivCeil(big, PAGE_SIZE)
  {
  }

  /** Cuts or grows the file; `freed` is how many present pages are given back. */
  method TruncateData(f: FileData, size: nat) returns (panics: bool, g: FileData, freed: nat)
    requires Clean(f)
    ensures panics <==> ShrinkPanics(f, size)
    ensures !panics ==> Contents(g) == Truncate(Contents(f), size)
    ensures Clean(g) && (NoSpare(f) || Shrinks(f, size) ==> NoSpare(g))
    ensures freed == PagesCut(f, size) && Present(g.pages) + freed + PagesLost(f, size) == Present(f.pages)
    ensures panics ==> g == f
    ensures size >= f.size ==> g.pages == f.pages
  {
    if size >= f.size {
      g := FileData(size, f.pages);
      return false, g, 0;
    }
    var newCount := DivCeil(size, PAGE_SIZE);
    var oldCount := DivCeil(f.size, PAGE_SIZE);
    FewerPages(size, f.size);
    if newCount > Min(oldCount, |f.pages|) {
      return true, f, 0;
    }
    freed := Present(f.pages[newCount..Min(oldCount, |f.pages|)]);
    CutPresent(f.pages, newCount, EndPage(f));
    var kept := ZeroTail(f.pages[..newCount], size);
    g := FileData(size, kept);
    CutIsFlat(f, g);
    return false, g, freed;
  }

  /** No page is lost exactly when none is present past the end. */
  lemma LostIsSpare(f: FileData, size: nat)
    requires Shrinks(f, size)
    ensures PagesLost(f, size) == 0 <==> NoSpare(f)
  {
    var end := EndPage(f);
    var spare := f.pages[end..];
    forall p | 0 <= p < |f.pages| ensures p * PAGE_SIZE >= f.size <==> p >= end {
      PastEnd(f.size, p);
    }
    if NoSpare(f) {
      PresentOfHoles(spare);
    } else {
      var p :| 0 <= p < |f.pages| && p * PAGE_SIZE >= f.size && f.pages[p].Some?;
      assert spare[p - end].Some?;
      SomePresent(spare, p - end);
    }
  }

  lemma PastEnd(size: nat, p: nat)
    ensures p * PAGE_SIZE >= size <==> p >= DivCeil(size, PAGE_SIZE)
  {
  }

  lemma SomePresent(pages: Pages, p: nat)
    requires p < |pages| && pages[p].Some?
    ensures Present(pages) > 0
  {
    PresentSplit(pages, p);
  }

  lemma {:induction false} AtMostAll(pages: Pages)
    ensures Present(pages) <= |pages|
  {
    if pages != [] {
      AtMostAll(pages[1..]);
    }
  }

  lemma NeedsTwo(f: FileData, len: nat)
    requires f.size == 1 && NoSpare(f) && len == 2 * PAGE_SIZE
    ensures PagesNeeded(f, PAGE_SIZE, len) == 2
  {
    var pages := Resize(f.pages, 3);
    assert pages[1].None? && pages[2].None?;
    assert Holes(pages, 2, 3) == 1;
  }

  /** A write of two pages that gets one frame leaves it past the end, and the next shrink gives back too few pages. */
  method LosesPage(b: byte, buf: seq<byte>) returns (g: FileData, h: FileData, freed: nat)
    requires |buf| == 2 * PAGE_SIZE
    ensures Present(h.pages) + freed < Present(g.pages)
  {
    var ok, f, taken := WriteData(EMPTY_FILE, 0, [b], None, None);
    assert f.size == |Contents(f)| == 1 && Present(f.pages) == 1;
    NeedsTwo(f, |buf|);
    ok, g, taken := WriteData(f, PAGE_SIZE, buf, None, Some(1));
    assert g.size == |Contents(g)| == 1;
    var panics;
    panics, h, freed := TruncateData(g, 0);
    PresentSplit(g.pages, EndPage(g));
    AtMostAll(g.pages[..EndPage(g)]);
  }

  /** Growing an empty file makes no page, so shrinking it again, to anything but nothing, trips over the slice. */
  method GrowThenShrink(big: nat, small: nat) returns (panics: bool)
    requires small < big
    ensures panics <==> small > 0
  {
    var panicked, grown, freed := TruncateData(EMPTY_FILE, big);
    assert grown.size == |Contents(grown)| == big;
    panics, grown, freed := TruncateData(grown, small);
  }

  lemma PresentSplit(pages: Pages, k: nat)
    requires k <= |pages|
    ensures Present(pages) == Present(pages[..k]) + Present(pages[k..])
  {
    PresentConcat(pages[..k], pages[k..]);
    assert pages == pages[..k] + pages[k..];
  }

  /** The pages kept, those cut and those past the end are all pages. */
  lemma CutPresent(pages: Pages, kept: nat, end: nat)
    requires kept <= end <= |pages|
    ensures Present(pages) == Present(pages[..kept]) + Present(pages[kept..end]) + Present(pages[end..])
  {
    var above := pages[kept..];
    PresentSplit(pages, kept);
    PresentSplit(above, end - kept);
    assert above[..end - kept] == pages[kept..end] && above[end - kept..] == pages[end..];
  }

  /** Zeroes the last kept page from the new end on. */
  method ZeroTail(kept: Pages, size: nat) returns (r: Pages)
    requires |kept| == DivCeil(size, PAGE_SIZE)
    ensures CutTo(kept, r, size) && Present(r) == Present(kept)
  {
    r := kept;
    var tail := size % PAGE_SIZE;
    if |kept| > 0 && tail != 0 && kept[|kept| - 1].Some? {
      var zeroed: Page := kept[|kept| - 1].value[..tail] + Zeros(PAGE_SIZE - tail);
      PresentUpdate(kept, |kept| - 1, Some(zeroed));
      r := kept[|kept| - 1 := Some(zeroed)];
    }
  }

  ghost predicate CutTo(before: Pages, after: Pages, size: nat) {
    && |after| == DivCeil(size, PAGE_SIZE) <= |before|
    && (forall p | 0 <= p < |after| - 1 :: after[p] == before[p])
    && (after != [] ==>
          var p, tail := |after| - 1, size % PAGE_SIZE;
          && after[p].Some? == before[p].Some?
          && (tail == 0 ==> after[p] == before[p])
          && (after[p].Some? && tail != 0 ==> after[p].value == before[p].value[..tail] + Zeros(PAGE_SIZE - tail)))
  }

  lemma {:induction false} CutIsFlat(f: FileData, g: FileData)
    requires g.size < f.size && |g.pages| <= |f.pages| && CutTo(f.pages[..|g.pages|], g.pages, g.size)
    ensures Contents(g) == Truncate(Contents(f), g.size) && Clean(g) && NoSpare(g)
  {
    forall i: nat ensures ByteAt(g.pages, i) == if i < g.size then ByteAt(f.pages, i) else 0 {
      CutByte(f.pages, g.pages, g.size, i);
    }
  }

  /** After the cut every byte below the new size is the old one and every other byte is zero. */
  lemma CutByte(before: Pages, after: Pages, size: nat, i: nat)
    requires |after| <= |before| && CutTo(before[..|after|], after, size)
    ensures ByteAt(after, i) == if i < size then ByteAt(before, i) else 0
  {
  }
}
