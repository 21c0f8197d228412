/**
 The layout report (src/report-layout.c:33-90): one mark per object, with the page
 boundaries it spans and the padding that follows it.
 */
module Layout {
  import opened Bytes
  import opened Counters
  import opened JournalFile
  import opened ObjectWalk

  const PAGE_SIZE := 4096

  /** How many multiples of the page size lie in [from, end). */
  function PagesIn(from: nat, end: nat): nat
    decreases end
  {
    if end <= from then 0 else PagesIn(from, end - 1) + if (end - 1) % PAGE_SIZE == 0 then 1 else 0
  }

  /** How many page boundaries lie strictly inside an object. */
  function Spanned(offset: nat, size: nat): nat {
    PagesIn(offset + 1, offset + size)
  }

  function PageBelow(n: nat): nat { n / PAGE_SIZE * PAGE_SIZE }

  function PageAbove(n: nat): nat { (n + PAGE_SIZE - 1) / PAGE_SIZE * PAGE_SIZE }

  lemma {:induction false} PagesByDivision(from: nat, end: nat)
    requires from <= end
    ensures PagesIn(from, end) == PageAbove(end) / PAGE_SIZE - PageAbove(from) / PAGE_SIZE
    decreases end
  {
    if from < end {
      PagesByDivision(from, end - 1);
    }
  }

  /** The arithmetic of the report: for an object of some size, page_delta / PAGE_SIZE - 1 boundaries lie inside it. */
  lemma DeltaCountsSpanned(offset: nat, size: nat)
    requires size > 0
    ensures PageAbove(offset + size) - PageBelow(offset) == (Spanned(offset, size) + 1) * PAGE_SIZE
  {
    hide PagesIn;
    PagesByDivision(offset + 1, offset + size);
    assert PageAbove(offset + 1) == PageBelow(offset) + PAGE_SIZE;
  }

  // ----- The marks -----

  function Digit(d: nat): char
    requires d < 10
  {
    "0123456789"[d]
  }

  /** %PRIu64 */
  function Decimal(n: nat): (s: string)
    ensures |s| >= 1
  {
    if n < 10 then [Digit(n)] else Decimal(n / 10) + [Digit(n % 10)]
  }

  /** The number that a string of digits stands for. */
  function ReadBack(s: string): int {
    if s == "" then 0 else 10 * ReadBack(s[..|s| - 1]) + (s[|s| - 1] as int - '0' as int)
  }

  predicate AllDigits(s: string) {
    forall i :: 0 <= i < |s| ==> '0' <= s[i] <= '9'
  }

  lemma DigitIs(d: nat)
    requires d < 10
    ensures Digit(d) as int - '0' as int == d && '0' <= Digit(d) <= '9'
  {}

  /** A number is printed in digits that read as the number, without a leading zero. */
  lemma {:induction false} DecimalReadsBack(n: nat)
    ensures AllDigits(Decimal(n)) && ReadBack(Decimal(n)) == n && (n > 0 ==> Decimal(n)[0] != '0')
  {
    hide Digit;
    var s := Decimal(n);
    if n < 10 {
      DigitIs(n);
      assert s[..0] == "";
    } else {
      DecimalReadsBack(n / 10);
      DigitIs(n % 10);
      assert s[..|s| - 1] == Decimal(n / 10);
    }
  }

  function Pow10(n: nat): (p: nat)
    ensures p >= 1
  {
    if n == 0 then 1 else 10 * Pow10(n - 1)
  }

  lemma {:induction false} DecimalFits(n: nat, digits: nat)
    requires digits >= 1 && n < Pow10(digits)
    ensures |Decimal(n)| <= digits
  {
    if n >= 10 {
      DecimalFits(n / 10, digits - 1);
    }
  }

  /** What stands before the size of an object that spans n page boundaries. */
  function BoundaryMark(n: nat): string {
    if n == 0 then "" else if n == 1 then "|" else "|" + Decimal(n) + "|"
  }

  /** What stands behind the size of an object that is followed by n bytes of padding. */
  function PaddingMark(n: nat): string {
    if n == 0 then "" else if n == 1 then "+" else "+" + Decimal(n)
  }

  function Letter(kind: nat): char
    requires kind < OBJECT_TYPE_MAX
  {
    "?dfeDFAt"[kind]
  }

  /** The letter of each type, and of no other. */
  lemma LettersOfTypes()
    ensures Letter(0) == '?' && Letter(1) == 'd' && Letter(2) == 'f' && Letter(3) == 'e'
    ensures Letter(4) == 'D' && Letter(5) == 'F' && Letter(6) == 'A' && Letter(7) == 't'
  {}

  /** The mark of an object, by what it is to tell: its page boundaries, its size and its padding. */
  function Mark(offset: nat, o: ObjectHeader, bars: nat): string
    requires o.kind as nat < OBJECT_TYPE_MAX
  {
    (if offset % PAGE_SIZE == 0 then "| " else "") + [Letter(o.kind as nat)] + BoundaryMark(bars)
      + Decimal(o.size) + PaddingMark(Aligned(o.size) - o.size) + " "
  }

  /** snprintf into a buffer of `room` bytes, the last for the terminator. */
  function Printed(text: string, room: nat): string
    requires room > 0
  {
    if |text| < room then text else text[..room - 1]
  }

  const BOUNDARY_ROOM := 22
  const ALIGNMENT_ROOM := 3

  lemma PowersOfTen()
    ensures Pow10(16) == 10_000_000_000_000_000
  {
    assert Pow10(8) == 100_000_000;
    assert Pow10(16) == 100_000_000 * Pow10(8);
  }

  /** Both marks fit the buffers they are printed into. */
  lemma MarksFit(offset: nat, size: nat)
    requires size < U64_LIMIT
    ensures |BoundaryMark(Spanned(offset, size))| < 22
    ensures |PaddingMark(Aligned(size) - size)| < 3
  {
    hide Pow10;
    if size > 0 { DeltaCountsSpanned(offset, size); }
    PowersOfTen();
    DecimalFits(Spanned(offset, size), 16);
  }

  /** The padding is computed right even where ALIGN64 wraps around. */
  lemma PaddingByWords(size: nat)
    requires size < U64_LIMIT
    ensures (Align64(size) + U64_LIMIT - size) % U64_LIMIT == Aligned(size) - size < 8
  {
    AlignWraps(size);
  }

  /** The text for an object; an object type without a letter makes the code read past its table of letters. */
  datatype Line = EndOfLine | Text(text: string) | PastTable

  /** The object's first page and all bytes of it lie within 64 bits' worth of pages. */
  predicate PagesFit(offset: nat, size: nat) {
    offset % PAGE_SIZE + size <= U64_LIMIT - PAGE_SIZE
  }

  /** per_data_object: what it prints, and whether the walk goes on; where the pages wrap around, no bar is shown. */
  method PerDataObject(offset: nat, o: ObjectHeader) returns (r: int, line: Line)
    requires o.size < U64_LIMIT && offset < U64_LIMIT
    ensures r == if offset == 0 then 0 else 1
    ensures
      line ==
        if offset == 0 then EndOfLine
        else if o.kind as nat >= OBJECT_TYPE_MAX then PastTable
        else Text(Mark(offset, o, if PagesFit(offset, o.size) then Spanned(offset, o.size) else 0))
  {
    hide Decimal, Spanned, Aligned, Align64, PagesFit;
    if offset == 0 {
      return 0, EndOfLine;
    }
    MarksFit(offset, o.size);
    PaddingByWords(o.size);
    var boundaryMarker, alignmentMarker := "", "";
    var thisPage := offset / PAGE_SIZE * PAGE_SIZE;
    var nextPage := (offset + o.size + PAGE_SIZE - 1) % U64_LIMIT / PAGE_SIZE * PAGE_SIZE;
    var pageDelta := (nextPage + U64_LIMIT - thisPage) % U64_LIMIT;
    assert pageDelta == PageDelta(offset, o.size);
    Delta(offset, o.size);
    if pageDelta > 2 * PAGE_SIZE {
      boundaryMarker := Printed("|" + Decimal(pageDelta / PAGE_SIZE - 1) + "|", BOUNDARY_ROOM);
    } else if pageDelta > PAGE_SIZE {
      boundaryMarker := Printed("|", BOUNDARY_ROOM);
    }
    ghost var bars := if PagesFit(offset, o.size) then Spanned(offset, o.size) else 0;
    assert boundaryMarker == BoundaryMark(bars);
    var alignedDelta := (Align64(o.size) + U64_LIMIT - o.size) % U64_LIMIT;
    if alignedDelta > 1 {
      alignmentMarker := Printed("+" + Decimal(alignedDelta), ALIGNMENT_ROOM);
    } else if alignedDelta > 0 {
      alignmentMarker := Printed("+", ALIGNMENT_ROOM);
    }
    assert alignmentMarker == PaddingMark(Aligned(o.size) - o.size);
    if o.kind as nat >= OBJECT_TYPE_MAX {
      return 1, PastTable;
    }
    var atPage := if thisPage == offset then "| " else "";
    return 1,
      Text(atPage + [Letter(o.kind as nat)] + boundaryMarker + Decimal(o.size) + alignmentMarker + " ");
  }

  /** page_delta in 64 bits */
  function PageDelta(offset: nat, size: nat): nat
    requires offset < U64_LIMIT
  {
    var nextPage := (offset + size + PAGE_SIZE - 1) % U64_LIMIT / PAGE_SIZE * PAGE_SIZE;
    (nextPage + U64_LIMIT - PageBelow(offset)) % U64_LIMIT
  }

  /** What it comes to, for objects of size 0 too. */
  lemma Delta(offset: nat, size: nat)
    requires offset < U64_LIMIT && size < U64_LIMIT
    ensures
      var delta, n := PageDelta(offset, size), Spanned(offset, size);
      if size == 0 then n == 0 && delta <= PAGE_SIZE && PagesFit(offset, size)
      else if PagesFit(offset, size) then delta == (n + 1) * PAGE_SIZE && delta / PAGE_SIZE == n + 1
      else n > 1 && delta <= PAGE_SIZE
  {
    hide PagesIn, PagesFit, PageAbove, PageBelow, PageDelta, Spanned;
    WrappedDelta(offset, size);
    if size > 0 { DeltaCountsSpanned(offset, size); } else { NothingSpanned(offset); }
    FitsByPages(offset, size);
    OneTurn(PageAbove(offset + size) - PageBelow(offset));
    DivShift(0, Spanned(offset, size) + 1);
  }

  lemma NothingSpanned(offset: nat)
    ensures Spanned(offset, 0) == 0
  {}

  lemma OneTurn(delta: nat)
    ensures delta < U64_LIMIT ==> delta % U64_LIMIT == delta
    ensures U64_LIMIT <= delta <= U64_LIMIT + PAGE_SIZE ==> delta % U64_LIMIT <= PAGE_SIZE
  {
    if delta >= U64_LIMIT { assert delta % U64_LIMIT == (delta - U64_LIMIT) % U64_LIMIT; }
  }

  /** Rounding down to a page and wrapping around at 64 bits can change places. */
  lemma WrappedDelta(offset: nat, size: nat)
    requires offset < U64_LIMIT && size < U64_LIMIT
    ensures PageBelow(offset) <= PageAbove(offset + size)
    ensures PageDelta(offset, size) == (PageAbove(offset + size) - PageBelow(offset)) % U64_LIMIT
  {
    var x := offset + size + PAGE_SIZE - 1;
    PageWraps(x);
    var w := x / U64_LIMIT;
    assert PageAbove(offset + size) == x % U64_LIMIT / PAGE_SIZE * PAGE_SIZE + w * U64_LIMIT;
    ModShift(x % U64_LIMIT / PAGE_SIZE * PAGE_SIZE - PageBelow(offset), w);
  }

  lemma PageWraps(x: nat)
    ensures PageBelow(x) == PageBelow(x % U64_LIMIT) + x / U64_LIMIT * U64_LIMIT
  {
    var w, r := x / U64_LIMIT, x % U64_LIMIT;
    assert x == w * U64_LIMIT + r && U64_LIMIT == 4503599627370496 * PAGE_SIZE;
    DivShift(r, w * 4503599627370496);
  }

  lemma DivShift(r: nat, m: nat)
    ensures (r + m * PAGE_SIZE) / PAGE_SIZE == r / PAGE_SIZE + m
  {}

  lemma ModShift(a: int, w: nat)
    ensures (a + U64_LIMIT) % U64_LIMIT == (a + w * U64_LIMIT) % U64_LIMIT
  {}

  lemma FitsByPages(offset: nat, size: nat)
    ensures
      var delta := PageAbove(offset + size) - PageBelow(offset);
      && (PagesFit(offset, size) <==> delta < U64_LIMIT)
      && (size < U64_LIMIT ==> delta <= U64_LIMIT + PAGE_SIZE)
      && (size == 0 ==> delta <= PAGE_SIZE)
  {
    var m, r := offset / PAGE_SIZE, offset % PAGE_SIZE;
    DivShift(r + size + PAGE_SIZE - 1, m);
    assert PageAbove(offset + size) - PageBelow(offset) == PageAbove(r + size);
  }

  /** A data object of 9001 bytes at a page start has two boundaries inside, and seven bytes of padding behind. */
  lemma MarkOfAnObject()
    ensures Spanned(8192, 9001) == 2
    ensures Mark(8192, ObjectHeader(1, 0, 9001), 2) == "| d|2|9001+7 "
  {
    hide Decimal, Spanned, Letter;
    SpansTwo();
    SomeDecimals();
    LettersOfTypes();
  }

  /** The other marks: one boundary and one byte of padding; neither of both. */
  lemma MarksOfOthers()
    ensures Mark(104, ObjectHeader(6, 0, 4095), 1) == "A|4095+ "
    ensures Mark(104, ObjectHeader(7, 0, 64), 0) == "t64 "
  {
    hide Decimal, Letter;
    OtherDecimals();
    LettersOfTypes();
  }

  lemma OtherDecimals()
    ensures Decimal(4095) == "4095" && Decimal(64) == "64"
  {
    assert Decimal(40) == "40";
    assert Decimal(409) == "409";
  }

  lemma SpansTwo()
    ensures Spanned(8192, 9001) == 2
  {
    hide PagesIn;
    DeltaCountsSpanned(8192, 9001);
  }

  lemma SomeDecimals()
    ensures Decimal(2) == "2" && Decimal(7) == "7" && Decimal(9001) == "9001"
  {
    assert Decimal(90) == "90";
    assert Decimal(900) == "900";
  }

  /** The text tells the truth exactly when the pages fit: the mark for any other number of bars is a different one. */
  lemma MarkTellsExactly(offset: nat, o: ObjectHeader)
    requires o.size < U64_LIMIT && offset < U64_LIMIT && o.kind as nat < OBJECT_TYPE_MAX
    ensures
      var shown := if PagesFit(offset, o.size) then Spanned(offset, o.size) else 0;
      Mark(offset, o, shown) == Mark(offset, o, Spanned(offset, o.size)) <==> PagesFit(offset, o.size)
  {
    hide Decimal, Spanned, Aligned, PagesFit;
    Delta(offset, o.size);
    if !PagesFit(offset, o.size) {
      assert |Mark(offset, o, Spanned(offset, o.size))| > |Mark(offset, o, 0)|;
    }
  }

  // ----- All bars of a layout -----

  lemma {:induction false} PagesSplit(a: nat, b: nat, c: nat)
    requires a <= b <= c
    ensures PagesIn(a, c) == PagesIn(a, b) + PagesIn(b, c)
    decreases c
  {
    if b < c { PagesSplit(a, b, c - 1); }
  }

  /** The page boundaries that the marks of these objects tell of. */
  function Bars(file: seq<byte>, s: seq<nat>): nat
    requires Readable(file, s)
  {
    if s == [] then 0
    else (if s[0] % PAGE_SIZE == 0 then 1 else 0) + Spanned(s[0], ObjectAt(file, s[0]).size) + Bars(file, s[1..])
  }

  lemma PaddingIsUneven(size: nat, y: nat)
    requires size <= y < Aligned(size)
    ensures y % 8 != 0
  {}

  lemma PagesAreEven(offset: nat, y: nat)
    requires offset % 8 == 0 && (offset + y) % PAGE_SIZE == 0
    ensures y % 8 == 0
  {}

  /** No page boundary falls into the padding behind an object. */
  lemma {:induction false} NoPageInPadding(offset: nat, size: nat, end: nat)
    requires offset % 8 == 0 && size <= end <= Aligned(size)
    ensures PagesIn(offset + size, offset + end) == 0
    decreases end
  {
    hide Aligned;
    if size < end {
      NoPageInPadding(offset, size, end - 1);
      PaddingIsUneven(size, end - 1);
      if (offset + (end - 1)) % PAGE_SIZE == 0 { PagesAreEven(offset, end - 1); }
    }
  }

  /** An object and its padding: the boundary it starts at, if it does, and those it spans. */
  lemma ObjectBars(offset: nat, size: nat)
    requires offset % 8 == 0 && size > 0
    ensures
      PagesIn(offset, offset + Aligned(size)) == (if offset % PAGE_SIZE == 0 then 1 else 0) + Spanned(offset, size)
  {
    hide Aligned;
    PagesSplit(offset, offset + 1, offset + size);
    PagesSplit(offset, offset + size, offset + Aligned(size));
    NoPageInPadding(offset, size, Aligned(size));
  }

  /** The bars of a layout count every page boundary from the first object to the end of the last exactly once. */
  lemma {:induction false} EveryPageOnce(file: seq<byte>, h: Header, from: nat, s: seq<nat>)
    requires Chain(file, h, from, s) && s != [] && from % 8 == 0 && ObjectAt(file, s[|s| - 1]).size > 0
    ensures
      var last := s[|s| - 1];
      Bars(file, s) == PagesIn(from, last + Aligned(ObjectAt(file, last).size))
    decreases |s|
  {
    hide ObjectAt, HasObject, Spanned, PagesIn, Aligned;
    var size := ObjectAt(file, from).size;
    var last := s[|s| - 1];
    ObjectBars(from, size);
    SumOfEights(from, Aligned(size));
    if |s| > 1 {
      RestIsChain(file, h, from, s);
      EveryPageOnce(file, h, s[1], s[1..]);
      PagesSplit(from, s[1], last + Aligned(ObjectAt(file, last).size));
    } else {
      assert s[1..] == [];
    }
  }

  lemma SumOfEights(a: nat, b: nat)
    requires a % 8 == 0 && b % 8 == 0
    ensures (a + b) % 8 == 0
  {}

  lemma RestIsChain(file: seq<byte>, h: Header, from: nat, s: seq<nat>)
    requires Chain(file, h, from, s) && |s| > 1
    ensures Chain(file, h, s[1], s[1..]) && s[1..][|s| - 2] == s[|s| - 1] && s[1] <= s[|s| - 1]
    ensures s[1] == from + Aligned(ObjectAt(file, from).size)
  {
    hide ObjectAt, HasObject, Aligned;
    assert forall i :: 0 <= i < |s| - 1 ==> s[1..][i] == s[i + 1];
    assert |s| > 2 ==> s[1] < s[|s| - 1];
  }
}
