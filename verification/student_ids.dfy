/** The student-identifier allocator: the next "STU-<year>-<seq>" identifier
    is derived from the identifier of the most recently created student.

    The allocator reads the latest identifier and the registration inserts
    the new student later, outside one transaction; two concurrent
    registrations can therefore read the same latest identifier and receive
    the same sequence number. The model is sequential, so that race does not
    arise in it. */
module StudentIds {
  import opened Results
  import opened Strings
  import opened Numbers

  /** First segment of every identifier, and the prefix the allocator looks for. */
  const Tag: string := "STU"
  const Separator: char := '-'
  const Prefix: string := Tag + [Separator]

  /** The sequence number carried by a previous identifier, when it has the
      recognised shape: non-empty, starting with "STU-", exactly three
      '-'-separated segments, and a third segment `int.TryParse` accepts.
      The middle (year) segment is not inspected. */
  function LastSequence(latestId: string): (r: Option<int>)
    ensures r.Some? ==> 0 <= r.value <= MaxInt32
  {
    if latestId != "" && StartsWith(latestId, Prefix) then
      var parts := Split(latestId, Separator);
      if |parts| == 3 then
        SplitPieces(latestId, Separator);
        ParseWithoutMinus(parts[2]);
        TryParseInt32(parts[2])
      else None
    else None
  }

  /** The sequence number the next identifier carries: one more than the
      previous one in unchecked 32-bit arithmetic, or 1 when there is no
      usable previous identifier. */
  function NextSequence(latestId: string): (n: int)
    ensures IsInt32(n)
    ensures n >= 1 || (LastSequence(latestId) == Some(MaxInt32) && n == MinInt32)
  {
    match LastSequence(latestId)
    case Some(last) => Wrap32(last + 1)
    case None => 1
  }

  /** The calendar years `DateTime` can represent. */
  predicate IsYear(year: int) {
    1 <= year <= 9999
  }

  /** The identifier text for a year and a sequence number: "STU", the year
      and the number in `D4` format, joined by '-'. */
  function FormatStudentId(year: int, n: int): (id: string)
    requires IsYear(year)
    ensures StartsWith(id, Prefix)
  {
    JoinThree(Tag, FormatD(year, 0), FormatD(n, 4), Separator);
    Join([Tag, FormatD(year, 0), FormatD(n, 4)], Separator)
  }

  /** `GenerateStudentIdAsync`, with the clock's current year as a parameter. */
  function GenerateStudentId(latestId: string, year: int): (id: string)
    requires IsYear(year)
    ensures StartsWith(id, Prefix)
  {
    FormatStudentId(year, NextSequence(latestId))
  }

  // ---------------------------------------------------------------- lemmas

  /** The identifier text written out as the interpolated string it is. */
  lemma FormatSpelledOut(year: int, n: int)
    requires IsYear(year)
    ensures FormatStudentId(year, n) == "STU-" + FormatD(year, 0) + "-" + FormatD(n, 4)
  {
    JoinThree(Tag, FormatD(year, 0), FormatD(n, 4), Separator);
  }

  /** The identifier text splits into "STU", the year, and the pieces of the
      rendered number (a single piece unless the number is negative). */
  lemma FormatSegments(year: int, n: int)
    requires IsYear(year)
    ensures Split(FormatStudentId(year, n), '-') == ["STU", FormatD(year, 0)] + Split(FormatD(n, 4), '-')
    ensures n >= 0 ==> Split(FormatStudentId(year, n), '-') == ["STU", FormatD(year, 0), FormatD(n, 4)]
  {
    var y := FormatD(year, 0);
    var d := FormatD(n, 4);
    assert y == Digits(year);
    assert '-' !in Tag;
    SplitThree(Tag, y, d, '-');
    if n >= 0 {
      FormatNonNegative(n, 4);
      assert Split(d, '-') == [d];
    }
  }

  /** Reading back the identifier text of a non-negative number yields it. */
  lemma {:induction false} FormatRoundTrip(year: int, n: int)
    requires IsYear(year)
    requires 0 <= n <= MaxInt32
    ensures LastSequence(FormatStudentId(year, n)) == Some(n)
  {
    FormatSegments(year, n);
    ParseFormat(n, 4);
  }

  /** Without a previous identifier the first sequence number is 0001. */
  lemma FirstAllocation(year: int)
    requires IsYear(year)
    ensures GenerateStudentId("", year) == "STU-" + FormatD(year, 0) + "-0001"
  {
    EmptyLatestId();
    FirstIdText(year);
  }

  lemma EmptyLatestId()
    ensures NextSequence("") == 1
  {
  }

  lemma FirstIdText(year: int)
    requires IsYear(year)
    ensures FormatStudentId(year, 1) == "STU-" + FormatD(year, 0) + "-0001"
  {
    FormatSpelledOut(year, 1);
    RenderOne();
  }

  /** A well-shaped previous identifier carrying `n` is followed by `n + 1`. */
  lemma IncrementAllocation(latestId: string, year: int, n: int)
    requires IsYear(year)
    requires StartsWith(latestId, Prefix)
    requires |Split(latestId, '-')| == 3
    requires TryParseInt32(Split(latestId, '-')[2]) == Some(n)
    requires n < MaxInt32
    ensures NextSequence(latestId) == n + 1
    ensures GenerateStudentId(latestId, year) == "STU-" + FormatD(year, 0) + "-" + FormatD(n + 1, 4)
  {
    assert LastSequence(latestId) == Some(n);
    FormatSpelledOut(year, n + 1);
  }

  /** Every way of failing the shape test restarts the sequence at 1; the
      only other previous identifier that leads to 1 is one carrying 0. */
  lemma ResetAllocation(latestId: string)
    ensures (|| latestId == ""
             || !StartsWith(latestId, Prefix)
             || |Split(latestId, '-')| != 3
             || TryParseInt32(Split(latestId, '-')[2]).None?)
            ==> NextSequence(latestId) == 1
    ensures NextSequence(latestId) == 1 <==> LastSequence(latestId) in {None, Some(0)}
  {
  }

  /** Round trip: reading back a freshly generated identifier yields the
      sequence number that was written into it. */
  lemma AllocationRoundTrip(latestId: string, year: int)
    requires IsYear(year)
    requires NextSequence(latestId) >= 0
    ensures LastSequence(GenerateStudentId(latestId, year)) == Some(NextSequence(latestId))
  {
    FormatRoundTrip(year, NextSequence(latestId));
  }

  /** Two allocations in a row, each from the identifier the previous one
      produced, give consecutive sequence numbers whatever the years. */
  lemma ConsecutiveAllocations(latestId: string, year1: int, year2: int)
    requires IsYear(year1) && IsYear(year2)
    requires 0 <= NextSequence(latestId) < MaxInt32
    ensures NextSequence(GenerateStudentId(latestId, year1)) == NextSequence(latestId) + 1
  {
    AllocationRoundTrip(latestId, year1);
  }

  /** Sequence numbers are rendered in decimal with at least four digits,
      and sequence numbers from 10000 on appear in full. */
  lemma SequenceRendering(latestId: string, year: int)
    requires IsYear(year)
    requires NextSequence(latestId) >= 0
    ensures var s := FormatD(NextSequence(latestId), 4);
      && GenerateStudentId(latestId, year) == "STU-" + FormatD(year, 0) + "-" + s
      && AllDigits(s) && |s| >= 4 && ValueOf(s) == NextSequence(latestId)
      && (NextSequence(latestId) >= 10000 ==> s == Digits(NextSequence(latestId)))
  {
    var n := NextSequence(latestId);
    FormatSpelledOut(year, n);
    FormatNonNegative(n, 4);
    if n >= 10000 {
      FormatUnpadded(n, 4);
    }
  }

  /** After a previous identifier carrying `int.MaxValue` the addition wraps
      to `int.MinValue`, whose rendering "-2147483648" brings its own '-':
      the identifier gets an empty third segment and four segments in all,
      so the allocation after it starts over at 1. */
  lemma WrapAroundAllocation(latestId: string, year: int)
    requires IsYear(year)
    requires LastSequence(latestId) == Some(MaxInt32)
    ensures NextSequence(latestId) == MinInt32
    ensures var parts := Split(GenerateStudentId(latestId, year), '-');
      |parts| == 4 && parts[2] == ""
    ensures LastSequence(GenerateStudentId(latestId, year)) == None
    ensures NextSequence(GenerateStudentId(latestId, year)) == 1
  {
    NegativeIdSegments(year, NextSequence(latestId));
  }

  /** The identifier text of a negative number has four segments, the third
      of them empty. */
  lemma NegativeIdSegments(year: int, n: int)
    requires IsYear(year)
    requires n < 0
    ensures var parts := Split(FormatStudentId(year, n), '-');
      |parts| == 4 && parts[2] == ""
  {
    FormatSegments(year, n);
    NegativeSplit(n);
  }

  /** A negative number's rendering splits at its own sign. */
  lemma NegativeSplit(n: int)
    requires n < 0
    ensures Split(FormatD(n, 4), '-') == ["", FormatD(-n, 4)]
  {
    var magnitude := PadLeft(Digits(-n), 4, '0');
    assert magnitude == FormatD(-n, 4);
    FormatNonNegative(-n, 4);
    assert '-' !in magnitude;
    assert FormatD(n, 4) == [] + ['-'] + magnitude;
    SplitCons([], '-', magnitude);
  }

  // Worked examples of the allocator, and two consequences of reusing
  // `int.TryParse`. Each literal fact is its own small lemma.

  /** "STU-2023-0007" (see `Id2023Seven`) is followed by "STU-<year>-0008",
      in whatever year. */
  lemma IncrementExample(year: int)
    requires IsYear(year)
    ensures GenerateStudentId(FormatStudentId(2023, 7), year) == "STU-" + FormatD(year, 0) + "-0008"
  {
    SevenThenEight();
    EightText(year);
  }

  lemma SevenThenEight()
    ensures NextSequence(FormatStudentId(2023, 7)) == 8
  {
    FormatRoundTrip(2023, 7);
  }

  lemma EightText(year: int)
    requires IsYear(year)
    ensures FormatStudentId(year, 8) == "STU-" + FormatD(year, 0) + "-0008"
  {
    FormatSpelledOut(year, 8);
    RenderEight();
  }

  /** The text of the identifier for 2023 and 7. */
  lemma Id2023Seven()
    ensures FormatStudentId(2023, 7) == "STU-2023-0007"
  {
    FormatSpelledOut(2023, 7);
    RenderYear2023();
    RenderSeven();
  }

  /** "STU-2023" has two segments only, so the sequence restarts. */
  lemma TooFewSegmentsExample(year: int)
    requires IsYear(year)
    ensures Join(["STU", "2023"], '-') == "STU-2023"
    ensures GenerateStudentId(Join(["STU", "2023"], '-'), year) == "STU-" + FormatD(year, 0) + "-0001"
  {
    TwoJoined();
    SplitJoin(["STU", "2023"], '-');
    FirstIdText(year);
  }

  lemma TwoJoined()
    ensures Join(["STU", "2023"], '-') == "STU-2023"
  {
    assert ["STU", "2023"][1..] == ["2023"];
  }

  /** The year segment of a previous identifier is not checked at all:
      "STU--0005" carries sequence number 5. */
  lemma EmptyYearSegmentExample()
    ensures Join(["STU", "", "0005"], '-') == "STU--0005"
    ensures LastSequence(Join(["STU", "", "0005"], '-')) == Some(5)
  {
    EmptyYearJoined();
    SplitJoin(["STU", "", "0005"], '-');
    ParseFormat(5, 4);
    RenderFive();
  }

  lemma EmptyYearJoined()
    ensures Join(["STU", "", "0005"], '-') == "STU--0005"
  {
    JoinThree("STU", "", "0005", '-');
  }

  /** `int.TryParse` admits surrounding white space and a plus sign:
      "STU-2024- +41 " carries sequence number 41. */
  lemma LenientParseExample()
    ensures Join(["STU", "2024", " +41 "], '-') == "STU-2024- +41 "
    ensures LastSequence(Join(["STU", "2024", " +41 "], '-')) == Some(41)
  {
    LenientJoined();
    SplitJoin(["STU", "2024", " +41 "], '-');
    LenientCore();
  }

  lemma LenientJoined()
    ensures Join(["STU", "2024", " +41 "], '-') == "STU-2024- +41 "
  {
    JoinThree("STU", "2024", " +41 ", '-');
  }

  lemma LenientCore()
    ensures TryParseInt32(" +41 ") == Some(41)
  {
    assert TrimStartWhite(" +41 ") == "+41 ";
    assert TrimEndNul("+41 ") == "+41 ";
    assert TrimEndWhite("+41 ") == "+41";
    assert ValueOf("41") == 41 by {
      assert "41"[..1] == "4";
    }
  }

  lemma RenderOne() ensures FormatD(1, 4) == "0001" { }
  lemma RenderFive() ensures FormatD(5, 4) == "0005" { }
  lemma RenderSeven() ensures FormatD(7, 4) == "0007" { }
  lemma RenderEight() ensures FormatD(8, 4) == "0008" { }
  lemma RenderYear2023() ensures FormatD(2023, 0) == "2023" { }
}
