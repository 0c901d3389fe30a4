/** What the columns of a record line mean, short rows and long ones, with and without a player id in front. */
module RecordFormats {
  import opened LegacyRows
  import opened Prelude
  import opened RecordRoundTrip
  import opened RecordRows
  import opened Text

  // ----- numerals

  predicate AllZeros(s: string) { forall c <- s :: c == '0' }

  lemma {:induction false} ZerosInFront(zeros: string, s: string)
    requires AllZeros(zeros) && forall c <- s :: IsDigit(c)
    ensures (forall c <- zeros + s :: IsDigit(c)) && DigitsValue(zeros + s) == DigitsValue(s)
    decreases |s|, |zeros|
  {
    if s != [] {
      var short := s[..|s| - 1];
      assert forall c <- short :: c in s;
      ZerosInFront(zeros, short);
      assert (zeros + s)[..|zeros + s| - 1] == zeros + short;
    } else if zeros != [] {
      var fewer := zeros[..|zeros| - 1];
      assert forall c <- fewer :: c in zeros;
      ZerosInFront(fewer, s);
      assert zeros[|zeros| - 1] in zeros;
      assert (zeros + s)[..|zeros + s| - 1] == fewer + s;
    }
  }

  lemma DigitsRead(digits: string, max: nat)
    requires digits != [] && forall c <- digits :: IsDigit(c)
    ensures var r := if DigitsValue(digits) <= max then Some(DigitsValue(digits)) else None;
            ParseUnsigned(digits, max) == r && ParseUnsigned(['+'] + digits, max) == r
  {
    hide DigitsValue;
    assert digits[0] in digits;
    assert (['+'] + digits)[1..] == digits;
  }

  /** A numeral may carry a plus sign and leading zeros; it is refused exactly when its value is above the limit. */
  lemma NumeralReads(zeros: string, n: nat, max: nat)
    requires AllZeros(zeros)
    ensures var r := if n <= max then Some(n) else None;
            ParseUnsigned(zeros + PrintNat(n), max) == r && ParseUnsigned(['+'] + (zeros + PrintNat(n)), max) == r
  {
    hide ParseUnsigned, DigitsValue;
    ZerosInFront(zeros, PrintNat(n));
    PrintedValue(n);
    DigitsRead(zeros + PrintNat(n), max);
  }

  // ----- names

  lemma {:induction false} TrimmedEnd(s: string, blanks: string)
    requires (forall c <- blanks :: IsWhitespace(c)) && (s == [] || !IsWhitespace(s[|s| - 1]))
    ensures TrimEnd(s + blanks) == s
    decreases |blanks|
  {
    if blanks == [] {
      assert s + blanks == s;
    } else {
      var fewer := blanks[..|blanks| - 1];
      assert forall c <- fewer :: c in blanks;
      assert blanks[|blanks| - 1] in blanks;
      assert (s + blanks)[..|s + blanks| - 1] == s + fewer;
      TrimmedEnd(s, fewer);
    }
  }

  lemma {:induction false} TrimmedStart(blanks: string, s: string)
    requires (forall c <- blanks :: IsWhitespace(c)) && s != [] && !IsWhitespace(s[0])
    ensures TrimStart(blanks + s) == s
    decreases |blanks|
  {
    if blanks == [] {
      assert blanks + s == s;
    } else {
      assert forall c <- blanks[1..] :: c in blanks;
      assert blanks[0] in blanks;
      assert (blanks + s)[1..] == blanks[1..] + s;
      TrimmedStart(blanks[1..], s);
    }
  }

  lemma {:induction false} StartIsBlank(s: string) returns (n: nat)
    ensures n <= |s| && TrimStart(s) == s[n..] && forall i :: 0 <= i < n ==> IsWhitespace(s[i])
  {
    hide IsWhitespace;
    n := 0;
    if s != [] && IsWhitespace(s[0]) {
      var rest := StartIsBlank(s[1..]);
      n := rest + 1;
      assert s[1..][rest..] == s[n..];
      assert forall i :: 0 < i < n ==> s[i] == s[1..][i - 1];
    }
  }

  lemma NameCharsByCode(c: char)
    ensures IsNameChar(c) <==> HasWordCode(c)
  {
  }

  /** The field is the name with blanks before and after it. */
  ghost predicate Around(before: string, name: string, after: string, field: string) {
    && field == before + name + after
    && (forall c <- before :: IsWhitespace(c)) && forall c <- after :: IsWhitespace(c)
  }

  /** A field holds a name when that is what remains between blanks: 1 to 24 letters, digits, underscores or hyphens. */
  lemma NameReads(field: string, name: string)
    ensures ParseName(field) == Some(name)
       <==> && 1 <= |name| <= 24 && (forall c <- name :: HasWordCode(c))
            && exists before, after :: Around(before, name, after, field)
  {
    hide IsNameChar, IsWhitespace, HasWordCode, TrimStart;
    forall c | c in name ensures IsNameChar(c) <==> HasWordCode(c) {
      NameCharsByCode(c);
    }
    if ValidName(name) {
      forall before, after | Around(before, name, after, field) ensures ParseName(field) == Some(name) {
        BlanksAroundNames(before, name, after);
      }
    }
    if ParseName(field) == Some(name) {
      var end := TrimEnd(field);
      var n := StartIsBlank(end);
      var before, after := end[..n], field[|end|..];
      assert field == end + after && end == before + name;
      assert Around(before, name, after, field);
    }
  }

  /** Blanks around a valid name are dropped. */
  lemma BlanksAroundNames(before: string, name: string, after: string)
    requires ValidName(name) && (forall c <- before :: IsWhitespace(c)) && forall c <- after :: IsWhitespace(c)
    ensures ParseName(before + name + after) == Some(name)
  {
    assert forall c <- name :: IsNameChar(c) && !IsWhitespace(c);
    assert name[|name| - 1] in name && name[0] in name;
    var s := before + name;
    assert s[|s| - 1] == name[|name| - 1];
    TrimmedEnd(s, after);
    TrimmedStart(before, name);
  }

  // ----- short rows

  /** A counter column of a short row. */
  predicate IsCount(field: string) { ParseUnsigned(field, 65535).Some? }

  function Count(field: string): u16
    requires IsCount(field)
  {
    ParseUnsigned(field, 65535).value
  }

  /** These three counters, and all others at zero. */
  function NewRecord(wins: u16, losses: u16, noContests: u16): PlayerRecord {
    PlayerRecord(wins, losses, noContests, 0, 0, 0, 0, 0, 0, 0, map[])
  }

  /**
   A row of four fields is a player's name, wins, losses and no-contests, and everything else starts at zero;
   it is refused exactly when the name or one of the three counters is malformed.
   */
  lemma ShortRowReads(fields: seq<string>)
    requires |fields| == 4 && forall f <- fields :: '\t' !in f
    ensures RowOfLine(Join(fields, '\t'))
         == if ParseName(fields[0]).Some? && IsCount(fields[1]) && IsCount(fields[2]) && IsCount(fields[3])
            then Some(Row(None, ParseName(fields[0]).value,
                          NewRecord(Count(fields[1]), Count(fields[2]), Count(fields[3]))))
            else None
  {
    hide ParseName, ParseUnsigned, Split, Join;
    SplitOfJoin(fields, '\t');
  }

  /** The same behind a player id, which must be a positive 32-bit number. */
  lemma ShortLegacyRowReads(fields: seq<string>)
    requires |fields| == 5 && forall f <- fields :: '\t' !in f
    ensures var id := ParseUnsigned(fields[0], 0xFFFF_FFFF);
            RowOfLine(Join(fields, '\t'))
            == if id.Some? && id.value > 0 && ParseName(fields[1]).Some?
                  && IsCount(fields[2]) && IsCount(fields[3]) && IsCount(fields[4])
               then Some(Row(id, ParseName(fields[1]).value,
                             NewRecord(Count(fields[2]), Count(fields[3]), Count(fields[4]))))
               else None
  {
    hide ParseName, ParseUnsigned, Split, Join;
    SplitOfJoin(fields, '\t');
  }

  /** A printed short row means the same as the full row the serializer writes for that player. */
  lemma ShortRowIsFullRow(name: string, w: u16, l: u16, n: u16)
    requires ValidName(name)
    ensures RowOfLine(Join([name, PrintNat(w), PrintNat(l), PrintNat(n)], '\t'))
         == RowOfLine(RecordLine(name, NEW_RECORD.(wins := w, losses := l, noContests := n)))
         == Some(Row(None, name, NewRecord(w, l, n)))
  {
    hide ParseUnsigned, PrintNat, ParseName, RecordLine, RowOfLine;
    NameRoundTrip(name);
    DigitsAreClean(w);
    DigitsAreClean(l);
    DigitsAreClean(n);
    ParseOfPrint(w, U16_MAX);
    ParseOfPrint(l, U16_MAX);
    ParseOfPrint(n, U16_MAX);
    ShortRowReads([name, PrintNat(w), PrintNat(l), PrintNat(n)]);
    RowRoundTrip(name, NEW_RECORD.(wins := w, losses := l, noContests := n));
  }

  lemma ShortLegacyRowIsFullRow(name: string, w: u16, l: u16, n: u16, id: u32)
    requires ValidName(name) && id > 0
    ensures RowOfLine(Join([PrintNat(id), name, PrintNat(w), PrintNat(l), PrintNat(n)], '\t'))
         == RowOfLine(LegacyLine(name, NEW_RECORD.(wins := w, losses := l, noContests := n), id))
         == Some(Row(Some(id), name, NewRecord(w, l, n)))
  {
    hide ParseUnsigned, PrintNat, ParseName, LegacyLine, RowOfLine, IsBlank;
    NameRoundTrip(name);
    DigitsAreClean(id);
    DigitsAreClean(w);
    DigitsAreClean(l);
    DigitsAreClean(n);
    ParseOfPrint(id, U32_MAX);
    ParseOfPrint(w, U16_MAX);
    ParseOfPrint(l, U16_MAX);
    ParseOfPrint(n, U16_MAX);
    ShortLegacyRowReads([PrintNat(id), name, PrintNat(w), PrintNat(l), PrintNat(n)]);
    LegacyRowExists(name, NEW_RECORD.(wins := w, losses := l, noContests := n), id);
  }

  // ----- full rows

  /** The twelve columns of a full row, in their order. */
  function Columns(name: string, w: u16, l: u16, n: u16, roundWins: u16, roundLosses: u16, damage: u32, healing: u32,
                   combatMs: u32, used: u16, hits: u16, picks: Picks): seq<string>
  {
    [name, PrintNat(w), PrintNat(l), PrintNat(n), PrintNat(roundWins), PrintNat(roundLosses), PrintNat(damage),
     PrintNat(healing), PrintNat(combatMs), PrintNat(used), PrintNat(hits), PicksField(picks)]
  }

  /** What the reader makes of these columns and what the writer makes of that record are inverse to each other. */
  lemma FullRowColumns(name: string, w: u16, l: u16, n: u16, roundWins: u16, roundLosses: u16, damage: u32,
                       healing: u32, combatMs: u32, used: u16, hits: u16, picks: Picks)
    requires ValidName(name) && CleanPicks(picks)
    ensures var line := Join(Columns(name, w, l, n, roundWins, roundLosses, damage, healing, combatMs, used, hits,
                                     picks), '\t');
            var record := PlayerRecord(w, l, n, roundWins, roundLosses, damage, healing, combatMs, used, hits, picks);
            RecordLine(name, record) == line && RowOfLine(line) == Some(Row(None, name, record))
  {
    hide PrintNat, PicksField, RowOfLine, CleanPicks, ValidName;
    var record := PlayerRecord(w, l, n, roundWins, roundLosses, damage, healing, combatMs, used, hits, picks);
    RowRoundTrip(name, record);
  }

  /** No other number of fields is a row. */
  lemma OtherFieldCounts(fields: seq<string>)
    requires fields != [] && |fields| !in {4, 5, 12, 13} && forall f <- fields :: '\t' !in f
    ensures RowOfLine(Join(fields, '\t')).None?
  {
    SplitOfJoin(fields, '\t');
  }

  /** A carriage return before the newline belongs to the line end, so files with either line end read the same. */
  lemma {:induction false} CarriageReturnsAreDropped(lines: seq<string>)
    requires forall l <- lines :: '\n' !in l && (l == [] || l[|l| - 1] != '\r')
    ensures Lines(CrLfLines(lines)) == lines == Lines(EndLines(lines))
  {
    hide Lines;
    if lines == [] {
      NoLines();
    } else {
      assert lines[0] in lines;
      assert forall l <- lines[1..] :: l in lines;
      CarriageReturnsAreDropped(lines[1..]);
      CrLfStep(lines[0], CrLfLines(lines[1..]));
      LinesStep(lines[0], EndLines(lines[1..]));
      assert lines == [lines[0]] + lines[1..];
    }
  }

  /** Each line followed by a carriage return and a newline. */
  function CrLfLines(lines: seq<string>): string {
    if lines == [] then [] else lines[0] + ['\r'] + ['\n'] + CrLfLines(lines[1..])
  }

  lemma CrLfStep(l: string, rest: string)
    requires '\n' !in l
    ensures Lines(l + ['\r'] + ['\n'] + rest) == [l] + Lines(rest)
  {
    var s := l + ['\r'] + ['\n'] + rest;
    CutAtFirst(l + ['\r'], '\n', rest);
    assert (l + ['\r'])[..|l|] == l;
    assert s[..|l| + 1] == l + ['\r'] && s[|l| + 2..] == rest;
  }
}
