/** Printing a record table and reading it back gives the table, exactly when its skill ids are clean. */
module RecordRoundTrip {
  import opened Ordering
  import opened Prelude
  import opened RecordRows
  import opened Text

  predicate CleanId(id: string) { id != [] && '\t' !in id && '\n' !in id && ',' !in id && '=' !in id }

  predicate CleanPicks(p: Picks) { forall id <- p :: CleanId(id) }

  /** The tables the file format can hold. */
  predicate Clean(m: Records) { forall name <- m :: ValidName(name) && CleanPicks(m[name].skillPickCounts) }

  // ----- parsing yields clean tables

  lemma SplitStaysWithout(s: string, sep: char, c: char)
    requires c !in s
    ensures forall p <- Split(s, sep) :: c !in p
  {
  }

  lemma {:induction false} PicksAreClean(entries: seq<string>)
    requires forall e <- entries :: '\t' !in e && '\n' !in e && ',' !in e
    ensures var r := PicksOf(entries); r.Some? ==> CleanPicks(r.value)
  {
    if entries != [] {
      var last := entries[|entries| - 1];
      assert last in entries;
      assert forall e <- entries[..|entries| - 1] :: e in entries;
      PicksAreClean(entries[..|entries| - 1]);
      var pick := ParsePick(last);
      if pick.Some? {
        assert CleanId(pick.value.0);
      }
    }
  }

  lemma ParsedPicksAreClean(raw: string)
    requires '\t' !in raw && '\n' !in raw
    ensures var r := ParsedPicks(raw); r.Some? ==> CleanPicks(r.value)
  {
    SplitStaysWithout(raw, ',', '\t');
    SplitStaysWithout(raw, ',', '\n');
    PicksAreClean(Split(raw, ','));
  }

  lemma FieldsGiveClean(fields: seq<string>)
    requires forall f <- fields :: '\t' !in f && '\n' !in f
    ensures var r := ParseFields(fields);
            r.Some? ==> ValidName(r.value.name) && CleanPicks(r.value.record.skillPickCounts)
  {
    hide ParsedPicks, CleanPicks, ParseName;
    assert CleanPicks(map[]) by { NoPicksAreClean(); }
    if |fields| == 12 {
      assert fields[11] in fields && fields[1..][10] == fields[11];
      ParsedPicksAreClean(fields[11]);
    } else if |fields| == 13 {
      assert fields[12] in fields && fields[2..][10] == fields[12];
      ParsedPicksAreClean(fields[12]);
    }
  }

  lemma NoPicksAreClean()
    ensures CleanPicks(map[])
  {
  }

  lemma RowIsClean(line: string)
    requires '\n' !in line
    ensures var r := RowOfLine(line);
            r.Some? ==> ValidName(r.value.name) && CleanPicks(r.value.record.skillPickCounts)
  {
    hide ParseFields;
    SplitStaysWithout(line, '\t', '\n');
    FieldsGiveClean(Split(line, '\t'));
  }

  lemma MergedPicksAreClean(a: Picks, b: Picks)
    requires CleanPicks(a) && CleanPicks(b)
    ensures CleanPicks(MergePicks(a, b))
  {
  }

  lemma {:induction false} TablesAreClean(lines: seq<string>, n: nat)
    requires n <= |lines| && forall l <- lines :: '\n' !in l
    ensures var r := TableUpTo(lines, n); r.Ok? ==> Clean(r.value.records)
  {
    hide RowOfLine, CleanPicks, IsBlank, ValidName, MergePicks;
    if n > 0 {
      TablesAreClean(lines, n - 1);
      assert lines[n - 1] in lines;
      RowIsClean(lines[n - 1]);
      var before, row := TableUpTo(lines, n - 1), RowOfLine(lines[n - 1]);
      if before.Ok? && row.Some? && row.value.name in before.value.records {
        MergedPicksAreClean(before.value.records[row.value.name].skillPickCounts, row.value.record.skillPickCounts);
      }
    }
  }

  /** Every table the parser returns can be written back. */
  lemma ParsedIsClean(text: string)
    ensures var r := ParsedRecords(text); r.Ok? ==> Clean(r.value)
  {
    TablesAreClean(Lines(text), |Lines(text)|);
  }

  // ----- one pick, all picks

  lemma DigitsAreClean(n: nat)
    ensures forall c <- PrintNat(n) :: IsDigit(c)
    ensures '\t' !in PrintNat(n) && '\n' !in PrintNat(n) && ',' !in PrintNat(n) && '=' !in PrintNat(n)
    ensures PrintNat(n) != [] && '\r' !in PrintNat(n)
  {
  }

  lemma PickRoundTrip(id: string, count: u16)
    requires CleanId(id)
    ensures ParsePick(PickEntry(id, count)) == Some((id, count))
    ensures ',' !in PickEntry(id, count) && '\t' !in PickEntry(id, count) && '\n' !in PickEntry(id, count)
  {
    CutAtFirst(id, '=', PrintNat(count));
    ParseOfPrint(count, U16_MAX);
    DigitsAreClean(count);
  }

  ghost predicate IdAt(ids: seq<string>, n: nat, id: string) { exists i :: 0 <= i < n <= |ids| && ids[i] == id }

  /** `m` is `p` cut down to the first `n` of `ids`. */
  ghost predicate CutDown<V>(p: map<string, V>, ids: seq<string>, n: nat, m: map<string, V>) {
    && (forall id :: id in m <==> id in p && IdAt(ids, n, id))
    && (forall id <- m :: id in p && m[id] == p[id])
  }

  lemma CutDownGrows<V>(p: map<string, V>, ids: seq<string>, n: nat, m: map<string, V>)
    requires n < |ids| && ids[n] in p && CutDown(p, ids, n, m)
    ensures CutDown(p, ids, n + 1, m[ids[n] := p[ids[n]]])
  {
    var more := m[ids[n] := p[ids[n]]];
    forall id ensures id in more <==> id in p && IdAt(ids, n + 1, id) {
      if IdAt(ids, n + 1, id) {
        var i :| 0 <= i < n + 1 && ids[i] == id;
        assert i < n ==> IdAt(ids, n, id);
      }
      if IdAt(ids, n, id) {
        var i :| 0 <= i < n && ids[i] == id;
        assert ids[i] == id && 0 <= i < n + 1;
      }
    }
  }

  lemma CutDownAll<V>(p: map<string, V>, m: map<string, V>)
    requires CutDown(p, Sorted(p.Keys), |Sorted(p.Keys)|, m)
    ensures m == p
  {
    var ids := Sorted(p.Keys);
    forall id | id in p ensures id in m {
      assert id in ids;
      var i :| 0 <= i < |ids| && ids[i] == id;
      assert IdAt(ids, |ids|, id);
    }
  }

  lemma {:induction false} PickEntriesParse(p: Picks, n: nat)
    requires CleanPicks(p) && n <= |Sorted(p.Keys)|
    ensures PicksOf(PickEntries(p)[..n]).Some? && CutDown(p, Sorted(p.Keys), n, PicksOf(PickEntries(p)[..n]).value)
    decreases n
  {
    hide ParsePick, PickEntry, Sorted, CleanId;
    var ids, entries := Sorted(p.Keys), PickEntries(p);
    if n > 0 {
      PickEntriesParse(p, n - 1);
      assert entries[..n][..n - 1] == entries[..n - 1];
      SortedHolds(p.Keys, n - 1);
      PickRoundTrip(ids[n - 1], p[ids[n - 1]]);
      CutDownGrows(p, ids, n - 1, PicksOf(entries[..n - 1]).value);
    }
  }

  lemma SortedHolds(keys: set<string>, i: nat)
    requires i < |Sorted(keys)|
    ensures Sorted(keys)[i] in keys
  {
    assert Sorted(keys)[i] in Sorted(keys);
  }

  lemma PickEntriesAreClean(p: Picks, i: nat)
    requires CleanPicks(p) && i < |PickEntries(p)|
    ensures PickEntries(p)[i] != []
    ensures ',' !in PickEntries(p)[i] && '\t' !in PickEntries(p)[i] && '\n' !in PickEntries(p)[i]
  {
    var id := Sorted(p.Keys)[i];
    SortedHolds(p.Keys, i);
    PickRoundTrip(id, p[id]);
  }

  lemma {:induction false} JoinKeepsOut(parts: seq<string>, sep: char, c: char)
    requires c != sep && forall i :: 0 <= i < |parts| ==> c !in parts[i]
    ensures c !in Join(parts, sep)
  {
    if |parts| > 1 {
      JoinKeepsOut(parts[1..], sep, c);
    }
  }

  lemma PicksRoundTrip(p: Picks)
    requires CleanPicks(p)
    ensures ParsedPicks(PicksField(p)) == Some(p)
    ensures '\t' !in PicksField(p) && '\n' !in PicksField(p)
  {
    hide PicksOf, PickEntry;
    var entries := PickEntries(p);
    forall i | 0 <= i < |entries|
      ensures entries[i] != [] && ',' !in entries[i] && '\t' !in entries[i] && '\n' !in entries[i]
    {
      PickEntriesAreClean(p, i);
    }
    JoinKeepsOut(entries, ',', '\t');
    JoinKeepsOut(entries, ',', '\n');
    PickEntriesParse(p, |entries|);
    assert entries[..|entries|] == entries;
    CutDownAll(p, PicksOf(entries).value);
    if entries == [] {
      assert p.Keys == {};
      assert p == map[];
    } else {
      SplitOfJoin(entries, ',');
      assert PicksField(p) != [] by { JoinIsNonEmpty(entries, ','); }
    }
  }

  lemma JoinIsNonEmpty(parts: seq<string>, sep: char)
    requires parts != [] && parts[0] != []
    ensures Join(parts, sep) != []
  {
  }

  // ----- one row

  lemma NameRoundTrip(name: string)
    requires ValidName(name)
    ensures ParseName(name) == Some(name) && '\t' !in name && '\n' !in name
  {
    assert forall c <- name :: IsNameChar(c) && !IsWhitespace(c);
    assert name[|name| - 1] in name && name[0] in name;
    assert TrimEnd(name) == name;
    assert TrimStart(name) == name;
  }

  lemma CounterRoundTrip(n: nat, max: nat)
    requires n <= max
    ensures ParseUnsigned(PrintNat(n), max) == Some(n)
  {
    ParseOfPrint(n, max);
  }

  lemma ExtendedRoundTrip(name: string, r: PlayerRecord)
    requires CleanPicks(r.skillPickCounts)
    ensures ParseExtended(RecordFields(name, r)[1..]) == Some(r)
  {
    hide ParseUnsigned, ParsedPicks, PicksField, PrintNat;
    PicksRoundTrip(r.skillPickCounts);
    CounterRoundTrip(r.wins, U16_MAX);
    CounterRoundTrip(r.losses, U16_MAX);
    CounterRoundTrip(r.noContests, U16_MAX);
    CounterRoundTrip(r.roundWins, U16_MAX);
    CounterRoundTrip(r.roundLosses, U16_MAX);
    CounterRoundTrip(r.totalDamageDone, U32_MAX);
    CounterRoundTrip(r.totalHealingDone, U32_MAX);
    CounterRoundTrip(r.totalCombatMs, U32_MAX);
    CounterRoundTrip(r.ccUsed, U16_MAX);
    CounterRoundTrip(r.ccHits, U16_MAX);
  }

  lemma FieldIsClean(name: string, r: PlayerRecord, i: nat)
    requires ValidName(name) && CleanPicks(r.skillPickCounts) && i < 12
    ensures '\t' !in RecordFields(name, r)[i] && '\n' !in RecordFields(name, r)[i]
  {
    hide PicksField, ValidName;
    if i == 0 {
      NameRoundTrip(name);
    } else if i == 11 {
      PicksRoundTrip(r.skillPickCounts);
    } else {
      DigitsAreClean([0, r.wins, r.losses, r.noContests, r.roundWins, r.roundLosses, r.totalDamageDone,
                      r.totalHealingDone, r.totalCombatMs, r.ccUsed, r.ccHits][i]);
    }
  }

  /** A printed row reads back as the same name and record. */
  lemma RowRoundTrip(name: string, r: PlayerRecord)
    requires ValidName(name) && CleanPicks(r.skillPickCounts)
    ensures RowOfLine(RecordLine(name, r)) == Some(Row(None, name, r))
    ensures '\n' !in RecordLine(name, r)
  {
    hide RecordFields, ParseExtended, ValidName, CleanPicks;
    var fields := RecordFields(name, r);
    forall i | 0 <= i < 12 ensures '\t' !in fields[i] && '\n' !in fields[i] {
      FieldIsClean(name, r, i);
    }
    SplitOfJoin(fields, '\t');
    JoinKeepsOut(fields, '\t', '\n');
    NameRoundTrip(name);
    ExtendedRoundTrip(name, r);
    FirstField(name, r);
  }

  lemma FirstField(name: string, r: PlayerRecord)
    ensures RecordFields(name, r)[0] == name
  {
  }

  lemma {:induction false} LastOfJoin(parts: seq<string>, sep: char)
    requires |parts| > 1
    ensures Join(parts, sep) != []
    ensures var last := parts[|parts| - 1];
            Join(parts, sep)[|Join(parts, sep)| - 1] == if last == [] then sep else last[|last| - 1]
  {
    if |parts| > 2 {
      LastOfJoin(parts[1..], sep);
    }
  }

  lemma PicksFieldEnds(p: Picks)
    requires PicksField(p) != []
    ensures IsDigit(PicksField(p)[|PicksField(p)| - 1])
  {
    var entries := PickEntries(p);
    var n := |entries| - 1;
    SortedHolds(p.Keys, n);
    var id := Sorted(p.Keys)[n];
    var digits := PrintNat(p[id]);
    assert entries[n] == id + ['='] + digits && digits[|digits| - 1] in digits;
    assert entries[n][|entries[n]| - 1] == digits[|digits| - 1];
    if n > 0 {
      LastOfJoin(entries, ',');
    }
  }

  /** A printed row is a line: it does not end in a carriage return, and it is not blank. */
  lemma RowIsLine(name: string, r: PlayerRecord)
    requires ValidName(name) && CleanPicks(r.skillPickCounts)
    ensures CleanLine(RecordLine(name, r)) && !IsBlank(RecordLine(name, r))
  {
    hide PicksField, RecordFields, IsBlank, IsWhitespace, ValidName, CleanPicks, RowOfLine, Join;
    RowRoundTrip(name, r);
    var fields, line := RecordFields(name, r), RecordLine(name, r);
    EndFields(name, r);
    LastOfJoin(fields, '\t');
    if fields[11] != [] {
      PicksFieldEnds(r.skillPickCounts);
    }
    NameIsInk(name);
    FirstOfJoin(fields, '\t');
    BlankMeansWhitespace(line);
    assert !IsWhitespace(line[0]) && line[0] in line;
  }

  lemma EndFields(name: string, r: PlayerRecord)
    ensures RecordFields(name, r)[0] == name && RecordFields(name, r)[11] == PicksField(r.skillPickCounts)
  {
    hide PrintNat, PicksField;
  }

  lemma FirstOfJoin(parts: seq<string>, sep: char)
    requires |parts| > 1 && parts[0] != []
    ensures Join(parts, sep) != [] && Join(parts, sep)[0] == parts[0][0]
  {
  }

  lemma NameIsInk(name: string)
    requires ValidName(name)
    ensures name != [] && !IsWhitespace(name[0])
  {
    assert name[0] in name;
  }

  // ----- whole tables

  /** A printed row of a new name adds that name and its record. */
  lemma PrintedRowAdds(t: Table, name: string, r: PlayerRecord, line: nat)
    requires ValidName(name) && CleanPicks(r.skillPickCounts) && name !in t.records
    ensures AddLine(t, RecordLine(name, r), line) == Ok(Table(t.records[name := r], t.ids))
  {
    hide RecordLine, RowOfLine, IsBlank;
    RowRoundTrip(name, r);
    RowIsLine(name, r);
  }

  lemma {:induction false} PrintedTable(m: Records, n: nat)
    requires Clean(m) && n <= |RecordLines(m)|
    ensures var r := TableUpTo(RecordLines(m), n);
            r.Ok? && r.value.ids == {} && CutDown(m, Sorted(m.Keys), n, r.value.records)
  {
    hide RecordLine, AddLine, IdAt, ValidName, CleanPicks, Sorted, RecordLines;
    if n == 0 {
      NothingYet(m);
    } else {
      PrintedTable(m, n - 1);
      var name := Sorted(m.Keys)[n - 1];
      SortedHolds(m.Keys, n - 1);
      var before := TableUpTo(RecordLines(m), n - 1).value;
      NewName(m, n - 1);
      LineOfName(m, n - 1);
      PrintedRowAdds(before, name, m[name], n);
      CutDownGrows(m, Sorted(m.Keys), n - 1, before.records);
    }
  }

  lemma LineOfName(m: Records, n: nat)
    requires n < |RecordLines(m)|
    ensures Sorted(m.Keys)[n] in m && RecordLines(m)[n] == RecordLine(Sorted(m.Keys)[n], m[Sorted(m.Keys)[n]])
  {
    hide RecordLine;
  }

  lemma NothingYet(m: Records)
    ensures CutDown(m, Sorted(m.Keys), 0, map[])
  {
  }

  lemma NewName(m: Records, n: nat)
    requires n < |Sorted(m.Keys)|
    ensures !IdAt(Sorted(m.Keys), n, Sorted(m.Keys)[n])
  {
    var names := Sorted(m.Keys);
    forall i | 0 <= i < n ensures names[i] != names[n] {
      assert Before(names[i], names[n]);
      BeforeIsAsymmetric(names[i], names[n]);
    }
  }

  lemma CleanTablesRoundTrip(m: Records)
    requires Clean(m)
    ensures ParsedRecords(Serialized(m)) == Ok(m)
  {
    hide TableUpTo, RecordLine, Sorted;
    var lines := RecordLines(m);
    forall l | l in lines ensures CleanLine(l) {
      var i :| 0 <= i < |lines| && lines[i] == l;
      SortedHolds(m.Keys, i);
      RowIsLine(Sorted(m.Keys)[i], m[Sorted(m.Keys)[i]]);
    }
    LinesOfEndLines(lines);
    PrintedTable(m, |lines|);
    CutDownAll(m, TableUpTo(lines, |lines|).value.records);
  }

  /** Printing and reading back gives the same table exactly when its names and skill ids are clean. */
  lemma RoundTripIffClean(m: Records)
    ensures ParsedRecords(Serialized(m)) == Ok(m) <==> Clean(m)
  {
    ParsedIsClean(Serialized(m));
    if Clean(m) {
      CleanTablesRoundTrip(m);
    }
  }

  /** `canonicalize_record_store_contents`. */
  function Canonical(text: string): Result<string, RecordError> {
    match ParsedRecords(text)
    case Err(e) => Err(e)
    case Ok(m) => Ok(Serialized(m))
  }

  /** Canonical text is its own canonical form and means the same table. */
  lemma CanonicalIsIdempotent(text: string)
    requires Canonical(text).Ok?
    ensures Canonical(Canonical(text).value) == Canonical(text)
    ensures ParsedRecords(Canonical(text).value) == ParsedRecords(text)
  {
    ParsedIsClean(text);
    CleanTablesRoundTrip(ParsedRecords(text).value);
  }

  /**
   Readable text, and no other, is rewritten: what comes out means the same table, is left alone when it is
   rewritten again, and is the same for every text that means that table.
   */
  method CanonicalizeRecordStoreContents(text: string) returns (r: Result<string, RecordError>)
    ensures r == Canonical(text)
    ensures r.Ok? <==> ParsedRecords(text).Ok?
    ensures r.Err? ==> r.error == ParsedRecords(text).error
    ensures r.Ok? ==> ParsedRecords(r.value) == ParsedRecords(text) && Canonical(r.value) == r
    ensures r.Ok? ==> forall other :: ParsedRecords(other) == ParsedRecords(text) ==> Canonical(other) == r
  {
    hide ParsedRecords, Serialized;
    var m := ParseRecords(text);
    if m.Err? {
      return Err(m.error);
    }
    var output := SerializeRecords(m.value);
    CanonicalIsIdempotent(text);
    r := Ok(output);
  }
}
