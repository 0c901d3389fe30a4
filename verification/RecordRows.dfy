/** The player-record file: its row formats, the line-by-line parser and the serializer. */
module RecordRows {
  import opened Ordering
  import opened Prelude
  import opened Text

  const MAX_PLAYER_NAME_LEN: nat := 24

  datatype PlayerRecord = PlayerRecord(
    wins: u16, losses: u16, noContests: u16, roundWins: u16, roundLosses: u16,
    totalDamageDone: u32, totalHealingDone: u32, totalCombatMs: u32, ccUsed: u16, ccHits: u16,
    skillPickCounts: map<string, u16>)

  const NEW_RECORD: PlayerRecord := PlayerRecord(0, 0, 0, 0, 0, 0, 0, 0, 0, 0, map[])

  type Records = map<string, PlayerRecord>

  datatype RecordError =
    | ReadFailed
    | WriteFailed
    | CreateParentDirFailed
    | FileTooLarge(actual: nat)
    | MalformedLine(lineNumber: nat)
    | DuplicatePlayerId(idLine: nat, playerId: u32)
    | DuplicatePlayerName(nameLine: nat, playerName: string)

  // ----- fields

  predicate IsNameChar(c: char) {
    'a' <= c <= 'z' || 'A' <= c <= 'Z' || '0' <= c <= '9' || c == '_' || c == '-'
  }

  predicate ValidName(s: string) { 0 < |s| <= MAX_PLAYER_NAME_LEN && forall c <- s :: IsNameChar(c) }

  /** `PlayerName::new`: trimmed first, then checked. */
  function ParseName(raw: string): (r: Option<string>)
    ensures r.Some? ==> ValidName(r.value)
  {
    var trimmed := Trim(raw);
    if ValidName(trimmed) then Some(trimmed) else None
  }

  /** A skill id and its count, split at the first '='. */
  function ParsePick(entry: string): (r: Option<(string, u16)>)
    ensures r.Some? ==> r.value.0 != [] && '=' !in r.value.0 && forall c <- r.value.0 :: c in entry
  {
    var n := IndexOf(entry, '=');
    if n == |entry| || n == 0 then None else
      match ParseUnsigned(entry[n + 1..], U16_MAX)
      case None => None
      case Some(count) => Some((entry[..n], count))
  }

  type Picks = map<string, u16>

  function PicksOf(entries: seq<string>): Option<Picks> {
    if entries == [] then Some(map[]) else
      match PicksOf(entries[..|entries| - 1])
      case None => None
      case Some(m) =>
        match ParsePick(entries[|entries| - 1])
        case None => None
        case Some((id, count)) => Some(m[id := count])
  }

  function ParsedPicks(raw: string): Option<Picks> {
    if raw == [] then Some(map[]) else PicksOf(Split(raw, ','))
  }

  lemma {:induction false} PicksFailEarly(entries: seq<string>, n: nat)
    requires n <= |entries| && PicksOf(entries[..n]).None?
    ensures PicksOf(entries).None?
    decreases |entries| - n
  {
    if n == |entries| {
      assert entries[..n] == entries;
    } else {
      assert entries[..n + 1][..n] == entries[..n];
      PicksFailEarly(entries, n + 1);
    }
  }

  /** The loop of `parse_skill_pick_counts`; a repeated id keeps its last count. */
  method ParseSkillPickCounts(raw: string) returns (r: Option<Picks>)
    ensures r == ParsedPicks(raw)
  {
    hide ParsePick, Split;
    var counts: Picks := map[];
    if raw == [] {
      return Some(counts);
    }
    var entries := Split(raw, ',');
    for i := 0 to |entries|
      invariant PicksOf(entries[..i]) == Some(counts)
    {
      assert entries[..i + 1][..i] == entries[..i];
      var pick := ParsePick(entries[i]);
      if pick.None? {
        PicksFailEarly(entries, i + 1);
        return None;
      }
      counts := counts[pick.value.0 := pick.value.1];
    }
    assert entries[..|entries|] == entries;
    r := Some(counts);
  }

  // ----- rows

  /** One line of the file: legacy rows carry a player id in front. */
  datatype Row = Row(id: Option<u32>, name: string, record: PlayerRecord)

  function ParseId(raw: string): Option<u32> {
    match ParseUnsigned(raw, U32_MAX)
    case None => None
    case Some(n) => if n == 0 then None else Some(n)
  }

  function Counter16(raw: string): (r: Option<u16>) { ParseUnsigned(raw, U16_MAX) }

  function Counter32(raw: string): (r: Option<u32>) { ParseUnsigned(raw, U32_MAX) }

  function ParseMinimal(fields: seq<string>): Option<PlayerRecord>
    requires |fields| == 3
  {
    var wins, losses, noContests := Counter16(fields[0]), Counter16(fields[1]), Counter16(fields[2]);
    if wins.None? || losses.None? || noContests.None? then None
    else Some(NEW_RECORD.(wins := wins.value, losses := losses.value, noContests := noContests.value))
  }

  function ParseExtended(fields: seq<string>): Option<PlayerRecord>
    requires |fields| == 11
  {
    var wins, losses, noContests := Counter16(fields[0]), Counter16(fields[1]), Counter16(fields[2]);
    var roundWins, roundLosses := Counter16(fields[3]), Counter16(fields[4]);
    var damage, healing, combat := Counter32(fields[5]), Counter32(fields[6]), Counter32(fields[7]);
    var used, hits, picks := Counter16(fields[8]), Counter16(fields[9]), ParsedPicks(fields[10]);
    if wins.None? || losses.None? || noContests.None? || roundWins.None? || roundLosses.None?
       || damage.None? || healing.None? || combat.None? || used.None? || hits.None? || picks.None?
    then None
    else Some(PlayerRecord(wins.value, losses.value, noContests.value, roundWins.value, roundLosses.value,
                           damage.value, healing.value, combat.value, used.value, hits.value, picks.value))
  }

  function NamedRow(id: Option<u32>, name: Option<string>, record: Option<PlayerRecord>): Option<Row> {
    if name.None? || record.None? then None else Some(Row(id, name.value, record.value))
  }

  function WithId(rawId: string, rest: Option<Row>): Option<Row> {
    var id := ParseId(rawId);
    if id.None? || rest.None? then None else Some(rest.value.(id := id))
  }

  /** `parse_record_fields`: four or twelve fields, or the same behind a player id. */
  function ParseFields(fields: seq<string>): Option<Row> {
    if |fields| == 4 then NamedRow(None, ParseName(fields[0]), ParseMinimal(fields[1..]))
    else if |fields| == 5 then WithId(fields[0], NamedRow(None, ParseName(fields[1]), ParseMinimal(fields[2..])))
    else if |fields| == 12 then NamedRow(None, ParseName(fields[0]), ParseExtended(fields[1..]))
    else if |fields| == 13 then WithId(fields[0], NamedRow(None, ParseName(fields[1]), ParseExtended(fields[2..])))
    else None
  }

  function RowOfLine(line: string): Option<Row> { ParseFields(Split(line, '\t')) }

  // ----- merging

  function SaturatingAdd(a: nat, b: nat, cap: nat): (c: nat)
    ensures c <= cap && (a + b <= cap ==> c == a + b)
  {
    Min(a + b, cap)
  }

  function PickCount(p: Picks, id: string): u16 { if id in p then p[id] else 0 }

  function MergePicks(a: Picks, b: Picks): Picks {
    map id | id in a.Keys + b.Keys :: SaturatingAdd(PickCount(a, id), PickCount(b, id), U16_MAX)
  }

  /** Every counter added, stopping at its type's maximum. */
  function Merge(a: PlayerRecord, b: PlayerRecord): PlayerRecord {
    PlayerRecord(
      SaturatingAdd(a.wins, b.wins, U16_MAX), SaturatingAdd(a.losses, b.losses, U16_MAX),
      SaturatingAdd(a.noContests, b.noContests, U16_MAX),
      SaturatingAdd(a.roundWins, b.roundWins, U16_MAX), SaturatingAdd(a.roundLosses, b.roundLosses, U16_MAX),
      SaturatingAdd(a.totalDamageDone, b.totalDamageDone, U32_MAX),
      SaturatingAdd(a.totalHealingDone, b.totalHealingDone, U32_MAX),
      SaturatingAdd(a.totalCombatMs, b.totalCombatMs, U32_MAX),
      SaturatingAdd(a.ccUsed, b.ccUsed, U16_MAX), SaturatingAdd(a.ccHits, b.ccHits, U16_MAX),
      MergePicks(a.skillPickCounts, b.skillPickCounts))
  }

  // ----- files

  datatype Table = Table(records: Records, ids: set<u32>)

  /** What one row does to the table; `line` is its number. */
  function AddRow(t: Table, row: Row, line: nat): Result<Table, RecordError> {
    if row.id.Some? && row.id.value in t.ids then Err(DuplicatePlayerId(line, row.id.value)) else
      var ids := if row.id.Some? then t.ids + {row.id.value} else t.ids;
      if row.name !in t.records then Ok(Table(t.records[row.name := row.record], ids))
      else if row.id.Some? then Ok(Table(t.records[row.name := Merge(t.records[row.name], row.record)], ids))
      else Err(DuplicatePlayerName(line, row.name))
  }

  function AddLine(t: Table, text: string, line: nat): Result<Table, RecordError> {
    if IsBlank(text) then Ok(t) else
      match RowOfLine(text)
      case None => Err(MalformedLine(line))
      case Some(row) => AddRow(t, row, line)
  }

  /** The table after the first `n` lines. */
  function TableUpTo(lines: seq<string>, n: nat): Result<Table, RecordError>
    requires n <= |lines|
  {
    if n == 0 then Ok(Table(map[], {})) else
      match TableUpTo(lines, n - 1)
      case Err(e) => Err(e)
      case Ok(t) => AddLine(t, lines[n - 1], n)
  }

  function ParsedLines(lines: seq<string>): Result<Records, RecordError> {
    match TableUpTo(lines, |lines|)
    case Err(e) => Err(e)
    case Ok(t) => Ok(t.records)
  }

  function ParsedRecords(text: string): Result<Records, RecordError> { ParsedLines(Lines(text)) }

  lemma {:induction false} TableErrorStays(lines: seq<string>, k: nat, n: nat)
    requires k <= n <= |lines| && TableUpTo(lines, k).Err?
    ensures TableUpTo(lines, n) == TableUpTo(lines, k)
  {
    if k < n {
      TableErrorStays(lines, k, n - 1);
    }
  }

  /** The loop of `parse_records`, merging repeated legacy names in place. */
  method ParseRecords(text: string) returns (r: Result<Records, RecordError>)
    ensures r == ParsedRecords(text)
  {
    hide RowOfLine, Merge, IsBlank;
    var records: Records := map[];
    var legacyIds: set<u32> := {};
    var lines := Lines(text);
    for i := 0 to |lines|
      invariant TableUpTo(lines, i) == Ok(Table(records, legacyIds))
    {
      if TableUpTo(lines, i + 1).Err? {
        TableErrorStays(lines, i + 1, |lines|);
      }
      if !IsBlank(lines[i]) {
        var parsed := RowOfLine(lines[i]);
        if parsed.None? {
          return Err(MalformedLine(i + 1));
        }
        var row := parsed.value;
        if row.id.Some? {
          if row.id.value in legacyIds {
            return Err(DuplicatePlayerId(i + 1, row.id.value));
          }
          legacyIds := legacyIds + {row.id.value};
        }
        if row.name in records {
          if row.id.None? {
            return Err(DuplicatePlayerName(i + 1, row.name));
          }
          records := records[row.name := Merge(records[row.name], row.record)];
        } else {
          records := records[row.name := row.record];
        }
      }
    }
    r := Ok(records);
  }

  // ----- serializing

  function PickEntry(id: string, count: nat): string { id + ['='] + PrintNat(count) }

  function PickEntries(p: Picks): (entries: seq<string>)
    ensures |entries| == |Sorted(p.Keys)|
  {
    var ids := Sorted(p.Keys);
    seq(|ids|, i requires 0 <= i < |ids| => assert ids[i] in ids; PickEntry(ids[i], p[ids[i]]))
  }

  function PicksField(p: Picks): string { Join(PickEntries(p), ',') }

  function RecordFields(name: string, r: PlayerRecord): (fields: seq<string>)
    ensures |fields| == 12
  {
    [name, PrintNat(r.wins), PrintNat(r.losses), PrintNat(r.noContests), PrintNat(r.roundWins), PrintNat(r.roundLosses),
     PrintNat(r.totalDamageDone), PrintNat(r.totalHealingDone), PrintNat(r.totalCombatMs), PrintNat(r.ccUsed),
     PrintNat(r.ccHits), PicksField(r.skillPickCounts)]
  }

  function RecordLine(name: string, r: PlayerRecord): string { Join(RecordFields(name, r), '\t') }

  /** The lines of the file, in name order. */
  function RecordLines(m: Records): (lines: seq<string>)
    ensures |lines| == |Sorted(m.Keys)|
  {
    var names := Sorted(m.Keys);
    seq(|names|, i requires 0 <= i < |names| => assert names[i] in names; RecordLine(names[i], m[names[i]]))
  }

  function Serialized(m: Records): string { EndLines(RecordLines(m)) }

  method SerializeRecords(m: Records) returns (output: string)
    ensures output == Serialized(m)
  {
    hide RecordLine, Sorted;
    output := "";
    var names := Sorted(m.Keys);
    for i := 0 to |names|
      invariant output == EndLines(RecordLines(m)[..i])
    {
      assert names[i] in names;
      EndLinesAppend(RecordLines(m)[..i], RecordLines(m)[i]);
      assert RecordLines(m)[..i] + [RecordLines(m)[i]] == RecordLines(m)[..i + 1];
      output := output + RecordLine(names[i], m[names[i]]) + "\n";
    }
    assert RecordLines(m)[..|names|] == RecordLines(m);
  }
}
