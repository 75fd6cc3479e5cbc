/** Conversion of the benchmark table into records (src/parser.js). The
    HTML document is abstracted as its body rows, each the sequence of the
    text contents of its `td` cells. */
module Parser {
  import opened Wrappers
  import opened Text
  import opened Util
  import opened Records
  import opened Seqs

  type Row = seq<string>

  /** The trimmed text of cell `i`, or `None` when the cell is missing or
      blank (`tds[i]?.textContent?.trim() || null`). */
  function OptionalCell(cells: Row, i: nat): (r: Option<string>)
    ensures r.Some? <==> i < |cells| && Trim(cells[i]) != []
    ensures r.Some? ==> r.value == Trim(cells[i])
  {
    if i < |cells| && Trim(cells[i]) != [] then Some(Trim(cells[i])) else None
  }

  /** `Number(rank) || null`: zero and `NaN` both become `None`. */
  function RankOf(n: JsNumber): (r: Option<nat>)
    ensures r.Some? <==> n.Int? && n.n != 0
    ensures r.Some? ==> r.value == n.n && r.value > 0
  {
    if n.Int? && n.n != 0 then Some(n.n) else None
  }

  /** The body of the row loop in `parsePassMarkTable`: a row with fewer
      than three cells, an empty name, or a score cell without a digit is
      skipped; otherwise the record's fields are derived from the cells,
      with commas removed from the score and rank only. */
  function ParseRow(cells: Row): Option<HardwareRecord>
  {
    if |cells| < 3 then None
    else
      var name := Trim(cells[0]);
      var score := RemoveCommas(Trim(cells[1]));
      var rank := RemoveCommas(Trim(cells[2]));
      if name == [] || !HasDigit(score) then None
      else
        Some(HardwareRecord(
          name, NormalizeName(name), ToNumber(score), RankOf(ToNumber(rank)),
          OptionalCell(cells, 3), OptionalCell(cells, 4)))
  }

  /** A row is skipped exactly when it has fewer than three cells, its
      trimmed name is empty, or its comma-stripped score has no digit. */
  lemma ParseRowSkips(cells: Row)
    ensures ParseRow(cells).None? <==>
      || |cells| < 3
      || Trim(cells[0]) == []
      || !HasDigit(RemoveCommas(Trim(cells[1])))
  {
  }

  /** The fields of a parsed record: the name is the trimmed first cell
      (commas kept), the key its normalisation, the score and rank the
      numbers of the comma-stripped second and third cells, and the value
      and price the trimmed fourth and fifth cells when present and not
      blank. */
  lemma ParseRowFields(cells: Row)
    ensures ParseRow(cells).Some? ==>
      var rec := ParseRow(cells).value;
      && rec.name == Trim(cells[0]) && rec.name != []
      && !IsSpace(rec.name[0]) && !IsSpace(rec.name[|rec.name| - 1])
      && rec.key == NormalizeName(rec.name) && IsNormalizedKey(rec.key)
      && rec.score == ToNumber(RemoveCommas(Trim(cells[1])))
      && rec.rank == RankOf(ToNumber(RemoveCommas(Trim(cells[2]))))
      && rec.value == OptionalCell(cells, 3)
      && rec.price == OptionalCell(cells, 4)
  {
  }

  /** `parsePassMarkTable`: the records of the rows that are not skipped,
      in row order. */
  function ParseTable(rows: seq<Row>): (r: seq<HardwareRecord>)
    ensures |r| <= |rows|
    ensures forall i :: 0 <= i < |rows| && ParseRow(rows[i]).Some? ==> ParseRow(rows[i]).value in r
  {
    FilterMap(rows, ParseRow)
  }

  /** Every record comes from a row that is not skipped, in row order:
      the source rows are strictly increasing, one per record, and cover
      every row that is not skipped. */
  lemma ParseTableSources(rows: seq<Row>)
    ensures var r := ParseTable(rows); var idx := Sources(rows, ParseRow);
      && |idx| == |r|
      && (forall k :: 0 <= k < |idx| ==> idx[k] < |rows| && ParseRow(rows[idx[k]]) == Some(r[k]))
      && (forall k, l :: 0 <= k < l < |idx| ==> idx[k] < idx[l])
      && (forall i :: 0 <= i < |rows| && ParseRow(rows[i]).Some? ==> i in idx)
  {
    SourcesIncreasing(rows, ParseRow);
    SourcesSound(rows, ParseRow);
    SourcesComplete(rows, ParseRow);
  }

  /** The parse of a concatenation of tables is the concatenation of the
      parses. */
  lemma ParseTableAppend(a: seq<Row>, b: seq<Row>)
    ensures ParseTable(a + b) == ParseTable(a) + ParseTable(b)
  {
    FilterMapAppend(a, b, ParseRow);
  }

  /** A one-row table yields that row's record, or nothing. */
  lemma ParseTableSingle(row: Row)
    ensures ParseTable([row]) == ParseRow(row).ToSeq()
  {
    assert [row][1..] == [];
  }

  /** `parseCPUListHTML`. */
  function ParseCpuList(rows: seq<Row>): seq<HardwareRecord>
  {
    ParseTable(rows)
  }

  /** `parseGPUListHTML`. */
  function ParseGpuList(rows: seq<Row>): seq<HardwareRecord>
  {
    ParseTable(rows)
  }

  /** Both list parsers are the same table parser. */
  lemma CpuAndGpuParsersAgree(rows: seq<Row>)
    ensures ParseCpuList(rows) == ParseGpuList(rows)
  {
  }
}
