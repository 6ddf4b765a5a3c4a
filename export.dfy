/**
 The table `exportarExcel` hands to the spreadsheet writer (`datosTabla`): one
 row per time block, one column per day, each cell the entries placed there
 written as "id name" and separated by " / ".
 */
module Export {
  import opened Text
  import opened Schedule

  /** One exported row: the `Horario` column and the day columns, in `Days` order. */
  datatype ExportRow = ExportRow(horario: string, cells: seq<string>)

  /** `${i.ramo.id} ${i.ramo.nombre}`. */
  function Label(e: Entry): string
  {
    e.course.id + " " + e.course.name
  }

  /** `items.map(...)`: one label per entry, in order. */
  function Labels(es: seq<Entry>): seq<string>
  {
    seq(|es|, i requires 0 <= i < |es| => Label(es[i]))
  }

  /** The text of cell (day, block). */
  function CellText(es: seq<Entry>, day: string, block: string): string
  {
    Join(Labels(InCell(es, day, block)), " / ")
  }

  /** `datosTabla`: the grid as rows of block name and day cells. */
  function ExportTable(es: seq<Entry>): (table: seq<ExportRow>)
    ensures |table| == |Blocks|
    ensures forall k :: 0 <= k < |table| ==> table[k].horario == Blocks[k] && |table[k].cells| == |Days|
  {
    seq(|Blocks|, k requires 0 <= k < |Blocks| =>
      ExportRow(Blocks[k], seq(|Days|, j requires 0 <= j < |Days| => CellText(es, Days[j], Blocks[k]))))
  }

  /** Every entry placed on the grid is written into its own cell of the export. */
  lemma ExportListsEveryEntry(es: seq<Entry>, e: Entry, k: int, j: int)
    requires e in es
    requires 0 <= k < |Blocks| && 0 <= j < |Days|
    requires e.block == Blocks[k] && e.day == Days[j]
    ensures Contains(ExportTable(es)[k].cells[j], Label(e))
  {
    var here := InCell(es, Days[j], Blocks[k]);
    assert e in here;
    var i :| 0 <= i < |here| && here[i] == e;
    JoinContainsPart(Labels(here), " / ", i);
  }

  /** An exported cell is empty exactly when nothing is placed in it. */
  lemma ExportEmptyCell(es: seq<Entry>, k: int, j: int)
    requires 0 <= k < |Blocks| && 0 <= j < |Days|
    ensures ExportTable(es)[k].cells[j] == "" <==> forall e :: e in es ==> !(e.day == Days[j] && e.block == Blocks[k])
  {
  }

  /** A cell holding one entry shows just that entry's label. */
  lemma ExportSingleEntry(es: seq<Entry>, e: Entry, k: int, j: int)
    requires 0 <= k < |Blocks| && 0 <= j < |Days|
    requires InCell(es, Days[j], Blocks[k]) == [e]
    ensures ExportTable(es)[k].cells[j] == e.course.id + " " + e.course.name
  {
  }

  /** A cell holding two entries shows both labels, in schedule order, separated by " / ". */
  lemma ExportTwoEntries(es: seq<Entry>, a: Entry, b: Entry, k: int, j: int)
    requires 0 <= k < |Blocks| && 0 <= j < |Days|
    requires InCell(es, Days[j], Blocks[k]) == [a, b]
    ensures ExportTable(es)[k].cells[j] == Label(a) + " / " + Label(b)
  {
    var parts := Labels([a, b]);
    assert parts == [Label(a), Label(b)];
    assert parts[1..] == [Label(b)];
    assert Join(parts, " / ") == Label(a) + " / " + Label(b);
    assert ExportTable(es)[k].cells[j] == CellText(es, Days[j], Blocks[k]);
  }
}
