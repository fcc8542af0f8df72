/**
 * The two tools together: a row `msgtoxls` writes is read back by
 * `msgfromxls` with the context, key, plural marker, translation and
 * status the export put there, when the import is pointed at the export's
 * context and key columns and at one locale's text column.
 */
module RoundTrip {
  import opened Wrappers
  import opened Sheet
  import opened Catalog
  import X = MsgToXls
  import I = MsgFromXls

  /** The context `main` reads from a cell the export wrote for `ctx`. */
  function ReadContext(ctx: Option<string>): Option<string> {
    if ctx == Some("") then None else ctx
  }

  /** Reading a row laid out as `add_row` lays it out, at locale `i`'s columns. */
  lemma ReadRowValues(left: nat, ctx: Option<string>, key: string, marker: string, pairs: seq<(int, string)>,
                      summary: string, i: nat)
    requires i < |pairs|
    ensures I.ReadRow(X.RowValues(left, ctx, key, marker, pairs, summary), I.Columns(left + 1, left + 2, X.StatusColumn(left, i) + 1))
         == Success(I.Row(ReadContext(ctx), Some(key), Some(marker), Some(pairs[i].1), pairs[i].0))
  {
    var cells := X.RowValues(left, ctx, key, marker, pairs, summary);
    var t := X.StatusColumn(left, i);
    X.RowValuesHead(left, ctx, key, marker, pairs, summary);
    X.RowValuesPair(left, ctx, key, marker, pairs, summary, i);
    assert PyIndex(cells, left) == Some(if ctx.Some? then Str(ctx.value) else Empty);
    assert PyIndex(cells, left + 1) == Some(Str(key));
    assert PyIndex(cells, left + 2) == Some(Str(marker));
    assert PyIndex(cells, t) == Some(Str(pairs[i].1));
    assert PyIndex(cells, t - 1) == Some(Num(pairs[i].0));
  }

  /**
   * Reading an exported row with the context in column `left + 1`, the key
   * in `left + 2` and locale `i`'s text in column `left + 5 + 2i` gives back
   * what the export wrote: the context (an empty one reads as none), the
   * key, the marker, locale `i`'s shown text and its status code.
   */
  lemma ExportedRowReadsBack(left: nat, rk: X.RowKey, slots: seq<Option<Entry>>, keyIdx: nat, i: nat)
    requires X.ExportRow(left, rk, slots, keyIdx).Success? && i < |slots|
    ensures var cell := X.LocaleCell(slots[i], X.ShownText(slots[i], rk.plural), i == keyIdx, rk.key);
      I.ReadRow(X.ExportRow(left, rk, slots, keyIdx).value, I.Columns(left + 1, left + 2, X.StatusColumn(left, i) + 1))
      == Success(I.Row(ReadContext(rk.ctx), Some(rk.key), Some(X.Marker(rk.plural, slots)), Some(cell.1), cell.0))
  {
    var texts := X.Texts(slots, rk.plural).value;
    var pairs := X.LocaleCells(rk, slots, texts, keyIdx);
    var marker := X.Marker(rk.plural, slots);
    var summary := X.FormatOccurrences(X.Group(X.SlotOccurrences(slots)));
    assert X.ExportRow(left, rk, slots, keyIdx).value == X.RowValues(left, rk.ctx, rk.key, marker, pairs, summary);
    X.TextsShown(slots, rk.plural);
    assert pairs[i] == X.LocaleCell(slots[i], X.ShownText(slots[i], rk.plural), i == keyIdx, rk.key);
    ReadRowValues(left, rk.ctx, rk.key, marker, pairs, summary, i);
  }
}
