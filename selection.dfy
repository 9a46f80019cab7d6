/**
 * Which rows are due: the test `preview` and `send_pending` both apply to
 * every record of the worksheet, and the `preview` route that lists them.
 */
module DueRows {
  import opened Wrappers
  import opened Text
  import opened Dates
  import opened Sheet

  const NameColumn := "Nombre"
  const RoleColumn := "Cargo"
  const SentColumn := "Enviado"
  /** The headers the date may stand under, in the order they are tried. */
  const DateColumns := ["Fecha", "Fecha (dd/mm/yy)", "Fecha(dd/mm/yy)"]
  /** The sent flag's value once a row has been dispatched. */
  const SentMarker := "sí"
  const ModeToday := "today"
  const ModeUntilToday := "until_today"

  /** What selection depends on besides the rows: `SEND_MODE`, today's date and the day-first parser. */
  datatype Policy = Policy(mode: string, today: Date, dtparse: string -> Option<Date>)

  /** `row.get(key) or ""`: a missing cell reads as empty. */
  function Cell(row: Row, key: string): string {
    if key in row then row[key] else ""
  }

  /**
   * `row.get(k1) or row.get(k2) or ...`: the value under the first header
   * whose cell is not empty, or "" when every one is empty or missing.
   */
  function FirstFilled(row: Row, keys: seq<string>): string {
    if keys == [] then ""
    else if Cell(row, keys[0]) != "" then Cell(row, keys[0])
    else FirstFilled(row, keys[1..])
  }

  /**
   * `FirstFilled` is empty exactly when every cell is, and otherwise it is
   * the first cell that is not empty.
   */
  lemma {:induction false} FirstFilledSpec(row: Row, keys: seq<string>)
    ensures FirstFilled(row, keys) == "" <==> forall i :: 0 <= i < |keys| ==> Cell(row, keys[i]) == ""
    ensures forall i :: 0 <= i < |keys| && Cell(row, keys[i]) != "" && (forall j :: 0 <= j < i ==> Cell(row, keys[j]) == "") ==>
              FirstFilled(row, keys) == Cell(row, keys[i])
  {
    if keys != [] && Cell(row, keys[0]) == "" {
      FirstFilledSpec(row, keys[1..]);
      assert forall i :: 1 <= i < |keys| ==> keys[i] == keys[1..][i - 1];
    }
  }

  /** The text the due date is parsed from. */
  function DateText(row: Row): string {
    FirstFilled(row, DateColumns)
  }

  /**
   * An empty "Fecha" falls through to "Fecha (dd/mm/yy)", and an empty
   * second one to "Fecha(dd/mm/yy)"; a cell that is not empty (even one of
   * white space only) stops the search.
   */
  lemma DateColumnsFallThrough(row: Row)
    ensures Cell(row, "Fecha") != "" ==> DateText(row) == Cell(row, "Fecha")
    ensures Cell(row, "Fecha") == "" && Cell(row, "Fecha (dd/mm/yy)") != ""
      ==> DateText(row) == Cell(row, "Fecha (dd/mm/yy)")
    ensures Cell(row, "Fecha") == "" && Cell(row, "Fecha (dd/mm/yy)") == ""
      ==> DateText(row) == Cell(row, "Fecha(dd/mm/yy)")
  {
    FirstFilledSpec(row, DateColumns);
    assert DateColumns[0] == "Fecha" && DateColumns[1] == "Fecha (dd/mm/yy)" && DateColumns[2] == "Fecha(dd/mm/yy)";
  }

  /** The fields one record contributes: name, role, due date and sent flag. */
  datatype Fields = Fields(name: string, role: string, date: Option<Date>, sent: string)

  /**
   * The fields of a record: name and role stripped, the due date parsed from
   * the first filled date column, the sent flag stripped and lower-cased.
   */
  function Extract(row: Row, dtparse: string -> Option<Date>): Fields {
    Fields(
      Strip(Cell(row, NameColumn)),
      Strip(Cell(row, RoleColumn)),
      ParseDdmmyy(DateText(row), dtparse),
      Lower(Strip(Cell(row, SentColumn))))
  }

  /**
   * Name and role carry no surrounding white space, the sent flag no
   * upper-case letter, and a record has a date only if its date text is not
   * blank.
   */
  lemma ExtractSpec(row: Row, dtparse: string -> Option<Date>)
    ensures var f := Extract(row, dtparse);
      && IsStripped(f.name) && IsStripped(f.role)
      && (forall i :: 0 <= i < |f.sent| ==> !IsUpper(f.sent[i]))
      && (f.date.Some? ==> !IsBlank(DateText(row)))
  {
    StripSpec(Cell(row, NameColumn));
    StripSpec(Cell(row, RoleColumn));
    LowerSpec(Strip(Cell(row, SentColumn)));
    ParseDdmmyySpec(DateText(row), dtparse);
  }

  /** The date test of `SEND_MODE`: equal to today, or on or before today. */
  predicate InWindow(d: Date, mode: string, today: Date) {
    (mode == ModeToday && d == today) || (mode == ModeUntilToday && OnOrBefore(d, today))
  }

  /** Not yet sent, dated, and inside the mode's window. */
  predicate IsDue(f: Fields, mode: string, today: Date) {
    f.sent != SentMarker && f.date.Some? && InWindow(f.date.value, mode, today)
  }

  /** The selection predicate for one record under a policy. */
  predicate RowDue(row: Row, pol: Policy) {
    IsDue(Extract(row, pol.dtparse), pol.mode, pol.today)
  }

  /** The fields of every record, in table order. */
  function FieldsOf(rows: seq<Row>, dtparse: string -> Option<Date>): (fs: seq<Fields>)
    ensures |fs| == |rows|
  {
    if rows == [] then [] else FieldsOf(rows[..|rows| - 1], dtparse) + [Extract(rows[|rows| - 1], dtparse)]
  }

  /** Position `i` of `FieldsOf` holds the fields of record `i`. */
  lemma {:induction false} FieldsOfAt(rows: seq<Row>, dtparse: string -> Option<Date>, i: nat)
    requires i < |rows|
    ensures FieldsOf(rows, dtparse)[i] == Extract(rows[i], dtparse)
    decreases |rows|
  {
    if i < |rows| - 1 {
      FieldsOfAt(rows[..|rows| - 1], dtparse, i);
    }
  }

  /** `fs` holds the extracted fields of `rows`, record by record. */
  ghost predicate FieldsFor(fs: seq<Fields>, rows: seq<Row>, dtparse: string -> Option<Date>)
  {
    && |fs| == |rows|
    && forall k {:trigger Extract(rows[k], dtparse)} :: 0 <= k < |rows| ==> fs[k] == Extract(rows[k], dtparse)
  }

  /** `FieldsOf` is such a sequence. */
  lemma FieldsOfFor(rows: seq<Row>, dtparse: string -> Option<Date>)
    ensures FieldsFor(FieldsOf(rows, dtparse), rows, dtparse)
  {
    forall k | 0 <= k < |rows|
      ensures FieldsOf(rows, dtparse)[k] == Extract(rows[k], dtparse)
    {
      FieldsOfAt(rows, dtparse, k);
    }
  }

  /** One entry of `to_send`: table row number, name, role and date. */
  datatype Pending = Pending(row: int, name: string, role: string, date: Date)

  /** The entry for the record at position `i`, which sits on table row `i + 2`. */
  function EntryOf(f: Fields, i: nat): Pending
    requires f.date.Some?
  {
    Pending(i + 2, f.name, f.role, f.date.value)
  }

  /** The entries for the due records among the first `n`, in table order. */
  function DueUpTo(fs: seq<Fields>, n: nat, mode: string, today: Date): seq<Pending>
    requires n <= |fs|
  {
    if n == 0 then []
    else DueUpTo(fs, n - 1, mode, today) + (if IsDue(fs[n - 1], mode, today) then [EntryOf(fs[n - 1], n - 1)] else [])
  }

  /** The pending list for the whole worksheet. */
  function Selection(rows: seq<Row>, pol: Policy): seq<Pending> {
    DueUpTo(FieldsOf(rows, pol.dtparse), |rows|, pol.mode, pol.today)
  }

  /** `e` is the entry of a due record of `fs`, on that record's table row. */
  predicate EntryFrom(fs: seq<Fields>, e: Pending, mode: string, today: Date) {
    2 <= e.row < |fs| + 2 && IsDue(fs[e.row - 2], mode, today) && e == EntryOf(fs[e.row - 2], e.row - 2)
  }

  /** Every entry among the first `n` records is the entry of a due record, on its table row. */
  lemma {:induction false} DueUpToEntries(fs: seq<Fields>, n: nat, mode: string, today: Date)
    requires n <= |fs|
    ensures forall e :: e in DueUpTo(fs, n, mode, today) ==> e.row < n + 2 && EntryFrom(fs, e, mode, today)
  {
    if n > 0 {
      DueUpToEntries(fs, n - 1, mode, today);
    }
  }

  /** The entries of the first `m` records come first among those of the first `n`. */
  lemma {:induction false} DueUpToPrefix(fs: seq<Fields>, m: nat, n: nat, mode: string, today: Date)
    requires m <= n <= |fs|
    ensures |DueUpTo(fs, m, mode, today)| <= |DueUpTo(fs, n, mode, today)|
    ensures DueUpTo(fs, n, mode, today)[..|DueUpTo(fs, m, mode, today)|] == DueUpTo(fs, m, mode, today)
    decreases n
  {
    if m < n {
      DueUpToPrefix(fs, m, n - 1, mode, today);
      var small := DueUpTo(fs, m, mode, today);
      var prev := DueUpTo(fs, n - 1, mode, today);
      var sel := DueUpTo(fs, n, mode, today);
      assert sel[..|prev|] == prev;
      assert sel[..|small|] == prev[..|small|];
    }
  }

  /** Row numbers strictly increase along `sel`. */
  predicate Ascending(sel: seq<Pending>) {
    forall k, l :: 0 <= k < l < |sel| ==> sel[k].row < sel[l].row
  }

  /** The entries follow table order: their row numbers strictly increase. */
  lemma {:induction false} DueUpToOrdered(fs: seq<Fields>, n: nat, mode: string, today: Date)
    requires n <= |fs|
    ensures Ascending(DueUpTo(fs, n, mode, today))
  {
    if n > 0 {
      DueUpToOrdered(fs, n - 1, mode, today);
      DueUpToEntries(fs, n - 1, mode, today);
      var prev := DueUpTo(fs, n - 1, mode, today);
      var sel := DueUpTo(fs, n, mode, today);
      forall k, l | 0 <= k < l < |sel| ensures sel[k].row < sel[l].row {
        assert sel[k] == prev[k] && prev[k] in prev;
        if l < |prev| {
          assert sel[l] == prev[l];
        }
      }
    }
  }

  /** Every due record among the first `n` has its entry in the list. */
  lemma {:induction false} DueUpToComplete(fs: seq<Fields>, n: nat, mode: string, today: Date)
    requires n <= |fs|
    ensures forall i :: 0 <= i < n && IsDue(fs[i], mode, today) ==> EntryOf(fs[i], i) in DueUpTo(fs, n, mode, today)
  {
    if n > 0 {
      DueUpToComplete(fs, n - 1, mode, today);
      var prev := DueUpTo(fs, n - 1, mode, today);
      var sel := DueUpTo(fs, n, mode, today);
      assert forall e :: e in prev ==> e in sel;
    }
  }

  /** Table row `i + 2` appears in the selection. */
  predicate Selected(rows: seq<Row>, i: nat, pol: Policy) {
    exists e :: e in Selection(rows, pol) && e.row == i + 2
  }

  /** The entry for record `i`, which sits on table row `i + 2`: its stripped name and role, and its date. */
  function EntryAt(rows: seq<Row>, i: nat, pol: Policy): Pending
    requires i < |rows| && RowDue(rows[i], pol)
  {
    EntryOf(Extract(rows[i], pol.dtparse), i)
  }

  /**
   * `e` is the entry of a due record of `rows`, on that record's table row:
   * `EntryFrom` restated over the records themselves rather than their
   * extracted fields, so that statements about the worksheet need not
   * mention `FieldsOf`.
   */
  predicate EntryOfDueRow(rows: seq<Row>, e: Pending, pol: Policy) {
    2 <= e.row < |rows| + 2 && RowDue(rows[e.row - 2], pol) && e == EntryAt(rows, e.row - 2, pol)
  }

  /** Every entry of the selection is the entry of a due record, on that record's table row. */
  lemma SelectionEntries(rows: seq<Row>, pol: Policy)
    ensures forall e :: e in Selection(rows, pol) ==> EntryOfDueRow(rows, e, pol)
  {
    var fs := FieldsOf(rows, pol.dtparse);
    DueUpToEntries(fs, |rows|, pol.mode, pol.today);
    forall e | e in Selection(rows, pol) ensures EntryOfDueRow(rows, e, pol) {
      assert EntryFrom(fs, e, pol.mode, pol.today);
      FieldsOfAt(rows, pol.dtparse, e.row - 2);
    }
  }

  /** A worksheet none of whose records is due selects nothing. */
  lemma NothingDueSelectsNothing(rows: seq<Row>, pol: Policy)
    requires forall i :: 0 <= i < |rows| ==> !RowDue(rows[i], pol)
    ensures Selection(rows, pol) == []
  {
    if Selection(rows, pol) != [] {
      var e := Selection(rows, pol)[0];
      assert e in Selection(rows, pol);
      SelectionEntries(rows, pol);
      assert false;
    }
  }

  /** The selection follows table order: its row numbers strictly increase. */
  lemma SelectionOrdered(rows: seq<Row>, pol: Policy)
    ensures Ascending(Selection(rows, pol))
  {
    DueUpToOrdered(FieldsOf(rows, pol.dtparse), |rows|, pol.mode, pol.today);
  }

  /** Table row `i + 2` has an entry among the first `n` records exactly when record `i` is due. */
  lemma DueUpToHasRow(fs: seq<Fields>, n: nat, mode: string, today: Date, i: nat)
    requires i < n <= |fs|
    ensures (exists e :: e in DueUpTo(fs, n, mode, today) && e.row == i + 2) <==> IsDue(fs[i], mode, today)
  {
    var sel := DueUpTo(fs, n, mode, today);
    if IsDue(fs[i], mode, today) {
      DueUpToComplete(fs, n, mode, today);
      var e := EntryOf(fs[i], i);
      assert e in sel && e.row == i + 2;
    }
    if exists e :: e in sel && e.row == i + 2 {
      DueUpToEntries(fs, n, mode, today);
      var e :| e in sel && e.row == i + 2;
      assert EntryFrom(fs, e, mode, today);
    }
  }

  /** Record `i` is selected exactly when its fields are due. */
  lemma SelectedIffFieldsDue(rows: seq<Row>, i: nat, pol: Policy)
    requires i < |rows|
    ensures Selected(rows, i, pol) <==> IsDue(FieldsOf(rows, pol.dtparse)[i], pol.mode, pol.today)
  {
    DueUpToHasRow(FieldsOf(rows, pol.dtparse), |rows|, pol.mode, pol.today, i);
  }

  /** A record is selected exactly when it is due. */
  lemma SelectedIffDue(rows: seq<Row>, i: nat, pol: Policy)
    requires i < |rows|
    ensures Selected(rows, i, pol) <==> RowDue(rows[i], pol)
  {
    SelectedIffFieldsDue(rows, i, pol);
    FieldsOfAt(rows, pol.dtparse, i);
  }

  /** A record whose stripped, lower-cased sent flag is "sí" is never selected, under any mode. */
  lemma SentRowsNeverSelected(rows: seq<Row>, i: nat, pol: Policy)
    requires i < |rows| && Lower(Strip(Cell(rows[i], SentColumn))) == SentMarker
    ensures !Selected(rows, i, pol)
  {
    SelectedIffDue(rows, i, pol);
  }

  /**
   * A record without a date is never selected: its date columns are all
   * empty or missing, or the first filled one is blank or unreadable.
   */
  lemma UndatedRowsNeverSelected(rows: seq<Row>, i: nat, pol: Policy)
    requires i < |rows|
    requires || (forall j :: 0 <= j < |DateColumns| ==> Cell(rows[i], DateColumns[j]) == "")
             || IsBlank(DateText(rows[i]))
             || pol.dtparse(Strip(DateText(rows[i]))) == None
    ensures !Selected(rows, i, pol)
  {
    FirstFilledSpec(rows[i], DateColumns);
    ParseDdmmyySpec(DateText(rows[i]), pol.dtparse);
    SelectedIffDue(rows, i, pol);
  }

  /** With `SEND_MODE` "today" a record is selected exactly when it is unsent and dated today. */
  lemma TodayModeSelectsToday(rows: seq<Row>, i: nat, pol: Policy)
    requires i < |rows| && pol.mode == ModeToday
    ensures Selected(rows, i, pol) <==>
      Extract(rows[i], pol.dtparse).sent != SentMarker && Extract(rows[i], pol.dtparse).date == Some(pol.today)
  {
    SelectedIffDue(rows, i, pol);
  }

  /** With `SEND_MODE` "until_today" a record is selected exactly when it is unsent and dated on or before today. */
  lemma UntilTodayModeSelectsUpToToday(rows: seq<Row>, i: nat, pol: Policy)
    requires i < |rows| && pol.mode == ModeUntilToday
    ensures Selected(rows, i, pol) <==>
      && Extract(rows[i], pol.dtparse).sent != SentMarker
      && Extract(rows[i], pol.dtparse).date.Some?
      && OnOrBefore(Extract(rows[i], pol.dtparse).date.value, pol.today)
  {
    SelectedIffDue(rows, i, pol);
  }

  /** Under a mode that is neither "today" nor "until_today" no record is due. */
  lemma {:induction false} OtherModesDueNothing(fs: seq<Fields>, n: nat, mode: string, today: Date)
    requires n <= |fs| && mode != ModeToday && mode != ModeUntilToday
    ensures DueUpTo(fs, n, mode, today) == []
  {
    if n > 0 {
      OtherModesDueNothing(fs, n - 1, mode, today);
    }
  }

  /** Any other `SEND_MODE` selects nothing. */
  lemma OtherModesSelectNothing(rows: seq<Row>, pol: Policy)
    requires pol.mode != ModeToday && pol.mode != ModeUntilToday
    ensures Selection(rows, pol) == []
  {
    OtherModesDueNothing(FieldsOf(rows, pol.dtparse), |rows|, pol.mode, pol.today);
  }

  /** Every entry "today" selects, "until_today" selects too. */
  lemma TodayWithinUntilToday(rows: seq<Row>, today: Date, dtparse: string -> Option<Date>)
    ensures var narrow := Selection(rows, Policy(ModeToday, today, dtparse));
            var wide := Selection(rows, Policy(ModeUntilToday, today, dtparse));
            forall e :: e in narrow ==> e in wide
  {
    var fs := FieldsOf(rows, dtparse);
    var narrow := Selection(rows, Policy(ModeToday, today, dtparse));
    var wide := Selection(rows, Policy(ModeUntilToday, today, dtparse));
    assert narrow == DueUpTo(fs, |rows|, ModeToday, today);
    assert wide == DueUpTo(fs, |rows|, ModeUntilToday, today);
    DueUpToEntries(fs, |rows|, ModeToday, today);
    DueUpToComplete(fs, |rows|, ModeUntilToday, today);
    forall e | e in narrow ensures e in wide {
      assert EntryFrom(fs, e, ModeToday, today);
      var i := e.row - 2;
      assert IsDue(fs[i], ModeUntilToday, today);
      assert e == EntryOf(fs[i], i);
    }
  }

  /**
   * The case-insensitive comparison: a sent flag counts as "sí" exactly when,
   * stripped, it is one of "sí", "sÍ", "Sí", "SÍ".
   */
  lemma SentMarkerSpellings(flag: string)
    ensures Lower(Strip(flag)) == SentMarker <==> Strip(flag) in {"sí", "sÍ", "Sí", "SÍ"}
  {
    var s := Strip(flag);
    LowerSpec(s);
    if Lower(s) == SentMarker {
      assert |s| == 2;
      assert LowerChar(s[0]) == 's' && LowerChar(s[1]) == 'í';
      assert s[0] == 's' || s[0] == 'S';
      assert s[1] == 'í' || s[1] == 'Í';
      assert s == [s[0], s[1]];
    }
    if s in {"sí", "sÍ", "Sí", "SÍ"} {
      assert Lower(s) == [LowerChar(s[0]), LowerChar(s[1])];
    }
  }

  /** The reply of `preview`: today, the mode and the rows that would be sent. */
  datatype PreviewReply = PreviewReply(today: Date, mode: string, toSend: seq<Pending>)

  /**
   * The body both routes run for record `i`: a record whose flag reads "sí",
   * that has no date, or whose date is outside the mode's window is skipped;
   * otherwise its entry, on table row `i + 2`, is the next one of the
   * selection.
   */
  method DueEntry(records: seq<Row>, i: nat, pol: Policy, ghost fs: seq<Fields>) returns (due: bool, e: Pending)
    requires i < |records| && i < |fs|
    requires fs[i] == Extract(records[i], pol.dtparse)
    ensures due ==> e.row == i + 2
    ensures DueUpTo(fs, i + 1, pol.mode, pol.today) == DueUpTo(fs, i, pol.mode, pol.today) + (if due then [e] else [])
  {
    var f := Extract(records[i], pol.dtparse);
    ghost var sel := DueUpTo(fs, i, pol.mode, pol.today);
    assert sel + [] == sel;
    due, e := false, Pending(i + 2, f.name, f.role, Date(0, 0, 0));
    if f.sent == SentMarker || f.date.None? {
      return;
    }
    if !InWindow(f.date.value, pol.mode, pol.today) {
      return;
    }
    due, e := true, Pending(i + 2, f.name, f.role, f.date.value);
  }

  /**
   * The loop of `preview`: visits the records in table order and appends the
   * entry of every due one.
   */
  method CollectPending(records: seq<Row>, pol: Policy) returns (pending: seq<Pending>)
    ensures pending == Selection(records, pol)
  {
    ghost var fs := FieldsOf(records, pol.dtparse);
    pending := [];
    for i := 0 to |records|
      invariant pending == DueUpTo(fs, i, pol.mode, pol.today)
    {
      FieldsOfAt(records, pol.dtparse, i);
      var due, e := DueEntry(records, i, pol, fs);
      if due {
        pending := pending + [e];
      }
    }
  }

  /** `preview`: today, the mode, and the due records of the worksheet in table order. */
  method Preview(sheet: Worksheet, pol: Policy) returns (reply: PreviewReply)
    ensures reply == PreviewReply(pol.today, pol.mode, Selection(sheet.rows[..], pol))
  {
    var records := sheet.GetAllRecords();
    var pending := CollectPending(records, pol);
    reply := PreviewReply(pol.today, pol.mode, pending);
  }
}
