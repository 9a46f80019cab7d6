/**
 * The `send_pending` route: the reminder of every due record goes to each
 * destination number in turn, and a record all of whose sends went through
 * is marked "sí" in the worksheet's "Enviado" column.
 */
module Dispatch {
  import opened Text
  import opened Dates
  import opened Sheet
  import opened DueRows

  /** What a reminder message says: the record's name, role and date. */
  datatype Reminder = Reminder(name: string, role: string, date: Date)

  /** One call of `send_whatsapp_text`: a destination number and the message. */
  datatype Attempt = Attempt(dest: string, msg: Reminder)

  /** One entry of `sent`: the table row and the name. */
  datatype SentEntry = SentEntry(row: int, name: string)

  /**
   * What `send_pending` answers: the error for an empty `DEST_NUMBERS`, the
   * error for a header row without "Enviado", or today, the mode, the rows
   * marked and their count.
   */
  datatype Reply =
    | NoDestinations
    | MissingSentColumn
    | Done(today: Date, mode: string, sent: seq<SentEntry>, count: nat)

  /**
   * Whether sending the reminder of table row `row` to destination number `j`
   * (0-based, in `DEST_NUMBERS` order) returned without raising. The network
   * decides it; the model takes it as a parameter.
   */
  type Outcome = (int, int) -> bool

  function MessageOf(e: Pending): Reminder {
    Reminder(e.name, e.role, e.date)
  }

  /** The sends of one message: one per destination, in order. */
  function Attempts(msg: Reminder, dests: seq<string>): (log: seq<Attempt>)
    ensures |log| == |dests|
    ensures forall j :: 0 <= j < |dests| ==> log[j] == Attempt(dests[j], msg)
  {
    if dests == [] then []
    else Attempts(msg, dests[..|dests| - 1]) + [Attempt(dests[|dests| - 1], msg)]
  }

  /** `ok_all` after the first `n` destinations: none of their sends raised. */
  predicate AllSucceed(row: int, n: nat, outcome: Outcome) {
    forall j :: 0 <= j < n ==> outcome(row, j)
  }

  /**
   * The state of `send_pending` after some of the selected records: whether
   * it has stopped on a missing "Enviado" column, `sent`, the sends made so
   * far and the table rows marked "sí", in order.
   */
  datatype Progress = Progress(halted: bool, sent: seq<SentEntry>, log: seq<Attempt>, marked: seq<int>)

  const Start := Progress(false, [], [], [])

  /**
   * One selected record: its message goes to every destination; if every
   * send went through, the record is marked and listed when the header row
   * has "Enviado", and the run stops otherwise. Nothing happens once stopped.
   */
  function Step(p: Progress, e: Pending, dests: seq<string>, outcome: Outcome, hasColumn: bool): Progress {
    if p.halted then p
    else
      var log := p.log + Attempts(MessageOf(e), dests);
      if !AllSucceed(e.row, |dests|, outcome) then Progress(false, p.sent, log, p.marked)
      else if !hasColumn then Progress(true, p.sent, log, p.marked)
      else Progress(false, p.sent + [SentEntry(e.row, e.name)], log, p.marked + [e.row])
  }

  /** The selected records handled in order. */
  function Pass(sel: seq<Pending>, dests: seq<string>, outcome: Outcome, hasColumn: bool): Progress {
    if sel == [] then Start
    else Step(Pass(sel[..|sel| - 1], dests, outcome, hasColumn), sel[|sel| - 1], dests, outcome, hasColumn)
  }

  lemma PassAppend(sel: seq<Pending>, e: Pending, dests: seq<string>, outcome: Outcome, hasColumn: bool)
    ensures Pass(sel + [e], dests, outcome, hasColumn) == Step(Pass(sel, dests, outcome, hasColumn), e, dests, outcome, hasColumn)
  {
    assert (sel + [e])[..|sel|] == sel;
  }

  // Reference definitions: the sends, the confirmed records and their rows, each on its own.

  /** Every selected record's message to every destination, record by record. */
  function AttemptLog(sel: seq<Pending>, dests: seq<string>): seq<Attempt> {
    if sel == [] then []
    else AttemptLog(sel[..|sel| - 1], dests) + Attempts(MessageOf(sel[|sel| - 1]), dests)
  }

  /** The records of `sel` none of whose sends raised, in order. */
  function Confirmed(sel: seq<Pending>, n: nat, outcome: Outcome): seq<Pending> {
    if sel == [] then []
    else
      var e := sel[|sel| - 1];
      Confirmed(sel[..|sel| - 1], n, outcome) + (if AllSucceed(e.row, n, outcome) then [e] else [])
  }

  function SentOf(c: seq<Pending>): (s: seq<SentEntry>)
    ensures |s| == |c|
    ensures forall k :: 0 <= k < |c| ==> s[k] == SentEntry(c[k].row, c[k].name)
  {
    if c == [] then [] else SentOf(c[..|c| - 1]) + [SentEntry(c[|c| - 1].row, c[|c| - 1].name)]
  }

  function RowsOf(c: seq<Pending>): (r: seq<int>)
    ensures |r| == |c|
    ensures forall k :: 0 <= k < |c| ==> r[k] == c[k].row
  {
    if c == [] then [] else RowsOf(c[..|c| - 1]) + [c[|c| - 1].row]
  }

  /** A record is confirmed exactly when it is selected and all of its sends went through. */
  lemma {:induction false} ConfirmedMembers(sel: seq<Pending>, n: nat, outcome: Outcome)
    ensures forall e :: e in Confirmed(sel, n, outcome) <==> e in sel && AllSucceed(e.row, n, outcome)
  {
    if sel != [] {
      var prefix := sel[..|sel| - 1];
      ConfirmedMembers(prefix, n, outcome);
      assert sel == prefix + [sel[|sel| - 1]];
    }
  }

  /** The confirmed records keep the table order of the selection. */
  lemma {:induction false} ConfirmedAscending(sel: seq<Pending>, n: nat, outcome: Outcome)
    requires Ascending(sel)
    ensures Ascending(Confirmed(sel, n, outcome))
  {
    if sel != [] {
      var prefix := sel[..|sel| - 1];
      var last := sel[|sel| - 1];
      assert Ascending(prefix);
      ConfirmedAscending(prefix, n, outcome);
      ConfirmedMembers(prefix, n, outcome);
      var before := Confirmed(prefix, n, outcome);
      var c := Confirmed(sel, n, outcome);
      forall k, l | 0 <= k < l < |c| ensures c[k].row < c[l].row {
        assert c[k] == before[k] && before[k] in prefix;
        if l < |before| {
          assert c[l] == before[l];
        } else {
          assert c[l] == last;
        }
      }
    }
  }

  /**
   * With an "Enviado" column the run never stops: it tries every destination
   * for every selected record, and lists and marks exactly the confirmed
   * records, in order.
   */
  lemma {:induction false} PassWithSentColumn(sel: seq<Pending>, dests: seq<string>, outcome: Outcome)
    ensures Pass(sel, dests, outcome, true)
      == Progress(false, SentOf(Confirmed(sel, |dests|, outcome)), AttemptLog(sel, dests), RowsOf(Confirmed(sel, |dests|, outcome)))
  {
    if sel != [] {
      var prefix := sel[..|sel| - 1];
      var last := sel[|sel| - 1];
      PassWithSentColumn(prefix, dests, outcome);
      var c := Confirmed(prefix, |dests|, outcome);
      if AllSucceed(last.row, |dests|, outcome) {
        assert (c + [last])[..|c|] == c;
      } else {
        assert c + [] == c;
      }
    }
  }

  /** The run stops at position `h` of `sel`: the first record whose sends all went through. */
  predicate StopsAt(sel: seq<Pending>, h: int, n: nat, outcome: Outcome) {
    && 0 <= h < |sel|
    && AllSucceed(sel[h].row, n, outcome)
    && forall k :: 0 <= k < h ==> !AllSucceed(sel[k].row, n, outcome)
  }

  /**
   * Without an "Enviado" column nothing is listed or marked, and the run
   * stops exactly when some record is confirmed; a run that does not stop
   * has sent every selected record's message to every destination.
   */
  lemma {:induction false} PassWithoutSentColumn(sel: seq<Pending>, dests: seq<string>, outcome: Outcome)
    ensures var p := Pass(sel, dests, outcome, false);
      && p.sent == [] && p.marked == []
      && (p.halted <==> exists k :: 0 <= k < |sel| && AllSucceed(sel[k].row, |dests|, outcome))
      && (!p.halted ==> p.log == AttemptLog(sel, dests))
  {
    if sel != [] {
      var prefix := sel[..|sel| - 1];
      PassWithoutSentColumn(prefix, dests, outcome);
      assert forall k :: 0 <= k < |prefix| ==> prefix[k] == sel[k];
    }
  }

  /**
   * A run stopped on the missing column has sent the messages of the
   * selected records up to the first confirmed one, and no further.
   */
  lemma {:induction false} PassStopsAtFirstConfirmed(sel: seq<Pending>, dests: seq<string>, outcome: Outcome)
    ensures var p := Pass(sel, dests, outcome, false);
      p.halted ==> exists h :: StopsAt(sel, h, |dests|, outcome) && p.log == AttemptLog(sel[..h + 1], dests)
  {
    if sel != [] {
      var prefix := sel[..|sel| - 1];
      var last := sel[|sel| - 1];
      PassStopsAtFirstConfirmed(prefix, dests, outcome);
      PassWithoutSentColumn(prefix, dests, outcome);
      var q := Pass(prefix, dests, outcome, false);
      assert sel == prefix + [last];
      if q.halted {
        var h :| StopsAt(prefix, h, |dests|, outcome) && q.log == AttemptLog(prefix[..h + 1], dests);
        assert prefix[..h + 1] == sel[..h + 1];
        assert StopsAt(sel, h, |dests|, outcome);
      } else if AllSucceed(last.row, |dests|, outcome) {
        assert sel[..|sel|] == sel;
        assert StopsAt(sel, |sel| - 1, |dests|, outcome);
      }
    }
  }

  /** Once stopped, the run stays stopped: handling further records changes nothing. */
  lemma {:induction false} PassHaltedStable(a: seq<Pending>, b: seq<Pending>, dests: seq<string>, outcome: Outcome, hasColumn: bool)
    requires |a| <= |b| && b[..|a|] == a
    requires Pass(a, dests, outcome, hasColumn).halted
    ensures Pass(b, dests, outcome, hasColumn) == Pass(a, dests, outcome, hasColumn)
    decreases |b|
  {
    if |b| > |a| {
      var prefix := b[..|b| - 1];
      assert prefix[..|a|] == a;
      PassHaltedStable(a, prefix, dests, outcome, hasColumn);
    } else {
      assert b == b[..|a|];
    }
  }

  // Marking rows in the worksheet.

  /** `update_cell(r, col_enviado, "sí")` on the records: row `r`'s "Enviado" cell becomes "sí". */
  function MarkRow(rows: seq<Row>, r: int): (out: seq<Row>)
    ensures |out| == |rows|
  {
    if 2 <= r < |rows| + 2 then rows[r - 2 := rows[r - 2][SentColumn := SentMarker]] else rows
  }

  /** The rows `marks` marked one after another. */
  function MarkRows(rows: seq<Row>, marks: seq<int>): (out: seq<Row>)
    ensures |out| == |rows|
  {
    if marks == [] then rows else MarkRow(MarkRows(rows, marks[..|marks| - 1]), marks[|marks| - 1])
  }

  /** Marking changes only the "Enviado" cell of the marked rows, which then reads "sí". */
  lemma {:induction false} MarkRowsAt(rows: seq<Row>, marks: seq<int>, i: nat)
    requires i < |rows|
    ensures MarkRows(rows, marks)[i] == if i + 2 in marks then rows[i][SentColumn := SentMarker] else rows[i]
  {
    if marks != [] {
      var prefix := marks[..|marks| - 1];
      MarkRowsAt(rows, prefix, i);
      assert marks == prefix + [marks[|marks| - 1]];
      if i + 2 in prefix && marks[|marks| - 1] == i + 2 {
        assert rows[i][SentColumn := SentMarker][SentColumn := SentMarker] == rows[i][SentColumn := SentMarker];
      }
    }
  }

  /** A record whose "Enviado" cell reads "sí" is not due, under any policy. */
  lemma MarkedRowIsNotDue(row: Row, pol: Policy)
    ensures !RowDue(row[SentColumn := SentMarker], pol)
  {
    var marked := row[SentColumn := SentMarker];
    assert Cell(marked, SentColumn) == SentMarker;
    StripStripped(SentMarker);
    assert Lower(SentMarker) == [LowerChar('s')] + Lower(['í']);
  }

  /** After marking, a record is selected exactly when it was selected before and was not marked. */
  lemma MarkRowsSelected(rows: seq<Row>, marks: seq<int>, i: nat, pol: Policy)
    requires i < |rows|
    ensures Selected(MarkRows(rows, marks), i, pol) <==> Selected(rows, i, pol) && i + 2 !in marks
  {
    SelectedIffDue(rows, i, pol);
    SelectedIffDue(MarkRows(rows, marks), i, pol);
    MarkRowsAt(rows, marks, i);
    if i + 2 in marks {
      MarkedRowIsNotDue(rows[i], pol);
    }
  }

  // What one run of `send_pending` achieves, when the header row has "Enviado".

  /** A row is marked exactly when it holds a selected record all of whose sends went through. */
  lemma MarkedRows(sel: seq<Pending>, dests: seq<string>, outcome: Outcome, r: int)
    ensures r in Pass(sel, dests, outcome, true).marked
      <==> (exists e :: e in sel && e.row == r) && AllSucceed(r, |dests|, outcome)
  {
    PassWithSentColumn(sel, dests, outcome);
    ConfirmedMembers(sel, |dests|, outcome);
    RowsOfMembers(Confirmed(sel, |dests|, outcome), r);
  }

  /** A row is among `RowsOf(c)` exactly when it holds a record of `c`. */
  lemma RowsOfMembers(c: seq<Pending>, r: int)
    ensures r in RowsOf(c) <==> exists e :: e in c && e.row == r
  {
    if r in RowsOf(c) {
      var k :| 0 <= k < |c| && RowsOf(c)[k] == r;
      assert c[k] in c;
    }
    if exists e :: e in c && e.row == r {
      var e :| e in c && e.row == r;
      var k :| 0 <= k < |c| && c[k] == e;
      assert RowsOf(c)[k] == r;
    }
  }

  /** Entry `s` of `sent` is made from a record of `sel`: its row and its name. */
  predicate SentFrom(sel: seq<Pending>, s: SentEntry) {
    exists e :: e in sel && s == SentEntry(e.row, e.name)
  }

  /**
   * `sent` lists the marked rows in the order they were marked, which is
   * the selection's order, each under the name of its selected record.
   */
  lemma SentMatchesMarked(sel: seq<Pending>, dests: seq<string>, outcome: Outcome)
    requires Ascending(sel)
    ensures var p := Pass(sel, dests, outcome, true);
      && |p.sent| == |p.marked|
      && (forall k :: 0 <= k < |p.sent| ==> p.sent[k].row == p.marked[k])
      && (forall k, l :: 0 <= k < l < |p.marked| ==> p.marked[k] < p.marked[l])
      && (forall s :: s in p.sent ==> SentFrom(sel, s))
  {
    var c := Confirmed(sel, |dests|, outcome);
    PassWithSentColumn(sel, dests, outcome);
    ConfirmedAscending(sel, |dests|, outcome);
    ConfirmedMembers(sel, |dests|, outcome);
    forall s | s in SentOf(c) ensures SentFrom(sel, s) {
      var k :| 0 <= k < |c| && SentOf(c)[k] == s;
      assert c[k] in c;
    }
  }

  /** A row is marked exactly when its record is due and every one of its sends went through. */
  lemma MarkedIffConfirmed(rows: seq<Row>, pol: Policy, dests: seq<string>, outcome: Outcome, i: nat)
    requires i < |rows|
    ensures (i + 2 in Pass(Selection(rows, pol), dests, outcome, true).marked)
      <==> RowDue(rows[i], pol) && AllSucceed(i + 2, |dests|, outcome)
  {
    MarkedRows(Selection(rows, pol), dests, outcome, i + 2);
    SelectedIffDue(rows, i, pol);
  }

  /**
   * `sent` lists, in table order, the selected records of the worksheet whose
   * sends all went through, each by its row and name.
   */
  lemma SentEntries(rows: seq<Row>, pol: Policy, dests: seq<string>, outcome: Outcome)
    ensures var p := Pass(Selection(rows, pol), dests, outcome, true);
      && (forall k, l :: 0 <= k < l < |p.sent| ==> p.sent[k].row < p.sent[l].row)
      && (forall s :: s in p.sent ==> SentFrom(Selection(rows, pol), s))
  {
    SelectionOrdered(rows, pol);
    SentMatchesMarked(Selection(rows, pol), dests, outcome);
  }

  /**
   * After a run, a record is still pending exactly when it was due and some
   * send of its reminder raised: the next run retries it and nothing else.
   */
  lemma PendingAfterRun(rows: seq<Row>, pol: Policy, dests: seq<string>, outcome: Outcome, i: nat)
    requires i < |rows|
    ensures Selected(MarkRows(rows, Pass(Selection(rows, pol), dests, outcome, true).marked), i, pol)
      <==> RowDue(rows[i], pol) && !AllSucceed(i + 2, |dests|, outcome)
  {
    MarkRowsSelected(rows, Pass(Selection(rows, pol), dests, outcome, true).marked, i, pol);
    MarkedIffConfirmed(rows, pol, dests, outcome, i);
    SelectedIffDue(rows, i, pol);
  }

  /**
   * When every send of a run went through, running again on the updated
   * worksheet selects nothing and so sends and marks nothing.
   */
  lemma RerunAfterFullSuccess(rows: seq<Row>, pol: Policy, dests: seq<string>, outcome: Outcome, outcome2: Outcome)
    requires forall i :: 0 <= i < |rows| && RowDue(rows[i], pol) ==> AllSucceed(i + 2, |dests|, outcome)
    ensures var after := MarkRows(rows, Pass(Selection(rows, pol), dests, outcome, true).marked);
      && Selection(after, pol) == []
      && Pass(Selection(after, pol), dests, outcome2, true) == Start
  {
    var after := MarkRows(rows, Pass(Selection(rows, pol), dests, outcome, true).marked);
    forall i | 0 <= i < |after| ensures !RowDue(after[i], pol) {
      PendingAfterRun(rows, pol, dests, outcome, i);
      SelectedIffDue(after, i, pol);
    }
    NothingDueSelectsNothing(after, pol);
  }

  // The route itself.

  /**
   * The inner loop of `send_pending`: the message goes to every destination
   * in order, a failure does not stop the loop, and `okAll` says no send
   * raised.
   */
  method SendToAll(row: int, msg: Reminder, dests: seq<string>, outcome: Outcome) returns (okAll: bool, attempts: seq<Attempt>)
    ensures okAll == AllSucceed(row, |dests|, outcome)
    ensures attempts == Attempts(msg, dests)
  {
    okAll := true;
    attempts := [];
    for j := 0 to |dests|
      invariant okAll == AllSucceed(row, j, outcome)
      invariant |attempts| == j
      invariant forall k :: 0 <= k < j ==> attempts[k] == Attempt(dests[k], msg)
    {
      attempts := attempts + [Attempt(dests[j], msg)];
      if !outcome(row, j) {
        okAll := false;
      }
    }
  }

  /**
   * One due record: send its reminder to every destination; if all went
   * through, look up "Enviado" in the header row and write "sí" under it in
   * the record's row and list the record in `sent`, or stop on the missing
   * column. The new state is one `Step` on from the old.
   */
  method DispatchRecord(sheet: Worksheet, e: Pending, dests: seq<string>, outcome: Outcome, p: Progress)
    returns (q: Progress)
    requires !p.halted && 2 <= e.row < sheet.rows.Length + 2
    modifies sheet.rows
    ensures q == Step(p, e, dests, outcome, SentColumn in sheet.header)
    ensures sheet.rows[..] == if q.marked == p.marked then old(sheet.rows[..]) else MarkRow(old(sheet.rows[..]), e.row)
  {
    var okAll, attempts := SendToAll(e.row, MessageOf(e), dests, outcome);
    q := p.(log := p.log + attempts);
    if okAll {
      var headers := sheet.HeaderRow();
      match ColumnIndex(headers, SentColumn)
      case None =>
        q := q.(halted := true);
      case Some(c) =>
        sheet.UpdateCell(e.row, c + 1, SentMarker);
        q := q.(sent := p.sent + [SentEntry(e.row, e.name)], marked := p.marked + [e.row]);
        assert |q.marked| != |p.marked|;
    }
  }

  /** Once the run has stopped before record `i`, the later records change nothing. */
  lemma HaltedRunIsFinal(fs: seq<Fields>, i: nat, mode: string, today: Date,
                         dests: seq<string>, outcome: Outcome, hasColumn: bool)
    requires i <= |fs|
    requires Pass(DueUpTo(fs, i, mode, today), dests, outcome, hasColumn).halted
    ensures Pass(DueUpTo(fs, |fs|, mode, today), dests, outcome, hasColumn)
      == Pass(DueUpTo(fs, i, mode, today), dests, outcome, hasColumn)
  {
    DueUpToPrefix(fs, i, |fs|, mode, today);
    PassHaltedStable(DueUpTo(fs, i, mode, today), DueUpTo(fs, |fs|, mode, today), dests, outcome, hasColumn);
  }

  /** The body of the loop of `send_pending` for record `i`: one `Step` when it is due, nothing otherwise. */
  method HandleRecord(sheet: Worksheet, records: seq<Row>, i: nat, pol: Policy, dests: seq<string>, outcome: Outcome,
                      p: Progress, ghost fs: seq<Fields>)
    returns (q: Progress)
    requires i < |records| == sheet.rows.Length
    requires FieldsFor(fs, records, pol.dtparse)
    requires !p.halted
    requires p == Pass(DueUpTo(fs, i, pol.mode, pol.today), dests, outcome, SentColumn in sheet.header)
    requires sheet.rows[..] == MarkRows(records, p.marked)
    modifies sheet.rows
    ensures q == Pass(DueUpTo(fs, i + 1, pol.mode, pol.today), dests, outcome, SentColumn in sheet.header)
    ensures sheet.rows[..] == MarkRows(records, q.marked)
  {
    ghost var sel := DueUpTo(fs, i, pol.mode, pol.today);
    var due, e := DueEntry(records, i, pol, fs);
    if !due {
      assert sel + [] == sel;
      return p;
    }
    PassAppend(sel, e, dests, outcome, SentColumn in sheet.header);
    q := DispatchRecord(sheet, e, dests, outcome, p);
    assert q.marked == p.marked || (q.marked == p.marked + [e.row] && q.marked[..|p.marked|] == p.marked);
  }

  /**
   * The loop of `send_pending` over one snapshot of the worksheet: the
   * records in table order, until the end or until the run stops.
   */
  method DispatchAll(sheet: Worksheet, records: seq<Row>, pol: Policy, dests: seq<string>, outcome: Outcome,
                     ghost fs: seq<Fields>)
    returns (p: Progress)
    requires sheet.rows[..] == records && FieldsFor(fs, records, pol.dtparse)
    modifies sheet.rows
    ensures p == Pass(DueUpTo(fs, |records|, pol.mode, pol.today), dests, outcome, SentColumn in sheet.header)
    ensures sheet.rows[..] == MarkRows(records, p.marked)
  {
    p := Start;
    var i := 0;
    while i < |records| && !p.halted
      invariant i <= |records|
      invariant p == Pass(DueUpTo(fs, i, pol.mode, pol.today), dests, outcome, SentColumn in sheet.header)
      invariant sheet.rows[..] == MarkRows(records, p.marked)
    {
      p := HandleRecord(sheet, records, i, pol, dests, outcome, p, fs);
      i := i + 1;
    }
    if p.halted {
      HaltedRunIsFinal(fs, i, pol.mode, pol.today, dests, outcome, SentColumn in sheet.header);
    }
  }

  /**
   * `send_pending`: with no destination numbers it answers the error and
   * touches nothing; otherwise it handles the selected records of one
   * snapshot of the worksheet in table order, and answers the rows it marked
   * and their count, or the missing-column error at the first record whose
   * sends all went through.
   */
  method SendPending(sheet: Worksheet, pol: Policy, dests: seq<string>, outcome: Outcome)
    returns (reply: Reply, log: seq<Attempt>)
    modifies sheet.rows
    ensures dests == [] ==> reply == NoDestinations && log == [] && sheet.rows[..] == old(sheet.rows[..])
    ensures dests != [] ==>
      var p := Pass(Selection(old(sheet.rows[..]), pol), dests, outcome, SentColumn in sheet.header);
      && reply == (if p.halted then MissingSentColumn else Done(pol.today, pol.mode, p.sent, |p.sent|))
      && log == p.log
      && sheet.rows[..] == MarkRows(old(sheet.rows[..]), p.marked)
  {
    if dests == [] {
      reply, log := NoDestinations, [];
      return;
    }
    var records := sheet.GetAllRecords();
    ghost var fs := FieldsOf(records, pol.dtparse);
    FieldsOfFor(records, pol.dtparse);
    var p := DispatchAll(sheet, records, pol, dests, outcome, fs);
    if p.halted {
      reply := MissingSentColumn;
    } else {
      reply := Done(pol.today, pol.mode, p.sent, |p.sent|);
    }
    log := p.log;
  }
}
