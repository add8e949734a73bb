/** How the state changes of habit100.py show up in the table and in the
    day report: what a log, a toggle and a delete do to them. */
module Laws {
  import opened Model
  import opened Text
  import opened Edits
  import opened Views

  /** Every line after the header comes from an active habit of the list:
      a check line from a check habit with a true entry that day, a log line
      from a habit of another type with that entry. */
  lemma ReportLinesKnown(habits: seq<Habit>, days: Days, dkey: string)
    ensures forall k :: 1 <= k < |Report(habits, days, dkey)| ==>
      LineFrom(Report(habits, days, dkey)[k], habits, DayList(days, dkey))
  {
    forall k | 1 <= k < |Report(habits, days, dkey)|
      ensures LineFrom(Report(habits, days, dkey)[k], habits, DayList(days, dkey))
    {
      ReportLineKnown(habits, days, dkey, k);
    }
  }

  lemma ReportLineKnown(habits: seq<Habit>, days: Days, dkey: string, k: nat)
    requires 1 <= k < |Report(habits, days, dkey)|
    ensures LineFrom(Report(habits, days, dkey)[k], habits, DayList(days, dkey))
  {
    var l := DayList(days, dkey);
    var body := ReportBody(SortById(habits), GroupById(l));
    var r := Report(habits, days, dkey);
    assert r == [Header(dkey)] + body;
    ConsIndex(Header(dkey), body, k);
    SortedBodyKnown(habits, l, r[k]);
  }

  lemma ConsIndex<T>(x: T, b: seq<T>, k: nat)
    requires 1 <= k <= |b|
    ensures ([x] + b)[k] == b[k - 1] && b[k - 1] in b
  {
  }

  lemma SortedBodyKnown(habits: seq<Habit>, l: seq<Entry>, x: ReportLine)
    requires x in ReportBody(SortById(habits), GroupById(l))
    ensures LineFrom(x, habits, l)
  {
    BodyLinesKnown(SortById(habits), l);
    SortByIdMembers(habits);
    LineFromWider(x, SortById(habits), habits, l);
  }

  lemma LineFromWider(x: ReportLine, a: seq<Habit>, b: seq<Habit>, l: seq<Entry>)
    requires LineFrom(x, a, l)
    requires forall h :: h in a ==> h in b
    ensures LineFrom(x, b, l)
  {
    match x
    case CheckLine(id, title) =>
      var h :| h in a && IsActive(h) && IsCheckHabit(h) && h.id == id && h.title == title && AnyCheck(EntriesOf(l, id));
      assert h in b;
    case LogLine(id, title, text, ts) =>
      var h :| h in a && IsActive(h) && !IsCheckHabit(h) && h.id == id && h.title == title && Entry(id, ts, Log(text)) in l;
      assert h in b;
  }

  /** Saving a log for an active habit of another type adds exactly one
      report line for it, at the end of its lines, with the stripped text
      and the time stamp. */
  lemma SaveLogAddsLine(habits: seq<Habit>, days: Days, dkey: string, i: nat, ts: string, text: string)
    requires UniqueIds(habits) && i < |habits|
    requires IsActive(habits[i]) && !IsCheckHabit(habits[i])
    requires !AllSpace(text)
    ensures var h := habits[i];
      LinesOf(Report(habits, AppendLog(days, dkey, h.id, ts, text), dkey), h.id)
        == LinesOf(Report(habits, days, dkey), h.id) + [LogLine(h.id, h.title, Strip(text), ts)]
  {
    var h := habits[i];
    var l := DayList(days, dkey);
    var e := Entry(h.id, ts, Log(Strip(text)));
    var days' := AppendLog(days, dkey, h.id, ts, text);
    StripEmptyIff(text);
    assert DayList(days', dkey) == l + [e];
    ReportLogHabit(habits, days, dkey, i);
    ReportLogHabit(habits, days', dkey, i);
    AppendedLogLines(h, l, e);
  }

  lemma AppendedLogLines(h: Habit, l: seq<Entry>, e: Entry)
    requires e.id == h.id && e.val.Log?
    ensures LogLines(h, EntriesOf(l + [e], h.id)) == LogLines(h, EntriesOf(l, h.id)) + [LogLine(h.id, h.title, e.val.text, e.ts)]
  {
    EntriesOfAppend(l, [e], h.id);
    assert [e][1..] == [];
    assert EntriesOf([e], h.id) == [e];
    LogLinesAppend(h, EntriesOf(l, h.id), [e]);
    assert LogLines(h, [e]) == [LogLine(h.id, h.title, e.val.text, e.ts)];
  }

  /** Saving a log changes no other habit's report lines. */
  lemma SaveLogKeepsOthers(habits: seq<Habit>, days: Days, dkey: string, hid: int, ts: string, text: string, k: int)
    requires k != hid
    ensures LinesOf(Report(habits, AppendLog(days, dkey, hid, ts, text), dkey), k)
      == LinesOf(Report(habits, days, dkey), k)
  {
    var days' := AppendLog(days, dkey, hid, ts, text);
    ReportLinesOfId(habits, days, dkey, k);
    ReportLinesOfId(habits, days', dkey, k);
    AppendLogOthers(days, dkey, hid, ts, text, k);
    LinesOfIdDepends(habits, DayList(days', dkey), DayList(days, dkey), k);
  }

  /** A habit has a true entry exactly when its count of true entries is
      positive. */
  lemma HasCheckIff(l: seq<Entry>, hid: int)
    ensures CountChecks(l, hid) > 0 <==> exists k :: 0 <= k < |l| && IsCheckOf(l[k], hid)
  {
    if exists k :: 0 <= k < |l| && IsCheckOf(l[k], hid) {
      var k :| 0 <= k < |l| && IsCheckOf(l[k], hid);
      CountChecksSome(l, hid, k);
    } else {
      CountChecksNone(l, hid);
    }
  }

  /** Toggling an active check habit flips its report line: a habit with no
      line gets one, a habit with one (and, as the toggle keeps it, at most
      one true entry) loses it. */
  lemma ToggleFlipsReportLine(habits: seq<Habit>, days: Days, dkey: string, i: nat, ts: string)
    requires UniqueIds(habits) && i < |habits|
    requires IsActive(habits[i]) && IsCheckHabit(habits[i])
    requires CountChecks(DayList(days, dkey), habits[i].id) <= 1
    ensures var h := habits[i];
      var before := LinesOf(Report(habits, days, dkey), h.id);
      var after := LinesOf(Report(habits, ToggleAt(days, dkey, h.id, ts), dkey), h.id);
      && (before == [] ==> after == [CheckLine(h.id, h.title)])
      && (before != [] ==> before == [CheckLine(h.id, h.title)] && after == [])
  {
    var h := habits[i];
    var days' := ToggleAt(days, dkey, h.id, ts);
    assert DayList(days', dkey) == ToggleDay(DayList(days, dkey), h.id, ts);
    ReportCheckHabit(habits, days, dkey, i);
    ReportCheckHabit(habits, days', dkey, i);
    ToggleDayCount(DayList(days, dkey), h.id, ts);
    HasCheckIff(DayList(days, dkey), h.id);
    HasCheckIff(DayList(days', dkey), h.id);
  }

  /** A toggle changes no other habit's report lines. */
  lemma ToggleKeepsOthers(habits: seq<Habit>, days: Days, dkey: string, hid: int, ts: string, k: int)
    requires k != hid
    ensures LinesOf(Report(habits, ToggleAt(days, dkey, hid, ts), dkey), k)
      == LinesOf(Report(habits, days, dkey), k)
  {
    var days' := ToggleAt(days, dkey, hid, ts);
    assert DayList(days', dkey) == ToggleDay(DayList(days, dkey), hid, ts);
    ReportLinesOfId(habits, days, dkey, k);
    ReportLinesOfId(habits, days', dkey, k);
    ToggleDayOthers(DayList(days, dkey), hid, ts, k);
    LinesOfIdDepends(habits, DayList(days', dkey), DayList(days, dkey), k);
  }

  /** Two toggles with no true entry to start from leave the day map as the
      first toggle's setdefault made it: the day's list is back as it was. */
  lemma ToggleTwiceRestoresDays(days: Days, dkey: string, hid: int, ts: string, ts': string)
    requires forall k :: 0 <= k < |DayList(days, dkey)| ==> !IsCheckOf(DayList(days, dkey)[k], hid)
    ensures ToggleAt(ToggleAt(days, dkey, hid, ts), dkey, hid, ts') == days[dkey := DayList(days, dkey)]
  {
    var days' := ToggleAt(days, dkey, hid, ts);
    assert DayList(days', dkey) == ToggleDay(DayList(days, dkey), hid, ts);
    ToggleTwiceRestores(DayList(days, dkey), hid, ts, ts');
  }

  lemma {:induction false} WithIdKWithout(hs: seq<Habit>, hid: int, k: int)
    requires k != hid
    ensures WithIdK(WithoutHabit(hs, hid), k) == WithIdK(hs, k)
  {
    if hs != [] {
      WithIdKWithout(hs[1..], hid, k);
      var head := if hs[0].id != hid then [hs[0]] else [];
      assert WithoutHabit(hs, hid) == head + WithoutHabit(hs[1..], hid);
      WithIdKAppend(head, WithoutHabit(hs[1..], hid), k);
      if hs[0].id != hid {
        assert [hs[0]][1..] == [];
      }
    }
  }

  lemma {:induction false} WithIdKAppend(a: seq<Habit>, b: seq<Habit>, k: int)
    ensures WithIdK(a + b, k) == WithIdK(a, k) + WithIdK(b, k)
  {
    if a == [] {
      assert a + b == b;
    } else {
      var ab := a + b;
      assert ab[0] == a[0] && ab[1..] == a[1..] + b;
      var head := if a[0].id == k then [a[0]] else [];
      assert WithIdK(ab, k) == head + WithIdK(a[1..] + b, k);
      assert WithIdK(a, k) == head + WithIdK(a[1..], k);
      WithIdKAppend(a[1..], b, k);
      Assoc(head, WithIdK(a[1..], k), WithIdK(b, k));
    }
  }

  /** The done set after the purge is the old one without hid. */
  lemma {:induction false} DoneIdsPurged(l: seq<Entry>, hid: int)
    ensures DoneIds(EntriesNotOf(l, hid)) == DoneIds(l) - {hid}
  {
    if l != [] {
      DoneIdsPurged(l[1..], hid);
      var head := if l[0].id != hid then [l[0]] else [];
      assert EntriesNotOf(l, hid) == head + EntriesNotOf(l[1..], hid);
      DoneIdsAppend(head, EntriesNotOf(l[1..], hid));
      if l[0].id != hid {
        assert [l[0]][1..] == [];
      }
    }
  }

  lemma {:induction false} DoneIdsAppend(a: seq<Entry>, b: seq<Entry>)
    ensures DoneIds(a + b) == DoneIds(a) + DoneIds(b)
  {
    if a == [] {
      assert a + b == b;
    } else {
      assert (a + b)[0] == a[0] && (a + b)[1..] == a[1..] + b;
      DoneIdsAppend(a[1..], b);
    }
  }

  lemma {:induction false} RowsOfDepends(hs: seq<Habit>, done1: set<int>, done2: set<int>, tag: Option<string>)
    requires forall g :: g in hs ==> (g.id in done1 <==> g.id in done2)
    ensures RowsOf(hs, done1, tag) == RowsOf(hs, done2, tag)
  {
    if hs != [] {
      assert hs[0] in hs;
      assert forall g :: g in hs[1..] ==> g in hs;
      RowsOfDepends(hs[1..], done1, done2, tag);
    }
  }

  /** The purged day list of any day key, whether or not the key exists. */
  lemma PurgedDayList(days: Days, hid: int, dkey: string)
    ensures DayList(PurgeDays(days, hid), dkey) == EntriesNotOf(DayList(days, dkey), hid)
  {
  }

  /** After deleting hid, neither the table nor the report shows it. */
  lemma DeleteHidesHabit(habits: seq<Habit>, days: Days, dkey: string, tag: Option<string>, hid: int)
    ensures forall r :: r in VisibleRows(WithoutHabit(habits, hid), PurgeDays(days, hid), dkey, tag) ==> r.id != hid
    ensures LinesOf(Report(WithoutHabit(habits, hid), PurgeDays(days, hid), dkey), hid) == []
  {
    var hs := WithoutHabit(habits, hid);
    var days' := PurgeDays(days, hid);
    VisibleRowsExactly(hs, days', dkey, tag);
    ReportLinesOfId(hs, days', dkey, hid);
    WithIdKAbsent(hs, hid);
  }

  /** Deleting hid leaves every other habit's row and report lines as they
      were. */
  lemma DeleteKeepsOthers(habits: seq<Habit>, days: Days, dkey: string, tag: Option<string>, hid: int, k: int)
    requires k != hid
    ensures RowsWithId(VisibleRows(WithoutHabit(habits, hid), PurgeDays(days, hid), dkey, tag), k)
      == RowsWithId(VisibleRows(habits, days, dkey, tag), k)
    ensures LinesOf(Report(WithoutHabit(habits, hid), PurgeDays(days, hid), dkey), k)
      == LinesOf(Report(habits, days, dkey), k)
  {
    var hs := WithoutHabit(habits, hid);
    var days' := PurgeDays(days, hid);
    var l := DayList(days, dkey);
    PurgedDayList(days, hid, dkey);
    WithIdKWithout(habits, hid, k);
    WithIdKIds(habits, k);
    // the table
    var done := DoneIds(l);
    var done' := DoneIds(DayList(days', dkey));
    DoneIdsPurged(l, hid);
    RowsWithIdOfRowsOf(SortById(hs), done', tag, k);
    RowsWithIdOfRowsOf(SortById(habits), done, tag, k);
    SortByIdStable(hs, k);
    SortByIdStable(habits, k);
    RowsOfDepends(WithIdK(habits, k), done', done, tag);
    // the report
    ReportLinesOfId(hs, days', dkey, k);
    ReportLinesOfId(habits, days, dkey, k);
    EntriesNotOfSpec(l, hid, k);
    LinesOfIdDepends(habits, DayList(days', dkey), l, k);
  }
}
