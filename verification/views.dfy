/** What habit100.py derives from the two documents without changing them:
    the set of ids done on a day, the table rows, the day report and the
    filter control's next tag. */
module Views {
  import opened Model
  import opened Edits

  // ---------- The done set (today_done_ids) ----------

  /** r.get("val") is True or isinstance(r.get("val"), str) */
  predicate CountsAsDone(e: Entry)
  {
    e.val.CheckTrue? || e.val.Log?
  }

  /** The ids of the entries of a day's list that count as done, whatever the
      habit's type. */
  function DoneIds(l: seq<Entry>): set<int>
  {
    if l == [] then {} else (if CountsAsDone(l[0]) then {l[0].id} else {}) + DoneIds(l[1..])
  }

  lemma {:induction false} DoneIdsIff(l: seq<Entry>, id: int)
    ensures id in DoneIds(l) <==> exists k :: 0 <= k < |l| && l[k].id == id && CountsAsDone(l[k])
  {
    if l != [] {
      DoneIdsIff(l[1..], id);
      assert forall k :: 1 <= k < |l| ==> l[k] == l[1..][k - 1];
      if id in DoneIds(l[1..]) {
        var k :| 0 <= k < |l| - 1 && l[1..][k].id == id && CountsAsDone(l[1..][k]);
        assert l[k + 1] == l[1..][k];
      }
    }
  }

  // ---------- The filter control (action_toggle_filter) ----------

  /** THEMES.index(tag), None standing for the ValueError of a missing tag;
      IndexInSpec states what it finds. */
  function IndexIn(s: seq<string>, x: string): Option<nat>
  {
    if s == [] then None
    else if s[0] == x then Some(0)
    else
      match IndexIn(s[1..], x)
      case None => None
      case Some(i) => Some(i + 1)
  }

  /** The first position of x in s, or None exactly when x is not in s. */
  lemma {:induction false} IndexInSpec(s: seq<string>, x: string)
    ensures IndexIn(s, x).None? <==> x !in s
    ensures IndexIn(s, x).Some? ==> IndexIn(s, x).value < |s| && s[IndexIn(s, x).value] == x
    ensures IndexIn(s, x).Some? ==> forall k :: 0 <= k < IndexIn(s, x).value ==> s[k] != x
  {
    if s != [] && s[0] != x {
      IndexInSpec(s[1..], x);
      assert x in s <==> x in s[1..] by {
        assert s == [s[0]] + s[1..];
      }
      match IndexIn(s[1..], x)
      case None =>
      case Some(i) =>
        assert s[1..][i] == s[i + 1];
        assert forall k :: 1 <= k < i + 1 ==> s[k] == s[1..][k - 1];
    }
  }

  /** The filter step over a theme list: none goes to the first theme, a
      theme to the next one (the last wraps round to the first), anything
      else to none. */
  function NextTag(themes: seq<string>, tag: Option<string>): Option<string>
    requires themes != []
  {
    match tag
    case None => Some(themes[0])
    case Some(t) =>
      match IndexIn(themes, t)
      case Some(i) => Some(themes[(i + 1) % |themes|])
      case None => None
  }

  /** The filter step of the program, over THEMES. */
  function NextFilter(tag: Option<string>): Option<string>
  {
    NextTag(Themes, tag)
  }

  predicate Distinct(s: seq<string>)
  {
    forall i, j :: 0 <= i < j < |s| ==> s[i] != s[j]
  }

  lemma ThemesDistinct()
    ensures Distinct(Themes)
  {
    assert Themes[0][0] != Themes[1][0] && Themes[0][0] != Themes[2][0];
    assert forall i :: 0 <= i < |Themes| ==> |Themes[i]| >= 2;
  }

  /** The three cases of the step, for any list of distinct themes. */
  lemma NextTagCases(themes: seq<string>, tag: string, i: nat)
    requires themes != [] && Distinct(themes)
    ensures NextTag(themes, None) == Some(themes[0])
    ensures i < |themes| ==> NextTag(themes, Some(themes[i])) == Some(themes[(i + 1) % |themes|])
    ensures tag !in themes ==> NextTag(themes, Some(tag)) == None
  {
    IndexInSpec(themes, tag);
    if i < |themes| {
      IndexInSpec(themes, themes[i]);
      var j := IndexIn(themes, themes[i]).value;
      assert j == i;
    }
  }

  /** The three cases of the program's filter step: none to the first theme,
      the i-th theme to the (i + 1) mod 7-th, an unknown tag to none. */
  lemma NextFilterCases(tag: string, i: nat)
    ensures NextFilter(None) == Some(Themes[0])
    ensures i < |Themes| ==> NextFilter(Some(Themes[i])) == Some(Themes[(i + 1) % |Themes|])
    ensures tag !in Themes ==> NextFilter(Some(tag)) == None
  {
    ThemesDistinct();
    NextTagCases(Themes, tag, i);
  }

  /** The filter step applied n times. */
  function Steps(themes: seq<string>, tag: Option<string>, n: nat): Option<string>
    requires themes != []
    decreases n
  {
    if n == 0 then tag else Steps(themes, NextTag(themes, tag), n - 1)
  }

  /** The index arithmetic of the step: (i + 1) % n is i + 1 below the end
      of the list and 0 at its end. */
  lemma WrapStep(i: nat, n: nat)
    requires i < n
    ensures (i + 1) % n == if i + 1 < n then i + 1 else 0
  {
  }

  /** The step without the modulus: to the next theme, or from the last one
      back to the first. */
  lemma NextTagSucc(themes: seq<string>, i: nat)
    requires themes != [] && Distinct(themes) && i < |themes|
    ensures i + 1 < |themes| ==> NextTag(themes, Some(themes[i])) == Some(themes[i + 1])
    ensures i + 1 == |themes| ==> NextTag(themes, Some(themes[i])) == Some(themes[0])
  {
    NextTagCases(themes, [], i);
    WrapStep(i, |themes|);
  }

  /** One step off the i-th theme: to the next one, or from the last one
      back to the first. */
  lemma StepsOnce(themes: seq<string>, i: nat, n: nat)
    requires themes != [] && Distinct(themes) && i < |themes| && n > 0
    ensures i + 1 < |themes| ==> Steps(themes, Some(themes[i]), n) == Steps(themes, Some(themes[i + 1]), n - 1)
    ensures i + 1 == |themes| ==> Steps(themes, Some(themes[i]), n) == Steps(themes, Some(themes[0]), n - 1)
  {
    NextTagSucc(themes, i);
  }

  /** Before the end of the list, n steps move n themes on. */
  lemma {:induction false} StepsForward(themes: seq<string>, i: nat, n: nat)
    requires themes != [] && Distinct(themes) && i + n < |themes|
    ensures Steps(themes, Some(themes[i]), n) == Some(themes[i + n])
    decreases n
  {
    if n > 0 {
      StepsOnce(themes, i, n);
      StepsForward(themes, i + 1, n - 1);
      assert i + 1 + (n - 1) == i + n;
    }
  }

  /** From the i-th theme, the steps to the end of the list reach the first
      theme again, and j more steps reach the j-th. */
  lemma {:induction false} StepsWrap(themes: seq<string>, i: nat, j: nat)
    requires themes != [] && Distinct(themes) && i < |themes| && j < |themes|
    ensures Steps(themes, Some(themes[i]), |themes| - i + j) == Some(themes[j])
    decreases |themes| - i
  {
    StepsOnce(themes, i, |themes| - i + j);
    if i + 1 < |themes| {
      StepsWrap(themes, i + 1, j);
      assert |themes| - (i + 1) + j == |themes| - i + j - 1;
    } else {
      StepsForward(themes, 0, j);
    }
  }

  /** Once on a theme the control never goes back to none: as many steps as
      there are themes come back to the same theme. */
  lemma ThemeCycle(themes: seq<string>, i: nat)
    requires themes != [] && Distinct(themes) && i < |themes|
    ensures Steps(themes, Some(themes[i]), |themes|) == Some(themes[i])
  {
    StepsWrap(themes, i, i);
  }

  /** Seven presses of the filter key from any theme come back to it. */
  lemma FilterCycle(i: nat)
    requires i < |Themes|
    ensures Steps(Themes, Some(Themes[i]), |Themes|) == Some(Themes[i])
  {
    ThemesDistinct();
    ThemeCycle(Themes, i);
  }

  // ---------- The table rows (refresh_table) ----------

  /** One table row: done mark, id, type, title and tags. */
  datatype Row = Row(done: bool, id: int, kind: string, title: string, tags: seq<string>)

  /** `if self.filter_tag`: an empty tag is false in Python and filters
      nothing. */
  predicate FilterApplies(tag: Option<string>)
  {
    tag.Some? && tag.value != []
  }

  /** A habit gets a row when it is active and, with a filter set, carries
      the filter tag. */
  predicate Shown(h: Habit, tag: Option<string>)
  {
    IsActive(h) && (FilterApplies(tag) ==> tag.value in h.tags)
  }

  function RowOf(h: Habit, done: set<int>): Row
  {
    Row(h.id in done, h.id, KindOf(h), h.title, h.tags)
  }

  /** The row loop over the already sorted habits. */
  function RowsOf(hs: seq<Habit>, done: set<int>, tag: Option<string>): seq<Row>
  {
    if hs == [] then []
    else (if Shown(hs[0], tag) then [RowOf(hs[0], done)] else []) + RowsOf(hs[1..], done, tag)
  }

  /** The rows of the table for a day and a filter tag. */
  function VisibleRows(habits: seq<Habit>, days: Days, dkey: string, tag: Option<string>): seq<Row>
  {
    RowsOf(SortById(habits), DoneIds(DayList(days, dkey)), tag)
  }

  lemma {:induction false} RowsOfMembers(hs: seq<Habit>, done: set<int>, tag: Option<string>)
    ensures forall h :: h in hs && Shown(h, tag) ==> RowOf(h, done) in RowsOf(hs, done, tag)
    ensures forall r :: r in RowsOf(hs, done, tag) ==> exists h :: h in hs && Shown(h, tag) && r == RowOf(h, done)
  {
    if hs != [] {
      RowsOfMembers(hs[1..], done, tag);
      assert hs == [hs[0]] + hs[1..];
    }
  }

  lemma {:induction false} RowsOfBounded(hs: seq<Habit>, done: set<int>, tag: Option<string>, lo: int)
    requires forall h :: h in hs ==> lo <= h.id
    ensures forall r :: r in RowsOf(hs, done, tag) ==> lo <= r.id
  {
    RowsOfMembers(hs, done, tag);
  }

  predicate RowsAscending(rows: seq<Row>)
  {
    forall i, j :: 0 <= i < j < |rows| ==> rows[i].id <= rows[j].id
  }

  /** The first habit of a sorted list has the least id. */
  lemma SortedHeadLeast(hs: seq<Habit>)
    requires hs != [] && SortedById(hs)
    ensures forall h :: h in hs[1..] ==> hs[0].id <= h.id
  {
    forall h | h in hs[1..] ensures hs[0].id <= h.id {
      var m :| 0 <= m < |hs[1..]| && hs[1..][m] == h;
      assert hs[m + 1] == h;
    }
  }

  /** A row whose id is at most every id of ascending rows may go in front. */
  lemma RowsAscendingCons(r: Row, rest: seq<Row>)
    requires RowsAscending(rest)
    requires forall x :: x in rest ==> r.id <= x.id
    ensures RowsAscending([r] + rest)
  {
    var rows := [r] + rest;
    forall i, j | 0 <= i < j < |rows| ensures rows[i].id <= rows[j].id {
      assert rows[j] == rest[j - 1];
      assert rest[j - 1] in rest;
      if i > 0 {
        assert rows[i] == rest[i - 1];
      }
    }
  }

  lemma {:induction false} RowsOfAscending(hs: seq<Habit>, done: set<int>, tag: Option<string>)
    requires SortedById(hs)
    ensures RowsAscending(RowsOf(hs, done, tag))
  {
    if hs != [] {
      var rest := RowsOf(hs[1..], done, tag);
      SortedTail(hs);
      RowsOfAscending(hs[1..], done, tag);
      SortedHeadLeast(hs);
      RowsOfBounded(hs[1..], done, tag, hs[0].id);
      if Shown(hs[0], tag) {
        RowsAscendingCons(RowOf(hs[0], done), rest);
      }
    }
  }

  /** The rows are exactly the shown habits: every shown habit has its row,
      and every row is the row of a shown habit. */
  lemma VisibleRowsExactly(habits: seq<Habit>, days: Days, dkey: string, tag: Option<string>)
    ensures var done := DoneIds(DayList(days, dkey));
      forall h :: h in habits && Shown(h, tag) ==> RowOf(h, done) in VisibleRows(habits, days, dkey, tag)
    ensures var done := DoneIds(DayList(days, dkey));
      forall r :: r in VisibleRows(habits, days, dkey, tag) ==> exists h :: h in habits && Shown(h, tag) && r == RowOf(h, done)
  {
    SortByIdMembers(habits);
    RowsOfMembers(SortById(habits), DoneIds(DayList(days, dkey)), tag);
  }

  /** The rows come in ascending id order. */
  lemma VisibleRowsAscending(habits: seq<Habit>, days: Days, dkey: string, tag: Option<string>)
    ensures RowsAscending(VisibleRows(habits, days, dkey, tag))
  {
    RowsOfAscending(SortById(habits), DoneIds(DayList(days, dkey)), tag);
  }

  /** A row is marked done iff some entry of that day with its id is true or
      a string. */
  lemma VisibleRowDone(habits: seq<Habit>, days: Days, dkey: string, tag: Option<string>, i: nat)
    requires i < |VisibleRows(habits, days, dkey, tag)|
    ensures var r := VisibleRows(habits, days, dkey, tag)[i]; var l := DayList(days, dkey);
      r.done <==> exists k :: 0 <= k < |l| && l[k].id == r.id && CountsAsDone(l[k])
  {
    var rows := VisibleRows(habits, days, dkey, tag);
    VisibleRowsExactly(habits, days, dkey, tag);
    assert rows[i] in rows;
    DoneIdsIff(DayList(days, dkey), rows[i].id);
  }

  /** The rows of the habits with id k, in list order. */
  function RowsWithId(rows: seq<Row>, k: int): seq<Row>
  {
    if rows == [] then [] else (if rows[0].id == k then [rows[0]] else []) + RowsWithId(rows[1..], k)
  }

  lemma {:induction false} RowsWithIdOfRowsOf(hs: seq<Habit>, done: set<int>, tag: Option<string>, k: int)
    ensures RowsWithId(RowsOf(hs, done, tag), k) == RowsOf(WithIdK(hs, k), done, tag)
  {
    if hs != [] {
      RowsWithIdOfRowsOf(hs[1..], done, tag, k);
      var head := if Shown(hs[0], tag) then [RowOf(hs[0], done)] else [];
      RowsWithIdAppend(head, RowsOf(hs[1..], done, tag), k);
      var hk := if hs[0].id == k then [hs[0]] else [];
      RowsOfAppend(hk, WithIdK(hs[1..], k), done, tag);
      if hs[0].id == k {
        assert RowsOf(hk, done, tag) == head;
      }
    }
  }

  lemma {:induction false} RowsWithIdAppend(a: seq<Row>, b: seq<Row>, k: int)
    ensures RowsWithId(a + b, k) == RowsWithId(a, k) + RowsWithId(b, k)
  {
    if a == [] {
      assert a + b == b;
    } else {
      var ab := a + b;
      assert ab[0] == a[0] && ab[1..] == a[1..] + b;
      var head := if a[0].id == k then [a[0]] else [];
      assert RowsWithId(ab, k) == head + RowsWithId(a[1..] + b, k);
      assert RowsWithId(a, k) == head + RowsWithId(a[1..], k);
      RowsWithIdAppend(a[1..], b, k);
      Assoc(head, RowsWithId(a[1..], k), RowsWithId(b, k));
    }
  }

  lemma {:induction false} RowsOfAppend(a: seq<Habit>, b: seq<Habit>, done: set<int>, tag: Option<string>)
    ensures RowsOf(a + b, done, tag) == RowsOf(a, done, tag) + RowsOf(b, done, tag)
  {
    if a == [] {
      assert a + b == b;
    } else {
      var ab := a + b;
      assert ab[0] == a[0] && ab[1..] == a[1..] + b;
      var head := if Shown(a[0], tag) then [RowOf(a[0], done)] else [];
      assert RowsOf(ab, done, tag) == head + RowsOf(a[1..] + b, done, tag);
      assert RowsOf(a, done, tag) == head + RowsOf(a[1..], done, tag);
      RowsOfAppend(a[1..], b, done, tag);
      Assoc(head, RowsOf(a[1..], done, tag), RowsOf(b, done, tag));
    }
  }

  /** With unique ids, a habit's id is on its own row once when the habit is
      shown and on none when it is not. */
  lemma VisibleRowsOnce(habits: seq<Habit>, days: Days, dkey: string, tag: Option<string>, i: nat)
    requires UniqueIds(habits) && i < |habits|
    ensures var h := habits[i];
      RowsWithId(VisibleRows(habits, days, dkey, tag), h.id)
        == if Shown(h, tag) then [RowOf(h, DoneIds(DayList(days, dkey)))] else []
  {
    var h := habits[i];
    var done := DoneIds(DayList(days, dkey));
    RowsWithIdOfRowsOf(SortById(habits), done, tag, h.id);
    SortByIdStable(habits, h.id);
    WithIdKUnique(habits, i);
  }

  /** With unique ids the habits carrying one of them are just that habit. */
  lemma {:induction false} WithIdKUnique(hs: seq<Habit>, i: nat)
    requires UniqueIds(hs) && i < |hs|
    ensures WithIdK(hs, hs[i].id) == [hs[i]]
  {
    var k := hs[i].id;
    assert UniqueIds(hs[1..]) by {
      forall a, b | 0 <= a < b < |hs[1..]| ensures hs[1..][a].id != hs[1..][b].id {
        assert hs[1..][a] == hs[a + 1] && hs[1..][b] == hs[b + 1];
      }
    }
    if i == 0 {
      forall g | g in hs[1..] ensures g.id != k {
        var m :| 0 <= m < |hs[1..]| && hs[1..][m] == g;
        assert hs[m + 1] == g;
      }
      WithIdKAbsent(hs[1..], k);
    } else {
      assert hs[1..][i - 1] == hs[i];
      assert hs[0].id != k;
      WithIdKUnique(hs[1..], i - 1);
    }
  }

  lemma {:induction false} WithIdKAbsent(hs: seq<Habit>, k: int)
    requires forall g :: g in hs ==> g.id != k
    ensures WithIdK(hs, k) == []
  {
    if hs != [] {
      assert hs[0] in hs;
      assert forall g :: g in hs[1..] ==> g in hs;
      WithIdKAbsent(hs[1..], k);
    }
  }

  // ---------- The day report (action_show_report) ----------

  /** One report line, kept structured: the header, a done check habit, or
      one log text of a log habit with its time stamp. */
  datatype ReportLine =
    | Header(day: string)
    | CheckLine(id: int, title: string)
    | LogLine(id: int, title: string, text: string, ts: string)

  /** by_id.get(id, []) */
  function Lookup(m: map<int, seq<Entry>>, id: int): seq<Entry>
  {
    if id in m then m[id] else []
  }

  /** by_id: each id of the day's list to its entries, in list order. */
  function GroupById(l: seq<Entry>): (m: map<int, seq<Entry>>)
    ensures forall id :: Lookup(m, id) == EntriesOf(l, id)
    decreases |l|
  {
    if l == [] then map[]
    else
      var init, e := l[..|l| - 1], l[|l| - 1];
      var m := GroupById(init);
      assert l == init + [e];
      var m' := m[e.id := Lookup(m, e.id) + [e]];
      GroupSnoc(init, e, l, m, m');
      m'
  }

  /** Adding one entry to the group of its id groups the longer list. */
  lemma GroupSnoc(init: seq<Entry>, e: Entry, l: seq<Entry>, m: map<int, seq<Entry>>, m': map<int, seq<Entry>>)
    requires l == init + [e]
    requires forall id :: Lookup(m, id) == EntriesOf(init, id)
    requires m' == m[e.id := Lookup(m, e.id) + [e]]
    ensures forall id :: Lookup(m', id) == EntriesOf(l, id)
  {
    forall id ensures Lookup(m', id) == EntriesOf(l, id) {
      EntriesOfAppend(init, [e], id);
      EntriesOfSingle(e, id);
      if id == e.id {
        assert Lookup(m', id) == Lookup(m, id) + [e];
      } else {
        assert Lookup(m', id) == Lookup(m, id);
      }
    }
  }

  /** any(r.get("val") is True for r in logs) */
  predicate AnyCheck(logs: seq<Entry>)
  {
    exists k :: 0 <= k < |logs| && logs[k].val == CheckTrue
  }

  /** One line per string-valued entry, in stored order. */
  function LogLines(h: Habit, logs: seq<Entry>): seq<ReportLine>
  {
    if logs == [] then []
    else
      (match logs[0].val
       case Log(text) => [LogLine(h.id, h.title, text, logs[0].ts)]
       case _ => [])
      + LogLines(h, logs[1..])
  }

  /** The lines one habit adds to the report. */
  function HabitLines(h: Habit, logs: seq<Entry>): seq<ReportLine>
  {
    if !IsActive(h) then []
    else if IsCheckHabit(h) then (if AnyCheck(logs) then [CheckLine(h.id, h.title)] else [])
    else LogLines(h, logs)
  }

  /** The loop over the sorted habits. */
  function ReportBody(hs: seq<Habit>, byId: map<int, seq<Entry>>): seq<ReportLine>
  {
    if hs == [] then [] else HabitLines(hs[0], Lookup(byId, hs[0].id)) + ReportBody(hs[1..], byId)
  }

  /** The report for a day: the header, then the lines of the active habits
      in ascending id order. */
  function Report(habits: seq<Habit>, days: Days, dkey: string): (r: seq<ReportLine>)
    ensures |r| >= 1 && r[0] == Header(dkey)
  {
    [Header(dkey)] + ReportBody(SortById(habits), GroupById(DayList(days, dkey)))
  }

  /** Where a body line comes from: an active habit of hs with the line's id
      and title; for a check line a check habit with a true entry that day,
      for a log line a habit of another type with {id, ts, text} on that day. */
  predicate LineFrom(x: ReportLine, hs: seq<Habit>, l: seq<Entry>)
  {
    match x
    case Header(_) => false
    case CheckLine(id, title) =>
      exists h :: h in hs && IsActive(h) && IsCheckHabit(h) && h.id == id && h.title == title && AnyCheck(EntriesOf(l, id))
    case LogLine(id, title, text, ts) =>
      exists h :: h in hs && IsActive(h) && !IsCheckHabit(h) && h.id == id && h.title == title
        && Entry(id, ts, Log(text)) in l
  }

  lemma {:induction false} EntriesOfMember(l: seq<Entry>, id: int, e: Entry)
    requires e in EntriesOf(l, id)
    ensures e in l && e.id == id
  {
    var head := if l[0].id == id then [l[0]] else [];
    if e !in head {
      EntriesOfMember(l[1..], id, e);
    }
  }

  lemma {:induction false} LogLinesFrom(h: Habit, logs: seq<Entry>, x: ReportLine)
    requires x in LogLines(h, logs)
    ensures x.LogLine? && x.id == h.id && x.title == h.title
    ensures x.LogLine? ==> exists e :: e in logs && e.ts == x.ts && e.val == Log(x.text)
  {
    var head := match logs[0].val case Log(text) => [LogLine(h.id, h.title, text, logs[0].ts)] case _ => [];
    assert LogLines(h, logs) == head + LogLines(h, logs[1..]);
    if x in head {
      assert logs[0] in logs;
    } else {
      LogLinesFrom(h, logs[1..], x);
      assert forall e :: e in logs[1..] ==> e in logs;
    }
  }

  /** Every body line comes from an active habit of hs (LineFrom). */
  lemma {:induction false} BodyLinesKnown(hs: seq<Habit>, l: seq<Entry>)
    ensures forall x :: x in ReportBody(hs, GroupById(l)) ==> LineFrom(x, hs, l)
  {
    if hs != [] {
      var m := GroupById(l);
      BodyLinesKnown(hs[1..], l);
      var h := hs[0];
      var logs := Lookup(m, h.id);
      assert logs == EntriesOf(l, h.id);
      assert ReportBody(hs, m) == HabitLines(h, logs) + ReportBody(hs[1..], m);
      forall x | x in ReportBody(hs, m) ensures LineFrom(x, hs, l) {
        if x in HabitLines(h, logs) {
          assert h in hs;
          if !IsCheckHabit(h) {
            LogLinesFrom(h, logs, x);
            var e :| e in logs && e.ts == x.ts && e.val == Log(x.text);
            EntriesOfMember(l, h.id, e);
            assert e == Entry(x.id, x.ts, Log(x.text));
          }
        } else {
          assert LineFrom(x, hs[1..], l);
          assert forall g :: g in hs[1..] ==> g in hs;
        }
      }
    }
  }

  // ---------- What the report says, habit by habit ----------

  /** A body line that belongs to the habit with id k. */
  predicate LineOf(x: ReportLine, k: int)
  {
    (x.CheckLine? || x.LogLine?) && x.id == k
  }

  /** The lines of the habit with id k, in report order. */
  function LinesOf(lines: seq<ReportLine>, k: int): seq<ReportLine>
  {
    if lines == [] then [] else (if LineOf(lines[0], k) then [lines[0]] else []) + LinesOf(lines[1..], k)
  }

  lemma {:induction false} LinesOfAppend(a: seq<ReportLine>, b: seq<ReportLine>, k: int)
    ensures LinesOf(a + b, k) == LinesOf(a, k) + LinesOf(b, k)
  {
    if a == [] {
      assert a + b == b;
    } else {
      var ab := a + b;
      assert ab[0] == a[0] && ab[1..] == a[1..] + b;
      var head := if LineOf(a[0], k) then [a[0]] else [];
      assert LinesOf(ab, k) == head + LinesOf(a[1..] + b, k);
      assert LinesOf(a, k) == head + LinesOf(a[1..], k);
      LinesOfAppend(a[1..], b, k);
      Assoc(head, LinesOf(a[1..], k), LinesOf(b, k));
    }
  }

  /** Lines that all belong to habit j: filtering by k keeps all or none. */
  lemma {:induction false} LinesOfOwn(lines: seq<ReportLine>, j: int, k: int)
    requires forall x :: x in lines ==> LineOf(x, j)
    ensures LinesOf(lines, k) == if j == k then lines else []
  {
    if lines != [] {
      assert lines[0] in lines;
      assert forall x :: x in lines[1..] ==> x in lines;
      LinesOfOwn(lines[1..], j, k);
      assert lines == [lines[0]] + lines[1..];
    }
  }

  lemma {:induction false} ReportBodyAppend(a: seq<Habit>, b: seq<Habit>, m: map<int, seq<Entry>>)
    ensures ReportBody(a + b, m) == ReportBody(a, m) + ReportBody(b, m)
  {
    if a == [] {
      assert a + b == b;
    } else {
      var ab := a + b;
      assert ab[0] == a[0] && ab[1..] == a[1..] + b;
      var head := HabitLines(a[0], Lookup(m, a[0].id));
      assert ReportBody(ab, m) == head + ReportBody(a[1..] + b, m);
      assert ReportBody(a, m) == head + ReportBody(a[1..], m);
      ReportBodyAppend(a[1..], b, m);
      Assoc(head, ReportBody(a[1..], m), ReportBody(b, m));
    }
  }

  /** Every line a habit adds carries its id. */
  lemma HabitLinesOwn(h: Habit, logs: seq<Entry>)
    ensures forall x :: x in HabitLines(h, logs) ==> LineOf(x, h.id)
  {
    forall x | x in HabitLines(h, logs) ensures LineOf(x, h.id) {
      if IsActive(h) && !IsCheckHabit(h) {
        LogLinesFrom(h, logs, x);
      }
    }
  }

  /** Filtering the body by an id keeps the lines of the habits with that
      id, in their order. */
  lemma {:induction false} LinesOfBody(hs: seq<Habit>, m: map<int, seq<Entry>>, k: int)
    ensures LinesOf(ReportBody(hs, m), k) == ReportBody(WithIdK(hs, k), m)
  {
    if hs != [] {
      var h := hs[0];
      var own := HabitLines(h, Lookup(m, h.id));
      LinesOfBody(hs[1..], m, k);
      LinesOfAppend(own, ReportBody(hs[1..], m), k);
      HabitLinesOwn(h, Lookup(m, h.id));
      LinesOfOwn(own, h.id, k);
      var hk := if h.id == k then [h] else [];
      ReportBodyAppend(hk, WithIdK(hs[1..], k), m);
      if h.id == k {
        assert [h][1..] == [];
        assert ReportBody(hk, m) == own;
      }
    }
  }

  /** With unique ids, the report lines of the i-th habit are exactly the
      lines it adds for that day's entries with its id, and no other habit
      adds any. */
  lemma ReportPerHabit(habits: seq<Habit>, days: Days, dkey: string, i: nat)
    requires UniqueIds(habits) && i < |habits|
    ensures var h := habits[i];
      LinesOf(Report(habits, days, dkey), h.id) == HabitLines(h, EntriesOf(DayList(days, dkey), h.id))
  {
    var h := habits[i];
    ReportLinesOfId(habits, days, dkey, h.id);
    WithIdKUnique(habits, i);
    assert [h][1..] == [];
  }

  /** Some entry of the list for id is true exactly when its sub-list of id
      holds a true entry. */
  lemma {:induction false} AnyCheckIff(l: seq<Entry>, id: int)
    ensures AnyCheck(EntriesOf(l, id)) <==> exists k :: 0 <= k < |l| && IsCheckOf(l[k], id)
  {
    if l != [] {
      AnyCheckIff(l[1..], id);
      var head := if l[0].id == id then [l[0]] else [];
      assert EntriesOf(l, id) == head + EntriesOf(l[1..], id);
      AnyCheckAppend(head, EntriesOf(l[1..], id));
      assert AnyCheck(head) <==> IsCheckOf(l[0], id) by {
        if AnyCheck(head) {
          var k :| 0 <= k < |head| && head[k].val == CheckTrue;
        }
        if IsCheckOf(l[0], id) {
          assert head[0].val == CheckTrue;
        }
      }
      ChecksShift(l, id);
    }
  }

  lemma AnyCheckAppend(a: seq<Entry>, b: seq<Entry>)
    ensures AnyCheck(a + b) <==> AnyCheck(a) || AnyCheck(b)
  {
    if AnyCheck(a) {
      var k :| 0 <= k < |a| && a[k].val == CheckTrue;
      assert (a + b)[k] == a[k];
    }
    if AnyCheck(b) {
      var k :| 0 <= k < |b| && b[k].val == CheckTrue;
      assert (a + b)[|a| + k] == b[k];
    }
    if AnyCheck(a + b) {
      var k :| 0 <= k < |a + b| && (a + b)[k].val == CheckTrue;
      if k < |a| {
        assert a[k] == (a + b)[k];
      } else {
        assert b[k - |a|] == (a + b)[k];
      }
    }
  }

  lemma ChecksShift(l: seq<Entry>, id: int)
    requires l != []
    ensures (exists k :: 0 <= k < |l| && IsCheckOf(l[k], id))
      <==> IsCheckOf(l[0], id) || exists k :: 0 <= k < |l[1..]| && IsCheckOf(l[1..][k], id)
  {
    if exists k :: 0 <= k < |l[1..]| && IsCheckOf(l[1..][k], id) {
      var k :| 0 <= k < |l[1..]| && IsCheckOf(l[1..][k], id);
      assert l[k + 1] == l[1..][k];
    }
    if exists k :: 0 <= k < |l| && IsCheckOf(l[k], id) {
      var k :| 0 <= k < |l| && IsCheckOf(l[k], id);
      if k > 0 {
        assert l[1..][k - 1] == l[k];
      }
    }
  }

  /** A check habit: one line when some entry of the day with its id is
      true, none otherwise; an inactive habit adds nothing. */
  lemma ReportCheckHabit(habits: seq<Habit>, days: Days, dkey: string, i: nat)
    requires UniqueIds(habits) && i < |habits|
    ensures var h := habits[i]; var l := DayList(days, dkey);
      IsActive(h) && IsCheckHabit(h) ==>
        LinesOf(Report(habits, days, dkey), h.id)
          == if exists k :: 0 <= k < |l| && IsCheckOf(l[k], h.id) then [CheckLine(h.id, h.title)] else []
    ensures !IsActive(habits[i]) ==> LinesOf(Report(habits, days, dkey), habits[i].id) == []
  {
    ReportPerHabit(habits, days, dkey, i);
    AnyCheckIff(DayList(days, dkey), habits[i].id);
  }

  /** A habit of another type gets one line per string entry: a line for
      (text, ts) is there exactly when some entry has that ts and text. */
  lemma {:induction false} LogLinesIff(h: Habit, logs: seq<Entry>, text: string, ts: string)
    ensures LogLine(h.id, h.title, text, ts) in LogLines(h, logs)
      <==> exists k :: 0 <= k < |logs| && logs[k].ts == ts && logs[k].val == Log(text)
  {
    if logs != [] {
      LogLinesIff(h, logs[1..], text, ts);
      if exists k :: 0 <= k < |logs[1..]| && logs[1..][k].ts == ts && logs[1..][k].val == Log(text) {
        var k :| 0 <= k < |logs[1..]| && logs[1..][k].ts == ts && logs[1..][k].val == Log(text);
        assert logs[k + 1] == logs[1..][k];
      }
      if exists k :: 0 <= k < |logs| && logs[k].ts == ts && logs[k].val == Log(text) {
        var k :| 0 <= k < |logs| && logs[k].ts == ts && logs[k].val == Log(text);
        if k > 0 {
          assert logs[1..][k - 1] == logs[k];
        }
      }
    }
  }

  /** Stored order: the lines of a longer list extend those of its prefix. */
  lemma {:induction false} LogLinesAppend(h: Habit, a: seq<Entry>, b: seq<Entry>)
    ensures LogLines(h, a + b) == LogLines(h, a) + LogLines(h, b)
  {
    if a == [] {
      assert a + b == b;
    } else {
      var ab := a + b;
      assert ab[0] == a[0] && ab[1..] == a[1..] + b;
      var head := match a[0].val case Log(text) => [LogLine(h.id, h.title, text, a[0].ts)] case _ => [];
      assert LogLines(h, ab) == head + LogLines(h, a[1..] + b);
      assert LogLines(h, a) == head + LogLines(h, a[1..]);
      LogLinesAppend(h, a[1..], b);
      Assoc(head, LogLines(h, a[1..]), LogLines(h, b));
    }
  }

  /** An active habit of another type: its lines are those of its entries
      on that day. */
  lemma ReportLogHabit(habits: seq<Habit>, days: Days, dkey: string, i: nat)
    requires UniqueIds(habits) && i < |habits|
    requires IsActive(habits[i]) && !IsCheckHabit(habits[i])
    ensures var h := habits[i];
      LinesOf(Report(habits, days, dkey), h.id) == LogLines(h, EntriesOf(DayList(days, dkey), h.id))
  {
    ReportPerHabit(habits, days, dkey, i);
  }

  /** Every body line has the id of some habit of hs. */
  lemma {:induction false} ReportBodyOwners(hs: seq<Habit>, m: map<int, seq<Entry>>)
    ensures forall x :: x in ReportBody(hs, m) ==> exists g :: g in hs && LineOf(x, g.id)
  {
    if hs != [] {
      var h := hs[0];
      ReportBodyOwners(hs[1..], m);
      HabitLinesOwn(h, Lookup(m, h.id));
      assert h in hs;
      assert forall g :: g in hs[1..] ==> g in hs;
    }
  }

  /** The body lines' ids never go down. */
  predicate LinesAscending(lines: seq<ReportLine>)
  {
    forall i, j :: 0 <= i < j < |lines| && !lines[i].Header? && !lines[j].Header? ==> lines[i].id <= lines[j].id
  }

  lemma {:induction false} ReportBodyAscending(hs: seq<Habit>, m: map<int, seq<Entry>>)
    requires SortedById(hs)
    ensures LinesAscending(ReportBody(hs, m))
  {
    if hs != [] {
      var h := hs[0];
      SortedTail(hs);
      ReportBodyAscending(hs[1..], m);
      TailLinesAbove(hs, m);
      HabitLinesOwn(h, Lookup(m, h.id));
      AscendingConcat(HabitLines(h, Lookup(m, h.id)), ReportBody(hs[1..], m), h.id);
    }
  }

  /** The lines of the later habits of a sorted list carry ids no smaller
      than the first habit's. */
  lemma TailLinesAbove(hs: seq<Habit>, m: map<int, seq<Entry>>)
    requires hs != [] && SortedById(hs)
    ensures forall x :: x in ReportBody(hs[1..], m) ==> !x.Header? && hs[0].id <= x.id
  {
    ReportBodyOwners(hs[1..], m);
    forall x | x in ReportBody(hs[1..], m) ensures !x.Header? && hs[0].id <= x.id {
      var g :| g in hs[1..] && LineOf(x, g.id);
      var n :| 0 <= n < |hs[1..]| && hs[1..][n] == g;
      assert hs[n + 1] == g;
    }
  }

  /** One habit's lines followed by ascending lines with ids no smaller. */
  lemma AscendingConcat(own: seq<ReportLine>, rest: seq<ReportLine>, a: int)
    requires forall x :: x in own ==> LineOf(x, a)
    requires forall x :: x in rest ==> !x.Header? && a <= x.id
    requires LinesAscending(rest)
    ensures LinesAscending(own + rest)
  {
    var lines := own + rest;
    forall i, j | 0 <= i < j < |lines| && !lines[i].Header? && !lines[j].Header?
      ensures lines[i].id <= lines[j].id
    {
      if j < |own| {
        assert lines[i] == own[i] && lines[j] == own[j];
        assert own[i] in own && own[j] in own;
      } else if i >= |own| {
        assert lines[i] == rest[i - |own|] && lines[j] == rest[j - |own|];
      } else {
        assert lines[i] == own[i] && own[i] in own;
        assert lines[j] == rest[j - |own|] && rest[j - |own|] in rest;
      }
    }
  }

  /** After the header, the lines come in ascending habit id order. */
  lemma ReportAscending(habits: seq<Habit>, days: Days, dkey: string)
    ensures LinesAscending(Report(habits, days, dkey)[1..])
    ensures forall k :: 1 <= k < |Report(habits, days, dkey)| ==> !Report(habits, days, dkey)[k].Header?
  {
    var body := ReportBody(SortById(habits), GroupById(DayList(days, dkey)));
    ReportBodyAscending(SortById(habits), GroupById(DayList(days, dkey)));
    ReportBodyOwners(SortById(habits), GroupById(DayList(days, dkey)));
    assert Report(habits, days, dkey)[1..] == body;
    forall k | 1 <= k < |Report(habits, days, dkey)| ensures !Report(habits, days, dkey)[k].Header? {
      assert Report(habits, days, dkey)[k] == body[k - 1] && body[k - 1] in body;
    }
  }

  lemma {:induction false} ReportBodyDepends(hs: seq<Habit>, m1: map<int, seq<Entry>>, m2: map<int, seq<Entry>>)
    requires forall g :: g in hs ==> Lookup(m1, g.id) == Lookup(m2, g.id)
    ensures ReportBody(hs, m1) == ReportBody(hs, m2)
  {
    if hs != [] {
      assert hs[0] in hs;
      assert forall g :: g in hs[1..] ==> g in hs;
      ReportBodyDepends(hs[1..], m1, m2);
    }
  }

  /** Entries of ids that no habit has contribute nothing: two days whose
      entries agree on every habit's id give the same report. */
  lemma ReportIgnoresUnknown(habits: seq<Habit>, days1: Days, days2: Days, dkey: string)
    requires forall g :: g in habits ==> EntriesOf(DayList(days1, dkey), g.id) == EntriesOf(DayList(days2, dkey), g.id)
    ensures Report(habits, days1, dkey) == Report(habits, days2, dkey)
  {
    SortByIdMembers(habits);
    ReportBodyDepends(SortById(habits), GroupById(DayList(days1, dkey)), GroupById(DayList(days2, dkey)));
  }

  /** The report lines of id k are the lines of the habits with id k, in
      list order, whether or not ids are unique. */
  lemma ReportLinesOfId(habits: seq<Habit>, days: Days, dkey: string, k: int)
    ensures LinesOf(Report(habits, days, dkey), k)
      == ReportBody(WithIdK(habits, k), GroupById(DayList(days, dkey)))
  {
    var m := GroupById(DayList(days, dkey));
    LinesOfAppend([Header(dkey)], ReportBody(SortById(habits), m), k);
    assert LinesOf([Header(dkey)], k) == [];
    LinesOfBody(SortById(habits), m, k);
    SortByIdStable(habits, k);
  }

  lemma {:induction false} WithIdKIds(hs: seq<Habit>, k: int)
    ensures forall g :: g in WithIdK(hs, k) ==> g in hs && g.id == k
  {
    if hs != [] {
      WithIdKIds(hs[1..], k);
      assert forall g :: g in hs[1..] ==> g in hs;
    }
  }

  /** The report lines of id k depend only on the day's entries of k. */
  lemma LinesOfIdDepends(habits: seq<Habit>, l1: seq<Entry>, l2: seq<Entry>, k: int)
    requires EntriesOf(l1, k) == EntriesOf(l2, k)
    ensures ReportBody(WithIdK(habits, k), GroupById(l1)) == ReportBody(WithIdK(habits, k), GroupById(l2))
  {
    WithIdKIds(habits, k);
    var m1 := GroupById(l1);
    var m2 := GroupById(l2);
    assert Lookup(m1, k) == Lookup(m2, k);
    ReportBodyDepends(WithIdK(habits, k), m1, m2);
  }
}
