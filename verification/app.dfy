/** The HabitTUI object of habit100.py: the two loaded documents and the
    filter tag as fields, the actions as methods that update them in place,
    and the read-only helpers as methods whose loops are proved to compute
    the functions of the Views module. */
module App {
  import opened Model
  import opened Text
  import opened Edits
  import opened Views
  import opened Laws

  /** What the check action ends with: no habit with the selected id, the
      toggle done, or the log input screen opened for a habit of another
      type. */
  datatype ToggleOutcome = NoHabit | Toggled | AskForLog(habit: Habit)

  // ---------- The consistency the actions keep ----------

  /** Ids unique, every entry tied to a habit, at most one true entry per
      habit and day. */
  ghost predicate Consistent(hs: seq<Habit>, days: Days)
  {
    UniqueIds(hs) && EntriesKnown(hs, days) && ChecksAtMostOnce(days)
  }

  lemma UniqueTail(hs: seq<Habit>)
    requires hs != [] && UniqueIds(hs)
    ensures UniqueIds(hs[1..])
    ensures forall g :: g in hs[1..] ==> g.id != hs[0].id
  {
    forall a, b | 0 <= a < b < |hs[1..]| ensures hs[1..][a].id != hs[1..][b].id {
      assert hs[1..][a] == hs[a + 1] && hs[1..][b] == hs[b + 1];
    }
    forall g | g in hs[1..] ensures g.id != hs[0].id {
      var n :| 0 <= n < |hs[1..]| && hs[1..][n] == g;
      assert hs[n + 1] == g;
    }
  }

  lemma UniqueCons(h: Habit, rest: seq<Habit>)
    requires UniqueIds(rest)
    requires forall g :: g in rest ==> g.id != h.id
    ensures UniqueIds([h] + rest)
  {
    var r := [h] + rest;
    forall a, b | 0 <= a < b < |r| ensures r[a].id != r[b].id {
      assert r[b] == rest[b - 1] && rest[b - 1] in rest;
      if a > 0 {
        assert r[a] == rest[a - 1];
      }
    }
  }

  lemma {:induction false} WithoutHabitUnique(hs: seq<Habit>, hid: int)
    requires UniqueIds(hs)
    ensures UniqueIds(WithoutHabit(hs, hid))
  {
    if hs != [] {
      UniqueTail(hs);
      WithoutHabitUnique(hs[1..], hid);
      if hs[0].id != hid {
        UniqueCons(hs[0], WithoutHabit(hs[1..], hid));
      }
    }
  }

  lemma {:induction false} PurgeChecksAtMost(l: seq<Entry>, hid: int, other: int)
    ensures CountChecks(EntriesNotOf(l, hid), other) <= CountChecks(l, other)
  {
    if l != [] {
      PurgeChecksAtMost(l[1..], hid, other);
      var head := if l[0].id != hid then [l[0]] else [];
      CountChecksAppend(head, EntriesNotOf(l[1..], hid), other);
      if l[0].id != hid {
        assert [l[0]][1..] == [];
      }
    }
  }

  lemma DeleteKeepsValid(hs: seq<Habit>, days: Days, hid: int)
    requires Consistent(hs, days)
    ensures Consistent(WithoutHabit(hs, hid), PurgeDays(days, hid))
  {
    WithoutHabitUnique(hs, hid);
    DeleteKeepsEntriesKnown(hs, days, hid);
    var r := PurgeDays(days, hid);
    forall d, other | d in r ensures CountChecks(r[d], other) <= 1 {
      PurgeChecksAtMost(days[d], hid, other);
    }
  }

  lemma SaveLogKeepsValid(hs: seq<Habit>, days: Days, dkey: string, hid: int, ts: string, text: string)
    requires HasId(hs, hid)
    requires Consistent(hs, days)
    ensures Consistent(hs, AppendLog(days, dkey, hid, ts, text))
  {
    if Strip(text) != [] {
      AppendLogEntryKeepsValid(hs, days, dkey, Entry(hid, ts, Log(Strip(text))));
    }
  }

  /** Appending a log entry of a known habit to a day's list. */
  lemma AppendLogEntryKeepsValid(hs: seq<Habit>, days: Days, dkey: string, e: Entry)
    requires HasId(hs, e.id) && e.val.Log?
    requires Consistent(hs, days)
    ensures Consistent(hs, days[dkey := DayList(days, dkey) + [e]])
  {
    AppendEntryKnown(hs, days, dkey, e);
    AppendEntryChecks(days, dkey, e);
  }

  lemma AppendEntryKnown(hs: seq<Habit>, days: Days, dkey: string, e: Entry)
    requires HasId(hs, e.id) && EntriesKnown(hs, days)
    ensures EntriesKnown(hs, days[dkey := DayList(days, dkey) + [e]])
  {
    var l := DayList(days, dkey);
    var r: Days := days[dkey := l + [e]];
    forall d, k | d in r && 0 <= k < |r[d]| ensures HasId(hs, r[d][k].id) {
      if d == dkey && k < |l| {
        assert r[d][k] == l[k];
      }
    }
  }

  lemma AppendEntryChecks(days: Days, dkey: string, e: Entry)
    requires !e.val.CheckTrue? && ChecksAtMostOnce(days)
    ensures ChecksAtMostOnce(days[dkey := DayList(days, dkey) + [e]])
  {
    var l := DayList(days, dkey);
    var r: Days := days[dkey := l + [e]];
    forall d, other | d in r ensures CountChecks(r[d], other) <= 1 {
      if d == dkey {
        CountChecksAppend(l, [e], other);
        assert [e][1..] == [];
      }
    }
  }

  lemma ToggleKeepsValid(hs: seq<Habit>, days: Days, dkey: string, hid: int, ts: string, i: nat)
    requires i < |hs| && hs[i].id == hid
    requires Consistent(hs, days)
    ensures Consistent(hs, ToggleAt(days, dkey, hid, ts))
  {
    ToggleKeepsInvariants(hs, days, dkey, hid, ts);
  }

  /** setdefault(dkey, []) keeps the consistency. */
  lemma OpenDayKeepsValid(hs: seq<Habit>, days: Days, dkey: string)
    requires Consistent(hs, days)
    ensures Consistent(hs, days[dkey := DayList(days, dkey)])
  {
    var r: Days := days[dkey := DayList(days, dkey)];
    assert CountChecks([], 0) == 0;
    forall d, k | d in r && 0 <= k < |r[d]| ensures HasId(hs, r[d][k].id) {
      assert d in days;
    }
  }

  lemma AddKeepsValid(hs: seq<Habit>, days: Days, h: Habit)
    requires h.id == NextId(hs)
    requires Consistent(hs, days)
    ensures Consistent(hs + [h], days)
  {
    AppendNextIdKeepsUnique(hs, h);
    AddKeepsEntriesKnown(hs, days, h);
  }

  /** Replacing a record by one with the same id keeps the set of ids. */
  lemma EditKeepsValid(hs: seq<Habit>, days: Days, i: nat, h: Habit)
    requires i < |hs| && h.id == hs[i].id
    requires Consistent(hs, days)
    ensures Consistent(hs[i := h], days)
  {
    var hs' := hs[i := h];
    forall d, k | d in days && 0 <= k < |days[d]| ensures HasId(hs', days[d][k].id) {
      var n :| 0 <= n < |hs| && hs[n].id == days[d][k].id;
      assert hs'[n].id == hs[n].id;
    }
  }

  /** The first index of a true entry of hid in the list, by a loop. */
  method LocateCheck(l: seq<Entry>, hid: int) returns (r: Option<nat>)
    ensures r == FirstCheck(l, hid)
  {
    var k := 0;
    while k < |l|
      invariant 0 <= k <= |l|
      invariant forall j :: 0 <= j < k ==> !IsCheckOf(l[j], hid)
    {
      if l[k].id == hid && l[k].val == CheckTrue {
        return Some(k);
      }
      k := k + 1;
    }
    return None;
  }

  /** The by_id loop of action_show_report: each id to its entries, in
      list order. */
  method GroupEntries(arr: seq<Entry>) returns (byId: map<int, seq<Entry>>)
    ensures forall id :: Lookup(byId, id) == EntriesOf(arr, id)
  {
    byId := map[];
    var k := 0;
    while k < |arr|
      invariant 0 <= k <= |arr|
      invariant forall id :: Lookup(byId, id) == EntriesOf(arr[..k], id)
    {
      var r := arr[k];
      var next := byId[r.id := Lookup(byId, r.id) + [r]];
      GroupStep(arr, k, byId, next);
      byId := next;
      k := k + 1;
    }
    assert arr[..k] == arr;
  }

  lemma GroupStep(arr: seq<Entry>, k: nat, byId: map<int, seq<Entry>>, byId': map<int, seq<Entry>>)
    requires k < |arr|
    requires forall id :: Lookup(byId, id) == EntriesOf(arr[..k], id)
    requires byId' == byId[arr[k].id := Lookup(byId, arr[k].id) + [arr[k]]]
    ensures forall id :: Lookup(byId', id) == EntriesOf(arr[..k + 1], id)
  {
    assert arr[..k + 1] == arr[..k] + [arr[k]];
    GroupSnoc(arr[..k], arr[k], arr[..k + 1], byId, byId');
  }

  lemma ReportBodySnoc(hs: seq<Habit>, k: nat, m: map<int, seq<Entry>>)
    requires k < |hs|
    ensures ReportBody(hs[..k + 1], m) == ReportBody(hs[..k], m) + HabitLines(hs[k], Lookup(m, hs[k].id))
  {
    assert hs[..k + 1] == hs[..k] + [hs[k]];
    ReportBodyAppend(hs[..k], [hs[k]], m);
    assert [hs[k]][1..] == [];
  }

  /** One turn of the report loop: appending the next habit's lines keeps
      lines equal to the header and the body so far. */
  lemma ReportLoopStep(dkey: string, hs: seq<Habit>, k: nat, m: map<int, seq<Entry>>, lines: seq<ReportLine>, add: seq<ReportLine>)
    requires k < |hs|
    requires lines == [Header(dkey)] + ReportBody(hs[..k], m)
    requires add == HabitLines(hs[k], Lookup(m, hs[k].id))
    ensures lines + add == [Header(dkey)] + ReportBody(hs[..k + 1], m)
  {
    ReportBodySnoc(hs, k, m);
    Assoc([Header(dkey)], ReportBody(hs[..k], m), add);
  }

  /** The loop over the sorted habits of action_show_report. */
  method ReportLoop(dkey: string, sorted: seq<Habit>, byId: map<int, seq<Entry>>) returns (lines: seq<ReportLine>)
    ensures lines == [Header(dkey)] + ReportBody(sorted, byId)
  {
    lines := [Header(dkey)];
    var k := 0;
    while k < |sorted|
      invariant 0 <= k <= |sorted|
      invariant lines == [Header(dkey)] + ReportBody(sorted[..k], byId)
    {
      var h := sorted[k];
      var add := HabitLines(h, Lookup(byId, h.id));
      ReportLoopStep(dkey, sorted, k, byId, lines, add);
      lines := lines + add;
      k := k + 1;
    }
    assert sorted[..k] == sorted;
  }

  lemma DoneIdsSnoc(arr: seq<Entry>, k: nat)
    requires k < |arr|
    ensures DoneIds(arr[..k + 1]) == DoneIds(arr[..k]) + (if CountsAsDone(arr[k]) then {arr[k].id} else {})
  {
    assert arr[..k + 1] == arr[..k] + [arr[k]];
    DoneIdsAppend(arr[..k], [arr[k]]);
    assert [arr[k]][1..] == [];
  }

  lemma RowsOfSnoc(hs: seq<Habit>, k: nat, done: set<int>, tag: Option<string>)
    requires k < |hs|
    ensures RowsOf(hs[..k + 1], done, tag) == RowsOf(hs[..k], done, tag) + (if Shown(hs[k], tag) then [RowOf(hs[k], done)] else [])
  {
    assert hs[..k + 1] == hs[..k] + [hs[k]];
    RowsOfAppend(hs[..k], [hs[k]], done, tag);
    assert [hs[k]][1..] == [];
  }

  /** The imperative rendering of Views.NextTag, step by step as the body of
      action_toggle_filter runs it: none goes to the first theme, otherwise
      THEMES.index(tag) if tag in THEMES else -1 decides. */
  method StepFilter(themes: seq<string>, tag: Option<string>) returns (r: Option<string>)
    requires themes != []
    ensures r == NextTag(themes, tag)
  {
    if tag.None? {
      return Some(themes[0]);
    }
    var at := IndexIn(themes, tag.value);
    var idx := if at.Some? then at.value as int else -1;
    r := if idx >= 0 then Some(themes[(idx + 1) % |themes|]) else None;
  }

  /** The toggle on the day's list: arr.remove of the first true entry of
      hid, or arr.append of a new one. */
  method ToggleList(arr: seq<Entry>, hid: int, ts: string) returns (r: seq<Entry>)
    ensures r == ToggleDay(arr, hid, ts)
  {
    var ex := LocateCheck(arr, hid);
    if ex.Some? {
      r := arr[..ex.value] + arr[ex.value + 1..];
    } else {
      r := arr + [Entry(hid, ts, CheckTrue)];
    }
  }

  class HabitApp {
    /** habits_json["habits"] */
    var habits: seq<Habit>
    /** entries_json["days"] */
    var days: Days
    /** self.filter_tag */
    var filterTag: Option<string>

    ghost predicate Valid()
      reads this
    {
      Consistent(habits, days)
    }

    /** __init__ on the loaded documents: no filter. */
    constructor (habits0: seq<Habit>, days0: Days)
      ensures habits == habits0 && days == days0 && filterTag == None
    {
      habits := habits0;
      days := days0;
      filterTag := None;
    }

    /** __init__ on a first run, when Store writes the empty documents. */
    constructor Fresh()
      ensures habits == [] && days == map[] && filterTag == None
      ensures Valid()
    {
      habits := [];
      days := map[];
      filterTag := None;
    }

    /** next(x for x in habits if x["id"] == hid), by a loop. */
    method FindHabit(hid: int) returns (r: Option<nat>)
      ensures r == HabitIndex(habits, hid)
    {
      var k := 0;
      while k < |habits|
        invariant 0 <= k <= |habits|
        invariant forall j :: 0 <= j < k ==> habits[j].id != hid
      {
        if habits[k].id == hid {
          return Some(k);
        }
        k := k + 1;
      }
      return None;
    }

    /** today_done_ids: the loop over the day's list. */
    method TodayDoneIds(dkey: string) returns (done: set<int>)
      ensures done == DoneIds(DayList(days, dkey))
    {
      var arr := DayList(days, dkey);
      done := {};
      var k := 0;
      while k < |arr|
        invariant 0 <= k <= |arr|
        invariant done == DoneIds(arr[..k])
      {
        var r := arr[k];
        DoneIdsSnoc(arr, k);
        if r.val.CheckTrue? || r.val.Log? {
          done := done + {r.id};
        }
        k := k + 1;
      }
      assert arr[..k] == arr;
    }

    /** The row loop of refresh_table. */
    method TableRows(dkey: string) returns (rows: seq<Row>)
      ensures rows == VisibleRows(habits, days, dkey, filterTag)
    {
      var done := TodayDoneIds(dkey);
      var sorted := SortById(habits);
      rows := [];
      var k := 0;
      while k < |sorted|
        invariant 0 <= k <= |sorted|
        invariant rows == RowsOf(sorted[..k], done, filterTag)
      {
        var h := sorted[k];
        RowsOfSnoc(sorted, k, done, filterTag);
        if IsActive(h) && !(filterTag.Some? && filterTag.value != [] && filterTag.value !in h.tags) {
          rows := rows + [Row(h.id in done, h.id, KindOf(h), h.title, h.tags)];
        }
        k := k + 1;
      }
      assert sorted[..k] == sorted;
    }

    /** action_show_report: group the day's entries by id, then the lines
        of the sorted habits after the header. */
    method ShowReport(dkey: string) returns (lines: seq<ReportLine>)
      ensures lines == Report(habits, days, dkey)
    {
      var arr := DayList(days, dkey);
      var byId := GroupEntries(arr);
      lines := ReportLoop(dkey, SortById(habits), byId);
      ReportBodyDepends(SortById(habits), byId, GroupById(arr));
    }

    /** action_toggle_check for the selected id: nothing without such a
        habit; otherwise the day's list is created if missing, and a check
        habit's first true entry is removed or a true entry appended, while
        a habit of any other type opens the log input. */
    method ToggleCheck(hid: int, dkey: string, ts: string) returns (outcome: ToggleOutcome)
      modifies this`days
      ensures HabitIndex(habits, hid).None? ==> outcome == NoHabit && days == old(days)
      ensures HabitIndex(habits, hid).Some? && IsCheckHabit(habits[HabitIndex(habits, hid).value]) ==>
        outcome == Toggled && days == ToggleAt(old(days), dkey, hid, ts)
      ensures HabitIndex(habits, hid).Some? && !IsCheckHabit(habits[HabitIndex(habits, hid).value]) ==>
        outcome == AskForLog(habits[HabitIndex(habits, hid).value])
        && days == old(days)[dkey := DayList(old(days), dkey)]
      ensures old(Valid()) ==> Valid()
    {
      var found := FindHabit(hid);
      if found.None? {
        return NoHabit;
      }
      var habit := habits[found.value];
      ghost var before := days;
      var arr := DayList(days, dkey);
      if KindOf(habit) == "check" {
        // setdefault, then arr.remove or arr.append on the day's list
        var toggled := ToggleList(arr, hid, ts);
        days := days[dkey := toggled];
        if Consistent(habits, before) {
          ToggleKeepsValid(habits, before, dkey, hid, ts, found.value);
        }
        return Toggled;
      }
      days := days[dkey := arr];
      if Consistent(habits, before) {
        OpenDayKeepsValid(habits, before, dkey);
      }
      return AskForLog(habit);
    }

    /** The add form's save: the normalised record with the next id and
        active true is appended; nothing else changes. AddKeepsValid shows
        the new list keeps the consistency. */
    method AddHabit(titleText: string, tagsText: string, typeText: string) returns (id: int)
      modifies this`habits
      ensures id == NextId(old(habits))
      ensures habits == old(habits) + [NewHabit(id, titleText, tagsText, typeText)]
    {
      var title := Strip(titleText);
      var tags := ParseTags(tagsText);
      var typ := if Strip(typeText) != [] then Strip(typeText) else "check";
      id := NextId(habits);
      habits := habits + [Habit(id, title, tags, Some(typ), Some(true))];
      assert typ == NormalizeType(typeText);
    }

    /** The edit form's save on the selected habit: title, tags and type of
        the first record with that id are replaced in place; its id and
        active flag, the other records and all entries stay. EditKeepsValid
        shows the consistency is kept. */
    method EditHabit(hid: int, titleText: string, tagsText: string, typeText: string) returns (found: bool)
      modifies this`habits
      ensures found <==> HabitIndex(old(habits), hid).Some?
      ensures !found ==> habits == old(habits)
      ensures found ==> var i := HabitIndex(old(habits), hid).value;
        habits == old(habits)[i := EditedHabit(old(habits)[i], titleText, tagsText, typeText)]
    {
      var i := FindHabit(hid);
      if i.None? {
        return false;
      }
      var h := habits[i.value];
      var typ := if Strip(typeText) != [] then Strip(typeText) else "check";
      habits := habits[i.value := h.(title := Strip(titleText), tags := ParseTags(tagsText), kind := Some(typ))];
      assert typ == NormalizeType(typeText);
      return true;
    }

    /** The log input's save for a habit: a non-blank text is appended
        stripped to the day's list with the time stamp. */
    method SaveLog(hid: int, dkey: string, ts: string, text: string)
      modifies this`days
      ensures days == AppendLog(old(days), dkey, hid, ts, text)
      ensures old(Valid()) && HasId(habits, hid) ==> Valid()
    {
      ghost var before := days;
      var txt := Strip(text);
      if txt != [] {
        var e := Entry(hid, ts, Log(txt));
        days := days[dkey := DayList(days, dkey) + [e]];
        if Consistent(habits, before) && HasId(habits, hid) {
          AppendLogEntryKeepsValid(habits, before, dkey, e);
        }
      }
    }

    /** action_delete_habit: the habit list without hid, then every day's
        list without hid's entries, one day at a time. */
    method DeleteHabit(hid: int)
      modifies this`habits, this`days
      ensures habits == WithoutHabit(old(habits), hid)
      ensures days == PurgeDays(old(days), hid)
      ensures old(Valid()) ==> Valid()
    {
      habits := WithoutHabit(habits, hid);
      var todo := days.Keys;
      while todo != {}
        invariant todo <= old(days).Keys && days.Keys == old(days).Keys
        invariant forall d :: d in days ==> days[d] == if d in todo then old(days)[d] else EntriesNotOf(old(days)[d], hid)
        invariant habits == WithoutHabit(old(habits), hid)
        decreases todo
      {
        var d :| d in todo;
        days := days[d := EntriesNotOf(days[d], hid)];
        todo := todo - {d};
      }
      assert days == PurgeDays(old(days), hid);
      if old(Valid()) {
        DeleteKeepsValid(old(habits), old(days), hid);
      }
    }

    /** action_toggle_filter: none to the first theme, a theme to the next
        (the last back to the first), a tag outside the list to none. */
    method ToggleFilter()
      modifies this`filterTag
      ensures filterTag == NextFilter(old(filterTag))
    {
      filterTag := StepFilter(Themes, filterTag);
    }
  }
}
