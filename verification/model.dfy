/** The two documents of habit100.py: the habit list and the entries by day,
    with the Store's id allocation and the sort by id the views share. */
module Model {

  datatype Option<T> = None | Some(value: T)

  /** The value stored under "val". The program tells entry kinds apart by the
      value's type: literal true marks a check, a string is a log text, and
      anything else (false, a number, null, a missing key) is ignored. */
  datatype Val = CheckTrue | Log(text: string) | Other

  /** One record of a day's list: {id, ts, val}. */
  datatype Entry = Entry(id: int, ts: string, val: Val)

  /** One record of the habit list: {id, title, tags, type, active}. The
      "type" and "active" keys may be missing from a loaded document; the
      program then reads "check" and true. Missing or null tags read as []. */
  datatype Habit = Habit(id: int, title: string, tags: seq<string>, kind: Option<string>, active: Option<bool>)

  /** Concatenation is associative; the filters' append lemmas use it. */
  lemma Assoc<T>(x: seq<T>, y: seq<T>, z: seq<T>)
    ensures x + (y + z) == (x + y) + z
  {
  }

  /** The entries document: day key ("YYYY-MM-DD") to that day's ordered list. */
  type Days = map<string, seq<Entry>>

  /** The fixed theme list that drives the filter control. */
  const Themes: seq<string> := ["수면·환경", "몸·에너지", "정신·태도", "사회·관계", "재정·소비", "창의·학습", "정체성·자기표현"]

  /** h.get("type", "check") */
  function KindOf(h: Habit): string
  {
    match h.kind
    case None => "check"
    case Some(k) => k
  }

  /** Only the exact string "check" selects the check path; every other type
      string takes the log path. */
  predicate IsCheckHabit(h: Habit)
  {
    KindOf(h) == "check"
  }

  /** h.get("active", True): only an explicit false hides a habit. */
  predicate IsActive(h: Habit)
  {
    h.active != Some(false)
  }

  /** days.get(dkey, []) */
  function DayList(days: Days, dkey: string): seq<Entry>
  {
    if dkey in days then days[dkey] else []
  }

  predicate UniqueIds(hs: seq<Habit>)
  {
    forall i, j :: 0 <= i < j < |hs| ==> hs[i].id != hs[j].id
  }

  predicate HasId(hs: seq<Habit>, hid: int)
  {
    exists k :: 0 <= k < |hs| && hs[k].id == hid
  }

  /** max of the ids of a non-empty habit list. */
  function MaxId(hs: seq<Habit>): (m: int)
    requires hs != []
    ensures forall k :: 0 <= k < |hs| ==> hs[k].id <= m
    ensures HasId(hs, m)
  {
    if |hs| == 1 then hs[0].id
    else
      var m := MaxId(hs[1..]);
      assert forall k :: 1 <= k < |hs| ==> hs[k] == hs[1..][k - 1];
      if hs[0].id > m then hs[0].id else m
  }

  /** Store.next_id: 1 for an empty list, otherwise the largest id plus one,
      so it is above every id in use. */
  function NextId(hs: seq<Habit>): (r: int)
    ensures hs == [] ==> r == 1
    ensures hs != [] ==> HasId(hs, r - 1)
    ensures forall k :: 0 <= k < |hs| ==> hs[k].id < r
  {
    if hs == [] then 1 else MaxId(hs) + 1
  }

  /** A fresh id: no habit in the list has it. */
  lemma NextIdIsFresh(hs: seq<Habit>)
    ensures !HasId(hs, NextId(hs))
  {
  }

  /** Ids 1 and 3 in use: the next id is 4. */
  lemma NextIdExample(a: Habit, b: Habit)
    requires a.id == 1 && b.id == 3
    ensures NextId([a, b]) == 4
  {
    assert [a, b][1..] == [b];
  }

  /** Appending a habit whose id is NextId keeps the ids unique. */
  lemma AppendNextIdKeepsUnique(hs: seq<Habit>, h: Habit)
    requires UniqueIds(hs)
    requires h.id == NextId(hs)
    ensures UniqueIds(hs + [h])
  {
    var hs' := hs + [h];
    forall i, j | 0 <= i < j < |hs'| ensures hs'[i].id != hs'[j].id {
      if j == |hs| {
        assert hs'[i] == hs[i];
      } else {
        assert hs'[i] == hs[i] && hs'[j] == hs[j];
      }
    }
  }

  /** The index the generator next(x for x in habits if x["id"] == hid)
      stops at: the first habit with that id, or None. */
  function HabitIndex(hs: seq<Habit>, hid: int): (r: Option<nat>)
    ensures r.None? <==> !HasId(hs, hid)
    ensures r.Some? ==> r.value < |hs| && hs[r.value].id == hid
    ensures r.Some? ==> forall k :: 0 <= k < r.value ==> hs[k].id != hid
  {
    if hs == [] then None
    else if hs[0].id == hid then Some(0)
    else
      match HabitIndex(hs[1..], hid)
      case None =>
        assert forall k :: 1 <= k < |hs| ==> hs[k] == hs[1..][k - 1];
        None
      case Some(i) =>
        assert hs[1..][i] == hs[i + 1];
        Some(i + 1)
  }

  predicate SortedById(hs: seq<Habit>)
  {
    forall i, j :: 0 <= i < j < |hs| ==> hs[i].id <= hs[j].id
  }

  /** The habits of hs that carry the id k, in their order in hs. */
  function WithIdK(hs: seq<Habit>, k: int): seq<Habit>
  {
    if hs == [] then []
    else (if hs[0].id == k then [hs[0]] else []) + WithIdK(hs[1..], k)
  }

  /** Puts h in front of the first element whose id is not smaller. */
  function Insert(h: Habit, t: seq<Habit>): (r: seq<Habit>)
    ensures multiset(r) == multiset(t) + multiset{h}
  {
    if t == [] || h.id <= t[0].id then [h] + t
    else
      assert t == [t[0]] + t[1..];
      [t[0]] + Insert(h, t[1..])
  }

  lemma {:induction false} InsertSorted(h: Habit, t: seq<Habit>)
    requires SortedById(t)
    ensures SortedById(Insert(h, t))
  {
    if t == [] || h.id <= t[0].id {
      ConsSorted(h, t);
    } else {
      var rest := Insert(h, t[1..]);
      SortedTail(t);
      InsertSorted(h, t[1..]);
      forall k | 0 <= k < |rest| ensures t[0].id <= rest[k].id {
        var x := rest[k];
        assert x in multiset(rest);
        if x != h {
          assert x in multiset(t[1..]);
          var m :| 0 <= m < |t| - 1 && t[1..][m] == x;
          assert t[m + 1] == x;
        }
      }
      ConsSorted(t[0], rest);
    }
  }

  /** A habit whose id is at most every id of a sorted list may go in front. */
  lemma ConsSorted(a: Habit, rest: seq<Habit>)
    requires SortedById(rest)
    requires forall k :: 0 <= k < |rest| ==> a.id <= rest[k].id
    ensures SortedById([a] + rest)
  {
    var r := [a] + rest;
    forall i, j | 0 <= i < j < |r| ensures r[i].id <= r[j].id {
      assert r[j] == rest[j - 1];
      if i > 0 {
        assert r[i] == rest[i - 1];
      }
    }
  }

  lemma SortedTail(t: seq<Habit>)
    requires t != [] && SortedById(t)
    ensures SortedById(t[1..])
  {
    forall i, j | 0 <= i < j < |t| - 1 ensures t[1..][i].id <= t[1..][j].id {
      assert t[1..][i] == t[i + 1] && t[1..][j] == t[j + 1];
    }
  }

  /** sorted(habits, key=lambda x: x["id"]): Python's sort is stable, so
      habits with equal ids keep their list order. */
  function SortById(hs: seq<Habit>): (r: seq<Habit>)
    ensures multiset(r) == multiset(hs)
    ensures SortedById(r)
  {
    if hs == [] then []
    else
      assert hs == [hs[0]] + hs[1..];
      InsertSorted(hs[0], SortById(hs[1..]));
      Insert(hs[0], SortById(hs[1..]))
  }

  lemma SortByIdMembers(hs: seq<Habit>)
    ensures forall x :: x in SortById(hs) <==> x in hs
    ensures |SortById(hs)| == |hs|
  {
    var r := SortById(hs);
    assert multiset(r) == multiset(hs);
    assert |r| == |multiset(r)|;
    forall x ensures x in r <==> x in hs {
      assert x in r <==> x in multiset(r);
    }
  }

  lemma {:induction false} InsertStable(h: Habit, t: seq<Habit>, k: int)
    ensures WithIdK(Insert(h, t), k) == (if h.id == k then [h] else []) + WithIdK(t, k)
  {
    if t == [] || h.id <= t[0].id {
      assert ([h] + t)[1..] == t;
    } else {
      InsertStable(h, t[1..], k);
      var r := [t[0]] + Insert(h, t[1..]);
      assert r[1..] == Insert(h, t[1..]);
    }
  }

  /** Stability: for every id, the habits carrying it come out of the sort in
      the order they had in the list. */
  lemma {:induction false} SortByIdStable(hs: seq<Habit>, k: int)
    ensures WithIdK(SortById(hs), k) == WithIdK(hs, k)
  {
    if hs != [] {
      SortByIdStable(hs[1..], k);
      InsertStable(hs[0], SortById(hs[1..]), k);
    }
  }
}
