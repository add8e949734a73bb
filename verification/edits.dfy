/** The state changes of habit100.py stated as functions of the old state:
    the edit form's normalisation, the check toggle, the log append and the
    cascading delete. The HabitApp class applies them in place. */
module Edits {
  import opened Model
  import opened Text

  // ---------- The edit form ----------

  /** No string of the list holds the character c. */
  predicate FreeOf(parts: seq<string>, c: char)
  {
    forall k :: 0 <= k < |parts| ==> c !in parts[k]
  }

  /** [t.strip() for t in text.split(",") if t.strip()] over the pieces. */
  function NonEmptyStripped(parts: seq<string>): (r: seq<string>)
    ensures forall k :: 0 <= k < |r| ==> r[k] != [] && IsStripped(r[k])
    ensures FreeOf(parts, ',') ==> FreeOf(r, ',')
  {
    if parts == [] then []
    else
      var t := Strip(parts[0]);
      var rest := NonEmptyStripped(parts[1..]);
      StripIsStripped(parts[0]);
      FreeOfSplitOff(parts);
      if t != [] then CleanCons(t, rest); [t] + rest else rest
  }

  lemma CleanCons(t: string, rest: seq<string>)
    requires t != [] && IsStripped(t)
    requires forall k :: 0 <= k < |rest| ==> rest[k] != [] && IsStripped(rest[k])
    ensures forall k :: 0 <= k < |[t] + rest| ==> ([t] + rest)[k] != [] && IsStripped(([t] + rest)[k])
    ensures ',' !in t && FreeOf(rest, ',') ==> FreeOf([t] + rest, ',')
  {
    forall k | 0 <= k < |[t] + rest| ensures ([t] + rest)[k] == if k == 0 then t else rest[k - 1] {
    }
  }

  lemma FreeOfSplitOff(parts: seq<string>)
    requires parts != []
    ensures FreeOf(parts, ',') ==> FreeOf(parts[1..], ',') && ',' !in Strip(parts[0])
  {
    if FreeOf(parts, ',') {
      assert ',' !in parts[0];
      StripIsStripped(parts[0]);
      forall k | 0 <= k < |parts| - 1 ensures ',' !in parts[1..][k] {
        assert parts[1..][k] == parts[k + 1];
      }
    }
  }

  /** The tags field: split on ",", each piece stripped, empty pieces dropped.
      Every tag is non-empty, has no surrounding whitespace and no comma. */
  function ParseTags(text: string): (r: seq<string>)
    ensures forall k :: 0 <= k < |r| ==> r[k] != [] && IsStripped(r[k])
    ensures FreeOf(r, ',')
  {
    NonEmptyStripped(Split(text, ','))
  }

  /** The type field: stripped, "check" when that leaves nothing. */
  function NormalizeType(text: string): (r: string)
    ensures r != [] && IsStripped(r)
    ensures r == "check" || r == Strip(text)
    ensures AllSpace(text) <==> r == "check" && Strip(text) != "check"
  {
    StripEmptyIff(text);
    StripIsStripped(text);
    if Strip(text) == [] then "check" else Strip(text)
  }

  /** The record the add form appends. An empty title is not rejected. */
  function NewHabit(id: int, titleText: string, tagsText: string, typeText: string): Habit
  {
    Habit(id, Strip(titleText), ParseTags(tagsText), Some(NormalizeType(typeText)), Some(true))
  }

  /** habit.update({"title", "tags", "type"}): id and active are kept. */
  function EditedHabit(h: Habit, titleText: string, tagsText: string, typeText: string): Habit
  {
    h.(title := Strip(titleText), tags := ParseTags(tagsText), kind := Some(NormalizeType(typeText)))
  }

  /** Text without a separator splits to itself. */
  lemma {:induction false} SplitNoSep(p: string, sep: char)
    requires sep !in p
    ensures Split(p, sep) == [p]
    decreases |p|
  {
    if p != [] {
      assert p[0] in p;
      assert forall c :: c in p[1..] ==> c in p;
      SplitNoSep(p[1..], sep);
    }
  }

  /** A separator ends the first piece. */
  lemma {:induction false} SplitAtSep(p: string, sep: char, rest: string)
    requires sep !in p
    ensures Split(p + [sep] + rest, sep) == [p] + Split(rest, sep)
    decreases |p|
  {
    var s := p + [sep] + rest;
    if p == [] {
      assert s[0] == sep && s[1..] == rest;
    } else {
      assert p[0] in p;
      assert forall c :: c in p[1..] ==> c in p;
      assert s[0] == p[0] && s[1..] == p[1..] + [sep] + rest;
      SplitAtSep(p[1..], sep, rest);
      var r' := Split(s[1..], sep);
      assert r' == [p[1..]] + Split(rest, sep);
      assert [s[0]] + r'[0] == p;
      assert r'[1..] == Split(rest, sep);
    }
  }

  /** Splitting undoes joining when no part holds the separator. */
  lemma {:induction false} SplitJoin(parts: seq<string>, sep: char)
    requires parts != []
    requires FreeOf(parts, sep)
    ensures Split(Join(parts, sep), sep) == parts
  {
    if |parts| == 1 {
      SplitNoSep(parts[0], sep);
    } else {
      assert forall k :: 0 <= k < |parts| - 1 ==> parts[1..][k] == parts[k + 1];
      SplitJoin(parts[1..], sep);
      SplitAtSep(parts[0], sep, Join(parts[1..], sep));
      assert parts == [parts[0]] + parts[1..];
    }
  }

  /** Splitting on a separator splits each side of it on its own. */
  lemma {:induction false} SplitAppend(a: string, b: string, sep: char)
    ensures Split(a + [sep] + b, sep) == Split(a, sep) + Split(b, sep)
    decreases |a|
  {
    var s := a + [sep] + b;
    if a == [] {
      assert s[0] == sep && s[1..] == b;
    } else {
      assert s[0] == a[0] && s[1..] == a[1..] + [sep] + b;
      SplitAppend(a[1..], b, sep);
      var pa := Split(a[1..], sep);
      var r' := Split(s[1..], sep);
      assert r' == pa + Split(b, sep);
      if a[0] == sep {
        Assoc([[]], pa, Split(b, sep));
      } else {
        assert r'[0] == pa[0];
        assert r'[1..] == pa[1..] + Split(b, sep);
        Assoc([[a[0]] + pa[0]], pa[1..], Split(b, sep));
      }
    }
  }

  /** The pieces are taken in order: each piece contributes its stripped
      text, or nothing when that is empty. */
  lemma {:induction false} NonEmptyStrippedAppend(x: seq<string>, y: seq<string>)
    ensures NonEmptyStripped(x + y) == NonEmptyStripped(x) + NonEmptyStripped(y)
  {
    if x == [] {
      assert x + y == y;
    } else {
      var xy := x + y;
      assert xy[0] == x[0] && xy[1..] == x[1..] + y;
      NonEmptyStrippedAppend(x[1..], y);
      if Strip(x[0]) != [] {
        Assoc([Strip(x[0])], NonEmptyStripped(x[1..]), NonEmptyStripped(y));
      }
    }
  }

  /** A single piece gives its stripped text, unless that is empty. */
  lemma NonEmptyStrippedPiece(p: string)
    ensures NonEmptyStripped([p]) == if Strip(p) != [] then [Strip(p)] else []
  {
    assert [p][1..] == [];
  }

  /** No piece with text left after stripping is dropped. */
  lemma {:induction false} NonEmptyStrippedKeeps(parts: seq<string>, p: string)
    requires p in parts && Strip(p) != []
    ensures Strip(p) in NonEmptyStripped(parts)
  {
    if p == parts[0] {
      assert NonEmptyStripped(parts) == [Strip(p)] + NonEmptyStripped(parts[1..]);
    } else {
      assert p in parts[1..];
      NonEmptyStrippedKeeps(parts[1..], p);
    }
  }

  /** Every tag kept is the stripped text of one of the pieces. */
  lemma {:induction false} NonEmptyStrippedFrom(parts: seq<string>, t: string)
    requires t in NonEmptyStripped(parts)
    ensures t != [] && exists p :: p in parts && Strip(p) == t
  {
    var k :| 0 <= k < |NonEmptyStripped(parts)| && NonEmptyStripped(parts)[k] == t;
    if Strip(parts[0]) != [] && t == Strip(parts[0]) {
      assert parts[0] in parts;
    } else {
      assert t in NonEmptyStripped(parts[1..]);
      NonEmptyStrippedFrom(parts[1..], t);
      var p :| p in parts[1..] && Strip(p) == t;
      assert p in parts;
    }
  }

  /** A tag is in the parsed list exactly when it is the non-empty stripped
      text of one of the comma-separated pieces. */
  lemma ParseTagsMembers(text: string, t: string)
    ensures t in ParseTags(text) <==> t != [] && exists p :: p in Split(text, ',') && Strip(p) == t
  {
    if t in ParseTags(text) {
      NonEmptyStrippedFrom(Split(text, ','), t);
    }
    if t != [] && exists p :: p in Split(text, ',') && Strip(p) == t {
      var p :| p in Split(text, ',') && Strip(p) == t;
      NonEmptyStrippedKeeps(Split(text, ','), p);
    }
  }

  /** The tags on each side of a comma are parsed on their own, in order. */
  lemma ParseTagsAppend(a: string, b: string)
    ensures ParseTags(a + [','] + b) == ParseTags(a) + ParseTags(b)
  {
    SplitAppend(a, b, ',');
    NonEmptyStrippedAppend(Split(a, ','), Split(b, ','));
  }

  /** Text without a comma is one tag, its stripped self, or none. */
  lemma ParseTagsPiece(p: string)
    requires ',' !in p
    ensures ParseTags(p) == if Strip(p) != [] then [Strip(p)] else []
  {
    SplitNoSep(p, ',');
    NonEmptyStrippedPiece(p);
  }

  /** Tags that are already clean pass through unchanged. */
  lemma NonEmptyStrippedCons(tags: seq<string>)
    requires tags != [] && tags[0] != [] && IsStripped(tags[0])
    ensures NonEmptyStripped(tags) == [tags[0]] + NonEmptyStripped(tags[1..])
  {
    StripStripped(tags[0]);
  }

  /** Tags as the form produces them: non-empty and stripped. */
  predicate CleanTags(tags: seq<string>)
  {
    forall k :: 0 <= k < |tags| ==> tags[k] != [] && IsStripped(tags[k])
  }

  lemma CleanTail(tags: seq<string>)
    requires tags != [] && CleanTags(tags)
    ensures tags[0] != [] && IsStripped(tags[0]) && CleanTags(tags[1..])
  {
    assert forall k :: 0 <= k < |tags| - 1 ==> tags[1..][k] == tags[k + 1];
  }

  /** Pieces that are non-empty and already stripped pass through unchanged. */
  lemma {:induction false} NonEmptyStrippedClean(tags: seq<string>)
    requires CleanTags(tags)
    ensures NonEmptyStripped(tags) == tags
  {
    if tags != [] {
      CleanTail(tags);
      NonEmptyStrippedClean(tags[1..]);
      NonEmptyStrippedCons(tags);
      assert tags == [tags[0]] + tags[1..];
    }
  }

  /** The edit form shows ",".join(tags) (habit100.py:240); saving that text
      gives the same tags back when they are clean. */
  lemma TagsRoundTrip(tags: seq<string>)
    requires CleanTags(tags)
    requires FreeOf(tags, ',')
    ensures ParseTags(Join(tags, ',')) == tags
  {
    if tags == [] {
      assert Split([], ',') == [[]];
      assert Strip([]) == [];
    } else {
      SplitJoin(tags, ',');
      NonEmptyStrippedClean(tags);
    }
  }

  /** Opening the edit form on a habit and saving it untouched changes
      nothing but making a missing "type" explicit, provided its fields are
      already in the form the form produces. */
  lemma EditUntouchedKeepsHabit(h: Habit)
    requires IsStripped(h.title)
    requires CleanTags(h.tags)
    requires FreeOf(h.tags, ',')
    requires KindOf(h) != [] && IsStripped(KindOf(h))
    ensures EditedHabit(h, h.title, Join(h.tags, ','), KindOf(h)) == h.(kind := Some(KindOf(h)))
  {
    TagsRoundTrip(h.tags);
    StripStripped(h.title);
    StripStripped(KindOf(h));
  }

  // ---------- Entries of one day ----------

  predicate IsCheckOf(e: Entry, hid: int)
  {
    e.id == hid && e.val == CheckTrue
  }

  /** The index next(r for r in arr if r["id"] == hid and r.get("val") is True)
      stops at. */
  function FirstCheck(l: seq<Entry>, hid: int): (r: Option<nat>)
    ensures r.None? <==> (forall k :: 0 <= k < |l| ==> !IsCheckOf(l[k], hid))
    ensures r.Some? ==> r.value < |l| && IsCheckOf(l[r.value], hid)
    ensures r.Some? ==> forall k :: 0 <= k < r.value ==> !IsCheckOf(l[k], hid)
  {
    if l == [] then None
    else if IsCheckOf(l[0], hid) then Some(0)
    else
      match FirstCheck(l[1..], hid)
      case None =>
        assert forall k :: 1 <= k < |l| ==> l[k] == l[1..][k - 1];
        None
      case Some(i) =>
        assert l[1..][i] == l[i + 1];
        Some(i + 1)
  }

  /** The check toggle on one day's list: remove the first true entry of hid,
      or append {hid, ts, true} when there is none. */
  function ToggleDay(l: seq<Entry>, hid: int, ts: string): seq<Entry>
  {
    match FirstCheck(l, hid)
    case Some(i) => l[..i] + l[i + 1..]
    case None => l + [Entry(hid, ts, CheckTrue)]
  }

  /** How many true entries hid has in the list. */
  function CountChecks(l: seq<Entry>, hid: int): nat
  {
    if l == [] then 0 else (if IsCheckOf(l[0], hid) then 1 else 0) + CountChecks(l[1..], hid)
  }

  /** The entries of l with id hid, in their order in l. */
  function EntriesOf(l: seq<Entry>, hid: int): seq<Entry>
  {
    if l == [] then [] else (if l[0].id == hid then [l[0]] else []) + EntriesOf(l[1..], hid)
  }

  /** The entries of l with an id other than hid, in their order in l. */
  function EntriesNotOf(l: seq<Entry>, hid: int): seq<Entry>
  {
    if l == [] then [] else (if l[0].id != hid then [l[0]] else []) + EntriesNotOf(l[1..], hid)
  }

  lemma {:induction false} CountChecksAppend(a: seq<Entry>, b: seq<Entry>, hid: int)
    ensures CountChecks(a + b, hid) == CountChecks(a, hid) + CountChecks(b, hid)
  {
    if a == [] {
      assert a + b == b;
    } else {
      assert (a + b)[0] == a[0] && (a + b)[1..] == a[1..] + b;
      CountChecksAppend(a[1..], b, hid);
      assert CountChecks(a + b, hid) == (if IsCheckOf(a[0], hid) then 1 else 0) + CountChecks(a[1..] + b, hid);
    }
  }

  lemma {:induction false} EntriesOfAppend(a: seq<Entry>, b: seq<Entry>, hid: int)
    ensures EntriesOf(a + b, hid) == EntriesOf(a, hid) + EntriesOf(b, hid)
  {
    if a == [] {
      assert a + b == b;
    } else {
      assert (a + b)[0] == a[0] && (a + b)[1..] == a[1..] + b;
      EntriesOfAppend(a[1..], b, hid);
      var head := if (a[0].id == hid) then [a[0]] else [];
      assert EntriesOf(a + b, hid) == head + EntriesOf(a[1..] + b, hid);
      assert EntriesOf(a, hid) == head + EntriesOf(a[1..], hid);
      Assoc(head, EntriesOf(a[1..], hid), EntriesOf(b, hid));
    }
  }

  lemma EntriesOfSingle(r: Entry, id: int)
    ensures EntriesOf([r], id) == if r.id == id then [r] else []
  {
    assert [r][1..] == [];
  }

  lemma {:induction false} EntriesNotOfAppend(a: seq<Entry>, b: seq<Entry>, hid: int)
    ensures EntriesNotOf(a + b, hid) == EntriesNotOf(a, hid) + EntriesNotOf(b, hid)
  {
    if a == [] {
      assert a + b == b;
    } else {
      assert (a + b)[0] == a[0] && (a + b)[1..] == a[1..] + b;
      EntriesNotOfAppend(a[1..], b, hid);
      var head := if (a[0].id != hid) then [a[0]] else [];
      assert EntriesNotOf(a + b, hid) == head + EntriesNotOf(a[1..] + b, hid);
      assert EntriesNotOf(a, hid) == head + EntriesNotOf(a[1..], hid);
      Assoc(head, EntriesNotOf(a[1..], hid), EntriesNotOf(b, hid));
    }
  }

  /** One toggle removes one true entry of hid when there is one and adds one
      when there is none; so with at most one such entry (the state the toggle
      keeps) it flips the day's completion. */
  lemma ToggleDayCount(l: seq<Entry>, hid: int, ts: string)
    ensures CountChecks(ToggleDay(l, hid, ts), hid) ==
      if CountChecks(l, hid) > 0 then CountChecks(l, hid) - 1 else 1
  {
    var f := FirstCheck(l, hid);
    match f
    case Some(i) =>
      assert l == l[..i] + [l[i]] + l[i + 1..];
      CountChecksAppend(l[..i] + [l[i]], l[i + 1..], hid);
      CountChecksAppend(l[..i], [l[i]], hid);
      CountChecksAppend(l[..i], l[i + 1..], hid);
      CountChecksNone(l[..i], hid);
    case None =>
      CountChecksNone(l, hid);
      CountChecksAppend(l, [Entry(hid, ts, CheckTrue)], hid);
  }

  lemma {:induction false} CountChecksNone(l: seq<Entry>, hid: int)
    requires forall k :: 0 <= k < |l| ==> !IsCheckOf(l[k], hid)
    ensures CountChecks(l, hid) == 0
  {
    if l != [] {
      assert forall k :: 0 <= k < |l| - 1 ==> l[1..][k] == l[k + 1];
      CountChecksNone(l[1..], hid);
    }
  }

  lemma {:induction false} CountChecksSome(l: seq<Entry>, hid: int, k: nat)
    requires k < |l| && IsCheckOf(l[k], hid)
    ensures CountChecks(l, hid) > 0
  {
    if k > 0 {
      assert l[1..][k - 1] == l[k];
      CountChecksSome(l[1..], hid, k - 1);
    }
  }

  /** Starting with no true entry for hid, two toggles give the list back. */
  lemma ToggleTwiceRestores(l: seq<Entry>, hid: int, ts: string, ts': string)
    requires forall k :: 0 <= k < |l| ==> !IsCheckOf(l[k], hid)
    ensures ToggleDay(ToggleDay(l, hid, ts), hid, ts') == l
  {
    var l1 := l + [Entry(hid, ts, CheckTrue)];
    assert ToggleDay(l, hid, ts) == l1;
    assert IsCheckOf(l1[|l|], hid);
    assert forall k :: 0 <= k < |l| ==> l1[k] == l[k];
    assert FirstCheck(l1, hid) == Some(|l|);
    assert l1[..|l|] == l;
  }

  /** The toggle leaves the entries of every other habit as they were, in
      order, and the removed or added entry is one of hid's true entries. */
  lemma ToggleDayOthers(l: seq<Entry>, hid: int, ts: string, other: int)
    requires other != hid
    ensures EntriesOf(ToggleDay(l, hid, ts), other) == EntriesOf(l, other)
  {
    match FirstCheck(l, hid)
    case Some(i) =>
      var a, x, b := l[..i], [l[i]], l[i + 1..];
      assert l == (a + x) + b;
      EntriesOfAppend(a + x, b, other);
      EntriesOfAppend(a, x, other);
      EntriesOfAppend(a, b, other);
      assert x[1..] == [];
      assert EntriesOf(x, other) == [];
      assert EntriesOf(a + x, other) == EntriesOf(a, other);
    case None =>
      var x := [Entry(hid, ts, CheckTrue)];
      EntriesOfAppend(l, x, other);
      assert x[1..] == [];
      assert EntriesOf(x, other) == [];
  }

  /** The toggle removes exactly one entry — the first true entry of hid — or
      appends exactly {hid, ts, true}. */
  lemma ToggleDayShape(l: seq<Entry>, hid: int, ts: string)
    ensures var r := ToggleDay(l, hid, ts);
      (CountChecks(l, hid) == 0 && r == l + [Entry(hid, ts, CheckTrue)])
      || (exists i :: 0 <= i < |l| && IsCheckOf(l[i], hid)
            && (forall k :: 0 <= k < i ==> !IsCheckOf(l[k], hid))
            && r == l[..i] + l[i + 1..])
  {
    match FirstCheck(l, hid)
    case Some(i) =>
    case None =>
      CountChecksNone(l, hid);
  }

  // ---------- The day map ----------

  /** The day map after a toggle of a check habit: setdefault(dkey, []) and
      the toggle on that list. */
  function ToggleAt(days: Days, dkey: string, hid: int, ts: string): (r: Days)
    ensures r.Keys == days.Keys + {dkey}
    ensures forall d :: d in days && d != dkey ==> r[d] == days[d]
  {
    days[dkey := ToggleDay(DayList(days, dkey), hid, ts)]
  }

  /** The day map after saving a log text: nothing when the stripped text is
      empty, otherwise {hid, ts, text} appended to the day's list. */
  function AppendLog(days: Days, dkey: string, hid: int, ts: string, text: string): Days
  {
    if Strip(text) == [] then days
    else days[dkey := DayList(days, dkey) + [Entry(hid, ts, Log(Strip(text)))]]
  }

  /** Logs are append-only: the old list is a prefix of the new, which is one
      longer and ends in the log entry; other days are untouched. */
  lemma AppendLogExtends(days: Days, dkey: string, hid: int, ts: string, text: string)
    requires !AllSpace(text)
    ensures var r := AppendLog(days, dkey, hid, ts, text);
      && r.Keys == days.Keys + {dkey}
      && |r[dkey]| == |DayList(days, dkey)| + 1
      && r[dkey][..|DayList(days, dkey)|] == DayList(days, dkey)
      && r[dkey][|DayList(days, dkey)|] == Entry(hid, ts, Log(Strip(text)))
      && Strip(text) != []
      && forall d :: d in days && d != dkey ==> r[d] == days[d]
  {
    StripEmptyIff(text);
  }

  /** An all-whitespace text changes nothing. */
  lemma AppendLogBlank(days: Days, dkey: string, hid: int, ts: string, text: string)
    requires AllSpace(text)
    ensures AppendLog(days, dkey, hid, ts, text) == days
  {
    StripEmptyIff(text);
  }

  /** A log entry never changes how many true entries any habit has. */
  lemma AppendLogKeepsChecks(days: Days, dkey: string, hid: int, ts: string, text: string, other: int)
    ensures CountChecks(DayList(AppendLog(days, dkey, hid, ts, text), dkey), other) == CountChecks(DayList(days, dkey), other)
  {
    if Strip(text) != [] {
      CountChecksAppend(DayList(days, dkey), [Entry(hid, ts, Log(Strip(text)))], other);
    }
  }

  /** A log of hid adds nothing to the entries of another habit. */
  lemma AppendLogOthers(days: Days, dkey: string, hid: int, ts: string, text: string, other: int)
    requires other != hid
    ensures EntriesOf(DayList(AppendLog(days, dkey, hid, ts, text), dkey), other) == EntriesOf(DayList(days, dkey), other)
  {
    if Strip(text) != [] {
      var e := Entry(hid, ts, Log(Strip(text)));
      EntriesOfAppend(DayList(days, dkey), [e], other);
      assert [e][1..] == [];
    }
  }

  // ---------- The cascading delete ----------

  /** [x for x in habits if x["id"] != hid] */
  function WithoutHabit(hs: seq<Habit>, hid: int): (r: seq<Habit>)
    ensures forall x :: x in r <==> x in hs && x.id != hid
    ensures !HasId(r, hid)
  {
    if hs == [] then []
    else (if hs[0].id != hid then [hs[0]] else []) + WithoutHabit(hs[1..], hid)
  }

  /** Every day's list without the entries of hid; the day keys stay. */
  function PurgeDays(days: Days, hid: int): (r: Days)
    ensures r.Keys == days.Keys
  {
    map d | d in days :: EntriesNotOf(days[d], hid)
  }

  /** a is a subsequence of b: b with some elements dropped, order kept. */
  predicate Subseq<T(==)>(a: seq<T>, b: seq<T>)
  {
    if a == [] then true
    else if b == [] then false
    else (a[0] == b[0] && Subseq(a[1..], b[1..])) || Subseq(a, b[1..])
  }

  lemma {:induction false} WithoutHabitSubseq(hs: seq<Habit>, hid: int)
    ensures Subseq(WithoutHabit(hs, hid), hs)
  {
    if hs != [] {
      WithoutHabitSubseq(hs[1..], hid);
      var r := WithoutHabit(hs, hid);
      if hs[0].id != hid {
        assert r[0] == hs[0] && r[1..] == WithoutHabit(hs[1..], hid);
      } else {
        assert r == WithoutHabit(hs[1..], hid);
      }
    }
  }

  lemma {:induction false} EntriesNotOfSubseq(l: seq<Entry>, hid: int)
    ensures Subseq(EntriesNotOf(l, hid), l)
  {
    if l != [] {
      EntriesNotOfSubseq(l[1..], hid);
      var r := EntriesNotOf(l, hid);
      if l[0].id != hid {
        assert r[0] == l[0] && r[1..] == EntriesNotOf(l[1..], hid);
      } else {
        assert r == EntriesNotOf(l[1..], hid);
      }
    }
  }

  /** After the purge: no entry has id hid, and for every other id the
      entries are exactly the old ones in the old order. */
  lemma {:induction false} EntriesNotOfSpec(l: seq<Entry>, hid: int, other: int)
    ensures EntriesOf(EntriesNotOf(l, hid), hid) == []
    ensures other != hid ==> EntriesOf(EntriesNotOf(l, hid), other) == EntriesOf(l, other)
  {
    if l != [] {
      EntriesNotOfSpec(l[1..], hid, other);
      var head := if l[0].id != hid then [l[0]] else [];
      EntriesOfAppend(head, EntriesNotOf(l[1..], hid), hid);
      EntriesOfAppend(head, EntriesNotOf(l[1..], hid), other);
    }
  }

  /** The cascade on the whole day map: same day keys (lists may become
      empty), no entry of hid left anywhere, every day a subsequence of its
      old list, and every other habit's entries per day unchanged. */
  lemma PurgeDaysSpec(days: Days, hid: int)
    ensures PurgeDays(days, hid).Keys == days.Keys
    ensures forall d, k :: d in days && 0 <= k < |PurgeDays(days, hid)[d]| ==> PurgeDays(days, hid)[d][k].id != hid
    ensures forall d :: d in days ==> Subseq(PurgeDays(days, hid)[d], days[d])
    ensures forall d, other :: d in days && other != hid ==>
      EntriesOf(PurgeDays(days, hid)[d], other) == EntriesOf(days[d], other)
  {
    var r := PurgeDays(days, hid);
    forall d | d in days ensures Subseq(r[d], days[d]) {
      EntriesNotOfSubseq(days[d], hid);
    }
    forall d, other | d in days && other != hid ensures EntriesOf(r[d], other) == EntriesOf(days[d], other) {
      EntriesNotOfSpec(days[d], hid, other);
    }
    forall d, k | d in days && 0 <= k < |r[d]| ensures r[d][k].id != hid {
      EntriesNotOfNoId(days[d], hid, k);
    }
  }

  lemma {:induction false} EntriesNotOfNoId(l: seq<Entry>, hid: int, k: nat)
    requires k < |EntriesNotOf(l, hid)|
    ensures EntriesNotOf(l, hid)[k].id != hid
  {
    var head := if l[0].id != hid then [l[0]] else [];
    if k >= |head| {
      EntriesNotOfNoId(l[1..], hid, k - |head|);
    }
  }

  // ---------- Consistency of the two documents ----------

  /** Every entry on every day belongs to a habit in the list. */
  predicate EntriesKnown(hs: seq<Habit>, days: Days)
  {
    forall d, k :: d in days && 0 <= k < |days[d]| ==> HasId(hs, days[d][k].id)
  }

  /** No habit has two true entries on one day: the state the toggle keeps. */
  ghost predicate ChecksAtMostOnce(days: Days)
  {
    forall d, hid :: d in days ==> CountChecks(days[d], hid) <= 1
  }

  /** The cascade keeps every entry tied to a habit. */
  lemma DeleteKeepsEntriesKnown(hs: seq<Habit>, days: Days, hid: int)
    requires EntriesKnown(hs, days)
    ensures EntriesKnown(WithoutHabit(hs, hid), PurgeDays(days, hid))
  {
    var hs': seq<Habit> := WithoutHabit(hs, hid);
    var days': Days := PurgeDays(days, hid);
    forall d, k | d in days' && 0 <= k < |days'[d]| ensures HasId(hs', days'[d][k].id) {
      assert days'[d] == EntriesNotOf(days[d], hid);
      PurgedEntryKnown(hs, days[d], hid, k);
    }
  }

  /** An entry the purge keeps belongs to a habit the delete keeps. */
  lemma PurgedEntryKnown(hs: seq<Habit>, l: seq<Entry>, hid: int, k: nat)
    requires forall m :: 0 <= m < |l| ==> HasId(hs, l[m].id)
    requires k < |EntriesNotOf(l, hid)|
    ensures HasId(WithoutHabit(hs, hid), EntriesNotOf(l, hid)[k].id)
  {
    var hs' := WithoutHabit(hs, hid);
    var e := EntriesNotOf(l, hid)[k];
    EntriesNotOfNoId(l, hid, k);
    EntriesNotOfMember(l, hid, k);
    var m :| 0 <= m < |l| && l[m] == e;
    var j :| 0 <= j < |hs| && hs[j].id == e.id;
    assert hs[j] in hs';
    var j' :| 0 <= j' < |hs'| && hs'[j'] == hs[j];
  }

  lemma {:induction false} EntriesNotOfMember(l: seq<Entry>, hid: int, k: nat)
    requires k < |EntriesNotOf(l, hid)|
    ensures EntriesNotOf(l, hid)[k] in l
  {
    var head := if l[0].id != hid then [l[0]] else [];
    if k >= |head| {
      EntriesNotOfMember(l[1..], hid, k - |head|);
    }
  }

  /** The habit an add creates has no entry on any day, even when its id is
      one a deleted habit had (next_id may hand out a freed maximum id): the
      cascade already removed that habit's entries. */
  lemma NewHabitHasNoEntries(hs: seq<Habit>, days: Days, d: string, k: nat)
    requires EntriesKnown(hs, days)
    requires d in days && k < |days[d]|
    ensures days[d][k].id != NextId(hs)
  {
  }

  /** The add keeps every entry tied to a habit. */
  lemma AddKeepsEntriesKnown(hs: seq<Habit>, days: Days, h: Habit)
    requires EntriesKnown(hs, days)
    ensures EntriesKnown(hs + [h], days)
  {
    forall d, k | d in days && 0 <= k < |days[d]| ensures HasId(hs + [h], days[d][k].id) {
      var j :| 0 <= j < |hs| && hs[j].id == days[d][k].id;
      assert (hs + [h])[j] == hs[j];
    }
  }

  /** The toggle of a known habit keeps the day lists tied to habits and
      keeps at most one true entry per habit and day. */
  lemma ToggleKeepsInvariants(hs: seq<Habit>, days: Days, dkey: string, hid: int, ts: string)
    requires HasId(hs, hid)
    requires EntriesKnown(hs, days) && ChecksAtMostOnce(days)
    ensures EntriesKnown(hs, ToggleAt(days, dkey, hid, ts))
    ensures ChecksAtMostOnce(ToggleAt(days, dkey, hid, ts))
  {
    var l := DayList(days, dkey);
    var r: Days := ToggleAt(days, dkey, hid, ts);
    assert forall k :: 0 <= k < |l| ==> HasId(hs, l[k].id);
    forall d, k | d in r && 0 <= k < |r[d]| ensures HasId(hs, r[d][k].id) {
      if d == dkey {
        ToggledEntryKnown(hs, l, hid, ts, k);
      }
    }
    forall d, other | d in r ensures CountChecks(r[d], other) <= 1 {
      if d == dkey {
        if other == hid {
          ToggleDayCount(l, hid, ts);
        } else {
          ToggleDayOtherChecks(l, hid, ts, other);
        }
      }
    }
  }

  /** Every entry of the toggled list belongs to a known habit. */
  lemma ToggledEntryKnown(hs: seq<Habit>, l: seq<Entry>, hid: int, ts: string, k: nat)
    requires HasId(hs, hid)
    requires forall m :: 0 <= m < |l| ==> HasId(hs, l[m].id)
    requires k < |ToggleDay(l, hid, ts)|
    ensures HasId(hs, ToggleDay(l, hid, ts)[k].id)
  {
    var t := ToggleDay(l, hid, ts);
    match FirstCheck(l, hid)
    case Some(i) =>
      if k < i {
        assert t[k] == l[k];
      } else {
        assert t[k] == l[k + 1];
      }
    case None =>
      if k < |l| {
        assert t[k] == l[k];
      }
  }


  lemma ToggleDayOtherChecks(l: seq<Entry>, hid: int, ts: string, other: int)
    requires other != hid
    ensures CountChecks(ToggleDay(l, hid, ts), other) == CountChecks(l, other)
  {
    match FirstCheck(l, hid)
    case Some(i) =>
      assert l == l[..i] + [l[i]] + l[i + 1..];
      CountChecksAppend(l[..i] + [l[i]], l[i + 1..], other);
      CountChecksAppend(l[..i], [l[i]], other);
      CountChecksAppend(l[..i], l[i + 1..], other);
    case None =>
      CountChecksAppend(l, [Entry(hid, ts, CheckTrue)], other);
  }
}
