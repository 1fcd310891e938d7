/**
 * One flush of the activity tracker (the body of the loop in `ActivityTracker.save_activity`):
 * every buffered keystroke is written to the keystroke log, the keystrokes are counted per
 * application, one activity row is written per application, all mouse clicks of the interval
 * are credited to the application with the most keystrokes, and the counters are reset.
 * The clock, the foreground-application query and the database are parameters or left out.
 */
module Tracker {
  import opened Strings
  import opened Keystrokes

  /** The tracker's counters and its keystroke buffer. */
  datatype Counters = Counters(keystrokeCount: nat, mouseClicks: nat, buffer: seq<Keystroke>)

  /** A row of the activity log; its own timestamp comes from the clock and is left out. */
  datatype ActivityRow = ActivityRow(hour: int, app: string, keystrokes: nat, clicks: nat)

  /** What one flush writes: keystroke-log rows and activity-log rows. */
  datatype Written = Written(keystrokeRows: seq<Keystroke>, activityRows: seq<ActivityRow>)

  /** The application of every buffered keystroke, in buffer order. */
  function AppsOf(b: seq<Keystroke>): (r: seq<string>)
    ensures |r| == |b|
  {
    if |b| == 0 then [] else AppsOf(b[..|b| - 1]) + [b[|b| - 1].app]
  }

  lemma {:induction false} AppsOfIndex(b: seq<Keystroke>, i: nat)
    requires i < |b|
    ensures AppsOf(b)[i] == b[i].app
    decreases |b|
  {
    if i < |b| - 1 {
      AppsOfIndex(b[..|b| - 1], i);
    }
  }

  /** The keys of `app_keystrokes`: the buffered applications in order of first keystroke. */
  function Apps(b: seq<Keystroke>): (r: seq<string>)
    ensures NoDup(r)
  {
    Distinct(AppsOf(b))
  }

  /** The number of buffered keystrokes made in application `a`. */
  function Count(b: seq<Keystroke>, a: string): (r: nat)
    ensures r <= |b|
  {
    if |b| == 0 then 0
    else Count(b[..|b| - 1], a) + (if b[|b| - 1].app == a then 1 else 0)
  }

  /** An application has keystrokes exactly when it occurs in the buffer. */
  lemma {:induction false} CountPositive(b: seq<Keystroke>, a: string)
    ensures Count(b, a) > 0 <==> a in AppsOf(b)
    decreases |b|
  {
    if |b| > 0 {
      CountPositive(b[..|b| - 1], a);
    }
  }

  /** `max(app_keystrokes, key=app_keystrokes.get)`: the first application, in dict order, whose
      count is maximal. */
  function MainApp(apps: seq<string>, b: seq<Keystroke>): (r: string)
    requires |apps| > 0
    ensures r in apps
    ensures forall a :: a in apps ==> Count(b, a) <= Count(b, r)
  {
    if |apps| == 1 then apps[0]
    else
      var init := apps[..|apps| - 1];
      var best := MainApp(init, b);
      var x := apps[|apps| - 1];
      assert forall a :: a in apps ==> a in init || a == x;
      if Count(b, x) > Count(b, best) then x else best
  }

  /** Ties go to the application seen first: any application whose count equals the chosen
      one's comes at or after it. */
  lemma MainAppFirst(apps: seq<string>, b: seq<Keystroke>)
    requires |apps| > 0
    ensures forall j :: 0 <= j < |apps| && Count(b, apps[j]) == Count(b, MainApp(apps, b)) ==>
              MainApp(apps, b) in apps[..j + 1]
  {
    forall j | 0 <= j < |apps| && Count(b, apps[j]) == Count(b, MainApp(apps, b))
      ensures MainApp(apps, b) in apps[..j + 1]
    {
      MainAppFirstAt(apps, b, j);
    }
  }

  lemma {:induction false} MainAppFirstAt(apps: seq<string>, b: seq<Keystroke>, j: nat)
    requires j < |apps| && Count(b, apps[j]) == Count(b, MainApp(apps, b))
    ensures MainApp(apps, b) in apps[..j + 1]
    decreases |apps|
  {
    if j == |apps| - 1 {
      assert apps[..j + 1] == apps;
    } else {
      var init := apps[..|apps| - 1];
      assert apps[j] == init[j];
      assert apps[..j + 1] == init[..j + 1];
      if Count(b, init[j]) == Count(b, MainApp(init, b)) {
        MainAppFirstAt(init, b, j);
      }
    }
  }

  /** The per-application rows for `apps`, the clicks credited to `main` only. */
  function Rows(apps: seq<string>, b: seq<Keystroke>, main: string, clicks: nat, hour: int): (r: seq<ActivityRow>)
    ensures |r| == |apps|
  {
    if |apps| == 0 then []
    else
      var a := apps[|apps| - 1];
      Rows(apps[..|apps| - 1], b, main, clicks, hour)
        + [ActivityRow(hour, a, Count(b, a), if a == main then clicks else 0)]
  }

  /** The activity rows of one flush: one per buffered application, or, with an empty buffer,
      one click-only row for the foreground application when there were clicks. */
  function ActivityRows(b: seq<Keystroke>, clicks: nat, hour: int, activeApp: string): seq<ActivityRow> {
    var apps := Apps(b);
    if |apps| > 0 then Rows(apps, b, MainApp(apps, b), clicks, hour)
    else if clicks > 0 then [ActivityRow(hour, activeApp, 0, clicks)]
    else []
  }

  /** One iteration of the save loop: the counters afterwards and the rows written. Nothing is
      written and nothing changes when there were neither keystrokes nor clicks. */
  function Flush(c: Counters, hour: int, activeApp: string): (Counters, Written) {
    if c.keystrokeCount > 0 || c.mouseClicks > 0 then
      (Counters(0, 0, []), Written(c.buffer, ActivityRows(c.buffer, c.mouseClicks, hour, activeApp)))
    else (c, Written([], []))
  }

  /** The keystrokes recorded in a list of activity rows. */
  function KeystrokeTotal(rows: seq<ActivityRow>): nat {
    if |rows| == 0 then 0 else KeystrokeTotal(rows[..|rows| - 1]) + rows[|rows| - 1].keystrokes
  }

  /** The clicks recorded in a list of activity rows. */
  function ClickTotal(rows: seq<ActivityRow>): nat {
    if |rows| == 0 then 0 else ClickTotal(rows[..|rows| - 1]) + rows[|rows| - 1].clicks
  }

  // ---------------------------------------------------------------------------------
  // The flush as the source writes it, with loops and a dict.

  /** The first loop of the flush: `app_keystrokes`, as its key order and its values. */
  method CountByApp(b: seq<Keystroke>) returns (order: seq<string>, counts: map<string, nat>)
    ensures order == Apps(b)
    ensures forall a :: a in counts <==> a in order
    ensures forall a :: a in counts ==> counts[a] == Count(b, a)
  {
    order := [];
    counts := map[];
    var i := 0;
    while i < |b|
      invariant 0 <= i <= |b|
      invariant CountedUpTo(b, i, order, counts)
    {
      CountStep(b, i, order, counts);
      var app := b[i].app;
      var previous := if app in counts then counts[app] else 0;
      if app !in counts {
        order := order + [app];
      }
      counts := counts[app := previous + 1];
      i := i + 1;
    }
    assert b[..i] == b;
  }

  /** The dict after the first `i` keystrokes: keys in first-seen order, each with its count. */
  ghost predicate CountedUpTo(b: seq<Keystroke>, i: nat, order: seq<string>, counts: map<string, nat>)
    requires i <= |b|
  {
    && order == Distinct(AppsOf(b[..i]))
    && (forall a :: a in counts <==> a in order)
    && (forall a :: a in counts ==> counts[a] == Count(b[..i], a))
  }

  /** One iteration of the first loop: `app_keystrokes[app] = app_keystrokes.get(app, 0) + 1`. */
  lemma CountStep(b: seq<Keystroke>, i: nat, order: seq<string>, counts: map<string, nat>)
    requires i < |b| && CountedUpTo(b, i, order, counts)
    ensures var app := b[i].app;
            CountedUpTo(b, i + 1, if app in counts then order else order + [app],
                        counts[app := (if app in counts then counts[app] else 0) + 1])
  {
    var app := b[i].app;
    assert b[..i + 1][..i] == b[..i];
    assert AppsOf(b[..i + 1]) == AppsOf(b[..i]) + [app];
    if app !in counts {
      CountPositive(b[..i], app);
    }
  }

  /** The second loop: one keystroke-log row per buffered keystroke. */
  method KeystrokeRows(b: seq<Keystroke>) returns (rows: seq<Keystroke>)
    ensures rows == b
  {
    rows := [];
    var i := 0;
    while i < |b|
      invariant 0 <= i <= |b|
      invariant rows == b[..i]
    {
      assert b[..i + 1] == b[..i] + [b[i]];
      rows := rows + [b[i]];
      i := i + 1;
    }
  }

  /** Python's `max` over the dict: a later key replaces the best only with a strictly larger
      count. */
  method BusiestApp(order: seq<string>, counts: map<string, nat>, b: seq<Keystroke>) returns (main: string)
    requires |order| > 0
    requires forall a :: a in order ==> a in counts && counts[a] == Count(b, a)
    ensures main == MainApp(order, b)
  {
    main := order[0];
    var j := 1;
    while j < |order|
      invariant 1 <= j <= |order|
      invariant main == MainApp(order[..j], b)
    {
      assert order[..j + 1][..j] == order[..j];
      if counts[order[j]] > counts[main] {
        main := order[j];
      }
      j := j + 1;
    }
    assert order[..j] == order;
  }

  /** The third loop: one activity row per application, the clicks to `main` only. */
  method AppRows(order: seq<string>, counts: map<string, nat>, b: seq<Keystroke>, main: string,
                 clicks: nat, hour: int) returns (rows: seq<ActivityRow>)
    requires forall a :: a in order ==> a in counts && counts[a] == Count(b, a)
    ensures rows == Rows(order, b, main, clicks, hour)
  {
    rows := [];
    var j := 0;
    while j < |order|
      invariant 0 <= j <= |order|
      invariant rows == Rows(order[..j], b, main, clicks, hour)
    {
      assert order[..j + 1][..j] == order[..j];
      var app := order[j];
      rows := rows + [ActivityRow(hour, app, counts[app], if app == main then clicks else 0)];
      j := j + 1;
    }
    assert order[..j] == order;
  }

  /** `save_activity`'s loop body: the counters afterwards and the rows it inserts. */
  method SaveActivity(c: Counters, hour: int, activeApp: string) returns (next: Counters, written: Written)
    ensures (next, written) == Flush(c, hour, activeApp)
  {
    if !(c.keystrokeCount > 0 || c.mouseClicks > 0) {
      return c, Written([], []);
    }
    var order, counts := CountByApp(c.buffer);
    var keyRows := KeystrokeRows(c.buffer);
    var main := activeApp;
    if |order| > 0 {
      main := BusiestApp(order, counts, c.buffer);
    }
    var rows := AppRows(order, counts, c.buffer, main, c.mouseClicks, hour);
    if |order| == 0 && c.mouseClicks > 0 {
      rows := rows + [ActivityRow(hour, activeApp, 0, c.mouseClicks)];
    }
    assert rows == ActivityRows(c.buffer, c.mouseClicks, hour, activeApp);
    return Counters(0, 0, []), Written(keyRows, rows);
  }

  // ---------------------------------------------------------------------------------
  // Properties of a flush.

  /** Row `i` is application `i`'s row. */
  lemma {:induction false} RowsShape(apps: seq<string>, b: seq<Keystroke>, main: string, clicks: nat, hour: int, i: nat)
    requires i < |apps|
    ensures Rows(apps, b, main, clicks, hour)[i]
            == ActivityRow(hour, apps[i], Count(b, apps[i]), if apps[i] == main then clicks else 0)
    decreases |apps|
  {
    if i < |apps| - 1 {
      RowsShape(apps[..|apps| - 1], b, main, clicks, hour, i);
    }
  }

  /** The sum of the counts of `apps`. */
  function SumCounts(apps: seq<string>, b: seq<Keystroke>): nat {
    if |apps| == 0 then 0 else SumCounts(apps[..|apps| - 1], b) + Count(b, apps[|apps| - 1])
  }

  lemma {:induction false} RowsKeystrokes(apps: seq<string>, b: seq<Keystroke>, main: string, clicks: nat, hour: int)
    ensures KeystrokeTotal(Rows(apps, b, main, clicks, hour)) == SumCounts(apps, b)
    decreases |apps|
  {
    if |apps| > 0 {
      var r := Rows(apps, b, main, clicks, hour);
      RowsKeystrokes(apps[..|apps| - 1], b, main, clicks, hour);
      assert r[..|r| - 1] == Rows(apps[..|apps| - 1], b, main, clicks, hour);
    }
  }

  lemma {:induction false} RowsClicks(apps: seq<string>, b: seq<Keystroke>, main: string, clicks: nat, hour: int)
    requires NoDup(apps)
    ensures ClickTotal(Rows(apps, b, main, clicks, hour)) == if main in apps then clicks else 0
    decreases |apps|
  {
    if |apps| > 0 {
      var init := apps[..|apps| - 1];
      var r := Rows(apps, b, main, clicks, hour);
      RowsClicks(init, b, main, clicks, hour);
      assert r[..|r| - 1] == Rows(init, b, main, clicks, hour);
      assert main in apps <==> main in init || main == apps[|apps| - 1];
    }
  }

  /** One more keystroke adds one to the count of its application only. */
  lemma {:induction false} SumCountsSnoc(apps: seq<string>, b: seq<Keystroke>, k: Keystroke)
    requires NoDup(apps)
    ensures SumCounts(apps, b + [k]) == SumCounts(apps, b) + (if k.app in apps then 1 else 0)
    decreases |apps|
  {
    assert (b + [k])[..|b|] == b;
    if |apps| > 0 {
      var init := apps[..|apps| - 1];
      SumCountsSnoc(init, b, k);
      assert k.app in apps <==> k.app in init || k.app == apps[|apps| - 1];
    }
  }

  /** The per-application counts add up to the buffer length. */
  lemma {:induction false} CountsSumToBuffer(b: seq<Keystroke>)
    ensures SumCounts(Apps(b), b) == |b|
    decreases |b|
  {
    if |b| > 0 {
      var init := b[..|b| - 1];
      var k := b[|b| - 1];
      assert init + [k] == b;
      CountsSumToBuffer(init);
      var d := Apps(init);
      assert AppsOf(b)[..|init|] == AppsOf(init);
      SumCountsSnoc(d, init, k);
      if k.app !in d {
        var d' := d + [k.app];
        assert d'[..|d|] == d;
        CountPositive(init, k.app);
      }
    }
  }

  /** The activity rows account for every buffered keystroke. */
  lemma KeystrokesConserved(b: seq<Keystroke>, clicks: nat, hour: int, activeApp: string)
    ensures KeystrokeTotal(ActivityRows(b, clicks, hour, activeApp)) == |b|
  {
    var apps := Apps(b);
    if |apps| > 0 {
      RowsKeystrokes(apps, b, MainApp(apps, b), clicks, hour);
      CountsSumToBuffer(b);
    } else {
      CountsSumToBuffer(b);
      var r := [ActivityRow(hour, activeApp, 0, clicks)];
      assert r[..0] == [];
    }
  }

  /** The activity rows account for every click, exactly once. */
  lemma ClicksConserved(b: seq<Keystroke>, clicks: nat, hour: int, activeApp: string)
    ensures ClickTotal(ActivityRows(b, clicks, hour, activeApp)) == clicks
  {
    var apps := Apps(b);
    if |apps| > 0 {
      RowsClicks(apps, b, MainApp(apps, b), clicks, hour);
    } else if clicks > 0 {
      var r := [ActivityRow(hour, activeApp, 0, clicks)];
      assert r[..0] == [];
    }
  }

  /** With keystrokes buffered, there is one row per distinct application, in order of first
      keystroke, each with that application's keystroke count, which is positive. */
  lemma OneRowPerApp(b: seq<Keystroke>, clicks: nat, hour: int, activeApp: string)
    requires |b| > 0
    ensures var rows := ActivityRows(b, clicks, hour, activeApp);
            && |rows| == |Apps(b)|
            && (forall i :: 0 <= i < |rows| ==> rows[i].app == Apps(b)[i])
            && (forall i :: 0 <= i < |rows| ==> rows[i].keystrokes == Count(b, rows[i].app) > 0)
            && (forall a :: a in AppsOf(b) <==> exists i :: 0 <= i < |rows| && rows[i].app == a)
  {
    var apps := Apps(b);
    assert AppsOf(b)[0] in apps;
    var main := MainApp(apps, b);
    var rows := ActivityRows(b, clicks, hour, activeApp);
    forall i | 0 <= i < |rows|
      ensures rows[i].app == apps[i] && rows[i].keystrokes == Count(b, rows[i].app) > 0
    {
      RowsShape(apps, b, main, clicks, hour, i);
      CountPositive(b, apps[i]);
    }
    forall a | a in AppsOf(b)
      ensures exists i :: 0 <= i < |rows| && rows[i].app == a
    {
      var i :| 0 <= i < |apps| && apps[i] == a;
      assert rows[i].app == a;
    }
  }

  /** All clicks go to one row with the most keystrokes; every row before it has strictly
      fewer (ties go to the application seen first), and every other row gets no clicks. */
  lemma ClicksToBusiestApp(b: seq<Keystroke>, clicks: nat, hour: int, activeApp: string, i: nat)
    requires |b| > 0
    requires i < |ActivityRows(b, clicks, hour, activeApp)|
    requires ActivityRows(b, clicks, hour, activeApp)[i].clicks > 0
    ensures var rows := ActivityRows(b, clicks, hour, activeApp);
            && rows[i].clicks == clicks
            && (forall j :: 0 <= j < |rows| ==> rows[j].keystrokes <= rows[i].keystrokes)
            && (forall j :: 0 <= j < i ==> rows[j].keystrokes < rows[i].keystrokes)
            && (forall j :: 0 <= j < |rows| && j != i ==> rows[j].clicks == 0)
  {
    var apps := Apps(b);
    assert AppsOf(b)[0] in apps;
    var main := MainApp(apps, b);
    var rows := ActivityRows(b, clicks, hour, activeApp);
    RowsShape(apps, b, main, clicks, hour, i);
    assert apps[i] == main;
    MainAppFirst(apps, b);
    forall j | 0 <= j < |rows|
      ensures rows[j].keystrokes <= rows[i].keystrokes
      ensures j < i ==> rows[j].keystrokes < rows[i].keystrokes
      ensures j != i ==> rows[j].clicks == 0
    {
      RowsShape(apps, b, main, clicks, hour, j);
    }
  }

  /** A flush with nothing recorded writes nothing and changes nothing; any other flush writes
      each buffered keystroke once, in order, accounts for every keystroke and click in the
      activity rows, and resets the counters and the buffer. */
  lemma FlushEffects(c: Counters, hour: int, activeApp: string)
    ensures var (next, written) := Flush(c, hour, activeApp);
            if c.keystrokeCount == 0 && c.mouseClicks == 0 then
              next == c && written.keystrokeRows == [] && written.activityRows == []
            else
              && next.keystrokeCount == 0 && next.mouseClicks == 0 && next.buffer == []
              && written.keystrokeRows == c.buffer
              && KeystrokeTotal(written.activityRows) == |c.buffer|
              && ClickTotal(written.activityRows) == c.mouseClicks
  {
    KeystrokesConserved(c.buffer, c.mouseClicks, hour, activeApp);
    ClicksConserved(c.buffer, c.mouseClicks, hour, activeApp);
  }

  /** With an empty buffer, clicks produce exactly one row, for the foreground application,
      with no keystrokes. */
  lemma ClicksWithoutKeystrokes(c: Counters, hour: int, activeApp: string)
    requires c.buffer == [] && c.mouseClicks > 0
    ensures Flush(c, hour, activeApp).1.activityRows == [ActivityRow(hour, activeApp, 0, c.mouseClicks)]
  {
    assert Apps([]) == [];
  }
}
