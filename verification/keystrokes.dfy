/**
 * Keystroke reconstruction (`reconstruct_text`), grouping of a keystroke log into runs of one
 * application (`group_keystrokes_by_app`), and the plain-text rendering of those runs
 * (`format_keystroke_groups`), which is the input of the text refiner.
 */
module Keystrokes {
  import opened Strings

  /** `IGNORE_KEYS`: modifier, navigation and function keys that produce no text. */
  const IgnoreKeys: set<string> := {
    "shift", "shift_r", "ctrl", "ctrl_r", "alt", "alt_r", "alt_gr",
    "cmd", "cmd_r", "caps_lock", "up", "down", "left", "right",
    "home", "end", "page_up", "page_down", "delete", "escape",
    "f1", "f2", "f3", "f4", "f5", "f6", "f7", "f8", "f9", "f10", "f11", "f12",
    "tab", "print_screen", "scroll_lock", "pause", "insert", "num_lock",
    "menu"
  }

  /** No ignored key is a single character. */
  lemma IgnoreKeysAreNames()
    ensures forall k :: k in IgnoreKeys ==> |k| >= 2
  {
  }

  /** The effect of one key on the text typed so far. */
  function Step(out: string, key: string): (r: string)
    ensures |r| <= |out| + 1
  {
    var k := Lower(key);
    if k in IgnoreKeys then out
    else if k == "backspace" then (if |out| > 0 then out[..|out| - 1] else out)
    else if k == "space" then out + " "
    else if k == "enter" || k == "return" then out + "\n"
    else if |key| == 1 then out + key
    else out
  }

  /** The text after replaying `keys` on top of `out`. */
  function Replay(out: string, keys: seq<string>): (r: string)
    ensures |r| <= |out| + |keys|
    decreases |keys|
  {
    if |keys| == 0 then out else Replay(Step(out, keys[0]), keys[1..])
  }

  /** `reconstruct_text`. */
  function Reconstruct(keys: seq<string>): (r: string)
    ensures |r| <= |keys|
  {
    Replay("", keys)
  }

  /** Replaying two key sequences one after the other is replaying their concatenation. */
  lemma {:induction false} ReplayAppend(out: string, a: seq<string>, b: seq<string>)
    ensures Replay(out, a + b) == Replay(Replay(out, a), b)
    decreases |a|
  {
    if |a| > 0 {
      assert (a + b)[1..] == a[1..] + b;
      ReplayAppend(Step(out, a[0]), a[1..], b);
    } else {
      assert a + b == b;
    }
  }

  /** One more key acts on the text reconstructed so far. */
  lemma ReconstructSnoc(keys: seq<string>, key: string)
    ensures Reconstruct(keys + [key]) == Step(Reconstruct(keys), key)
  {
    ReplayAppend("", keys, [key]);
  }

  /** An ignored key, in any letter case, contributes nothing. */
  lemma IgnoredKeyVanishes(keys: seq<string>, key: string)
    requires Lower(key) in IgnoreKeys
    ensures Reconstruct(keys + [key]) == Reconstruct(keys)
  {
    ReconstructSnoc(keys, key);
  }

  /** Backspace removes the last character, and does nothing to an empty text. */
  lemma BackspaceErases(keys: seq<string>, key: string)
    requires Lower(key) == "backspace"
    ensures var t := Reconstruct(keys);
            Reconstruct(keys + [key]) == if t == [] then [] else t[..|t| - 1]
  {
    ReconstructSnoc(keys, key);
  }

  /** `space` types a blank; `enter` and `return` type a line break. */
  lemma WhitespaceKeys(keys: seq<string>, key: string)
    requires Lower(key) in {"space", "enter", "return"}
    ensures Reconstruct(keys + [key]) ==
              Reconstruct(keys) + (if Lower(key) == "space" then " " else "\n")
  {
    ReconstructSnoc(keys, key);
  }

  /** A one-character key is typed as it is, whatever it is. */
  lemma CharacterKeyTyped(keys: seq<string>, c: char)
    ensures Reconstruct(keys + [[c]]) == Reconstruct(keys) + [c]
  {
    ReconstructSnoc(keys, [c]);
    IgnoreKeysAreNames();
  }

  /** Any other named key is dropped. */
  lemma OtherKeyDropped(keys: seq<string>, key: string)
    requires |key| != 1
    requires Lower(key) !in IgnoreKeys + {"backspace", "space", "enter", "return"}
    ensures Reconstruct(keys + [key]) == Reconstruct(keys)
  {
    ReconstructSnoc(keys, key);
  }

  /** The key sequence that types `s` one character at a time. */
  function TypeOut(s: string): (r: seq<string>)
    ensures |r| == |s|
    ensures forall i :: 0 <= i < |s| ==> r[i] == [s[i]]
  {
    seq(|s|, i requires 0 <= i < |s| => [s[i]])
  }

  /** Typing a text character by character reconstructs exactly that text. */
  lemma {:induction false} TypeOutRoundTrip(s: string)
    ensures Reconstruct(TypeOut(s)) == s
    decreases |s|
  {
    if |s| > 0 {
      var init := s[..|s| - 1];
      TypeOutRoundTrip(init);
      assert TypeOut(s) == TypeOut(init) + [[s[|s| - 1]]];
      CharacterKeyTyped(TypeOut(init), s[|s| - 1]);
      assert init + [s[|s| - 1]] == s;
    }
  }

  // ---------------------------------------------------------------------------------
  // Grouping by application.

  /** One row of the keystroke log. */
  datatype Keystroke = Keystroke(timestamp: string, key: string, app: string)

  /** A `(timestamp, app_name, keys)` group. */
  datatype Run = Run(timestamp: string, app: string, keys: seq<string>)

  /** One keystroke added to the runs: the last run gains its key when the application is the
      same, otherwise a new run opens with the keystroke's timestamp. */
  function Extend(rs: seq<Run>, k: Keystroke): (r: seq<Run>)
    ensures |rs| <= |r| <= |rs| + 1 && |r| > 0
  {
    if |rs| > 0 && rs[|rs| - 1].app == k.app then
      rs[..|rs| - 1] + [rs[|rs| - 1].(keys := rs[|rs| - 1].keys + [k.key])]
    else rs + [Run(k.timestamp, k.app, [k.key])]
  }

  /** The maximal runs of consecutive keystrokes in one application, each stamped with the
      timestamp of its first keystroke. */
  function Runs(ks: seq<Keystroke>): (r: seq<Run>)
    ensures |r| <= |ks|
    ensures |ks| > 0 ==> |r| > 0
  {
    if |ks| == 0 then [] else Extend(Runs(ks[..|ks| - 1]), ks[|ks| - 1])
  }

  /** The runs whose timestamp is not empty: the source drops a group whose first timestamp
      is falsy. */
  function Stamped(rs: seq<Run>): (r: seq<Run>)
    ensures |r| <= |rs|
    ensures forall i :: 0 <= i < |r| ==> r[i].timestamp != "" && r[i] in rs
  {
    if |rs| == 0 then []
    else
      var init := Stamped(rs[..|rs| - 1]);
      var last := rs[|rs| - 1];
      assert forall x :: x in init ==> x in rs;
      if last.timestamp != "" then init + [last] else init
  }

  /** How the runs grow by one keystroke: the last run gains its key when the application is
      the same, otherwise a new run opens with its timestamp. */
  lemma RunsSnoc(ks: seq<Keystroke>, done: seq<Run>, cur: Run)
    requires |ks| > 0 && Runs(ks[..|ks| - 1]) == done + [cur]
    ensures var k := ks[|ks| - 1];
            Runs(ks) == if k.app == cur.app then done + [cur.(keys := cur.keys + [k.key])]
                        else done + [cur, Run(k.timestamp, k.app, [k.key])]
  {
    ExtendLast(done, cur, ks[|ks| - 1]);
  }

  lemma ExtendLast(done: seq<Run>, cur: Run, k: Keystroke)
    ensures Extend(done + [cur], k) ==
              if k.app == cur.app then done + [cur.(keys := cur.keys + [k.key])]
              else done + [cur, Run(k.timestamp, k.app, [k.key])]
  {
    var rs := done + [cur];
    assert rs[..|rs| - 1] == done;
  }

  /** The shape of an extension: everything but the last run is kept, and the last run is
      either the old last run with the new key or a fresh run. */
  lemma ExtendShape(rs: seq<Run>, k: Keystroke)
    ensures var r := Extend(rs, k);
            && r[|r| - 1].app == k.app
            && if |rs| > 0 && rs[|rs| - 1].app == k.app then
                 && r[..|r| - 1] == rs[..|rs| - 1]
                 && r[|r| - 1] == rs[|rs| - 1].(keys := rs[|rs| - 1].keys + [k.key])
               else
                 && r[..|r| - 1] == rs
                 && r[|r| - 1] == Run(k.timestamp, k.app, [k.key])
  {
  }

  lemma StampedSnoc(rs: seq<Run>, r: Run)
    ensures Stamped(rs + [r]) == Stamped(rs) + (if r.timestamp != "" then [r] else [])
  {
    assert (rs + [r])[..|rs|] == rs;
  }

  /** `group_keystrokes_by_app`. */
  method GroupKeystrokesByApp(ks: seq<Keystroke>) returns (groups: seq<Run>)
    ensures groups == Stamped(Runs(ks))
  {
    if |ks| == 0 {
      return [];
    }
    groups := [];
    var cur := Run(ks[0].timestamp, ks[0].app, [ks[0].key]);
    ghost var done: seq<Run> := [];
    assert ks[..1][..0] == [];
    var i := 1;
    while i < |ks|
      invariant 1 <= i <= |ks|
      invariant Runs(ks[..i]) == done + [cur]
      invariant groups == Stamped(done)
    {
      var k := ks[i];
      assert ks[..i + 1][..i] == ks[..i];
      RunsSnoc(ks[..i + 1], done, cur);
      if k.app != cur.app {
        if cur.timestamp != "" {
          groups := groups + [cur];
        }
        StampedSnoc(done, cur);
        done := done + [cur];
        cur := Run(k.timestamp, k.app, [k.key]);
      } else {
        cur := cur.(keys := cur.keys + [k.key]);
      }
      i := i + 1;
    }
    assert ks[..i] == ks;
    StampedSnoc(done, cur);
    if cur.timestamp != "" {
      groups := groups + [cur];
    }
  }

  /** The keys of a list of runs, concatenated. */
  function AllKeys(rs: seq<Run>): seq<string> {
    if |rs| == 0 then [] else AllKeys(rs[..|rs| - 1]) + rs[|rs| - 1].keys
  }

  /** The keys of a keystroke log, in order. */
  function KeysOf(ks: seq<Keystroke>): (r: seq<string>)
    ensures |r| == |ks|
  {
    if |ks| == 0 then [] else KeysOf(ks[..|ks| - 1]) + [ks[|ks| - 1].key]
  }

  /** Key `i` of the log is key `i` of its key list. */
  lemma {:induction false} KeysOfIndex(ks: seq<Keystroke>, i: nat)
    requires i < |ks|
    ensures KeysOf(ks)[i] == ks[i].key
    decreases |ks|
  {
    if i < |ks| - 1 {
      KeysOfIndex(ks[..|ks| - 1], i);
    }
  }

  /** Extending the runs by a keystroke appends its key to their keys. */
  lemma ExtendKeys(rs: seq<Run>, k: Keystroke)
    ensures AllKeys(Extend(rs, k)) == AllKeys(rs) + [k.key]
  {
    var r := Extend(rs, k);
    if |rs| > 0 && rs[|rs| - 1].app == k.app {
      var last := rs[|rs| - 1];
      assert r[..|r| - 1] == rs[..|rs| - 1];
      assert AllKeys(rs) == AllKeys(rs[..|rs| - 1]) + last.keys;
      assert AllKeys(r) == AllKeys(rs[..|rs| - 1]) + (last.keys + [k.key]);
    } else {
      assert r[..|r| - 1] == rs;
    }
  }

  /** The runs hold every key of the log, in order. */
  lemma {:induction false} RunsKeepKeys(ks: seq<Keystroke>)
    ensures AllKeys(Runs(ks)) == KeysOf(ks)
    decreases |ks|
  {
    if |ks| > 0 {
      var init := ks[..|ks| - 1];
      RunsKeepKeys(init);
      ExtendKeys(Runs(init), ks[|ks| - 1]);
    }
  }

  /** With no empty timestamp in the log, every run keeps its timestamp. */
  lemma {:induction false} RunsStamped(ks: seq<Keystroke>)
    requires forall i :: 0 <= i < |ks| ==> ks[i].timestamp != ""
    ensures forall i :: 0 <= i < |Runs(ks)| ==> Runs(ks)[i].timestamp != ""
    decreases |ks|
  {
    if |ks| > 0 {
      var init := ks[..|ks| - 1];
      RunsStamped(init);
      var r := Runs(ks);
      ExtendShape(Runs(init), ks[|ks| - 1]);
      forall i | 0 <= i < |r|
        ensures r[i].timestamp != ""
      {
        if i < |r| - 1 {
          assert r[i] == r[..|r| - 1][i];
        }
      }
    }
  }

  lemma {:induction false} StampedAll(rs: seq<Run>)
    requires forall i :: 0 <= i < |rs| ==> rs[i].timestamp != ""
    ensures Stamped(rs) == rs
    decreases |rs|
  {
    if |rs| > 0 {
      StampedAll(rs[..|rs| - 1]);
    }
  }

  /** No keystroke is lost: with non-empty timestamps, the groups' keys concatenated are the
      logged keys. */
  lemma GroupingKeepsKeys(ks: seq<Keystroke>)
    requires forall i :: 0 <= i < |ks| ==> ks[i].timestamp != ""
    ensures AllKeys(Stamped(Runs(ks))) == KeysOf(ks)
  {
    RunsStamped(ks);
    StampedAll(Runs(ks));
    RunsKeepKeys(ks);
  }

  /** Neighbouring runs belong to different applications. */
  lemma {:induction false} RunsAlternate(ks: seq<Keystroke>)
    ensures forall i :: 0 <= i < |Runs(ks)| - 1 ==> Runs(ks)[i].app != Runs(ks)[i + 1].app
    decreases |ks|
  {
    if |ks| > 0 {
      var init := ks[..|ks| - 1];
      RunsAlternate(init);
      var r := Runs(ks);
      ExtendShape(Runs(init), ks[|ks| - 1]);
      forall i | 0 <= i < |r| - 1
        ensures r[i].app != r[i + 1].app
      {
        assert r[i] == r[..|r| - 1][i];
        if i + 1 < |r| - 1 {
          assert r[i + 1] == r[..|r| - 1][i + 1];
        }
      }
    }
  }

  /** `r` is the run of the keystrokes of `ks` from `s` to the end: they are all in `r`'s
      application, `r` carries the timestamp of keystroke `s`, its `i`-th key is the key of
      keystroke `s + i`, and keystroke `s - 1`, if any, is in another application. */
  predicate RunFrom(ks: seq<Keystroke>, r: Run, s: int) {
    && 0 <= s < |ks|
    && s == |ks| - |r.keys|
    && r.timestamp == ks[s].timestamp
    && (forall j :: s <= j < |ks| ==> ks[j].app == r.app && ks[j].key == r.keys[j - s])
    && (s > 0 ==> ks[s - 1].app != r.app)
  }

  lemma RunFromSameApp(ks: seq<Keystroke>, r: Run, s: int, k: Keystroke)
    requires RunFrom(ks, r, s) && k.app == r.app
    ensures RunFrom(ks + [k], r.(keys := r.keys + [k.key]), s)
  {
    var ks' := ks + [k];
    var keys := r.keys + [k.key];
    forall j | s <= j < |ks'|
      ensures ks'[j].app == r.app && ks'[j].key == keys[j - s]
    {
      if j < |ks| {
        assert ks'[j] == ks[j];
      }
    }
  }

  lemma RunFromNewApp(ks: seq<Keystroke>, r: Run, s: int, k: Keystroke)
    requires RunFrom(ks, r, s) && k.app != r.app
    ensures RunFrom(ks + [k], Run(k.timestamp, k.app, [k.key]), |ks|)
  {
    var ks' := ks + [k];
    assert ks'[|ks| - 1] == ks[|ks| - 1];
  }

  /** The last run starts at the keystroke where the application last changed, and carries
      that keystroke's timestamp and every key typed since. */
  lemma LastRunStart(ks: seq<Keystroke>)
    requires |ks| > 0
    ensures var r := Runs(ks)[|Runs(ks)| - 1];
            RunFrom(ks, r, |ks| - |r.keys|)
  {
    LastRunIsLast(ks);
    LastRunFrom(ks);
  }

  /** The last run of a non-empty log, built one keystroke at a time. */
  function LastRun(ks: seq<Keystroke>): Run
    requires |ks| > 0
    decreases |ks|
  {
    var k := ks[|ks| - 1];
    if |ks| == 1 then Run(k.timestamp, k.app, [k.key])
    else
      var cur := LastRun(ks[..|ks| - 1]);
      if cur.app == k.app then cur.(keys := cur.keys + [k.key]) else Run(k.timestamp, k.app, [k.key])
  }

  lemma {:induction false} LastRunIsLast(ks: seq<Keystroke>)
    requires |ks| > 0
    ensures Runs(ks)[|Runs(ks)| - 1] == LastRun(ks)
    decreases |ks|
  {
    var init := ks[..|ks| - 1];
    if |ks| > 1 {
      LastRunIsLast(init);
      ExtendLastRun(Runs(init), ks[|ks| - 1]);
    } else {
      assert init == [];
    }
  }

  lemma {:induction false} LastRunFrom(ks: seq<Keystroke>)
    requires |ks| > 0
    ensures RunFrom(ks, LastRun(ks), |ks| - |LastRun(ks).keys|)
    decreases |ks|
  {
    if |ks| > 1 {
      LastRunFrom(ks[..|ks| - 1]);
      LastRunStep(ks, LastRun(ks[..|ks| - 1]));
    } else {
      assert ks == [ks[0]];
      RunFromSingle(ks[0]);
    }
  }

  /** The last run after an extension: the old last run with the new key, or a fresh run. */
  lemma ExtendLastRun(rs: seq<Run>, k: Keystroke)
    requires |rs| > 0
    ensures var r := Extend(rs, k);
            var cur := rs[|rs| - 1];
            r[|r| - 1] == if cur.app == k.app then cur.(keys := cur.keys + [k.key])
                          else Run(k.timestamp, k.app, [k.key])
  {
  }

  /** A single keystroke is a run of its own. */
  lemma RunFromSingle(k: Keystroke)
    ensures RunFrom([k], Run(k.timestamp, k.app, [k.key]), 0)
  {
  }

  /** The last run after one more keystroke: the previous last run grown by its key, or a new
      run that starts at it. */
  lemma LastRunStep(ks: seq<Keystroke>, cur: Run)
    requires |ks| > 1
    requires var init := ks[..|ks| - 1]; RunFrom(init, cur, |init| - |cur.keys|)
    ensures var k := ks[|ks| - 1];
            var last := if cur.app == k.app then cur.(keys := cur.keys + [k.key])
                        else Run(k.timestamp, k.app, [k.key]);
            RunFrom(ks, last, |ks| - |last.keys|)
  {
    var init := ks[..|ks| - 1];
    var k := ks[|ks| - 1];
    assert init + [k] == ks;
    if cur.app == k.app {
      RunFromSameApp(init, cur, |init| - |cur.keys|, k);
    } else {
      RunFromNewApp(init, cur, |init| - |cur.keys|, k);
    }
  }

  /** `r` is the run of the keystrokes `ks[e - |r.keys|..e]`, and it is maximal: keystroke
      `e`, if any, is in another application. */
  predicate RunEndsAt(ks: seq<Keystroke>, r: Run, e: int) {
    && |r.keys| <= e <= |ks|
    && RunFrom(ks[..e], r, e - |r.keys|)
    && (e < |ks| ==> ks[e].app != r.app)
  }

  /** Every run, not only the last, is a maximal block of consecutive keystrokes in one
      application, carrying the timestamp of its first keystroke and the keys typed in it;
      only the last run reaches the end of the log. */
  lemma {:induction false} RunStart(ks: seq<Keystroke>, i: nat)
    requires i < |Runs(ks)|
    ensures exists e :: RunEndsAt(ks, Runs(ks)[i], e) && (i < |Runs(ks)| - 1 ==> e < |ks|)
    decreases |ks|
  {
    var init := ks[..|ks| - 1];
    var k := ks[|ks| - 1];
    assert init + [k] == ks;
    var r := Runs(ks);
    if i == |r| - 1 {
      LastRunEnds(ks);
    } else {
      var rs := Runs(init);
      ExtendShape(rs, k);
      assert r[i] == r[..|r| - 1][i];
      if i < |rs| - 1 {
        RunStart(init, i);
        var e :| RunEndsAt(init, rs[i], e) && e < |init|;
        RunEndsSnoc(init, k, r[i], e);
      } else {
        LastRunStart(init);
        RunEndsAtSwitch(init, k, r[i]);
      }
    }
  }

  /** The last run ends with the log. */
  lemma LastRunEnds(ks: seq<Keystroke>)
    requires |ks| > 0
    ensures RunEndsAt(ks, Runs(ks)[|Runs(ks)| - 1], |ks|)
  {
    LastRunStart(ks);
    assert ks[..|ks|] == ks;
  }

  /** A run that ends before the end of the log still ends there after one more keystroke. */
  lemma RunEndsSnoc(ks: seq<Keystroke>, k: Keystroke, r: Run, e: int)
    requires RunEndsAt(ks, r, e) && e < |ks|
    ensures RunEndsAt(ks + [k], r, e)
  {
    assert (ks + [k])[..e] == ks[..e];
    assert (ks + [k])[e] == ks[e];
  }

  /** The last run ends where a keystroke in another application arrives. */
  lemma RunEndsAtSwitch(ks: seq<Keystroke>, k: Keystroke, r: Run)
    requires |ks| > 0 && RunFrom(ks, r, |ks| - |r.keys|) && k.app != r.app
    ensures RunEndsAt(ks + [k], r, |ks|)
  {
    assert (ks + [k])[..|ks|] == ks;
    assert (ks + [k])[|ks|] == k;
  }

  /** An empty log has no groups. */
  lemma GroupEmpty()
    ensures Stamped(Runs([])) == []
  {
  }

  // ---------------------------------------------------------------------------------
  // Rendering.

  /** The body line of a group: the reconstructed text, or a marker when it is blank. */
  function Body(keys: seq<string>): string {
    var text := Reconstruct(keys);
    if Strip(text) != [] then text else "(App switch activity)"
  }

  /** The app-switch marker replaces exactly the texts made only of whitespace; any other
      text is shown unstripped. */
  lemma BodyMarksBlank(keys: seq<string>)
    ensures var t := Reconstruct(keys);
            && ((forall i :: 0 <= i < |t| ==> IsSpace(t[i])) ==> Body(keys) == "(App switch activity)")
            && ((exists i :: 0 <= i < |t| && !IsSpace(t[i])) ==> Body(keys) == t)
  {
    StripSpec(Reconstruct(keys));
  }

  /** The four lines of one group: time, `[app]`, body, and an empty separator line. The
      rendering of the time and of the body are parameters, so that the layout lemmas below
      hold for any of them. */
  function Block(g: Run, formatTime: string -> string, body: seq<string> -> string): (r: seq<string>)
    ensures |r| == 4
  {
    [formatTime(g.timestamp), "[" + g.app + "]", body(g.keys), ""]
  }

  /** The lines of all groups, block after block. */
  function Lines(groups: seq<Run>, formatTime: string -> string, body: seq<string> -> string): (r: seq<string>)
    ensures |r| == 4 * |groups|
  {
    if |groups| == 0 then []
    else Block(groups[0], formatTime, body) + Lines(groups[1..], formatTime, body)
  }

  /** `format_keystroke_groups`, with `format_timestamp_display` as the parameter `formatTime`. */
  function FormatGroups(groups: seq<Run>, formatTime: string -> string): string {
    Join(Lines(groups, formatTime, Body), "\n")
  }

  /** Group `i` occupies lines `4i` to `4i + 3`: its time, its bracketed application, its text
      or the app-switch marker, and a blank line. */
  lemma {:induction false} LinesOfGroup(groups: seq<Run>, formatTime: string -> string,
                                        body: seq<string> -> string, i: nat)
    requires i < |groups|
    ensures Lines(groups, formatTime, body)[4 * i..4 * i + 4] == Block(groups[i], formatTime, body)
    decreases i
  {
    var t := Lines(groups[1..], formatTime, body);
    var b := Block(groups[0], formatTime, body);
    assert Lines(groups, formatTime, body) == b + t;
    if i > 0 {
      LinesOfGroup(groups[1..], formatTime, body, i - 1);
      assert groups[1..][i - 1] == groups[i];
      var j := 4 * (i - 1);
      assert (b + t)[j + 4..j + 8] == t[j..j + 4];
    } else {
      assert (b + t)[..4] == b;
    }
  }

  lemma {:induction false} LinesAppend(a: seq<Run>, b: seq<Run>, formatTime: string -> string,
                                       body: seq<string> -> string)
    ensures Lines(a + b, formatTime, body) == Lines(a, formatTime, body) + Lines(b, formatTime, body)
    decreases |a|
  {
    if |a| > 0 {
      assert (a + b)[0] == a[0];
      assert (a + b)[1..] == a[1..] + b;
      LinesAppend(a[1..], b, formatTime, body);
    } else {
      assert a + b == b;
    }
  }

  lemma {:induction false} JoinAppend(x: seq<string>, y: seq<string>, sep: string)
    requires |x| > 0 && |y| > 0
    ensures Join(x + y, sep) == Join(x, sep) + sep + Join(y, sep)
    decreases |x|
  {
    if |x| == 1 {
      JoinCons(x[0], y, sep);
      assert [x[0]] + y == x + y;
    } else {
      JoinAppend(x[1..], y, sep);
      assert (x + y)[1..] == x[1..] + y;
    }
  }

  /** Rendering two lists of groups one after the other is rendering their concatenation. */
  lemma FormatAppend(a: seq<Run>, b: seq<Run>, formatTime: string -> string)
    requires |a| > 0 && |b| > 0
    ensures FormatGroups(a + b, formatTime) ==
              FormatGroups(a, formatTime) + "\n" + FormatGroups(b, formatTime)
  {
    LinesAppend(a, b, formatTime, Body);
    JoinAppend(Lines(a, formatTime, Body), Lines(b, formatTime, Body), "\n");
  }
}
