/**
 * Turning refined text into activity entries (`parse_refined_text` after its regex split)
 * and bucketing the entries by activity name (`identify_layer1_activities`).
 *
 * The timestamp regex split is not modelled: the input is the list of pieces it
 * produced, alternating between a preamble, a timestamp, a block, a timestamp, a block, ...
 */
module Segmenter {
  import opened Wrappers
  import opened Strings

  /** One timestamped block of the refined text. */
  datatype Entry = Entry(timestamp: string, activity: string, content: string)

  /** The non-blank lines of a block, each stripped. */
  function NonBlankLines(lines: seq<string>): (r: seq<string>)
    ensures |r| <= |lines|
    ensures forall i :: 0 <= i < |r| ==> r[i] != [] && Strip(r[i]) == r[i]
  {
    if |lines| == 0 then []
    else
      var l := Strip(lines[0]);
      assert l != [] ==> Strip(l) == l by { StripSpec(lines[0]); if l != [] { StripTrimmed(l); } }
      (if l == [] then [] else [l]) + NonBlankLines(lines[1..])
  }

  /** One (timestamp, block) pair: the first non-blank line names the activity, the rest is
      the content, and a block of a single line uses that line as its content too. */
  function ParseBlock(section: string, block: string): (r: Option<Entry>)
    ensures r.Some? ==> r.value.timestamp == Strip(section) && r.value.timestamp != []
    ensures r.Some? ==> r.value.activity != [] && r.value.content != []
    ensures r.Some? ==> Strip(r.value.activity) == r.value.activity && '\n' !in r.value.activity
    ensures Strip(section) == [] || Strip(block) == [] ==> r.None?
  {
    var timestamp := Strip(section);
    var text := Strip(block);
    if timestamp == [] || text == [] then None
    else
      var lines := NonBlankLines(Split(text, '\n'));
      if lines == [] then None
      else
        var name := lines[0];
        var content := if |lines| > 1 then Join(lines[1..], "\n") else "";
        var content := if content == [] && name != [] then name else content;
        assert '\n' !in name by { NonBlankLineHasNoNewline(Split(text, '\n')); }
        if name != [] then Some(Entry(timestamp, name, content)) else None
  }

  /** The first non-blank line of a block leads its non-blank lines, and there is none
      exactly when every line is blank. */
  lemma {:induction false} FirstNonBlank(lines: seq<string>)
    ensures NonBlankLines(lines) == [] <==> forall i :: 0 <= i < |lines| ==> Strip(lines[i]) == []
    ensures NonBlankLines(lines) != [] ==>
              exists j :: && 0 <= j < |lines|
                          && (forall i :: 0 <= i < j ==> Strip(lines[i]) == [])
                          && NonBlankLines(lines) == [Strip(lines[j])] + NonBlankLines(lines[j + 1..])
    decreases |lines|
  {
    if |lines| > 0 {
      var rest := lines[1..];
      FirstNonBlank(rest);
      assert forall i :: 0 < i < |lines| ==> lines[i] == rest[i - 1];
      if Strip(lines[0]) != [] {
        assert NonBlankLines(lines) == [Strip(lines[0])] + NonBlankLines(lines[0 + 1..]);
      } else if NonBlankLines(rest) != [] {
        var j :| && 0 <= j < |rest|
                 && (forall i :: 0 <= i < j ==> Strip(rest[i]) == [])
                 && NonBlankLines(rest) == [Strip(rest[j])] + NonBlankLines(rest[j + 1..]);
        assert rest[j + 1..] == lines[j + 2..];
        assert NonBlankLines(lines) == [Strip(lines[j + 1])] + NonBlankLines(lines[j + 1 + 1..]);
      }
    }
  }

  /** How a block pairs with its timestamp: there is an entry exactly when the timestamp and
      some line are not blank; the first non-blank line, stripped, is the activity, and the
      non-blank lines after it, stripped and joined by line breaks, are the content, which
      is the activity again when there are none. */
  lemma ParseBlockLines(section: string, block: string)
    ensures var ls := Split(Strip(block), '\n');
            var r := ParseBlock(section, block);
            && (r.Some? <==> Strip(section) != [] && exists i :: 0 <= i < |ls| && Strip(ls[i]) != [])
            && (r.Some? ==>
                  && r.value.timestamp == Strip(section)
                  && exists j :: && 0 <= j < |ls|
                                 && (forall i :: 0 <= i < j ==> Strip(ls[i]) == [])
                                 && r.value.activity == Strip(ls[j])
                                 && var c := Join(NonBlankLines(ls[j + 1..]), "\n");
                                    r.value.content == if c == [] then r.value.activity else c)
  {
    var ls := Split(Strip(block), '\n');
    FirstNonBlank(ls);
    if Strip(block) == [] {
      assert ls == [""];
      assert Strip("") == [];
    }
    var lines := NonBlankLines(ls);
    if lines != [] {
      assert lines[1..] == lines[|[lines[0]]|..];
    }
  }

  lemma {:induction false} NonBlankLineHasNoNewline(lines: seq<string>)
    requires forall i :: 0 <= i < |lines| ==> '\n' !in lines[i]
    ensures forall i :: 0 <= i < |NonBlankLines(lines)| ==> '\n' !in NonBlankLines(lines)[i]
    decreases |lines|
  {
    if |lines| > 0 {
      NonBlankLineHasNoNewline(lines[1..]);
      if '\n' in Strip(lines[0]) {
        StripByChars(lines[0], IsSpace, '\n');
      }
    }
  }

  /** The entries of a timestamp/block alternation, two pieces at a time. */
  function Pair(sections: seq<string>): (r: seq<Entry>)
    ensures |r| <= |sections| / 2
    decreases |sections|
  {
    if |sections| < 2 then []
    else
      var e := ParseBlock(sections[0], sections[1]);
      (if e.Some? then [e.value] else []) + Pair(sections[2..])
  }

  /** An entry as the pairing step produces it. */
  predicate IsEntry(e: Entry) {
    && e.timestamp != [] && e.activity != [] && e.content != []
    && Strip(e.activity) == e.activity && '\n' !in e.activity
  }

  lemma {:induction false} PairedEntries(sections: seq<string>)
    ensures forall i :: 0 <= i < |Pair(sections)| ==> IsEntry(Pair(sections)[i])
    decreases |sections|
  {
    if |sections| >= 2 {
      PairedEntries(sections[2..]);
      var e := ParseBlock(sections[0], sections[1]);
      var r := Pair(sections);
      var rest := Pair(sections[2..]);
      if e.Some? {
        assert r == [e.value] + rest;
        forall i | 0 <= i < |r| ensures IsEntry(r[i]) {
          if i > 0 { assert r[i] == rest[i - 1]; }
        }
      } else {
        assert r == rest;
      }
    }
  }

  /** The pairing loop of `parse_refined_text`: it starts after the preamble only when the
      preamble is blank; otherwise the preamble itself is read as the first timestamp. */
  function PairSections(sections: seq<string>): (r: seq<Entry>)
    requires |sections| >= 1
    ensures |r| <= |sections| / 2
    ensures forall i :: 0 <= i < |r| ==> IsEntry(r[i])
  {
    var start := if Strip(sections[0]) == [] then 1 else 0;
    PairedEntries(sections[start..]);
    Pair(sections[start..])
  }

  /** A blank timestamp or a blank block produces no entry, and pairing resumes two pieces on. */
  lemma BlankPairSkipped(sections: seq<string>)
    requires |sections| >= 2
    requires Strip(sections[0]) == [] || Strip(sections[1]) == []
    ensures Pair(sections) == Pair(sections[2..])
  {
  }

  lemma OneLineBlock(section: string, line: string)
    requires IsTrimmed(section) && IsTrimmed(line) && '\n' !in line
    ensures ParseBlock(section, line) == Some(Entry(section, line, line))
  {
    StripTrimmed(section);
    StripTrimmed(line);
    SplitNoSeparator(line, '\n');
    NonBlankLinesOfTrimmed([line]);
  }

  /** A non-blank preamble shifts every pair: the preamble is taken for a timestamp and the
      following timestamp for the activity name of a one-line block. */
  lemma PreambleMisaligns(preamble: string, stamp: string, block: string)
    requires IsTrimmed(preamble) && IsTrimmed(stamp) && '\n' !in stamp
    ensures PairSections([preamble, stamp, block]) == [Entry(preamble, stamp, stamp)]
  {
    var sections := [preamble, stamp, block];
    StripTrimmed(preamble);
    OneLineBlock(preamble, stamp);
    assert sections[0..] == sections;
    assert Pair(sections) == [Entry(preamble, stamp, stamp)] + Pair(sections[2..]);
  }

  // ---------------------------------------------------------------------------------
  // Round trip: rendering entries in the refined-text layout and pairing them back.

  /** A line that survives `strip()` and holds no line break. */
  predicate IsLine(s: string) {
    IsTrimmed(s) && '\n' !in s
  }

  /** An entry that its own rendering reproduces: single-line timestamp and activity, and
      content whose every line is already stripped and non-blank. */
  predicate IsRenderable(e: Entry) {
    && IsLine(e.timestamp) && IsLine(e.activity) && IsTrimmed(e.content)
    && forall i :: 0 <= i < |Split(e.content, '\n')| ==> IsTrimmed(Split(e.content, '\n')[i])
  }

  /** The timestamp piece and block piece of each entry, in order. */
  function RenderPairs(entries: seq<Entry>): (r: seq<string>)
    ensures |r| == 2 * |entries|
  {
    if |entries| == 0 then []
    else
      var e := entries[0];
      [e.timestamp, "\n" + e.activity + "\n" + e.content + "\n"] + RenderPairs(entries[1..])
  }

  lemma {:induction false} NonBlankLinesOfTrimmed(lines: seq<string>)
    requires forall i :: 0 <= i < |lines| ==> IsTrimmed(lines[i])
    ensures NonBlankLines(lines) == lines
    decreases |lines|
  {
    if |lines| > 0 {
      StripTrimmed(lines[0]);
      NonBlankLinesOfTrimmed(lines[1..]);
      assert [lines[0]] + lines[1..] == lines;
    }
  }

  lemma BlockOfTrimmed(a: string, c: string)
    requires IsLine(a) && IsTrimmed(c)
    ensures Strip("\n" + a + "\n" + c + "\n") == a + "\n" + c
  {
    var x := a + "\n" + c;
    assert IsTrimmed(x);
    assert "\n" + a + "\n" + c + "\n" == "\n" + x + "\n";
    StripPadded("\n", x, "\n");
  }

  lemma ParseRendered(e: Entry)
    requires IsRenderable(e)
    ensures ParseBlock(e.timestamp, "\n" + e.activity + "\n" + e.content + "\n") == Some(e)
  {
    StripTrimmed(e.timestamp);
    BlockOfTrimmed(e.activity, e.content);
    var text := e.activity + "\n" + e.content;
    SplitPiece(e.activity, '\n', e.content);
    assert e.activity + "\n" + e.content == e.activity + ['\n'] + e.content;
    var parts := [e.activity] + Split(e.content, '\n');
    assert Split(text, '\n') == parts;
    NonBlankLinesOfTrimmed(parts);
    assert parts[1..] == Split(e.content, '\n');
  }

  lemma {:induction false} PairRendered(entries: seq<Entry>)
    requires forall i :: 0 <= i < |entries| ==> IsRenderable(entries[i])
    ensures Pair(RenderPairs(entries)) == entries
    decreases |entries|
  {
    if |entries| > 0 {
      PairRenderedHead(entries);
      PairRendered(entries[1..]);
      assert [entries[0]] + entries[1..] == entries;
    }
  }

  /** The first two pieces of the layout pair back into the first entry. */
  lemma PairRenderedHead(entries: seq<Entry>)
    requires |entries| > 0 && IsRenderable(entries[0])
    ensures Pair(RenderPairs(entries)) == [entries[0]] + Pair(RenderPairs(entries[1..]))
  {
    var s := RenderPairs(entries);
    var e := entries[0];
    assert s == [e.timestamp, "\n" + e.activity + "\n" + e.content + "\n"] + RenderPairs(entries[1..]);
    assert s[2..] == RenderPairs(entries[1..]);
    ParseRendered(e);
  }

  /** Segmenting the refined-text layout of well-formed entries gives the same entries back. */
  lemma SegmentRoundTrip(entries: seq<Entry>)
    requires forall i :: 0 <= i < |entries| ==> IsRenderable(entries[i])
    ensures PairSections([""] + RenderPairs(entries)) == entries
  {
    var sections := [""] + RenderPairs(entries);
    assert sections[1..] == RenderPairs(entries);
    PairRendered(entries);
  }

  // ---------------------------------------------------------------------------------
  // Grouping by activity name.

  /** Entries sharing one stripped activity name, in their original order. */
  datatype Group = Group(name: string, entries: seq<Entry>)

  /** The grouping key: the stripped activity name. */
  function Key(e: Entry): string {
    Strip(e.activity)
  }

  /** The entries whose key is `k`, in order. */
  function WithKey(entries: seq<Entry>, k: string): (r: seq<Entry>)
    ensures |r| <= |entries|
    ensures forall i :: 0 <= i < |r| ==> Key(r[i]) == k
  {
    if |entries| == 0 then []
    else
      var last := entries[|entries| - 1];
      WithKey(entries[..|entries| - 1], k) + (if Key(last) == k then [last] else [])
  }

  /** The position of the first entry whose key is `k`, or `|entries|` if there is none. */
  function FirstWithKey(entries: seq<Entry>, k: string): (r: nat)
    ensures r <= |entries|
    ensures r < |entries| ==> Key(entries[r]) == k
  {
    if |entries| == 0 then 0
    else if Key(entries[0]) == k then 0
    else 1 + FirstWithKey(entries[1..], k)
  }

  /** No entry before the first one with key `k` has that key. */
  lemma {:induction false} FirstWithKeyIsFirst(entries: seq<Entry>, k: string)
    ensures forall j :: 0 <= j < FirstWithKey(entries, k) ==> Key(entries[j]) != k
    decreases |entries|
  {
    if |entries| > 0 && Key(entries[0]) != k {
      FirstWithKeyIsFirst(entries[1..], k);
    }
  }

  /** The position of the group named `k`, or `|groups|` if there is none. */
  function GroupIndex(groups: seq<Group>, k: string): (r: nat)
    ensures r <= |groups|
    ensures r < |groups| ==> groups[r].name == k
    ensures r == |groups| ==> forall i :: 0 <= i < |groups| ==> groups[i].name != k
  {
    if |groups| == 0 then 0
    else if groups[0].name == k then 0
    else 1 + GroupIndex(groups[1..], k)
  }

  /** One step of the grouping loop: append `e` to its group, opening the group if needed. */
  function AddEntry(groups: seq<Group>, e: Entry): seq<Group> {
    var k := Key(e);
    if k == [] then groups
    else
      var i := GroupIndex(groups, k);
      if i < |groups| then groups[i := Group(k, groups[i].entries + [e])]
      else groups + [Group(k, [e])]
  }

  /** `identify_layer1_activities`: a dictionary from activity name to entries, kept in
      insertion order. */
  function GroupActivities(entries: seq<Entry>): seq<Group> {
    if |entries| == 0 then []
    else AddEntry(GroupActivities(entries[..|entries| - 1]), entries[|entries| - 1])
  }

  /** Group names are non-blank and pairwise distinct. */
  predicate NamesDistinct(groups: seq<Group>) {
    && (forall i :: 0 <= i < |groups| ==> groups[i].name != [])
    && (forall i, j :: 0 <= i < j < |groups| ==> groups[i].name != groups[j].name)
  }

  /** Each group holds exactly the entries with its name, in input order. */
  predicate GroupsExact(groups: seq<Group>, entries: seq<Entry>) {
    forall i :: 0 <= i < |groups| ==> groups[i].entries == WithKey(entries, groups[i].name)
  }

  /** Every non-blank name has a group. */
  predicate GroupsCover(groups: seq<Group>, entries: seq<Entry>) {
    forall e :: e in entries && Key(e) != [] ==> exists i :: 0 <= i < |groups| && groups[i].name == Key(e)
  }

  /** Groups come in the order in which their names first appear. */
  predicate FirstAppearanceOrder(groups: seq<Group>, entries: seq<Entry>) {
    && (forall i :: 0 <= i < |groups| ==> FirstWithKey(entries, groups[i].name) < |entries|)
    && (forall i, j :: 0 <= i < j < |groups| ==>
          FirstWithKey(entries, groups[i].name) < FirstWithKey(entries, groups[j].name))
  }

  /** The groups partition the entries with a non-blank name, in first-appearance order. */
  predicate IsGrouping(groups: seq<Group>, entries: seq<Entry>) {
    && NamesDistinct(groups)
    && GroupsExact(groups, entries)
    && GroupsCover(groups, entries)
    && FirstAppearanceOrder(groups, entries)
  }

  lemma WithKeySnoc(entries: seq<Entry>, e: Entry, k: string)
    ensures WithKey(entries + [e], k) == WithKey(entries, k) + (if Key(e) == k then [e] else [])
  {
    assert (entries + [e])[..|entries|] == entries;
  }

  lemma FirstWithKeySnoc(entries: seq<Entry>, e: Entry, k: string)
    ensures FirstWithKey(entries, k) < |entries| ==>
              FirstWithKey(entries + [e], k) == FirstWithKey(entries, k)
    ensures FirstWithKey(entries, k) == |entries| && Key(e) == k ==>
              FirstWithKey(entries + [e], k) == |entries|
  {
    var p := FirstWithKey(entries, k);
    var q := FirstWithKey(entries + [e], k);
    FirstWithKeyIsFirst(entries, k);
    FirstWithKeyIsFirst(entries + [e], k);
    if p < |entries| {
      assert (entries + [e])[p] == entries[p];
    } else if Key(e) == k {
      assert (entries + [e])[|entries|] == e;
    }
  }

  lemma {:induction false} WithKeyAbsent(entries: seq<Entry>, k: string)
    requires forall x :: x in entries ==> Key(x) != k
    ensures WithKey(entries, k) == []
    decreases |entries|
  {
    if |entries| > 0 {
      var init := entries[..|entries| - 1];
      assert forall x :: x in init ==> x in entries;
      WithKeyAbsent(init, k);
      assert entries[|entries| - 1] in entries;
    }
  }

  lemma AddEntryNames(groups: seq<Group>, entries: seq<Entry>, e: Entry)
    requires IsGrouping(groups, entries)
    ensures NamesDistinct(AddEntry(groups, e))
  {
  }

  lemma AddEntryExact(groups: seq<Group>, entries: seq<Entry>, e: Entry)
    requires IsGrouping(groups, entries)
    ensures GroupsExact(AddEntry(groups, e), entries + [e])
  {
    var g := AddEntry(groups, e);
    var k := Key(e);
    var p := GroupIndex(groups, k);
    if k != [] && p == |groups| {
      assert forall x :: x in entries ==> Key(x) != k;
      WithKeyAbsent(entries, k);
    }
    forall i | 0 <= i < |g| ensures g[i].entries == WithKey(entries + [e], g[i].name) {
      WithKeySnoc(entries, e, g[i].name);
      if k == [] {
        assert g[i] == groups[i];
      } else if p < |groups| {
        assert g[i] == if i == p then Group(k, groups[p].entries + [e]) else groups[i];
      } else if i < |groups| {
        assert g[i] == groups[i];
      } else {
        assert g[i] == Group(k, [e]);
      }
    }
  }

  lemma AddEntryCovers(groups: seq<Group>, entries: seq<Entry>, e: Entry)
    requires IsGrouping(groups, entries)
    ensures GroupsCover(AddEntry(groups, e), entries + [e])
  {
    var g := AddEntry(groups, e);
    var k := Key(e);
    forall x | x in entries + [e] && Key(x) != [] ensures exists j :: 0 <= j < |g| && g[j].name == Key(x) {
      if x == e {
        var i := GroupIndex(groups, k);
        assert g[i].name == k;
      } else {
        assert x in entries;
        var j :| 0 <= j < |groups| && groups[j].name == Key(x);
        assert g[j].name == Key(x);
      }
    }
  }

  /** Appending an entry keeps the first appearance of every name already seen. */
  lemma FirstAppearanceKept(groups: seq<Group>, entries: seq<Entry>, e: Entry)
    requires FirstAppearanceOrder(groups, entries)
    ensures forall i :: 0 <= i < |groups| ==>
              FirstWithKey(entries + [e], groups[i].name) == FirstWithKey(entries, groups[i].name)
  {
    forall i | 0 <= i < |groups|
      ensures FirstWithKey(entries + [e], groups[i].name) == FirstWithKey(entries, groups[i].name)
    {
      FirstWithKeySnoc(entries, e, groups[i].name);
    }
  }

  /** A name with no group appears first in the appended entry. */
  lemma NewNameAppearsLast(groups: seq<Group>, entries: seq<Entry>, e: Entry)
    requires GroupsCover(groups, entries)
    requires Key(e) != [] && GroupIndex(groups, Key(e)) == |groups|
    ensures FirstWithKey(entries + [e], Key(e)) == |entries|
  {
    var k := Key(e);
    FirstWithKeySnoc(entries, e, k);
  }

  /** Renaming nothing and moving no first appearance keeps the order. */
  lemma OrderSameNames(g: seq<Group>, groups: seq<Group>, entries: seq<Entry>, more: seq<Entry>)
    requires FirstAppearanceOrder(groups, entries)
    requires |g| == |groups| && forall i :: 0 <= i < |g| ==> g[i].name == groups[i].name
    requires forall i :: 0 <= i < |groups| ==>
               FirstWithKey(more, groups[i].name) == FirstWithKey(entries, groups[i].name)
    requires |entries| <= |more|
    ensures FirstAppearanceOrder(g, more)
  {
  }

  /** A group opened last, for a name first seen last, keeps the order. */
  lemma OrderNewLast(groups: seq<Group>, entries: seq<Entry>, e: Entry, k: string)
    requires FirstAppearanceOrder(groups, entries)
    requires forall i :: 0 <= i < |groups| ==>
               FirstWithKey(entries + [e], groups[i].name) == FirstWithKey(entries, groups[i].name)
    requires FirstWithKey(entries + [e], k) == |entries|
    ensures FirstAppearanceOrder(groups + [Group(k, [e])], entries + [e])
  {
    var g := groups + [Group(k, [e])];
    var more := entries + [e];
    NewLastPresent(groups, entries, e, k);
    forall i, j | 0 <= i < j < |g|
      ensures FirstWithKey(more, g[i].name) < FirstWithKey(more, g[j].name)
    {
      assert g[i] == groups[i];
      if j < |groups| {
        assert g[j] == groups[j];
        assert FirstWithKey(entries, groups[i].name) < FirstWithKey(entries, groups[j].name);
      } else {
        assert FirstWithKey(entries, groups[i].name) < |entries|;
      }
    }
  }

  lemma NewLastPresent(groups: seq<Group>, entries: seq<Entry>, e: Entry, k: string)
    requires forall i :: 0 <= i < |groups| ==> FirstWithKey(entries, groups[i].name) < |entries|
    requires forall i :: 0 <= i < |groups| ==>
               FirstWithKey(entries + [e], groups[i].name) == FirstWithKey(entries, groups[i].name)
    requires FirstWithKey(entries + [e], k) == |entries|
    ensures var g := groups + [Group(k, [e])];
            forall i :: 0 <= i < |g| ==> FirstWithKey(entries + [e], g[i].name) < |entries| + 1
  {
  }

  lemma AddEntryOrder(groups: seq<Group>, entries: seq<Entry>, e: Entry)
    requires IsGrouping(groups, entries)
    ensures FirstAppearanceOrder(AddEntry(groups, e), entries + [e])
  {
    var g := AddEntry(groups, e);
    var k := Key(e);
    FirstAppearanceKept(groups, entries, e);
    if k != [] && GroupIndex(groups, k) == |groups| {
      NewNameAppearsLast(groups, entries, e);
      OrderNewLast(groups, entries, e, k);
    } else {
      OrderSameNames(g, groups, entries, entries + [e]);
    }
  }

  lemma AddEntryKeepsGrouping(groups: seq<Group>, entries: seq<Entry>, e: Entry)
    requires IsGrouping(groups, entries)
    ensures IsGrouping(AddEntry(groups, e), entries + [e])
  {
    AddEntryNames(groups, entries, e);
    AddEntryExact(groups, entries, e);
    AddEntryCovers(groups, entries, e);
    AddEntryOrder(groups, entries, e);
  }

  /** `identify_layer1_activities` partitions the named entries by name, in first-appearance order. */
  lemma {:induction false} GroupActivitiesPartitions(entries: seq<Entry>)
    ensures IsGrouping(GroupActivities(entries), entries)
    decreases |entries|
  {
    if |entries| > 0 {
      var init := entries[..|entries| - 1];
      GroupActivitiesPartitions(init);
      AddEntryKeepsGrouping(GroupActivities(init), init, entries[|entries| - 1]);
      assert init + [entries[|entries| - 1]] == entries;
    }
  }
}
