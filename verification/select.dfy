/** The selection engine: the three ways of changing selection flags
    (whole list, cursor entry then advance, pattern-filtered) that share one
    mutation rule, and force-selection by a set of names. */
module Select {
  import opened Base
  import opened Format
  import opened State

  /** `toggle`: flip instead of force-select; `all`: the whole list instead
      of the cursor entry; `reverse`: deselect. */
  datatype SelectOption = SelectOption(toggle: bool, all: bool, reverse: bool)

  /** The options a bare `select` command uses. */
  function DefaultOption(): (o: SelectOption)
    ensures o.toggle && !o.all && !o.reverse
  {
    SelectOption(toggle := true, all := false, reverse := false)
  }

  /** The pattern a selection is filtered by. The matcher itself (literal,
      glob or regular expression) is supplied as its decision function. */
  datatype MatchState = NoPattern | Matcher(isMatch: string -> bool) {
    predicate IsNone() {
      NoPattern?
    }
  }

  /** The mutation rule: `reverse` wins over `toggle`, which wins over
      force-select. */
  function Mark(o: SelectOption, selected: bool): bool {
    if o.reverse then false
    else if o.toggle then !selected
    else true
  }

  function MarkEntry(o: SelectOption, e: Entry): (r: Entry)
    ensures r.name == e.name
  {
    e.(selected := Mark(o, e.selected))
  }

  /** Whatever the flag was, the rule leaves it unselected under `reverse`,
      negated under `toggle` alone, and selected otherwise. */
  lemma MarkRule(o: SelectOption, b: bool)
    ensures o.reverse ==> !Mark(o, b)
    ensures !o.reverse && o.toggle ==> Mark(o, b) == !b
    ensures !o.reverse && !o.toggle ==> Mark(o, b)
  {
  }

  /** Applying the rule twice restores every flag exactly when the rule
      toggles; in every other case a second application changes nothing. */
  lemma MarkTwice(o: SelectOption)
    ensures (forall b :: Mark(o, Mark(o, b)) == b) <==> (o.toggle && !o.reverse)
    ensures !(o.toggle && !o.reverse) ==> forall b :: Mark(o, Mark(o, b)) == Mark(o, b)
  {
    if o.reverse {
      assert Mark(o, Mark(o, true)) != true;
    } else if !o.toggle {
      assert Mark(o, Mark(o, false)) != false;
    }
  }

  // ---------------------------------------------------------------------
  // Passes over a list of entries
  // ---------------------------------------------------------------------

  /** Every entry gets the mutation rule. */
  function MarkAll(o: SelectOption, es: seq<Entry>): (r: seq<Entry>)
    ensures |r| == |es|
    ensures forall i :: 0 <= i < |es| ==> r[i] == MarkEntry(o, es[i])
    decreases |es|
  {
    if es == [] then []
    else MarkAll(o, es[..|es| - 1]) + [MarkEntry(o, es[|es| - 1])]
  }

  /** Positions of the entries whose name the matcher accepts. */
  ghost function MatchingIndices(es: seq<Entry>, isMatch: string -> bool): set<nat> {
    set i: nat | i < |es| && isMatch(es[i].name)
  }

  /** Positions of the entries whose name is in `names`. */
  ghost function NamedIndices(es: seq<Entry>, names: set<string>): set<nat> {
    set i: nat | i < |es| && es[i].name in names
  }

  /** Positions of the selected entries whose name is not in `names`. */
  ghost function StrayIndices(es: seq<Entry>, names: set<string>): set<nat> {
    set i: nat | i < |es| && es[i].name !in names && es[i].selected
  }

  /** Adding the last position `n` to a set of smaller positions adds one
      to its size. */
  lemma AddLastPosition(a: set<nat>, n: nat)
    requires forall i :: i in a ==> i < n
    ensures |a + {n}| == |a| + 1
  {
    assert n !in a;
  }

  /** How the match count grows by the last entry. */
  lemma MatchingIndicesSnoc(es: seq<Entry>, isMatch: string -> bool)
    requires es != []
    ensures |MatchingIndices(es, isMatch)|
      == |MatchingIndices(es[..|es| - 1], isMatch)| + (if isMatch(es[|es| - 1].name) then 1 else 0)
  {
    var n := |es| - 1;
    var before := MatchingIndices(es[..n], isMatch);
    if isMatch(es[n].name) {
      assert MatchingIndices(es, isMatch) == before + {n};
      AddLastPosition(before, n);
    } else {
      assert MatchingIndices(es, isMatch) == before;
    }
  }

  /** How both counters of a pass by names grow by the last entry. */
  lemma NamedIndicesSnoc(es: seq<Entry>, names: set<string>)
    requires es != []
    ensures |NamedIndices(es, names)|
      == |NamedIndices(es[..|es| - 1], names)| + (if es[|es| - 1].name in names then 1 else 0)
    ensures |StrayIndices(es, names)|
      == |StrayIndices(es[..|es| - 1], names)|
         + (if es[|es| - 1].name !in names && es[|es| - 1].selected then 1 else 0)
  {
    var n := |es| - 1;
    var named := NamedIndices(es[..n], names);
    var stray := StrayIndices(es[..n], names);
    if es[n].name in names {
      assert NamedIndices(es, names) == named + {n};
      AddLastPosition(named, n);
    } else {
      assert NamedIndices(es, names) == named;
    }
    if es[n].name !in names && es[n].selected {
      assert StrayIndices(es, names) == stray + {n};
      AddLastPosition(stray, n);
    } else {
      assert StrayIndices(es, names) == stray;
    }
  }

  /** The result of a pattern pass: the new entries and the match count. */
  datatype PatternPass = PatternPass(entries: seq<Entry>, found: nat)

  /** Exactly the entries whose name matches get the mutation rule, the
      others are left as they are, and `found` counts the matches. */
  function MarkMatching(o: SelectOption, isMatch: string -> bool, es: seq<Entry>): (r: PatternPass)
    ensures |r.entries| == |es|
    ensures forall i :: 0 <= i < |es| ==>
      r.entries[i] == (if isMatch(es[i].name) then MarkEntry(o, es[i]) else es[i])
    ensures r.found == |MatchingIndices(es, isMatch)|
    decreases |es|
  {
    if es == [] then PatternPass([], 0)
    else
      var n := |es| - 1;
      var prev := MarkMatching(o, isMatch, es[..n]);
      var e := es[n];
      MatchingIndicesSnoc(es, isMatch);
      if isMatch(e.name) then PatternPass(prev.entries + [MarkEntry(o, e)], prev.found + 1)
      else PatternPass(prev.entries + [e], prev.found)
  }

  /** The result of a pass by names: the new entries and both counters. */
  datatype NamesPass = NamesPass(entries: seq<Entry>, found: nat, deselected: nat)

  /** Entries named in `names` end up selected; with `deselectOthers` every
      other entry ends up unselected, otherwise it is left as it is. `found`
      counts the named entries, `deselected` the others that were selected
      and got deselected. */
  function MarkNames(names: set<string>, deselectOthers: bool, es: seq<Entry>): (r: NamesPass)
    ensures |r.entries| == |es|
    ensures forall i :: 0 <= i < |es| ==>
      r.entries[i] == es[i].(selected := es[i].name in names || (es[i].selected && !deselectOthers))
    ensures r.found == |NamedIndices(es, names)|
    ensures r.deselected == if deselectOthers then |StrayIndices(es, names)| else 0
    decreases |es|
  {
    if es == [] then NamesPass([], 0, 0)
    else
      var n := |es| - 1;
      var prev := MarkNames(names, deselectOthers, es[..n]);
      var e := es[n];
      NamedIndicesSnoc(es, names);
      if e.name in names then
        NamesPass(prev.entries + [e.(selected := true)], prev.found + 1, prev.deselected)
      else if deselectOthers && e.selected then
        NamesPass(prev.entries + [e.(selected := false)], prev.found, prev.deselected + 1)
      else
        NamesPass(prev.entries + [e], prev.found, prev.deselected)
  }

  // ---------------------------------------------------------------------
  // Messages
  // ---------------------------------------------------------------------

  /** "<found> files selected" */
  function SelectedReport(found: nat): string {
    NatToString(found) + " files selected"
  }

  /** The report of a selection by names; the deselection clause is there
      only when other entries were to be deselected. */
  function NamesReport(found: nat, deselected: nat, deselectOthers: bool): string {
    SelectedReport(found)
    + (if deselectOthers then ", " + NatToString(deselected) + " files deselected" else "")
  }

  /** The report of a selection by names that deselects others states both
      counters unambiguously. */
  lemma NamesReportDeterminesCounts(f1: nat, d1: nat, f2: nat, d2: nat)
    requires NamesReport(f1, d1, true) == NamesReport(f2, d2, true)
    ensures f1 == f2 && d1 == d2
  {
    var mid := " files selected, ";
    NamesReportShape(f1, d1);
    NamesReportShape(f2, d2);
    NatToStringPrefix(f1, f2, mid + DeselectedClause(d1), mid + DeselectedClause(d2));
    DropCommonPrefix(mid, DeselectedClause(d1), DeselectedClause(d2));
    NatToStringPrefix(d1, d2, " files deselected", " files deselected");
  }

  function DeselectedClause(d: nat): string {
    NatToString(d) + " files deselected"
  }

  lemma NamesReportShape(f: nat, d: nat)
    ensures NamesReport(f, d, true) == NatToString(f) + (" files selected, " + DeselectedClause(d))
  {
  }

  lemma DropCommonPrefix(p: string, x: string, y: string)
    requires p + x == p + y
    ensures x == y
  {
    assert x == (p + x)[|p|..];
    assert y == (p + y)[|p|..];
  }

  /** The report without the deselection clause states the count of
      selected files unambiguously. */
  lemma SelectedReportDeterminesCount(f1: nat, f2: nat)
    requires SelectedReport(f1) == SelectedReport(f2)
    ensures f1 == f2
  {
    NatToStringPrefix(f1, f2, " files selected", " files selected");
  }

  // ---------------------------------------------------------------------
  // Commands
  // ---------------------------------------------------------------------

  /** The cursor collaborator changes nothing but the cursor, and keeps it
      within the list. */
  ghost predicate MovesCursorOnly(down: AppState -> Step) {
    forall s: AppState {:trigger down(s)} :: s.currList.Some? ==>
      && down(s).state.currList.Some?
      && down(s).state.currList.value.contents == s.currList.value.contents
      && (down(s).state.currList.value.index.Some? ==>
            down(s).state.currList.value.index.value < |s.currList.value.contents|)
  }

  /** Only the entry at `i` changed, by the mutation rule. */
  ghost predicate MarkedOnlyAt(o: SelectOption, before: seq<Entry>, after: seq<Entry>, i: nat) {
    && |after| == |before|
    && i < |before|
    && after[i] == MarkEntry(o, before[i])
    && forall j :: 0 <= j < |before| && j != i ==> after[j] == before[j]
  }

  /** The state after the mutation rule was applied to the current entry,
      before the cursor moves; unchanged when there is no current entry. */
  function MarkCurrent(s: AppState, o: SelectOption): (t: AppState)
    ensures s.currList.None? || s.currList.value.CurrIndex().None? ==> t == s
    ensures s.currList.Some? && s.currList.value.CurrIndex().Some? ==>
      && t.currList.Some?
      && t.currList.value.index == s.currList.value.index
      && MarkedOnlyAt(o, s.currList.value.contents, t.currList.value.contents,
                      s.currList.value.CurrIndex().value)
      && t.messages == s.messages && t.lastStdout == s.lastStdout
  {
    if s.currList.None? then s
    else
      var l := s.currList.value;
      match l.CurrIndex()
      case None => s
      case Some(i) => WithContents(s, l.contents[i := MarkEntry(o, l.contents[i])])
  }

  /** Selection without a pattern. With `all`, every entry of the current
      list gets the rule and the cursor stays. Otherwise the current entry
      gets the rule and then the cursor moves down one, the move's result
      being the command's; with no list or no current entry nothing
      happens. */
  function SelectWithoutPattern(s: AppState, o: SelectOption, down: AppState -> Step): (r: Step)
    ensures o.all ==> r.result == Ok(())
    ensures o.all && s.currList.None? ==> r.state == s
    ensures o.all && s.currList.Some? ==>
      && r.state.currList.Some?
      && r.state.currList.value.index == s.currList.value.index
      && |r.state.currList.value.contents| == |s.currList.value.contents|
      && (forall i :: 0 <= i < |s.currList.value.contents| ==>
            r.state.currList.value.contents[i] == MarkEntry(o, s.currList.value.contents[i]))
      && r.state.messages == s.messages && r.state.lastStdout == s.lastStdout
    ensures !o.all && (s.currList.None? || s.currList.value.CurrIndex().None?) ==>
      r == Step(s, Ok(()))
    ensures !o.all && s.currList.Some? && s.currList.value.CurrIndex().Some? ==>
      r == down(MarkCurrent(s, o))
    ensures !o.all && s.currList.Some? && s.currList.value.CurrIndex().Some? && MovesCursorOnly(down) ==>
      && r.state.currList.Some?
      && MarkedOnlyAt(o, s.currList.value.contents, r.state.currList.value.contents,
                      s.currList.value.index.value)
      && (r.state.currList.value.index.Some? ==>
            r.state.currList.value.index.value < |s.currList.value.contents|)
  {
    if o.all then
      if s.currList.None? then Step(s, Ok(()))
      else Step(WithContents(s, MarkAll(o, s.currList.value.contents)), Ok(()))
    else if s.currList.None? || s.currList.value.CurrIndex().None? then
      Step(s, Ok(()))
    else
      down(MarkCurrent(s, o))
  }

  /** Selection with a pattern: exactly the matching entries get the rule,
      whatever `all` says, and "<found> files selected" is reported, also
      when nothing matched. With no current list nothing happens. */
  function SelectWithPattern(s: AppState, isMatch: string -> bool, o: SelectOption): (r: Step)
    ensures r.result == Ok(())
    ensures s.currList.None? ==> r.state == s
    ensures s.currList.Some? ==>
      var es := s.currList.value.contents;
      && r.state.currList.Some?
      && r.state.currList.value.index == s.currList.value.index
      && |r.state.currList.value.contents| == |es|
      && (forall i :: 0 <= i < |es| ==>
            r.state.currList.value.contents[i]
              == (if isMatch(es[i].name) then MarkEntry(o, es[i]) else es[i]))
      && r.state.messages == s.messages + [Info(SelectedReport(|MatchingIndices(es, isMatch)|))]
      && r.state.lastStdout == s.lastStdout
  {
    if s.currList.None? then Step(s, Ok(()))
    else
      var pass := MarkMatching(o, isMatch, s.currList.value.contents);
      var t := WithContents(s, pass.entries);
      Step(t.(messages := t.messages + [Info(SelectedReport(pass.found))]), Ok(()))
  }

  /** The selections that keep the cursor keep a valid list valid. */
  lemma SelectionPreservesValid(
    s: AppState, isMatch: string -> bool, o: SelectOption, names: set<string>, deselectOthers: bool,
    down: AppState -> Step)
    requires s.currList.Some? && s.currList.value.Valid()
    ensures SelectWithPattern(s, isMatch, o).state.currList.value.Valid()
    ensures SelectByNames(s, names, deselectOthers).state.currList.value.Valid()
    ensures o.all ==> SelectWithoutPattern(s, o, down).state.currList.value.Valid()
  {
  }

  /** `select_files`: a missing pattern selects without one, otherwise the
      pattern filters. */
  function SelectFiles(s: AppState, pattern: MatchState, o: SelectOption, down: AppState -> Step): (r: Step)
    ensures pattern.IsNone() ==> r == SelectWithoutPattern(s, o, down)
    ensures !pattern.IsNone() ==> r == SelectWithPattern(s, pattern.isMatch, o)
  {
    match pattern
    case NoPattern => SelectWithoutPattern(s, o, down)
    case Matcher(isMatch) => SelectWithPattern(s, isMatch, o)
  }

  /** `select_by_names`: entries named in `names` are force-selected; with
      `deselectOthers` all others are deselected, otherwise left alone.
      Names matching no entry are ignored. One report is pushed; with no
      current list nothing happens and no report is pushed. */
  function SelectByNames(s: AppState, names: set<string>, deselectOthers: bool): (r: Step)
    ensures r.result == Ok(())
    ensures s.currList.None? ==> r.state == s
    ensures s.currList.Some? ==>
      var es := s.currList.value.contents;
      && r.state.currList.Some?
      && r.state.currList.value.index == s.currList.value.index
      && |r.state.currList.value.contents| == |es|
      && (forall i :: 0 <= i < |es| ==> r.state.currList.value.contents[i].name == es[i].name)
      && (forall i :: 0 <= i < |es| && es[i].name in names ==>
            r.state.currList.value.contents[i].selected)
      && (forall i :: 0 <= i < |es| && es[i].name !in names ==>
            r.state.currList.value.contents[i].selected == (es[i].selected && !deselectOthers))
      && r.state.messages == s.messages + [Info(NamesReport(
           |NamedIndices(es, names)|,
           if deselectOthers then |StrayIndices(es, names)| else 0,
           deselectOthers))]
      && r.state.lastStdout == s.lastStdout
  {
    if s.currList.None? then Step(s, Ok(()))
    else
      var pass := MarkNames(names, deselectOthers, s.currList.value.contents);
      var t := WithContents(s, pass.entries);
      Step(t.(messages := t.messages + [Info(NamesReport(pass.found, pass.deselected, deselectOthers))]), Ok(()))
  }

  // ---------------------------------------------------------------------
  // Properties across calls
  // ---------------------------------------------------------------------

  /** Toggling the whole list twice restores every flag. */
  lemma MarkAllTwice(o: SelectOption, es: seq<Entry>)
    requires o.toggle && !o.reverse
    ensures MarkAll(o, MarkAll(o, es)) == es
  {
    var r := MarkAll(o, MarkAll(o, es));
    assert forall i :: 0 <= i < |es| ==> r[i] == es[i];
  }

  /** Toggling by the same pattern twice restores every flag and counts the
      same matches both times. */
  lemma MarkMatchingTwice(o: SelectOption, isMatch: string -> bool, es: seq<Entry>)
    requires o.toggle && !o.reverse
    ensures MarkMatching(o, isMatch, MarkMatching(o, isMatch, es).entries).entries == es
    ensures MarkMatching(o, isMatch, MarkMatching(o, isMatch, es).entries).found
         == MarkMatching(o, isMatch, es).found
  {
    var once := MarkMatching(o, isMatch, es).entries;
    var twice := MarkMatching(o, isMatch, once).entries;
    assert forall i :: 0 <= i < |es| ==> twice[i] == es[i];
    assert MatchingIndices(once, isMatch) == MatchingIndices(es, isMatch);
  }

  /** Under `reverse`, every targeted entry ends up unselected, whatever
      the pass. */
  lemma ReverseDeselectsTargets(o: SelectOption, isMatch: string -> bool, es: seq<Entry>)
    requires o.reverse
    ensures forall i :: 0 <= i < |es| ==> !MarkAll(o, es)[i].selected
    ensures forall i :: 0 <= i < |es| && isMatch(es[i].name) ==>
      !MarkMatching(o, isMatch, es).entries[i].selected
  {
  }

  /** A second selection by the same names, deselecting others, changes
      nothing, finds the same entries and deselects none. */
  lemma MarkNamesIdempotent(names: set<string>, es: seq<Entry>)
    ensures var once := MarkNames(names, true, es);
            var twice := MarkNames(names, true, once.entries);
            twice.entries == once.entries && twice.found == once.found && twice.deselected == 0
  {
    var once := MarkNames(names, true, es);
    var twice := MarkNames(names, true, once.entries);
    assert forall i :: 0 <= i < |es| ==> twice.entries[i] == once.entries[i];
    assert NamedIndices(once.entries, names) == NamedIndices(es, names);
    assert StrayIndices(once.entries, names) == {};
  }

  /** Names of the listed entries. */
  ghost function NameSet(es: seq<Entry>): set<string> {
    set i | 0 <= i < |es| :: es[i].name
  }

  /** No two entries share a name, as in one directory. */
  ghost predicate DistinctNames(es: seq<Entry>) {
    forall i, j :: 0 <= i < j < |es| ==> es[i].name != es[j].name
  }

  lemma NameSetSnoc(es: seq<Entry>)
    requires es != []
    ensures NameSet(es) == NameSet(es[..|es| - 1]) + {es[|es| - 1].name}
  {
    var init := es[..|es| - 1];
    assert forall i :: 0 <= i < |init| ==> init[i] == es[i];
  }

  lemma {:induction false} NamedIndicesCount(es: seq<Entry>, names: set<string>)
    requires DistinctNames(es)
    ensures |NamedIndices(es, names)| == |names * NameSet(es)|
    decreases |es|
  {
    if es != [] {
      var n := |es| - 1;
      var init := es[..n];
      var last := es[n].name;
      NamedIndicesCount(init, names);
      NamedIndicesSnoc(es, names);
      NameSetSnoc(es);
      assert last !in NameSet(init);
      IntersectionAddOne(names, NameSet(init), last);
    }
  }

  lemma IntersectionAddOne(names: set<string>, a: set<string>, x: string)
    requires x !in a
    ensures |names * (a + {x})| == |names * a| + (if x in names then 1 else 0)
  {
    if x in names {
      assert names * (a + {x}) == (names * a) + {x};
    } else {
      assert names * (a + {x}) == names * a;
    }
  }

  /** In a directory, where names are distinct, the count of entries found
      is the count of requested names that are listed: names with no entry
      add nothing. */
  lemma FoundCountsListedNames(names: set<string>, deselectOthers: bool, es: seq<Entry>)
    requires DistinctNames(es)
    ensures MarkNames(names, deselectOthers, es).found == |names * NameSet(es)|
  {
    NamedIndicesCount(es, names);
  }

  /** The bare `select` command toggles the current entry and leaves the
      others alone. */
  lemma DefaultSelectTogglesCurrent(s: AppState, down: AppState -> Step)
    requires s.currList.Some? && s.currList.value.CurrIndex().Some?
    requires MovesCursorOnly(down)
    ensures var es := s.currList.value.contents;
            var i := s.currList.value.index.value;
            var r := SelectFiles(s, NoPattern, DefaultOption(), down);
            && r.state.currList.Some?
            && |r.state.currList.value.contents| == |es|
            && r.state.currList.value.contents[i].selected == !es[i].selected
            && forall j :: 0 <= j < |es| && j != i ==> r.state.currList.value.contents[j] == es[j]
  {
  }

  /** Selecting {a, b} and deselecting others over [a (unselected),
      b (selected), c (selected)]: a and b end up selected, c unselected,
      two found and one deselected. */
  lemma SelectByNamesThreeEntries(a: string, b: string, c: string)
    requires c != a && c != b
    ensures var s := AppState(Some(DirList([Entry(a, false), Entry(b, true), Entry(c, true)], Some(0))), [], None);
            var r := SelectByNames(s, {a, b}, true);
            && r.state.currList == Some(DirList([Entry(a, true), Entry(b, true), Entry(c, false)], Some(0)))
            && r.state.messages == [Info(NamesReport(2, 1, true))]
  {
    var es := [Entry(a, false), Entry(b, true), Entry(c, true)];
    var names := {a, b};
    var s := AppState(Some(DirList(es, Some(0))), [], None);
    var r := SelectByNames(s, names, true);
    ThreeEntriesCounts(a, b, c);
    var cs := r.state.currList.value.contents;
    assert cs == [Entry(a, true), Entry(b, true), Entry(c, false)];
  }

  lemma ThreeEntriesCounts(a: string, b: string, c: string)
    requires c != a && c != b
    ensures |NamedIndices([Entry(a, false), Entry(b, true), Entry(c, true)], {a, b})| == 2
    ensures |StrayIndices([Entry(a, false), Entry(b, true), Entry(c, true)], {a, b})| == 1
  {
    var es := [Entry(a, false), Entry(b, true), Entry(c, true)];
    assert NamedIndices(es, {a, b}) == {0, 1};
    assert StrayIndices(es, {a, b}) == {2};
  }

  /** The same with the names a.txt, b.txt and c.txt. */
  lemma SelectByNamesExample()
    ensures var s := AppState(Some(DirList([Entry("a.txt", false), Entry("b.txt", true), Entry("c.txt", true)],
                                           Some(0))), [], None);
            var r := SelectByNames(s, {"a.txt", "b.txt"}, true);
            && r.state.currList == Some(DirList([Entry("a.txt", true), Entry("b.txt", true), Entry("c.txt", false)],
                                                Some(0)))
            && r.state.messages == [Info(NamesReport(2, 1, true))]
  {
    assert "c.txt"[0] != "a.txt"[0] && "c.txt"[0] != "b.txt"[0];
    SelectByNamesThreeEntries("a.txt", "b.txt", "c.txt");
  }
}
