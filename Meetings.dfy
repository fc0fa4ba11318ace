/** The meeting list of App.tsx: the year filter (`filteredMeetings`), the date
    display (`formatDate`) and the attendance toggle (`handleCheckboxChange`). */
module Meetings {
  import opened Types
  import opened Text

  /** a can be obtained from b by deleting entries: an order-preserving subsequence. */
  predicate IsSubsequence(a: seq<Meeting>, b: seq<Meeting>)
    decreases |b|
  {
    a == [] ||
    (b != [] && ((a[0] == b[0] && IsSubsequence(a[1..], b[1..])) || IsSubsequence(a, b[1..])))
  }

  /** `roster.filter(item => item.date.startsWith(prefix))`. */
  function KeepWithPrefix(roster: seq<Meeting>, prefix: string): (kept: seq<Meeting>)
    ensures IsSubsequence(kept, roster)
    ensures forall m :: multiset(kept)[m] == if StartsWith(m.date, prefix) then multiset(roster)[m] else 0
  {
    if roster == [] then []
    else
      var rest := KeepWithPrefix(roster[1..], prefix);
      assert roster == [roster[0]] + roster[1..];
      if StartsWith(roster[0].date, prefix) then [roster[0]] + rest else rest
  }

  /** `filteredMeetings`: the whole roster for `"all"`, otherwise, in roster order,
      exactly the meetings whose date starts with the filter (possibly none). */
  function FilteredMeetings(roster: seq<Meeting>, filter: string): (shown: seq<Meeting>)
    ensures filter == "all" ==> shown == roster
    ensures filter != "all" ==> IsSubsequence(shown, roster)
    ensures filter != "all" ==> forall m :: m in shown <==> m in roster && StartsWith(m.date, filter)
    ensures filter != "all" ==>
      forall m :: multiset(shown)[m] == if StartsWith(m.date, filter) then multiset(roster)[m] else 0
  {
    if filter == "all" then roster
    else
      var kept := KeepWithPrefix(roster, filter);
      assert forall m :: m in kept <==> multiset(kept)[m] > 0;
      kept
  }

  /** The piece at index i of a split, or `"undefined"` as array destructuring gives
      for a missing element. */
  function PartOr(parts: seq<string>, i: nat): string {
    if i < |parts| then parts[i] else "undefined"
  }

  /** `formatDate`: the first three `-`-separated pieces of the date, joined with `.`.
      A date with exactly two hyphens, as every `YYYY-MM-DD` date has, is displayed
      with each hyphen replaced by a dot; a date without hyphens has no month or day
      piece to show. */
  function FormatDate(dateStr: string): (shown: string)
    ensures multiset(dateStr)['-'] == 2 ==> shown == HyphensToDots(dateStr)
    ensures '-' !in dateStr ==> shown == dateStr + ".undefined.undefined"
  {
    var parts := Split(dateStr, '-');
    ShownPieces(dateStr);
    PartOr(parts, 0) + "." + PartOr(parts, 1) + "." + PartOr(parts, 2)
  }

  /** s with every hyphen replaced by a dot and every other character kept in place. */
  function HyphensToDots(s: string): (r: string)
    ensures |r| == |s|
  {
    seq(|s|, i requires 0 <= i < |s| => if s[i] == '-' then '.' else s[i])
  }

  lemma HyphensToDotsConcat(a: string, b: string)
    ensures HyphensToDots(a + b) == HyphensToDots(a) + HyphensToDots(b)
  {
  }

  lemma HyphensToDotsKeeps(p: string)
    requires '-' !in p
    ensures HyphensToDots(p) == p
  {
    forall i | 0 <= i < |p| ensures HyphensToDots(p)[i] == p[i] {
      assert p[i] in p;
    }
  }

  lemma JoinThree(parts: seq<string>, sep: char)
    requires |parts| == 3
    ensures Join(parts, sep) == parts[0] + ([sep] + (parts[1] + ([sep] + parts[2])))
  {
    var tail := parts[1..];
    assert tail[1..] == [parts[2]];
    assert Join(tail[1..], sep) == parts[2];
    assert Join(tail, sep) == parts[1] + [sep] + parts[2];
  }

  lemma ThreePieces(dateStr: string)
    requires multiset(dateStr)['-'] == 2
    ensures var parts := Split(dateStr, '-');
      |parts| == 3 && dateStr == parts[0] + ("-" + (parts[1] + ("-" + parts[2])))
  {
    JoinSplit(dateStr, '-');
    JoinThree(Split(dateStr, '-'), '-');
  }

  lemma DotsOfPieces(p0: string, p1: string, p2: string)
    requires '-' !in p0 && '-' !in p1 && '-' !in p2
    ensures HyphensToDots(p0 + ("-" + (p1 + ("-" + p2)))) == p0 + "." + p1 + "." + p2
  {
    HyphensToDotsConcat(p0, "-" + (p1 + ("-" + p2)));
    HyphensToDotsConcat("-", p1 + ("-" + p2));
    HyphensToDotsConcat(p1, "-" + p2);
    HyphensToDotsConcat("-", p2);
    HyphensToDotsKeeps(p0);
    HyphensToDotsKeeps(p1);
    HyphensToDotsKeeps(p2);
  }

  lemma ShownPieces(dateStr: string)
    ensures var parts := Split(dateStr, '-');
      multiset(dateStr)['-'] == 2 ==>
        PartOr(parts, 0) + "." + PartOr(parts, 1) + "." + PartOr(parts, 2) == HyphensToDots(dateStr)
  {
    if multiset(dateStr)['-'] == 2 {
      var parts := Split(dateStr, '-');
      ThreePieces(dateStr);
      DotsOfPieces(parts[0], parts[1], parts[2]);
    }
  }

  /** The selected-date set after checking (`isChecked`) or unchecking one date:
      only that date's membership changes, and the count moves by at most one. */
  function Toggle(selected: set<string>, date: string, isChecked: bool): (next: set<string>)
    ensures date in next <==> isChecked
    ensures forall d :: d != date ==> (d in next <==> d in selected)
    ensures |next| == if isChecked && date !in selected then |selected| + 1
                      else if !isChecked && date in selected then |selected| - 1
                      else |selected|
  {
    if isChecked then selected + {date} else selected - {date}
  }

  /** Checking a date that was not selected and then unchecking it restores the set,
      and so does unchecking a selected date and checking it again. */
  lemma ToggleRoundTrip(selected: set<string>, date: string)
    ensures date !in selected ==> Toggle(Toggle(selected, date, true), date, false) == selected
    ensures date in selected ==> Toggle(Toggle(selected, date, false), date, true) == selected
  {
    var once := Toggle(selected, date, date !in selected);
    var twice := Toggle(once, date, date in selected);
    assert forall d :: d in twice <==> d in selected;
  }

  /** The roster offers date for selection: some meeting has it and is not excluded. */
  predicate Selectable(roster: seq<Meeting>, date: string) {
    exists i :: 0 <= i < |roster| && roster[i].date == date && !roster[i].exclude
  }

  predicate AllSelectable(roster: seq<Meeting>, selected: set<string>) {
    forall d :: d in selected ==> Selectable(roster, d)
  }

  /** The roster invariant on the selection holds as long as only offered dates are
      checked: unchecking is always safe. */
  lemma ToggleKeepsSelectable(roster: seq<Meeting>, selected: set<string>, date: string, isChecked: bool)
    requires AllSelectable(roster, selected)
    requires isChecked ==> Selectable(roster, date)
    ensures AllSelectable(roster, Toggle(selected, date, isChecked))
  {
  }
}
