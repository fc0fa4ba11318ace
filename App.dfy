/** The state of the `App` component and the two handlers that change it. */
module App {
  import opened Types
  import opened Text
  import opened Awards
  import opened Tenure
  import opened Meetings

  /** Why a calculation was refused; App.tsx shows each as an alert. */
  datatype Alert = MissingNameOrJoinDate | NoDatesSelected

  /** The text of each alert, an exclamation that asks for the missing input. */
  function AlertMessage(a: Alert): (message: string)
    ensures message != [] && message[|message| - 1] == '!'
  {
    match a
    case MissingNameOrJoinDate => "이름과 가입 날짜를 입력해주세요!"
    case NoDatesSelected => "참석한 날짜를 선택해주세요!"
  }

  /** The two alerts differ, so the user can tell which check refused the calculation. */
  lemma AlertMessagesDistinct(a: Alert, b: Alert)
    ensures AlertMessage(a) == AlertMessage(b) <==> a == b
  {
    if a != b {
      assert AlertMessage(a)[0] != AlertMessage(b)[0];
    }
  }

  /** The label as `calculateAwards` builds it, one part at a time: the years part,
      the separating space when both parts appear, the months part, and the
      zero-month label in place of all of them. It is the live tenure label. */
  method PeriodText(totalMonths: nat) returns (periodText: string)
    ensures periodText == TenureLabel(totalMonths)
  {
    periodText := "";
    var years, months := totalMonths / 12, totalMonths % 12;
    if years > 0 {
      periodText := periodText + NatToString(years) + "년";
    }
    if months > 0 {
      if years > 0 {
        periodText := periodText + " ";
      }
      periodText := periodText + NatToString(months) + "개월";
    }
    if totalMonths == 0 {
      periodText := UnderAMonth;
    }
    assert years > 0 && months > 0 ==> periodText == NatToString(years) + ("년 " + (NatToString(months) + "개월"));
  }

  /** The component's state: the name and join date typed in, the year filter, the
      set of checked meeting dates, and the last result shown (None before the first
      successful calculation). */
  class AwardApp {
    var memberName: string
    var joinDate: string
    var currentFilter: string
    var selectedDates: set<string>
    var results: Option<ResultsData>

    constructor ()
      ensures memberName == "" && joinDate == "" && currentFilter == "all"
      ensures selectedDates == {} && results == None
    {
      memberName, joinDate, currentFilter := "", "", "all";
      selectedDates, results := {}, None;
    }

    /** `handleCheckboxChange`: copies the selection, adds or deletes the date, and
        installs the copy. */
    method HandleCheckboxChange(date: string, isChecked: bool)
      modifies this`selectedDates
      ensures selectedDates == Toggle(old(selectedDates), date, isChecked)
    {
      var newSelectedDates := selectedDates;
      if isChecked {
        newSelectedDates := newSelectedDates + {date};
      } else {
        newSelectedDates := newSelectedDates - {date};
      }
      selectedDates := newSelectedDates;
    }

    /** `calculateAwards`. `elapsed` is the whole-month count the date arithmetic
        gives for `joinDate`, None when `joinDate` does not parse (NaN in App.tsx).
        A refused calculation leaves the previous result in place. */
    method CalculateAwards(elapsed: Option<nat>) returns (alert: Option<Alert>)
      modifies this`results
      ensures memberName == "" || joinDate == "" ==>
        alert == Some(MissingNameOrJoinDate) && results == old(results)
      ensures memberName != "" && joinDate != "" && selectedDates == {} ==>
        alert == Some(NoDatesSelected) && results == old(results)
      ensures memberName != "" && joinDate != "" && selectedDates != {} ==>
        alert == None && results.Some? &&
        results.value.name == memberName &&
        results.value.attendanceCount == |selectedDates| &&
        match elapsed
        case Some(totalMonths) =>
          results.value.periodText == TenureLabel(totalMonths) &&
          results.value.awards == AwardsFor(totalMonths, |selectedDates|)
        case None =>
          results.value.periodText == "" && results.value.awards == []
    {
      if memberName == "" || joinDate == "" {
        return Some(MissingNameOrJoinDate);
      }

      var attendanceCount := |selectedDates|;
      if attendanceCount == 0 {
        return Some(NoDatesSelected);
      }

      var awards: seq<Award>;
      var periodText: string;
      match elapsed {
        case None =>
          // Every comparison with NaN is false: no rule applies and no label part is added.
          awards := [];
          periodText := "";
        case Some(totalMonths) =>
          awards := GetAwards(totalMonths, attendanceCount);

          periodText := PeriodText(totalMonths);
      }

      results := Some(ResultsData(memberName, periodText, attendanceCount, awards));
      alert := None;
    }
  }
}
