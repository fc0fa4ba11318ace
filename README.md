# Award calculator of the reading-club anniversary app, in Dafny

The app (App.tsx, types.ts) lets a member type a name and a join date, tick the
past meetings they attended, and see which anniversary awards they earned. This
project models its logic:

- the award engine `getAwards`: two rule groups, each keeping only its first
  matching rule, Group A (King / Champion / Achiever, tenure and attendance
  together) ahead of Group B (Master / Mentor / Coach, attendance below a tenure
  ceiling) — module `Awards`;
- the tenure label (`"{years}년 {months}개월"`, `"1개월 미만"` for zero, `"0"` with no
  usable join date) — module `Tenure`;
- the year filter over the meeting roster, the `YYYY.MM.DD` date display and the
  attendance toggle — module `Meetings`;
- the component state (`memberName`, `joinDate`, `currentFilter`, `selectedDates`,
  `results`) as the class `App.AwardApp`, with `handleCheckboxChange` and
  `calculateAwards` as methods that update its fields;
- the JavaScript string operations these rely on (`startsWith`, `split`, number
  rendering in template literals) — module `Text`; the records of types.ts — module
  `Types`.

The rule tables `Awards.GroupA` and `Awards.GroupB` are an explicit, ordered reference
definition of the award rules; `Awards.GetAwards` keeps the if/else-if ladders of the
source and is proved equal to the tables' first matches. `Tenure.ParseLabel` reads a
label back into its month count, scanning digits from the left; it is the label's
inverse and is not part of the app. It reads exactly the labels the app writes, so the
two lemmas about it pin the label down completely.

Inputs instead of derivations: the whole-month count is a parameter (`nat`, or
`Option<nat>` where the join date may not parse — `None` stands for the NaN that
`new Date` yields), and the meeting roster is a parameter `seq<Meeting>`.

Consequences of App.tsx as written, which the model keeps:

- Group A is an if/else-if ladder checked from the highest award down, so (40 months,
  110 meetings) gives Champion Award and Master: 40 ≥ 36 and 110 ≥ 70 meet the Champion
  rule at App.tsx:113 before the Achiever rule is reached.
- For the same reason (59, 100) gives Champion Award and Master.
- The toggle does not refuse excluded dates itself; only the disabled checkbox keeps
  them out (App.tsx:209). `Meetings.ToggleKeepsSelectable` states what that guard
  guarantees.
- In `calculateAwards` a join date that is present but does not parse gives an empty
  period text and no awards (every comparison with NaN is false, App.tsx:79-98), while
  the live label shows `"0"` for it (App.tsx:24). Both are modelled as written.

## Model

| member | source | states |
|---|---|---|
| Awards.FirstMatch | App.tsx:111-125 | the award of a rule table is given iff some rule applies, and it is the award of the first rule that applies |
| Awards.GroupALadder | App.tsx:111-117 | the Group A table yields King if months ≥ 60 and count ≥ 100, else Champion if ≥ 36 and ≥ 70, else Achiever if ≥ 12 and ≥ 25, else nothing |
| Awards.GroupBLadder | App.tsx:119-125 | the Group B table yields Master if count ≥ 100 and months < 60, else Mentor if ≥ 70 and < 36, else Coach if ≥ 50 and < 36, else nothing |
| Awards.GetAwards | App.tsx:108-128 | the two if/else-if ladders with their pushes produce exactly the first match of Group A followed by the first match of Group B |
| Awards.AwardsShape | App.tsx:108-128 | at most two awards, each from Group A or Group B, and any Group A award comes before any Group B award |
| Awards.GroupAChoice | App.tsx:111-117 | King is given iff months ≥ 60 and count ≥ 100; Champion iff King's test fails and months ≥ 36, count ≥ 70; Achiever iff both fail and months ≥ 12, count ≥ 25 |
| Awards.GroupBChoice | App.tsx:119-125 | Master iff count ≥ 100 and months < 60; Mentor iff Master's test fails and count ≥ 70, months < 36; Coach iff both fail and count ≥ 50, months < 36 |
| Awards.AwardTiers | App.tsx:111-125 | every award given is gold iff King or Master, silver iff Champion or Mentor, bronze iff Achiever or Coach |
| Awards.NoAwards | App.tsx:108-128 | the result is empty iff not (months ≥ 12 and count ≥ 25), not (count ≥ 100 and months < 60) and not (count ≥ 50 and months < 36) |
| Awards.BoundaryExamples | App.tsx:111-117 | (60, 100) gives King, (36, 70) Champion, (12, 25) Achiever: the thresholds are inclusive |
| Awards.CeilingExamples | App.tsx:111-125 | (59, 100) gives Champion and Master, (70, 120) only King, (40, 110) Champion and Master, (0, 1) nothing |
| Text.NatToString | App.tsx:35 | a number renders as a non-empty run of decimal digits with no leading zero |
| Text.AppendDigitsOfNatToString | App.tsx:35 | reading the rendering of n back, digit by digit from the left, gives n |
| Text.StartsWith | App.tsx:49 | `s.startsWith(prefix)` holds iff prefix is no longer than s and agrees with s character by character; s is then prefix followed by the rest |
| Text.Split | App.tsx:63 | `split` on one character gives one more piece than there are separators, none containing the separator |
| Text.JoinSplit | App.tsx:63 | joining the pieces of a split with the separator gives the original string |
| Tenure.TenureLabel | App.tsx:30-44 | the tenure label is never empty |
| Tenure.LabelRoundTrip | App.tsx:30-44 | the label determines the month count (reading it back gives the count), and is never `"0"` |
| Tenure.LabelParts | App.tsx:33-40 | for a nonzero count m, `년` appears iff m/12 > 0 and the label then starts with `{m/12}년`; `개월` appears iff m%12 > 0 and the label then ends with `{m%12}개월`; the space appears iff both |
| Tenure.OnlyLabelsRead | App.tsx:30-44 | every string read back as a count t is exactly the label written for t; with LabelRoundTrip, labels and month counts correspond one to one |
| Tenure.NonLabelsRefused | App.tsx:30-44 | near-miss strings that the app never writes (`0년 14개월`, `1년 02개월`, `14개월`) are not read as labels |
| Tenure.LabelExamples | App.tsx:30-44 | 0 months gives `1개월 미만`, 14 gives `1년 2개월`, 24 gives `2년` |
| Tenure.MemberYearsText | App.tsx:21-45 | the live label is `"0"` iff the join date is empty or does not parse; otherwise it reads back as the elapsed month count |
| Meetings.KeepWithPrefix | App.tsx:49 | the prefix filter keeps an order-preserving subsequence, holding every entry whose date starts with the prefix as often as the roster does and no other entry |
| Meetings.FilteredMeetings | App.tsx:47-50 | `"all"` gives the roster unchanged; any other filter gives, in roster order, exactly the entries whose date starts with it, possibly none |
| Meetings.FormatDate | App.tsx:62-65 | a date with exactly two hyphens is shown with each hyphen replaced by a dot, every other character in place; a date without hyphens is shown followed by `.undefined.undefined` (the missing pieces of the destructuring) |
| Meetings.Toggle | App.tsx:52-60 | after the toggle the date is selected iff the box was checked, no other date changes, and the count grows or shrinks by one only when membership changed |
| Meetings.ToggleRoundTrip | App.tsx:52-60 | checking an unselected date then unchecking it restores the set, and so does unchecking a selected date then checking it |
| Meetings.ToggleKeepsSelectable | App.tsx:203-210 | if only non-excluded roster dates are ever checked, the selection stays within the non-excluded roster dates |
| App.AlertMessage | App.tsx:68-77 | each alert text is a non-empty exclamation ending in `!` |
| App.AlertMessagesDistinct | App.tsx:67-78 | the two alert texts differ, so each refusal is told apart |
| App.PeriodText | App.tsx:86-98 | the label `calculateAwards` assembles part by part is exactly the tenure label of the same month count (and so reads back as that count) |
| App.AwardApp.constructor | App.tsx:7-11 | the session starts with empty name and date, filter `"all"`, no selection and no result |
| App.AwardApp.HandleCheckboxChange | App.tsx:52-60 | the selection becomes the toggled copy of the old selection; no other field changes |
| App.AwardApp.CalculateAwards | App.tsx:67-106 | an empty name or join date, or an empty selection, gives the matching alert and keeps the previous result; otherwise the result holds the name, the selection size as count, the live label for the same month count and the awards of the rule tables for that count and size (an unparseable date: empty label, no awards) |

## Left out

- Date parsing and the month approximation (`new Date`, `getTime`, `Math.abs`, division by 30.44 days, `Math.round`, App.tsx:23-28, 79-82): floating point; the whole-month count is an input.
- The meeting roster `meetingData` (App.tsx:3): its module is not part of this model; the roster is a parameter.
- React plumbing: `useState` setters, `useMemo` caching, `useRef` and the `useEffect` that scrolls the result into view (App.tsx:7-19); the `onChange` handlers that set `memberName`, `joinDate` and `currentFilter` are plain assignments to the class fields.
- `alert` (App.tsx:69, 75): modelled as the returned `Alert` value, not as I/O.
- All JSX rendering, `awardCardStyles` and `filterButtons` (App.tsx:130-264): presentation only.
- The `disabled={meeting.exclude}` guard (App.tsx:209): enforced only by the UI; the toggle itself accepts any date.
