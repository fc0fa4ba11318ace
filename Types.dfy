/** The record types of the award app (types.ts) and a small Option wrapper. */
module Types {

  datatype Option<+T> = None | Some(value: T)

  /** One past meeting of the roster: its ISO date `YYYY-MM-DD`, the book read, and
      whether the meeting is excluded from selection. */
  datatype Meeting = Meeting(date: string, book: string, exclude: bool)

  /** The three award tiers, `'gold' | 'silver' | 'bronze'`. */
  datatype Tier = Gold | Silver | Bronze

  datatype Award = Award(name: string, tier: Tier, description: string)

  /** What one successful calculation shows: the member, the tenure label, the
      number of selected meetings and the awards earned, in evaluation order. */
  datatype ResultsData = ResultsData(name: string, periodText: string, attendanceCount: nat, awards: seq<Award>)
}
