/** The co-op eligibility rule applied when an employer marks a student as
    selected for a position: a GPA rule, two duration rules (weeks, total
    hours) and a tenure rule that depends on transfer status. Every rule is
    checked; each failing one contributes one reason, in that fixed order. */
module CoopEligibility {
  import IntText

  datatype Option<+T> = None | Some(value: T)

  /** The student fields the rule reads: a nullable GPA, a transfer flag and
      a nullable count of completed semesters. */
  datatype Student = Student(gpa: Option<real>, isTransfer: bool, semestersCompleted: Option<int>)

  /** The position fields the rule reads. */
  datatype Position = Position(weeks: int, hoursPerWeek: int)

  /** Why a student is not eligible. The duration reasons carry the number
      their message shows. */
  datatype Reason =
    | GpaLow
    | WeeksShort(weeks: int)
    | HoursShort(total: int)
    | TransferTenure
    | NonTransferTenure

  const MinGpa: real := 2.0
  const MinWeeks: int := 7
  const MinTotalHours: int := 140
  const MinTransferSemesters: int := 1
  const MinSemesters: int := 2

  /** An absent semester count counts as zero. */
  function SemestersOrZero(s: Student): int {
    match s.semestersCompleted
    case None => 0
    case Some(k) => k
  }

  /** The position's weeks times its hours per week. */
  function TotalHours(p: Position): int {
    p.weeks * p.hoursPerWeek
  }

  /** The requirements as the rule states them positively: a GPA of at
      least 2.0, at least 7 weeks and 140 hours in all, and at least one
      completed semester for a transfer student, two for any other. */
  predicate IsEligible(s: Student, p: Position) {
    s.gpa.Some? && s.gpa.value >= MinGpa &&
    p.weeks >= MinWeeks &&
    TotalHours(p) >= MinTotalHours &&
    SemestersOrZero(s) >= (if s.isTransfer then MinTransferSemesters else MinSemesters)
  }

  /** Whether reason `r` belongs to the verdict for `s` and `p`: each reason
      is tied to its own rule and to the inputs it mentions. */
  predicate Fails(r: Reason, s: Student, p: Position) {
    match r
    case GpaLow => !(s.gpa.Some? && s.gpa.value >= MinGpa)
    case WeeksShort(w) => w == p.weeks && w < MinWeeks
    case HoursShort(t) => t == TotalHours(p) && t < MinTotalHours
    case TransferTenure => s.isTransfer && SemestersOrZero(s) < MinTransferSemesters
    case NonTransferTenure => !s.isTransfer && SemestersOrZero(s) < MinSemesters
  }

  /** The position of a reason's rule in the check order. */
  function Rank(r: Reason): nat {
    match r
    case GpaLow => 0
    case WeeksShort(_) => 1
    case HoursShort(_) => 2
    case TransferTenure => 3
    case NonTransferTenure => 3
  }

  /** Reasons strictly in check order, hence at most one per rule. */
  predicate StrictlyRanked(rs: seq<Reason>) {
    forall i, j :: 0 <= i < j < |rs| ==> Rank(rs[i]) < Rank(rs[j])
  }

  /** The contribution of each check in turn: its reason when it fails,
      nothing otherwise. */
  function GpaCheck(s: Student): seq<Reason> {
    if s.gpa.None? || s.gpa.value < MinGpa then [GpaLow] else []
  }

  function WeeksCheck(p: Position): seq<Reason> {
    if p.weeks < MinWeeks then [WeeksShort(p.weeks)] else []
  }

  function HoursCheck(p: Position): seq<Reason> {
    var total := TotalHours(p);
    if total < MinTotalHours then [HoursShort(total)] else []
  }

  function TenureCheck(s: Student): seq<Reason> {
    var sc := SemestersOrZero(s);
    if s.isTransfer then
      (if sc < MinTransferSemesters then [TransferTenure] else [])
    else
      (if sc < MinSemesters then [NonTransferTenure] else [])
  }

  /** The reasons the rule collects: each check's contribution, in order.
      None is collected exactly when the requirements hold. */
  function Failures(s: Student, p: Position): (rs: seq<Reason>)
    ensures rs == [] <==> IsEligible(s, p)
    ensures |rs| <= 4
  {
    GpaCheck(s) + WeeksCheck(p) + HoursCheck(p) + TenureCheck(s)
  }

  const GpaLowMessage := "GPA below 2.0"
  const TransferTenureMessage := "Transfer student must have completed at least 1 semester"
  const NonTransferTenureMessage := "Non-transfer student must have completed at least 2 semesters"

  /** The f-string `f"Position weeks {weeks} < 7"`. */
  function WeeksShortMessage(weeks: int): string {
    "Position weeks " + IntText.IntToString(weeks) + " < 7"
  }

  /** The f-string `f"Total hours {total_hours} < 140"`. */
  function HoursShortMessage(total: int): string {
    "Total hours " + IntText.IntToString(total) + " < 140"
  }

  /** The message text each reason is reported with. */
  function Render(r: Reason): string {
    match r
    case GpaLow => GpaLowMessage
    case WeeksShort(w) => WeeksShortMessage(w)
    case HoursShort(t) => HoursShortMessage(t)
    case TransferTenure => TransferTenureMessage
    case NonTransferTenure => NonTransferTenureMessage
  }

  /** The message of each reason, in the same order. */
  function Messages(rs: seq<Reason>): seq<string> {
    seq(|rs|, i requires 0 <= i < |rs| => Render(rs[i]))
  }

  /** Appending a reason appends its message. */
  lemma MessagesSnoc(rs: seq<Reason>, r: Reason)
    ensures Messages(rs + [r]) == Messages(rs) + [Render(r)]
  {
    var a, b := Messages(rs + [r]), Messages(rs) + [Render(r)];
    assert |a| == |b|;
    forall i | 0 <= i < |a| ensures a[i] == b[i] {
      if i < |rs| {
        assert (rs + [r])[i] == rs[i];
      }
    }
  }

  /** The rule as the application runs it: start eligible with no reasons,
      then let each failing check clear the flag and append its message. */
  method CheckCoopEligibility(student: Student, position: Position)
    returns (eligible: bool, reasons: seq<string>)
    ensures eligible == IsEligible(student, position)
    ensures eligible <==> reasons == []
    ensures reasons == Messages(Failures(student, position))
  {
    reasons := [];
    eligible := true;
    // `found` is the list of reasons whose messages `reasons` holds. The
    // MessagesSnoc calls and the asserts after each block restate the state
    // reached so far in terms of GpaCheck, WeeksCheck, HoursCheck and
    // TenureCheck; without them the proof of the whole method is too costly.
    ghost var found: seq<Reason> := [];

    // GPA check
    if student.gpa.None? || student.gpa.value < 2.0 {
      eligible := false;
      reasons := reasons + [GpaLowMessage];
      MessagesSnoc(found, GpaLow);
      found := found + [GpaLow];
    }
    assert found == GpaCheck(student);
    ghost var before := found;
    assert reasons == Messages(found) && eligible == (|found| == 0);

    // weeks & hours
    if position.weeks < 7 {
      eligible := false;
      reasons := reasons + [WeeksShortMessage(position.weeks)];
      MessagesSnoc(found, WeeksShort(position.weeks));
      found := found + [WeeksShort(position.weeks)];
    }
    assert found == before + WeeksCheck(position);
    before := found;
    assert reasons == Messages(found) && eligible == (|found| == 0);

    var totalHours := position.weeks * position.hoursPerWeek;
    if totalHours < 140 {
      eligible := false;
      reasons := reasons + [HoursShortMessage(totalHours)];
      MessagesSnoc(found, HoursShort(totalHours));
      found := found + [HoursShort(totalHours)];
    }
    assert found == before + HoursCheck(position);
    before := found;
    assert reasons == Messages(found) && eligible == (|found| == 0);

    // semesters check
    var sc := match student.semestersCompleted case None => 0 case Some(k) => k;
    if student.isTransfer {
      if sc < 1 {
        eligible := false;
        reasons := reasons + [TransferTenureMessage];
        MessagesSnoc(found, TransferTenure);
        found := found + [TransferTenure];
      }
    } else {
      if sc < 2 {
        eligible := false;
        reasons := reasons + [NonTransferTenureMessage];
        MessagesSnoc(found, NonTransferTenure);
        found := found + [NonTransferTenure];
      }
    }
    assert found == before + TenureCheck(student);
    assert reasons == Messages(found) && eligible == (|found| == 0);
    assert found == Failures(student, position);
  }
}
