# Co-op eligibility rule

A model of the co-op eligibility rule of the internship management
application. When an employer marks a student as selected for a position,
the application decides whether the student can take the internship for
co-op credit. It returns a verdict and the list of reasons for any failure.

There are four checks. Each one runs whatever the others found:

1. **GPA**: the GPA must be present and at least 2.0.
2. **Weeks**: the position must last at least 7 weeks.
3. **Hours**: weeks times hours per week must be at least 140.
4. **Tenure**: a transfer student must have completed at least 1 semester,
   and any other student at least 2. An absent count is treated as 0.

Each failing check clears the verdict and appends one message. The weeks and
hours messages include the offending number.

Files:

- `IntText.dfy` (module `IntText`): the decimal text of an integer, as
  Python's `str` writes it inside the f-string messages. A parser reads the
  text back, and the two are proved inverse.
- `Eligibility.dfy` (module `CoopEligibility`):
  - the student and position fields the rule reads;
  - the `Reason` datatype, with one constructor per message;
  - the specification `Failures`, which is each check's contribution in order;
  - the docstring's positive statement of the requirements, `IsEligible`;
  - a per-reason characterisation, `Fails`;
  - the rendering of reasons to the exact message strings;
  - `CheckCoopEligibility`, the imperative method. Like the original, it
    starts from an empty list and a true flag, then runs four sequential
    `if` blocks that append and clear.
- `EligibilityProperties.dfy` (module `CoopEligibilityProperties`): lemmas
  about the rule. They cover membership, independence, order, uniqueness,
  the message texts and the two seeded sample cases.

Modelling choices:

- `gpa` is `Option<real>`, an exact real. The original compares a float
  with 2.0 and does no arithmetic on it.
- `semesters_completed` is `Option<int>`.
- `weeks` and `hours_per_week` are unbounded `int`s, like Python's. The
  rule itself does not assume they are positive, so the model has no
  precondition.
- The student and position are immutable datatype values. The method
  has no `modifies` clause, so it cannot change them.

What the code does at the edges:

- At most one tenure message appears, and none when the tenure requirement
  is met (`AtMostOneTenureReason`, `TenureRule`).
- Nothing stops the semester count from being negative. A negative count is
  below both tenure thresholds, so it fails for transfer and non-transfer
  students alike (`TenureRule`).

## Model

| member | source | states |
|---|---|---|
| `CoopEligibility.CheckCoopEligibility` | app.py:142-178 | The flag and list built step by step. The flag is true exactly when the docstring's requirements hold, and exactly when the list is empty. The list is the messages of the specified reasons, in order. Total on every input; changes nothing. |
| `CoopEligibility.IsEligible` | app.py:143-149 | Defines the docstring's requirements stated positively: a GPA that is present and at least 2.0, at least 7 weeks, at least 140 hours in all, and at least 1 completed semester for a transfer student or 2 for any other. |
| `CoopEligibility.SemestersOrZero` | app.py:168 | Defines the semester count the tenure check uses: 0 when the count is absent, the count itself otherwise. |
| `CoopEligibility.TotalHours` | app.py:162 | Defines the total hours as weeks times hours per week, in unbounded integers. |
| `CoopEligibility.Fails` | app.py:153-176 | Defines, reason by reason, when that reason belongs to the result. Each reason depends on its own rule's inputs only, and the duration reasons on the exact number they carry. |
| `CoopEligibility.GpaCheck` | app.py:153-156 | Defines the GPA block's contribution: `GpaLow` when the GPA is absent or below 2.0, nothing otherwise. |
| `CoopEligibility.WeeksCheck` | app.py:158-161 | Defines the weeks block's contribution: `WeeksShort(weeks)` when weeks < 7, nothing otherwise. |
| `CoopEligibility.HoursCheck` | app.py:162-165 | Defines the hours block's contribution: `HoursShort(total)` when the total is below 140, nothing otherwise. |
| `CoopEligibility.TenureCheck` | app.py:167-176 | Defines the tenure block's contribution: the transfer reason below 1 semester for a transfer student, the non-transfer reason below 2 for any other, nothing otherwise. |
| `CoopEligibility.Failures` | app.py:150-176 | The reason list, made of the four blocks' contributions in order. Its contract says the list is empty exactly when the requirements of `IsEligible` hold, and it has at most four entries. |
| `CoopEligibility.WeeksShortMessage` | app.py:161 | Defines the text `Position weeks {weeks} < 7`, with the week count written as Python's `str` writes it. |
| `CoopEligibility.HoursShortMessage` | app.py:165 | Defines the text `Total hours {total} < 140`, with the total written as Python's `str` writes it. |
| `CoopEligibility.Render` | app.py:154-176 | Defines each reason's message. Three messages are the fixed texts of lines 156, 172 and 176; the other two are the formatted texts of lines 161 and 165. |
| `CoopEligibilityProperties.FailuresExactly` | app.py:153-176 | A reason is collected if and only if its own rule fails, with the numbers it carries equal to the inputs'. No check is short-circuited. |
| `CoopEligibilityProperties.GpaRule` | app.py:154-156 | "GPA below 2.0" is present exactly when the GPA is absent or below 2.0, whatever the other fields are. |
| `CoopEligibilityProperties.AbsentGpaActsAsLow` | app.py:154-156 | An absent GPA yields the same reason list as any GPA below 2.0. |
| `CoopEligibilityProperties.WeeksRule` | app.py:159-161 | The weeks reason is present exactly when weeks < 7, and it carries the actual week count. |
| `CoopEligibilityProperties.HoursRule` | app.py:162-165 | The hours reason is present exactly when weeks times hours per week is below 140, and it carries that total. |
| `CoopEligibilityProperties.ShortPositionFailsBoth` | app.py:159-165 | A position of 6 weeks at 20 hours yields both duration reasons, the second with total 120. |
| `CoopEligibilityProperties.AbsentSemestersAsZero` | app.py:168 | An absent semester count yields the same reasons as a count of 0. |
| `CoopEligibilityProperties.TenureRule` | app.py:168-176 | The transfer reason is present exactly for a transfer student below 1 semester. The non-transfer reason is present exactly for any other student below 2. |
| `CoopEligibilityProperties.AtMostOneTenureReason` | app.py:169-176 | The two tenure reasons never appear together. |
| `CoopEligibilityProperties.RulesAreIndependent` | app.py:153-176 | Whether a rule's reason is present depends only on that rule's inputs: the GPA, the weeks, the total hours, or the transfer flag with the semester count. |
| `CoopEligibilityProperties.FailuresInCheckOrder` | app.py:150-176 | Reasons appear in the check order GPA, weeks, hours, tenure, and there are at most four. |
| `CoopEligibilityProperties.FailuresDistinct` | app.py:153-176 | The reason list has no duplicates. |
| `CoopEligibilityProperties.FailuresDetermined` | app.py:150-178 | Any list in check order whose members are exactly the failing rules' reasons equals the list the rule returns. |
| `CoopEligibilityProperties.SameMembersInOrderEqual` | app.py:153-176 | Two lists in check order with the same members are equal. So the order fixed by the four sequential checks pins the list down. |
| `CoopEligibilityProperties.RenderInjective` | app.py:156-176 | Different reasons have different message strings, including the numbers they show. |
| `CoopEligibilityProperties.MessageRule` | app.py:150-178 | A message string is in the returned list exactly when its reason's rule fails. |
| `CoopEligibilityProperties.MessagesDistinct` | app.py:150-178 | The returned message list has no duplicates. |
| `CoopEligibilityProperties.SampleEligible` | app.py:430-442 | The seeded student (GPA 3.1, 2 semesters, not a transfer) on the 8-week, 20-hour position gives `(true, [])`. |
| `CoopEligibilityProperties.SampleIneligible` | app.py:433-444 | The seeded student (GPA 1.8, 3 semesters, not a transfer) on the 6-week, 20-hour position gives false with `["GPA below 2.0", "Position weeks 6 < 7", "Total hours 120 < 140"]`. |
| `CoopEligibilityProperties.SampleMessageTexts` | app.py:161-165 | The weeks message for 6 and the hours message for 120 are the literal texts shown above. |
| `IntText.NatToString` | app.py:161 | The text of a natural number is all digits, with a leading zero only in "0". |
| `IntText.IntToString` | app.py:161-165 | The text of an integer is canonical decimal and starts with '-' exactly for negative numbers. |
| `IntText.IntRoundTrip` | app.py:161-165 | Parsing the text of any integer gives back that integer. |
| `IntText.ParseIntRoundTrip` | app.py:161-165 | Every canonical decimal text is the text of the integer it denotes. |
| `IntText.IntToStringInjective` | app.py:161-165 | Different integers have different texts, so the numbers in the duration messages can be recovered. |

## Left out

- The web routes, templates, flash messages and redirects (app.py:181-419) are user-interface plumbing.
- The database models, sessions and commits are left out. This covers the status updates on selection (app.py:305-308) and the duplicate-application lookup (app.py:276-283), which are thin queries in a persistence library.
- Password hashing and login sessions are left out (app.py:47-51); they are calls into foreign libraries.
- The form validators are declarative library configuration (app.py:97-139). The rule does not need their guarantee that weeks and hours per week are at least 1, so the model does not assume it.
- The simulated email, the `"; ".join(reasons)` formatting and the console output (app.py:315-327) are output I/O.
- The text-search queries (app.py:406-419) and the database seeding and server start-up (app.py:422-454) are left out. The seeded values appear only as the two sample lemmas.
- Floating-point GPA is left out: the model compares an exact real with 2.0. The model does not capture the float values that compare false with everything (a NaN GPA would pass the Python check).
- `is_transfer` is a `bool`. The column has a default of False but can hold NULL, and Python treats NULL like False in `if student.is_transfer`. A NULL flag therefore behaves as a non-transfer student, which is what the model's `false` gives.
