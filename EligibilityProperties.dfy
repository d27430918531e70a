/** What the co-op eligibility rule guarantees: which reasons appear and
    why, their order, that the rules do not interfere, that the messages
    identify the reasons, and the two sample cases of the seeded data. */
module CoopEligibilityProperties {
  import IntText
  import opened CoopEligibility

  // ----- membership: each reason appears exactly when its rule fails -----

  /** The reasons collected are exactly those whose rule fails: no rule is
      short-circuited by another, and nothing else is added. */
  lemma FailuresExactly(s: Student, p: Position)
    ensures forall r :: r in Failures(s, p) <==> Fails(r, s, p)
  {
    forall r ensures r in Failures(s, p) <==> Fails(r, s, p) {
      var g, w, h, t := GpaCheck(s), WeeksCheck(p), HoursCheck(p), TenureCheck(s);
      assert Failures(s, p) == g + w + h + t;
      assert r in g + w + h + t <==> r in g || r in w || r in h || r in t;
    }
  }

  /** An absent GPA, or one below 2.0, yields "GPA below 2.0", whatever the
      other fields are; any other GPA does not. */
  lemma GpaRule(s: Student, p: Position)
    ensures GpaLow in Failures(s, p) <==> s.gpa.None? || s.gpa.value < 2.0
  {
    FailuresExactly(s, p);
  }

  /** An absent GPA has the same effect as any GPA below 2.0. */
  lemma AbsentGpaActsAsLow(s: Student, p: Position, g: real)
    requires g < 2.0
    ensures Failures(s.(gpa := None), p) == Failures(s.(gpa := Some(g)), p)
  {
  }

  /** A position of fewer than 7 weeks yields the weeks reason, carrying the
      position's own week count. */
  lemma WeeksRule(s: Student, p: Position, w: int)
    ensures WeeksShort(w) in Failures(s, p) <==> w == p.weeks && p.weeks < 7
  {
    FailuresExactly(s, p);
  }

  /** A position of fewer than 140 hours in all (weeks times hours per week)
      yields the hours reason, carrying that total. */
  lemma HoursRule(s: Student, p: Position, t: int)
    ensures HoursShort(t) in Failures(s, p) <==>
            t == p.weeks * p.hoursPerWeek && t < 140
  {
    FailuresExactly(s, p);
  }

  /** Both duration rules fire together on 6 weeks of 20 hours. */
  lemma ShortPositionFailsBoth(s: Student, p: Position)
    requires p.weeks == 6 && p.hoursPerWeek == 20
    ensures WeeksShort(6) in Failures(s, p) && HoursShort(120) in Failures(s, p)
  {
    WeeksRule(s, p, 6);
    HoursRule(s, p, 120);
  }

  /** An absent semester count is treated as zero completed semesters. */
  lemma AbsentSemestersAsZero(s: Student, p: Position)
    ensures Failures(s.(semestersCompleted := None), p) ==
            Failures(s.(semestersCompleted := Some(0)), p)
  {
  }

  /** A transfer student needs one completed semester, any other student
      two; each kind of student can fail only its own tenure rule. */
  lemma TenureRule(s: Student, p: Position)
    ensures TransferTenure in Failures(s, p) <==> s.isTransfer && SemestersOrZero(s) < 1
    ensures NonTransferTenure in Failures(s, p) <==> !s.isTransfer && SemestersOrZero(s) < 2
  {
    FailuresExactly(s, p);
  }

  /** At most one of the two tenure reasons ever appears. */
  lemma AtMostOneTenureReason(s: Student, p: Position)
    ensures !(TransferTenure in Failures(s, p) && NonTransferTenure in Failures(s, p))
  {
    TenureRule(s, p);
  }

  /** Whether a rule's reason appears depends only on the inputs that rule
      reads: the GPA; the week count; the total hours; the transfer flag and
      the semester count. */
  lemma RulesAreIndependent(s1: Student, p1: Position, s2: Student, p2: Position, r: Reason)
    ensures r.GpaLow? && s1.gpa == s2.gpa ==>
            (r in Failures(s1, p1) <==> r in Failures(s2, p2))
    ensures r.WeeksShort? && p1.weeks == p2.weeks ==>
            (r in Failures(s1, p1) <==> r in Failures(s2, p2))
    ensures r.HoursShort? && TotalHours(p1) == TotalHours(p2) ==>
            (r in Failures(s1, p1) <==> r in Failures(s2, p2))
    ensures (r.TransferTenure? || r.NonTransferTenure?) &&
            s1.isTransfer == s2.isTransfer && SemestersOrZero(s1) == SemestersOrZero(s2) ==>
            (r in Failures(s1, p1) <==> r in Failures(s2, p2))
  {
    FailuresExactly(s1, p1);
    FailuresExactly(s2, p2);
  }

  // ----- order and shape of the reason list -----

  /** The reasons follow the check order GPA, weeks, hours, tenure, so at
      most four appear. */
  lemma FailuresInCheckOrder(s: Student, p: Position)
    ensures StrictlyRanked(Failures(s, p))
    ensures |Failures(s, p)| <= 4
  {
    var rs := Failures(s, p);
    forall i, j | 0 <= i < j < |rs| ensures Rank(rs[i]) < Rank(rs[j]) {
      FailuresExactly(s, p);
      assert Fails(rs[i], s, p) && Fails(rs[j], s, p);
    }
  }

  /** A list in check order holds each reason at most once. */
  lemma StrictlyRankedDistinct(rs: seq<Reason>)
    requires StrictlyRanked(rs)
    ensures forall i, j :: 0 <= i < j < |rs| ==> rs[i] != rs[j]
  {
  }

  /** The reason list has no duplicates. */
  lemma FailuresDistinct(s: Student, p: Position)
    ensures forall i, j :: 0 <= i < j < |Failures(s, p)| ==>
            Failures(s, p)[i] != Failures(s, p)[j]
  {
    FailuresInCheckOrder(s, p);
    StrictlyRankedDistinct(Failures(s, p));
  }

  /** The head of a nonempty list is one of its members. Stated as a lemma
      so that the impossible case of SameMembersInOrderEqual can end in a
      bare `assert false`. */
  lemma HeadIsMember(q: seq<Reason>)
    requires q != []
    ensures q[0] in q
  {
  }

  /** The head of a list in check order has the least rank, and is the only
      member with that rank. */
  lemma HeadRanksFirst(q: seq<Reason>, x: Reason)
    requires StrictlyRanked(q) && x in q
    ensures Rank(q[0]) <= Rank(x)
    ensures Rank(x) == Rank(q[0]) ==> x == q[0]
  {
    var i :| 0 <= i < |q| && q[i] == x;
    if i > 0 {
      assert Rank(q[0]) < Rank(q[i]);
    }
  }

  /** Two lists in check order with the same members are the same list. */
  lemma {:induction false} SameMembersInOrderEqual(q1: seq<Reason>, q2: seq<Reason>)
    requires StrictlyRanked(q1) && StrictlyRanked(q2)
    requires forall r :: r in q1 <==> r in q2
    ensures q1 == q2
    decreases |q1|
  {
    if q1 == [] {
      if q2 != [] {
        HeadIsMember(q2);
        assert false;
      }
    } else {
      var a := q1[0];
      assert a in q2;
      var b := q2[0];
      HeadRanksFirst(q1, b);
      HeadRanksFirst(q2, a);
      var t1, t2 := q1[1..], q2[1..];
      forall r ensures r in t1 <==> r in t2 {
        if r in t1 {
          var i :| 0 <= i < |t1| && t1[i] == r;
          assert q1[i + 1] == r && Rank(a) < Rank(r);
          assert r in q2;
        }
        if r in t2 {
          var i :| 0 <= i < |t2| && t2[i] == r;
          assert q2[i + 1] == r && Rank(b) < Rank(r);
          assert r in q1;
        }
      }
      SameMembersInOrderEqual(t1, t2);
      assert q1 == [a] + t1 && q2 == [b] + t2;
    }
  }

  /** The reason list is the only list in check order whose members are
      exactly the failing rules' reasons: the rules determine it. */
  lemma FailuresDetermined(s: Student, p: Position, q: seq<Reason>)
    requires StrictlyRanked(q)
    requires forall r :: r in q <==> Fails(r, s, p)
    ensures q == Failures(s, p)
  {
    FailuresExactly(s, p);
    FailuresInCheckOrder(s, p);
    SameMembersInOrderEqual(q, Failures(s, p));
  }

  // ----- the message texts -----

  /** The last two characters of each reason's message. */
  function MessageEnd(r: Reason): (char, char) {
    match r
    case GpaLow => ('.', '0')
    case WeeksShort(_) => (' ', '7')
    case HoursShort(_) => ('4', '0')
    case TransferTenure => ('e', 'r')
    case NonTransferTenure => ('r', 's')
  }

  lemma RenderEnd(r: Reason)
    ensures |Render(r)| >= 2
    ensures (Render(r)[|Render(r)| - 2], Render(r)[|Render(r)| - 1]) == MessageEnd(r)
  {
    match r
    case WeeksShort(w) =>
      assert Render(r) == ("Position weeks " + IntText.IntToString(w)) + " < 7";
    case HoursShort(t) =>
      assert Render(r) == ("Total hours " + IntText.IntToString(t)) + " < 140";
    case _ =>
  }

  lemma StripAffixes(pre: string, x: string, y: string, suf: string)
    requires pre + x + suf == pre + y + suf
    ensures x == y
  {
    var m := pre + x + suf;
    assert |x| == |y|;
    assert x == m[|pre|..|pre| + |x|];
    assert y == (pre + y + suf)[|pre|..|pre| + |y|];
  }

  /** Distinct reasons have distinct messages, so the message list
      identifies the reasons, including the numbers they carry. */
  lemma RenderInjective(r1: Reason, r2: Reason)
    ensures Render(r1) == Render(r2) ==> r1 == r2
  {
    if Render(r1) == Render(r2) {
      RenderEnd(r1);
      RenderEnd(r2);
      assert MessageEnd(r1) == MessageEnd(r2);
      match r1
      case WeeksShort(a) =>
        var b := r2.weeks;
        StripAffixes("Position weeks ", IntText.IntToString(a), IntText.IntToString(b), " < 7");
        IntText.IntToStringInjective(a, b);
      case HoursShort(a) =>
        var b := r2.total;
        StripAffixes("Total hours ", IntText.IntToString(a), IntText.IntToString(b), " < 140");
        IntText.IntToStringInjective(a, b);
      case _ =>
    }
  }

  /** A message appears in the returned list exactly when its reason's rule
      fails. */
  lemma MessageRule(s: Student, p: Position)
    ensures forall r :: Render(r) in Messages(Failures(s, p)) <==> Fails(r, s, p)
  {
    FailuresExactly(s, p);
    var rs := Failures(s, p);
    var ms := Messages(rs);
    forall r ensures Render(r) in ms <==> Fails(r, s, p) {
      if Render(r) in ms {
        var i :| 0 <= i < |ms| && ms[i] == Render(r);
        RenderInjective(rs[i], r);
        assert rs[i] == r;
      }
      if Fails(r, s, p) {
        var i :| 0 <= i < |rs| && rs[i] == r;
        assert ms[i] == Render(r);
      }
    }
  }

  /** The returned message list has no duplicates. */
  lemma MessagesDistinct(s: Student, p: Position)
    ensures forall i, j :: 0 <= i < j < |Messages(Failures(s, p))| ==>
            Messages(Failures(s, p))[i] != Messages(Failures(s, p))[j]
  {
    var rs := Failures(s, p);
    FailuresDistinct(s, p);
    forall i, j | 0 <= i < j < |Messages(rs)| ensures Messages(rs)[i] != Messages(rs)[j] {
      RenderInjective(rs[i], rs[j]);
    }
  }

  // ----- the seeded sample data -----

  /** The seeded eligible student (GPA 3.1, two semesters, not a transfer)
      on the seeded 8-week, 20-hour position. */
  lemma SampleEligible()
    ensures IsEligible(Student(Some(3.1), false, Some(2)), Position(8, 20))
    ensures Messages(Failures(Student(Some(3.1), false, Some(2)), Position(8, 20))) == []
  {
  }

  lemma SampleMessageTexts()
    ensures Render(WeeksShort(6)) == "Position weeks 6 < 7"
    ensures Render(HoursShort(120)) == "Total hours 120 < 140"
  {
    assert IntText.IntToString(6) == "6";
    assert IntText.NatToString(12) == "12";
    assert IntText.IntToString(120) == "120";
  }

  /** The seeded student with GPA 1.8 (three semesters, not a transfer) on
      the seeded 6-week, 20-hour position. */
  lemma SampleIneligible()
    ensures !IsEligible(Student(Some(1.8), false, Some(3)), Position(6, 20))
    ensures Messages(Failures(Student(Some(1.8), false, Some(3)), Position(6, 20))) ==
            ["GPA below 2.0", "Position weeks 6 < 7", "Total hours 120 < 140"]
  {
    var s, p := Student(Some(1.8), false, Some(3)), Position(6, 20);
    var rs := [GpaLow, WeeksShort(6), HoursShort(120)];
    assert Failures(s, p) == rs;
    SampleMessageTexts();
    assert Messages(rs) == [Render(GpaLow), Render(WeeksShort(6)), Render(HoursShort(120))];
  }
}
