/** src/util/build-email-subject.ts: the subject line of an availability email. */
module EmailSubject {
  import opened Wrappers
  import opened Types
  import Dates

  /** The two verb phrases. */
  const CanTakeMore := "can take more MOT bookings"
  const FullyBooked := "is fully booked"

  /** The verb phrase for the availability decision. */
  function Decision(isAvailable: bool): string
  {
    if isAvailable then CanTakeMore else FullyBooked
  }

  /** `<name> <decision> between <start> and <end>`, both dates printed as `{dd} {MMMM} {yyyy}`. */
  function BuildEmailSubject(p: BuildEmailBodyParams): (s: string)
    ensures p.availability.isAvailable ==>
      s == p.atfName + " " + CanTakeMore + " between "
        + Dates.Format(p.availability.startDate) + " and " + Dates.Format(p.availability.endDate)
    ensures !p.availability.isAvailable ==>
      s == p.atfName + " " + FullyBooked + " between "
        + Dates.Format(p.availability.startDate) + " and " + Dates.Format(p.availability.endDate)
  {
    var startDateString := Dates.Format(p.availability.startDate);
    var endDateString := Dates.Format(p.availability.endDate);
    p.atfName + " " + Decision(p.availability.isAvailable) + " between " + startDateString + " and " + endDateString
  }

  /** Only the name, the decision and the two window dates are read; token, templates and `lastUpdated` are not. */
  lemma SubjectReadsOnlyNameDecisionAndWindow(p: BuildEmailBodyParams, q: BuildEmailBodyParams)
    requires p.atfName == q.atfName
    requires p.availability.isAvailable == q.availability.isAvailable
    requires p.availability.startDate == q.availability.startDate
    requires p.availability.endDate == q.availability.endDate
    ensures BuildEmailSubject(p) == BuildEmailSubject(q)
  {
  }

  /** The two decisions give different subjects for the same name and window. */
  lemma {:induction false} DecisionIsVisible(p: BuildEmailBodyParams)
    ensures BuildEmailSubject(p) != BuildEmailSubject(p.(availability := p.availability.(isAvailable := !p.availability.isAvailable)))
  {
    var q := p.(availability := p.availability.(isAvailable := !p.availability.isAvailable));
    var n := |p.atfName| + 1;
    var s1 := BuildEmailSubject(p);
    var s2 := BuildEmailSubject(q);
    assert s1[n] == Decision(p.availability.isAvailable)[0];
    assert s2[n] == Decision(q.availability.isAvailable)[0];
  }

  /** Both window dates can be read back from the subject line. */
  lemma SubjectDatesReadBack(p: BuildEmailBodyParams)
    ensures exists startText, endText ::
      && BuildEmailSubject(p) == p.atfName + " " + Decision(p.availability.isAvailable) + " between " + startText + " and " + endText
      && Dates.Parse(startText) == Some(p.availability.startDate)
      && Dates.Parse(endText) == Some(p.availability.endDate)
  {
    Dates.ParseFormat(p.availability.startDate);
    Dates.ParseFormat(p.availability.endDate);
    var startText := Dates.Format(p.availability.startDate);
    var endText := Dates.Format(p.availability.endDate);
    assert BuildEmailSubject(p) == p.atfName + " " + Decision(p.availability.isAvailable) + " between " + startText + " and " + endText;
  }
}
