/** The notification texts of `NotificationService` used by the assignment routes. */
module NotificationService {

  const AssignedPrefix := "You have been assigned to the course \""
  const AssignedBy := "\" by "

  /** `createCourseAssignmentNotification`'s content for a course title and the name of whoever assigned it. */
  function AssignmentContent(title: string, assignedBy: string): (content: string)
    ensures AssignedPrefix <= content
    ensures |AssignedPrefix| <= |content| && content[|AssignedPrefix|..] == title + AssignedBy + assignedBy + "."
  {
    AssignedPrefix + title + AssignedBy + assignedBy + "."
  }

  /** The position of the first double quote in `s`, or `|s|` when there is none. */
  function FirstQuote(s: string): (k: nat)
    ensures k <= |s|
    ensures forall i :: 0 <= i < k ==> s[i] != '"'
    ensures k < |s| ==> s[k] == '"'
    decreases |s|
  {
    if s == [] then 0
    else if s[0] == '"' then 0
    else
      assert forall i :: 1 <= i < |s| ==> s[i] == s[1..][i - 1];
      1 + FirstQuote(s[1..])
  }

  lemma QuoteAfterTitle(title: string, rest: string)
    requires '"' !in title
    requires rest != [] && rest[0] == '"'
    ensures FirstQuote(title + rest) == |title|
  {
    var s := title + rest;
    var k := FirstQuote(s);
    assert forall i :: 0 <= i < |title| ==> s[i] == title[i] && s[i] != '"';
    assert s[|title|] == '"';
  }

  /**
    For titles without a double quote the content determines both the course title and the name of
    the assigner, so distinct assignments read differently.
  */
  lemma AssignmentContentInjective(t1: string, b1: string, t2: string, b2: string)
    requires '"' !in t1 && '"' !in t2
    requires AssignmentContent(t1, b1) == AssignmentContent(t2, b2)
    ensures t1 == t2 && b1 == b2
  {
    var r := AssignmentContent(t1, b1)[|AssignedPrefix|..];
    assert r == t1 + (AssignedBy + b1 + ".");
    assert r == t2 + (AssignedBy + b2 + ".");
    QuoteAfterTitle(t1, AssignedBy + b1 + ".");
    QuoteAfterTitle(t2, AssignedBy + b2 + ".");
    assert t1 == r[..|t1|] == t2;
    var tail := r[|t1| + |AssignedBy|..];
    assert tail == b1 + ".";
    assert tail == b2 + ".";
    assert b1 == tail[..|tail| - 1] == b2;
  }
}
