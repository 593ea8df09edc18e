/** The study-session list of the schedule view (components/study-schedule.tsx):
    adding a session on the selected date and listing the sessions of that day.
    A date is a calendar-day key plus a time within the day; the view compares dates
    by their `yyyy-MM-dd` rendering, which is equality of the day key. */
module StudySchedule {

  import opened Types
  import opened Seqs
  import opened CourseStore

  /** A point in time: the local calendar day it falls on and the time within it. */
  datatype Moment = Moment(day: int, timeOfDay: int)

  /** A planned study block; `courseId` refers to a course weakly and may dangle. */
  datatype StudySession = StudySession(id: string, courseId: string, date: Moment, duration: int, notes: string)

  /** The validated values of the add-session form; the duration is already a number. */
  datatype SessionForm = SessionForm(courseId: string, duration: int, notes: Option<string>)

  /** One line of the day's list: the course title, missing when no course has the
      session's course id, then the duration and the notes. */
  datatype SessionRow = SessionRow(courseTitle: Option<string>, duration: int, notes: string)

  function SessionId(s: StudySession): string { s.id }

  /** `handleAddSession`: with no selected date nothing happens; otherwise one session
      on that date is appended. `values.notes || ""` turns missing notes into `""`. */
  function AddSession(sessions: seq<StudySession>, selected: Option<Moment>, form: SessionForm, freshId: string): (r: seq<StudySession>)
    ensures selected.None? ==> r == sessions
    ensures selected.Some? ==> |r| == |sessions| + 1 && r[..|sessions|] == sessions
    ensures selected.Some? ==>
              var s := r[|sessions|];
              && s.id == freshId && s.courseId == form.courseId && s.date == selected.value
              && s.duration == form.duration
              && s.notes == (if form.notes.Some? then form.notes.value else "")
  {
    if selected.None? then sessions
    else sessions + [StudySession(freshId, form.courseId, selected.value, form.duration, form.notes.GetOr(""))]
  }

  /** The filter's predicate: a date is selected and the session is on its day. */
  function OnSelectedDay(selected: Option<Moment>): StudySession -> bool {
    (s: StudySession) => selected.Some? && s.date.day == selected.value.day
  }

  /** `sessionsForSelectedDate`. */
  function SessionsOn(sessions: seq<StudySession>, selected: Option<Moment>): (r: seq<StudySession>)
    ensures selected.None? ==> r == []
    ensures forall i :: 0 <= i < |r| ==> r[i] in sessions && r[i].date.day == selected.value.day
    ensures selected.Some? ==>
              forall i :: 0 <= i < |sessions| && sessions[i].date.day == selected.value.day ==> sessions[i] in r
    ensures IsSubsequence(r, sessions)
    ensures forall x {:trigger multiset(r)[x]} ::
              multiset(r)[x] == if selected.Some? && x.date.day == selected.value.day then multiset(sessions)[x] else 0
  {
    Filter(sessions, OnSelectedDay(selected))
  }

  /** The list compares calendar days only: two selections on the same day, at any two
      times, list the same sessions. */
  lemma {:induction false} SessionsOnIgnoresTime(sessions: seq<StudySession>, a: Moment, b: Moment)
    requires a.day == b.day
    ensures SessionsOn(sessions, Some(a)) == SessionsOn(sessions, Some(b))
    decreases |sessions|
  {
    if |sessions| > 0 {
      SessionsOnIgnoresTime(sessions[1..], a, b);
    }
  }

  /** A session added on the selected date is listed for that day, after the ones
      already listed. */
  lemma AddSessionThenList(sessions: seq<StudySession>, m: Moment, form: SessionForm, freshId: string)
    ensures var r := AddSession(sessions, Some(m), form, freshId);
            SessionsOn(r, Some(m)) == SessionsOn(sessions, Some(m)) + [r[|sessions|]]
  {
    var r := AddSession(sessions, Some(m), form, freshId);
    assert r == sessions + [r[|sessions|]];
    FilterConcat(sessions, [r[|sessions|]], OnSelectedDay(Some(m)));
  }

  /** Adding a session under a new id keeps session ids unique. */
  lemma AddSessionKeepsIdsUnique(sessions: seq<StudySession>, selected: Option<Moment>, form: SessionForm, freshId: string)
    requires DistinctBy(sessions, SessionId)
    requires forall i :: 0 <= i < |sessions| ==> sessions[i].id != freshId
    ensures DistinctBy(AddSession(sessions, selected, form, freshId), SessionId)
  {
  }

  /** The title shown for a session, `course?.title`: that of the first course with its
      course id, missing when there is none. */
  function SessionTitle(courses: seq<Course>, s: StudySession): (r: Option<string>)
    ensures r.None? <==> !HasCourse(courses, s.courseId)
    ensures r.Some? ==> exists i :: 0 <= i < |courses| && courses[i].id == s.courseId && courses[i].title == r.value &&
                                    forall j :: 0 <= j < i ==> courses[j].id != s.courseId
  {
    match FindCourse(courses, s.courseId)
    case Some(c) => Some(c.title)
    case None => None
  }

  /** The day's list as shown: one row per session on the selected day, in order,
      sessions of unknown courses included with no title. */
  function ListSessions(courses: seq<Course>, sessions: seq<StudySession>, selected: Option<Moment>): (r: seq<SessionRow>)
    ensures var day := SessionsOn(sessions, selected);
            && |r| == |day|
            && forall i :: 0 <= i < |day| ==>
                 && r[i].duration == day[i].duration && r[i].notes == day[i].notes
                 && (r[i].courseTitle.None? <==> !HasCourse(courses, day[i].courseId))
                 && r[i].courseTitle == SessionTitle(courses, day[i])
  {
    var day := SessionsOn(sessions, selected);
    seq(|day|, i requires 0 <= i < |day| => SessionRow(SessionTitle(courses, day[i]), day[i].duration, day[i].notes))
  }
}
