/** The resource add / delete / undo flow of the resource manager view
    (components/resource-manager.tsx): guards around the store's `addResource` and
    `removeResource`, and the URL shortening used in the card layout. `Date.now()`
    and `crypto.randomUUID()` are the parameters `now` and `freshId`. */
module ResourceManager {

  import opened Types
  import opened Seqs
  import opened CourseStore

  /** The `{ courseId, resourceId }` pair awaiting confirmation. */
  datatype PendingDelete = PendingDelete(courseId: string, resourceId: string)

  /** The view's state: the selected course id (`""` when none) and the pending
      deletion (`null` when none). */
  datatype ManagerState = ManagerState(selectedCourseId: string, resourceToDelete: Option<PendingDelete>)

  /** The validated values of the add-resource form. */
  datatype ResourceForm = ResourceForm(title: string, url: string, kind: ResourceType)

  /** What the "Undo" action of the deletion toast closes over: the course list of the
      render in which the deletion was confirmed, the course id and a copy of the
      removed resource. */
  datatype UndoAction = UndoAction(captured: seq<Course>, courseId: string, copy: Resource)

  /** The effect of confirming: the next view state, the next course list and the undo
      action offered by the toast, if any. */
  datatype ConfirmOutcome = ConfirmOutcome(state: ManagerState, courses: seq<Course>, undo: Option<UndoAction>)

  /** `handleAddResource`: with no course selected nothing happens; otherwise the form's
      fields and a `createdAt` stamp go to the store. */
  function HandleAddResource(st: ManagerState, courses: seq<Course>, form: ResourceForm, now: int, freshId: string): (r: seq<Course>)
    ensures st.selectedCourseId == "" ==> r == courses
    ensures |r| == |courses|
    ensures forall i :: 0 <= i < |courses| && (st.selectedCourseId == "" || courses[i].id != st.selectedCourseId) ==>
              r[i] == courses[i]
    ensures forall i :: 0 <= i < |courses| && st.selectedCourseId != "" && courses[i].id == st.selectedCourseId ==>
              r[i] == courses[i].(resources := courses[i].resources + [Resource(freshId, form.title, form.url, form.kind, Some(now))])
  {
    if st.selectedCourseId == "" then courses
    else AddResource(courses, st.selectedCourseId, ResourceInput(form.title, form.url, form.kind, Some(now)), freshId)
  }

  /** With a course selected that exists, the new resource ends that course's list and
      carries the form's title, url and kind and the stamp `now`. */
  lemma HandleAddResourceAppends(st: ManagerState, courses: seq<Course>, form: ResourceForm, now: int, freshId: string)
    requires st.selectedCourseId != "" && HasCourse(courses, st.selectedCourseId)
    ensures var before := FindCourse(courses, st.selectedCourseId).value;
            var after := FindCourse(HandleAddResource(st, courses, form, now, freshId), st.selectedCourseId);
            after == Some(before.(resources := before.resources + [Resource(freshId, form.title, form.url, form.kind, Some(now))]))
  {
    AddResourceThenFind(courses, st.selectedCourseId, ResourceInput(form.title, form.url, form.kind, Some(now)), freshId);
  }

  /** `handleDeleteClick`: only records the pair; the course list is not touched. */
  function HandleDeleteClick(st: ManagerState, courseId: string, resourceId: string): (r: ManagerState)
    ensures r.selectedCourseId == st.selectedCourseId
    ensures r.resourceToDelete == Some(PendingDelete(courseId, resourceId))
  {
    st.(resourceToDelete := Some(PendingDelete(courseId, resourceId)))
  }

  /** The dialog's Cancel button and closing the dialog: forget the pending pair. */
  function CancelDelete(st: ManagerState): (r: ManagerState)
    ensures r.selectedCourseId == st.selectedCourseId && r.resourceToDelete.None?
  {
    st.(resourceToDelete := None)
  }

  /** The first course with the pending course id has a resource with the pending
      resource id. */
  predicate PendingExists(courses: seq<Course>, p: PendingDelete) {
    var c := FindCourse(courses, p.courseId);
    c.Some? && FindResource(c.value.resources, p.resourceId).Some?
  }

  /** `confirmDeleteResource`: remove the pending resource when both the course and the
      resource are found, offer an undo for it, and clear the pending pair in every
      case where there was one. */
  function ConfirmDeleteResource(st: ManagerState, courses: seq<Course>): (r: ConfirmOutcome)
    ensures st.resourceToDelete.None? ==> r == ConfirmOutcome(st, courses, None)
    ensures st.resourceToDelete.Some? ==> r.state == st.(resourceToDelete := None)
    ensures r.undo.Some? <==> st.resourceToDelete.Some? && PendingExists(courses, st.resourceToDelete.value)
    ensures r.undo.None? ==> r.courses == courses
    ensures r.undo.Some? ==>
              var p, u := st.resourceToDelete.value, r.undo.value;
              && r.courses == RemoveResource(courses, p.courseId, p.resourceId)
              && u.captured == courses && u.courseId == p.courseId
              && u.copy.id == p.resourceId
              && u.copy in FindCourse(courses, p.courseId).value.resources
              && FindResource(FindCourse(courses, p.courseId).value.resources, p.resourceId) == Some(u.copy)
  {
    match st.resourceToDelete
    case None => ConfirmOutcome(st, courses, None)
    case Some(p) =>
      var cleared := st.(resourceToDelete := None);
      match FindCourse(courses, p.courseId)
      case None => ConfirmOutcome(cleared, courses, None)
      case Some(course) =>
        match FindResource(course.resources, p.resourceId)
        case None => ConfirmOutcome(cleared, courses, None)
        case Some(x) =>
          ConfirmOutcome(cleared, RemoveResource(courses, p.courseId, p.resourceId),
                         Some(UndoAction(courses, p.courseId, x)))
  }

  /** Clicking delete on a resource and then confirming: the pending pair is cleared,
      and the resource is removed from that course, with an undo offered, exactly when
      the first course with that id has a resource with that id; otherwise the course
      list stays as it was. */
  lemma ClickThenConfirm(st: ManagerState, courses: seq<Course>, courseId: string, resourceId: string)
    ensures var o := ConfirmDeleteResource(HandleDeleteClick(st, courseId, resourceId), courses);
            && o.state == st.(resourceToDelete := None)
            && (PendingExists(courses, PendingDelete(courseId, resourceId)) ==>
                  o.courses == RemoveResource(courses, courseId, resourceId) && o.undo.Some?)
            && (!PendingExists(courses, PendingDelete(courseId, resourceId)) ==>
                  o.courses == courses && o.undo.None?)
  {
  }

  /** The `createdAt || Date.now()` stamp of a restored resource: the original stamp,
      unless it is missing or 0. */
  function RestoredStamp(createdAt: Option<int>, now: int): (r: int)
    ensures createdAt.None? || createdAt == Some(0) ==> r == now
    ensures createdAt.Some? && createdAt.value != 0 ==> r == createdAt.value
  {
    match createdAt
    case Some(t) => if t != 0 then t else now
    case None => now
  }

  /** What the undo action passes to `addResource`: the copy's title, url and kind with
      the restored stamp. */
  function RestoredInput(copy: Resource, now: int): (r: ResourceInput)
    ensures r.title == copy.title && r.url == copy.url && r.kind == copy.kind
    ensures r.createdAt == Some(RestoredStamp(copy.createdAt, now))
  {
    ResourceInput(copy.title, copy.url, copy.kind, Some(RestoredStamp(copy.createdAt, now)))
  }

  /** The toast's "Undo": if the course is in the captured list, re-add the copy under a
      fresh id, at the end of the course's current resources. */
  function Undo(u: UndoAction, current: seq<Course>, now: int, freshId: string): (r: seq<Course>)
    ensures !HasCourse(u.captured, u.courseId) ==> r == current
    ensures |r| == |current|
    ensures forall i :: 0 <= i < |current| && (!HasCourse(u.captured, u.courseId) || current[i].id != u.courseId) ==>
              r[i] == current[i]
    ensures forall i :: 0 <= i < |current| && HasCourse(u.captured, u.courseId) && current[i].id == u.courseId ==>
              r[i] == current[i].(resources := current[i].resources +
                        [Resource(freshId, u.copy.title, u.copy.url, u.copy.kind, Some(RestoredStamp(u.copy.createdAt, now)))])
  {
    if FindCourse(u.captured, u.courseId).Some? then
      AddResource(current, u.courseId, RestoredInput(u.copy, now), freshId)
    else current
  }

  /** The guard inside the undo closure always passes: it searches the list captured at
      confirm time, which contained the course. */
  lemma UndoAlwaysArmed(st: ManagerState, courses: seq<Course>, current: seq<Course>, now: int, freshId: string)
    requires ConfirmDeleteResource(st, courses).undo.Some?
    ensures var u := ConfirmDeleteResource(st, courses).undo.value;
            Undo(u, current, now, freshId) == AddResource(current, u.courseId, RestoredInput(u.copy, now), freshId)
  {
  }

  /** Confirm followed straight away by Undo: every course with the pending id ends with
      its other resources in their old order followed by a copy of the deleted one
      under the fresh id; it does not return to its old position. Every other course
      is unchanged. */
  lemma ConfirmThenUndo(st: ManagerState, courses: seq<Course>, now: int, freshId: string)
    requires ConfirmDeleteResource(st, courses).undo.Some?
    ensures var o := ConfirmDeleteResource(st, courses);
            var p, copy := st.resourceToDelete.value, o.undo.value.copy;
            var after := Undo(o.undo.value, o.courses, now, freshId);
            var restored := Resource(freshId, copy.title, copy.url, copy.kind, Some(RestoredStamp(copy.createdAt, now)));
            && |after| == |courses|
            && (forall i :: 0 <= i < |courses| && courses[i].id != p.courseId ==> after[i] == courses[i])
            && (forall i :: 0 <= i < |courses| && courses[i].id == p.courseId ==>
                  after[i] == courses[i].(resources := Filter(courses[i].resources, ResourceIdIsNot(p.resourceId)) + [restored]))
  {
    var o := ConfirmDeleteResource(st, courses);
    var p := st.resourceToDelete.value;
    var removed := RemoveResource(courses, p.courseId, p.resourceId);
    assert o.courses == removed;
    var after := Undo(o.undo.value, removed, now, freshId);
    assert after == AddResource(removed, p.courseId, RestoredInput(o.undo.value.copy, now), freshId);
  }

  /** The URL as shown in the card layout: at most 30 characters, then `"..."`. */
  function DisplayUrl(url: string): (r: string)
    ensures |url| <= 30 ==> r == url
    ensures r == url <==> |url| <= 30 || (|url| == 33 && url[30..] == "...")
    ensures |url| > 30 ==> |r| == 33 && r[..30] == url[..30] && r[30..] == "..."
  {
    if |url| > 30 then url[..30] + "..." else url
  }

  /** Shortening an already shortened URL changes nothing. */
  lemma DisplayUrlIdempotent(url: string)
    ensures DisplayUrl(DisplayUrl(url)) == DisplayUrl(url)
  {
  }
}
