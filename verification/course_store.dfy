/** The client-side course store (lib/hooks/use-courses.ts): the initial load and the
    five operations. Every operation is a pure function from the previous course list
    to the next one, as the hook's `setCourses((prev) => ...)` updaters are; the fresh
    ids that `crypto.randomUUID` would produce are parameters. */
module CourseStore {

  import opened Types
  import opened Seqs

  /** What `addCourse` receives: a course without `id`, `progress` and `resources`. */
  datatype CourseInput = CourseInput(
    title: string,
    description: string,
    category: string,
    platform: string,
    instructor: string,
    dueDate: string,
    url: string,
    createdAt: int)

  /** What `addResource` receives: a resource without `id`. */
  datatype ResourceInput = ResourceInput(
    title: string,
    url: string,
    kind: ResourceType,
    createdAt: Option<int>)

  /** The caller-supplied fields of a course. */
  function CourseFields(c: Course): CourseInput {
    CourseInput(c.title, c.description, c.category, c.platform, c.instructor, c.dueDate, c.url, c.createdAt)
  }

  /** The caller-supplied fields of a resource. */
  function ResourceFields(x: Resource): ResourceInput {
    ResourceInput(x.title, x.url, x.kind, x.createdAt)
  }

  function CourseId(c: Course): string { c.id }

  function ResourceId(x: Resource): string { x.id }

  function IdIs(id: string): Course -> bool { (c: Course) => c.id == id }

  function IdIsNot(id: string): Course -> bool { (c: Course) => c.id != id }

  function ResourceIdIsNot(id: string): Resource -> bool { (x: Resource) => x.id != id }

  function ResourceIdIs(id: string): Resource -> bool { (x: Resource) => x.id == id }

  /** Some course in `cs` has the id `id`. */
  predicate HasCourse(cs: seq<Course>, id: string) {
    exists i :: 0 <= i < |cs| && cs[i].id == id
  }

  /** Some resource of some course in `cs` has the id `id`. */
  ghost predicate ResourceIdInUse(cs: seq<Course>, id: string) {
    exists i, x :: 0 <= i < |cs| && x in cs[i].resources && x.id == id
  }

  /** Resource ids are unique across the whole store: within each course and between
      courses. */
  ghost predicate ResourceIdsUnique(cs: seq<Course>) {
    && (forall i :: 0 <= i < |cs| ==> DistinctBy(cs[i].resources, ResourceId))
    && (forall i, j, x, y ::
          0 <= i < |cs| && 0 <= j < |cs| && i != j && x in cs[i].resources && y in cs[j].resources
          ==> x.id != y.id)
  }

  /** The id discipline that `crypto.randomUUID` maintains: no two courses and no two
      resources share an id. */
  ghost predicate IdsUnique(cs: seq<Course>) {
    DistinctBy(cs, CourseId) && ResourceIdsUnique(cs)
  }

  /** `courses.find((c) => c.id === id)`. */
  function FindCourse(cs: seq<Course>, id: string): (r: Option<Course>)
    ensures r.None? <==> !HasCourse(cs, id)
    ensures r.Some? ==> exists i :: 0 <= i < |cs| && cs[i] == r.value && cs[i].id == id &&
                                    forall j :: 0 <= j < i ==> cs[j].id != id
    ensures r.Some? ==> r.value.id == id && r.value in cs
  {
    Find(cs, IdIs(id))
  }

  /** `course.resources.find((r) => r.id === id)`. */
  function FindResource(rs: seq<Resource>, id: string): (r: Option<Resource>)
    ensures r.None? <==> forall k :: 0 <= k < |rs| ==> rs[k].id != id
    ensures r.Some? ==> exists k :: 0 <= k < |rs| && rs[k] == r.value && rs[k].id == id &&
                                    forall j :: 0 <= j < k ==> rs[j].id != id
    ensures r.Some? ==> r.value.id == id && r.value in rs
  {
    Find(rs, ResourceIdIs(id))
  }

  /** The initial state. `hasWindow` is `typeof window !== "undefined"`, `saved` is what
      `localStorage.getItem("courses")` returned, and `parse` is `JSON.parse`, with
      `None` standing for a thrown exception. An empty string is falsy, so it is never
      parsed. */
  function Load(hasWindow: bool, saved: Option<string>, parse: string -> Option<seq<Course>>): (r: seq<Course>)
    ensures !hasWindow || saved.None? ==> r == []
    ensures saved == Some("") ==> r == []
    ensures hasWindow && saved.Some? && parse(saved.value).None? ==> r == []
    ensures hasWindow && saved.Some? && saved.value != "" && parse(saved.value).Some? ==>
              r == parse(saved.value).value
    ensures r != [] ==> hasWindow && saved.Some? && saved.value != "" && parse(saved.value) == Some(r)
  {
    if hasWindow && saved.Some? && saved.value != "" then parse(saved.value).GetOr([]) else []
  }

  /** `addCourse`: append one course with a fresh id, progress 0 and no resources. */
  function AddCourse(cs: seq<Course>, data: CourseInput, freshId: string): (r: seq<Course>)
    ensures |r| == |cs| + 1 && r[..|cs|] == cs
    ensures r[|cs|].id == freshId && r[|cs|].progress == 0 && r[|cs|].resources == []
    ensures CourseFields(r[|cs|]) == data
  {
    cs + [Course(freshId, data.title, data.description, data.category, data.platform,
                 data.instructor, data.dueDate, data.url, 0, [], data.createdAt)]
  }

  /** `updateCourseProgress`: every course with the id gets the new progress. */
  function UpdateCourseProgress(cs: seq<Course>, id: string, progress: int): (r: seq<Course>)
    ensures |r| == |cs|
    ensures forall i :: 0 <= i < |cs| ==> r[i] == cs[i].(progress := r[i].progress)
    ensures forall i :: 0 <= i < |cs| && cs[i].id == id ==> r[i].progress == progress
    ensures forall i :: 0 <= i < |cs| && cs[i].id != id ==> r[i] == cs[i]
    ensures !HasCourse(cs, id) ==> r == cs
  {
    seq(|cs|, i requires 0 <= i < |cs| => if cs[i].id == id then cs[i].(progress := progress) else cs[i])
  }

  /** `deleteCourse`: drop every course with the id, keeping the others in order. */
  function DeleteCourse(cs: seq<Course>, id: string): (r: seq<Course>)
    ensures !HasCourse(r, id)
    ensures forall i :: 0 <= i < |r| ==> r[i] in cs
    ensures forall i :: 0 <= i < |cs| && cs[i].id != id ==> cs[i] in r
    ensures IsSubsequence(r, cs)
    ensures forall c {:trigger multiset(r)[c]} :: multiset(r)[c] == if c.id == id then 0 else multiset(cs)[c]
    ensures !HasCourse(cs, id) ==> r == cs
  {
    Filter(cs, IdIsNot(id))
  }

  /** The resource `addResource` builds: the caller's fields plus a fresh id. */
  function NewResource(data: ResourceInput, freshId: string): Resource {
    Resource(freshId, data.title, data.url, data.kind, data.createdAt)
  }

  /** `addResource`: append one resource to the end of each course with the id. */
  function AddResource(cs: seq<Course>, courseId: string, data: ResourceInput, freshId: string): (r: seq<Course>)
    ensures |r| == |cs|
    ensures forall i :: 0 <= i < |cs| ==> r[i] == cs[i].(resources := r[i].resources)
    ensures forall i :: 0 <= i < |cs| && cs[i].id != courseId ==> r[i] == cs[i]
    ensures forall i :: 0 <= i < |cs| && cs[i].id == courseId ==>
              var old_, new_ := cs[i].resources, r[i].resources;
              |new_| == |old_| + 1 && new_[..|old_|] == old_ &&
              new_[|old_|].id == freshId && ResourceFields(new_[|old_|]) == data
    ensures !HasCourse(cs, courseId) ==> r == cs
  {
    var x := NewResource(data, freshId);
    seq(|cs|, i requires 0 <= i < |cs| =>
      if cs[i].id == courseId then cs[i].(resources := cs[i].resources + [x]) else cs[i])
  }

  /** `removeResource`: drop the resources with id `resourceId` from each course with
      id `courseId`. */
  function RemoveResource(cs: seq<Course>, courseId: string, resourceId: string): (r: seq<Course>)
    ensures |r| == |cs|
    ensures forall i :: 0 <= i < |cs| ==> r[i] == cs[i].(resources := r[i].resources)
    ensures forall i :: 0 <= i < |cs| && cs[i].id != courseId ==> r[i] == cs[i]
    ensures forall i :: 0 <= i < |cs| && cs[i].id == courseId ==>
              && IsSubsequence(r[i].resources, cs[i].resources)
              && FindResource(r[i].resources, resourceId).None?
              && (forall k :: 0 <= k < |cs[i].resources| && cs[i].resources[k].id != resourceId ==>
                    cs[i].resources[k] in r[i].resources)
              && forall x {:trigger multiset(r[i].resources)[x]} ::
                   multiset(r[i].resources)[x] == if x.id == resourceId then 0 else multiset(cs[i].resources)[x]
    ensures !HasCourse(cs, courseId) ==> r == cs
  {
    seq(|cs|, i requires 0 <= i < |cs| =>
      if cs[i].id == courseId then cs[i].(resources := Filter(cs[i].resources, ResourceIdIsNot(resourceId)))
      else cs[i])
  }

  // ---------------------------------------------------------------------------
  // Lemmas relating the operations

  /** Looking up the id `addCourse` assigned finds the new course, with progress 0,
      no resources and the caller's fields. */
  lemma AddCourseThenFind(cs: seq<Course>, data: CourseInput, freshId: string)
    requires !HasCourse(cs, freshId)
    ensures var found := FindCourse(AddCourse(cs, data, freshId), freshId);
            found.Some? && found.value.progress == 0 && found.value.resources == [] &&
            CourseFields(found.value) == data
  {
    var r := AddCourse(cs, data, freshId);
    var found := FindCourse(r, freshId);
    assert forall i :: 0 <= i < |cs| ==> r[i] == cs[i];
    assert found.value == r[|cs|];
  }

  /** Setting the progress twice keeps only the second value (and so setting it twice
      to the same value is the same as setting it once). */
  lemma UpdateProgressLastWins(cs: seq<Course>, id: string, p: int, q: int)
    ensures UpdateCourseProgress(UpdateCourseProgress(cs, id, p), id, q) == UpdateCourseProgress(cs, id, q)
  {
  }

  /** After `updateCourseProgress(id, p)`, looking up `id` finds the old course with
      progress `p`, and looking up any other id finds what it found before. */
  lemma UpdateProgressThenFind(cs: seq<Course>, id: string, p: int, other: string)
    requires other != id
    ensures var found := FindCourse(UpdateCourseProgress(cs, id, p), id);
            found.Some? <==> HasCourse(cs, id)
    ensures var found := FindCourse(UpdateCourseProgress(cs, id, p), id);
            found.Some? ==> found.value == FindCourse(cs, id).value.(progress := p)
    ensures FindCourse(UpdateCourseProgress(cs, id, p), other) == FindCourse(cs, other)
  {
    var r := UpdateCourseProgress(cs, id, p);
    FindUnderPointwise(cs, r, id, (c: Course) => c.(progress := p));
    FindUnderFrame(cs, r, other);
  }

  /** A lookup after an update that applies `f` to exactly the courses with the id
      `id`, where `f` keeps ids, finds `f` of what it found before. */
  lemma {:induction false} FindUnderPointwise(cs: seq<Course>, r: seq<Course>, id: string, f: Course -> Course)
    requires |r| == |cs|
    requires forall c :: f(c).id == c.id
    requires forall i :: 0 <= i < |cs| ==> r[i] == (if cs[i].id == id then f(cs[i]) else cs[i])
    ensures FindCourse(r, id).Some? <==> FindCourse(cs, id).Some?
    ensures FindCourse(r, id).Some? ==> FindCourse(r, id).value == f(FindCourse(cs, id).value)
    decreases |cs|
  {
    if |cs| > 0 {
      assert r[0].id == cs[0].id;
      if cs[0].id != id {
        FindUnderPointwise(cs[1..], r[1..], id, f);
      }
    }
  }

  /** A lookup is unaffected by a list update that leaves `other`'s courses alone and
      never changes an id. */
  lemma {:induction false} FindUnderFrame(cs: seq<Course>, r: seq<Course>, other: string)
    requires |r| == |cs|
    requires forall i :: 0 <= i < |cs| ==> r[i].id == cs[i].id && (cs[i].id == other ==> r[i] == cs[i])
    ensures FindCourse(r, other) == FindCourse(cs, other)
    decreases |cs|
  {
    if |cs| > 0 {
      if cs[0].id != other {
        FindUnderFrame(cs[1..], r[1..], other);
      }
    }
  }

  /** After `addResource`, looking up the target course finds its old resources with
      the new one appended. */
  lemma AddResourceThenFind(cs: seq<Course>, courseId: string, data: ResourceInput, freshId: string)
    requires HasCourse(cs, courseId)
    ensures var found := FindCourse(AddResource(cs, courseId, data, freshId), courseId);
            found.Some? &&
            found.value == FindCourse(cs, courseId).value.(
              resources := FindCourse(cs, courseId).value.resources + [NewResource(data, freshId)])
  {
    var x := NewResource(data, freshId);
    FindUnderPointwise(cs, AddResource(cs, courseId, data, freshId), courseId,
                       (c: Course) => c.(resources := c.resources + [x]));
  }

  /** Deleting a course cascades to its resources: when ids are unique, none of the
      deleted course's resources is reachable from any remaining course. */
  lemma DeleteCourseCascades(cs: seq<Course>, k: nat)
    requires IdsUnique(cs) && k < |cs|
    ensures var r := DeleteCourse(cs, cs[k].id);
            FindCourse(r, cs[k].id).None? &&
            forall x :: x in cs[k].resources ==> !ResourceIdInUse(r, x.id)
  {
    var r := DeleteCourse(cs, cs[k].id);
    forall x, i, y | x in cs[k].resources && 0 <= i < |r| && y in r[i].resources
      ensures y.id != x.id
    {
      var j :| 0 <= j < |cs| && cs[j] == r[i];
      assert j != k;
    }
  }

  /** `addResource` followed by `removeResource` with the id just assigned restores the
      course list exactly, provided that id was not already used in the target course. */
  lemma AddThenRemoveResource(cs: seq<Course>, courseId: string, data: ResourceInput, freshId: string)
    requires forall i, x :: 0 <= i < |cs| && cs[i].id == courseId && x in cs[i].resources ==> x.id != freshId
    ensures RemoveResource(AddResource(cs, courseId, data, freshId), courseId, freshId) == cs
  {
    var added := AddResource(cs, courseId, data, freshId);
    var r := RemoveResource(added, courseId, freshId);
    forall i | 0 <= i < |cs| ensures r[i] == cs[i] {
      if cs[i].id == courseId {
        var rs := cs[i].resources;
        var nx := NewResource(data, freshId);
        assert added[i].resources == rs + [nx];
        FilterConcat(rs, [nx], ResourceIdIsNot(freshId));
        assert Filter([nx], ResourceIdIsNot(freshId)) == [];
        assert Filter(rs, ResourceIdIsNot(freshId)) == rs;
      }
    }
  }

  /** Removing the same resource twice is the same as removing it once. */
  lemma RemoveResourceIdempotent(cs: seq<Course>, courseId: string, resourceId: string)
    ensures var once := RemoveResource(cs, courseId, resourceId);
            RemoveResource(once, courseId, resourceId) == once
  {
    var once := RemoveResource(cs, courseId, resourceId);
    var twice := RemoveResource(once, courseId, resourceId);
    forall i | 0 <= i < |cs| ensures twice[i] == once[i] {
      if cs[i].id == courseId {
        assert forall k :: 0 <= k < |once[i].resources| ==> ResourceIdIsNot(resourceId)(once[i].resources[k]);
      }
    }
  }

  // ---------------------------------------------------------------------------
  // Id uniqueness is preserved when the fresh ids are new

  lemma AddCourseKeepsIdsUnique(cs: seq<Course>, data: CourseInput, freshId: string)
    requires IdsUnique(cs) && !HasCourse(cs, freshId)
    ensures IdsUnique(AddCourse(cs, data, freshId))
  {
    var r := AddCourse(cs, data, freshId);
    assert forall i :: 0 <= i < |cs| ==> r[i] == cs[i];
  }

  lemma UpdateProgressKeepsIdsUnique(cs: seq<Course>, id: string, p: int)
    requires IdsUnique(cs)
    ensures IdsUnique(UpdateCourseProgress(cs, id, p))
  {
  }

  lemma DeleteCourseKeepsIdsUnique(cs: seq<Course>, id: string)
    requires IdsUnique(cs)
    ensures IdsUnique(DeleteCourse(cs, id))
  {
    var r := DeleteCourse(cs, id);
    FilterDistinctBy(cs, IdIsNot(id), CourseId);
    forall i, j, x, y | 0 <= i < |r| && 0 <= j < |r| && i != j && x in r[i].resources && y in r[j].resources
      ensures x.id != y.id
    {
      var i' :| 0 <= i' < |cs| && cs[i'] == r[i];
      var j' :| 0 <= j' < |cs| && cs[j'] == r[j];
      assert r[i].id != r[j].id;
    }
  }

  lemma AddResourceKeepsIdsUnique(cs: seq<Course>, courseId: string, data: ResourceInput, freshId: string)
    requires IdsUnique(cs) && !ResourceIdInUse(cs, freshId)
    ensures IdsUnique(AddResource(cs, courseId, data, freshId))
  {
    var r := AddResource(cs, courseId, data, freshId);
    var nx := NewResource(data, freshId);
    forall i | 0 <= i < |r| ensures DistinctBy(r[i].resources, ResourceId) {
      if cs[i].id == courseId {
        var rs := cs[i].resources;
        assert r[i].resources == rs + [nx];
        forall a, b | 0 <= a < b < |r[i].resources| ensures r[i].resources[a].id != r[i].resources[b].id {
          if b == |rs| {
            assert rs[a] in cs[i].resources;
          }
        }
      }
    }
    forall i, j, x, y | 0 <= i < |r| && 0 <= j < |r| && i != j && x in r[i].resources && y in r[j].resources
      ensures x.id != y.id
    {
      if cs[i].id == courseId {
        assert cs[j].id != courseId;
        assert r[i].resources == cs[i].resources + [nx];
        if x == nx {
          assert y in cs[j].resources;
        }
      } else if cs[j].id == courseId {
        assert r[j].resources == cs[j].resources + [nx];
        if y == nx {
          assert x in cs[i].resources;
        }
      }
    }
  }

  lemma RemoveResourceKeepsIdsUnique(cs: seq<Course>, courseId: string, resourceId: string)
    requires IdsUnique(cs)
    ensures IdsUnique(RemoveResource(cs, courseId, resourceId))
  {
    var r := RemoveResource(cs, courseId, resourceId);
    forall i | 0 <= i < |r| ensures DistinctBy(r[i].resources, ResourceId) {
      if cs[i].id == courseId {
        FilterDistinctBy(cs[i].resources, ResourceIdIsNot(resourceId), ResourceId);
      }
    }
  }
}
