/** The course cards' helpers (components/course-list.tsx): the badge colour of a
    category, looked up case-insensitively, and the pending-deletion state behind the
    "Are you sure?" dialog. */
module CourseList {

  import opened Types
  import opened Seqs
  import opened CourseStore

  /** The badge variants a category can map to. */
  datatype BadgeVariant = Default | Secondary | Outline | Destructive | Success

  const KelvinSign: char := '\U{212A}'

  /** `toLowerCase` on one character, as far as the lookup can tell: ASCII capitals
      become small letters, and the Kelvin sign, the one other character whose lower
      case is an ASCII letter, becomes `k`. Every other character is kept. */
  function LowerChar(c: char): (r: char)
    ensures !('A' <= r <= 'Z') && r != KelvinSign
    ensures 'a' <= r <= 'z' ==> c == r || c as int == r as int - 32 || (c == KelvinSign && r == 'k')
    ensures !('a' <= r <= 'z') ==> c == r
  {
    if 'A' <= c <= 'Z' then (c as int + 32) as char
    else if c == KelvinSign then 'k'
    else c
  }

  /** `toLowerCase` on a string, character by character. */
  function ToLower(s: string): (r: string)
    ensures |r| == |s|
    ensures forall i :: 0 <= i < |s| ==> r[i] == LowerChar(s[i])
  {
    seq(|s|, i requires 0 <= i < |s| => LowerChar(s[i]))
  }

  /** Lowering a lowered string changes nothing. */
  lemma ToLowerIdempotent(s: string)
    ensures ToLower(ToLower(s)) == ToLower(s)
  {
    var l := ToLower(s);
    forall i | 0 <= i < |l| ensures LowerChar(l[i]) == l[i] {
    }
  }

  /** `a` and `b` differ at most in the case of their letters. */
  predicate SameIgnoringCase(a: string, b: string) {
    |a| == |b| && forall i :: 0 <= i < |a| ==> LowerChar(a[i]) == LowerChar(b[i])
  }

  /** Strings equal up to case lower to the same string, and only they do. */
  lemma SameIgnoringCaseLowers(a: string, b: string)
    ensures SameIgnoringCase(a, b) <==> ToLower(a) == ToLower(b)
  {
    if ToLower(a) == ToLower(b) {
      assert |a| == |ToLower(a)|;
      forall i | 0 <= i < |a| ensures LowerChar(a[i]) == LowerChar(b[i]) {
        assert ToLower(a)[i] == ToLower(b)[i];
      }
    }
  }

  /** `getCategoryVariant`: lower-case the category, then look it up; "programming"
      and every unknown category get the default badge. */
  function CategoryVariant(category: string): (r: BadgeVariant)
    ensures r == Secondary <==> ToLower(category) == "design"
    ensures r == Outline <==> ToLower(category) == "business"
    ensures r == Destructive <==> ToLower(category) == "marketing"
    ensures r == Success <==> ToLower(category) == "data science"
    ensures r == Default <==> ToLower(category) !in ["design", "business", "marketing", "data science"]
  {
    match ToLower(category)
    case "programming" => Default
    case "design" => Secondary
    case "business" => Outline
    case "marketing" => Destructive
    case "data science" => Success
    case _ => Default
  }

  /** The lookup is case-insensitive: any two casings of a category get the same badge. */
  lemma CategoryVariantIgnoresCase(a: string, b: string)
    requires SameIgnoringCase(a, b)
    ensures CategoryVariant(a) == CategoryVariant(b)
  {
    SameIgnoringCaseLowers(a, b);
  }

  /** The table in terms of the categories themselves: a category gets a coloured
      badge exactly when it is some casing of the matching name. */
  lemma CategoryVariantByName(category: string)
    ensures CategoryVariant(category) == Secondary <==> SameIgnoringCase(category, "design")
    ensures CategoryVariant(category) == Outline <==> SameIgnoringCase(category, "business")
    ensures CategoryVariant(category) == Destructive <==> SameIgnoringCase(category, "marketing")
    ensures CategoryVariant(category) == Success <==> SameIgnoringCase(category, "data science")
  {
    SameIgnoringCaseLowers(category, "design");
    SameIgnoringCaseLowers(category, "business");
    SameIgnoringCaseLowers(category, "marketing");
    SameIgnoringCaseLowers(category, "data science");
    assert ToLower("design") == "design";
    assert ToLower("business") == "business";
    assert ToLower("marketing") == "marketing";
    assert ToLower("data science") == "data science";
  }

  /** The categories the course form offers, in the casing it stores them. */
  lemma CategoryVariantTable()
    ensures CategoryVariant("Programming") == Default
    ensures CategoryVariant("Design") == Secondary
    ensures CategoryVariant("Business") == Outline
    ensures CategoryVariant("Marketing") == Destructive
    ensures CategoryVariant("Data Science") == Success
    ensures CategoryVariant("Other") == Default
  {
    assert ToLower("Programming") == "programming";
    assert ToLower("Design") == "design";
    assert ToLower("Business") == "business";
    assert ToLower("Marketing") == "marketing";
    assert ToLower("Data Science") == "data science";
    assert ToLower("Other") == "other";
  }

  /** What the user does to the deletion dialog. `CancelDelete` also stands for
      closing the dialog, which clears the pending id the same way. */
  datatype DeleteEvent = DeleteClick(id: string) | ConfirmDelete | CancelDelete

  /** The pending course id after an event, and the id passed to `onDeleteCourse`,
      if the event called it. */
  datatype StepResult = StepResult(pending: Option<string>, deleted: Option<string>)

  /** One event. A confirm acts only on a truthy pending id, so a pending `""` is
      neither deleted nor cleared. */
  function Step(pending: Option<string>, e: DeleteEvent): (r: StepResult)
    ensures e.DeleteClick? ==> r.pending == Some(e.id) && r.deleted.None?
    ensures e.CancelDelete? ==> r.pending.None? && r.deleted.None?
    ensures e.ConfirmDelete? ==> (r.deleted.Some? <==> pending.Some? && pending.value != "")
    ensures r.deleted.Some? ==> r.deleted == pending && r.pending.None?
    ensures e.ConfirmDelete? && r.deleted.None? ==> r.pending == pending
  {
    match e
    case DeleteClick(id) => StepResult(Some(id), None)
    case ConfirmDelete =>
      if pending.Some? && pending.value != "" then StepResult(None, pending) else StepResult(pending, None)
    case CancelDelete => StepResult(None, None)
  }

  /** A step's delete call as a list of zero or one ids. */
  function Deleted(r: StepResult): seq<string> {
    if r.deleted.Some? then [r.deleted.value] else []
  }

  /** The final pending id and the ids passed to `onDeleteCourse`, in order, when the
      events happen one after another from `pending`. */
  function Run(pending: Option<string>, es: seq<DeleteEvent>): (r: (Option<string>, seq<string>))
    decreases |es|
  {
    if |es| == 0 then (pending, [])
    else
      var s := Step(pending, es[0]);
      var rest := Run(s.pending, es[1..]);
      (rest.0, Deleted(s) + rest.1)
  }

  /** The number of confirm events. */
  function Confirms(es: seq<DeleteEvent>): nat {
    if |es| == 0 then 0 else (if es[0].ConfirmDelete? then 1 else 0) + Confirms(es[1..])
  }

  /** `id` was clicked somewhere in `es`. */
  predicate Clicked(es: seq<DeleteEvent>, id: string) {
    exists i :: 0 <= i < |es| && es[i] == DeleteClick(id)
  }

  /** Nothing is deleted that the user did not click, apart from an id already
      pending at the start; and there is at most one delete call per confirm. */
  lemma {:induction false} RunDeletesOnlyClicked(pending: Option<string>, es: seq<DeleteEvent>)
    ensures var r := Run(pending, es);
            && |r.1| <= Confirms(es)
            && forall k :: 0 <= k < |r.1| ==> Clicked(es, r.1[k]) || pending == Some(r.1[k])
    decreases |es|
  {
    if |es| > 0 {
      var s := Step(pending, es[0]);
      RunDeletesOnlyClicked(s.pending, es[1..]);
      var rest := Run(s.pending, es[1..]);
      var all := Deleted(s) + rest.1;
      forall k | 0 <= k < |all| ensures Clicked(es, all[k]) || pending == Some(all[k]) {
        if k < |Deleted(s)| {
          assert all[k] == s.deleted.value;
        } else {
          var id := all[k];
          assert id == rest.1[k - |Deleted(s)|];
          if Clicked(es[1..], id) {
            var i :| 0 <= i < |es[1..]| && es[1..][i] == DeleteClick(id);
            assert es[i + 1] == DeleteClick(id);
          } else {
            assert s.pending == Some(id);
            if es[0].DeleteClick? {
              assert es[0] == DeleteClick(id);
            }
          }
        }
      }
    }
  }

  /** A second confirm in a row does nothing. */
  lemma ConfirmTwice(pending: Option<string>)
    ensures var first := Step(pending, ConfirmDelete);
            Step(first.pending, ConfirmDelete) == StepResult(first.pending, None)
  {
  }

  /** Click, then confirm: exactly that course is deleted, once, and nothing stays
      pending; click, then cancel: nothing is deleted. */
  lemma ClickThenDecide(pending: Option<string>, id: string)
    requires id != ""
    ensures Run(pending, [DeleteClick(id), ConfirmDelete]) == (None, [id])
    ensures Run(pending, [DeleteClick(id), CancelDelete]) == (None, [])
  {
    var confirm, cancel := [DeleteClick(id), ConfirmDelete], [DeleteClick(id), CancelDelete];
    assert confirm[1..] == [ConfirmDelete] && cancel[1..] == [CancelDelete];
    assert [ConfirmDelete][1..] == [] && [CancelDelete][1..] == [];
    var afterConfirm := Run(Some(id), [ConfirmDelete]);
    assert afterConfirm.0 == None && afterConfirm.1 == [id];
    var afterCancel := Run(Some(id), [CancelDelete]);
    assert afterCancel.0 == None && afterCancel.1 == [];
    assert Deleted(Step(pending, DeleteClick(id))) == [];
    assert Run(pending, confirm).1 == [] + afterConfirm.1 == [id];
    assert Run(pending, confirm).0 == afterConfirm.0;
    assert Run(pending, cancel).1 == [] + afterCancel.1;
  }

  /** The store after the delete calls, in order. */
  function ApplyDeletes(cs: seq<Course>, ids: seq<string>): seq<Course>
    decreases |ids|
  {
    if |ids| == 0 then cs else ApplyDeletes(DeleteCourse(cs, ids[0]), ids[1..])
  }

  /** After the delete calls no course with any of the deleted ids is left, every
      course with another id is still there, and the remaining courses keep their
      order. */
  lemma {:induction false} ApplyDeletesRemoves(cs: seq<Course>, ids: seq<string>)
    ensures var r := ApplyDeletes(cs, ids);
            && IsSubsequence(r, cs)
            && (forall k :: 0 <= k < |ids| ==> !HasCourse(r, ids[k]))
            && (forall i :: 0 <= i < |cs| && cs[i].id !in ids ==> cs[i] in r)
    decreases |ids|
  {
    if |ids| == 0 {
      IsSubsequenceRefl(cs);
    } else {
      var d := DeleteCourse(cs, ids[0]);
      ApplyDeletesRemoves(d, ids[1..]);
      var r := ApplyDeletes(d, ids[1..]);
      IsSubsequenceTrans(r, d, cs);
      forall k | 0 <= k < |ids| ensures !HasCourse(r, ids[k]) {
        if k == 0 {
          SubsequenceKeepsAbsent(r, d, ids[0]);
        } else {
          assert ids[k] == ids[1..][k - 1];
        }
      }
      forall i | 0 <= i < |cs| && cs[i].id !in ids ensures cs[i] in r {
        assert cs[i].id != ids[0];
        var j :| 0 <= j < |d| && d[j] == cs[i];
        assert d[j].id !in ids[1..];
      }
    }
  }

  /** A course missing from a list is missing from every subsequence of it. */
  lemma SubsequenceKeepsAbsent(a: seq<Course>, b: seq<Course>, id: string)
    requires IsSubsequence(a, b) && !HasCourse(b, id)
    ensures !HasCourse(a, id)
  {
    forall i | 0 <= i < |a| ensures a[i].id != id {
      SubsequenceMember(a, b, i);
    }
  }
}
