/**
 * The task form (components/NewTaskModal.tsx): its initial values, how it is
 * filled in from the task being edited, and the task its submit handler
 * builds. Geolocation and the Maps lookup are not modelled as calls: the
 * lookup's answer is a parameter, used only where the handler awaits it.
 */
module NewTaskModal {
  import opened Types

  /** The form's fields; a blank date or time is "". */
  datatype Form = Form(
    title: string,
    description: string,
    location: string,
    category: Category,
    time: string,
    date: string)

  /** The form as it opens for a new task: everything blank, category Lavoro. */
  const DefaultForm := Form("", "", "", Lavoro, "", "")

  /** The form as it opens: the edited task's fields, or the defaults for a new task. */
  function Prefill(editing: Option<Task>): Form
  {
    match editing
    case None => DefaultForm
    case Some(t) => Form(t.title, t.description, t.location, t.category, t.time, t.date)
  }

  /** What the Maps lookup answers: a link and a description. */
  datatype MapsInfo = MapsInfo(mapsUrl: string, text: string)

  /** Whether the handler asks the Maps lookup: for a new task, or when the location was changed. */
  predicate NeedsLookup(editing: Option<Task>, form: Form)
  {
    editing.None? || form.location != editing.value.location
  }

  /**
   * The task `handleSubmit` hands to `onSave`, or None when it returns early
   * because the title or the location is blank. `lookup` is the lookup's
   * answer and `freshId` the id made from the clock.
   */
  function Submit(editing: Option<Task>, form: Form, lookup: MapsInfo, freshId: string): (r: Option<Task>)
    ensures r.None? <==> form.title == "" || form.location == ""
    ensures r.Some? ==> Form(r.value.title, r.value.description, r.value.location,
                             r.value.category, r.value.time, r.value.date) == form
  {
    if !Present(form.title) || !Present(form.location) then None
    else
      var mapsUrl := if NeedsLookup(editing, form) then lookup.mapsUrl else editing.value.mapsUrl;
      var mapsDetails := if NeedsLookup(editing, form) then lookup.text else editing.value.mapsDetails;
      var id := if editing.Some? && Present(editing.value.id) then editing.value.id else freshId;
      Some(Task(id, form.title, form.description, form.location, form.category, form.time, form.date, mapsUrl, mapsDetails))
  }

  /** An edited task keeps its id (unless it had none); a new task gets the fresh id. */
  lemma SubmitId(editing: Option<Task>, form: Form, lookup: MapsInfo, freshId: string)
    requires Submit(editing, form, lookup, freshId).Some?
    ensures editing.Some? && Present(editing.value.id) ==> Submit(editing, form, lookup, freshId).value.id == editing.value.id
    ensures editing.Some? && !Present(editing.value.id) ==> Submit(editing, form, lookup, freshId).value.id == freshId
    ensures editing.None? ==> Submit(editing, form, lookup, freshId).value.id == freshId
  {
  }

  /**
   * The Maps fields come from the lookup exactly for a new task or a changed
   * location; otherwise they are the edited task's, and the lookup's answer
   * plays no part.
   */
  lemma SubmitMapsFields(editing: Option<Task>, form: Form, lookup: MapsInfo, freshId: string)
    requires Submit(editing, form, lookup, freshId).Some?
    ensures var t := Submit(editing, form, lookup, freshId).value;
      && (NeedsLookup(editing, form) ==> t.mapsUrl == lookup.mapsUrl && t.mapsDetails == lookup.text)
      && (!NeedsLookup(editing, form) ==> t.mapsUrl == editing.value.mapsUrl && t.mapsDetails == editing.value.mapsDetails)
    ensures !NeedsLookup(editing, form) ==>
      forall other: MapsInfo :: Submit(editing, form, other, freshId) == Submit(editing, form, lookup, freshId)
  {
  }

  /**
   * Opening a task for editing and saving the form unchanged gives back the
   * same task, whatever the lookup would answer and whatever the clock says,
   * provided the task has an id, a title and a location.
   */
  lemma EditUnchangedIsIdentity(t: Task, lookup: MapsInfo, freshId: string)
    requires Present(t.id) && Present(t.title) && Present(t.location)
    ensures Submit(Some(t), Prefill(Some(t)), lookup, freshId) == Some(t)
  {
  }

  /** The form opens blank for a new task, and a blank form cannot be saved. */
  lemma NewFormIsBlank(lookup: MapsInfo, freshId: string)
    ensures Prefill(None) == DefaultForm && DefaultForm.category == Lavoro
    ensures Submit(None, Prefill(None), lookup, freshId).None?
  {
  }
}
