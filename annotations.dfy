/** `request(selectedIds)(data)`: the batch of logo annotations the page submits. */
module Annotations {
  import opened LogoTypes

  /** The form data: one annotation type and value for the whole batch. */
  datatype AnnotationForm = AnnotationForm(annotationType: string, value: string)

  /** One annotation of the batch sent to the annotation service. */
  datatype Annotation = Annotation(logoId: int, value: string, annotationType: string)

  /** One annotation per id, in order, all with the form's type and value. */
  function Annotate(ids: seq<int>, form: AnnotationForm): (batch: seq<Annotation>)
    ensures |batch| == |ids|
    ensures forall i :: 0 <= i < |batch| ==> batch[i] == Annotation(ids[i], form.value, form.annotationType)
  {
    if |ids| == 0 then [] else [Annotation(ids[0], form.value, form.annotationType)] + Annotate(ids[1..], form)
  }

  /** The batch `request` dispatches: none for null or undefined data (an empty type or
      value is still sent), otherwise one annotation per selected id. */
  function RequestBatch(selectedIds: seq<int>, data: Option<AnnotationForm>): (r: Option<seq<Annotation>>)
    ensures r.None? <==> data.None?
    ensures r.Some? ==> |r.value| == |selectedIds|
    ensures r.Some? ==> forall i :: 0 <= i < |r.value| ==>
              r.value[i] == Annotation(selectedIds[i], data.value.value, data.value.annotationType)
  {
    match data
    case None => None
    case Some(form) => Some(Annotate(selectedIds, form))
  }
}
