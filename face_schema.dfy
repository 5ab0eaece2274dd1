/**
 * The face template document: one registered embedding per student. The
 * collection is kept as a map from student to template, so the unique
 * `studentId` is the map's key.
 */
module FaceSchema {
  import opened Common

  datatype FaceTemplate = FaceTemplate(studentId: UserId, embeddings: seq<real>, registeredAt: Time)

  /** The fields a caller passes to create a template; absent fields are `None`. */
  datatype FaceDraft = FaceDraft(
    studentId: Option<UserId>,
    embeddings: Option<seq<real>>,
    registeredAt: Option<Time>)

  /** Creating a template: student and embeddings are required, `registeredAt` defaults to the creation time. */
  function CreateTemplate(d: FaceDraft, now: Time): (r: Result<FaceTemplate, ValidationError>)
    ensures r.Ok? <==> d.studentId.Some? && d.embeddings.Some?
    ensures r.Ok? ==>
      && d.studentId == Some(r.value.studentId)
      && d.embeddings == Some(r.value.embeddings)
      && (d.registeredAt.None? ==> r.value.registeredAt == now)
      && (d.registeredAt.Some? ==> d.registeredAt == Some(r.value.registeredAt))
  {
    if d.studentId.None? then Err(MissingField("studentId"))
    else if d.embeddings.None? then Err(MissingField("embeddings"))
    else Ok(FaceTemplate(d.studentId.value, d.embeddings.value, if d.registeredAt.Some? then d.registeredAt.value else now))
  }

  /** Every template is filed under its own student. */
  predicate TemplatesKeyed(faces: map<UserId, FaceTemplate>)
  {
    forall s :: s in faces ==> faces[s].studentId == s
  }

  /** The unique `studentId`: no two stored templates belong to one student. */
  lemma {:induction false} OneTemplatePerStudent(faces: map<UserId, FaceTemplate>, t1: FaceTemplate, t2: FaceTemplate)
    requires TemplatesKeyed(faces)
    requires t1 in faces.Values && t2 in faces.Values
    requires t1.studentId == t2.studentId
    ensures t1 == t2
  {
    var k1 :| k1 in faces && faces[k1] == t1;
    var k2 :| k2 in faces && faces[k2] == t2;
    assert k1 == t1.studentId && k2 == t2.studentId;
  }
}
