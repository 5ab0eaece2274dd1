/**
 * Face enrollment: a student submits one image, the embedding service turns
 * it into an embedding, and the student's single template is created or
 * overwritten. The embedding service is an oracle parameter.
 */
module FaceController {
  import opened Common
  import opened FaceSchema
  import opened Store

  /** The embedding service's answer: the embedding, or a refusal with an optional detail. */
  datatype RegisterReply = Embedded(embedding: seq<real>) | Refused(detail: Option<string>)

  datatype FaceError = ImageRequired | RegistrationFailed(message: string)

  /** The message of a refused registration: the service's detail, or a fixed default when it gives none. */
  function RefusalMessage(detail: Option<string>): string
  {
    if detail.Some? && detail.value != "" then detail.value else "Face registration failed"
  }

  /** A missing or empty image is refused before the service is called. */
  predicate HasImage(image: Option<string>)
  {
    image.Some? && image.value != ""
  }

  /**
   * `registerFace`: with an image and an embedding, the student ends up with
   * exactly one template holding that embedding, stamped now, whether one
   * existed before or not; every failure leaves the store as it was.
   */
  method RegisterFace(st: Store, student: UserId, image: Option<string>, register: string -> RegisterReply, now: Time)
    returns (r: Result<FaceTemplate, FaceError>, consulted: bool)
    requires st.Valid()
    modifies st
    ensures st.Valid() && st.events == old(st.events)
    ensures consulted == HasImage(image)
    ensures !HasImage(image) ==> r == Err(ImageRequired) && st.View() == old(st.View())
    ensures HasImage(image) && register(image.value).Refused? ==>
      r == Err(RegistrationFailed(RefusalMessage(register(image.value).detail))) && st.View() == old(st.View())
    ensures HasImage(image) && register(image.value).Embedded? ==>
      && r == Ok(FaceTemplate(student, register(image.value).embedding, now))
      && st.View() == old(st.View()).(faces := old(st.faces)[student := r.value])
  {
    if !HasImage(image) {
      return Err(ImageRequired), false;
    }
    var reply := register(image.value);
    if reply.Refused? {
      return Err(RegistrationFailed(RefusalMessage(reply.detail))), true;
    }
    var t: FaceTemplate;
    if student in st.faces {
      // the stored template is overwritten in place
      t := st.faces[student].(embeddings := reply.embedding, registeredAt := now);
    } else {
      var created := CreateTemplate(FaceDraft(Some(student), Some(reply.embedding), None), now);
      t := created.value;
    }
    st.PutTemplate(t);
    return Ok(t), true;
  }

  /** `getFaceStatus`: whether a template exists for the student. */
  function FaceStatus(db: Db, student: UserId): (registered: bool)
    requires TemplatesKeyed(db.faces)
    ensures registered <==> exists t :: t in db.faces.Values && t.studentId == student
  {
    if student in db.faces then
      assert db.faces[student] in db.faces.Values;
      true
    else
      false
  }

  /** After a successful registration the student's status reads as registered, with the new embedding on file. */
  lemma {:induction false} RegisteredAfterRegister(db: Db, student: UserId, embedding: seq<real>, now: Time)
    requires TemplatesKeyed(db.faces)
    ensures var db' := db.(faces := db.faces[student := FaceTemplate(student, embedding, now)]);
      && TemplatesKeyed(db'.faces)
      && FaceStatus(db', student)
      && db'.faces[student].embeddings == embedding
      && forall other :: other != student ==> FaceStatus(db', other) == FaceStatus(db, other)
  {
  }
}
