/**
 * The contact form component (src/components/ContactForm.tsx): six text fields
 * and a four-valued submission status. The network call is external: a
 * submission's settlement arrives as an event carrying whether the response was
 * ok. The 4000 ms timers that return the status to idle are events as well.
 */
module ContactForm {
  import opened Wrappers
  import ContactRoute

  /** The `name` attributes of the six inputs. */
  datatype Field = Name | Email | Company | ProjectType | Budget | Description

  datatype FormData = FormData(
    name: string, email: string, company: string,
    projectType: string, budget: string, description: string)

  datatype Status = Idle | Submitting | Success | Error

  const Blank: FormData := FormData("", "", "", "", "", "")

  function Get(d: FormData, f: Field): string
  {
    match f
    case Name => d.name
    case Email => d.email
    case Company => d.company
    case ProjectType => d.projectType
    case Budget => d.budget
    case Description => d.description
  }

  /** `{...prev, [name]: value}`: the named field gets the value, the other five are kept. */
  function Update(d: FormData, f: Field, v: string): (r: FormData)
    ensures Get(r, f) == v
    ensures forall g :: g != f ==> Get(r, g) == Get(d, g)
  {
    match f
    case Name => d.(name := v)
    case Email => d.(email := v)
    case Company => d.(company := v)
    case ProjectType => d.(projectType := v)
    case Budget => d.(budget := v)
    case Description => d.(description := v)
  }

  /** Two records that agree on every field are the same record. */
  lemma FieldsDetermineForm(d: FormData, e: FormData)
    requires forall f :: Get(d, f) == Get(e, f)
    ensures d == e
  {
    assert Get(d, Name) == Get(e, Name) && Get(d, Email) == Get(e, Email);
    assert Get(d, Company) == Get(e, Company) && Get(d, ProjectType) == Get(e, ProjectType);
    assert Get(d, Budget) == Get(e, Budget) && Get(d, Description) == Get(e, Description);
  }

  /** Writing back a field's own value changes nothing; a second write to a field overrides the first. */
  lemma UpdateLaws(d: FormData, f: Field, v: string, w: string)
    ensures Update(d, f, Get(d, f)) == d
    ensures Update(Update(d, f, v), f, w) == Update(d, f, w)
  {
    FieldsDetermineForm(Update(d, f, Get(d, f)), d);
    FieldsDetermineForm(Update(Update(d, f, v), f, w), Update(d, f, w));
  }

  /**
   * JSON.stringify(formData) as the endpoint reads it back: every key present, so
   * the endpoint's checks come down to the form's own fields being non-empty.
   */
  function Payload(d: FormData): (p: ContactRoute.Payload)
    ensures ContactRoute.Complete(p) <==> RequiredFilled(d)
    ensures ContactRoute.CompanyText(p.company) ==
      if d.company == "" then ContactRoute.NotProvided else d.company
  {
    ContactRoute.Payload(Some(d.name), Some(d.email), Some(d.company),
                         Some(d.projectType), Some(d.budget), Some(d.description))
  }

  /** The fields the endpoint requires are filled in. */
  predicate RequiredFilled(d: FormData)
  {
    d.name != "" && d.email != "" && d.projectType != "" && d.budget != "" && d.description != ""
  }

  /**
   * What the endpoint makes of a submitted form: an ok (200) response exactly when
   * the required fields are filled and the send call returns; the email replies to
   * the form's address and names the project type and the sender in its subject.
   */
  lemma SubmittedFormOutcome(d: FormData, delivered: bool)
    ensures var r := ContactRoute.Post(Some(Payload(d)), delivered);
      (r.response.status == 200 <==> RequiredFilled(d) && delivered) &&
      (r.response.status == 400 <==> !RequiredFilled(d)) &&
      (r.attempted.Some? ==>
        r.attempted.value.replyTo == d.email &&
        r.attempted.value.subject == "Quote Request: " + d.projectType + " - " + d.name)
  {
  }

  class Form {
    var data: FormData
    var status: Status
    /** Submissions whose fetch has not settled yet. */
    var inFlight: nat
    /** 4000 ms reset timers not yet fired. */
    var pendingResets: nat

    /**
     * Submitting is waiting on a fetch, and success or error is waiting on a
     * reset timer.
     */
    ghost predicate Valid()
      reads this
    {
      (status == Submitting ==> inFlight > 0) &&
      (status == Success || status == Error ==> pendingResets > 0)
    }

    constructor ()
      ensures Valid()
      ensures data == Blank && status == Idle && inFlight == 0 && pendingResets == 0
    {
      data := Blank;
      status := Idle;
      inFlight, pendingResets := 0, 0;
    }

    /** handleChange. */
    method Change(f: Field, v: string)
      requires Valid()
      modifies this
      ensures Valid()
      ensures data == Update(old(data), f, v)
      ensures status == old(status) && inFlight == old(inFlight) && pendingResets == old(pendingResets)
    {
      data := Update(data, f, v);
    }

    /**
     * handleSubmit up to the fetch. The submit button is disabled while
     * submitting, so a submission then starts nothing; otherwise the status
     * becomes submitting and the current data is what is sent.
     */
    method Submit() returns (sent: Option<FormData>)
      requires Valid()
      modifies this
      ensures Valid()
      ensures sent.Some? <==> old(status) != Submitting
      ensures sent.Some? ==> sent.value == old(data) && status == Submitting && inFlight == old(inFlight) + 1
      ensures sent.None? ==> status == old(status) && inFlight == old(inFlight)
      ensures data == old(data) && pendingResets == old(pendingResets)
    {
      if status == Submitting {
        return None;
      }
      status := Submitting;
      inFlight := inFlight + 1;
      sent := Some(data);
    }

    /**
     * A submission's fetch settles: an ok response means success and a blank
     * form; a non-ok response or a thrown fetch means error with the data kept.
     * Either way a reset timer is scheduled.
     */
    method Settle(ok: bool)
      requires Valid() && inFlight > 0
      modifies this
      ensures Valid()
      ensures ok ==> status == Success && data == Blank
      ensures !ok ==> status == Error && data == old(data)
      ensures inFlight == old(inFlight) - 1 && pendingResets == old(pendingResets) + 1
    {
      if ok {
        status := Success;
        data := Blank;
      } else {
        status := Error;
      }
      pendingResets := pendingResets + 1;
      inFlight := inFlight - 1;
    }

    /** A reset timer fires. */
    method ResetFires()
      requires Valid() && pendingResets > 0
      modifies this
      ensures Valid()
      ensures status == Idle && pendingResets == old(pendingResets) - 1
      ensures data == old(data) && inFlight == old(inFlight)
    {
      status := Idle;
      pendingResets := pendingResets - 1;
    }
  }

  /**
   * The reset timer of a finished submission can fire while a later submission is
   * in flight: the status returns to idle, the button is enabled again, and a
   * third submission starts beside the pending one.
   */
  method StaleResetReopensSubmission()
  {
    var form := new Form();
    var first := form.Submit();
    form.Settle(true);
    var second := form.Submit();
    assert second.Some? && form.status == Submitting;
    form.ResetFires();
    assert form.status == Idle;
    var third := form.Submit();
    assert third.Some? && form.inFlight == 2;
  }
}
