/** The appointment document (backend/models/appointmentModel.js) as the controllers see it.
    Every schema field is optional; the ones the controllers only pass around stay dynamic
    values. Identifiers stored as ObjectIds are represented by their hexadecimal strings. */
module Appointments {
  import opened JsValues

  /** The `clinical` sub-document; Mongoose supplies it (and its empty attachment list) by default. */
  datatype Clinical = Clinical(
    diagnosis: Js,
    prescriptions: seq<Js>,
    doctorNotes: Js,
    vitals: Js,
    attachments: seq<Js>,
    finalizedAt: Js,
    finalizedBy: Js)

  datatype Appointment = Appointment(
    userId: Option<string>,
    docId: Option<string>,
    userData: Js,
    amount: Option<real>,
    slotDate: Option<string>,
    slotTime: Option<string>,
    date: Js,
    isCompleted: bool,
    cancelled: bool,
    /** read by the dashboard; the schema excerpt does not declare it */
    payment: bool,
    clinical: Clinical)

  /** `x?.toString()` for an optional string field. */
  function IdStr(x: Option<string>): (r: Js)
    ensures r == Undef <==> x.None?
  {
    if x.Some? then Str(x.value) else Undef
  }

  /** A handler's answer: an HTTP error status with its message, or success with a value. */
  datatype Reply<T> = Fail(status: nat, message: string) | Done(value: T)
}
