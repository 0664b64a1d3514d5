/** The errors the record manager reports, one constructor per raised message. */
module Errors {

  datatype Error =
      /** `parse_int`: "Invalid Integer: <value>", carrying the offending text. */
    | InvalidInteger(text: string)
      /** `parse_datetime`: "Invalid datetime. Expected formats: [...]". */
    | InvalidDatetime
      /** "Age must be a positive integer". */
    | AgeNotPositive
      /** "Name cannot be empty" (patients). */
    | EmptyName
      /** "Gender must be M, F, or Other". */
    | BadGender
      /** "Doctor name cannot be empty". */
    | EmptyDoctorName
      /** "Specialty cannot be empty". */
    | EmptySpecialty
      /** "Invalid patient id". */
    | InvalidPatientId
      /** "Invalid doctor id". */
    | InvalidDoctorId
      /** "Cannot schedule an appointment in the past". */
    | PastSchedule
      /** "Invalid appointment id". */
    | InvalidAppointmentId
      /** The store rejected a statement because it would break a foreign key
          from `appointments` to `patients` or `doctors`. */
    | ForeignKeyViolation
}
