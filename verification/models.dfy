/** The entities of models.py: plain records, with `id` and `createdAt`
    absent (`None`) until the store assigns them. */
module Models {
  import opened Wrappers
  import opened DateTimes

  datatype Patient = Patient(
    id: Option<int>,
    name: string,
    age: Option<int>,
    gender: Option<string>,
    createdAt: Option<DateTime>)

  datatype Doctor = Doctor(
    id: Option<int>,
    name: string,
    specialty: Option<string>,
    createdAt: Option<DateTime>)

  datatype Appointment = Appointment(
    id: Option<int>,
    patientId: int,
    doctorId: int,
    scheduledAt: DateTime,
    notes: Option<string>,
    createdAt: Option<DateTime>)

  /** One record of the detailed appointment listing: the appointment
      joined with its patient's and doctor's names. */
  datatype AppointmentDetail = AppointmentDetail(
    appointmentId: int,
    patientId: int,
    patientName: string,
    doctorId: int,
    doctorName: string,
    scheduledAt: DateTime,
    notes: Option<string>)
}
