/** The services of services.py: they check and normalise raw form input,
    in a fixed order whose first failure is the one reported, and hand the
    result to a repository. The clock reading `now` is a parameter. */
module Services {
  import opened Wrappers
  import opened Errors
  import opened Text
  import opened DateTimes
  import opened Utils
  import opened Models
  import opened Store
  import Repositories

  // =====================================================================
  // PatientService
  // =====================================================================

  /** The gender codes a patient may have. */
  predicate IsGender(g: string) {
    g == "M" || g == "F" || g == "Other" || g == "O"
  }

  /** Python's `g or None` on a string: the empty string becomes `None`. */
  function OrNone(g: string): Option<string> {
    if g == "" then None else Some(g)
  }

  /** A patient form that passed every check, already normalised. */
  datatype PatientForm = PatientForm(name: string, age: int, gender: string)

  /** The checks `create` and `update` share, in their order: the age must
      parse, then be positive; the name must not be blank; the stripped
      gender must be one of the codes. */
  function CheckPatient(name: string, ageRaw: string, gender: string): (r: Result<PatientForm, Error>)
    ensures r.Success? ==> r.value.age > 0 && ParseInt(ageRaw) == Success(r.value.age)
    ensures r.Success? ==> r.value.name == Strip(name) && r.value.name != []
    ensures r.Success? ==> r.value.gender == Strip(gender) && IsGender(r.value.gender)
    ensures ParseInt(ageRaw).Failure? ==> r == Failure(InvalidInteger(ageRaw))
    ensures ParseInt(ageRaw).Success? && ParseInt(ageRaw).value <= 0 ==> r == Failure(AgeNotPositive)
    ensures ParseInt(ageRaw).Success? && ParseInt(ageRaw).value > 0 && AllSpace(name) ==> r == Failure(EmptyName)
    ensures r.Failure? && !AllSpace(name) && ParseInt(ageRaw).Success? && ParseInt(ageRaw).value > 0
            ==> r == Failure(BadGender)
  {
    var age :- ParseInt(ageRaw);
    if age <= 0 then Failure(AgeNotPositive)
    else if Strip(name) == [] then Failure(EmptyName)
    else if !IsGender(Strip(gender)) then Failure(BadGender)
    else Success(PatientForm(Strip(name), age, Strip(gender)))
  }

  /** The patient form is accepted with age `v` exactly when the age text
      is a (whitespace-padded) decimal literal for a positive `v`, the name
      is not blank and the stripped gender is one of the codes. */
  lemma CheckPatientIff(name: string, ageRaw: string, gender: string, v: int)
    ensures (CheckPatient(name, ageRaw, gender).Success? && CheckPatient(name, ageRaw, gender).value.age == v)
            <==> IsPaddedDecimal(ageRaw, v) && v > 0 && !AllSpace(name) && IsGender(Strip(gender))
  {
    ParseIntIff(ageRaw, v);
  }

  /** A blank gender is rejected like any other unknown code; it is never
      stored as absent. */
  lemma BlankGenderRejected(name: string, ageRaw: string, gender: string)
    requires ParseInt(ageRaw).Success? && ParseInt(ageRaw).value > 0 && !AllSpace(name)
    requires AllSpace(gender)
    ensures CheckPatient(name, ageRaw, gender) == Failure(BadGender)
  {
  }

  /** The record a valid form becomes; the gender is stored as
      `gender.strip() or None`. */
  function PatientFromForm(id: Option<int>, form: PatientForm): Patient {
    Patient(id, form.name, Some(form.age), OrNone(form.gender), None)
  }

  /** The `or None` fallback never fires: an accepted gender is never
      empty, so a patient created or updated through the service always has
      one. */
  lemma AcceptedGenderIsKept(g: string)
    requires IsGender(g)
    ensures OrNone(g) == Some(g)
  {
  }

  /** `PatientService.create`: checks the form, then inserts the patient;
      returns its new id. */
  function CreatePatient(st: Store, name: string, ageRaw: string, gender: string, now: DateTime)
    : (r: Result<(Store, int), Error>)
    ensures r.Failure? <==> CheckPatient(name, ageRaw, gender).Failure?
    ensures r.Failure? ==> r.error == CheckPatient(name, ageRaw, gender).error
    ensures r.Success? ==> Repositories.GetPatient(r.value.0, r.value.1)
                           == Some(Patient(Some(r.value.1), Strip(name), Some(ParseInt(ageRaw).value),
                                           Some(Strip(gender)), Some(now)))
    ensures r.Success? ==> forall k :: k != r.value.1 ==> Repositories.GetPatient(r.value.0, k) == Repositories.GetPatient(st, k)
    ensures r.Success? ==> Repositories.OnlyPatientsChange(st, r.value.0)
    ensures r.Success? && Valid(st) ==> r.value.1 !in st.patients && Valid(r.value.0)
  {
    var form :- CheckPatient(name, ageRaw, gender);
    AcceptedGenderIsKept(form.gender);
    Success(Repositories.AddPatient(st, PatientFromForm(None, form), now))
  }

  /** `PatientService.update`: checks the form, then overwrites patient
      `pid`; reports whether such a patient existed. */
  function UpdatePatient(st: Store, pid: int, name: string, ageRaw: string, gender: string)
    : (r: Result<(Store, bool), Error>)
    ensures r.Failure? <==> CheckPatient(name, ageRaw, gender).Failure?
    ensures r.Failure? ==> r.error == CheckPatient(name, ageRaw, gender).error
    ensures r.Success? ==> (r.value.1 <==> pid in st.patients)
    ensures r.Success? && !r.value.1 ==> r.value.0 == st
    ensures r.Success? && r.value.1 ==>
              Repositories.GetPatient(r.value.0, pid)
              == Some(Patient(Some(pid), Strip(name), Some(ParseInt(ageRaw).value), Some(Strip(gender)),
                              Repositories.GetPatient(st, pid).value.createdAt))
    ensures r.Success? ==> forall k :: k != pid ==> Repositories.GetPatient(r.value.0, k) == Repositories.GetPatient(st, k)
    ensures r.Success? ==> Repositories.OnlyPatientsChange(st, r.value.0)
    ensures r.Success? && Valid(st) ==> Valid(r.value.0)
  {
    var form :- CheckPatient(name, ageRaw, gender);
    AcceptedGenderIsKept(form.gender);
    Success(Repositories.UpdatePatient(st, PatientFromForm(Some(pid), form)))
  }

  // =====================================================================
  // DoctorService
  // =====================================================================

  /** A doctor form that passed every check, already normalised. */
  datatype DoctorForm = DoctorForm(name: string, specialty: string)

  /** The checks `create` and `update` share: the name, then the specialty,
      must not be blank. */
  function CheckDoctor(name: string, specialty: string): (r: Result<DoctorForm, Error>)
    ensures r.Success? <==> !AllSpace(name) && !AllSpace(specialty)
    ensures r.Success? ==> r.value == DoctorForm(Strip(name), Strip(specialty))
    ensures AllSpace(name) ==> r == Failure(EmptyDoctorName)
    ensures !AllSpace(name) && AllSpace(specialty) ==> r == Failure(EmptySpecialty)
  {
    if Strip(name) == [] then Failure(EmptyDoctorName)
    else if Strip(specialty) == [] then Failure(EmptySpecialty)
    else Success(DoctorForm(Strip(name), Strip(specialty)))
  }

  function DoctorFromForm(id: Option<int>, form: DoctorForm): Doctor {
    Doctor(id, form.name, Some(form.specialty), None)
  }

  /** `DoctorService.create`: checks the form, then inserts the doctor;
      returns its new id. */
  function CreateDoctor(st: Store, name: string, specialty: string, now: DateTime)
    : (r: Result<(Store, int), Error>)
    ensures r.Failure? <==> AllSpace(name) || AllSpace(specialty)
    ensures r.Failure? ==> r.error == CheckDoctor(name, specialty).error
    ensures r.Success? ==> Repositories.GetDoctor(r.value.0, r.value.1)
                           == Some(Doctor(Some(r.value.1), Strip(name), Some(Strip(specialty)), Some(now)))
    ensures r.Success? ==> forall k :: k != r.value.1 ==> Repositories.GetDoctor(r.value.0, k) == Repositories.GetDoctor(st, k)
    ensures r.Success? ==> Repositories.OnlyDoctorsChange(st, r.value.0)
    ensures r.Success? && Valid(st) ==> r.value.1 !in st.doctors && Valid(r.value.0)
  {
    var form :- CheckDoctor(name, specialty);
    Success(Repositories.AddDoctor(st, DoctorFromForm(None, form), now))
  }

  /** `DoctorService.update`: checks the form, then overwrites doctor
      `did`; reports whether such a doctor existed. */
  function UpdateDoctor(st: Store, did: int, name: string, specialty: string)
    : (r: Result<(Store, bool), Error>)
    ensures r.Failure? <==> AllSpace(name) || AllSpace(specialty)
    ensures r.Failure? ==> r.error == CheckDoctor(name, specialty).error
    ensures r.Success? ==> (r.value.1 <==> did in st.doctors)
    ensures r.Success? && !r.value.1 ==> r.value.0 == st
    ensures r.Success? && r.value.1 ==>
              Repositories.GetDoctor(r.value.0, did)
              == Some(Doctor(Some(did), Strip(name), Some(Strip(specialty)),
                             Repositories.GetDoctor(st, did).value.createdAt))
    ensures r.Success? ==> forall k :: k != did ==> Repositories.GetDoctor(r.value.0, k) == Repositories.GetDoctor(st, k)
    ensures r.Success? ==> Repositories.OnlyDoctorsChange(st, r.value.0)
    ensures r.Success? && Valid(st) ==> Valid(r.value.0)
  {
    var form :- CheckDoctor(name, specialty);
    Success(Repositories.UpdateDoctor(st, DoctorFromForm(Some(did), form)))
  }

  // =====================================================================
  // AppointmentService
  // =====================================================================

  /** An appointment request that passed every check. */
  datatype AppointmentForm = AppointmentForm(patientId: int, doctorId: int, scheduledAt: DateTime)

  /** The checks of `schedule`, in their order: patient id, doctor id and
      time must parse (in that order); then the patient id, then the doctor
      id must be positive; then the time must not be before `now`. */
  function CheckAppointment(patientRaw: string, doctorRaw: string, timeRaw: string, now: DateTime)
    : (r: Result<AppointmentForm, Error>)
    ensures ParseInt(patientRaw).Failure? ==> r == Failure(InvalidInteger(patientRaw))
    ensures ParseInt(patientRaw).Success? && ParseInt(doctorRaw).Failure? ==> r == Failure(InvalidInteger(doctorRaw))
    ensures r.Success? ==>
              && ParseInt(patientRaw) == Success(r.value.patientId) && r.value.patientId > 0
              && ParseInt(doctorRaw) == Success(r.value.doctorId) && r.value.doctorId > 0
              && ParseDateTime(timeRaw) == Success(r.value.scheduledAt) && NotAfter(now, r.value.scheduledAt)
  {
    var pid :- ParseInt(patientRaw);
    var did :- ParseInt(doctorRaw);
    var at :- ParseDateTime(timeRaw);
    if pid <= 0 then Failure(InvalidPatientId)
    else if did <= 0 then Failure(InvalidDoctorId)
    else if Before(at, now) then Failure(PastSchedule)
    else Success(AppointmentForm(pid, did, at))
  }

  /** Checks are made in the source's order: with well-formed ids, the
      time is parsed before any id is judged, and the patient id is judged
      before the doctor id and before the time. */
  lemma CheckAppointmentOrder(patientRaw: string, doctorRaw: string, timeRaw: string, now: DateTime)
    requires ParseInt(patientRaw).Success? && ParseInt(doctorRaw).Success?
    ensures ParseDateTime(timeRaw).Failure? ==>
              CheckAppointment(patientRaw, doctorRaw, timeRaw, now) == Failure(InvalidDatetime)
    ensures ParseDateTime(timeRaw).Success? && ParseInt(patientRaw).value <= 0 ==>
              CheckAppointment(patientRaw, doctorRaw, timeRaw, now) == Failure(InvalidPatientId)
    ensures ParseDateTime(timeRaw).Success? && ParseInt(patientRaw).value > 0 && ParseInt(doctorRaw).value <= 0 ==>
              CheckAppointment(patientRaw, doctorRaw, timeRaw, now) == Failure(InvalidDoctorId)
    ensures ParseDateTime(timeRaw).Success? && ParseInt(patientRaw).value > 0 && ParseInt(doctorRaw).value > 0
            && Before(ParseDateTime(timeRaw).value, now) ==>
              CheckAppointment(patientRaw, doctorRaw, timeRaw, now) == Failure(PastSchedule)
  {
  }

  /** The request is accepted exactly when both ids are well-formed and
      positive and the time parses and is not before `now`: the equality
      `scheduled == now` is accepted. */
  lemma CheckAppointmentIff(patientRaw: string, doctorRaw: string, timeRaw: string, now: DateTime)
    ensures CheckAppointment(patientRaw, doctorRaw, timeRaw, now).Success?
            <==> && ParseInt(patientRaw).Success? && ParseInt(patientRaw).value > 0
                 && ParseInt(doctorRaw).Success? && ParseInt(doctorRaw).value > 0
                 && ParseDateTime(timeRaw).Success? && NotAfter(now, ParseDateTime(timeRaw).value)
  {
  }

  /** `AppointmentService.schedule`: checks the request, then inserts the
      appointment; returns its new id. The insert fails on the foreign keys
      when the patient or the doctor is not stored. */
  function Schedule(st: Store, patientRaw: string, doctorRaw: string, timeRaw: string,
                    notes: Option<string>, now: DateTime)
    : (r: Result<(Store, int), Error>)
    ensures CheckAppointment(patientRaw, doctorRaw, timeRaw, now).Failure? ==>
              r == Failure(CheckAppointment(patientRaw, doctorRaw, timeRaw, now).error)
    ensures CheckAppointment(patientRaw, doctorRaw, timeRaw, now).Success? ==>
              var form := CheckAppointment(patientRaw, doctorRaw, timeRaw, now).value;
              && (r.Failure? <==> form.patientId !in st.patients || form.doctorId !in st.doctors)
              && (r.Failure? ==> r.error == ForeignKeyViolation)
              && (r.Success? ==>
                    Repositories.IsStoredAppointment(r.value.0,
                      Appointment(Some(r.value.1), form.patientId, form.doctorId, form.scheduledAt, notes, Some(now))))
    ensures r.Success? ==> r.value.0.appointments.Keys == st.appointments.Keys + {r.value.1}
    ensures r.Success? ==> forall k :: k in st.appointments && k != r.value.1 ==> r.value.0.appointments[k] == st.appointments[k]
    ensures r.Success? ==> r.value.0.patients == st.patients && r.value.0.doctors == st.doctors
    ensures r.Success? && Valid(st) ==> r.value.1 !in st.appointments && Valid(r.value.0)
  {
    var form :- CheckAppointment(patientRaw, doctorRaw, timeRaw, now);
    Repositories.AddAppointment(st, Appointment(None, form.patientId, form.doctorId, form.scheduledAt, notes, None), now)
  }

  /** What `schedule` accepts at time `now` is listed by `list_upcoming`
      at that same time. */
  lemma ScheduledIsUpcoming(st: Store, patientRaw: string, doctorRaw: string, timeRaw: string,
                            notes: Option<string>, now: DateTime)
    requires Schedule(st, patientRaw, doctorRaw, timeRaw, notes, now).Success?
    ensures var (st', id) := Schedule(st, patientRaw, doctorRaw, timeRaw, notes, now).value;
            exists a :: a in Repositories.ListAppointments(st', true, now) && a.id == Some(id)
  {
    var (st', id) := Schedule(st, patientRaw, doctorRaw, timeRaw, notes, now).value;
    var form := CheckAppointment(patientRaw, doctorRaw, timeRaw, now).value;
    var a := Appointment(Some(id), form.patientId, form.doctorId, form.scheduledAt, notes, Some(now));
    assert a in Repositories.ListAppointments(st', true, now);
  }

  /** `AppointmentService.cancel`: parses the id, rejects a non-positive
      one, then deletes the appointment; reports whether it existed. */
  function Cancel(st: Store, idRaw: string): (r: Result<(Store, bool), Error>)
    ensures ParseInt(idRaw).Failure? ==> r == Failure(InvalidInteger(idRaw))
    ensures ParseInt(idRaw).Success? && ParseInt(idRaw).value <= 0 ==> r == Failure(InvalidAppointmentId)
    ensures r.Success? ==> ParseInt(idRaw).Success? && ParseInt(idRaw).value > 0
    ensures r.Success? ==> (r.value.1 <==> ParseInt(idRaw).value in st.appointments)
    ensures r.Success? ==> r.value.0.appointments.Keys == st.appointments.Keys - {ParseInt(idRaw).value}
    ensures r.Success? ==> forall k :: k in r.value.0.appointments ==> r.value.0.appointments[k] == st.appointments[k]
    ensures r.Success? ==> r.value.0.patients == st.patients && r.value.0.doctors == st.doctors
    ensures r.Success? && Valid(st) ==> Valid(r.value.0)
  {
    var aid :- ParseInt(idRaw);
    if aid <= 0 then Failure(InvalidAppointmentId)
    else Success(Repositories.DeleteAppointment(st, aid))
  }

  /** Cancelling, by its printed id, the appointment just scheduled
      succeeds and leaves the appointments as they were before. */
  lemma ScheduleThenCancel(st: Store, patientRaw: string, doctorRaw: string, timeRaw: string,
                           notes: Option<string>, now: DateTime)
    requires Valid(st)
    requires |IntToString(st.nextAppointmentId)| <= MaxStrDigits
    requires Schedule(st, patientRaw, doctorRaw, timeRaw, notes, now).Success?
    ensures var (st', id) := Schedule(st, patientRaw, doctorRaw, timeRaw, notes, now).value;
            && Cancel(st', IntToString(id)).Success?
            && Cancel(st', IntToString(id)).value.1
            && Cancel(st', IntToString(id)).value.0.appointments == st.appointments
  {
    var (st', id) := Schedule(st, patientRaw, doctorRaw, timeRaw, notes, now).value;
    assert id in st'.appointments && id == st.nextAppointmentId;
    ParseIntRoundTrip(id);
    var r := Cancel(st', IntToString(id));
    assert r.Success?;
    AddedThenRemoved(st.appointments, st'.appointments, r.value.0.appointments, id);
  }
}
