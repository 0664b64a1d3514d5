/** The three repositories of repositories.py, each statement of theirs
    stated as a function of the store it runs against: a query returns
    records, a write returns the next store and what the statement reports
    back (the new identity value, or whether any row was affected). */
module Repositories {
  import opened Wrappers
  import opened Errors
  import opened Text
  import opened DateTimes
  import opened Sorting
  import opened Models
  import opened Store

  /** Ids (read from each record by `id`) present and strictly increasing:
      the order `ORDER BY id` gives, and each row at most once. */
  predicate IdsIncrease<T>(s: seq<T>, id: T -> Option<int>) {
    forall i, j :: 0 <= i < j < |s| ==> id(s[i]).Some? && id(s[j]).Some? && id(s[i]).value < id(s[j]).value
  }

  // =====================================================================
  // PatientRepository
  // =====================================================================

  /** The record `SELECT id, name, age, gender, created_at` yields for a row. */
  function PatientOf(id: int, row: PatientRow): Patient {
    Patient(Some(id), row.name, row.age, row.gender, Some(row.createdAt))
  }

  /** `p` is exactly what the store holds under `p.id`. */
  ghost predicate IsStoredPatient(st: Store, p: Patient) {
    p.id.Some? && p.id.value in st.patients && p == PatientOf(p.id.value, st.patients[p.id.value])
  }

  /** Only the `patients` table (and its counter) may differ. */
  predicate OnlyPatientsChange(st: Store, st': Store) {
    && st'.doctors == st.doctors && st'.nextDoctorId == st.nextDoctorId
    && st'.appointments == st.appointments && st'.nextAppointmentId == st.nextAppointmentId
  }

  /** The stored patients with the given ids, in the order of `ids`. */
  function PatientsAt(st: Store, ids: seq<int>): (r: seq<Patient>)
    requires forall k :: k in ids ==> k in st.patients
    ensures |r| == |ids|
    ensures forall i :: 0 <= i < |ids| ==> r[i] == PatientOf(ids[i], st.patients[ids[i]])
  {
    seq(|ids|, i requires 0 <= i < |ids| => PatientOf(ids[i], st.patients[ids[i]]))
  }

  /** Looking up increasing ids yields exactly the stored patients with
      those ids, by increasing id. */
  lemma PatientsAtSpec(st: Store, ids: seq<int>)
    requires forall k :: k in ids ==> k in st.patients
    requires StrictlyIncreasing(ids)
    ensures forall p :: p in PatientsAt(st, ids) <==> IsStoredPatient(st, p) && p.id.value in ids
    ensures IdsIncrease(PatientsAt(st, ids), (p: Patient) => p.id)
  {
    var r := PatientsAt(st, ids);
    forall p | IsStoredPatient(st, p) && p.id.value in ids ensures p in r {
      var i :| 0 <= i < |ids| && ids[i] == p.id.value;
      assert r[i] == p;
    }
  }

  /** `PatientRepository.add`: inserts the patient's name, age and gender
      under the next identity value, stamps the row with `now`, and returns
      that id. The record's own `id` and `createdAt` are ignored. */
  function AddPatient(st: Store, p: Patient, now: DateTime): (r: (Store, int))
    ensures Valid(st) ==> r.1 !in st.patients && forall k :: k in st.patients ==> k < r.1
    ensures GetPatient(r.0, r.1) == Some(p.(id := Some(r.1), createdAt := Some(now)))
    ensures forall k :: k != r.1 ==> GetPatient(r.0, k) == GetPatient(st, k)
    ensures r.0.patients.Keys == st.patients.Keys + {r.1}
    ensures OnlyPatientsChange(st, r.0)
    ensures Valid(st) ==> Valid(r.0)
  {
    var id := st.nextPatientId;
    var row := PatientRow(p.name, p.age, p.gender, now);
    (st.(patients := st.patients[id := row], nextPatientId := id + 1), id)
  }

  /** `PatientRepository.list_all`: every stored patient, by ascending id. */
  function ListPatients(st: Store): (r: seq<Patient>)
    ensures forall p :: p in r <==> IsStoredPatient(st, p)
    ensures IdsIncrease(r, (p: Patient) => p.id)
    ensures |r| == |st.patients|
  {
    var ids := SortedIds(st.patients.Keys);
    PatientsAtSpec(st, ids);
    PatientsAt(st, ids)
  }

  /** `PatientRepository.get_by_id`: the patient stored under `pid`, if any. */
  function GetPatient(st: Store, pid: int): (r: Option<Patient>)
    ensures r.Some? <==> pid in st.patients
    ensures r.Some? ==> IsStoredPatient(st, r.value) && r.value.id == Some(pid)
  {
    if pid in st.patients then Some(PatientOf(pid, st.patients[pid])) else None
  }

  /** `PatientRepository.search_by_name`: the patients whose name contains
      `q` (`name LIKE '%q%'`), each once. */
  function SearchPatients(st: Store, q: string): (r: seq<Patient>)
    ensures forall p :: p in r <==> IsStoredPatient(st, p) && Contains(p.name, q)
    ensures IdsIncrease(r, (p: Patient) => p.id)
  {
    var ids := FilterIds(SortedIds(st.patients.Keys),
                         k => k in st.patients && Contains(st.patients[k].name, q));
    PatientsAtSpec(st, ids);
    PatientsAt(st, ids)
  }

  /** `PatientRepository.update`: overwrites name, age and gender of the row
      whose id is `p.id`, keeping its creation time; reports whether a row
      was affected. A record without an id (`WHERE id = NULL`) matches
      nothing. */
  function UpdatePatient(st: Store, p: Patient): (r: (Store, bool))
    ensures r.1 <==> p.id.Some? && p.id.value in st.patients
    ensures !r.1 ==> r.0 == st
    ensures r.1 ==> GetPatient(r.0, p.id.value) == Some(p.(createdAt := GetPatient(st, p.id.value).value.createdAt))
    ensures forall k :: p.id != Some(k) ==> GetPatient(r.0, k) == GetPatient(st, k)
    ensures r.0.patients.Keys == st.patients.Keys && r.0.nextPatientId == st.nextPatientId
    ensures OnlyPatientsChange(st, r.0)
    ensures Valid(st) ==> Valid(r.0)
  {
    match p.id
    case None => (st, false)
    case Some(id) =>
      if id in st.patients then
        var row := PatientRow(p.name, p.age, p.gender, st.patients[id].createdAt);
        (st.(patients := st.patients[id := row]), true)
      else (st, false)
  }

  /** `PatientRepository.delete`: removes the row `pid` and reports whether
      one was removed; the foreign key from `appointments` makes the
      statement fail while an appointment still refers to the patient. */
  function DeletePatient(st: Store, pid: int): (r: Result<(Store, bool), Error>)
    ensures r.Failure? <==> pid in st.patients && PatientReferenced(st, pid)
    ensures r.Failure? ==> r.error == ForeignKeyViolation
    ensures r.Success? ==> (r.value.1 <==> pid in st.patients)
    ensures r.Success? ==> GetPatient(r.value.0, pid) == None
    ensures r.Success? ==> forall k :: k != pid ==> GetPatient(r.value.0, k) == GetPatient(st, k)
    ensures r.Success? ==> r.value.0.nextPatientId == st.nextPatientId && OnlyPatientsChange(st, r.value.0)
    ensures r.Success? && Valid(st) ==> Valid(r.value.0)
  {
    if pid !in st.patients then Success((st, false))
    else if PatientReferenced(st, pid) then Failure(ForeignKeyViolation)
    else Success((st.(patients := st.patients - {pid}), true))
  }

  /** A patient just added can be deleted again at once, and that restores
      the table as it was. */
  lemma AddThenDeletePatient(st: Store, p: Patient, now: DateTime)
    requires Valid(st)
    ensures var (st', id) := AddPatient(st, p, now);
            DeletePatient(st', id).Success?
            && DeletePatient(st', id).value.1
            && DeletePatient(st', id).value.0.patients == st.patients
  {
    var (st', id) := AddPatient(st, p, now);
    assert st'.patients - {id} == st.patients;
  }

  // =====================================================================
  // DoctorRepository
  // =====================================================================

  /** The record `SELECT id, name, specialty, created_at` yields for a row. */
  function DoctorOf(id: int, row: DoctorRow): Doctor {
    Doctor(Some(id), row.name, row.specialty, Some(row.createdAt))
  }

  /** `d` is exactly what the store holds under `d.id`. */
  ghost predicate IsStoredDoctor(st: Store, d: Doctor) {
    d.id.Some? && d.id.value in st.doctors && d == DoctorOf(d.id.value, st.doctors[d.id.value])
  }

  /** Only the `doctors` table (and its counter) may differ. */
  predicate OnlyDoctorsChange(st: Store, st': Store) {
    && st'.patients == st.patients && st'.nextPatientId == st.nextPatientId
    && st'.appointments == st.appointments && st'.nextAppointmentId == st.nextAppointmentId
  }

  /** `specialty LIKE '%q%'`: a missing (NULL) specialty never matches. */
  predicate SpecialtyMatches(specialty: Option<string>, q: string) {
    specialty.Some? && Contains(specialty.value, q)
  }

  /** The stored doctors with the given ids, in the order of `ids`. */
  function DoctorsAt(st: Store, ids: seq<int>): (r: seq<Doctor>)
    requires forall k :: k in ids ==> k in st.doctors
    ensures |r| == |ids|
    ensures forall i :: 0 <= i < |ids| ==> r[i] == DoctorOf(ids[i], st.doctors[ids[i]])
  {
    seq(|ids|, i requires 0 <= i < |ids| => DoctorOf(ids[i], st.doctors[ids[i]]))
  }

  /** Looking up increasing ids yields exactly the stored doctors with
      those ids, by increasing id. */
  lemma DoctorsAtSpec(st: Store, ids: seq<int>)
    requires forall k :: k in ids ==> k in st.doctors
    requires StrictlyIncreasing(ids)
    ensures forall d :: d in DoctorsAt(st, ids) <==> IsStoredDoctor(st, d) && d.id.value in ids
    ensures IdsIncrease(DoctorsAt(st, ids), (d: Doctor) => d.id)
  {
    var r := DoctorsAt(st, ids);
    forall d | IsStoredDoctor(st, d) && d.id.value in ids ensures d in r {
      var i :| 0 <= i < |ids| && ids[i] == d.id.value;
      assert r[i] == d;
    }
  }

  /** `DoctorRepository.add`: inserts name and specialty under the next
      identity value, stamps the row with `now`, and returns that id. */
  function AddDoctor(st: Store, d: Doctor, now: DateTime): (r: (Store, int))
    ensures Valid(st) ==> r.1 !in st.doctors && forall k :: k in st.doctors ==> k < r.1
    ensures GetDoctor(r.0, r.1) == Some(d.(id := Some(r.1), createdAt := Some(now)))
    ensures forall k :: k != r.1 ==> GetDoctor(r.0, k) == GetDoctor(st, k)
    ensures r.0.doctors.Keys == st.doctors.Keys + {r.1}
    ensures OnlyDoctorsChange(st, r.0)
    ensures Valid(st) ==> Valid(r.0)
  {
    var id := st.nextDoctorId;
    var row := DoctorRow(d.name, d.specialty, now);
    (st.(doctors := st.doctors[id := row], nextDoctorId := id + 1), id)
  }

  /** `DoctorRepository.list_all`: every stored doctor, by ascending id. */
  function ListDoctors(st: Store): (r: seq<Doctor>)
    ensures forall d :: d in r <==> IsStoredDoctor(st, d)
    ensures IdsIncrease(r, (d: Doctor) => d.id)
    ensures |r| == |st.doctors|
  {
    var ids := SortedIds(st.doctors.Keys);
    DoctorsAtSpec(st, ids);
    DoctorsAt(st, ids)
  }

  /** `DoctorRepository.get_by_id`: the doctor stored under `did`, if any. */
  function GetDoctor(st: Store, did: int): (r: Option<Doctor>)
    ensures r.Some? <==> did in st.doctors
    ensures r.Some? ==> IsStoredDoctor(st, r.value) && r.value.id == Some(did)
  {
    if did in st.doctors then Some(DoctorOf(did, st.doctors[did])) else None
  }

  /** `DoctorRepository.search_by_specialist`: the doctors whose specialty
      contains `q`, each once. */
  function SearchDoctors(st: Store, q: string): (r: seq<Doctor>)
    ensures forall d :: d in r <==> IsStoredDoctor(st, d) && SpecialtyMatches(d.specialty, q)
    ensures IdsIncrease(r, (d: Doctor) => d.id)
  {
    var ids := FilterIds(SortedIds(st.doctors.Keys),
                         k => k in st.doctors && SpecialtyMatches(st.doctors[k].specialty, q));
    DoctorsAtSpec(st, ids);
    DoctorsAt(st, ids)
  }

  /** `DoctorRepository.update`: overwrites name and specialty of the row
      whose id is `d.id`, keeping its creation time; reports whether a row
      was affected. */
  function UpdateDoctor(st: Store, d: Doctor): (r: (Store, bool))
    ensures r.1 <==> d.id.Some? && d.id.value in st.doctors
    ensures !r.1 ==> r.0 == st
    ensures r.1 ==> GetDoctor(r.0, d.id.value) == Some(d.(createdAt := GetDoctor(st, d.id.value).value.createdAt))
    ensures forall k :: d.id != Some(k) ==> GetDoctor(r.0, k) == GetDoctor(st, k)
    ensures r.0.doctors.Keys == st.doctors.Keys && r.0.nextDoctorId == st.nextDoctorId
    ensures OnlyDoctorsChange(st, r.0)
    ensures Valid(st) ==> Valid(r.0)
  {
    match d.id
    case None => (st, false)
    case Some(id) =>
      if id in st.doctors then
        var row := DoctorRow(d.name, d.specialty, st.doctors[id].createdAt);
        (st.(doctors := st.doctors[id := row]), true)
      else (st, false)
  }

  /** `DoctorRepository.delete`: removes the row `did` and reports whether
      one was removed; fails while an appointment still refers to the
      doctor. */
  function DeleteDoctor(st: Store, did: int): (r: Result<(Store, bool), Error>)
    ensures r.Failure? <==> did in st.doctors && DoctorReferenced(st, did)
    ensures r.Failure? ==> r.error == ForeignKeyViolation
    ensures r.Success? ==> (r.value.1 <==> did in st.doctors)
    ensures r.Success? ==> GetDoctor(r.value.0, did) == None
    ensures r.Success? ==> forall k :: k != did ==> GetDoctor(r.value.0, k) == GetDoctor(st, k)
    ensures r.Success? ==> r.value.0.nextDoctorId == st.nextDoctorId && OnlyDoctorsChange(st, r.value.0)
    ensures r.Success? && Valid(st) ==> Valid(r.value.0)
  {
    if did !in st.doctors then Success((st, false))
    else if DoctorReferenced(st, did) then Failure(ForeignKeyViolation)
    else Success((st.(doctors := st.doctors - {did}), true))
  }

  /** A doctor just added can be deleted again at once, and that restores
      the table as it was. */
  lemma AddThenDeleteDoctor(st: Store, d: Doctor, now: DateTime)
    requires Valid(st)
    ensures var (st', id) := AddDoctor(st, d, now);
            DeleteDoctor(st', id).Success?
            && DeleteDoctor(st', id).value.1
            && DeleteDoctor(st', id).value.0.doctors == st.doctors
  {
    var (st', id) := AddDoctor(st, d, now);
    assert st'.doctors - {id} == st.doctors;
  }

  // =====================================================================
  // AppointmentRepository
  // =====================================================================

  /** The record `SELECT id, patient_id, doctor_id, scheduled_at, notes,
      created_at` yields for a row. */
  function AppointmentOf(id: int, row: AppointmentRow): Appointment {
    Appointment(Some(id), row.patientId, row.doctorId, row.scheduledAt, row.notes, Some(row.createdAt))
  }

  /** `a` is exactly what the store holds under `a.id`. */
  ghost predicate IsStoredAppointment(st: Store, a: Appointment) {
    a.id.Some? && a.id.value in st.appointments && a == AppointmentOf(a.id.value, st.appointments[a.id.value])
  }

  /** The sort key of both appointment listings. */
  function ScheduledAt(a: Appointment): DateTime {
    a.scheduledAt
  }

  /** `scheduled_at >= GETDATE()`, the clock reading being `now`. */
  predicate IsUpcoming(a: Appointment, now: DateTime) {
    NotAfter(now, a.scheduledAt)
  }

  /** The stored appointments with the given ids, in the order of `ids`. */
  function AppointmentsAt(st: Store, ids: seq<int>): (r: seq<Appointment>)
    requires forall k :: k in ids ==> k in st.appointments
    ensures |r| == |ids|
    ensures forall i :: 0 <= i < |ids| ==> r[i] == AppointmentOf(ids[i], st.appointments[ids[i]])
  {
    seq(|ids|, i requires 0 <= i < |ids| => AppointmentOf(ids[i], st.appointments[ids[i]]))
  }

  /** Looking up increasing ids yields exactly the stored appointments
      with those ids, each once. */
  lemma AppointmentsAtSpec(st: Store, ids: seq<int>)
    requires forall k :: k in ids ==> k in st.appointments
    requires StrictlyIncreasing(ids)
    ensures forall a :: a in AppointmentsAt(st, ids) <==> IsStoredAppointment(st, a) && a.id.value in ids
    ensures Distinct(AppointmentsAt(st, ids))
  {
    var r := AppointmentsAt(st, ids);
    forall a | IsStoredAppointment(st, a) && a.id.value in ids ensures a in r {
      var i :| 0 <= i < |ids| && ids[i] == a.id.value;
      assert r[i] == a;
    }
    forall i, j | 0 <= i < j < |r| ensures r[i] != r[j] {
      assert r[i].id == Some(ids[i]) && r[j].id == Some(ids[j]);
    }
  }

  /** `AppointmentRepository.add`: inserts the appointment under the next
      identity value and returns that id; the foreign keys reject it when
      its patient or its doctor is not stored. */
  function AddAppointment(st: Store, a: Appointment, now: DateTime): (r: Result<(Store, int), Error>)
    ensures r.Failure? <==> a.patientId !in st.patients || a.doctorId !in st.doctors
    ensures r.Failure? ==> r.error == ForeignKeyViolation
    ensures r.Success? ==> Valid(st) ==> r.value.1 !in st.appointments && forall k :: k in st.appointments ==> k < r.value.1
    ensures r.Success? ==> IsStoredAppointment(r.value.0, a.(id := Some(r.value.1), createdAt := Some(now)))
    ensures r.Success? ==> r.value.0.appointments.Keys == st.appointments.Keys + {r.value.1}
    ensures r.Success? ==> forall k :: k in st.appointments && k != r.value.1 ==> r.value.0.appointments[k] == st.appointments[k]
    ensures r.Success? ==> r.value.0.patients == st.patients && r.value.0.doctors == st.doctors
    ensures r.Success? && Valid(st) ==> Valid(r.value.0)
  {
    if a.patientId !in st.patients || a.doctorId !in st.doctors then Failure(ForeignKeyViolation)
    else
      var id := st.nextAppointmentId;
      var row := AppointmentRow(a.patientId, a.doctorId, a.scheduledAt, a.notes, now);
      Success((st.(appointments := st.appointments[id := row], nextAppointmentId := id + 1), id))
  }

  /** `AppointmentRepository.list_all`: with `upcomingOnly`, the
      appointments not before `now`, earliest first; otherwise all of them,
      latest first. Appointments at the same time come in no promised
      order. */
  function ListAppointments(st: Store, upcomingOnly: bool, now: DateTime): (r: seq<Appointment>)
    ensures forall a :: a in r <==> IsStoredAppointment(st, a) && (upcomingOnly ==> IsUpcoming(a, now))
    ensures upcomingOnly ==> Ascending(r, ScheduledAt)
    ensures !upcomingOnly ==> Descending(r, ScheduledAt)
    ensures !upcomingOnly ==> |r| == |st.appointments|
    ensures Distinct(r)
  {
    var all := SortedIds(st.appointments.Keys);
    if upcomingOnly then
      var ids := FilterIds(all, k => k in st.appointments && NotAfter(now, st.appointments[k].scheduledAt));
      var rows := AppointmentsAt(st, ids);
      AppointmentsAtSpec(st, ids);
      var r := SortAscending(rows, ScheduledAt);
      PermutationKeepsDistinct(rows, r);
      SameElements(rows, r);
      r
    else
      var rows := AppointmentsAt(st, all);
      AppointmentsAtSpec(st, all);
      var r := SortDescending(rows, ScheduledAt);
      PermutationKeepsDistinct(rows, r);
      SameElements(rows, r);
      assert |r| == |multiset(r)| == |multiset(rows)| == |rows|;
      r
  }

  /** The record of `get_detailed_list` for appointment `aid`, joined with
      its patient and doctor rows. */
  function DetailOf(aid: int, a: AppointmentRow, p: PatientRow, d: DoctorRow): AppointmentDetail {
    AppointmentDetail(aid, a.patientId, p.name, a.doctorId, d.name, a.scheduledAt, a.notes)
  }

  /** Both joins of appointment `aid` find their row. */
  predicate Joins(st: Store, aid: int) {
    aid in st.appointments
    && st.appointments[aid].patientId in st.patients
    && st.appointments[aid].doctorId in st.doctors
  }

  /** `d` is the joined record of some stored appointment. */
  ghost predicate IsJoinedDetail(st: Store, d: AppointmentDetail) {
    Joins(st, d.appointmentId)
    && var a := st.appointments[d.appointmentId];
       d == DetailOf(d.appointmentId, a, st.patients[a.patientId], st.doctors[a.doctorId])
  }

  function DetailsAt(st: Store, ids: seq<int>): (r: seq<AppointmentDetail>)
    requires forall k :: k in ids ==> Joins(st, k)
    ensures |r| == |ids|
    ensures forall i :: 0 <= i < |ids| ==> r[i].appointmentId == ids[i] && IsJoinedDetail(st, r[i])
  {
    assert forall i :: 0 <= i < |ids| ==> Joins(st, ids[i]) by {
      forall i | 0 <= i < |ids| ensures Joins(st, ids[i]) {
        assert ids[i] in ids;
      }
    }
    seq(|ids|, i requires 0 <= i < |ids| && Joins(st, ids[i]) =>
      var a := st.appointments[ids[i]];
      DetailOf(ids[i], a, st.patients[a.patientId], st.doctors[a.doctorId]))
  }

  lemma DetailsAtSpec(st: Store, ids: seq<int>)
    requires forall k :: k in ids ==> Joins(st, k)
    requires StrictlyIncreasing(ids)
    ensures forall d :: d in DetailsAt(st, ids) <==> IsJoinedDetail(st, d) && d.appointmentId in ids
    ensures Distinct(DetailsAt(st, ids))
  {
    var r := DetailsAt(st, ids);
    forall d | IsJoinedDetail(st, d) && d.appointmentId in ids ensures d in r {
      var i :| 0 <= i < |ids| && ids[i] == d.appointmentId;
      assert r[i] == d;
    }
  }

  /** `AppointmentRepository.get_detailed_list`: every appointment whose
      patient and doctor are both found (an inner join), with their names,
      earliest first. */
  function DetailedList(st: Store): (r: seq<AppointmentDetail>)
    ensures forall d :: d in r <==> IsJoinedDetail(st, d)
    ensures Ascending(r, (d: AppointmentDetail) => d.scheduledAt)
    ensures Distinct(r)
  {
    var ids := FilterIds(SortedIds(st.appointments.Keys), k => Joins(st, k));
    var rows := DetailsAt(st, ids);
    DetailsAtSpec(st, ids);
    var r := SortAscending(rows, (d: AppointmentDetail) => d.scheduledAt);
    PermutationKeepsDistinct(rows, r);
    SameElements(rows, r);
    r
  }

  /** In a consistent store the join loses nothing: one record per
      appointment. */
  lemma DetailedListCoversAll(st: Store)
    requires Valid(st)
    ensures |DetailedList(st)| == |st.appointments|
    ensures forall aid :: aid in st.appointments ==> exists d :: d in DetailedList(st) && d.appointmentId == aid
  {
    var all := SortedIds(st.appointments.Keys);
    var ids := FilterIds(all, k => Joins(st, k));
    assert ids == all;
    var rows := DetailsAt(st, ids);
    var r := DetailedList(st);
    assert |r| == |multiset(r)| == |multiset(rows)| == |rows|;
    forall aid | aid in st.appointments ensures exists d :: d in r && d.appointmentId == aid {
      var i :| 0 <= i < |ids| && ids[i] == aid;
      assert rows[i] in multiset(rows);
    }
  }

  /** `AppointmentRepository.delete`: removes the row `aid` and reports
      whether one was removed. Nothing refers to appointments, so this
      never fails. */
  function DeleteAppointment(st: Store, aid: int): (r: (Store, bool))
    ensures r.1 <==> aid in st.appointments
    ensures r.0.appointments.Keys == st.appointments.Keys - {aid}
    ensures forall k :: k in r.0.appointments ==> r.0.appointments[k] == st.appointments[k]
    ensures r.0.patients == st.patients && r.0.doctors == st.doctors
    ensures Valid(st) ==> Valid(r.0)
  {
    if aid in st.appointments then (st.(appointments := st.appointments - {aid}), true)
    else (st, false)
  }

  /** An appointment just added can be deleted again at once, and that
      restores the table as it was. */
  lemma AddThenDeleteAppointment(st: Store, a: Appointment, now: DateTime)
    requires Valid(st)
    requires AddAppointment(st, a, now).Success?
    ensures var (st', id) := AddAppointment(st, a, now).value;
            DeleteAppointment(st', id).1 && DeleteAppointment(st', id).0.appointments == st.appointments
  {
    var (st', id) := AddAppointment(st, a, now).value;
    assert st'.appointments - {id} == st.appointments;
  }
}
