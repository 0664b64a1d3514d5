/** An in-memory stand-in for the three tables the repositories read and
    write: rows by id, one `IDENTITY(1,1)` counter per table, and the two
    foreign keys from `appointments` to `patients` and `doctors`. */
module Store {
  import opened Wrappers
  import opened DateTimes

  /** A stored `patients` row; `createdAt` is the store's insertion time. */
  datatype PatientRow = PatientRow(name: string, age: Option<int>, gender: Option<string>, createdAt: DateTime)

  datatype DoctorRow = DoctorRow(name: string, specialty: Option<string>, createdAt: DateTime)

  datatype AppointmentRow = AppointmentRow(
    patientId: int, doctorId: int, scheduledAt: DateTime, notes: Option<string>, createdAt: DateTime)

  datatype Store = Store(
    patients: map<int, PatientRow>,
    nextPatientId: int,
    doctors: map<int, DoctorRow>,
    nextDoctorId: int,
    appointments: map<int, AppointmentRow>,
    nextAppointmentId: int)

  /** The freshly created database: empty tables, every counter at its seed 1. */
  const Empty := Store(map[], 1, map[], 1, map[], 1)

  /** Every id a table holds was handed out by its counter. */
  ghost predicate IdsIssued<R>(rows: map<int, R>, next: int) {
    1 <= next && forall id :: id in rows ==> 1 <= id < next
  }

  /** Some appointment refers to patient `pid`. */
  predicate PatientReferenced(st: Store, pid: int) {
    exists aid :: aid in st.appointments && st.appointments[aid].patientId == pid
  }

  /** Some appointment refers to doctor `did`. */
  predicate DoctorReferenced(st: Store, did: int) {
    exists aid :: aid in st.appointments && st.appointments[aid].doctorId == did
  }

  /** Both foreign keys of every appointment resolve. */
  ghost predicate ReferencesResolve(st: Store) {
    forall aid :: aid in st.appointments ==>
      st.appointments[aid].patientId in st.patients && st.appointments[aid].doctorId in st.doctors
  }

  /** The invariant the store maintains between statements. */
  ghost predicate Valid(st: Store) {
    && IdsIssued(st.patients, st.nextPatientId)
    && IdsIssued(st.doctors, st.nextDoctorId)
    && IdsIssued(st.appointments, st.nextAppointmentId)
    && ReferencesResolve(st)
  }

  lemma EmptyIsValid()
    ensures Valid(Empty)
  {
  }

  /** A table that gained row `id` and then lost it again is as before. */
  lemma AddedThenRemoved<R>(m: map<int, R>, m': map<int, R>, m'': map<int, R>, id: int)
    requires id !in m
    requires m'.Keys == m.Keys + {id} && forall k :: k in m && k != id ==> m'[k] == m[k]
    requires m''.Keys == m'.Keys - {id} && forall k :: k in m'' ==> m''[k] == m'[k]
    ensures m'' == m
  {
    assert m''.Keys == m.Keys;
    forall k | k in m'' ensures m''[k] == m[k] {
      assert k in m' && k != id;
    }
  }
}
