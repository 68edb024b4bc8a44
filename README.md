# Session registration: enrolment policy

This project models `SessionRegistration`, the domain object that decides
whether a user may enrol in a course session. It holds three things: a fixed
capacity, a recruiting status (READY, RECRUITING or END) and the roster of
enrolled (session, user) pairs. `recruitStart` and `recruitEnd` overwrite the
status. `enrolment` runs three guards in a fixed order: capacity, then
duplicate, then status. Only if all pass does it add the pair to the roster.
`validateInit` refuses a capacity of 0 or less.

Two modules:

- `EnrolmentPolicy` (`enrolment_policy.dfy`) is the value-level model. A
  `Registration` record holds the three fields. `EnrolmentCheck` gives the
  outcome of the guard chain. `Apply` gives the effect of one operation and
  `Run` the effect of a sequence of them. The lemmas cover the capacity bound,
  the order of the errors, and what the status does to enrolment.
- `Sessions` (`session_registration.dfy`) holds the class
  `SessionRegistration`. Its fields are updated in place. Each method's frame
  names only the field it writes. Each mutator's `ensures` ties the new state
  to `Apply` on the old one. `RunSnoc` proves that running one more operation
  at the end of a sequence is `Apply` on the result so far. With it,
  `Perform` makes one call per operation in a loop and is proved to reach
  `Run` of the starting state. So the `EnrolmentPolicy` lemmas about `Run`
  hold for any sequence of calls on one object.

Java exceptions are modelled as the result `Outcome<E> = Pass | Fail(error)`.
The error kinds are `CapacityExceeded`, `Duplicate` and `NotRecruiting` for
`enrolment`, and `InvalidCapacity` for `validateInit`.

Two assumptions cover classes that are not part of this model:

- `Students` and `Student` are not part of this model. The roster is a
  `set<Student>`, keyed by the (session id, user id) pair. `size` is the set's
  cardinality, `contains` is membership and `add` is union with one pair.
- `SessionStatus` is not part of this model.
  `SessionStatus.isRecruitingOrThrow(status)` is modelled as the predicate
  `CanEnrol(status)`, which holds exactly when `status == Recruiting`.

The capacity guard is kept exactly as written: `students.size() > capacity`.
A roster holding exactly `capacity` students passes the guard, so one extra
student is admitted. `FreshRosterBound` proves that, from a freshly
constructed registration, the roster never goes past capacity + 1.
`CapacityPlusOneReachable` proves capacity + 1 is actually reached. The source
gives no reason for `>` rather than `>=`; the model follows the code.

## Model

| member | source | states |
|---|---|---|
| `Sessions.SessionRegistration.constructor` | src/main/java/nextstep/sessions/domain/SessionRegistration.java:14-16 | A new registration has the given capacity, status READY and an empty roster. The capacity is not validated. |
| `Sessions.SessionRegistration.Restore` | src/main/java/nextstep/sessions/domain/SessionRegistration.java:18-26 | The three-argument constructors take over capacity, status and roster exactly as given. |
| `Sessions.SessionRegistration.RecruitStart` | src/main/java/nextstep/sessions/domain/SessionRegistration.java:28-30 | The status becomes RECRUITING from any prior status. Capacity and roster are unchanged. |
| `Sessions.SessionRegistration.RecruitEnd` | src/main/java/nextstep/sessions/domain/SessionRegistration.java:32-34 | The status becomes END from any prior status, READY included. Capacity and roster are unchanged. |
| `Sessions.SessionRegistration.Enrolment` | src/main/java/nextstep/sessions/domain/SessionRegistration.java:36-48 | The outcome is the guard chain's verdict on the old state. On success the roster gains exactly the pair. On failure the roster is unchanged. Capacity and status never change. |
| `Sessions.SessionRegistration.ValidateInit` | src/main/java/nextstep/sessions/domain/SessionRegistration.java:50-54 | Fails if and only if capacity <= 0, and changes nothing. |
| `Sessions.SessionRegistration.GetCapacity` | src/main/java/nextstep/sessions/domain/SessionRegistration.java:56-58 | Returns the current capacity and changes nothing. |
| `Sessions.SessionRegistration.GetStatus` | src/main/java/nextstep/sessions/domain/SessionRegistration.java:60-62 | Returns the current status and changes nothing. |
| `Sessions.SessionRegistration.GetStudents` | src/main/java/nextstep/sessions/domain/SessionRegistration.java:64-66 | Returns the current roster as a value and changes nothing. |
| `Sessions.SessionRegistration.Perform` | src/main/java/nextstep/sessions/domain/SessionRegistration.java:28-47 | Making one call per operation, in order, leaves the object in the state `Run` gives from its starting state. Capacity is unchanged, the roster only grows, and it ends no larger than the larger of its starting size and capacity + 1. |
| `Sessions.CapacityTwoClient` | src/main/java/nextstep/sessions/domain/SessionRegistration.java:36-48 | With capacity 2 and recruiting open, the first three distinct users are admitted. The fourth gets CapacityExceeded. This is proved from the class contracts alone. |
| `EnrolmentPolicy.EnrolmentCheck` | src/main/java/nextstep/sessions/domain/SessionRegistration.java:36-45 | CapacityExceeded exactly when size > capacity. Duplicate exactly when the capacity guard passed and the pair is enrolled. NotRecruiting exactly when both earlier guards passed and the status is not RECRUITING. Pass exactly when all three guards pass. |
| `EnrolmentPolicy.Apply` | src/main/java/nextstep/sessions/domain/SessionRegistration.java:28-48 | No operation changes the capacity. The roster only grows, by at most one pair, and only when its size was at most the capacity. |
| `EnrolmentPolicy.Run` | src/main/java/nextstep/sessions/domain/SessionRegistration.java:8-47 | Over any sequence of operations, the capacity stays as constructed and the roster is append-only. |
| `EnrolmentPolicy.RunSnoc` | src/main/java/nextstep/sessions/domain/SessionRegistration.java:28-47 | Running a sequence of operations and then one more is the same as applying that last operation to the result of the sequence. This is what ties consecutive calls on the object to `Run`. |
| `EnrolmentPolicy.RecruitTransitions` | src/main/java/nextstep/sessions/domain/SessionRegistration.java:28-34 | Starting recruitment gives status RECRUITING and ending it gives END, from any status. Capacity and roster are kept. |
| `EnrolmentPolicy.EnrolmentEffect` | src/main/java/nextstep/sessions/domain/SessionRegistration.java:36-47 | A successful enrolment adds exactly the new pair, which was absent, so the roster grows by exactly one. A failed enrolment leaves the whole state unchanged. |
| `EnrolmentPolicy.EnrolTwice` | src/main/java/nextstep/sessions/domain/SessionRegistration.java:37-43 | Enrolling a pair that was just admitted fails and changes nothing. Because the capacity guard runs first, the error is CapacityExceeded if the first call filled the last seat, and Duplicate otherwise. |
| `EnrolmentPolicy.RosterBound` | src/main/java/nextstep/sessions/domain/SessionRegistration.java:37-39 | After any sequence of operations, the roster size is at most the larger of its starting size and capacity + 1. |
| `EnrolmentPolicy.FreshRosterBound` | src/main/java/nextstep/sessions/domain/SessionRegistration.java:14-16 | From a freshly constructed registration, the roster never exceeds max(0, capacity + 1), whatever the calls. |
| `EnrolmentPolicy.CapacityPlusOneReachable` | src/main/java/nextstep/sessions/domain/SessionRegistration.java:37 | For every capacity c >= 0, after recruitStart the first c + 1 distinct users are admitted. The next user gets CapacityExceeded. The bound above is therefore tight. |
| `EnrolmentPolicy.NoStartNoEnrolment` | src/main/java/nextstep/sessions/domain/SessionRegistration.java:45 | While the status is not RECRUITING and recruitStart is not called, no enrolment succeeds and the roster stays as it is. This covers a registration never opened and one ended straight from READY. |

## Left out

- `toString` and the exception message texts. Errors are constructors, not strings.
- Integer width. Capacity and roster size are unbounded integers. Java's `int` cannot overflow here in practice, since a roster of 2^31 entries is not reachable.
- `Session`, `NsUser`, `Students`, `Student` and `SessionStatus` are not part of this model. Sessions and users are opaque integer identities, and a roster entry carries only the pair. Record ids and audit timestamps are not modelled.
- `Sessions.SessionRegistration.Restore`: one constructor stands for both three-argument overloads (`Set<Student>` and `Students`), which differ only in how the roster is wrapped.
- `Sessions.SessionRegistration.GetStudents`: it returns a value, not the live `Students` object that Java hands out. Aliasing, where a caller mutates the roster behind the object's back, is not modelled.
- The persistence layer (`JdbcSessionRepository`) is I/O over a database and is not part of this model. Its four-argument constructor call and its progress-status axis are not modelled either, since they come from a different revision of the class.
- Concurrency. The object is modelled as used by one caller at a time, as the source assumes.
