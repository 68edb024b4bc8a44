/** Value-level model of the enrolment policy of a course session: a fixed
    capacity, a recruiting status and a roster of (session, user) pairs.
    Each method of the class in session_registration.dfy changes its fields
    exactly as Apply says, and RunSnoc extends that to a sequence of calls,
    so the lemmas below about Run speak about any sequence of calls on one
    object. */
module EnrolmentPolicy {

  /** Sessions and users are opaque identities; only equality matters. */
  type SessionId = int
  type UserId = int

  /** The recruiting status of a session. */
  datatype SessionStatus = Ready | Recruiting | End

  /** One roster entry: the pair that `Students.add(session, user)` records. */
  datatype Student = Student(session: SessionId, user: UserId)

  /** The three ways `enrolment` refuses, in the order it checks them. */
  datatype EnrolmentError = CapacityExceeded | Duplicate | NotRecruiting

  /** The one way `validateInit` refuses. */
  datatype InitError = InvalidCapacity

  /** Success is the absence of an exception. */
  datatype Outcome<+E> = Pass | Fail(error: E)

  /** The state a session registration holds. */
  datatype Registration = Registration(capacity: int, status: SessionStatus, students: set<Student>)

  /** The operations that change a registration. */
  datatype Op = RecruitStart | RecruitEnd | Enrolment(student: Student)

  /** A registration as the one-argument constructor builds it. */
  function Fresh(capacity: int): (r: Registration)
  {
    Registration(capacity, Ready, {})
  }

  /** The status guard: enrolment is open only while recruiting. */
  predicate CanEnrol(status: SessionStatus)
  {
    status == Recruiting
  }

  /** The guards of `enrolment`, in source order: capacity, duplicate, status.
      Each error is reported exactly when its own condition holds and every
      earlier guard let the call through. */
  function EnrolmentCheck(reg: Registration, s: Student): (r: Outcome<EnrolmentError>)
    ensures r == Fail(CapacityExceeded) <==> |reg.students| > reg.capacity
    ensures r == Fail(Duplicate) <==> |reg.students| <= reg.capacity && s in reg.students
    ensures r == Fail(NotRecruiting) <==>
      |reg.students| <= reg.capacity && s !in reg.students && !CanEnrol(reg.status)
    ensures r == Pass <==>
      |reg.students| <= reg.capacity && s !in reg.students && CanEnrol(reg.status)
  {
    if |reg.students| > reg.capacity then Fail(CapacityExceeded)
    else if s in reg.students then Fail(Duplicate)
    else if !CanEnrol(reg.status) then Fail(NotRecruiting)
    else Pass
  }

  /** The effect of one operation. No operation touches the capacity, the
      roster only grows, by at most one entry, and only when the roster was
      not over capacity before. */
  function Apply(reg: Registration, op: Op): (r: Registration)
    ensures r.capacity == reg.capacity
    ensures reg.students <= r.students && |r.students| <= |reg.students| + 1
    ensures |r.students| > |reg.students| ==> |reg.students| <= reg.capacity
  {
    match op
    case RecruitStart => reg.(status := Recruiting)
    case RecruitEnd => reg.(status := End)
    case Enrolment(s) =>
      if EnrolmentCheck(reg, s) == Pass then reg.(students := reg.students + {s}) else reg
  }

  /** The effect of a sequence of operations, first to last. The capacity
      never changes and the roster is append-only. */
  function Run(reg: Registration, ops: seq<Op>): (r: Registration)
    ensures r.capacity == reg.capacity
    ensures reg.students <= r.students
    decreases |ops|
  {
    if ops == [] then reg else Run(Apply(reg, ops[0]), ops[1..])
  }

  /** Running one more operation at the end is applying it to the result
      so far: the link between Run and calls made one after another. */
  lemma {:induction false} RunSnoc(reg: Registration, ops: seq<Op>, op: Op)
    ensures Run(reg, ops + [op]) == Apply(Run(reg, ops), op)
    decreases |ops|
  {
    if ops == [] {
      assert ops + [op] == [op];
      assert [op][1..] == [];
    } else {
      assert (ops + [op])[0] == ops[0];
      assert (ops + [op])[1..] == ops[1..] + [op];
      RunSnoc(Apply(reg, ops[0]), ops[1..], op);
    }
  }

  function Max(a: int, b: int): (r: int)
  {
    if a < b then b else a
  }

  /** `recruitStart` and `recruitEnd` set the status whatever it was and
      leave the capacity and the roster alone. */
  lemma RecruitTransitions(reg: Registration)
    ensures Apply(reg, RecruitStart) == Registration(reg.capacity, Recruiting, reg.students)
    ensures Apply(reg, RecruitEnd) == Registration(reg.capacity, End, reg.students)
  {
  }

  /** A successful enrolment adds exactly the new pair, so the roster grows
      by exactly one; a refused one changes nothing at all. */
  lemma EnrolmentEffect(reg: Registration, s: Student)
    ensures var r := Apply(reg, Enrolment(s));
      if EnrolmentCheck(reg, s) == Pass then
        r.students == reg.students + {s} && s !in reg.students &&
        |r.students| == |reg.students| + 1 &&
        r.status == reg.status && r.capacity == reg.capacity
      else
        r == reg
  {
  }

  /** Enrolling the same pair again right after it was admitted is refused;
      because the capacity guard runs first, the error is CapacityExceeded
      when the first call filled the roster's last admitted seat, and
      Duplicate otherwise. */
  lemma EnrolTwice(reg: Registration, s: Student)
    requires EnrolmentCheck(reg, s) == Pass
    ensures var once := Apply(reg, Enrolment(s));
      EnrolmentCheck(once, s) ==
        (if |reg.students| == reg.capacity then Fail(CapacityExceeded) else Fail(Duplicate)) &&
      Apply(once, Enrolment(s)) == once
  {
    assert |reg.students + {s}| == |reg.students| + 1;
  }

  /** Whatever operations follow, the roster never exceeds the larger of its
      starting size and capacity + 1: the `>` guard admits one student past
      the capacity, never two. */
  lemma {:induction false} RosterBound(reg: Registration, ops: seq<Op>)
    ensures |Run(reg, ops).students| <= Max(|reg.students|, reg.capacity + 1)
    decreases |ops|
  {
    if ops != [] {
      var next := Apply(reg, ops[0]);
      RosterBound(next, ops[1..]);
    }
  }

  /** From a freshly constructed registration, no sequence of operations
      takes the roster past capacity + 1 (or past 0 when the capacity is
      negative, since every enrolment is then refused). */
  lemma FreshRosterBound(capacity: int, ops: seq<Op>)
    ensures |Run(Fresh(capacity), ops).students| <= Max(0, capacity + 1)
  {
    RosterBound(Fresh(capacity), ops);
  }

  /** The first n users of one session, as roster entries. */
  function Users(sid: SessionId, n: nat): (r: set<Student>)
    ensures |r| == n
    ensures forall u :: Student(sid, u) in r <==> 0 <= u < n
  {
    if n == 0 then {} else Users(sid, n - 1) + {Student(sid, n - 1)}
  }

  /** Enrolments of users lo, lo + 1, ..., hi - 1 of one session. */
  function Enrols(sid: SessionId, lo: nat, hi: nat): (r: seq<Op>)
    decreases hi - lo
  {
    if lo >= hi then [] else [Enrolment(Student(sid, lo))] + Enrols(sid, lo + 1, hi)
  }

  /** While recruiting, the next distinct user is admitted as long as the
      roster holds at most capacity entries. */
  lemma AdmitNext(reg: Registration, sid: SessionId, lo: nat)
    requires CanEnrol(reg.status) && reg.students == Users(sid, lo)
    requires lo <= reg.capacity
    ensures Apply(reg, Enrolment(Student(sid, lo))) == reg.(students := Users(sid, lo + 1))
  {
    assert Student(sid, lo) !in Users(sid, lo);
  }

  /** While recruiting, distinct users are all admitted as long as the roster
      holds at most capacity entries before each call. */
  lemma {:induction false} EnrolsAdmitted(reg: Registration, sid: SessionId, lo: nat, hi: nat)
    requires CanEnrol(reg.status) && reg.students == Users(sid, lo)
    requires lo <= hi <= reg.capacity + 1
    ensures Run(reg, Enrols(sid, lo, hi)) == reg.(students := Users(sid, hi))
    decreases hi - lo
  {
    if lo < hi {
      var ops := Enrols(sid, lo, hi);
      assert ops[0] == Enrolment(Student(sid, lo)) && ops[1..] == Enrols(sid, lo + 1, hi);
      AdmitNext(reg, sid, lo);
      EnrolsAdmitted(reg.(students := Users(sid, lo + 1)), sid, lo + 1, hi);
    }
  }

  /** The bound of RosterBound is reached: with capacity c, after
      `recruitStart` the first c + 1 distinct users are all admitted, and
      only the next one is refused with CapacityExceeded. */
  lemma CapacityPlusOneReachable(c: nat, sid: SessionId)
    ensures var reg := Run(Fresh(c), [RecruitStart] + Enrols(sid, 0, c + 1));
      reg == Registration(c, Recruiting, Users(sid, c + 1)) &&
      |reg.students| == c + 1 &&
      EnrolmentCheck(reg, Student(sid, c + 1)) == Fail(CapacityExceeded)
  {
    var ops := [RecruitStart] + Enrols(sid, 0, c + 1);
    assert ops[0] == RecruitStart && ops[1..] == Enrols(sid, 0, c + 1);
    var started := Apply(Fresh(c), RecruitStart);
    EnrolsAdmitted(started, sid, 0, c + 1);
  }

  /** While the status is not RECRUITING and nothing calls `recruitStart`,
      no enrolment gets through: the roster stays as it is. This covers a
      registration that was never opened and one ended straight from READY. */
  lemma {:induction false} NoStartNoEnrolment(reg: Registration, ops: seq<Op>)
    requires !CanEnrol(reg.status)
    requires forall i :: 0 <= i < |ops| ==> !ops[i].RecruitStart?
    ensures Run(reg, ops).students == reg.students
    ensures !CanEnrol(Run(reg, ops).status)
    decreases |ops|
  {
    if ops != [] {
      var next := Apply(reg, ops[0]);
      assert next.students == reg.students && !CanEnrol(next.status);
      NoStartNoEnrolment(next, ops[1..]);
    }
  }
}
