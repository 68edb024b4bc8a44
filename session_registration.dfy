/** The session registration object: capacity, recruiting status and roster
    held in fields that its methods update in place. Each mutator is tied to
    EnrolmentPolicy.Apply through Model(); Perform makes a whole sequence of
    calls and is tied to EnrolmentPolicy.Run, which the lemmas of
    EnrolmentPolicy are about. */
module Sessions {
  import opened EnrolmentPolicy

  class SessionRegistration {
    var capacity: int
    var status: SessionStatus
    var students: set<Student>

    /** The registration's state as a value. */
    ghost function Model(): Registration
      reads this
    {
      Registration(capacity, status, students)
    }

    /** A new registration: READY, nobody enrolled, the given capacity. The
        capacity is not validated here; that is ValidateInit's job. */
    constructor (capacity: int)
      ensures this.capacity == capacity && status == Ready && students == {}
      ensures Model() == Fresh(capacity)
    {
      this.capacity := capacity;
      this.status := Ready;
      this.students := {};
    }

    /** A registration rebuilt from stored state, taken over as given. */
    constructor Restore(capacity: int, status: SessionStatus, students: set<Student>)
      ensures this.capacity == capacity && this.status == status && this.students == students
    {
      this.capacity := capacity;
      this.status := status;
      this.students := students;
    }

    /** Opens recruiting, from any status, END included. */
    method RecruitStart()
      modifies this`status
      ensures status == Recruiting
      ensures capacity == old(capacity) && students == old(students)
      ensures Model() == Apply(old(Model()), Op.RecruitStart)
    {
      status := Recruiting;
    }

    /** Closes recruiting, from any status, READY included. */
    method RecruitEnd()
      modifies this`status
      ensures status == End
      ensures capacity == old(capacity) && students == old(students)
      ensures Model() == Apply(old(Model()), Op.RecruitEnd)
    {
      status := End;
    }

    /** Enrols a user in a session: the capacity guard, then the duplicate
        guard, then the status guard; only when all three pass is the pair
        added. A refused call changes nothing. */
    method Enrolment(session: SessionId, user: UserId) returns (r: Outcome<EnrolmentError>)
      modifies this`students
      ensures r == EnrolmentCheck(old(Model()), Student(session, user))
      ensures capacity == old(capacity) && status == old(status)
      ensures students == if r == Pass then old(students) + {Student(session, user)} else old(students)
      ensures Model() == Apply(old(Model()), Op.Enrolment(Student(session, user)))
    {
      if |students| > capacity {
        return Fail(CapacityExceeded);
      }
      if Student(session, user) in students {
        return Fail(Duplicate);
      }
      if !CanEnrol(status) {
        return Fail(NotRecruiting);
      }
      students := students + {Student(session, user)};
      r := Pass;
    }

    /** Refuses a capacity below one; reads the state and changes nothing. */
    method ValidateInit() returns (r: Outcome<InitError>)
      ensures r.Fail? <==> capacity <= 0
    {
      if capacity <= 0 {
        return Fail(InvalidCapacity);
      }
      r := Pass;
    }

    method GetCapacity() returns (c: int)
      ensures c == capacity
    {
      c := capacity;
    }

    method GetStatus() returns (s: SessionStatus)
      ensures s == status
    {
      s := status;
    }

    /** Makes one call per operation, in order. The new state is Run of the
        old one, so the roster ends within the bound of RosterBound. */
    method Perform(ops: seq<Op>)
      modifies this`status, this`students
      ensures Model() == Run(old(Model()), ops)
      ensures capacity == old(capacity) && old(students) <= students
      ensures |students| <= Max(|old(students)|, capacity + 1)
    {
      var i := 0;
      while i < |ops|
        invariant 0 <= i <= |ops|
        invariant Model() == Run(old(Model()), ops[..i])
      {
        match ops[i] {
          case RecruitStart => RecruitStart();
          case RecruitEnd => RecruitEnd();
          case Enrolment(s) =>
            var _ := Enrolment(s.session, s.user);
        }
        RunSnoc(old(Model()), ops[..i], ops[i]);
        assert ops[..i + 1] == ops[..i] + [ops[i]];
        i := i + 1;
      }
      assert ops[..|ops|] == ops;
      RosterBound(old(Model()), ops);
    }

    /** The roster as a value: a snapshot the caller cannot change. */
    method GetStudents() returns (roster: set<Student>)
      ensures roster == students
    {
      roster := students;
    }
  }

  /** A caller's view of the `>` capacity guard: with capacity 2 and
      recruiting open, three distinct users are admitted and the fourth is
      refused with CapacityExceeded, leaving three enrolled. */
  method CapacityTwoClient() returns (outcomes: seq<Outcome<EnrolmentError>>, enrolled: nat)
    ensures outcomes == [Pass, Pass, Pass, Fail(CapacityExceeded)]
    ensures enrolled == 3
  {
    var reg := new SessionRegistration(2);
    reg.RecruitStart();
    var a := reg.Enrolment(1, 10);
    var b := reg.Enrolment(1, 11);
    var c := reg.Enrolment(1, 12);
    var d := reg.Enrolment(1, 13);
    outcomes := [a, b, c, d];
    var roster := reg.GetStudents();
    enrolled := |roster|;
  }
}
