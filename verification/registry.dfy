/** The session state machine of `MyU3` (labjack.py). The class-wide list
    `instances` holds a weak reference to each object whose constructor got
    past the device check, until `cleanup_instances` drops those whose object
    has been reclaimed. Only the constructor and `cleanup_instances` change
    the list; `any_open` (and through it `open`) and `close_all` read it;
    `open` and `close` change only their own session's handle.

    An object's `is_open()` asks the driver whether its handle is valid; the
    model keeps that answer as the `open` flag of the session. The driver's
    device count and the outcome of the driver's own `open` are inputs. A weak
    reference whose object has been reclaimed is `Dead`. The property the
    model establishes: at most one live registered session is open, whatever
    sequence of calls is made. */
module Registry {
  import opened Results

  /** One `MyU3` object. `isHV` is set only by a construction that opened
      the device; otherwise the attribute does not exist. */
  datatype Session = Session(id: nat, open: bool, isHV: Option<bool>)

  /** An entry of `MyU3.instances`: a weak reference to a session, or one
      whose object has been reclaimed (calling it returns `None`). */
  datatype Ref = Live(session: Session) | Dead

  type Instances = seq<Ref>

  /** What the driver's `U3.open` does: claims the device, or raises
      `NullHandleException`. */
  datatype DriverOpen = Claimed | NullHandle

  /** The message `alert` prints, or none. */
  datatype Alert = Silent | AlreadyOpen | AnotherOpen | UnableToOpen

  /** Exceptions that escape the operations. `AttributeError` is what
      `None.is_open()` raises on a dead reference. */
  datatype Error = DeviceNotPresentError | AttributeError

  // ---------------------------------------------------------------------
  // Views of the registry
  // ---------------------------------------------------------------------

  /** Entry `i` is a live reference to the session `id`. */
  predicate IsEntry(reg: Instances, i: int, id: nat) {
    0 <= i < |reg| && reg[i].Live? && reg[i].session.id == id
  }

  /** Entry `i` is a live reference to an open session. */
  predicate OpenAt(reg: Instances, i: int) {
    0 <= i < |reg| && reg[i].Live? && reg[i].session.open
  }

  predicate Registered(reg: Instances, id: nat) {
    exists i :: 0 <= i < |reg| && IsEntry(reg, i, id)
  }

  /** `is_open()` of the session `id`. */
  predicate IsOpen(reg: Instances, id: nat) {
    exists i :: 0 <= i < |reg| && IsEntry(reg, i, id) && reg[i].session.open
  }

  predicate NoDead(reg: Instances) {
    forall i :: 0 <= i < |reg| ==> reg[i].Live?
  }

  /** A Python object is registered once: live entries name distinct sessions. */
  predicate UniqueIds(reg: Instances) {
    forall i, j ::
      0 <= i < |reg| && 0 <= j < |reg| && reg[i].Live? && reg[j].Live? && reg[i].session.id == reg[j].session.id
      ==> i == j
  }

  /** At most one live registered session holds the device. */
  predicate AtMostOneOpen(reg: Instances) {
    forall i, j :: 0 <= i < |reg| && 0 <= j < |reg| && OpenAt(reg, i) && OpenAt(reg, j) ==> i == j
  }

  predicate Valid(reg: Instances) {
    UniqueIds(reg) && AtMostOneOpen(reg)
  }

  /** `b` is `a` with only the open flags of the live entries for `id` changed. */
  predicate OnlyChanged(a: Instances, b: Instances, id: nat) {
    && |a| == |b|
    && (forall i :: 0 <= i < |a| && !IsEntry(a, i, id) ==> b[i] == a[i])
    && (forall i :: 0 <= i < |a| && IsEntry(a, i, id) ==> b[i].Live? && b[i].session == a[i].session.(open := b[i].session.open))
  }

  // ---------------------------------------------------------------------
  // any_open and cleanup_instances
  // ---------------------------------------------------------------------

  /** `MyU3.any_open` with dead references skipped: is any live session open? */
  function AnyOpen(reg: Instances): (b: bool)
    ensures b <==> exists i :: OpenAt(reg, i)
  {
    if |reg| == 0 then false
    else
      var rest := AnyOpen(reg[1..]);
      assert forall j :: OpenAt(reg[1..], j) ==> OpenAt(reg, j + 1);
      assert forall j :: 1 <= j && OpenAt(reg, j) ==> OpenAt(reg[1..], j - 1);
      OpenAt(reg, 0) || rest
  }

  /** `MyU3.any_open` as written: it asks every entry of the list for `is_open()`,
      before `any` looks at the answers, and a dead one raises `AttributeError`. */
  function AnyOpenAsWritten(reg: Instances): (r: Result<bool, Error>)
    ensures r.Failure? <==> exists i :: 0 <= i < |reg| && reg[i].Dead?
    ensures r.Failure? ==> r.error == AttributeError
    ensures r.Success? ==> r.value == AnyOpen(reg)
  {
    if |reg| == 0 then Success(false)
    else if reg[0].Dead? then Failure(AttributeError)
    else
      match AnyOpenAsWritten(reg[1..])
      case Failure(e) =>
        assert forall j :: 0 <= j < |reg| - 1 && reg[1..][j].Dead? ==> reg[j + 1].Dead?;
        Failure(e)
      case Success(b) =>
        assert forall j :: 1 <= j < |reg| && reg[j].Dead? ==> reg[1..][j - 1].Dead?;
        Success(reg[0].session.open || b)
  }

  /** `MyU3.cleanup_instances`: drop the dead references. */
  function Cleanup(reg: Instances): (r: Instances)
    ensures NoDead(r)
    ensures forall x :: x in r <==> x in reg && x.Live?
    ensures NoDead(reg) ==> r == reg
    ensures |r| <= |reg|
  {
    if |reg| == 0 then []
    else
      var rest := Cleanup(reg[1..]);
      assert forall x :: x in reg[1..] ==> x in reg;
      assert forall x :: x in reg && x != reg[0] ==> x in reg[1..];
      if reg[0].Dead? then rest else [reg[0]] + rest
  }

  /** Cleanup keeps the order of the list: it filters the two halves of a
      list separately. With its action on a single entry (kept if live,
      dropped if dead), this determines the result entry by entry. */
  lemma {:induction false} CleanupAppend(a: Instances, b: Instances)
    ensures Cleanup(a + b) == Cleanup(a) + Cleanup(b)
    ensures Cleanup([Dead]) == []
    ensures forall s :: Cleanup([Live(s)]) == [Live(s)]
  {
    if |a| > 0 {
      assert (a + b)[1..] == a[1..] + b;
      CleanupAppend(a[1..], b);
    } else {
      assert a + b == b;
    }
  }

  /** Dropping dead references keeps ids distinct and keeps at most one open. */
  lemma {:induction false} CleanupValid(reg: Instances)
    requires Valid(reg)
    ensures Valid(Cleanup(reg))
  {
    if |reg| > 0 {
      var rest := Cleanup(reg[1..]);
      SuffixValid(reg);
      CleanupValid(reg[1..]);
      if reg[0].Live? {
        var r := Cleanup(reg);
        assert r == [reg[0]] + rest;
        forall j | 0 <= j < |rest|
          ensures rest[j].session.id != reg[0].session.id
          ensures reg[0].session.open ==> !rest[j].session.open
        {
          assert rest[j] in rest;
          assert rest[j] in reg[1..];
          var k :| 0 <= k < |reg| - 1 && reg[1..][k] == rest[j];
          assert reg[k + 1] == rest[j];
          if reg[0].session.open && rest[j].session.open {
            assert OpenAt(reg, 0) && OpenAt(reg, k + 1);
          }
        }
        forall i, j | 0 <= i < |r| && 0 <= j < |r| && r[i].Live? && r[j].Live? && r[i].session.id == r[j].session.id
          ensures i == j
        {
          if i > 0 && j > 0 {
            assert rest[i - 1].session.id == rest[j - 1].session.id;
          }
        }
        forall i, j | OpenAt(r, i) && OpenAt(r, j)
          ensures i == j
        {
          if i > 0 && j > 0 {
            assert OpenAt(rest, i - 1) && OpenAt(rest, j - 1);
          }
        }
      }
    }
  }

  lemma SuffixValid(reg: Instances)
    requires |reg| > 0 && Valid(reg)
    ensures Valid(reg[1..])
  {
    var s := reg[1..];
    forall i, j | 0 <= i < |s| && 0 <= j < |s| && s[i].Live? && s[j].Live? && s[i].session.id == s[j].session.id
      ensures i == j
    {
      assert reg[i + 1].session.id == reg[j + 1].session.id;
    }
    forall i, j | OpenAt(s, i) && OpenAt(s, j)
      ensures i == j
    {
      assert OpenAt(reg, i + 1) && OpenAt(reg, j + 1);
    }
  }

  /** Validity carries over to a registry with the same live ids in the same
      places and no session open that was not open before. */
  lemma ValidTransfer(a: Instances, b: Instances)
    requires Valid(a) && |a| == |b|
    requires forall i :: 0 <= i < |a| ==> (a[i].Live? <==> b[i].Live?)
    requires forall i :: 0 <= i < |a| && a[i].Live? ==> b[i].session.id == a[i].session.id
    requires forall i :: OpenAt(b, i) ==> OpenAt(a, i)
    ensures Valid(b)
  {
    forall i, j | 0 <= i < |b| && 0 <= j < |b| && b[i].Live? && b[j].Live? && b[i].session.id == b[j].session.id
      ensures i == j
    {
      assert a[i].session.id == a[j].session.id;
    }
  }

  /** An open session makes `any_open` true. */
  lemma OpenIsAnyOpen(reg: Instances, id: nat)
    requires IsOpen(reg, id)
    ensures AnyOpen(reg)
  {
    var i :| 0 <= i < |reg| && IsEntry(reg, i, id) && reg[i].session.open;
    assert OpenAt(reg, i);
  }

  // ---------------------------------------------------------------------
  // open and close
  // ---------------------------------------------------------------------

  /** Set the open flag of the live entries for `id`. */
  function SetOpen(reg: Instances, id: nat, flag: bool): (r: Instances)
    ensures OnlyChanged(reg, r, id)
    ensures forall i :: IsEntry(reg, i, id) ==> r[i].session.open == flag
  {
    seq(|reg|, i requires 0 <= i < |reg| =>
      if IsEntry(reg, i, id) then Live(reg[i].session.(open := flag)) else reg[i])
  }

  datatype Opened = Opened(instances: Instances, alert: Alert)

  /** `MyU3.open` of the session `id`, with `driver` the outcome of the
      driver's `U3.open` if it is reached. */
  function Open(reg: Instances, id: nat, driver: DriverOpen): (r: Opened)
    requires Registered(reg, id)
    ensures IsOpen(reg, id) ==> r == Opened(reg, AlreadyOpen)
    ensures !IsOpen(reg, id) && AnyOpen(reg) ==> r == Opened(reg, AnotherOpen)
    ensures !AnyOpen(reg) && driver == NullHandle ==> r == Opened(reg, UnableToOpen)
    ensures !AnyOpen(reg) && driver == Claimed ==> r.alert == Silent && OnlyChanged(reg, r.instances, id)
    ensures IsOpen(r.instances, id) <==> IsOpen(reg, id) || (!AnyOpen(reg) && driver == Claimed)
    ensures Valid(reg) ==> Valid(r.instances)
  {
    if IsOpen(reg, id) then
      OpenIsAnyOpen(reg, id);
      Opened(reg, AlreadyOpen)
    else if AnyOpen(reg) then Opened(reg, AnotherOpen)
    else
      match driver
      case NullHandle => Opened(reg, UnableToOpen)
      case Claimed =>
        var r := SetOpen(reg, id, true);
        var i :| 0 <= i < |reg| && IsEntry(reg, i, id);
        assert IsEntry(reg, i, id) && r[i].session.open;
        assert Valid(reg) ==> Valid(r) by {
          if Valid(reg) {
            forall i, j | OpenAt(r, i) && OpenAt(r, j)
              ensures i == j
            {
              if !IsEntry(reg, i, id) {
                assert OpenAt(reg, i);
              } else if !IsEntry(reg, j, id) {
                assert OpenAt(reg, j);
              }
            }
            forall i, j | 0 <= i < |r| && 0 <= j < |r| && r[i].Live? && r[j].Live? && r[i].session.id == r[j].session.id
              ensures i == j
            {
              assert reg[i].session.id == reg[j].session.id;
            }
          }
        }
        Opened(r, Silent)
  }

  /** `MyU3.open` as written: its `any_open` raises on a dead reference. */
  function OpenAsWritten(reg: Instances, id: nat, driver: DriverOpen): (r: Result<Opened, Error>)
    requires Registered(reg, id)
    ensures r.Failure? <==> !IsOpen(reg, id) && exists i :: 0 <= i < |reg| && reg[i].Dead?
    ensures r.Failure? ==> r.error == AttributeError
    ensures r.Success? ==> r.value == Open(reg, id, driver)
  {
    if IsOpen(reg, id) then Success(Opened(reg, AlreadyOpen))
    else
      match AnyOpenAsWritten(reg)
      case Failure(e) => Failure(e)
      case Success(_) => Success(Open(reg, id, driver))
  }

  /** `MyU3.close` of the session `id`. */
  function Close(reg: Instances, id: nat): (r: Instances)
    ensures !IsOpen(r, id)
    ensures !IsOpen(reg, id) ==> r == reg
    ensures OnlyChanged(reg, r, id)
    ensures forall i :: OpenAt(r, i) ==> OpenAt(reg, i)
    ensures Valid(reg) ==> Valid(r)
  {
    if IsOpen(reg, id) then
      var r := SetOpen(reg, id, false);
      assert forall i :: OpenAt(r, i) ==> OpenAt(reg, i) && !IsEntry(reg, i, id);
      assert Valid(reg) ==> Valid(r) by {
        if Valid(reg) {
          ValidTransfer(reg, r);
        }
      }
      r
    else reg
  }

  /** `close()` called on each session in order, from position `k` on. */
  function CloseEach(reg: Instances, k: nat): (r: Instances)
    requires NoDead(reg) && k <= |reg|
    ensures |r| == |reg| && NoDead(r)
    ensures forall i :: 0 <= i < |r| ==> r[i].session == reg[i].session.(open := r[i].session.open)
    ensures forall i :: k <= i < |r| ==> !r[i].session.open
    ensures forall i :: OpenAt(r, i) ==> OpenAt(reg, i)
    decreases |reg| - k
  {
    if k == |reg| then reg
    else
      var id := reg[k].session.id;
      var c := Close(reg, id);
      assert IsEntry(reg, k, id);
      assert NoDead(c);
      assert forall i :: 0 <= i < |c| ==> c[i].session == reg[i].session.(open := c[i].session.open);
      assert !OpenAt(c, k);
      var r := CloseEach(c, k + 1);
      assert !OpenAt(r, k);
      r
  }

  /** `MyU3.close_all`: clean up, then close every remaining session. */
  function CloseAll(reg: Instances): (r: Instances)
    ensures NoDead(r) && !AnyOpen(r)
    ensures |r| == |Cleanup(reg)|
    ensures forall i :: 0 <= i < |r| ==> r[i] == Live(Cleanup(reg)[i].session.(open := false))
    ensures forall id :: Registered(r, id) <==> Registered(reg, id)
    ensures Valid(reg) ==> Valid(r)
  {
    var c := Cleanup(reg);
    var r := CloseEach(c, 0);
    forall id
      ensures Registered(r, id) <==> Registered(reg, id)
    {
      if Registered(reg, id) {
        var i :| 0 <= i < |reg| && IsEntry(reg, i, id);
        assert reg[i] in c;
        var j :| 0 <= j < |c| && c[j] == reg[i];
        assert IsEntry(r, j, id);
      }
      if Registered(r, id) {
        var j :| 0 <= j < |r| && IsEntry(r, j, id);
        assert c[j] in c;
        assert c[j] in reg;
        var i :| 0 <= i < |reg| && reg[i] == c[j];
        assert IsEntry(reg, i, id);
      }
    }
    assert Valid(reg) ==> Valid(r) by {
      if Valid(reg) {
        CleanupValid(reg);
        ValidTransfer(c, r);
      }
    }
    r
  }

  /** A weak reference's object is reclaimed: its entry becomes dead. */
  function Collect(reg: Instances, id: nat): (r: Instances)
    ensures |r| == |reg| && !Registered(r, id)
    ensures forall i :: 0 <= i < |reg| && !IsEntry(reg, i, id) ==> r[i] == reg[i]
    ensures forall i :: 0 <= i < |reg| && IsEntry(reg, i, id) ==> r[i].Dead?
    ensures Valid(reg) ==> Valid(r)
  {
    var r := seq(|reg|, i requires 0 <= i < |reg| => if IsEntry(reg, i, id) then Dead else reg[i]);
    assert Valid(reg) ==> Valid(r) by {
      if Valid(reg) {
        forall i, j | 0 <= i < |r| && 0 <= j < |r| && r[i].Live? && r[j].Live? && r[i].session.id == r[j].session.id
          ensures i == j
        {
          assert reg[i].session.id == reg[j].session.id;
        }
        forall i, j | OpenAt(r, i) && OpenAt(r, j)
          ensures i == j
        {
          assert OpenAt(reg, i) && OpenAt(reg, j);
        }
      }
    }
    r
  }

  // ---------------------------------------------------------------------
  // Construction
  // ---------------------------------------------------------------------

  /** `MyU3.is_connected`: `deviceCount(DEVICE_TYPE) > 0`. */
  predicate IsConnected(deviceCount: int) {
    deviceCount > 0
  }

  /** Python's `str.endswith`. */
  predicate EndsWith(s: string, suffix: string) {
    |suffix| <= |s| && s[|s| - |suffix|..] == suffix
  }

  /** An identity above every live one, so no live session has it:
      the new Python object. */
  function FreshId(reg: Instances): (id: nat)
    ensures forall i :: 0 <= i < |reg| && reg[i].Live? ==> reg[i].session.id < id
    ensures !Registered(reg, id)
  {
    if |reg| == 0 then 0
    else
      var rest := FreshId(reg[1..]);
      assert forall i :: 1 <= i < |reg| && reg[i].Live? ==> reg[1..][i - 1].session.id < rest;
      if reg[0].Live? && reg[0].session.id >= rest then reg[0].session.id + 1 else rest
  }

  /** Registering a new closed session under an unused id keeps the registry valid. */
  lemma RegisterValid(reg: Instances, s: Session)
    requires Valid(reg) && !Registered(reg, s.id) && !s.open
    ensures Valid(reg + [Live(s)])
  {
    var r := reg + [Live(s)];
    forall i, j | 0 <= i < |r| && 0 <= j < |r| && r[i].Live? && r[j].Live? && r[i].session.id == r[j].session.id
      ensures i == j
    {
      if i < |reg| && j == |reg| {
        assert IsEntry(reg, i, s.id);
      } else if j < |reg| && i == |reg| {
        assert IsEntry(reg, j, s.id);
      }
    }
    forall i, j | OpenAt(r, i) && OpenAt(r, j)
      ensures i == j
    {
      assert OpenAt(reg, i) && OpenAt(reg, j);
    }
  }

  datatype Constructed = Constructed(instances: Instances, session: Session, alert: Alert)

  /** An exception escaping the constructor, with the list as it stands then. */
  datatype Raised = Raised(instances: Instances, error: Error)

  predicate HasDead(reg: Instances) {
    exists i :: 0 <= i < |reg| && reg[i].Dead?
  }

  /** The constructor's append of a weak reference to the new object, which
      is not open yet. */
  function Register(reg: Instances): (r: Instances)
    ensures |r| == |reg| + 1 && r[..|reg|] == reg
    ensures r[|reg|] == Live(Session(FreshId(reg), false, None))
    ensures IsEntry(r, |reg|, FreshId(reg)) && !IsOpen(r, FreshId(reg))
    ensures forall i :: 0 <= i < |reg| ==> !IsEntry(r, i, FreshId(reg))
    ensures AnyOpen(r) == AnyOpen(reg)
    ensures HasDead(r) <==> HasDead(reg)
    ensures Valid(reg) ==> Valid(r)
  {
    var id := FreshId(reg);
    var newSession := Session(id, false, None);
    var r := reg + [Live(newSession)];
    assert IsEntry(r, |reg|, id);
    assert forall i :: 0 <= i < |reg| ==> !IsEntry(r, i, id);
    assert AnyOpen(r) == AnyOpen(reg) by {
      assert forall i :: OpenAt(reg, i) ==> OpenAt(r, i);
      assert forall i :: OpenAt(r, i) ==> OpenAt(reg, i);
    }
    assert HasDead(r) ==> HasDead(reg) by {
      assert forall i :: 0 <= i < |r| && r[i].Dead? ==> i < |reg| && reg[i].Dead?;
    }
    assert HasDead(reg) ==> HasDead(r) by {
      assert forall i :: 0 <= i < |reg| && reg[i].Dead? ==> r[i].Dead?;
    }
    assert Valid(reg) ==> Valid(r) by {
      if Valid(reg) {
        RegisterValid(reg, newSession);
      }
    }
    r
  }

  /** The part of `MyU3.__init__` after the device check: append a weak
      reference to the new, closed object, then call its `open` (with dead
      references skipped). */
  function RegisterAndOpen(reg: Instances, driver: DriverOpen): (r: Constructed)
    ensures |r.instances| == |reg| + 1
    ensures r.instances[..|reg|] == reg
    ensures r.instances[|reg|] == Live(r.session)
    ensures !Registered(reg, r.session.id) && r.session.isHV == None
    ensures r.session.open <==> !AnyOpen(reg) && driver == Claimed
    ensures r.alert == (if AnyOpen(reg) then AnotherOpen else if driver == NullHandle then UnableToOpen else Silent)
    ensures Valid(reg) ==> Valid(r.instances)
  {
    var id := FreshId(reg);
    var reg1 := Register(reg);
    var o := Open(reg1, id, driver);
    assert |o.instances| == |reg1| && o.instances[|reg|].Live?;
    assert o.instances[|reg|].session == reg1[|reg|].session.(open := o.instances[|reg|].session.open);
    assert o.instances[..|reg|] == reg by {
      forall i | 0 <= i < |reg|
        ensures o.instances[i] == reg[i]
      {
        assert !IsEntry(reg1, i, id);
      }
    }
    assert forall i :: 0 <= i < |reg| ==> !IsEntry(o.instances, i, id);
    assert o.instances[|reg|].session.open <==> IsOpen(o.instances, id);
    Constructed(o.instances, o.instances[|reg|].session, o.alert)
  }

  /** The same with `open` as written: `any_open` raises `AttributeError` on a
      dead reference, after the new object has been appended. */
  function RegisterAndOpenAsWritten(reg: Instances, driver: DriverOpen): (r: Result<Constructed, Raised>)
    ensures r.Failure? <==> HasDead(reg)
    ensures r.Failure? ==> r.error == Raised(Register(reg), AttributeError)
    ensures r.Success? ==> r.value == RegisterAndOpen(reg, driver)
  {
    var id := FreshId(reg);
    var reg1 := Register(reg);
    match OpenAsWritten(reg1, id, driver)
    case Failure(e) => Failure(Raised(reg1, e))
    case Success(_) => Success(RegisterAndOpen(reg, driver))
  }

  /** The end of `MyU3.__init__`: when `open` opened the device, its
      properties are read and `isHV` is set to whether `DeviceName` ends
      with "HV". */
  function ReadProperties(reg: Instances, c: Constructed, deviceName: string): (r: Constructed)
    requires |c.instances| == |reg| + 1 && c.instances[|reg|] == Live(c.session)
    ensures |r.instances| == |reg| + 1 && r.instances[..|reg|] == c.instances[..|reg|]
    ensures r.instances[|reg|] == Live(r.session) && r.alert == c.alert
    ensures r.session == c.session.(isHV := if c.session.open then Some(EndsWith(deviceName, "HV")) else c.session.isHV)
    ensures Valid(c.instances) ==> Valid(r.instances)
  {
    if c.session.open then
      var withHV := c.session.(isHV := Some(EndsWith(deviceName, "HV")));
      var r := c.instances[|reg| := Live(withHV)];
      assert r[..|reg|] == c.instances[..|reg|];
      assert Valid(c.instances) ==> Valid(r) by {
        if Valid(c.instances) {
          ValidTransfer(c.instances, r);
        }
      }
      Constructed(r, withHV, c.alert)
    else
      c
  }

  /** `MyU3.__init__` with the corrected `open`: check for a device,
      register a new closed session, call `open`, and read the properties
      of an opened device. */
  function Construct(reg: Instances, deviceCount: int, driver: DriverOpen, deviceName: string)
    : (r: Result<Constructed, Error>)
    ensures r.Failure? <==> !IsConnected(deviceCount)
    ensures r.Failure? ==> r.error == DeviceNotPresentError
    ensures r.Success? ==>
      && |r.value.instances| == |reg| + 1
      && r.value.instances[..|reg|] == reg
      && r.value.instances[|reg|] == Live(r.value.session)
      && !Registered(reg, r.value.session.id)
    ensures r.Success? ==> (r.value.session.open <==> !AnyOpen(reg) && driver == Claimed)
    ensures r.Success? ==>
      r.value.session.isHV == (if r.value.session.open then Some(EndsWith(deviceName, "HV")) else None)
    ensures r.Success? && Valid(reg) ==> Valid(r.value.instances)
  {
    if !IsConnected(deviceCount) then Failure(DeviceNotPresentError)
    else Success(ReadProperties(reg, RegisterAndOpen(reg, driver), deviceName))
  }

  /** `MyU3.__init__` as written. No device: `DeviceNotPresentError` before
      anything is registered. A dead reference in the list: the new object
      is appended, then its `open` raises `AttributeError`. Otherwise it is
      the corrected constructor. */
  function ConstructAsWritten(reg: Instances, deviceCount: int, driver: DriverOpen, deviceName: string)
    : (r: Result<Constructed, Raised>)
    ensures !IsConnected(deviceCount) ==> r == Failure(Raised(reg, DeviceNotPresentError))
    ensures IsConnected(deviceCount) ==> (r.Failure? <==> HasDead(reg))
    ensures IsConnected(deviceCount) && HasDead(reg) ==>
      && r.error.error == AttributeError
      && |r.error.instances| == |reg| + 1
      && r.error.instances[..|reg|] == reg
      && r.error.instances[|reg|] == Live(Session(FreshId(reg), false, None))
    ensures r.Success? ==> Construct(reg, deviceCount, driver, deviceName) == Success(r.value)
    ensures r.Failure? && Valid(reg) ==> Valid(r.error.instances)
  {
    if !IsConnected(deviceCount) then Failure(Raised(reg, DeviceNotPresentError))
    else
      match RegisterAndOpenAsWritten(reg, driver)
      case Failure(e) => Failure(e)
      case Success(c) => Success(ReadProperties(reg, c, deviceName))
  }
}
