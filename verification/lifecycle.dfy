/** Whole-program view of the `MyU3` registry: any sequence of
    constructions, `open`/`close` calls, `close_all` calls and reclaimed
    objects, starting from the empty class-wide list, keeps at most one
    registered session open. */
module Lifecycle {
  import opened Results
  import opened Registry

  /** Which `any_open` the constructor and `open` use: the source's, which
      raises on a dead reference, or the corrected one, which skips it. */
  datatype Variant = AsWritten | Corrected

  /** One thing the program can do to the registry. The driver's answers
      (`deviceCount`, the outcome of `U3.open`, `DeviceName`) are part of the
      event, since the model does not see the device. */
  datatype Event =
    | New(deviceCount: int, driver: DriverOpen, deviceName: string)
    | OpenCall(id: nat, driver: DriverOpen)
    | CloseCall(id: nat)
    | CloseAllCall
    | Reclaim(id: nat)

  /** The registry after one event. A constructor or `open` that raises
      leaves the list as it stood when the exception was raised; `open` and
      `close` are methods of an existing object, so a call naming no live
      session is not one the program can make and leaves the list as it is. */
  function Step(v: Variant, reg: Instances, e: Event): Instances
  {
    match e
    case New(count, driver, name) =>
      if v == Corrected then
        (match Construct(reg, count, driver, name)
         case Success(c) => c.instances
         case Failure(_) => reg)
      else
        (match ConstructAsWritten(reg, count, driver, name)
         case Success(c) => c.instances
         case Failure(raised) => raised.instances)
    case OpenCall(id, driver) =>
      if !Registered(reg, id) then reg
      else if v == Corrected then Open(reg, id, driver).instances
      else
        (match OpenAsWritten(reg, id, driver)
         case Success(o) => o.instances
         case Failure(_) => reg)
    case CloseCall(id) => Close(reg, id)
    case CloseAllCall => CloseAll(reg)
    case Reclaim(id) => Collect(reg, id)
  }

  function Run(v: Variant, reg: Instances, events: seq<Event>): Instances
    decreases |events|
  {
    if |events| == 0 then reg else Run(v, Step(v, reg, events[0]), events[1..])
  }

  lemma StepValid(v: Variant, reg: Instances, e: Event)
    requires Valid(reg)
    ensures Valid(Step(v, reg, e))
  {
  }

  /** Every run from a valid registry ends in a valid one, for the source as
      written and for the corrected `any_open` alike. */
  lemma {:induction false} RunValid(v: Variant, reg: Instances, events: seq<Event>)
    requires Valid(reg)
    ensures Valid(Run(v, reg, events))
    decreases |events|
  {
    if |events| > 0 {
      StepValid(v, reg, events[0]);
      RunValid(v, Step(v, reg, events[0]), events[1..]);
    }
  }

  /** The class-wide list starts empty, and whatever the program does, no two
      distinct registered sessions are open at once. */
  lemma AtMostOneSessionOpen(v: Variant, events: seq<Event>, a: nat, b: nat)
    requires IsOpen(Run(v, [], events), a) && IsOpen(Run(v, [], events), b)
    ensures a == b
  {
    var r := Run(v, [], events);
    RunValid(v, [], events);
    var i :| 0 <= i < |r| && IsEntry(r, i, a) && r[i].session.open;
    var j :| 0 <= j < |r| && IsEntry(r, j, b) && r[j].session.open;
    assert OpenAt(r, i) && OpenAt(r, j);
  }

  /** Closing twice is closing once. */
  lemma CloseIdempotent(reg: Instances, id: nat)
    ensures Close(Close(reg, id), id) == Close(reg, id)
  {
  }

  /** While one session is open, `open` on another is refused and changes
      nothing; once the first is closed, the other can open. */
  lemma SecondOpenRefusedUntilFirstCloses(reg: Instances, a: nat, b: nat, driver: DriverOpen)
    requires Valid(reg) && Registered(reg, b) && IsOpen(reg, a) && a != b
    ensures Open(reg, b, driver) == Opened(reg, AnotherOpen)
    ensures var c := Close(reg, a);
      Registered(c, b) && Open(c, b, Claimed).alert == Silent && IsOpen(Open(c, b, Claimed).instances, b)
  {
    var i :| 0 <= i < |reg| && IsEntry(reg, i, a) && reg[i].session.open;
    assert !IsOpen(reg, b) by {
      forall j | 0 <= j < |reg| && IsEntry(reg, j, b)
        ensures !reg[j].session.open
      {
        if reg[j].session.open {
          assert OpenAt(reg, i) && OpenAt(reg, j);
        }
      }
    }
    OpenIsAnyOpen(reg, a);
    var c := Close(reg, a);
    var k :| 0 <= k < |reg| && IsEntry(reg, k, b);
    assert IsEntry(c, k, b);
    assert IsEntry(c, i, a);
    assert !OpenAt(c, i);
    assert forall j :: OpenAt(c, j) ==> OpenAt(reg, j) && OpenAt(reg, i) && j == i;
  }

  /** After `close_all`, any registered session can be opened again. */
  lemma OpenAfterCloseAll(reg: Instances, id: nat)
    requires Registered(reg, id)
    ensures Registered(CloseAll(reg), id)
    ensures IsOpen(Open(CloseAll(reg), id, Claimed).instances, id)
  {
  }

  /** With no dead reference in the list, `open` as written behaves like
      the model's `open`; `close_all` always leaves such a list. */
  lemma OpenAsWrittenAgrees(reg: Instances, id: nat, driver: DriverOpen)
    requires NoDead(reg) && Registered(reg, id)
    ensures OpenAsWritten(reg, id, driver) == Success(Open(reg, id, driver))
  {
  }

  /** One dead reference ahead of a closed session: `open` as written
      raises `AttributeError` from `any_open`, where the corrected `open`
      claims the device. */
  lemma DeadReferenceBreaksOpen()
    ensures var reg := [Dead, Live(Session(1, false, None))];
      && Registered(reg, 1)
      && OpenAsWritten(reg, 1, Claimed) == Failure(AttributeError)
      && IsOpen(Open(reg, 1, Claimed).instances, 1)
  {
    var reg := [Dead, Live(Session(1, false, None))];
    assert IsEntry(reg, 1, 1);
    assert !OpenAt(reg, 0) && !OpenAt(reg, 1);
    assert !AnyOpen(reg);
  }

  /** A device selected twice and then a third time, without `close_all` in
      between: the first object opens the device, the second is refused,
      rebinding the panel's attribute releases the first, and the third
      constructor raises `AttributeError` as written, where the corrected one
      registers and opens its session. */
  lemma RepeatedSelectionRaises()
    ensures var reg := Run(AsWritten, [], [New(1, Claimed, "U3"), New(1, Claimed, "U3"), Reclaim(0)]);
      && ConstructAsWritten(reg, 1, Claimed, "U3").Failure?
      && ConstructAsWritten(reg, 1, Claimed, "U3").error.error == AttributeError
      && Construct(reg, 1, Claimed, "U3").Success?
      && Construct(reg, 1, Claimed, "U3").value.session.open
  {
    var r1 := Step(AsWritten, [], New(1, Claimed, "U3"));
    assert r1 == [Live(Session(0, true, Some(false)))];
    var r2 := Step(AsWritten, r1, New(1, Claimed, "U3"));
    assert OpenAt(r1, 0);
    assert r2 == r1 + [Live(Session(1, false, None))];
    var r3 := Step(AsWritten, r2, Reclaim(0));
    assert IsEntry(r2, 0, 0) && !IsEntry(r2, 1, 0);
    assert r3 == [Dead, Live(Session(1, false, None))];
    assert HasDead(r3);
    assert !OpenAt(r3, 0) && !OpenAt(r3, 1);
    assert Run(AsWritten, [], [New(1, Claimed, "U3"), New(1, Claimed, "U3"), Reclaim(0)]) == r3;
  }
}
