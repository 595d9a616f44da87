/** The earlier `MyU3` of archive/labjack_old.py. Its `open`, `close`,
    `any_open`, `cleanup_instances` and `close_all` are the same statements
    as in labjack.py and are modelled by the members of `Registry`; only its
    constructor differs: it never reads the device name, so a session built
    by it has no `isHV` attribute. */
module LabjackOld {
  import opened Results
  import opened Registry

  /** `MyU3.__init__` of the old copy: device check, registration, `open`,
      and nothing more that the registry can see. */
  function Construct(reg: Instances, deviceCount: int, driver: DriverOpen): (r: Result<Constructed, Error>)
    ensures r.Failure? <==> !IsConnected(deviceCount)
    ensures r.Failure? ==> r.error == DeviceNotPresentError
    ensures r.Success? ==>
      && |r.value.instances| == |reg| + 1
      && r.value.instances[..|reg|] == reg
      && r.value.instances[|reg|] == Live(r.value.session)
      && !Registered(reg, r.value.session.id)
      && r.value.session.isHV == None
    ensures r.Success? ==> (r.value.session.open <==> !AnyOpen(reg) && driver == Claimed)
    ensures r.Success? && Valid(reg) ==> Valid(r.value.instances)
  {
    if !IsConnected(deviceCount) then Failure(DeviceNotPresentError)
    else Success(RegisterAndOpen(reg, driver))
  }

  /** The old `MyU3.__init__` as written: its `open` reaches `any_open`
      after the append, so a dead reference in the list makes it raise
      `AttributeError` with the new object registered. */
  function ConstructAsWritten(reg: Instances, deviceCount: int, driver: DriverOpen): (r: Result<Constructed, Raised>)
    ensures !IsConnected(deviceCount) ==> r == Failure(Raised(reg, DeviceNotPresentError))
    ensures IsConnected(deviceCount) ==> (r.Failure? <==> HasDead(reg))
    ensures IsConnected(deviceCount) && HasDead(reg) ==>
      && r.error.error == AttributeError
      && |r.error.instances| == |reg| + 1
      && r.error.instances[..|reg|] == reg
      && r.error.instances[|reg|] == Live(Session(FreshId(reg), false, None))
    ensures r.Success? ==> Construct(reg, deviceCount, driver) == Success(r.value)
    ensures r.Failure? && Valid(reg) ==> Valid(r.error.instances)
  {
    if !IsConnected(deviceCount) then Failure(Raised(reg, DeviceNotPresentError))
    else RegisterAndOpenAsWritten(reg, driver)
  }

  /** Both constructors fail alike, register the same session under the same
      id, and open it alike; they differ only in the `isHV` attribute. */
  lemma SameAsCurrent(reg: Instances, deviceCount: int, driver: DriverOpen, deviceName: string)
    ensures Construct(reg, deviceCount, driver).Failure? <==>
            Registry.Construct(reg, deviceCount, driver, deviceName).Failure?
    ensures Construct(reg, deviceCount, driver).Success? ==>
      var old_ := Construct(reg, deviceCount, driver).value;
      var new_ := Registry.Construct(reg, deviceCount, driver, deviceName).value;
      && old_.session == new_.session.(isHV := None)
      && old_.instances == new_.instances[|reg| := Live(old_.session)]
  {
  }
}
