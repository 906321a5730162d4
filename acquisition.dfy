/**
 Device acquisition in TEMP.py: the address-type rule in `main`, the scan loop
 of `wait_for_device` and the bounded retry loop of `connect_device`. The
 radio is abstracted to the outcomes of its calls; the wall-clock deadline of
 the scan loop is abstracted to the finite sequence of scan passes that start
 before it.
 */
module Acquisition {
  import opened Wrappers

  /** The number of connect attempts connect_device allows. */
  const ConnectTries: nat := 5
  /** the device model that is addressed with a public address */
  const PublicAddressModel: string := "MBP70"

  datatype AddressType = Public | Random

  /** The address type main chooses: public for the MBP70 model, random for every other model. */
  function AddressTypeFor(deviceModel: string): (t: AddressType)
    ensures t == Public <==> deviceModel == PublicAddressModel
    ensures t == Random <==> deviceModel != PublicAddressModel
  {
    if deviceModel == PublicAddressModel then Public else Random
  }

  // ---------------------------------------------------------------------------
  // wait_for_device
  // ---------------------------------------------------------------------------

  /** One entry of the list adapter.scan returns. */
  datatype Advert = Advert(name: string, address: string)

  /**
   The outcome of one scan pass: the devices seen; a BLEError, after which
   adapter.reset() is called (and may itself raise); or any other exception,
   which the handler does not catch.
   */
  datatype ScanPass = Scanned(devices: seq<Advert>) | ScanFailed(resetRaises: bool) | ScanRaised

  /** The exception that leaves wait_for_device: from a scan, or from the reset after a BLEError. */
  datatype WaitError = ScanError | ResetError

  ghost predicate Advertises(devices: seq<Advert>, devname: string)
  {
    exists i :: 0 <= i < |devices| && devices[i].name == devname
  }

  ghost predicate PassFinds(p: ScanPass, devname: string)
  {
    p.Scanned? && Advertises(p.devices, devname)
  }

  /** The pass raises an exception that leaves wait_for_device. */
  ghost predicate Escapes(p: ScanPass)
  {
    p.ScanRaised? || (p.ScanFailed? && p.resetRaises)
  }

  /** The number of passes that raised BLEError; each of them is followed by one call to adapter.reset(). */
  function Failures(passes: seq<ScanPass>): nat
  {
    if passes == [] then 0
    else Failures(passes[..|passes| - 1]) + (if passes[|passes| - 1].ScanFailed? then 1 else 0)
  }

  /** The search of one scan pass's device list for the wanted name, which stops at the first match. */
  method ScanMatches(devices: seq<Advert>, devname: string) returns (found: bool)
    ensures found <==> Advertises(devices, devname)
  {
    found := false;
    var i := 0;
    while i < |devices|
      invariant 0 <= i <= |devices|
      invariant !found
      invariant forall j :: 0 <= j < i ==> devices[j].name != devname
    {
      if devices[i].name == devname {
        found := true;
        break;
      }
      i := i + 1;
    }
  }

  /**
   wait_for_device(adapter, devname, log): `passes` are the outcomes of the
   scans that begin before the deadline. Returns whether the device was found
   (or the exception that escaped), how many passes ran, and how many adapter
   resets were made.
   */
  method WaitForDevice(passes: seq<ScanPass>, devname: string) returns (r: Result<bool, WaitError>, used: nat, resets: nat)
    ensures used <= |passes|
    ensures forall i :: 0 <= i < used - 1 ==> !PassFinds(passes[i], devname) && !Escapes(passes[i])
    ensures r == Ok(true) <==> used > 0 && PassFinds(passes[used - 1], devname)
    ensures r == Err(ScanError) <==> used > 0 && passes[used - 1].ScanRaised?
    ensures r == Err(ResetError) <==> used > 0 && passes[used - 1] == ScanFailed(true)
    ensures r == Ok(false) <==>
              used == |passes| && forall i :: 0 <= i < |passes| ==> !PassFinds(passes[i], devname) && !Escapes(passes[i])
    ensures resets == Failures(passes[..used])
  {
    r, used, resets := Ok(false), 0, 0;
    while r == Ok(false) && used < |passes|
      invariant 0 <= used <= |passes|
      invariant forall i :: 0 <= i < used - (if r == Ok(false) then 0 else 1) ==>
                  !PassFinds(passes[i], devname) && !Escapes(passes[i])
      invariant r == Ok(true) ==> used > 0 && PassFinds(passes[used - 1], devname)
      invariant r == Err(ScanError) ==> used > 0 && passes[used - 1].ScanRaised?
      invariant r == Err(ResetError) ==> used > 0 && passes[used - 1] == ScanFailed(true)
      invariant resets == Failures(passes[..used])
    {
      assert passes[..used + 1][..used] == passes[..used];
      match passes[used] {
        case ScanRaised =>
          r := Err(ScanError);
        case ScanFailed(resetRaises) =>
          resets := resets + 1;
          if resetRaises {
            r := Err(ResetError);
          }
        case Scanned(devices) =>
          var found := ScanMatches(devices, devname);
          r := Ok(found);
      }
      used := used + 1;
    }
    match r {
      case Ok(found) =>
        if !found && used > 0 {
          assert !PassFinds(passes[used - 1], devname) && !Escapes(passes[used - 1]);
        }
      case Err(e) =>
        assert e == ScanError || e == ResetError;
        assert used > 0;
        assert !PassFinds(passes[used - 1], devname);
    }
  }

  // ---------------------------------------------------------------------------
  // connect_device
  // ---------------------------------------------------------------------------

  /** The outcome of one connect call to the adapter. */
  datatype ConnectOutcome<D> = Connected(device: D) | NotConnected | OtherError

  /**
   How connect_device fails: every attempt raised NotConnectedError, so
   returning the device meets an unbound name (UnboundLocalError); or connect
   raised some other exception, which is not caught and propagates.
   */
  datatype ConnectError = DeviceUnbound | Raised

  /** connect_device: `attempt(i)` is what the i-th connect call (from 0) does. */
  method ConnectDevice<D>(attempt: nat -> ConnectOutcome<D>) returns (r: Result<D, ConnectError>, calls: nat)
    ensures 1 <= calls <= ConnectTries
    ensures forall i :: 0 <= i < calls - 1 ==> attempt(i).NotConnected?
    ensures r.Ok? <==> attempt(calls - 1).Connected?
    ensures r.Ok? ==> r.value == attempt(calls - 1).device
    ensures r == Err(Raised) <==> attempt(calls - 1).OtherError?
    ensures r == Err(DeviceUnbound) <==> calls == ConnectTries && attempt(calls - 1).NotConnected?
    ensures calls < ConnectTries ==> !attempt(calls - 1).NotConnected?
  {
    var connected := false;
    var tries := ConnectTries;
    var device: Option<D> := None;
    calls := 0;
    while !connected && tries > 0
      invariant calls <= ConnectTries
      invariant tries == ConnectTries - calls + (if connected then 1 else 0)
      invariant forall i :: 0 <= i < calls - (if connected then 1 else 0) ==> attempt(i).NotConnected?
      invariant connected ==> calls > 0 && attempt(calls - 1).Connected?
                              && device == Some(attempt(calls - 1).device)
      invariant !connected ==> device == None
    {
      var outcome := attempt(calls);
      calls := calls + 1;
      match outcome
      case Connected(d) =>
        device := Some(d);
        connected := true;
      case NotConnected =>
        tries := tries - 1;
      case OtherError =>
        return Err(Raised), calls;
    }
    if device.None? {
      return Err(DeviceUnbound), calls;
    }
    r := Ok(device.value);
  }
}
