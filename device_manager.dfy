/**
 * The appliance table (src/device_manager.cpp): a fixed array of ten device
 * slots of which the first `count` are in use. Devices are appended, looked
 * up by id with a linear search, and removed by shifting the later entries
 * left. Commands and scenarios only look devices up; nothing ever marks a
 * device active.
 */
module DeviceManager {
  import opened Arduino

  /** `MAX_DEVICES`. */
  const MaxDevices: nat := 10

  /** The size of a device's `name` buffer, terminator included. */
  const NameCapacity: nat := 32

  /** A `uint8_t` device id. */
  type DeviceId = x: int | 0 <= x < 256

  datatype DeviceType = Tv | AirConditioner | Fan | Light | UnknownType

  datatype Command =
    | PowerOn | PowerOff | PowerToggle
    | VolumeUp | VolumeDown | ChannelUp | ChannelDown
    | TempUp | TempDown | ModeCool | ModeHeat | FanSpeedUp | FanSpeedDown

  datatype Device = Device(id: DeviceId, kind: DeviceType, name: string, isActive: bool)

  /** A call `sendCommand(deviceId, command)`. */
  datatype Issued = Issued(deviceId: DeviceId, command: Command)

  /** A zero-initialised slot of the global table. */
  const Blank: Device := Device(0, Tv, "", false)

  predicate AllInactive(s: seq<Device>)
  {
    forall i :: 0 <= i < |s| ==> !s[i].isActive
  }

  /** The position of the first entry with id `id`, or -1 when there is none. */
  function FirstIndex(s: seq<Device>, id: DeviceId): (k: int)
    ensures -1 <= k < |s|
    ensures k >= 0 ==> s[k].id == id
    ensures forall i :: 0 <= i < |s| && (k == -1 || i < k) ==> s[i].id != id
  {
    if s == [] then -1
    else if s[0].id == id then 0
    else
      var k := FirstIndex(s[1..], id);
      if k == -1 then -1 else k + 1
  }

  /** The table with its first entry of id `id` taken out, the others in their order. */
  function RemoveFirst(s: seq<Device>, id: DeviceId): (r: seq<Device>)
    ensures |r| == if FirstIndex(s, id) >= 0 then |s| - 1 else |s|
  {
    if s == [] then []
    else if s[0].id == id then s[1..]
    else [s[0]] + RemoveFirst(s[1..], id)
  }

  /** Removal splices out exactly the first match and leaves a table without one unchanged. */
  lemma {:induction false} RemoveFirstSplices(s: seq<Device>, id: DeviceId)
    ensures FirstIndex(s, id) == -1 ==> RemoveFirst(s, id) == s
    ensures FirstIndex(s, id) >= 0 ==>
      RemoveFirst(s, id) == s[..FirstIndex(s, id)] + s[FirstIndex(s, id) + 1..]
  {
    if s == [] {
    } else if s[0].id == id {
      assert s[..0] + s[1..] == s[1..];
    } else {
      var t := s[1..];
      RemoveFirstSplices(t, id);
      var k := FirstIndex(t, id);
      assert RemoveFirst(s, id) == [s[0]] + RemoveFirst(t, id);
      if k == -1 {
        assert FirstIndex(s, id) == -1;
        assert [s[0]] + t == s;
      } else {
        assert FirstIndex(s, id) == k + 1;
        assert RemoveFirst(t, id) == t[..k] + t[k + 1..];
        Splice(s, k + 1);
      }
    }
  }

  /** Taking out the entry at `j > 0` is keeping the head and taking out entry `j - 1` of the tail. */
  lemma Splice(s: seq<Device>, j: nat)
    requires 0 < j < |s|
    ensures s[..j] + s[j + 1..] == [s[0]] + (s[1..][..j - 1] + s[1..][j..])
  {
    var t := s[1..];
    assert s[..j] == [s[0]] + t[..j - 1];
    assert s[j + 1..] == t[j..];
  }

  /** Removing an entry keeps every other entry, once each. */
  lemma RemoveFirstKeepsOthers(s: seq<Device>, id: DeviceId)
    requires FirstIndex(s, id) >= 0
    ensures multiset(RemoveFirst(s, id)) + multiset{s[FirstIndex(s, id)]} == multiset(s)
  {
    var k := FirstIndex(s, id);
    RemoveFirstSplices(s, id);
    SpliceMultiset(s, k);
  }

  lemma SpliceMultiset(s: seq<Device>, k: nat)
    requires k < |s|
    ensures multiset(s[..k] + s[k + 1..]) + multiset{s[k]} == multiset(s)
  {
    var front, back := s[..k], s[k + 1..];
    assert s == front + [s[k]] + back;
  }

  /** Removal never makes an inactive table hold an active device. */
  lemma RemoveFirstKeepsInactive(s: seq<Device>, id: DeviceId)
    requires AllInactive(s)
    ensures AllInactive(RemoveFirst(s, id))
  {
    var k := FirstIndex(s, id);
    RemoveFirstSplices(s, id);
    if k >= 0 {
      var r := RemoveFirst(s, id);
      forall i | 0 <= i < |r|
        ensures !r[i].isActive
      {
        if i < k {
          assert r[i] == s[i];
        } else {
          assert r[i] == s[i + 1];
        }
      }
    }
  }

  /** The commands a scenario issues, when the table holds `table`. */
  function ScenarioCommands(scenario: string, table: seq<Device>): (cmds: seq<Issued>)
    ensures scenario == "away" ==>
      |cmds| == |table| && forall i :: 0 <= i < |table| ==> cmds[i] == Issued(table[i].id, PowerOff)
  {
    if scenario == "movie" then [Issued(3, PowerOff), Issued(2, TempDown)]
    else if scenario == "sleep" then [Issued(1, PowerOff), Issued(2, PowerOff), Issued(3, PowerOff)]
    else if scenario == "away" then seq(|table|, i requires 0 <= i < |table| => Issued(table[i].id, PowerOff))
    else []
  }

  class DeviceManager {
    const devices: array<Device>
    var count: nat

    ghost predicate Valid()
      reads this
    {
      devices.Length == MaxDevices && count <= MaxDevices
    }

    /** The devices in use, in table order. */
    ghost function Contents(): seq<Device>
      reads this, devices
      requires Valid()
    {
      devices[..count]
    }

    /** The global manager before `init`: every slot zeroed, no device in use. */
    constructor ()
      ensures Valid() && fresh(devices) && count == 0
      ensures forall i :: 0 <= i < MaxDevices ==> devices[i] == Blank
    {
      devices := new Device[MaxDevices](_ => Blank);
      count := 0;
    }

    /** `init`: the table becomes empty; the slots keep what they hold. */
    method Init()
      requires Valid()
      modifies this
      ensures Valid() && count == 0 && Contents() == []
    {
      count := 0;
    }

    /**
     * `addDevice`: a full table is left alone and the call fails; otherwise the
     * device goes into slot `count`, inactive, with its name cut to 31
     * characters. Ids already present are not rejected.
     */
    method AddDevice(id: DeviceId, kind: DeviceType, name: string) returns (ok: bool)
      requires Valid()
      modifies this, devices
      ensures Valid()
      ensures ok == (old(count) < MaxDevices)
      ensures ok ==> (count == old(count) + 1
        && devices[..] == old(devices[..])[old(count) := Device(id, kind, Truncate(name, NameCapacity - 1), false)])
      ensures !ok ==> count == old(count) && devices[..] == old(devices[..])
      ensures Contents() == if ok then old(Contents()) + [Device(id, kind, Truncate(name, NameCapacity - 1), false)]
                            else old(Contents())
      ensures AllInactive(old(Contents())) ==> AllInactive(Contents())
    {
      if count >= MaxDevices {
        return false;
      }
      devices[count] := Device(id, kind, Truncate(name, NameCapacity - 1), false);
      count := count + 1;
      assert Contents() == old(Contents()) + [devices[count - 1]];
      return true;
    }

    /**
     * The lookup of `sendCommand`: the first device with the id, which the
     * command is then addressed to, or nothing when no device has it.
     */
    method SendCommand(deviceId: DeviceId, command: Command) returns (target: Option<Device>)
      requires Valid()
      ensures target.Some? <==> FirstIndex(Contents(), deviceId) >= 0
      ensures target.Some? ==> target.value == Contents()[FirstIndex(Contents(), deviceId)]
    {
      var deviceIdx := -1;
      var i := 0;
      while i < count
        invariant 0 <= i <= count
        invariant forall j :: 0 <= j < i ==> devices[j].id != deviceId
      {
        if devices[i].id == deviceId {
          deviceIdx := i;
          break;
        }
        i := i + 1;
      }
      if deviceIdx == -1 {
        return None;
      }
      return Some(devices[deviceIdx]);
    }

    /** `getDeviceStatus`: whether the first device with the id is active; false when there is none. */
    method GetDeviceStatus(deviceId: DeviceId) returns (active: bool)
      requires Valid()
      ensures active <==> FirstIndex(Contents(), deviceId) >= 0 && Contents()[FirstIndex(Contents(), deviceId)].isActive
      ensures AllInactive(Contents()) ==> !active
    {
      var i := 0;
      while i < count
        invariant 0 <= i <= count
        invariant forall j :: 0 <= j < i ==> devices[j].id != deviceId
      {
        if devices[i].id == deviceId {
          return devices[i].isActive;
        }
        i := i + 1;
      }
      return false;
    }

    /** `executeScenario`: the `sendCommand` calls the scenario makes, in order. */
    method ExecuteScenario(scenario: string) returns (issued: seq<Issued>)
      requires Valid()
      ensures issued == ScenarioCommands(scenario, Contents())
    {
      if scenario == "movie" {
        issued := [Issued(3, PowerOff), Issued(2, TempDown)];
      } else if scenario == "sleep" {
        issued := [Issued(1, PowerOff), Issued(2, PowerOff), Issued(3, PowerOff)];
      } else if scenario == "away" {
        issued := [];
        for i := 0 to count
          invariant |issued| == i
          invariant forall j :: 0 <= j < i ==> issued[j] == Issued(devices[j].id, PowerOff)
        {
          issued := issued + [Issued(devices[i].id, PowerOff)];
        }
      } else {
        issued := [];
      }
    }

    /**
     * `removeDevice`: the first device with the id is taken out and the later
     * ones move one slot left, keeping their order; the slot that falls out of
     * use keeps a copy of the old last device. Without a match nothing changes.
     */
    method RemoveDevice(deviceId: DeviceId) returns (removed: bool)
      requires Valid()
      modifies this, devices
      ensures Valid()
      ensures removed <==> FirstIndex(old(Contents()), deviceId) >= 0
      ensures Contents() == RemoveFirst(old(Contents()), deviceId)
      ensures count == if removed then old(count) - 1 else old(count)
      ensures removed ==> devices[count] == old(Contents())[count]
      ensures forall j :: old(count) <= j < MaxDevices ==> devices[j] == old(devices[j])
      ensures AllInactive(old(Contents())) ==> AllInactive(Contents())
    {
      ghost var before := Contents();
      RemoveFirstSplices(before, deviceId);
      var i := 0;
      while i < count
        invariant Valid() && Contents() == before
        invariant 0 <= i <= count
        invariant forall j :: 0 <= j < i ==> before[j].id != deviceId
      {
        if devices[i].id == deviceId {
          assert FirstIndex(before, deviceId) == i;
          ShiftOut(i);
          if AllInactive(before) {
            RemoveFirstKeepsInactive(before, deviceId);
          }
          return true;
        }
        i := i + 1;
      }
      return false;
    }

    /** The shifting loop of `removeDevice`: slot `i` is overwritten by moving every later entry one slot left. */
    method ShiftOut(i: nat)
      requires Valid() && i < count
      modifies this, devices
      ensures Valid() && count == old(count) - 1
      ensures Contents() == old(Contents()[..i] + Contents()[i + 1..])
      ensures devices[count] == old(Contents())[count]
      ensures forall j :: old(count) <= j < MaxDevices ==> devices[j] == old(devices[j])
    {
      var j := i;
      while j < count - 1
        invariant Valid() && count == old(count)
        invariant i <= j <= count - 1
        invariant forall t :: 0 <= t < i ==> devices[t] == old(devices[t])
        invariant forall t :: i <= t < j ==> devices[t] == old(devices[t + 1])
        invariant forall t :: j <= t < MaxDevices ==> devices[t] == old(devices[t])
      {
        devices[j] := devices[j + 1];
        j := j + 1;
      }
      count := count - 1;
      ghost var before := old(Contents());
      forall t | 0 <= t < count
        ensures Contents()[t] == (before[..i] + before[i + 1..])[t]
      {
        if t < i {
          assert Contents()[t] == before[t];
        } else {
          assert Contents()[t] == before[t + 1];
        }
      }
    }
  }
}
