/** `saveparametersSystem` and `loadParameters`: the parameter set through the EEPROM and back. */
module ParamStore {
  import opened Bytes
  import opened Params
  import opened ParamSystem
  import opened Eeprom

  const SYSTEM_SETTINGS_ADDRESS := 0

  class Store {
    const system: System
    const eep: Driver
    var sysSettingLoadDefault: bool

    ghost predicate Valid()
      reads system.valuearray, eep.device
    {
      && system.Valid() && eep.device.Valid()
      && |Blob(system.Table(), SaveSys)| <= SIZE
    }

    constructor (system: System, eep: Driver)
      requires system.Valid() && eep.device.Valid() && |Blob(system.Table(), SaveSys)| <= SIZE
      ensures Valid() && this.system == system && this.eep == eep && !sysSettingLoadDefault
    {
      this.system, this.eep, sysSettingLoadDefault := system, eep, false;
    }

    /** `saveparametersSystem`; whether it succeeded is only logged. */
    method SaveParametersSystem() returns (ok: bool)
      requires Valid()
      modifies eep.device, eep.device.mem
      ensures Valid() && system.Table() == old(system.Table())
      ensures ok ==> eep.device.mem[..] == Spliced(old(eep.device.mem[..]), 0, Blob(system.Table(), SaveSys))
      ensures !ok ==> exists n :: 0 <= n <= |Blob(system.Table(), SaveSys)| &&
                        eep.device.mem[..] == Spliced(old(eep.device.mem[..]), 0, Blob(system.Table(), SaveSys)[..n])
    {
      hide Spliced, Blob, Written;
      ghost var ps := system.Table();
      var size := system.GetSerialSize(SaveSys);
      var buffer := new byte[size];
      system.Serialize(SaveSys, buffer);
      assert buffer[..] == Blob(ps, SaveSys);
      assert system.Table() == ps;
      ok := eep.Write(SYSTEM_SETTINGS_ADDRESS, buffer[..]);
      WriteIsExact(old(eep.device.mem[..]), 0, Blob(ps, SaveSys));
      assert system.Table() == ps;
    }

    /** The system half of `loadParameters`. */
    method LoadParameters() returns (read: bool)
      requires Valid()
      modifies this, system.valuearray, eep.device, eep.device.mem
      ensures Valid() && eep.device.mem[..] == old(eep.device.mem[..])
      ensures var size, ps := |old(Blob(system.Table(), SaveSys))|, old(system.Table());
              if read then
                var (accepted, qs) := Deserialized(ps, SaveSys, old(eep.device.mem[..size]));
                system.Table() == qs && sysSettingLoadDefault == (old(sysSettingLoadDefault) || !accepted)
              else system.Table() == ps && sysSettingLoadDefault == old(sysSettingLoadDefault)
    {
      hide Blob, Deserialized, Legal;
      ghost var ps := system.Table();
      var size := system.GetSerialSize(SaveSys);
      var buffer := new byte[size];
      read := eep.Read(buffer, SYSTEM_SETTINGS_ADDRESS, size);
      assert system.Table() == ps;
      if read {
        assert buffer[..] == buffer[..size];
        TakeParameters(buffer[..]);
      }
    }

    method TakeParameters(b: seq<byte>)
      requires Valid() && |b| == |Blob(system.Table(), SaveSys)|
      modifies this, system.valuearray
      ensures Valid()
      ensures var (accepted, qs) := old(Deserialized(system.Table(), SaveSys, b));
              system.Table() == qs && sysSettingLoadDefault == (old(sysSettingLoadDefault) || !accepted)
    {
      hide Blob, Deserialized, Legal;
      BlobSizeKept(system.Table(), SaveSys, b);
      var accepted := system.Deserialize(SaveSys, b);
      if !accepted {
        sysSettingLoadDefault := true;
      }
    }
  }

  lemma BlobSizeKept(ps: seq<Param>, save: Save, b: seq<byte>)
    requires Legal(ps) && |b| == |Blob(ps, save)|
    ensures |Blob(Deserialized(ps, save, b).1, save)| == |Blob(ps, save)|
  {
    hide Legal, Payload, Restored, Accepts;
    RestoredLegal(ps, save, b[2..]);
    SameSizes(ps, Restored(ps, save, b[2..]), save);
  }

  /**
   After a successful save of ps, a load into qs, whatever its values, brings back every saved value
   that is in range and leaves all others; the rest of the EEPROM is as it was.
   */
  lemma SavedIsLoaded(mem: seq<byte>, ps: seq<Param>, qs: seq<Param>)
    requires Legal(ps) && SameHandlers(ps, qs) && |Blob(ps, SaveSys)| <= |mem|
    ensures var size, after := |Blob(qs, SaveSys)|, Spliced(mem, 0, Blob(ps, SaveSys));
            && size <= |mem| && after[size..] == mem[size..]
            && Deserialized(qs, SaveSys, after[..size]) == (true, Merged(ps, qs, SaveSys))
  {
    BlobRoundTrip(ps, qs, SaveSys);
    hide Blob, Deserialized, Merged;
    assert Spliced(mem, 0, Blob(ps, SaveSys))[..|Blob(qs, SaveSys)|] == Blob(ps, SaveSys);
  }
}
