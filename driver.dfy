/**
 * The MPU9250 driver: `mpu9250_init`, `mpu9250_read_accel_gyro` and
 * `mpu9250_deinit` over the file-static flag `i2c_installed`.
 *
 * Every I2C call is an oracle: its result is a parameter, so each success
 * and failure path can be stated. The functions InitSpec and DeinitOps say
 * what one call does (result, flag afterwards, transactions issued); the
 * class Driver runs the same steps imperatively and is proved against them.
 */
module Mpu9250Driver {
  import opened Mpu9250Bus
  import opened Mpu9250Sample

  /** The results the bus reports for each call `mpu9250_init` may make, in order. */
  datatype InitOutcomes = InitOutcomes(
    paramConfig: int,  // i2c_param_config
    install: int,      // i2c_driver_install
    whoAmI: int,       // read of WHO_AM_I
    wake: int,         // PWR_MGMT_1 <- 0x01
    sampleRate: int,   // SMPLRT_DIV <- 0x00
    dlpf: int,         // CONFIG <- 0x03
    gyroRange: int,    // GYRO_CONFIG <- 0x00
    accelRange: int)   // ACCEL_CONFIG <- 0x00

  /** What one call does: its return code, the flag afterwards, the transactions it issued. */
  datatype Effect = Effect(rc: int, installed: bool, ops: seq<BusOp>)

  function WhoAmIRead(): BusOp {
    ReadRegs(DeviceAddr, RegWhoAmI, 1)
  }

  /** Clock source PLL, sleep bit cleared. */
  function WakeWrite(): BusOp {
    WriteReg(DeviceAddr, RegPwrMgmt1, 0x01)
  }

  /** Sample rate undivided, DLPF setting 3, +-250 deg/s, +-2 g. */
  function ConfigWrites(): seq<BusOp> {
    [WriteReg(DeviceAddr, RegSmplrtDiv, 0x00), WriteReg(DeviceAddr, RegConfig, 0x03),
     WriteReg(DeviceAddr, RegGyroConfig, 0x00), WriteReg(DeviceAddr, RegAccelConfig, 0x00)]
  }

  function BurstRead(): BusOp {
    ReadRegs(DeviceAddr, RegAccelXoutH, BurstLen)
  }

  /** Whether the bus is installed once init's first step is over. */
  predicate BusReady(installed: bool, o: InitOutcomes) {
    installed || (o.paramConfig == EspOk && o.install == EspOk)
  }

  /**
   * `mpu9250_init` started with `i2c_installed == installed`, against bus
   * results o. It returns ESP_OK or the failure of one of the three calls it
   * checks, and it starts by configuring the bus when the flag is clear and
   * by reading WHO_AM_I when it is set.
   */
  function InitSpec(installed: bool, o: InitOutcomes): (e: Effect)
    ensures e.rc == EspOk || e.rc == o.paramConfig || e.rc == o.install || e.rc == o.wake
    ensures e.ops != [] && e.ops[0] == (if installed then WhoAmIRead() else BusConfig())
  {
    if !installed && o.paramConfig != EspOk then
      Effect(o.paramConfig, false, [BusConfig()])
    else if !installed && o.install != EspOk then
      Effect(o.install, false, [BusConfig(), Install(o.install)])
    else
      var setup := if installed then [] else [BusConfig(), Install(o.install)];
      var probe := setup + [WhoAmIRead(), WakeWrite()];
      if o.wake != EspOk then Effect(o.wake, true, probe)
      else Effect(EspOk, true, probe + ConfigWrites())
  }

  /**
   * The transactions of `mpu9250_deinit` started with `i2c_installed ==
   * installed`: at most one, a delete, issued exactly when the flag is set.
   * The flag is clear afterwards.
   */
  function DeinitOps(installed: bool): (ops: seq<BusOp>)
    ensures |ops| <= 1 && (ops != [] <==> installed)
    ensures forall op :: op in ops ==> op == Delete
  {
    if installed then [Delete] else []
  }

  /** The physical values `mpu9250_read_accel_gyro` stores for a raw sample. */
  datatype Sample = Sample(ax: real, ay: real, az: real, gx: real, gy: real, gz: real)

  function Convert(s: RawSample): (r: Sample)
    ensures r.ax * AccelSens2G == s.ax as real && r.ay * AccelSens2G == s.ay as real
    ensures r.az * AccelSens2G == s.az as real
    ensures r.gx * GyroSens250Dps == s.gx as real && r.gy * GyroSens250Dps == s.gy as real
    ensures r.gz * GyroSens250Dps == s.gz as real
  {
    Sample(AccelG(s.ax), AccelG(s.ay), AccelG(s.az), GyroDps(s.gx), GyroDps(s.gy), GyroDps(s.gz))
  }

  // ---------------------------------------------------------------------------
  // Properties of init and deinit
  // ---------------------------------------------------------------------------

  /** The bus is configured and installed only when the flag is clear; installed needs the configuration to succeed. */
  lemma InitInstallsOnlyWhenAbsent(installed: bool, o: InitOutcomes)
    ensures var e := InitSpec(installed, o);
      (BusConfig() in e.ops <==> !installed)
      && (Install(o.install) in e.ops <==> !installed && o.paramConfig == EspOk)
      && (forall op :: op in e.ops && op.Install? ==> op == Install(o.install))
  {
    var sensor := if BusReady(installed, o) then SensorOps(o) else [];
    InitSplits(installed, o);
    assert forall op :: op in sensor ==> op.IsRegisterOp();
    assert InitSpec(installed, o).ops == SetupOps(installed, o) + sensor;
  }

  /** init succeeds exactly when the bus is ready and the wake-up write succeeds; the flag is set exactly when the bus is ready. */
  lemma InitResult(installed: bool, o: InitOutcomes)
    ensures var e := InitSpec(installed, o);
      (e.rc == EspOk <==> BusReady(installed, o) && o.wake == EspOk)
      && (e.installed <==> BusReady(installed, o))
      && (installed ==> e.installed)
  {
  }

  /** A failed configuration or install is returned as is, leaves the flag clear and touches no sensor register. */
  lemma InitSetupFailure(o: InitOutcomes)
    requires o.paramConfig != EspOk || o.install != EspOk
    ensures var e := InitSpec(false, o);
      e.rc == (if o.paramConfig != EspOk then o.paramConfig else o.install)
      && !e.installed
      && (forall op :: op in e.ops ==> !op.IsRegisterOp())
  {
  }

  /** The result of the WHO_AM_I read changes nothing about init. */
  lemma InitIgnoresWhoAmI(installed: bool, o: InitOutcomes, r: int)
    ensures InitSpec(installed, o.(whoAmI := r)) == InitSpec(installed, o)
  {
  }

  /**
   * A failed wake-up write is returned as is; no configuration write follows
   * and the bus stays installed, also when this call installed it.
   */
  lemma InitWakeFailure(installed: bool, o: InitOutcomes)
    requires BusReady(installed, o) && o.wake != EspOk
    ensures var e := InitSpec(installed, o);
      e.rc == o.wake && e.installed
      && e.ops[|e.ops| - 1] == WakeWrite()
      && (forall op :: op in e.ops && op.WriteReg? ==> op == WakeWrite())
  {
  }

  /**
   * Once the wake-up write succeeds, init ends with exactly the five
   * register writes in order and returns ESP_OK.
   */
  lemma InitSuccess(installed: bool, o: InitOutcomes)
    requires BusReady(installed, o) && o.wake == EspOk
    ensures var e := InitSpec(installed, o);
      e.rc == EspOk && e.installed
      && |e.ops| >= 6
      && e.ops[|e.ops| - 6..] == [WhoAmIRead(), WakeWrite()] + ConfigWrites()
  {
  }

  /** The four configuration writes are fire-and-forget: their results change nothing. */
  lemma InitIgnoresConfigResults(installed: bool, o: InitOutcomes, a: int, b: int, c: int, d: int)
    ensures InitSpec(installed, o.(sampleRate := a, dlpf := b, gyroRange := c, accelRange := d))
         == InitSpec(installed, o)
  {
  }

  /** The bus-driver part of init: what happens before the first register transaction. */
  function SetupOps(installed: bool, o: InitOutcomes): seq<BusOp> {
    if installed then []
    else if o.paramConfig != EspOk then [BusConfig()]
    else [BusConfig(), Install(o.install)]
  }

  /** The sensor part of init, issued once the bus is ready. */
  function SensorOps(o: InitOutcomes): (ops: seq<BusOp>)
    ensures forall op :: op in ops ==> op.IsRegisterOp()
  {
    [WhoAmIRead(), WakeWrite()] + (if o.wake == EspOk then ConfigWrites() else [])
  }

  /** init is its bus-driver part followed, when the bus is ready, by its sensor part. */
  lemma InitSplits(installed: bool, o: InitOutcomes)
    ensures InitSpec(installed, o).ops
         == SetupOps(installed, o) + (if BusReady(installed, o) then SensorOps(o) else [])
  {
  }

  /** The bus-driver part of init is allowed and leaves the bus installed exactly when it is ready. */
  lemma SetupKeepsDiscipline(installed: bool, o: InitOutcomes)
    ensures Disciplined(installed, SetupOps(installed, o))
    ensures InstalledAfter(installed, SetupOps(installed, o)) == BusReady(installed, o)
  {
    if !installed {
      BusSetupState(o.install);
    }
  }

  /** init keeps the install/delete discipline and leaves the flag matching the bus. */
  lemma InitKeepsDiscipline(installed: bool, o: InitOutcomes)
    ensures var e := InitSpec(installed, o);
      Disciplined(installed, e.ops) && InstalledAfter(installed, e.ops) == e.installed
  {
    var setup := SetupOps(installed, o);
    var sensor := if BusReady(installed, o) then SensorOps(o) else [];
    InitSplits(installed, o);
    SetupKeepsDiscipline(installed, o);
    RegisterOpsKeepState(BusReady(installed, o), sensor);
    AppendTransactions(installed, setup, sensor);
  }

  /** Appending init's transactions to a disciplined history keeps it disciplined and the flag right. */
  lemma InitExtendsHistory(t: seq<BusOp>, o: InitOutcomes)
    requires Disciplined(false, t)
    ensures var e := InitSpec(InstalledAfter(false, t), o);
      Disciplined(false, t + e.ops) && InstalledAfter(false, t + e.ops) == e.installed
  {
    InitKeepsDiscipline(InstalledAfter(false, t), o);
    AppendTransactions(false, t, InitSpec(InstalledAfter(false, t), o).ops);
  }

  /** init only talks to the sensor once the bus driver is installed. */
  lemma InitRegisterOpsNeedBus(installed: bool, o: InitOutcomes, j: nat)
    requires j < |InitSpec(installed, o).ops|
    requires InitSpec(installed, o).ops[j].IsRegisterOp()
    ensures InstalledAfter(installed, InitSpec(installed, o).ops[..j])
  {
    var ops := InitSpec(installed, o).ops;
    var setup := SetupOps(installed, o);
    InitSplits(installed, o);
    SetupKeepsDiscipline(installed, o);
    if j < |setup| {
      assert false;
    }
    var done := ops[|setup|..j];
    assert ops[..j] == setup + done;
    forall op | op in done ensures op.IsRegisterOp() {
      assert op in SensorOps(o);
    }
    AppendTransactions(installed, setup, done);
    RegisterOpsKeepState(InstalledAfter(installed, setup), done);
  }

  /** init never deletes the bus driver. */
  lemma InitHasNoDelete(installed: bool, o: InitOutcomes)
    ensures Delete !in InitSpec(installed, o).ops
  {
  }

  /** A second init after one that left the bus installed never configures or installs the bus again. */
  lemma InitTwiceInstallsOnce(installed: bool, o1: InitOutcomes, o2: InitOutcomes)
    requires InitSpec(installed, o1).installed
    ensures var e2 := InitSpec(InitSpec(installed, o1).installed, o2);
      forall op :: op in e2.ops ==> op.IsRegisterOp()
  {
  }

  /** deinit deletes the bus driver exactly when it is installed, and leaves it absent. */
  lemma DeinitReleasesOnce(installed: bool)
    ensures Delete in DeinitOps(installed) <==> installed
    ensures Disciplined(installed, DeinitOps(installed)) && !InstalledAfter(installed, DeinitOps(installed))
  {
    if installed {
      assert DeinitOps(installed)[1..] == [];
    }
  }

  // ---------------------------------------------------------------------------
  // The driver state
  // ---------------------------------------------------------------------------

  /** `mpu9250_data_t`: the caller's output slot. */
  class Data {
    var ax: real
    var ay: real
    var az: real
    var gx: real
    var gy: real
    var gz: real

    function Value(): Sample
      reads this
    {
      Sample(ax, ay, az, gx, gy, gz)
    }
  }

  /**
   * The driver's state: the flag `i2c_installed` and the transactions issued
   * so far, starting from process start (flag clear, nothing issued).
   */
  class Driver {
    var installed: bool
    ghost var trace: seq<BusOp>

    /**
     * The flag says whether the bus driver is installed, and no install or
     * delete was ever doubled; so the flag counts the one install not yet
     * released.
     */
    ghost predicate Valid()
      reads this
      ensures Valid() ==> Installs(trace) == Deletes(trace) + (if installed then 1 else 0)
    {
      if Disciplined(false, trace) then
        InstallsBalanceDeletes(false, trace);
        installed == InstalledAfter(false, trace)
      else
        false
    }

    constructor ()
      ensures Valid() && !installed && trace == []
    {
      installed := false;
      trace := [];
    }

    /** i2c_param_config with the fixed configuration. */
    method ConfigureBus(outcome: int) returns (rc: int)
      modifies `trace
      ensures rc == outcome && trace == old(trace) + [BusConfig()]
    {
      trace := trace + [BusConfig()];
      rc := outcome;
    }

    /** i2c_driver_install. */
    method InstallBus(outcome: int) returns (rc: int)
      modifies `trace
      ensures rc == outcome && trace == old(trace) + [Install(outcome)]
    {
      trace := trace + [Install(outcome)];
      rc := outcome;
    }

    /** i2c_driver_delete; its result is not looked at. */
    method DeleteBus()
      modifies `trace
      ensures trace == old(trace) + [Delete]
    {
      trace := trace + [Delete];
    }

    /** `i2c_write_reg`: one register write to the sensor at DeviceAddr. */
    method WriteRegister(reg: nat, val: nat, outcome: int) returns (rc: int)
      modifies `trace
      ensures rc == outcome && trace == old(trace) + [WriteReg(DeviceAddr, reg, val)]
    {
      trace := trace + [WriteReg(DeviceAddr, reg, val)];
      rc := outcome;
    }

    /** `i2c_read_regs`: one read of len registers of the sensor at DeviceAddr, starting at reg. */
    method ReadRegisters(reg: nat, len: nat, outcome: int) returns (rc: int)
      modifies `trace
      ensures rc == outcome && trace == old(trace) + [ReadRegs(DeviceAddr, reg, len)]
    {
      trace := trace + [ReadRegs(DeviceAddr, reg, len)];
      rc := outcome;
    }

    /** The first step of `mpu9250_init`: configure and install the bus unless the flag is set. */
    method SetUpBus(o: InitOutcomes) returns (rc: int)
      modifies this
      ensures installed == BusReady(old(installed), o)
      ensures trace == old(trace) + SetupOps(old(installed), o)
      ensures rc == EspOk <==> installed
      ensures !installed ==> rc == InitSpec(old(installed), o).rc
    {
      rc := EspOk;
      if !installed {
        rc := ConfigureBus(o.paramConfig);
        if rc != EspOk {
          return;
        }
        rc := InstallBus(o.install);
        if rc != EspOk {
          return;
        }
        installed := true;
      }
    }

    /** The rest of `mpu9250_init`: WHO_AM_I, wake-up, and the four configuration writes. */
    method SetUpSensor(o: InitOutcomes) returns (rc: int)
      modifies `trace
      ensures trace == old(trace) + SensorOps(o)
      ensures rc == o.wake
    {
      rc := ReadRegisters(RegWhoAmI, 1, o.whoAmI);
      rc := WriteRegister(RegPwrMgmt1, 0x01, o.wake);
      if rc != EspOk {
        return;
      }
      var ignored := WriteRegister(RegSmplrtDiv, 0x00, o.sampleRate);
      ignored := WriteRegister(RegConfig, 0x03, o.dlpf);
      ignored := WriteRegister(RegGyroConfig, 0x00, o.gyroRange);
      ignored := WriteRegister(RegAccelConfig, 0x00, o.accelRange);
      rc := EspOk;
    }

    /** `mpu9250_init`. */
    method Init(o: InitOutcomes) returns (rc: int)
      requires Valid()
      modifies this
      ensures Valid()
      ensures rc == InitSpec(old(installed), o).rc
      ensures installed == InitSpec(old(installed), o).installed
      ensures trace == old(trace) + InitSpec(old(installed), o).ops
    {
      ghost var t0, i0 := trace, installed;
      InitExtendsHistory(t0, o);
      InitSplits(i0, o);
      rc := SetUpBus(o);
      if rc != EspOk {
        return;
      }
      ghost var t1 := trace;
      rc := SetUpSensor(o);
      assert trace == t1 + SensorOps(o) == t0 + InitSpec(i0, o).ops;
    }

    /**
     * `mpu9250_read_accel_gyro`. `out == null` stands for a NULL `out`; `burst`
     * is what the sensor returns when the read succeeds.
     */
    method ReadAccelGyro(out: Data?, readRc: int, burst: seq<Byte>) returns (rc: int)
      requires Valid()
      requires |burst| == BurstLen
      modifies `trace, out
      ensures Valid()
      ensures out == null ==> rc == EspErrInvalidArg && trace == old(trace)
      ensures out != null ==> trace == old(trace) + [BurstRead()]
      ensures out != null && readRc != EspOk ==> rc == readRc && out.Value() == old(out.Value())
      ensures out != null && readRc == EspOk ==> rc == EspOk && out.Value() == Convert(Decode(burst))
    {
      if out == null {
        return EspErrInvalidArg;
      }
      RegisterOpsKeepState(installed, [BurstRead()]);
      AppendTransactions(false, trace, [BurstRead()]);
      rc := ReadRegisters(RegAccelXoutH, BurstLen, readRc);
      if rc != EspOk {
        return;
      }
      var raw := Decode(burst);
      out.ax := AccelG(raw.ax);
      out.ay := AccelG(raw.ay);
      out.az := AccelG(raw.az);
      out.gx := GyroDps(raw.gx);
      out.gy := GyroDps(raw.gy);
      out.gz := GyroDps(raw.gz);
      rc := EspOk;
    }

    /** `mpu9250_deinit`. */
    method Deinit()
      requires Valid()
      modifies this
      ensures Valid() && !installed
      ensures trace == old(trace) + DeinitOps(old(installed))
      ensures !old(installed) ==> trace == old(trace)
    {
      DeinitReleasesOnce(installed);
      AppendTransactions(false, trace, DeinitOps(installed));
      if installed {
        DeleteBus();
        installed := false;
      }
    }
  }

  /**
   * Two inits in a row on a fresh driver install the bus at most once, and
   * a deinit after them releases it; a second deinit does nothing.
   */
  method LifecycleScenario(o1: InitOutcomes, o2: InitOutcomes) returns (d: Driver)
    ensures fresh(d) && d.Valid() && !d.installed
    ensures Installs(d.trace) <= 1 && Installs(d.trace) == Deletes(d.trace)
  {
    d := new Driver();
    var rc1 := d.Init(o1);
    ghost var t1 := d.trace;
    var rc2 := d.Init(o2);
    ghost var t2 := d.trace[|t1|..];
    assert d.trace == t1 + t2;
    ghost var i2 := d.installed;
    d.Deinit();
    ghost var t3 := DeinitOps(i2);
    assert d.trace == t1 + t2 + t3;
    ghost var before := d.trace;
    d.Deinit();
    assert d.trace == before;
    InitHasNoDelete(false, o1);
    InitHasNoDelete(InitSpec(false, o1).installed, o2);
    NoDeletes(t1);
    NoDeletes(t2);
    CountsAppend(t1, t2);
    CountsAppend(t1 + t2, t3);
    InstallsBalanceDeletes(false, d.trace);
  }
}
