/**
 * The I2C side of the MPU9250 driver: fixed configuration, the register map,
 * the bus transactions the driver issues, and the install/delete discipline
 * a sequence of those transactions must keep.
 */
module Mpu9250Bus {

  /** `esp_err_t` success value. */
  const EspOk: int := 0
  /** `ESP_ERR_INVALID_ARG`. */
  const EspErrInvalidArg: int := 0x102

  // Fixed bus configuration (firmware/mpu9250.h).
  const SdaGpio: nat := 21
  const SclGpio: nat := 22
  const I2cFreqHz: nat := 400000
  const DeviceAddr: nat := 0x68

  // Register map.
  const RegPwrMgmt1: nat := 0x6B
  const RegSmplrtDiv: nat := 0x19
  const RegConfig: nat := 0x1A
  const RegGyroConfig: nat := 0x1B
  const RegAccelConfig: nat := 0x1C
  const RegAccelXoutH: nat := 0x3B
  const RegWhoAmI: nat := 0x75

  /**
   * One bus-level action of the driver. `Install` records the result the
   * bus driver reported, because only a successful install takes the bus.
   * Register transactions carry the 7-bit device address they are sent to.
   */
  datatype BusOp =
    | ParamConfig(master: bool, sda: nat, scl: nat, pullups: bool, clkHz: nat)
    | Install(rc: int)
    | Delete
    | ReadRegs(addr: nat, reg: nat, len: nat)
    | WriteReg(addr: nat, reg: nat, val: nat)
  {
    /** A transaction with the sensor itself rather than with the bus driver. */
    predicate IsRegisterOp() {
      ReadRegs? || WriteReg?
    }
  }

  /** The configuration the driver passes to i2c_param_config: master mode, pins, pull-ups enabled, clock. */
  function BusConfig(): BusOp {
    ParamConfig(true, SdaGpio, SclGpio, true, I2cFreqHz)
  }

  /**
   * Whether the bus driver is installed after op, given whether it was
   * before: only a successful install takes the bus, only a delete releases
   * it, and register transactions leave it as it was.
   */
  function Step(installed: bool, op: BusOp): (now: bool)
    ensures now && !installed ==> op == Install(EspOk)
    ensures !now && installed ==> op == Delete
    ensures op.IsRegisterOp() ==> now == installed
  {
    match op
    case Install(rc) => installed || rc == EspOk
    case Delete => false
    case _ => installed
  }

  /**
   * The bus driver is installed only when absent and deleted only when
   * present: an allowed install takes the bus exactly when it succeeds, and
   * an allowed delete always releases it.
   */
  predicate Allowed(installed: bool, op: BusOp): (ok: bool)
    ensures ok && op.Install? ==> Step(installed, op) == (op.rc == EspOk)
    ensures ok && op.Delete? ==> installed && !Step(installed, op)
    ensures !op.Install? && !op.Delete? ==> ok
  {
    match op
    case Install(_) => !installed
    case Delete => installed
    case _ => true
  }

  /**
   * Whether the bus driver is installed after the transactions t, starting
   * from `installed`: an absent bus ends up installed only if some install
   * in t succeeded, and a present one ends up absent only if t deletes it.
   */
  function InstalledAfter(installed: bool, t: seq<BusOp>): (now: bool)
    ensures now && !installed ==> Install(EspOk) in t
    ensures !now && installed ==> Delete in t
    decreases |t|
  {
    if t == [] then installed
    else
      assert forall op :: op in t[1..] ==> op in t;
      InstalledAfter(Step(installed, t[0]), t[1..])
  }

  /**
   * Every transaction of t is allowed in the state the earlier ones left.
   * So from an absent bus nothing is deleted before an install succeeds, and
   * over a present bus nothing is installed before it is deleted.
   */
  predicate Disciplined(installed: bool, t: seq<BusOp>): (ok: bool)
    ensures ok && !installed && Install(EspOk) !in t ==> Delete !in t
    ensures ok && installed && Delete !in t ==> forall op :: op in t ==> !op.Install?
    decreases |t|
  {
    if t == [] then true
    else
      assert forall op :: op in t[1..] ==> op in t;
      assert t == [t[0]] + t[1..];
      Allowed(installed, t[0]) && Disciplined(Step(installed, t[0]), t[1..])
  }

  /** The number of successful installs in t. */
  function Installs(t: seq<BusOp>): nat
    decreases |t|
  {
    if t == [] then 0
    else (if t[0].Install? && t[0].rc == EspOk then 1 else 0) + Installs(t[1..])
  }

  /** Running t1 and then t2 is running t2 from the state t1 left. */
  lemma {:induction false} AppendTransactions(installed: bool, t1: seq<BusOp>, t2: seq<BusOp>)
    ensures InstalledAfter(installed, t1 + t2) == InstalledAfter(InstalledAfter(installed, t1), t2)
    ensures Disciplined(installed, t1 + t2)
        <==> Disciplined(installed, t1) && Disciplined(InstalledAfter(installed, t1), t2)
    decreases |t1|
  {
    if t1 != [] {
      assert (t1 + t2)[0] == t1[0];
      assert (t1 + t2)[1..] == t1[1..] + t2;
      AppendTransactions(Step(installed, t1[0]), t1[1..], t2);
    } else {
      assert t1 + t2 == t2;
    }
  }

  /** Register transactions neither need nor change the install state. */
  lemma {:induction false} RegisterOpsKeepState(installed: bool, t: seq<BusOp>)
    requires forall op :: op in t ==> op.IsRegisterOp()
    ensures Disciplined(installed, t)
    ensures InstalledAfter(installed, t) == installed
    decreases |t|
  {
    if t != [] {
      assert t[0] in t;
      forall op | op in t[1..] ensures op.IsRegisterOp() {
        assert op in t;
      }
      RegisterOpsKeepState(installed, t[1..]);
    }
  }

  /**
   * A disciplined history starting with the bus absent has at most one more
   * successful install than it has deletes, and the bus is installed after
   * it exactly when installs outnumber deletes.
   */
  lemma {:induction false} InstallsBalanceDeletes(installed: bool, t: seq<BusOp>)
    requires Disciplined(installed, t)
    ensures Installs(t) + (if installed then 1 else 0)
        == Deletes(t) + (if InstalledAfter(installed, t) then 1 else 0)
    decreases |t|
  {
    if t != [] {
      InstallsBalanceDeletes(Step(installed, t[0]), t[1..]);
    }
  }

  /** The number of deletes in t. */
  function Deletes(t: seq<BusOp>): nat
    decreases |t|
  {
    if t == [] then 0 else (if t[0].Delete? then 1 else 0) + Deletes(t[1..])
  }

  /** Installs and deletes of a concatenation add up. */
  lemma {:induction false} CountsAppend(t1: seq<BusOp>, t2: seq<BusOp>)
    ensures Installs(t1 + t2) == Installs(t1) + Installs(t2)
    ensures Deletes(t1 + t2) == Deletes(t1) + Deletes(t2)
    decreases |t1|
  {
    if t1 == [] {
      assert t1 + t2 == t2;
    } else {
      assert (t1 + t2)[0] == t1[0];
      assert (t1 + t2)[1..] == t1[1..] + t2;
      CountsAppend(t1[1..], t2);
    }
  }

  /** A history without a delete has no deletes to count. */
  lemma {:induction false} NoDeletes(t: seq<BusOp>)
    requires Delete !in t
    ensures Deletes(t) == 0
    decreases |t|
  {
    if t != [] {
      assert t == [t[0]] + t[1..];
      NoDeletes(t[1..]);
    }
  }

  /** Configuring the bus and installing it: allowed when absent, and the bus is then installed exactly when the install succeeded. */
  lemma BusSetupState(rc: int)
    ensures Disciplined(false, [BusConfig()]) && !InstalledAfter(false, [BusConfig()])
    ensures Disciplined(false, [BusConfig(), Install(rc)])
    ensures InstalledAfter(false, [BusConfig(), Install(rc)]) == (rc == EspOk)
  {
    var c := BusConfig();
    assert [c][1..] == [];
    assert [c, Install(rc)][1..] == [Install(rc)];
    assert [Install(rc)][1..] == [];
    assert InstalledAfter(false, [c, Install(rc)]) == InstalledAfter(false, [Install(rc)]);
    assert InstalledAfter(false, [Install(rc)]) == InstalledAfter(rc == EspOk, []);
  }
}
