# MPU9250 driver model

A Dafny model of the ESP32 driver for the MPU9250 accelerometer/gyroscope
(`firmware/mpu9250.c`). The driver owns one I2C port, brings the sensor out
of sleep and configures it, and converts a 14-byte register burst into
acceleration (g) and angular rate (deg/s).

- `sample.dfy`, module `Mpu9250Sample`: the burst decoder. Bytes are the
  integers 0..255 (`uint8_t`); each axis is the 16-bit word `(hi << 8) | lo`
  cast to `int16_t`, in the order ax, ay, az, (temperature, dropped), gx,
  gy, gz. The word is computed as hi * 256 + lo; `ShiftOrIsSum` proves on
  16-bit vectors that the shift-or gives exactly that. The encoder the
  sensor effectively applies is modelled too, so that both round trips can
  be proved. Scaling to physical units is stated on reals.
- `bus.dfy`, module `Mpu9250Bus`: the fixed bus configuration and register
  map, the transactions the driver issues (`BusOp`), and the discipline a
  history of transactions must keep: the bus driver is installed only while
  absent and deleted only while present.
- `driver.dfy`, module `Mpu9250Driver`: `InitSpec` and `DeinitOps` state
  what one call of `mpu9250_init` / `mpu9250_deinit` does (return code, the
  `i2c_installed` flag afterwards, the transactions issued) given what the
  bus reports for each I2C call. Class `Driver` holds the flag as
  `installed` and a ghost `trace` of every transaction since process start;
  its methods follow the C code step by step, early returns included, and
  are proved against those functions and against the discipline.

Every ESP-IDF I2C call whose result the driver looks at is an oracle: its
`esp_err_t` result is a parameter (`InitOutcomes` for init, `readRc` and the
burst bytes for the sample read), with `ESP_OK` = 0 and `ESP_ERR_INVALID_ARG`
= 0x102. The result of `i2c_driver_delete`, which the driver ignores, is not
an input.

Three points where the code's behaviour is easy to misread; the model keeps the code's behaviour:

- A failed wake-up write after this call installed the bus leaves
  `i2c_installed` set (the code does not roll back); `InitWakeFailure`
  states this.
- Four configuration writes follow the wake-up write (SMPLRT_DIV, CONFIG,
  GYRO_CONFIG, ACCEL_CONFIG), and none of their results is checked.
- `mpu9250_read_accel_gyro` does not check the flag; the model issues the
  burst read whatever `installed` is.

## Model

| member | source | states |
|---|---|---|
| Mpu9250Sample.BigEndianWord | firmware/mpu9250.c:107-113 | the word of a byte pair is a 16-bit value whose high byte is hi and low byte is lo |
| Mpu9250Sample.ShiftOrIsSum | firmware/mpu9250.c:107-113 | for byte-sized halves, shifting h left by 8 and or-ing in l on 16 bits gives h * 256 + l |
| Mpu9250Sample.ToInt16 | firmware/mpu9250.c:107-113 | the `(int16_t)` cast yields the one value in [-32768, 32767] congruent to the word modulo 65536 |
| Mpu9250Sample.DecodePair | firmware/mpu9250.c:106-113 | a decoded pair lies in [-32768, 32767], is congruent to hi * 256 + lo modulo 65536, and is negative iff the top bit of hi is set |
| Mpu9250Sample.Decode | firmware/mpu9250.c:102-113 | every axis of a decoded 14-byte burst is a 16-bit signed value |
| Mpu9250Sample.HighOffset | firmware/mpu9250.c:107-113 | each axis's pair is an even offset inside the burst, clear of the temperature bytes 6 and 7 |
| Mpu9250Sample.FieldPlacement | firmware/mpu9250.c:107-113 | ax comes from bytes 0-1, ay 2-3, az 4-5, gx 8-9, gy 10-11, gz 12-13 |
| Mpu9250Sample.EncodePair | firmware/mpu9250.c:106-113 | the big-endian bytes of an int16, read as hi * 256 + lo, are its value modulo 65536 |
| Mpu9250Sample.Encode | firmware/mpu9250.c:102-113 | the burst the sensor sends for a sample has 14 bytes |
| Mpu9250Sample.PairBytesRoundTrip | firmware/mpu9250.c:106-113 | decoding a pair and re-encoding the value gives back the two bytes |
| Mpu9250Sample.PairValueRoundTrip | firmware/mpu9250.c:106-113 | encoding any int16 as a big-endian pair and decoding it gives back the value |
| Mpu9250Sample.DecodePairInjective | firmware/mpu9250.c:106-113 | two pairs decode to the same value if and only if they are the same bytes |
| Mpu9250Sample.AxisDeterminedByItsPair | firmware/mpu9250.c:107-113 | an axis of two bursts agrees if and only if that axis's two bytes agree |
| Mpu9250Sample.DecodeIgnoresOnlyTemperature | firmware/mpu9250.c:106-113 | two bursts decode alike if and only if they agree on every byte other than 6 and 7 |
| Mpu9250Sample.TemperatureIgnored | firmware/mpu9250.c:110 | overwriting the temperature bytes 6 and 7 never changes the decoded sample |
| Mpu9250Sample.DecodeEncode | firmware/mpu9250.c:106-113 | decoding the burst for any valid sample, whatever its temperature bytes, gives that sample back |
| Mpu9250Sample.EncodeDecode | firmware/mpu9250.c:106-113 | re-encoding a decoded burst with its own temperature bytes gives back the burst |
| Mpu9250Sample.AccelG | firmware/mpu9250.c:115-117 | the acceleration in g times 16384 is the raw value |
| Mpu9250Sample.GyroDps | firmware/mpu9250.c:119-121 | the angular rate in deg/s times 131 is the raw value |
| Mpu9250Sample.AccelFullScale | firmware/mpu9250.c:24-25 | at the +-2 g setting every raw value maps into [-2 g, 2 g) |
| Mpu9250Sample.GyroFullScale | firmware/mpu9250.c:24-26 | at the +-250 deg/s setting every raw value maps inside +-250.14 deg/s |
| Mpu9250Sample.ExampleBurst | firmware/mpu9250.c:106-121 | the burst 10 00 00 00 C0 00 00... decodes to ax = 4096 (0.25 g), az = -16384 (-1 g), all else 0 |
| Mpu9250Bus.Step | firmware/mpu9250.c:60-131 | the bus becomes installed only through a successful `i2c_driver_install`, stops being installed only through `i2c_driver_delete`, and register transactions leave it as it was |
| Mpu9250Bus.Allowed | firmware/mpu9250.c:46-131 | the driver installs only over an absent bus and deletes only a present one; an allowed install takes the bus exactly when it succeeds, an allowed delete releases it |
| Mpu9250Bus.InstalledAfter | firmware/mpu9250.c:42-132 | after a history an absent bus is installed only if some install in it succeeded, and a present bus is absent only if the history deletes it |
| Mpu9250Bus.Disciplined | firmware/mpu9250.c:42-132 | in a history that is allowed step by step, an absent bus is never deleted before an install succeeds, and a present bus is never installed again before a delete |
| Mpu9250Driver.InitSpec | firmware/mpu9250.c:42-97 | return code, flag afterwards and transactions of one init call for given bus results; it returns ESP_OK or the failure of `i2c_param_config`, `i2c_driver_install` or the wake-up write, and starts with the bus configuration when the flag is clear, with the WHO_AM_I read when it is set |
| Mpu9250Driver.DeinitOps | firmware/mpu9250.c:126-132 | deinit issues at most one transaction, a delete, and issues it exactly when the flag is set |
| Mpu9250Driver.Driver.Valid | firmware/mpu9250.c:28 | the flag `i2c_installed` says whether the bus driver is installed in a history without doubled installs or deletes, so it counts the one successful install not yet deleted |
| Mpu9250Bus.InstallsBalanceDeletes | firmware/mpu9250.c:46-66 | in a disciplined history successful installs and deletes balance, up to the one install still in place |
| Mpu9250Bus.BusSetupState | firmware/mpu9250.c:55-65 | configuring and installing the bus from the absent state is allowed, and the bus is then installed iff the install succeeded |
| Mpu9250Driver.Convert | firmware/mpu9250.c:115-121 | the three accel outputs are raw / 16384 and the three gyro outputs raw / 131 |
| Mpu9250Driver.SensorOps | firmware/mpu9250.c:68-92 | everything init issues after the bus is ready is a sensor register transaction |
| Mpu9250Driver.InitSplits | firmware/mpu9250.c:42-97 | init's transactions are the bus set-up followed, only when the bus is ready, by the sensor transactions |
| Mpu9250Driver.SetupKeepsDiscipline | firmware/mpu9250.c:46-66 | the bus set-up step is allowed from either flag value and leaves the bus installed iff it is ready |
| Mpu9250Driver.InitExtendsHistory | firmware/mpu9250.c:42-97 | appending init's transactions to a disciplined history keeps it disciplined, and the flag after init matches the bus |
| Mpu9250Driver.InitInstallsOnlyWhenAbsent | firmware/mpu9250.c:46-66 | init configures the bus iff the flag is clear, installs it iff the flag is clear and the configuration succeeded, and makes no other install |
| Mpu9250Driver.InitResult | firmware/mpu9250.c:42-97 | init returns ESP_OK iff the bus is ready and the wake-up write succeeds; the flag is set afterwards iff the bus is ready, and a set flag stays set |
| Mpu9250Driver.InitSetupFailure | firmware/mpu9250.c:55-64 | a failed configuration or install is returned as is, leaves the flag clear and issues no sensor register transaction |
| Mpu9250Driver.InitIgnoresWhoAmI | firmware/mpu9250.c:68-75 | the result of the WHO_AM_I read changes neither the return code, nor the flag, nor the transactions |
| Mpu9250Driver.InitWakeFailure | firmware/mpu9250.c:77-79 | a failed wake-up write is returned as is, it is the last transaction, no configuration write is issued, and the flag stays set |
| Mpu9250Driver.InitSuccess | firmware/mpu9250.c:77-96 | after a successful wake-up write init ends with WHO_AM_I read, PWR_MGMT_1<-0x01, SMPLRT_DIV<-0x00, CONFIG<-0x03, GYRO_CONFIG<-0x00, ACCEL_CONFIG<-0x00 and returns ESP_OK with the flag set |
| Mpu9250Driver.InitIgnoresConfigResults | firmware/mpu9250.c:82-92 | the results of the four configuration writes change nothing about init |
| Mpu9250Driver.InitKeepsDiscipline | firmware/mpu9250.c:46-79 | init never installs a present bus and leaves the flag equal to whether the bus is installed |
| Mpu9250Driver.InitRegisterOpsNeedBus | firmware/mpu9250.c:46-92 | every sensor register transaction of init happens while the bus driver is installed |
| Mpu9250Driver.InitHasNoDelete | firmware/mpu9250.c:42-97 | init never deletes the bus driver |
| Mpu9250Driver.InitTwiceInstallsOnce | firmware/mpu9250.c:46-66 | after an init that left the bus installed, a second init issues only register transactions |
| Mpu9250Driver.DeinitReleasesOnce | firmware/mpu9250.c:126-132 | deinit deletes the bus driver iff it is installed, is allowed, and leaves it absent |
| Mpu9250Driver.Driver.constructor | firmware/mpu9250.c:28 | at process start the flag is clear and nothing has been issued |
| Mpu9250Driver.Driver.ConfigureBus | firmware/mpu9250.c:47-55 | records i2c_param_config with master mode, SDA 21, SCL 22, pull-ups, 400 kHz and returns the bus's result |
| Mpu9250Driver.Driver.InstallBus | firmware/mpu9250.c:60 | records i2c_driver_install with its result and returns that result |
| Mpu9250Driver.Driver.DeleteBus | firmware/mpu9250.c:129 | records i2c_driver_delete |
| Mpu9250Driver.Driver.WriteRegister | firmware/mpu9250.c:31-34 | records one register write to the device at 0x68 and returns the bus's result |
| Mpu9250Driver.Driver.ReadRegisters | firmware/mpu9250.c:36-39 | records one register read from the device at 0x68 and returns the bus's result |
| Mpu9250Driver.Driver.SetUpBus | firmware/mpu9250.c:46-66 | configures and installs the bus only when the flag is clear; the flag is set afterwards iff the bus is ready; a configuration or install failure is returned |
| Mpu9250Driver.Driver.SetUpSensor | firmware/mpu9250.c:68-96 | issues WHO_AM_I, the wake-up write and, only if that succeeded, the four configuration writes; returns the wake-up write's result, whatever the other results |
| Mpu9250Driver.Driver.Init | firmware/mpu9250.c:42-97 | returns InitSpec's code, sets the flag as InitSpec says, appends exactly InitSpec's transactions, and keeps the flag/bus invariant |
| Mpu9250Driver.Driver.ReadAccelGyro | firmware/mpu9250.c:99-124 | null output: ESP_ERR_INVALID_ARG and no transaction; otherwise one 14-byte read at 0x3B; a failed read returns its error and leaves the output as it was; else ESP_OK and the output is the scaled decode of the burst |
| Mpu9250Driver.Driver.Deinit | firmware/mpu9250.c:126-132 | deletes the bus driver only when installed, always clears the flag, and issues nothing when the flag was already clear |
| Mpu9250Driver.LifecycleScenario | firmware/mpu9250.c:42-132 | init, init, deinit, deinit on a fresh driver installs the bus at most once, releases every install, and ends with the flag clear |

## Left out

- Float arithmetic: the outputs are the ideal reals raw / 16384 and raw / 131; the rounding of `(float)` division is not modelled.
- The ESP-IDF I2C calls (`i2c_param_config`, `i2c_driver_install`, `i2c_driver_delete`, `i2c_master_write_to_device`, `i2c_master_write_read_device`) are foreign code; each is an oracle whose result is an input, and the burst contents are an input too.
- The value read from WHO_AM_I is only logged by the driver; the model records the read and not the value.
- The return code of `i2c_driver_delete` is ignored by the driver and is not an input of the model.
- The 1000 ms transaction timeouts, the `vTaskDelay` settle delays and the `ESP_LOG*` diagnostics have no functional content and are left out.
- The I2C port (`I2C_NUM_0`) is not recorded in the transactions: every call uses that one port. The arguments 0, 0, 0 that `i2c_driver_install` receives after the master mode are not recorded either. The transactions do record the master mode, pins, pull-ups and clock of the bus configuration, and the device address 0x68 of each register transaction.
- Mpu9250Sample.ToInt16: converting a word of 0x8000 or more to `int16_t` is implementation-defined in C (C11 6.3.1.3); the model takes the modular reduction that GCC, the ESP32 toolchain's compiler, documents.
- Concurrency: the driver has no locking and is modelled as single-threaded.
- Process-wide state: the C flag is one file-static variable; the model holds it in a `Driver` object, and nothing in the model stops a client from creating a second one.
