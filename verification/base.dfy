/** Fixed-width integers and the history record of the lightning monitor. */
module Base {

  /** C `uint8_t`. */
  newtype uint8 = x: int | 0 <= x < 0x100

  /** C `uint32_t` (also `millis()` and `unsigned long` on the ESP32). */
  newtype uint32 = x: int | 0 <= x < 0x1_0000_0000

  datatype Option<+T> = None | Some(value: T)

  /** One history entry (`struct LightningEvent`): when it was stored, the sensor's
      distance estimate in km (63 = out of range, 0 = overhead), its raw energy value,
      the interrupt-source code and whether the cycle that stored it saw an interrupt. */
  datatype LightningEvent = LightningEvent(
    ts: int,
    distance: uint8,
    energy: uint32,
    event: uint32,
    irq: bool)

  /** Hard cap on the number of stored events. */
  const HISTORY_MAX: nat := 2000

  /** Entries older than this many seconds are dropped on every main-loop cycle. */
  const RETENTION_SECONDS: int := 24 * 3600

  /** Distance code the sensor reports when the storm is out of range. */
  const OUT_OF_RANGE_KM: uint8 := 63
}
