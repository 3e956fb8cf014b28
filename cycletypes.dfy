/**
 * Identifiers and function shapes of the per-period player-data store
 * (cycledata/cycledata.go, cycledata/cycledata_expire_time.go).
 */
module CycleTypes {
  import opened GoInt
  import opened Wrappers
  import opened Values

  type UserID = Int64
  type TypeKey = Int32
  type CycleType = string

  const DailyCycle: CycleType := "daily"
  const WeeklyCycle: CycleType := "weekly"
  const MonthlyCycle: CycleType := "monthly"
  const LiftTime: CycleType := "lifetime"
  const Newbie: CycleType := "newbie"
  const LimitTime: CycleType := "limitTime"
  const LoopTime: CycleType := "loopTime"

  /**
   * The fields of a `PlayerData` as a loader or creator builds them.
   * `updateTime` is in Unix nanoseconds (a `time.Time` at full precision).
   */
  const NANOS_PER_SECOND: int := 1_000_000_000

  datatype Seed = Seed(userId: UserID, updateTime: int, expireTime: Int32, misc: Misc)

  /** A registered loader: `func(cycle, typeKey, userID) *PlayerData`; None stands for nil. */
  type Loader = (CycleType, TypeKey, UserID) -> Option<Seed>

  /** A registered creator: `func(userID) *PlayerData`. */
  type Creator = UserID -> Option<Seed>

  /**
   * A registered store or clean-expired function. What it does is outside the
   * model; the operations that call it report each call they make.
   */
  datatype Callback = Callback(id: nat)

  /** A registered default-expiry function: `func() int32`. */
  type ExpireFunc = () -> Int32
}
