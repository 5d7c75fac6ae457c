/** The process table entry (include/process_model.h, include/runtime.h). */
module ProcessModel {
  datatype State = Unused | Ready | Running | Blocked | Zombie

  datatype WaitReason = WaitNone | WaitSleepTicks | WaitManual | WaitChild | WaitEventChannel

  datatype Process = Process(
    pid: nat,
    parentPid: nat,
    role: nat,
    state: State,
    exitCode: int,
    switchCount: nat,
    yieldCount: nat,
    wakeTick: nat,
    waitTarget: nat,
    waitReason: WaitReason,
    waitChannel: nat)

  /** The value of a slot after process_core_reset_slot. */
  const EMPTY_SLOT := Process(0, 0, 0, Unused, 0, 0, 0, 0, 0, WaitNone, 0)

  const UINT32: nat := 0x1_0000_0000
}
