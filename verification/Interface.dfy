/** What the machine and a host callback may ask of each other, and how a step may fail. */
module Interface {
  import opened Words

  /** One call that a system-call callback makes on `MachineInterface`. A callback is code outside
      the model, so each run supplies the calls it makes, in order. */
  datatype SysAction =
    | CallSetRegister(r: Byte, value: Word)
    | CallReadMemory(address: Word, size: Byte)
    | CallWriteMemory(address: Word, size: Byte, value: Word)
    | CallJumpAbs(dest: Word)
    | CallHalt
    | CallRaise(error: Error)

  /** The exception classes of the machine, and whatever a callback raises itself. */
  datatype Error =
    | UnknownInstruction | UnknownSyscall | CodeAccessError | DataAccessError | ControlAccessError
    | CallbackError

  /** The machine computes the remainder by the access size, so callbacks read at least one byte. */
  predicate ValidScript(script: seq<SysAction>) {
    forall a | a in script :: a.CallReadMemory? ==> a.size >= 1
  }

  /** The registered system calls, and whether an unknown one raises. */
  datatype Environment = Environment(syscalls: set<Word>, throwOnUnknown: bool)
}
