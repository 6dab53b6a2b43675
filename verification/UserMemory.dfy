/** Where processes live in memory (kernel/virtual_memory.h, kernel/process.c). */
module UserMemory {
  const PROC_START_ADDR: nat := 0x10_0000
  const PROC_SIZE: nat := 0x4_0000

  function UserBase(id: nat): nat { PROC_START_ADDR + id * PROC_SIZE }

  /** The stack pointer of a process that has just been loaded. */
  function StackTop(id: nat): nat { UserBase(id) + PROC_SIZE - 8 }
}
