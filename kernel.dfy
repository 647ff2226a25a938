/**
 * The machine-mode kernel of the RISC-V sandbox: one hart with two privilege levels,
 * the `mstatus` and `mepc` control and status registers, a fail-stop security state and
 * the lines sent over UART1 to the dashboard. Register and cause encodings follow the
 * RISC-V Privileged Architecture specification (section 3.1.6 for `mstatus`, section
 * 3.1.15 for `mcause`, section 3.3.2 for `mret`).
 */
module Kernel {
  import opened Bytes
  import opened Crypto

  /** The privilege levels of the hart; Machine is the kernel, User the sandbox. */
  datatype Privilege = Machine | User

  /** Normal until a fault is taken; Locked is the handler's terminal `while(1)` loop. */
  datatype SecurityState = Normal | Locked

  /** Exception codes of `mcause` (interrupt bit clear) that the handler tells apart. */
  const LOAD_ACCESS_FAULT: bv32 := 5
  const STORE_ACCESS_FAULT: bv32 := 7
  const ECALL_FROM_U: bv32 := 8

  /** The one system call number the kernel implements, passed in register a0. */
  const SYSCALL_ENCRYPT: int := 1

  /** Width of the `ecall` instruction: the saved pc advances by this much on return. */
  const ECALL_WIDTH: bv32 := 4

  /** The line the kernel sends over UART1 when the sandbox touches kernel memory. */
  const ALERT: string := "SECURITY ALERT: SANDBOX COMPROMISED\n"

  /** The MPP field of `mstatus`, bits 12:11, written `3 << 11` in the C source. */
  const MPP_MASK: bv32 := 3 << 11

  /** How the trap handler classifies a trap. */
  datatype TrapCause =
    | UserRequest          // environment call from U-mode
    | IllegalLoad          // load access fault (a PMP-blocked read)
    | IllegalStore         // store access fault (a PMP-blocked write)
    | Unclassified(code: bv32)

  /** The `mcause` code a classified trap came from. */
  function CauseCode(c: TrapCause): bv32
  {
    match c
    case UserRequest => ECALL_FROM_U
    case IllegalLoad => LOAD_ACCESS_FAULT
    case IllegalStore => STORE_ACCESS_FAULT
    case Unclassified(code) => code
  }

  /**
   * The dispatcher's decision on `mcause`. Every code is classified, no code is lost
   * (the classification can be mapped back to the code) and Unclassified only ever
   * holds a code the handler has no case for.
   */
  function Classify(mcause: bv32): (c: TrapCause)
    ensures CauseCode(c) == mcause
    ensures c.Unclassified? <==> mcause !in {ECALL_FROM_U, LOAD_ACCESS_FAULT, STORE_ACCESS_FAULT}
  {
    if mcause == ECALL_FROM_U then UserRequest
    else if mcause == LOAD_ACCESS_FAULT then IllegalLoad
    else if mcause == STORE_ACCESS_FAULT then IllegalStore
    else Unclassified(mcause)
  }

  /**
   * `mstatus &= ~(3 << 11)`: make the previous privilege User (MPP = 00). Bits 11 and
   * 12 read zero afterwards, and every bit outside them keeps its old value.
   */
  function ClearMpp(mstatus: bv32): (r: bv32)
    ensures r & MPP_MASK == 0
    ensures r & !MPP_MASK == mstatus & !MPP_MASK
  {
    mstatus & !MPP_MASK
  }

  /**
   * The two facts in the contract of `ClearMpp` pin its result down: any value with a
   * clear MPP field that agrees with `mstatus` on the other 30 bits is `ClearMpp(mstatus)`.
   */
  lemma ClearMppUnique(mstatus: bv32, r: bv32)
    requires r & MPP_MASK == 0
    requires r & !MPP_MASK == mstatus & !MPP_MASK
    ensures r == ClearMpp(mstatus)
  {
  }

  /** Clearing MPP twice is clearing it once. */
  lemma ClearMppIdempotent(mstatus: bv32)
    ensures ClearMpp(ClearMpp(mstatus)) == ClearMpp(mstatus)
  {
  }

  /**
   * The level `mret` returns to: User when MPP is 00, Machine otherwise (this hart has
   * no S-mode). It is User exactly when clearing MPP would leave `mstatus` unchanged.
   */
  function MppPrivilege(mstatus: bv32): (p: Privilege)
    ensures p == User <==> ClearMpp(mstatus) == mstatus
  {
    if mstatus & MPP_MASK == 0 then User else Machine
  }

  /** Once MPP is cleared, `mret` returns to User. */
  lemma MppOfClearMpp(mstatus: bv32)
    ensures MppPrivilege(ClearMpp(mstatus)) == User
  {
  }

  /** The hart as the kernel sees it. */
  class Hart {
    /** The AES-128 block cipher the kernel links against (`aes.h`), left uninterpreted. */
    const aes: Cipher
    var privilege: Privilege
    var mstatus: bv32
    var mepc: bv32
    var security: SecurityState
    /** Every line written to UART1, oldest first. */
    var uart: seq<string>

    /** Reset: running the kernel in Machine mode, nothing sent yet. */
    constructor(aes: Cipher, resetMstatus: bv32, resetMepc: bv32)
      ensures this.aes == aes
      ensures privilege == Machine && mstatus == resetMstatus && mepc == resetMepc
      ensures security == Normal && uart == []
    {
      this.aes := aes;
      privilege := Machine;
      mstatus := resetMstatus;
      mepc := resetMepc;
      security := Normal;
      uart := [];
    }

    /** `uart_puts(UART_ID, line)`: append one line to what UART1 has sent. */
    method UartPuts(line: string)
      requires security == Normal
      modifies this
      ensures uart == old(uart) + [line]
      ensures privilege == old(privilege) && mstatus == old(mstatus) && mepc == old(mepc)
      ensures security == old(security)
    {
      uart := uart + [line];
    }

    /**
     * `mret`: return to the level MPP names and make MPP the least privileged level,
     * User. The pc it jumps to, `mepc`, is not modelled.
     */
    method Mret()
      requires security == Normal
      modifies this
      ensures privilege == MppPrivilege(old(mstatus)) && mstatus == ClearMpp(old(mstatus))
      ensures mepc == old(mepc) && security == old(security) && uart == old(uart)
    {
      privilege := MppPrivilege(mstatus);
      mstatus := ClearMpp(mstatus);
    }

    /**
     * `switch_to_user_mode(entry)`: clear MPP, point `mepc` at the sandbox and execute
     * `mret`, which lands in User mode because MPP now says User.
     */
    method SwitchToUserMode(entry: bv32)
      requires privilege == Machine && security == Normal
      modifies this
      ensures mstatus == ClearMpp(old(mstatus)) && mepc == entry
      ensures privilege == User
      ensures security == Normal && uart == old(uart)
    {
      mstatus := ClearMpp(mstatus);
      mepc := entry;
      Mret();
      MppOfClearMpp(old(mstatus));
      ClearMppIdempotent(old(mstatus));
    }

    /**
     * Trap entry from User mode: the hart raises its level to Machine, saves the pc of
     * the trapping instruction in `mepc` and records the previous level, User, in MPP.
     */
    method EnterTrap(pc: bv32)
      requires security == Normal
      modifies this
      ensures privilege == Machine && mepc == pc && mstatus == ClearMpp(old(mstatus))
      ensures security == old(security) && uart == old(uart)
    {
      privilege := Machine;
      mepc := pc;
      mstatus := ClearMpp(mstatus);
    }

    /**
     * `machine_exception_handler`, run in Machine mode on a trap whose `mcause` is
     * `cause` and with the sandbox's a0 and a1 registers as `a0` and `buf`. The buffer
     * is only touched by an encrypt request, and then only its first 16 bytes; the
     * kernel does not check that it is the caller's memory.
     */
    method MachineExceptionHandler(cause: bv32, a0: int, buf: array<byte>)
      requires privilege == Machine && security == Normal
      requires cause == ECALL_FROM_U && a0 == SYSCALL_ENCRYPT ==> 16 <= buf.Length
      modifies this, buf
      ensures privilege == Machine && mstatus == old(mstatus)
      ensures Classify(cause) == UserRequest ==>
        && security == Normal
        && mepc == old(mepc) + ECALL_WIDTH
        && uart == old(uart)
        && if a0 == SYSCALL_ENCRYPT
           then buf[..] == aes(SECRET_KEY, old(buf[..16])) + old(buf[16..])
           else buf[..] == old(buf[..])
      ensures Classify(cause) in {IllegalLoad, IllegalStore} ==>
        && security == Locked
        && mepc == old(mepc)
        && uart == old(uart) + [ALERT]
        && buf[..] == old(buf[..])
      ensures Classify(cause).Unclassified? ==>
        && security == Locked
        && mepc == old(mepc)
        && uart == old(uart)
        && buf[..] == old(buf[..])
    {
      var epc := mepc;
      match Classify(cause)
      case UserRequest =>
        if a0 == SYSCALL_ENCRYPT {
          KernelCryptoEngine(aes, buf, 16);
          EcbSingleBlock(aes, SECRET_KEY, old(buf[..16]));
        }
        mepc := epc + ECALL_WIDTH;
      case IllegalLoad =>
        UartPuts(ALERT);
        security := Locked;
      case IllegalStore =>
        UartPuts(ALERT);
        security := Locked;
      case Unclassified(_) =>
        security := Locked;
    }

    /**
     * A trap taken by the hart: entry raises the level to Machine, saves the trapping
     * pc in `mepc` and records User in MPP; the handler runs; on the system call path
     * `mret` returns to User after the `ecall`. A Locked hart is spinning in the
     * handler and takes no further trap: nothing changes.
     */
    method Trap(cause: bv32, pc: bv32, a0: int, buf: array<byte>)
      requires security == Normal ==> privilege == User
      requires security == Normal && cause == ECALL_FROM_U && a0 == SYSCALL_ENCRYPT ==> 16 <= buf.Length
      modifies this, buf
      ensures old(security) == Locked ==>
        && privilege == old(privilege) && mstatus == old(mstatus) && mepc == old(mepc)
        && security == Locked && uart == old(uart) && buf[..] == old(buf[..])
      ensures old(security) == Normal && Classify(cause) == UserRequest ==>
        && privilege == User
        && security == Normal
        && mstatus == ClearMpp(old(mstatus))
        && mepc == pc + ECALL_WIDTH
        && uart == old(uart)
        && if a0 == SYSCALL_ENCRYPT
           then buf[..] == aes(SECRET_KEY, old(buf[..16])) + old(buf[16..])
           else buf[..] == old(buf[..])
      ensures old(security) == Normal && Classify(cause) != UserRequest ==>
        && privilege == Machine
        && security == Locked
        && mstatus == ClearMpp(old(mstatus))
        && mepc == pc
        && uart == old(uart) + (if Classify(cause).Unclassified? then [] else [ALERT])
        && buf[..] == old(buf[..])
    {
      if security == Locked {
        return;
      }
      ghost var saved := buf[..];
      EnterTrap(pc);
      assert buf[..] == saved;
      MachineExceptionHandler(cause, a0, buf);
      if security == Normal {
        // back into the sandbox, just after the ecall
        Mret();
        MppOfClearMpp(old(mstatus));
        ClearMppIdempotent(old(mstatus));
      }
    }
  }
}
