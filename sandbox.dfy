/**
 * The untrusted sandbox application and the boot sequence: every cycle it formats a fake
 * temperature reading, asks the kernel to encrypt it through `ecall`, sends the
 * ciphertext to the dashboard as a hexadecimal `DATA:` line, and on its third cycle
 * reads the kernel's key directly, which the physical memory protection turns into a
 * load access fault.
 */
module Sandbox {
  import opened Wrappers
  import opened Bytes
  import opened Crypto
  import opened Kernel

  /** `uint8_t data_packet[17]`: 16 bytes of plaintext and a terminating NUL. */
  const PACKET_SIZE: nat := 17
  /** `char hex_output[64]`. */
  const HEX_OUTPUT_SIZE: nat := 64
  /** The cycle on which the sandbox attacks the kernel key. */
  const ATTACK_CYCLE: nat := 3

  const HEX_DIGITS: string := "0123456789ABCDEF"
  const DATA_PREFIX: string := "DATA: "

  // ---------------------------------------------------------------------------
  // Plaintext: sprintf(data_packet, "Temp: %d.0C     ", 20 + (counter % 10))
  // ---------------------------------------------------------------------------

  predicate IsDigit(c: char)
  {
    '0' <= c <= '9'
  }

  /** The value of a string of decimal digits, most significant first. */
  function DecimalValue(s: string): nat
    requires forall i :: 0 <= i < |s| ==> IsDigit(s[i])
  {
    if s == [] then 0
    else
      assert IsDigit(s[|s| - 1]);
      10 * DecimalValue(s[..|s| - 1]) + (s[|s| - 1] as int - '0' as int)
  }

  /** `%d` of a non-negative value: its decimal digits, without leading zeros. */
  function Decimal(n: nat): (s: string)
    ensures forall i :: 0 <= i < |s| ==> IsDigit(s[i])
    ensures DecimalValue(s) == n
    ensures (|s| == 1) == (n < 10) && (|s| == 2) == (10 <= n < 100)
  {
    var d := ['0' + (n % 10) as char];
    if n < 10 then d
    else
      var s := Decimal(n / 10) + d;
      assert s[..|s| - 1] == Decimal(n / 10);
      s
  }

  /** The reading shown on `cycle`, in degrees: `20 + (counter % 10)`. */
  function Reading(counter: nat): nat
  {
    20 + counter % 10
  }

  /** The text the sandbox formats on a cycle whose counter is `counter`. */
  function TemperatureText(counter: nat): (t: string)
    ensures |t| == 16
  {
    "Temp: " + Decimal(Reading(counter)) + ".0C     "
  }

  /**
   * The formatted reading is always exactly 16 characters, so that it fills one AES
   * block and, with its NUL, exactly fills `data_packet[17]`; characters 6 and 7 spell
   * the reading in decimal.
   */
  lemma TemperatureTextShape(counter: nat)
    ensures |TemperatureText(counter)| == 16 && |TemperatureText(counter)| + 1 == PACKET_SIZE
    ensures TemperatureText(counter)[..6] == "Temp: "
    ensures TemperatureText(counter)[8..] == ".0C     "
    ensures forall i :: 6 <= i < 8 ==> IsDigit(TemperatureText(counter)[i])
    ensures DecimalValue(TemperatureText(counter)[6..8]) == Reading(counter)
  {
    var t := TemperatureText(counter);
    var d := Decimal(Reading(counter));
    assert t[6..8] == d;
  }

  /**
   * The 16 plaintext bytes of a cycle, one per character of its text: the bytes of
   * `Temp: `, the two digits of the reading, then the bytes of `.0C     `.
   */
  function Plaintext(counter: nat): (p: Block)
    ensures p[..6] == AsciiBytes("Temp: ")
    ensures p[6..8] == AsciiBytes(Decimal(Reading(counter)))
    ensures p[8..] == AsciiBytes(".0C     ")
  {
    var digits := Decimal(Reading(counter));
    AsciiBytesAppend("Temp: ", digits);
    AsciiBytesAppend("Temp: " + digits, ".0C     ");
    AsciiBytes(TemperatureText(counter))
  }

  /** `sprintf` of the reading into the packet: 16 characters and a NUL. */
  method GeneratePlaintext(packet: array<byte>, counter: nat)
    requires packet.Length == PACKET_SIZE
    modifies packet
    ensures packet[..] == Plaintext(counter) + [0]
  {
    var p := Plaintext(counter);
    forall k | 0 <= k < 16 {
      packet[k] := p[k];
    }
    packet[16] := 0;
    assert packet[..] == p + [0];
  }

  // ---------------------------------------------------------------------------
  // The data line: "DATA: " then "%02X " per byte, then "\n"
  // ---------------------------------------------------------------------------

  /** The value of an upper-case hexadecimal digit, as `%02X` writes them. */
  function HexDigitValue(c: char): Option<nat>
  {
    if '0' <= c <= '9' then Some((c - '0') as int)
    else if 'A' <= c <= 'F' then Some((c - 'A') as int + 10)
    else None
  }

  /** Reads back the two digits written for one byte. */
  function ParseHexByte(hi: char, lo: char): Option<byte>
  {
    var h, l := HexDigitValue(hi), HexDigitValue(lo);
    if h.Some? && l.Some? && h.value < 16 && l.value < 16 then Some((16 * h.value + l.value) as byte) else None
  }

  /** `%02X` of a byte: two upper-case hexadecimal digits. */
  function HexByte(b: byte): (h: string)
    ensures |h| == 2 && h[0] in HEX_DIGITS && h[1] in HEX_DIGITS
  {
    [HEX_DIGITS[b as int / 16], HEX_DIGITS[b as int % 16]]
  }

  lemma HexDigitRoundTrip(k: nat)
    requires k < 16
    ensures HexDigitValue(HEX_DIGITS[k]) == Some(k)
  {
    if k < 10 {
      assert HEX_DIGITS[k] as int == '0' as int + k;
    } else {
      assert HEX_DIGITS[k] as int == 'A' as int + (k - 10);
    }
  }

  /** The two digits `%02X` writes for a byte read back as that byte. */
  lemma HexByteRoundTrip(b: byte)
    ensures ParseHexByte(HexByte(b)[0], HexByte(b)[1]) == Some(b)
  {
    var v := b as int;
    var h := HexByte(b);
    assert HexDigitValue(h[0]) == Some(v / 16) by { HexDigitRoundTrip(v / 16); }
    assert HexDigitValue(h[1]) == Some(v % 16) by { HexDigitRoundTrip(v % 16); }
    assert 16 * (v / 16) + v % 16 == v;
    assert v as byte == b;
  }

  /** The hexadecimal fields of the data line, each `%02X ` (two digits and a space). */
  function HexFields(bs: seq<byte>): (s: string)
    ensures |s| == 3 * |bs|
  {
    if bs == [] then "" else HexFields(bs[..|bs| - 1]) + HexByte(bs[|bs| - 1]) + " "
  }

  /** The line the sandbox sends to the dashboard for a ciphertext: a prefix, three characters per byte, a newline. */
  function DataLine(bs: seq<byte>): (line: string)
    ensures |line| == 3 * |bs| + 7
    ensures line[..6] == DATA_PREFIX && line[|line| - 1] == '\n'
  {
    DATA_PREFIX + HexFields(bs) + "\n"
  }

  /** Reads the hexadecimal fields back, three characters per byte. */
  function ParseFields(s: string): Option<seq<byte>>
    decreases |s|
  {
    if s == [] then Some([])
    else if |s| < 3 || s[|s| - 1] != ' ' then None
    else
      var init := ParseFields(s[..|s| - 3]);
      var last := ParseHexByte(s[|s| - 3], s[|s| - 2]);
      if init.Some? && last.Some? then Some(init.value + [last.value]) else None
  }

  /** What the dashboard reads from one line: the 16 bytes of a well-formed data line. */
  function ParseDataLine(line: string): Option<seq<byte>>
  {
    if |line| != 55 || line[..6] != DATA_PREFIX || line[54] != '\n' then None
    else
      match ParseFields(line[6..54])
      case Some(bs) => if |bs| == 16 then Some(bs) else None
      case None => None
  }

  /** Parsing one more field appends its byte. */
  lemma ParseFieldsSnoc(pre: string, h: string, bs: seq<byte>, b: byte)
    requires |h| == 2 && ParseFields(pre) == Some(bs) && ParseHexByte(h[0], h[1]) == Some(b)
    ensures ParseFields(pre + h + " ") == Some(bs + [b])
  {
    var s := pre + h + " ";
    assert s[..|s| - 3] == pre;
    assert s[|s| - 3] == h[0] && s[|s| - 2] == h[1] && s[|s| - 1] == ' ';
  }

  /** If the fields of some bytes read back, so do the fields of those bytes and one more. */
  lemma ParseHexFieldsStep(init: seq<byte>, b: byte)
    requires ParseFields(HexFields(init)) == Some(init)
    ensures ParseFields(HexFields(init + [b])) == Some(init + [b])
  {
    var bs := init + [b];
    assert bs[..|bs| - 1] == init && bs[|bs| - 1] == b;
    assert HexFields(bs) == HexFields(init) + HexByte(b) + " ";
    HexByteRoundTrip(b);
    ParseFieldsSnoc(HexFields(init), HexByte(b), init, b);
  }

  /** The fields written for a sequence of bytes read back as that sequence. */
  lemma {:induction false} ParseHexFields(bs: seq<byte>)
    ensures ParseFields(HexFields(bs)) == Some(bs)
    decreases |bs|
  {
    if bs != [] {
      var init, b := bs[..|bs| - 1], bs[|bs| - 1];
      assert bs == init + [b];
      ParseHexFields(init);
      ParseHexFieldsStep(init, b);
    }
  }

  /**
   * A data line for a 16-byte block is 55 characters, so it fits `hex_output[64]` with
   * its terminator, and it reads back as exactly the block it was made from.
   */
  lemma DataLineRoundTrip(bs: seq<byte>)
    requires |bs| == 16
    ensures |DataLine(bs)| == 55 && |DataLine(bs)| + 1 <= HEX_OUTPUT_SIZE
    ensures ParseDataLine(DataLine(bs)) == Some(bs)
  {
    var line := DataLine(bs);
    assert line[..6] == DATA_PREFIX;
    assert line[6..54] == HexFields(bs);
    ParseHexFields(bs);
  }

  /** No data line is the alert line: they differ in their first character. */
  lemma DataLineIsNotAlert(bs: seq<byte>)
    ensures DataLine(bs) != ALERT
  {
    assert DataLine(bs)[0] == 'D' && ALERT[0] == 'S';
  }

  /** The loop that appends `%02X ` for each of the 16 packet bytes, then the newline. */
  method FormatDataLine(packet: array<byte>) returns (line: string)
    requires 16 <= packet.Length
    ensures line == DataLine(packet[..16])
  {
    line := DATA_PREFIX;
    for i := 0 to 16
      invariant line == DATA_PREFIX + HexFields(packet[..i])
    {
      assert packet[..i + 1][..i] == packet[..i];
      line := line + HexByte(packet[i]) + " ";
    }
    line := line + "\n";
  }

  // ---------------------------------------------------------------------------
  // The sandbox loop and the boot sequence
  // ---------------------------------------------------------------------------

  /**
   * The data line of cycle `counter`: the encrypted reading, in hexadecimal. The
   * dashboard reads back exactly that ciphertext, and the line is never the alert.
   */
  function CycleLine(aes: Cipher, counter: nat): (line: string)
    ensures ParseDataLine(line) == Some(aes(SECRET_KEY, Plaintext(counter)))
    ensures line != ALERT
  {
    var sealed := aes(SECRET_KEY, Plaintext(counter));
    DataLineRoundTrip(sealed);
    DataLineIsNotAlert(sealed);
    DataLine(sealed)
  }

  /** The data lines of cycles 1 to `n`, in order. */
  function DataLines(aes: Cipher, n: nat): (lines: seq<string>)
    ensures |lines| == n
  {
    seq(n, i requires 0 <= i < n => CycleLine(aes, i + 1))
  }

  /** One more cycle appends its data line. */
  lemma DataLinesSnoc(aes: Cipher, n: nat)
    ensures DataLines(aes, n + 1) == DataLines(aes, n) + [CycleLine(aes, n + 1)]
  {
  }

  /**
   * What UART1 carries from the sandbox's first `cycles` cycles: a data line per cycle
   * up to the attack cycle, then the kernel's alert, then nothing.
   */
  function SandboxOutput(aes: Cipher, cycles: nat): (out: seq<string>)
    ensures |out| == if cycles < ATTACK_CYCLE then cycles else ATTACK_CYCLE + 1
    ensures out[..Min(cycles, ATTACK_CYCLE)] == DataLines(aes, Min(cycles, ATTACK_CYCLE))
    ensures cycles >= ATTACK_CYCLE ==> out[ATTACK_CYCLE] == ALERT
  {
    var sent := Min(cycles, ATTACK_CYCLE);
    var lines := DataLines(aes, sent);
    var out := lines + if cycles < ATTACK_CYCLE then [] else [ALERT];
    assert out[..sent] == lines;
    out
  }

  function Min(a: nat, b: nat): nat
  {
    if a < b then a else b
  }

  /** The sandbox never sends the alert line itself. */
  lemma NoAlertInDataLines(aes: Cipher, n: nat)
    ensures ALERT !in DataLines(aes, n)
  {
    forall i | 0 <= i < n
      ensures DataLines(aes, n)[i] != ALERT
    {
      DataLineIsNotAlert(aes(SECRET_KEY, Plaintext(i + 1)));
    }
  }

  /**
   * The alert is sent exactly once if the attack cycle was reached and never otherwise,
   * and nothing follows it: no data line is sent after the lockout.
   */
  lemma AlertOnce(aes: Cipher, cycles: nat)
    ensures multiset(SandboxOutput(aes, cycles))[ALERT] == if cycles < ATTACK_CYCLE then 0 else 1
    ensures forall i :: 0 <= i < |SandboxOutput(aes, cycles)| && SandboxOutput(aes, cycles)[i] == ALERT
              ==> i == |SandboxOutput(aes, cycles)| - 1
    ensures |SandboxOutput(aes, cycles)| <= ATTACK_CYCLE + 1
  {
    NoAlertInDataLines(aes, if cycles < ATTACK_CYCLE then cycles else ATTACK_CYCLE);
    if cycles >= ATTACK_CYCLE {
      var d := DataLines(aes, ATTACK_CYCLE);
      assert multiset(d + [ALERT]) == multiset(d) + multiset{ALERT};
    }
  }

  /** `syscall_encrypt_data(data)`: `ecall` with a0 = 1 and a1 = `data`. */
  method SyscallEncryptData(hart: Hart, pc: bv32, data: array<byte>)
    requires hart.security == Normal && hart.privilege == User
    requires 16 <= data.Length
    modifies hart, data
    ensures data[..] == hart.aes(SECRET_KEY, old(data[..16])) + old(data[16..])
    ensures hart.security == Normal && hart.privilege == User
    ensures hart.mepc == pc + ECALL_WIDTH && hart.mstatus == ClearMpp(old(hart.mstatus))
    ensures hart.uart == old(hart.uart)
  {
    hart.Trap(ECALL_FROM_U, pc, SYSCALL_ENCRYPT, data);
  }

  /** One more cycle, below the attack cycle or at it, extends the output accordingly. */
  lemma SandboxOutputStep(aes: Cipher, counter: nat)
    requires counter < ATTACK_CYCLE
    ensures SandboxOutput(aes, counter + 1)
            == SandboxOutput(aes, counter) + [CycleLine(aes, counter + 1)]
               + (if counter + 1 == ATTACK_CYCLE then [ALERT] else [])
  {
    DataLinesSnoc(aes, counter);
  }

  /** Once the attack cycle is reached, further cycles add nothing to the output. */
  lemma SandboxOutputAfterAttack(aes: Cipher, counter: nat, cycles: nat)
    requires ATTACK_CYCLE <= counter <= cycles
    ensures SandboxOutput(aes, cycles) == SandboxOutput(aes, counter)
  {
  }

  /**
   * One iteration of the loop of `sandbox_main`, the counter already incremented:
   * format and encrypt the reading, send its data line, and on the attack cycle load
   * the kernel key, which faults.
   */
  method SandboxCycle(hart: Hart, packet: array<byte>, counter: nat, ecallPc: bv32, attackPc: bv32)
    requires hart.security == Normal && hart.privilege == User
    requires packet.Length == PACKET_SIZE && 1 <= counter <= ATTACK_CYCLE
    modifies hart, packet
    ensures hart.uart == old(hart.uart) + [CycleLine(hart.aes, counter)]
                         + (if counter == ATTACK_CYCLE then [ALERT] else [])
    ensures counter < ATTACK_CYCLE ==>
              hart.security == Normal && hart.privilege == User && hart.mepc == ecallPc + ECALL_WIDTH
    ensures counter == ATTACK_CYCLE ==>
              hart.security == Locked && hart.privilege == Machine && hart.mepc == attackPc
    ensures hart.mstatus == ClearMpp(old(hart.mstatus))
    ensures packet[..] == hart.aes(SECRET_KEY, Plaintext(counter)) + [0]
  {
    GeneratePlaintext(packet, counter);
    assert packet[..16] == Plaintext(counter) && packet[16..] == [0];
    SyscallEncryptData(hart, ecallPc, packet);
    ghost var sealed := packet[..];
    assert sealed == hart.aes(SECRET_KEY, Plaintext(counter)) + [0];
    var line := FormatDataLine(packet);
    hart.UartPuts(line);
    if counter == ATTACK_CYCLE {
      // volatile uint8_t stolen = SECRET_KEY[0]; the load faults before it completes
      hart.Trap(LOAD_ACCESS_FAULT, attackPc, SYSCALL_ENCRYPT, packet);
      ClearMppIdempotent(old(hart.mstatus));
    }
    assert packet[..] == sealed;
  }

  /** A cycle of the loop in terms of the whole output so far. */
  method SandboxStep(hart: Hart, packet: array<byte>, counter: nat, ecallPc: bv32, attackPc: bv32,
                     ghost sent: seq<string>)
    requires hart.security == Normal && hart.privilege == User
    requires packet.Length == PACKET_SIZE && counter < ATTACK_CYCLE
    requires hart.uart == sent + SandboxOutput(hart.aes, counter)
    modifies hart, packet
    ensures hart.uart == sent + SandboxOutput(hart.aes, counter + 1)
    ensures counter + 1 < ATTACK_CYCLE ==>
              hart.security == Normal && hart.privilege == User && hart.mepc == ecallPc + ECALL_WIDTH
    ensures counter + 1 == ATTACK_CYCLE ==>
              hart.security == Locked && hart.privilege == Machine && hart.mepc == attackPc
    ensures hart.mstatus == ClearMpp(old(hart.mstatus))
    ensures packet[..] == hart.aes(SECRET_KEY, Plaintext(counter + 1)) + [0]
  {
    SandboxOutputStep(hart.aes, counter);
    SandboxCycle(hart, packet, counter + 1, ecallPc, attackPc);
  }

  /**
   * `sandbox_main`, run for at most `cycles` cycles of its loop (the source loops
   * forever). `ecallPc` and `attackPc` are the addresses of its `ecall` and of the load
   * of `SECRET_KEY[0]`.
   */
  method SandboxMain(hart: Hart, cycles: nat, ecallPc: bv32, attackPc: bv32)
    requires hart.security == Normal && hart.privilege == User
    modifies hart
    ensures hart.uart == old(hart.uart) + SandboxOutput(hart.aes, cycles)
    ensures hart.security == if cycles < ATTACK_CYCLE then Normal else Locked
    ensures cycles < ATTACK_CYCLE ==> hart.privilege == User
    ensures cycles >= ATTACK_CYCLE ==> hart.mepc == attackPc && hart.privilege == Machine
    ensures 0 < cycles < ATTACK_CYCLE ==> hart.mepc == ecallPc + ECALL_WIDTH
    ensures cycles == 0 ==> hart.mepc == old(hart.mepc) && hart.mstatus == old(hart.mstatus)
    ensures cycles > 0 ==> hart.mstatus == ClearMpp(old(hart.mstatus))
  {
    if cycles == 0 {
      return;
    }
    ghost var sent, cleared := hart.uart, ClearMpp(hart.mstatus);
    ClearMppIdempotent(hart.mstatus);
    var packet := new byte[PACKET_SIZE];
    // the first pass of the loop; every later pass finds MPP already cleared
    SandboxStep(hart, packet, 0, ecallPc, attackPc, sent);
    var counter: nat := 1;
    while counter < cycles && hart.security == Normal
      invariant 1 <= counter <= ATTACK_CYCLE && counter <= cycles
      invariant (hart.security == Normal) == (counter < ATTACK_CYCLE)
      invariant hart.security == Normal ==> hart.privilege == User && hart.mepc == ecallPc + ECALL_WIDTH
      invariant hart.security == Locked ==> hart.mepc == attackPc && hart.privilege == Machine
      invariant hart.mstatus == cleared
      invariant hart.uart == sent + SandboxOutput(hart.aes, counter)
    {
      SandboxStep(hart, packet, counter, ecallPc, attackPc, sent);
      counter := counter + 1;
    }
    if counter < cycles {
      SandboxOutputAfterAttack(hart.aes, counter, cycles);
    }
  }

  /**
   * `main`: after reset the kernel installs its trap vector, drops to User mode at
   * `sandboxEntry`, and the sandbox runs. Over `cycles` cycles UART1 carries exactly
   * `SandboxOutput`, and the hart ends Locked once the attack cycle has been reached.
   */
  method Boot(aes: Cipher, resetMstatus: bv32, resetMepc: bv32, sandboxEntry: bv32,
              cycles: nat, ecallPc: bv32, attackPc: bv32)
    returns (uart: seq<string>, security: SecurityState)
    ensures uart == SandboxOutput(aes, cycles)
    ensures security == if cycles < ATTACK_CYCLE then Normal else Locked
  {
    var hart := new Hart(aes, resetMstatus, resetMepc);
    hart.SwitchToUserMode(sandboxEntry);
    SandboxMain(hart, cycles, ecallPc, attackPc);
    uart, security := hart.uart, hart.security;
  }
}
