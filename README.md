# Chetak secure IoT firmware, modelled in Dafny

Chetak is RISC-V firmware for the RP2350. It splits into two parts.

- **Kernel.** It runs in Machine mode and holds an AES-128 key. It installs a trap handler and drops the sandbox into User mode with `mret`.
- **Sandbox.** It runs in User mode. Every cycle it:
  - formats a fake temperature reading;
  - asks the kernel, through `ecall`, to encrypt it with the key;
  - sends the ciphertext to the ESP8266 dashboard over UART1 as a line `DATA: XX XX … \n`.

  On its third cycle it tries to read the key directly. The source expects the physical memory protection to make that load fault with a load access fault; `main.c` itself configures no PMP region. The kernel's handler then broadcasts `SECURITY ALERT: SANDBOX COMPROMISED\n` and locks the hart for good.

A small Python script, `make_uf2.py`, turns the firmware binary into a UF2 image for the RP2350 bootloader. The image has one 512-byte block per 256 bytes of input.

The model has six modules.

- **`Crypto`.** The kernel's crypto engine: ECB over a block cipher passed in as a value, and the in-place loop of `kernel_crypto_engine`.
- **`Kernel`.**
  - A `Hart` class whose fields are the state the kernel changes:
    - privilege level;
    - `mstatus`, `mepc`;
    - a Normal/Locked security state;
    - the lines sent over UART1.
  - Methods on it:
    - `switch_to_user_mode`;
    - trap entry;
    - `mret`;
    - `machine_exception_handler`.
- **`Sandbox`.**
  - The user-mode application: the plaintext and the hexadecimal data line, each with its own parser to state round trips.
  - One loop cycle as a method.
  - `sandbox_main`, bounded by a cycle count.
  - The boot sequence of `main`.
  - `SandboxOutput`, the exact sequence of UART lines after any number of cycles.
- **`Uf2`.** The converter as a loop appending bytes, proved against a block-layout function. An independent decoder reads the image back. The decoder validates the magics, the block numbers and the block count, and concatenates the payloads.
- **`Bytes`.** The firmware's byte type, zero padding and ASCII bytes.
- **`Wrappers`.** The `Option` type.

The firmware's bytes are `uint8_t`, so `Bytes.byte` is an 8-bit bit-vector. The converter is Python, where an element of a `bytes` object is an integer from 0 to 255. `Uf2` therefore uses its own integer-valued `uint8` and `uint32`, with its own `Zeros`. This keeps the little-endian packing ordinary integer arithmetic.

## Model

| member | source | states |
|---|---|---|
| Crypto.EcbEncrypt | Chetak/firmware_riscv/main.c:31-38 | ECB ciphertext has the length of the plaintext |
| Crypto.EcbAppend | Chetak/firmware_riscv/main.c:35-37 | ECB of a concatenation of whole blocks is the concatenation of the ECBs |
| Crypto.EcbBlockAt | Chetak/firmware_riscv/main.c:35-37 | block `j` of the ciphertext is the cipher applied to block `j` of the plaintext alone |
| Crypto.EcbSingleBlock | Chetak/firmware_riscv/main.c:55 | on one 16-byte block, ECB is a single application of the cipher |
| Crypto.BlocksVisited | Chetak/firmware_riscv/main.c:35 | the loop `for (i = 0; i < len; i += 16)` visits no block when `len <= 0`, and otherwise the least number of blocks covering `len` bytes |
| Crypto.AesEcbEncrypt | Chetak/firmware_riscv/main.c:36 | the 16 bytes at the offset are replaced by their encryption under the key; all other bytes are unchanged |
| Crypto.EcbStep | Chetak/firmware_riscv/main.c:35-37 | one iteration of the engine's loop extends the encrypted prefix by exactly one block |
| Crypto.KernelCryptoEngine | Chetak/firmware_riscv/main.c:31-38 | afterwards the buffer is the ECB encryption under `SECRET_KEY` of every block the loop visits (a partial last block included), followed by the untouched rest |
| Kernel.Classify | Chetak/firmware_riscv/main.c:46-78 | the dispatcher assigns each `mcause` exactly one case, loses no code, and leaves a code unclassified exactly when it is not 8, 5 or 7 |
| Kernel.ClearMpp | Chetak/firmware_riscv/main.c:86-87 | `mstatus &= ~(3 << 11)`: bits 12:11 read zero, and every other bit keeps its value |
| Kernel.ClearMppUnique | Chetak/firmware_riscv/main.c:86-87 | the two facts of `ClearMpp`'s contract determine its result: any word satisfying them is `ClearMpp(mstatus)` |
| Kernel.ClearMppIdempotent | Chetak/firmware_riscv/main.c:87 | clearing MPP twice is clearing it once |
| Kernel.MppPrivilege | Chetak/firmware_riscv/main.c:103 | the level `mret` returns to is User exactly when clearing MPP leaves `mstatus` unchanged, i.e. when MPP is already 00 |
| Kernel.MppOfClearMpp | Chetak/firmware_riscv/main.c:86-87 | once MPP is cleared, `mret` returns to User mode |
| Kernel.Hart.constructor | Chetak/firmware_riscv/main.c:108-110 | reset: Machine mode, Normal, nothing sent over UART1 |
| Kernel.Hart.UartPuts | Chetak/firmware_riscv/main.c:67 | `uart_puts`, callable only while the hart is not locked, appends exactly one line; the registers and the security state do not change |
| Kernel.Hart.Mret | Chetak/firmware_riscv/main.c:103 | `mret`, callable only while the hart is not locked, moves to the level MPP names and clears MPP; nothing else changes |
| Kernel.Hart.SwitchToUserMode | Chetak/firmware_riscv/main.c:82-104 | after `switch_to_user_mode(entry)`: User mode, `mepc == entry`, MPP cleared and all other `mstatus` bits kept; still Normal, UART unchanged |
| Kernel.Hart.EnterTrap | Chetak/firmware_riscv/main.c:41-44 | trap entry on an unlocked hart: Machine mode, `mepc` is the trapping pc, MPP records User |
| Kernel.Hart.MachineExceptionHandler | Chetak/firmware_riscv/main.c:41-79 | cause 8: the 16-byte buffer is encrypted in place iff `a0 == 1`, `mepc` becomes `epc + 4`, still Normal, nothing sent. Cause 5 or 7: exactly the alert line is sent, Locked, buffer untouched. Any other cause: Locked silently |
| Kernel.Hart.Trap | Chetak/firmware_riscv/main.c:41-79 | a trap from User mode ends either back in User mode at `pc + 4` (system call), or Locked in Machine mode with `mepc == pc` and the alert sent iff the cause is 5 or 7; a Locked hart takes no further trap and nothing changes |
| Sandbox.Decimal | Chetak/firmware_riscv/main.c:145 | `%d` writes only digits, their decimal value is the number, and a number has one digit iff it is below 10 and two iff it is from 10 to 99 |
| Sandbox.TemperatureText | Chetak/firmware_riscv/main.c:145 | the formatted reading is 16 characters |
| Sandbox.TemperatureTextShape | Chetak/firmware_riscv/main.c:137-145 | the text is `Temp: ` + two digits + `.0C     `, 16 characters, so with its NUL it fills `data_packet[17]`; its digits read back as `20 + counter % 10` |
| Bytes.AsciiBytes | Chetak/firmware_riscv/main.c:145 | the text `sprintf` writes becomes one byte per character |
| Bytes.AsciiBytesAppend | Chetak/firmware_riscv/main.c:145 | the bytes of a concatenated text are the concatenation of the parts' bytes |
| Sandbox.Plaintext | Chetak/firmware_riscv/main.c:145 | the 16 plaintext bytes are the bytes of `Temp: `, then the two digits of `20 + counter % 10`, then the bytes of `.0C     ` |
| Sandbox.GeneratePlaintext | Chetak/firmware_riscv/main.c:145 | the packet holds the 16 plaintext bytes and the NUL `sprintf` writes |
| Sandbox.HexByte | Chetak/firmware_riscv/main.c:154 | `%02X` writes exactly two upper-case hexadecimal digits |
| Sandbox.HexDigitRoundTrip | Chetak/firmware_riscv/main.c:154 | each hexadecimal digit reads back as its value |
| Sandbox.HexByteRoundTrip | Chetak/firmware_riscv/main.c:154 | the two digits written for a byte read back as that byte |
| Sandbox.HexFields | Chetak/firmware_riscv/main.c:153-155 | three characters per byte |
| Sandbox.DataLine | Chetak/firmware_riscv/main.c:152-156 | a data line is `DATA: `, three characters per byte, and a final newline |
| Sandbox.ParseFieldsSnoc | Chetak/firmware_riscv/main.c:153-155 | reading one more `%02X ` field appends its byte |
| Sandbox.ParseHexFieldsStep | Chetak/firmware_riscv/main.c:153-155 | if the fields of some bytes read back, so do those of one more byte |
| Sandbox.ParseHexFields | Chetak/firmware_riscv/main.c:153-155 | the fields written for any byte sequence read back as exactly that sequence |
| Sandbox.DataLineRoundTrip | Chetak/firmware_riscv/main.c:139-156 | the data line of a 16-byte ciphertext is 55 characters, fits `hex_output[64]` with its terminator, and reads back as exactly the ciphertext |
| Sandbox.DataLineIsNotAlert | Chetak/firmware_riscv/main.c:152-160 | no data line is the alert line |
| Sandbox.FormatDataLine | Chetak/firmware_riscv/main.c:152-156 | the loop builds `DATA: ` + `%02X ` per packet byte + `\n` |
| Sandbox.CycleLine | Chetak/firmware_riscv/main.c:145-160 | the line a cycle sends reads back, on the dashboard side, as exactly the encryption of that cycle's plaintext under `SECRET_KEY`, and is never the alert |
| Sandbox.DataLines | Chetak/firmware_riscv/main.c:141-160 | one data line per cycle |
| Sandbox.DataLinesSnoc | Chetak/firmware_riscv/main.c:141-160 | one more cycle appends its data line |
| Sandbox.SandboxOutput | Chetak/firmware_riscv/main.c:141-176 | the UART schedule: before cycle 3 one data line per cycle, in order; from cycle 3 on, the three data lines followed by the alert and nothing else |
| Sandbox.NoAlertInDataLines | Chetak/firmware_riscv/main.c:160 | the sandbox never sends the alert line itself |
| Sandbox.AlertOnce | Chetak/firmware_riscv/main.c:63-73 | the alert is sent once if the attack cycle was reached and never otherwise; nothing follows it; at most four lines are ever sent |
| Sandbox.SyscallEncryptData | Chetak/firmware_riscv/main.c:129-133 | the `ecall` wrapper returns in User mode, Normal, with the first 16 bytes of the buffer encrypted under the kernel key and the rest untouched |
| Sandbox.SandboxOutputStep | Chetak/firmware_riscv/main.c:141-173 | a cycle before the attack cycle adds its data line, plus the alert if it is the attack cycle |
| Sandbox.SandboxOutputAfterAttack | Chetak/firmware_riscv/main.c:70-72 | after the lockout further cycles add nothing |
| Sandbox.SandboxCycle | Chetak/firmware_riscv/main.c:141-173 | a cycle sends the data line of the encrypted reading and leaves the packet holding that ciphertext and its NUL; MPP ends cleared with every other `mstatus` bit kept; before cycle 3 the hart is back in User mode, Normal, with `mepc` just past the `ecall`; on cycle 3 the key load faults, the alert follows, and the hart is Locked in Machine mode with `mepc` at the faulting load |
| Sandbox.SandboxStep | Chetak/firmware_riscv/main.c:141-176 | a cycle takes the UART output from `SandboxOutput(counter)` to `SandboxOutput(counter + 1)`; the packet, `mstatus`, `mepc`, privilege and security end as in `SandboxCycle` |
| Sandbox.SandboxMain | Chetak/firmware_riscv/main.c:135-177 | after `cycles` cycles UART1 carries exactly `SandboxOutput(cycles)`. Fewer than 3 cycles: the hart is Normal and in User mode, with `mepc` just past the `ecall` once a cycle has run. Otherwise it is Locked in Machine mode at the attack's pc. Once a cycle has run, MPP is cleared and every other `mstatus` bit is kept; zero cycles change nothing |
| Sandbox.Boot | Chetak/firmware_riscv/main.c:108-122 | from reset, the lines on UART1 are exactly `SandboxOutput(cycles)`, and the hart is Locked once the attack cycle has run |
| Uf2.LittleEndian | Chetak/firmware_riscv/make_uf2.py:22-23 | the little-endian encoding has exactly `width` bytes |
| Uf2.FromLittleEndianInverse | Chetak/firmware_riscv/make_uf2.py:22-23 | reading little-endian bytes back gives the value they encode, for every value the width can hold |
| Uf2.PackU32 | Chetak/firmware_riscv/make_uf2.py:35 | `struct.pack("<I", v)` is 4 bytes |
| Uf2.UnpackPackU32 | Chetak/firmware_riscv/make_uf2.py:35 | the 4 bytes of `struct.pack("<I", v)` read back as `v` |
| Uf2.PackWords | Chetak/firmware_riscv/make_uf2.py:22-32 | `struct.pack("<IIIIIIII", …)` is 4 bytes per word |
| Uf2.PackWordsAt | Chetak/firmware_riscv/make_uf2.py:22-32 | word `k` of the header occupies bytes `4k` to `4k+3` |
| Uf2.NumBlocks | Chetak/firmware_riscv/make_uf2.py:13 | `(len + 255) // 256` is the least number of 256-byte blocks covering the input |
| Uf2.Packable | Chetak/firmware_riscv/make_uf2.py:22-32 | `struct.pack` accepts the header of block `i` of `n` exactly when `i < 0xF00000` and `n < 2^32` |
| Uf2.HeaderWords | Chetak/firmware_riscv/make_uf2.py:22-32 | the header has eight words |
| Uf2.Header | Chetak/firmware_riscv/make_uf2.py:22-32 | the header is 32 bytes |
| Uf2.Chunk | Chetak/firmware_riscv/make_uf2.py:15-18 | every payload is 256 bytes |
| Uf2.NextChunk | Chetak/firmware_riscv/make_uf2.py:15-18 | Python's clamped slice `data[i*256:(i+1)*256]`, padded with zeros, is input bytes `256i` to `256i+255` with zeros past the end of the input |
| Uf2.Block | Chetak/firmware_riscv/make_uf2.py:34-38 | every block (header, chunk, padding, end magic) is 512 bytes |
| Uf2.Blocks | Chetak/firmware_riscv/make_uf2.py:14-38 | `k` blocks are `512 k` bytes |
| Uf2.WrittenBlocks | Chetak/firmware_riscv/make_uf2.py:22-32 | the blocks whose header `struct.pack` accepts are exactly the first `WrittenBlocks(n)`; all are written iff `n <= 0xF00000` |
| Uf2.Uf2Image | Chetak/firmware_riscv/make_uf2.py:12-38 | the whole image is 512 bytes per 256 input bytes, rounded up; it is empty exactly when the input is |
| Uf2.ConvertBinToUf2 | Chetak/firmware_riscv/make_uf2.py:8-38 | the file holds the first `WrittenBlocks(n)` blocks of the layout; the conversion succeeds iff every block's address fits 32 bits |
| Uf2.UnitOfAppend | Chetak/firmware_riscv/make_uf2.py:38 | a 512-byte unit of a concatenation comes from its first part or is the appended block |
| Uf2.BlocksAt | Chetak/firmware_riscv/make_uf2.py:14-38 | block `j` of the image sits at bytes `512j` to `512j+511` |
| Uf2.BlockLayout | Chetak/firmware_riscv/make_uf2.py:20-38 | each block: the eight header words, little-endian, at bytes 0-31; the payload at 32-287; zeros at 288-507; the end magic at 508-511 |
| Uf2.BlockWords | Chetak/firmware_riscv/make_uf2.py:22-35 | the words of a written block read back as the fields that were packed |
| Uf2.DecodeEncodedBlock | Chetak/firmware_riscv/make_uf2.py:22-38 | a written block decodes to flags 0x2000, address `0x10000000 + 256i`, payload size 256, number `i`, count `n`, family `0xe48bff56`, and its payload |
| Uf2.Padded | Chetak/firmware_riscv/make_uf2.py:17-18 | the padded input fills whole blocks and starts with the input |
| Uf2.PaddedChunk | Chetak/firmware_riscv/make_uf2.py:15-18 | payload `i` is bytes `256i` to `256i+255` of the padded input |
| Uf2.ImageBlockDecodes | Chetak/firmware_riscv/make_uf2.py:14-38 | block `j` of the image decodes to its header and chunk `j` |
| Uf2.DecodeBlocksStep | Chetak/firmware_riscv/make_uf2.py:14-38 | decoding one more well-numbered block appends its payload |
| Uf2.DecodeBlocksPrefix | Chetak/firmware_riscv/make_uf2.py:14-38 | if each block carries its 256 bytes in order, decoding yields their concatenation |
| Uf2.DecodeImageRoundTrip | Chetak/firmware_riscv/make_uf2.py:8-38 | reading the image back gives the input followed by the zero padding of its last block, and truncating to the input's length gives the input |

## Left out

- The AES-128 block cipher (`aes.h`) is not part of this model. `Crypto.Cipher` is any total function from a key and a 16-byte block to a 16-byte block, so the model states ECB structure, not AES values.
- Inline assembly is modelled only through its effect on `mstatus` and `mepc`. This covers `csrr`, `csrw` and `mret`. The pc is not modelled. The addresses of the sandbox entry, of the `ecall` and of the faulting load are parameters.
- The `mtvec` write in `main` is not modelled separately: `Hart.Trap` always runs `machine_exception_handler`.
- MIE/MPIE and the other `mstatus` fields that trap entry and `mret` update are not modelled. Trap entry and `mret` only update MPP. This hart has no Supervisor mode.
- Physical memory protection: `main.c` writes no `pmpcfg` or `pmpaddr` register, so nothing in the source sets up the protection its comments rely on. The model takes the fault of the sandbox's read of `SECRET_KEY[0]` from those comments: on cycle 3 it raises cause 5 (load access fault).
- Kernel.Hart.MachineExceptionHandler: `a0` and the buffer are parameters. The model assumes the handler sees the values the sandbox placed in a0 and a1 before `ecall`. The C code reads them through uninitialised `register … asm("a0")` locals, which the compiler does not guarantee.
- Kernel.Hart.MachineExceptionHandler: the buffer address is not checked. That is as in the source, whose comment says a real system would check it. The model only requires the buffer to hold 16 bytes.
- The infinite lock loop `while(1)` is modelled as the Locked state: a Locked hart takes no further trap, and the sandbox runs no further cycle.
- Sandbox.SandboxMain: the sandbox loop runs forever in the source. The model runs at most `cycles` iterations and states the output for every `cycles`.
- The `int counter` of `sandbox_main` is unbounded in the model. Its 32-bit overflow after 2^31 cycles is never reached, because the hart locks on cycle 3.
- The USB `printf` traces and `sleep_ms` delays are not modelled, nor `stdio_init_all` and the UART and GPIO set-up (`uart_init`, `gpio_set_function`, `uart_set_format`). UART1 is the sequence of lines sent.
- File I/O in `make_uf2.py` is not modelled: the input is a byte sequence and the output the bytes written. This covers `open`, `read`, `write`, the `__main__` block with its path check, and the success message.
- The family ID is 0xe48bff56, the value the script writes. The UF2 family-ID registry lists that value for the RP2040, not for the RP2350 in RISC-V mode. Which IDs the boot ROM accepts is not part of this model.
- Uf2.ConvertBinToUf2: `struct.error` is modelled as `ok == false`, with the blocks written before it. Whether Python leaves those bytes in the file after the exception is not modelled beyond that.
