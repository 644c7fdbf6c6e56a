# spg: random strong password character device, modelled in Dafny

The `spg` kernel module exposes one character device. Every open fills a
global 64-byte buffer with a 16-character password drawn from a fixed charset
and writes a NUL terminator after it. Reads then serve the password through
the caller's file offset until it is used up.

The model has two modules:

- `Spg` (`spg.dfy`) holds the constants and the charset. The charset is the
  C array the literal initialises, so `sizeof(charset)` counts the terminator.
  It also holds `Generated`, which gives the text produced from one random
  draw per position, and `ReadStep`, which describes one `spg_read` call as a
  value. The class `Device` owns the buffer as an `array<char>` of length
  64. `GeneratePassword` fills it in place with a loop, as the C code does.
  `Open` regenerates it and returns 0. `Read` takes the caller's offset and
  returns the return value, the new offset and the bytes copied to user
  memory, and leaves the buffer untouched.
- `SpgSession` (`session.dfy`) runs a sequence of reads from one offset. It
  proves that the bytes delivered are always the text between the starting
  and the final offset. It also proves that successful reads drain the
  password exactly, that a failed copy can be retried at the same offset,
  and the chunked example (5, 5, 5, 1, then 0).

The random source `get_random_int` is a parameter: a `seq<nat>` with one
draw per position. `copy_to_user` is a boolean (`copyOk`) saying whether the
copy succeeds. The caller's `*offset` is passed in as a `nat` and the
updated value is returned.

The charset literal at main.c:22 has 88 characters, all distinct, and none
of them is NUL. `CharsetShape` proves the count of 88. The literal is written in Dafny as four adjacent pieces
whose concatenation is exactly the C literal, so that the verifier can
inspect every character.

## Model

| member | source | states |
|---|---|---|
| `Spg.CharsetShape` | main.c:22 | the charset literal has 88 characters and contains no NUL |
| `Spg.SizeofCharset` | main.c:22-27 | `sizeof(charset)` is the literal's length plus one for the terminator |
| `Spg.CharsetIndex` | main.c:27 | `rand % (sizeof(charset) - 1)` is below the literal's length for every draw, so it never selects the terminator and never indexes past the array |
| `Spg.CharAt` | main.c:22-27 | the character stored for any draw is a charset character and is not NUL |
| `Spg.Generated` | main.c:25-28 | the generated text has one character per draw, and each is a charset character other than NUL |
| `Spg.GeneratedAt` | main.c:25-28 | position k of the generated text is `charset[rands[k] % (sizeof(charset) - 1)]` |
| `Spg.ReadStep` | main.c:38-53 | at or past the end returns 0 with the offset unchanged; a failed copy returns -EFAULT with the offset unchanged and nothing delivered, and this happens exactly when the offset is before the end, at least one byte is requested and the copy fails (a zero-byte copy cannot fail); otherwise returns n with n <= len, n == len unless the end is reached, advances the offset by n to at most password_len, and delivers `password[offset..offset+n)`; the offset never decreases |
| `Spg.Device.constructor` | main.c:14-17 | the buffer has 64 bytes, all zero, and room for the 16 characters plus a terminator |
| `Spg.Device.GeneratePassword` | main.c:20-30 | positions 0..15 hold `charset[rands[k] % 88]`, i.e. the text `Generated(rands)`; position 16 holds NUL; positions 17..63 are unchanged |
| `Spg.Device.Open` | main.c:32-36 | returns 0; afterwards positions 0..15 hold charset characters other than NUL, equal to `Generated(rands)`, position 16 holds NUL, and the rest of the buffer is unchanged |
| `Spg.Device.Read` | main.c:38-53 | the return value, new offset and copied bytes are those `ReadStep` gives for the current password; on success the bytes are the buffer slice between the old and new offset; the buffer is not modified |
| `SpgSession.Run` | main.c:42-52 | a sequence of reads from one offset produces one return value per read |
| `SpgSession.RunDeliversSlice` | main.c:42-52 | for any reads and copy outcomes, the offset only moves forward, never past password_len, and the bytes delivered concatenate to exactly the text between the starting and the final offset |
| `SpgSession.RunResultsCount` | main.c:42-52 | every read returns a non-negative count or -EFAULT, the non-negative counts sum to the number of bytes delivered, and that number equals the distance the offset moved |
| `SpgSession.RunAllSucceedOffset` | main.c:42-52 | with positive lengths and successful copies, the final offset is the starting offset plus the total requested, capped at password_len |
| `SpgSession.DrainDeliversPassword` | main.c:42-52 | from offset 0, successful reads asking for at least password_len bytes in total deliver exactly the password, and any further read returns 0 without moving the offset |
| `SpgSession.FaultThenRetry` | main.c:45-48 | a read of at least one byte whose copy fails returns -EFAULT, and the reads after it deliver the same bytes, return the same values and reach the same offset as if it had not been issued |
| `SpgSession.ChunkedResults` | main.c:42-52 | k successive successful reads of c bytes return c until less than c is left, then what is left, then 0 for every further read |
| `SpgSession.ChunksOfFive` | main.c:42-52 | reading a 16-character password in chunks of 5 returns 5, 5, 5, 1, then 0, and delivers the whole password |
| `SpgSession.OpenThenReadAll` | main.c:25-52 | after generation, a read of 16 bytes returns 16 charset characters making up the whole password, and a second read returns 0 |

## Left out

- `spg_init` and `spg_exit` (main.c:63-89): device-number creation, `cdev_init`, `cdev_add`, `cdev_del`, `unregister_chrdev_region` and `printk` are kernel registration and logging. Their only logic is passing on the error code of `cdev_add`. The region is released at main.c:87 although it was never claimed; this is not modelled.
- The `file_operations` table and the module macros (main.c:9-11, main.c:55-59, main.c:91-92): kernel dispatch plumbing with no behaviour of its own.
- `get_random_int` (main.c:27): a kernel call. Its results are arbitrary naturals given as input, so nothing is claimed about their quality or distribution.
- `copy_to_user` (main.c:47): only its success or failure is modelled, and a copy of zero bytes always succeeds. The bytes it would copy are returned as a sequence instead of being written into a user buffer, and partial copies are not modelled.
- Concurrency: the buffer is shared by all opens with no locking, so a second open can overwrite a password that a first reader is still draining. The model covers one sequential session at a time.
- `Spg.Device.Read`: the offset is a `nat`, so negative `loff_t` values are not modelled. `size_t` and `int` widths are not modelled either; with a 16-byte password no count can overflow.
- Closing the device does nothing in the source, and the buffer keeps the last password after close. The model has no close operation for the same reason.
