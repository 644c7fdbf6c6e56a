/** Model of the "spg" character device: a kernel module that fills a fixed
    64-byte buffer with a random 16-character password on every open and
    serves it to readers through the file offset.

    The random source is a sequence of naturals supplied by the caller (one
    per position), and the outcome of the copy to user memory is a boolean. */
module Spg {

  /** Capacity of the global password buffer (BUFFER_SIZE). */
  const BufferSize: nat := 64

  /** Number of characters generated on every open (password_len). */
  const PasswordLen: nat := 16

  /** The kernel's EFAULT error number; the read returns its negation. */
  const EFAULT: int := 14

  /** The characters of the charset string literal, written as four
      adjacent pieces whose concatenation is the literal. */
  const Charset: string :=
    "abcdefghijklmnopqrstuv" + "wxyzABCDEFGHIJKLMNOPQR" + "STUVWXYZ0123456789!@#$" + "%^&*()_+-=[]{}|;:,.<>?"

  /** The charset as the C array the literal initialises: its characters
      followed by the terminating NUL. */
  const CharsetArray: string := Charset + ['\0']

  /** sizeof(charset): the length of the array, terminator included. */
  function SizeofCharset(): (n: nat)
    ensures n == |Charset| + 1
  {
    |CharsetArray|
  }

  /** A character the generator may produce. */
  predicate IsCharsetChar(c: char)
  {
    c in Charset
  }

  /** The literal has 88 characters and none of them is NUL. */
  lemma CharsetShape()
    ensures |Charset| == 88
    ensures '\0' !in Charset
  {
  }

  /** The index `rand % (sizeof(charset) - 1)` used for one position. It
      never reaches the array's terminator. */
  function CharsetIndex(rand: nat): (idx: nat)
    ensures idx < |Charset|
    ensures idx < SizeofCharset() - 1
  {
    rand % (SizeofCharset() - 1)
  }

  /** The character stored for one random draw: a charset character, never
      the terminator. */
  function CharAt(rand: nat): (c: char)
    ensures IsCharsetChar(c)
    ensures c != '\0'
  {
    CharsetShape();
    assert CharsetArray[CharsetIndex(rand)] == Charset[CharsetIndex(rand)];
    CharsetArray[CharsetIndex(rand)]
  }

  /** The password text generated from one random draw per position. */
  function Generated(rands: seq<nat>): (p: string)
    ensures |p| == |rands|
    ensures forall i :: 0 <= i < |p| ==> IsCharsetChar(p[i]) && p[i] != '\0'
  {
    if rands == [] then [] else [CharAt(rands[0])] + Generated(rands[1..])
  }

  /** Position `k` of the generated text is the character the `k`-th draw
      selects. */
  lemma {:induction false} GeneratedAt(rands: seq<nat>, k: nat)
    requires k < |rands|
    ensures Generated(rands)[k] == CharsetArray[rands[k] % (SizeofCharset() - 1)]
  {
    if k > 0 {
      GeneratedAt(rands[1..], k - 1);
    }
  }

  /** The value a call of the read operation produces: its return value, the
      caller's offset afterwards and the bytes delivered to user memory. */
  datatype ReadOutcome = ReadOutcome(result: int, offset: nat, data: string)

  function Min(a: nat, b: nat): (m: nat)
    ensures m <= a && m <= b && (m == a || m == b)
  {
    if a <= b then a else b
  }

  /** One read of `len` bytes at `offset` from the password text `pw`. A copy
      of at least one byte to user memory succeeds exactly when `copyOk`; a
      copy of zero bytes has nothing to fault on and always succeeds. */
  function ReadStep(pw: string, offset: nat, len: nat, copyOk: bool): (r: ReadOutcome)
    // end of data: nothing is delivered and the offset stays
    ensures offset >= |pw| ==> r.result == 0 && r.offset == offset && r.data == []
    // a fault is signalled exactly when there was data to copy and the copy failed
    ensures r.result < 0 <==> offset < |pw| && len > 0 && !copyOk
    ensures r.result < 0 ==> r.result == -EFAULT && r.offset == offset && r.data == []
    // on success the offset advances by the count returned, never past the
    // end of the text, and exactly the bytes between the two offsets are delivered
    ensures offset < |pw| && (copyOk || len == 0) ==>
      && 0 <= r.result <= len
      && r.offset == offset + r.result <= |pw|
      && r.data == pw[offset..r.offset]
    // the request is cut short only at the end of the text
    ensures offset < |pw| && (copyOk || len == 0) ==> r.result == len || r.offset == |pw|
    // the offset never moves backwards
    ensures offset <= r.offset
  {
    if offset >= |pw| then ReadOutcome(0, offset, [])
    else
      var bytesToCopy := Min(len, |pw| - offset);
      if bytesToCopy > 0 && !copyOk then ReadOutcome(-EFAULT, offset, [])
      else ReadOutcome(bytesToCopy, offset + bytesToCopy, pw[offset..offset + bytesToCopy])
  }

  /** The module's global state: the password buffer. */
  class Device {
    var password: array<char>

    ghost predicate Valid()
      reads this
    {
      password.Length == BufferSize && PasswordLen + 1 <= password.Length
    }

    /** The password text that reads serve: the first PasswordLen bytes. */
    ghost function Password(): (s: string)
      reads this, password
      requires Valid()
      ensures |s| == PasswordLen
    {
      password[..PasswordLen]
    }

    /** The buffer in its load-time state: a zero-initialised static array. */
    constructor ()
      ensures Valid() && fresh(password)
      ensures forall k :: 0 <= k < password.Length ==> password[k] == '\0'
    {
      password := new char[BufferSize](_ => '\0');
    }

    /** Overwrites positions 0 .. PasswordLen - 1 with characters selected by
        the draws, writes the terminator at PasswordLen and leaves the rest of
        the buffer as it was. */
    method GeneratePassword(rands: seq<nat>)
      requires Valid()
      requires |rands| == PasswordLen
      modifies password
      ensures Valid()
      ensures Password() == Generated(rands)
      ensures forall k :: 0 <= k < PasswordLen ==> password[k] == CharsetArray[CharsetIndex(rands[k])]
      ensures password[PasswordLen] == '\0'
      ensures forall k :: PasswordLen < k < password.Length ==> password[k] == old(password[k])
    {
      for i := 0 to PasswordLen
        invariant forall k :: 0 <= k < i ==> password[k] == CharsetArray[CharsetIndex(rands[k])]
        invariant forall k :: i <= k < password.Length ==> password[k] == old(password[k])
      {
        password[i] := CharsetArray[CharsetIndex(rands[i])];
      }
      password[PasswordLen] := '\0';
      forall k | 0 <= k < PasswordLen
        ensures Password()[k] == Generated(rands)[k]
      {
        GeneratedAt(rands, k);
      }
    }

    /** Opening the device regenerates the password and always succeeds. */
    method Open(rands: seq<nat>) returns (r: int)
      requires Valid()
      requires |rands| == PasswordLen
      modifies password
      ensures Valid()
      ensures r == 0
      ensures Password() == Generated(rands)
      ensures forall k :: 0 <= k < PasswordLen ==> IsCharsetChar(password[k]) && password[k] != '\0'
      ensures password[PasswordLen] == '\0'
      ensures forall k :: PasswordLen < k < password.Length ==> password[k] == old(password[k])
    {
      GeneratePassword(rands);
      assert forall k :: 0 <= k < PasswordLen ==> password[k] == Password()[k];
      r := 0;
    }

    /** A read of `len` bytes at the caller's `offset`. It returns the read's
        return value, the caller's offset afterwards and the bytes delivered;
        the buffer is not changed. */
    method Read(offset: nat, len: nat, copyOk: bool) returns (result: int, newOffset: nat, copied: string)
      requires Valid()
      ensures ReadOutcome(result, newOffset, copied) == ReadStep(Password(), offset, len, copyOk)
      ensures offset < PasswordLen && result >= 0 ==> copied == password[offset..newOffset]
    {
      if offset >= PasswordLen {
        return 0, offset, [];
      }
      var bytesToCopy := Min(len, PasswordLen - offset);
      if bytesToCopy > 0 && !copyOk {
        return -EFAULT, offset, [];
      }
      copied := password[offset..offset + bytesToCopy];
      newOffset := offset + bytesToCopy;
      result := bytesToCopy;
    }
  }
}
