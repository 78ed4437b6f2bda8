/** The buffered file handle of fs.open (src/interpreter_setup.cpp): a read-ahead buffer
    over a kernel file, which must look like one file with one cursor. */
module FileHandles {
  import opened Wrappers
  import opened Sequences

  newtype byte = b: int | 0 <= b < 256

  const NEWLINE: byte := 10
  const BUFFER_SIZE := 4096

  // ---------------------------------------------------------------------------
  // The reference: an unbuffered file with one cursor
  // ---------------------------------------------------------------------------

  datatype File = File(bytes: seq<byte>, cursor: nat)

  datatype Whence = Start | Current | End

  datatype Error = Closed | BadCount | BadOffset | Kernel
  datatype Result<T> = Success(value: T) | Failure(error: Error)

  function Min(a: int, b: int): (m: int)
    ensures m <= a && m <= b && (m == a || m == b)
  {
    if a <= b then a else b
  }

  /** What is left to read. */
  function Rest(f: File): seq<byte> {
    if f.cursor <= |f.bytes| then f.bytes[f.cursor..] else []
  }

  function Advance(f: File, n: nat): File {
    f.(cursor := f.cursor + n)
  }

  function SpecRead(f: File, n: nat): (File, seq<byte>) {
    var k := Min(n, |Rest(f)|);
    (Advance(f, k), Rest(f)[..k])
  }

  /** The position of the first newline, or the length if there is none. */
  function LineLength(s: seq<byte>): (n: nat)
    ensures n <= |s|
    ensures NEWLINE !in s[..n]
    ensures n < |s| ==> s[n] == NEWLINE
  {
    if s == [] || s[0] == NEWLINE then 0
    else
      var n := LineLength(s[1..]);
      assert s[..n + 1] == [s[0]] + s[1..][..n];
      n + 1
  }

  /** The next line without its newline; None at the end of the file. */
  function SpecReadLine(f: File): (File, Option<seq<byte>>) {
    var s := Rest(f);
    var n := LineLength(s);
    if n < |s| then (Advance(f, n + 1), Some(s[..n]))
    else (Advance(f, n), if n == 0 then None else Some(s))
  }

  function Zeros(n: nat): seq<byte> {
    seq(n, _ => 0)
  }

  /** The contents after `data` is stored at `at`; a gap past the end reads as zeros. */
  function Overwrite(bytes: seq<byte>, at: nat, data: seq<byte>): seq<byte> {
    if data == [] then bytes
    else
      (if at <= |bytes| then bytes[..at] else bytes + Zeros(at - |bytes|))
      + data
      + (if at + |data| <= |bytes| then bytes[at + |data|..] else [])
  }

  function SpecWrite(f: File, data: seq<byte>): File {
    File(Overwrite(f.bytes, f.cursor, data), f.cursor + |data|)
  }

  function SeekTarget(f: File, offset: int, whence: Whence): int {
    offset + (match whence case Start => 0 case Current => f.cursor as int case End => |f.bytes|)
  }

  function SpecSeek(f: File, offset: int, whence: Whence): (File, Result<int>) {
    var t := SeekTarget(f, offset, whence);
    if t < 0 then (f, Failure(Kernel)) else (f.(cursor := t), Success(t))
  }

  function Max(a: int, b: int): int {
    if a <= b then b else a
  }

  /** The byte at `i` after a store. */
  lemma Stored(bytes: seq<byte>, at: nat, data: seq<byte>, i: nat)
    requires data != []
    ensures |Overwrite(bytes, at, data)| == Max(|bytes|, at + |data|)
    ensures i < |Overwrite(bytes, at, data)| ==>
              Overwrite(bytes, at, data)[i] ==
              if at <= i < at + |data| then data[i - at] else if i < |bytes| then bytes[i] else 0
  {
  }

  /** Two consecutive stores are one store of the concatenation. */
  lemma OverwriteTwice(bytes: seq<byte>, at: nat, d1: seq<byte>, d2: seq<byte>)
    ensures Overwrite(Overwrite(bytes, at, d1), at + |d1|, d2) == Overwrite(bytes, at, d1 + d2)
  {
    if d1 == [] {
      assert d1 + d2 == d2;
    } else if d2 == [] {
      assert d1 + d2 == d1;
    } else {
      StoredTwice(bytes, at, d1, d2);
    }
  }

  lemma StoredTwice(bytes: seq<byte>, at: nat, d1: seq<byte>, d2: seq<byte>)
    requires d1 != [] && d2 != []
    ensures Overwrite(Overwrite(bytes, at, d1), at + |d1|, d2) == Overwrite(bytes, at, d1 + d2)
  {
    var once := Overwrite(bytes, at, d1);
    var lhs, rhs := Overwrite(once, at + |d1|, d2), Overwrite(bytes, at, d1 + d2);
    forall i: nat
      ensures |lhs| == |rhs| && (i < |lhs| ==> lhs[i] == rhs[i])
    {
      StoredTwiceAt(bytes, at, d1, d2, i);
    }
  }

  lemma StoredTwiceAt(bytes: seq<byte>, at: nat, d1: seq<byte>, d2: seq<byte>, i: nat)
    requires d1 != [] && d2 != []
    ensures var lhs := Overwrite(Overwrite(bytes, at, d1), at + |d1|, d2);
            var rhs := Overwrite(bytes, at, d1 + d2);
            |lhs| == |rhs| && (i < |lhs| ==> lhs[i] == rhs[i])
  {
    Stored(bytes, at, d1, i);
    Stored(Overwrite(bytes, at, d1), at + |d1|, d2, i);
    Stored(bytes, at, d1 + d2, i);
  }

  // ---------------------------------------------------------------------------
  // What the reference promises a program
  // ---------------------------------------------------------------------------

  lemma RestAdvanced(f: File, k: nat)
    requires k <= |Rest(f)|
    ensures Rest(Advance(f, k)) == Rest(f)[k..]
  {
  }

  /** Two reads are one read of both lengths. */
  lemma ReadsJoin(f: File, m: nat, n: nat)
    ensures var (f1, a) := SpecRead(f, m);
            var (f2, b) := SpecRead(f1, n);
            SpecRead(f, m + n) == (f2, a + b)
  {
    var rest := Rest(f);
    var k := Min(m, |rest|);
    RestAdvanced(f, k);
    var j := Min(n, |rest| - k);
    assert Min(m + n, |rest|) == k + j;
    assert rest[..k + j] == rest[..k] + rest[k..][..j];
  }

  /** The bytes written are read back from where they were written, and no others changed. */
  lemma WrittenIsRead(f: File, data: seq<byte>)
    requires data != []
    ensures var f' := SpecWrite(f, data);
            && f'.cursor == f.cursor + |data|
            && SpecRead(f'.(cursor := f.cursor), |data|) == (f', data)
            && |f'.bytes| == Max(|f.bytes|, f.cursor + |data|)
    ensures forall i: nat | i < |SpecWrite(f, data).bytes| && !(f.cursor <= i < f.cursor + |data|) ::
              SpecWrite(f, data).bytes[i] == if i < |f.bytes| then f.bytes[i] else 0
  {
    var f' := SpecWrite(f, data);
    Stored(f.bytes, f.cursor, data, 0);
    forall i: nat | i < |f'.bytes|
      ensures f'.bytes[i] == if f.cursor <= i < f.cursor + |data| then data[i - f.cursor]
                             else if i < |f.bytes| then f.bytes[i] else 0
    {
      Stored(f.bytes, f.cursor, data, i);
    }
    assert f'.bytes[f.cursor..f.cursor + |data|] == data;
    assert Rest(f'.(cursor := f.cursor))[..|data|] == f'.bytes[f.cursor..f.cursor + |data|];
  }

  /** A seek to the start makes everything readable, one to the end makes writes append, and
      one back by what was read undoes the read. */
  lemma SeeksMove(f: File, data: seq<byte>, n: nat)
    ensures SpecSeek(f, 0, Start).1 == Success(0) && Rest(SpecSeek(f, 0, Start).0) == f.bytes
    ensures SpecSeek(f, 0, End).1 == Success(|f.bytes|)
    ensures SpecWrite(SpecSeek(f, 0, End).0, data).bytes == f.bytes + data
    ensures var (f', out) := SpecRead(f, n);
            SpecSeek(f', -|out|, Current).0 == f && SpecSeek(f', -|out|, Current).1 == Success(f.cursor as int)
    ensures n > f.cursor ==> SpecSeek(f, -(n as int), Current) == (f, Failure(Kernel))
  {
  }

  /** The lines readLine returns one after the other, until it returns nil. */
  ghost function AllLines(f: File): seq<seq<byte>>
    decreases |Rest(f)|
  {
    var (f', line) := SpecReadLine(f);
    if line.None? then [] else [line.value] + AllLines(f')
  }

  function Text(lines: seq<seq<byte>>): seq<byte> {
    if lines == [] then [] else lines[0] + [NEWLINE] + Text(lines[1..])
  }

  /** The line that is read is what is left up to the first newline. */
  lemma FirstLine(f: File)
    ensures var (f', line) := SpecReadLine(f);
            && f'.bytes == f.bytes
            && (line.None? <==> Rest(f) == [])
            && (line.Some? ==>
                  NEWLINE !in line.value && |Rest(f')| < |Rest(f)| &&
                  (Rest(f) == line.value + [NEWLINE] + Rest(f') || (Rest(f) == line.value && Rest(f') == [])))
  {
    var rest := Rest(f);
    var n := LineLength(rest);
    if n < |rest| {
      RestAdvanced(f, n + 1);
      assert rest == rest[..n] + [rest[n]] + rest[n + 1..];
    } else {
      RestAdvanced(f, n);
      assert rest[..n] == rest && rest[n..] == [];
    }
  }

  ghost function Ended(rest: seq<byte>): seq<byte> {
    if rest == [] || rest[|rest| - 1] == NEWLINE then rest else rest + [NEWLINE]
  }

  /** No line holds a newline, and the lines with a newline behind each are what was left of
      the file, up to a missing newline at its end. */
  lemma {:induction false} LinesAreTheRest(f: File)
    ensures Text(AllLines(f)) == Ended(Rest(f)) && forall l | l in AllLines(f) :: NEWLINE !in l
    decreases |Rest(f)|
  {
    FirstLine(f);
    var (f', line) := SpecReadLine(f);
    if line.Some? {
      LinesAreTheRest(f');
      assert AllLines(f) == [line.value] + AllLines(f');
      TextFirst(line.value, AllLines(f'));
      EndedFirst(line.value, Rest(f'));
    }
  }

  lemma TextFirst(line: seq<byte>, lines: seq<seq<byte>>)
    ensures Text([line] + lines) == line + [NEWLINE] + Text(lines)
  {
    assert ([line] + lines)[1..] == lines;
  }

  lemma EndedFirst(line: seq<byte>, rest: seq<byte>)
    ensures Ended(line + [NEWLINE] + rest) == line + [NEWLINE] + Ended(rest)
    ensures line != [] && NEWLINE !in line ==> Ended(line) == line + [NEWLINE] + Ended([])
  {
    var all := line + [NEWLINE] + rest;
    if rest == [] {
      assert all[|all| - 1] == NEWLINE && all == line + [NEWLINE];
    } else {
      assert all[|all| - 1] == rest[|rest| - 1];
      Regrouped(line + [NEWLINE], rest, [NEWLINE]);
    }
    if line != [] { assert line[|line| - 1] in line; }
  }

  // ---------------------------------------------------------------------------
  // The kernel file
  // ---------------------------------------------------------------------------

  /** An open file description. Reads and writes may transfer fewer bytes than asked for,
      and may fail, unless `whole`; a call interrupted by a signal transfers nothing and is
      not modelled. `failures` counts the calls that failed. */
  class KernelFile {
    const whole: bool
    var bytes: seq<byte>
    var offset: nat
    ghost var failures: nat

    constructor (contents: seq<byte>, whole: bool)
      ensures bytes == contents && offset == 0 && this.whole == whole && failures == 0
    {
      bytes, offset, this.whole, failures := contents, 0, whole, 0;
    }

    /** read(2): at least one byte unless at the end or none was asked for. */
    method Read(max: nat) returns (ok: bool, data: seq<byte>)
      modifies this`offset, this`failures
      ensures failures == old(failures) + if ok then 0 else 1
      ensures offset == old(offset) + |data| && |data| <= max
      ensures ok ==> (data == [] <==> max == 0 || old(offset) >= |bytes|)
      ensures data != [] ==> offset <= |bytes| && data == bytes[old(offset)..offset]
      ensures !ok ==> data == []
      ensures whole ==> ok && (data == [] || |data| == Min(max, |bytes| - old(offset)))
    {
      ok, data := true, [];
      var fails: bool := *;
      if fails && !whole {
        failures := failures + 1;
        return false, [];
      }
      if max > 0 && offset < |bytes| {
        var most := Min(max, |bytes| - offset);
        var n: nat :| 1 <= n <= most;
        if whole { n := most; }
        data := bytes[offset..offset + n];
        offset := offset + n;
      }
    }

    /** write(2): stores a non-empty prefix at the offset. */
    method Write(data: seq<byte>) returns (ok: bool, n: nat)
      requires data != []
      modifies this
      ensures failures == old(failures) + if ok then 0 else 1
      ensures ok ==> 1 <= n <= |data|
      ensures !ok ==> n == 0
      ensures whole ==> ok
      ensures File(bytes, offset) == SpecWrite(File(old(bytes), old(offset)), data[..n])
    {
      var fails: bool := *;
      if fails && !whole {
        failures := failures + 1;
        return false, 0;
      }
      ok := true;
      n :| 1 <= n <= |data|;
      bytes := Overwrite(bytes, offset, data[..n]);
      offset := offset + n;
    }

    /** lseek(2). */
    method Lseek(off: int, whence: Whence) returns (r: int)
      modifies this`offset
      ensures var t := SeekTarget(File(bytes, old(offset)), off, whence);
              if t < 0 then r == -1 && offset == old(offset) else r == t == offset
    {
      var t := SeekTarget(File(bytes, offset), off, whence);
      if t < 0 { return -1; }
      offset := t;
      r := t;
    }
  }

  // ---------------------------------------------------------------------------
  // The handle
  // ---------------------------------------------------------------------------

  class FileHandle {
    const kernel: KernelFile
    var closed: bool
    var readBuf: array<byte>
    var readBufPos: nat
    var readBufEnd: nat
    var atEOF: bool

    /** The buffer holds the bytes just before the kernel offset; nothing follows the
        offset once the end has been seen. */
    ghost predicate Valid()
      reads this, kernel, readBuf
    {
      && readBufPos <= readBufEnd <= readBuf.Length && (readBuf.Length == 0 || readBuf.Length == BUFFER_SIZE)
      && Buffered() <= kernel.offset
      && (Buffered() > 0 ==>
            kernel.offset <= |kernel.bytes| &&
            readBuf[readBufPos..readBufEnd] == kernel.bytes[kernel.offset - Buffered()..kernel.offset])
      && (atEOF ==> kernel.offset >= |kernel.bytes|)
    }

    function Buffered(): int
      reads this
    {
      readBufEnd - readBufPos
    }

    /** The file the user sees: the cursor is behind the kernel's by what is buffered. */
    ghost function Abs(): File
      requires Valid()
      reads this, kernel, readBuf
    {
      File(kernel.bytes, kernel.offset - Buffered())
    }

    /** Each read from the kernel gets everything up to the end of the file. */
    ghost predicate ReadsAll()
      reads this, kernel
    {
      kernel.whole && |kernel.bytes| <= BUFFER_SIZE
    }

    constructor (k: KernelFile)
      ensures Valid() && kernel == k && !closed && fresh(readBuf) && readBuf.Length == 0
      ensures Abs() == File(k.bytes, k.offset)
    {
      kernel := k;
      closed, readBufPos, readBufEnd, atEOF := false, 0, 0, false;
      readBuf := new byte[0];
    }

    /** A kernel call has failed, once, if and only if `failed`; on a `whole` kernel none has. */
    twostate predicate FailedOnce(failed: bool)
      reads this, kernel
    {
      kernel.failures == old(kernel.failures) + (if failed then 1 else 0) && (kernel.whole ==> !failed)
    }

    method Close()
      requires Valid()
      modifies this`closed
      ensures Valid() && closed && Abs() == old(Abs())
    {
      closed := true;
    }

    /** Pulls one chunk into the empty buffer. */
    method RefillReadBuf() returns (r: Result<bool>)
      requires Valid() && Buffered() == 0
      modifies this`readBuf, this`readBufPos, this`readBufEnd, this`atEOF, readBuf
      modifies kernel`offset, kernel`failures
      ensures Valid() && Abs() == old(Abs()) && (readBuf == old(readBuf) || fresh(readBuf))
      ensures FailedOnce(r.Failure?)
      ensures r.Success? ==> r.value == (Rest(Abs()) != [])
      ensures r.Success? ==> if r.value then Buffered() > 0 else Buffered() == 0 && atEOF
      ensures ReadsAll() ==> r.Success? && kernel.offset >= |kernel.bytes|
    {
      if atEOF { return Success(false); }
      if readBuf.Length == 0 {
        readBuf := new byte[BUFFER_SIZE](_ => 0);
        readBufPos, readBufEnd := 0, 0;
      }
      var ok, data := kernel.Read(readBuf.Length);
      if !ok { return Failure(Kernel); }
      if |data| == 0 {
        atEOF := true;
        return Success(false);
      }
      StoreChunk(data);
      r := Success(true);
    }

    method StoreChunk(data: seq<byte>)
      requires |data| <= readBuf.Length
      modifies this`readBufPos, this`readBufEnd, readBuf
      ensures readBufPos == 0 && readBufEnd == |data| && readBuf[0..|data|] == data
    {
      forall i | 0 <= i < |data| { readBuf[i] := data[i]; }
      readBufPos, readBufEnd := 0, |data|;
    }

    /** Puts the kernel offset back to the user's cursor and forgets the buffer. */
    method SyncBeforeWrite()
      requires Valid()
      modifies this`readBufPos, this`readBufEnd, this`atEOF, kernel`offset
      ensures Valid() && Abs() == old(Abs()) && Buffered() == 0 && !atEOF
      ensures kernel.offset == old(Abs()).cursor
    {
      if readBufPos < readBufEnd {
        var _ := kernel.Lseek(-Buffered(), Current);
      }
      readBufPos, readBufEnd := 0, 0;
      atEOF := false;
    }

    /** Up to `want` bytes out of the buffer. */
    method TakeBuffered(want: nat) returns (out: seq<byte>)
      requires Valid() && Buffered() > 0
      modifies this`readBufPos
      ensures Valid() && Abs() == Advance(old(Abs()), |out|)
      ensures |out| <= want && (|out| < want ==> Buffered() == 0)
      ensures |out| <= |Rest(old(Abs()))| && out == Rest(old(Abs()))[..|out|]
    {
      ghost var was := readBuf[readBufPos..readBufEnd];
      ghost var rest := Rest(Abs());
      FirstOfRest(Abs(), Buffered());
      assert rest[..Buffered()] == was;
      var take := Min(want, Buffered());
      out := readBuf[readBufPos..readBufPos + take];
      readBufPos := readBufPos + take;
      assert out == was[..take] == rest[..take];
      assert readBuf[readBufPos..readBufEnd] == was[take..];
    }

    /** The next byte out of the buffer. */
    method NextBuffered() returns (c: byte)
      requires Valid() && Buffered() > 0
      modifies this`readBufPos
      ensures Valid() && Abs() == Advance(old(Abs()), 1) && Buffered() == old(Buffered()) - 1
      ensures Rest(old(Abs())) == [c] + Rest(Abs())
    {
      ghost var was := readBuf[readBufPos..readBufEnd];
      c := readBuf[readBufPos];
      assert was[0] == c;
      readBufPos := readBufPos + 1;
      assert readBuf[readBufPos..readBufEnd] == was[1..];
    }

    /** FileHandle.read. It fails when a kernel call does, and then drops what it had
        already taken. */
    method Read(n: int) returns (r: Result<seq<byte>>)
      requires Valid()
      modifies this`readBufPos, this`atEOF, kernel`offset, kernel`failures
      ensures Valid() && kernel.bytes == old(kernel.bytes)
      ensures closed ==> r == Failure(Closed) && Abs() == old(Abs())
      ensures !closed && n < 0 ==> r == Failure(BadCount) && Abs() == old(Abs())
      ensures r.Success? ==> n >= 0 && (Abs(), r.value) == SpecRead(old(Abs()), n)
      ensures FailedOnce(!closed && n >= 0 && r == Failure(Kernel))
      ensures !closed && n >= 0 && r.Failure? ==>
                r == Failure(Kernel) && exists k | 0 <= k <= n :: Abs() == Advance(old(Abs()), k)
      ensures Buffered() <= old(Buffered())
    {
      if closed { return Failure(Closed); }
      if n < 0 { return Failure(BadCount); }
      if n == 0 { return Success([]); }
      ghost var f := Abs();
      var want: nat := n;
      var out := [];
      if readBufPos < readBufEnd {
        out := TakeBuffered(want);
        want := want - |out|;
      }
      r := ReadRest(f, out, want);
    }

    /** The loop of read, past the buffer. */
    method ReadRest(ghost f: File, taken: seq<byte>, left: nat) returns (r: Result<seq<byte>>)
      requires Valid() && (left > 0 ==> Buffered() == 0)
      requires |taken| <= |Rest(f)| && taken == Rest(f)[..|taken|] && Abs() == Advance(f, |taken|)
      modifies this`atEOF, kernel`offset, kernel`failures
      ensures Valid() && kernel.bytes == old(kernel.bytes) && Buffered() == old(Buffered())
      ensures r.Success? ==> (Abs(), r.value) == SpecRead(f, |taken| + left)
      ensures FailedOnce(r.Failure?) && (r.Failure? ==> r == Failure(Kernel))
      ensures r.Failure? ==> exists k | 0 <= k <= |taken| + left :: Abs() == Advance(f, k)
    {
      var out, want: nat := taken, left;
      while want > 0 && !atEOF
        invariant Valid() && kernel.bytes == old(kernel.bytes)
        invariant want + |out| == |taken| + left && (want > 0 ==> Buffered() == 0) && Buffered() == old(Buffered())
        invariant |out| <= |Rest(f)| && out == Rest(f)[..|out|]
        invariant Abs() == Advance(f, |out|) && FailedOnce(false)
        decreases want, !atEOF
      {
        var chunk := Min(want, 4096);
        var ok, tmp := kernel.Read(chunk);
        if !ok {
          assert 0 <= |out| <= |taken| + left && Abs() == Advance(f, |out|);
          return Failure(Kernel);
        }
        if |tmp| == 0 {
          atEOF := true;
          break;
        }
        ReadOn(f, out, tmp, kernel.offset);
        out := out + tmp;
        want := want - |tmp|;
      }
      r := Success(out);
    }

    /** FileHandle.readLine. */
    method ReadLine() returns (r: Result<Option<seq<byte>>>)
      requires Valid()
      modifies this`readBuf, this`readBufPos, this`readBufEnd, this`atEOF, readBuf
      modifies kernel`offset, kernel`failures
      ensures Valid() && (readBuf == old(readBuf) || fresh(readBuf))
      ensures kernel.bytes == old(kernel.bytes)
      ensures closed ==> r == Failure(Closed) && Abs() == old(Abs())
      ensures r.Success? ==> (Abs(), r.value) == SpecReadLine(old(Abs()))
      ensures FailedOnce(!closed && r == Failure(Kernel))
      ensures !closed && r.Failure? ==>
                r == Failure(Kernel) &&
                exists k | 0 <= k <= |Rest(old(Abs()))| :: Abs() == Advance(old(Abs()), k)
      ensures ReadsAll() && !closed && old(Buffered()) == 0 ==> r.Success? && kernel.offset >= |kernel.bytes|
    {
      if closed { return Failure(Closed); }
      ghost var f := Abs();
      var line := [];
      while true
        invariant ReadsAll() && old(Buffered()) == 0 ==> Buffered() == 0 || kernel.offset >= |kernel.bytes|
        invariant Valid() && (readBuf == old(readBuf) || fresh(readBuf))
        invariant kernel.bytes == old(kernel.bytes)
        invariant Abs() == Advance(f, |line|) && LineSoFar(f, line) && FailedOnce(false)
        decreases |Rest(f)| - |line|, Buffered() == 0
      {
        var complete: bool;
        line, complete := ScanBuffer(f, line);
        if complete { return Success(Some(line)); }
        var more := RefillReadBuf();
        if more.Failure? { return Failure(Kernel); }
        if !more.value {
          LastInLine(f, line);
          return Success(if line == [] then None else Some(line));
        }
        RestAfter(f, line);
      }
    }

    /** The inner loop of readLine: takes buffered bytes up to a newline. */
    method ScanBuffer(ghost f: File, from: seq<byte>) returns (line: seq<byte>, complete: bool)
      requires Valid() && Abs() == Advance(f, |from|) && LineSoFar(f, from)
      modifies this`readBufPos
      ensures Valid()
      ensures complete ==> (Abs(), Some(line)) == SpecReadLine(f) && old(Buffered()) > 0
      ensures !complete ==>
                Abs() == Advance(f, |line|) && LineSoFar(f, line) &&
                Buffered() == 0 && |line| == |from| + old(Buffered())
    {
      line, complete := from, false;
      while readBufPos < readBufEnd
        invariant Valid()
        invariant Abs() == Advance(f, |line|) && LineSoFar(f, line)
        invariant |line| + Buffered() == |from| + old(Buffered()) && !complete
        decreases readBufEnd - readBufPos
      {
        line, complete := TakeOne(f, line);
        if complete { return; }
      }
    }

    method TakeOne(ghost f: File, from: seq<byte>) returns (line: seq<byte>, complete: bool)
      requires Valid() && Abs() == Advance(f, |from|) && LineSoFar(f, from) && Buffered() > 0
      modifies this`readBufPos
      ensures Valid() && Buffered() == old(Buffered()) - 1
      ensures complete ==> (Abs(), Some(line)) == SpecReadLine(f)
      ensures !complete ==>
                |line| == |from| + 1 && Abs() == Advance(f, |line|) && LineSoFar(f, line)
    {
      var c := NextBuffered();
      assert Abs() == Advance(f, |from| + 1);
      NextInLine(f, from, c);
      complete := c == NEWLINE;
      line := if complete then from else from + [c];
    }

    /** FileHandle.write. A failed write has stored a prefix. */
    method Write(data: seq<byte>) returns (r: Result<nat>)
      requires Valid()
      modifies this`readBufPos, this`readBufEnd, this`atEOF, kernel
      ensures Valid()
      ensures closed ==> r == Failure(Closed) && Abs() == old(Abs())
      ensures FailedOnce(!closed && r == Failure(Kernel)) && (!closed && r.Failure? ==> r == Failure(Kernel))
      ensures r.Success? ==> r.value == |data| && Abs() == SpecWrite(old(Abs()), data) && Buffered() == 0
      ensures r.Failure? ==> exists k | 0 <= k <= |data| :: Abs() == SpecWrite(old(Abs()), data[..k])
    {
      if closed {
        assert Abs() == SpecWrite(old(Abs()), data[..0]);
        return Failure(Closed);
      }
      SyncBeforeWrite();
      var p := WriteAll(data);
      if p < |data| { return Failure(Kernel); }
      assert data[..p] == data;
      r := Success(|data|);
    }

    /** The loop over short writes; stops early when one fails. */
    method WriteAll(data: seq<byte>) returns (p: nat)
      requires Valid() && Buffered() == 0 && !atEOF
      modifies kernel
      ensures Valid() && p <= |data| && Abs() == SpecWrite(old(Abs()), data[..p])
      ensures FailedOnce(p < |data|)
    {
      ghost var f := Abs();
      p := 0;
      while p < |data|
        invariant p <= |data| && Valid() && Buffered() == 0 && !atEOF
        invariant Abs() == SpecWrite(f, data[..p]) && FailedOnce(false)
      {
        var n := WriteSome(data[p..]);
        if n == 0 { return; }
        WriteOn(f, data, p, n);
        p := p + n;
      }
    }

    method WriteSome(rest: seq<byte>) returns (n: nat)
      requires Valid() && Buffered() == 0 && !atEOF && rest != []
      modifies kernel
      ensures Valid() && n <= |rest|
      ensures FailedOnce(n == 0)
      ensures n == 0 ==> Abs() == old(Abs())
      ensures n > 0 ==> Abs() == SpecWrite(old(Abs()), rest[..n])
    {
      var ok, k := kernel.Write(rest);
      n := k;
    }

    /** FileHandle.seek. The buffer is dropped before the kernel is asked, so a seek from
        the current position starts behind what was read ahead, and so does the cursor
        after a seek that fails. */
    method Seek(offset: int, whence: Whence) returns (r: Result<int>)
      requires Valid()
      modifies this`readBufPos, this`readBufEnd, this`atEOF, kernel`offset
      ensures Valid() && kernel.bytes == old(kernel.bytes)
      ensures closed ==> r == Failure(Closed) && Abs() == old(Abs())
      ensures !closed ==>
                (Abs(), r) == SpecSeek(Advance(old(Abs()), old(Buffered())), offset, whence) && Buffered() == 0
    {
      if closed { return Failure(Closed); }
      readBufPos, readBufEnd := 0, 0;
      atEOF := false;
      var t := kernel.Lseek(offset, whence);
      if t < 0 { return Failure(Kernel); }
      r := Success(t);
    }

    /** FileHandle.tell. */
    method Tell() returns (r: Result<int>)
      requires Valid()
      modifies kernel`offset
      ensures Valid() && Abs() == old(Abs())
      ensures r == if closed then Failure(Closed) else Success(Abs().cursor)
    {
      if closed { return Failure(Closed); }
      var t := kernel.Lseek(0, Current);
      r := Success(t - Buffered());
    }
  }

  // ---------------------------------------------------------------------------
  // When a seek does what an unbuffered seek would do
  // ---------------------------------------------------------------------------

  /** A seek with `ahead` bytes read ahead behaves as the unbuffered one exactly when
      nothing is read ahead, or it is a seek from the start or the end to a valid place. */
  lemma SeekAgrees(f: File, ahead: nat, offset: int, whence: Whence)
    ensures SpecSeek(Advance(f, ahead), offset, whence) == SpecSeek(f, offset, whence)
       <==> ahead == 0 || (whence != Current && SeekTarget(f, offset, whence) >= 0)
  {
  }

  /** Writing on from where a short write stopped. */
  lemma WriteOn(f: File, data: seq<byte>, p: nat, n: nat)
    requires p + n <= |data|
    ensures SpecWrite(SpecWrite(f, data[..p]), data[p..][..n]) == SpecWrite(f, data[..p + n])
  {
    OverwriteTwice(f.bytes, f.cursor, data[..p], data[p..][..n]);
    assert data[..p + n] == data[..p] + data[p..][..n];
  }

  // ---------------------------------------------------------------------------
  // Lines
  // ---------------------------------------------------------------------------

  lemma {:induction false} LineLengthIs(s: seq<byte>, n: nat)
    requires n <= |s| && NEWLINE !in s[..n] && (n < |s| ==> s[n] == NEWLINE)
    ensures LineLength(s) == n
  {
    if n > 0 {
      assert s[..n][0] == s[0] && s[1..][..n - 1] == s[..n][1..];
      LineLengthIs(s[1..], n - 1);
    }
  }

  /** `line` is what the reader has taken of the line at `f`'s cursor. */
  ghost predicate LineSoFar(f: File, line: seq<byte>) {
    line <= Rest(f) && NEWLINE !in line
  }

  lemma FirstOfRest(f: File, n: nat)
    requires f.cursor + n <= |f.bytes|
    ensures n <= |Rest(f)| && Rest(f)[..n] == f.bytes[f.cursor..f.cursor + n]
  {
  }

  lemma RestAfter(f: File, line: seq<byte>)
    requires line <= Rest(f)
    ensures Rest(f) == line + Rest(Advance(f, |line|))
  {
  }

  lemma NextInLine(f: File, line: seq<byte>, c: byte)
    requires LineSoFar(f, line)
    requires Rest(Advance(f, |line|)) == [c] + Rest(Advance(f, |line| + 1))
    ensures c == NEWLINE ==> SpecReadLine(f) == (Advance(f, |line| + 1), Some(line))
    ensures c != NEWLINE ==> LineSoFar(f, line + [c])
  {
    RestAfter(f, line);
    assert Rest(f)[..|line|] == line && Rest(f)[|line|] == c;
    if c == NEWLINE { LineLengthIs(Rest(f), |line|); }
  }

  lemma LastInLine(f: File, line: seq<byte>)
    requires LineSoFar(f, line) && Rest(Advance(f, |line|)) == []
    ensures SpecReadLine(f) == (Advance(f, |line|), if line == [] then None else Some(line))
  {
    RestAfter(f, line);
    assert Rest(f)[..|line|] == line == Rest(f);
    LineLengthIs(Rest(f), |line|);
  }

  /** A chunk that continues what has been read. */
  lemma ReadOn(f: File, out: seq<byte>, tmp: seq<byte>, offset: nat)
    requires |out| <= |Rest(f)| && out == Rest(f)[..|out|]
    requires tmp != [] && f.cursor + |out| + |tmp| == offset <= |f.bytes|
    requires tmp == f.bytes[f.cursor + |out|..offset]
    ensures |out + tmp| <= |Rest(f)| && out + tmp == Rest(f)[..|out + tmp|]
  {
  }

  // ---------------------------------------------------------------------------
  // Whole runs
  // ---------------------------------------------------------------------------

  datatype Op =
    | OpRead(n: nat)
    | OpReadLine
    | OpWrite(data: seq<byte>)
    | OpTell
    | OpSeek(offset: int, whence: Whence)

  datatype Out =
    | Bytes(bytes: seq<byte>)
    | Line(line: Option<seq<byte>>)
    | Number(n: int)
    | Failed

  function SpecStep(f: File, op: Op): (File, Out) {
    match op
    case OpRead(n) => var (f', b) := SpecRead(f, n); (f', Bytes(b))
    case OpReadLine => var (f', l) := SpecReadLine(f); (f', Line(l))
    case OpWrite(d) => (SpecWrite(f, d), Number(|d|))
    case OpTell => (f, Number(f.cursor))
    case OpSeek(o, w) =>
      var (f', r) := SpecSeek(f, o, w); (f', if r.Success? then Number(r.value) else Failed)
  }

  ghost function SpecRun(f: File, ops: seq<Op>): (File, seq<Out>) {
    if ops == [] then (f, [])
    else
      var (f1, outs) := SpecRun(f, ops[..|ops| - 1]);
      var (f2, out) := SpecStep(f1, ops[|ops| - 1]);
      (f2, outs + [out])
  }

  /** A seek at `f` agrees with the unbuffered one, `ahead` bytes having been read ahead. */
  ghost predicate Agrees(f: File, ahead: nat, op: Op) {
    op.OpSeek? && ahead > 0 ==> op.whence != Current && SeekTarget(f, op.offset, op.whence) >= 0
  }

  ghost predicate AllAgree(f: File, ops: seq<Op>, ahead: seq<nat>)
    requires |ahead| <= |ops|
  {
    forall i | 0 <= i < |ahead| :: Agrees(SpecRun(f, ops[..i]).0, ahead[i], ops[i])
  }

  /** Bytes may have been read ahead: a line has been read since the last write or seek. */
  predicate MayBeAhead(ops: seq<Op>, start: bool) {
    if ops == [] then start
    else
      match ops[|ops| - 1]
      case OpReadLine => true
      case OpWrite(_) => false
      case OpSeek(_, _) => false
      case _ => MayBeAhead(ops[..|ops| - 1], start)
  }

  /** A seek that follows the reading of a line, with neither write nor other seek between
      them, is from the start or the end, to a valid place. */
  ghost predicate Seekable(f: File, ops: seq<Op>, start: bool) {
    forall i | 0 <= i < |ops| && ops[i].OpSeek? && MayBeAhead(ops[..i], start) ::
      ops[i].whence != Current && SeekTarget(SpecRun(f, ops[..i]).0, ops[i].offset, ops[i].whence) >= 0
  }

  /** Any run of operations on an open handle answers as the unbuffered file does, and
      leaves the same bytes and cursor, whatever short reads and writes the kernel makes,
      as long as its seeks agree; a run that meets a kernel error agrees up to that point.
      `ahead` tells how many bytes were buffered before each operation. */
  method Run(h: FileHandle, ops: seq<Op>) returns (outs: seq<Out>, ok: bool, ghost ahead: seq<nat>)
    requires h.Valid() && !h.closed
    modifies h, h.readBuf, h.kernel
    ensures h.Valid() && |outs| <= |ops| && |ahead| == |outs|
    ensures ok ==> |outs| == |ops|
    ensures ok <==> h.kernel.failures == old(h.kernel.failures)
    ensures h.kernel.whole ==> ok
    ensures AllAgree(old(h.Abs()), ops, ahead) || Seekable(old(h.Abs()), ops, old(h.Buffered() > 0)) ==>
              && outs == SpecRun(old(h.Abs()), ops[..|outs|]).1
              && (ok ==> h.Abs() == SpecRun(old(h.Abs()), ops).0)
    ensures forall i | 0 <= i < |ahead| && ahead[i] > 0 :: MayBeAhead(ops[..i], old(h.Buffered() > 0))
  {
    outs, ok, ahead := [], true, [];
    ghost var f0, start := h.Abs(), h.Buffered() > 0;
    for i := 0 to |ops|
      invariant h.Valid() && !h.closed && (h.readBuf == old(h.readBuf) || fresh(h.readBuf))
      invariant |outs| == i && ok && h.FailedOnce(false)
      invariant Running(ops, start, ahead, outs, h.Buffered()) && Answers(f0, ops, ahead, h.Abs(), outs)
    {
      ghost var f, b := h.Abs(), h.Buffered();
      RunStops(f0, ops, start, ahead, outs, f, b);
      var out, stepped := RunOne(h, ops[i]);
      if !stepped { return outs, false, ahead; }
      RunSteps(ops, start, ahead, outs, b, h.Buffered(), out);
      StepAgrees(f0, ops, ahead, outs, f, b, h.Abs(), out);
      outs, ahead := outs + [out], ahead + [b];
    }
    RunStops(f0, ops, start, ahead, outs, h.Abs(), h.Buffered());
    assert ops[..|ops|] == ops;
  }

  /** What the loop keeps, after |outs| operations. */
  ghost predicate Running(ops: seq<Op>, start: bool, ahead: seq<nat>, outs: seq<Out>, b: nat) {
    && |outs| == |ahead| <= |ops| && AheadWhen(ops, start, ahead)
    && (b > 0 ==> MayBeAhead(ops[..|ahead|], start))
  }

  /** If the seeks have agreed, the run has answered as the unbuffered file does. */
  ghost predicate Answers(f0: File, ops: seq<Op>, ahead: seq<nat>, f: File, outs: seq<Out>)
    requires |ahead| <= |ops|
  {
    AllAgree(f0, ops, ahead) ==> RanTo(f0, ops, |ahead|, f, outs)
  }

  lemma RunStops(f0: File, ops: seq<Op>, start: bool, ahead: seq<nat>, outs: seq<Out>, f: File, b: nat)
    requires Running(ops, start, ahead, outs, b) && Answers(f0, ops, ahead, f, outs)
    ensures AllAgree(f0, ops, ahead) || Seekable(f0, ops, start) ==> SpecRun(f0, ops[..|outs|]) == (f, outs)
    ensures forall i | 0 <= i < |ahead| && ahead[i] > 0 :: MayBeAhead(ops[..i], start)
  {
    SeekableAgrees(f0, ops, start, ahead);
  }

  lemma RunSteps(ops: seq<Op>, start: bool, ahead: seq<nat>, outs: seq<Out>, b: nat, b': nat, out: Out)
    requires Running(ops, start, ahead, outs, b) && |ahead| < |ops|
    requires var op := ops[|ahead|]; b' > 0 ==> op.OpReadLine? || (!op.OpWrite? && !op.OpSeek? && b > 0)
    ensures Running(ops, start, ahead + [b], outs + [out], b')
  {
    assert |ahead + [b]| == |ahead| + 1;
    AheadOneMore(ops, start, ahead, b);
    BufferedAfter(ops, |ahead|, start, b, b');
  }

  ghost predicate AheadWhen(ops: seq<Op>, start: bool, ahead: seq<nat>)
    requires |ahead| <= |ops|
  {
    forall i | 0 <= i < |ahead| && ahead[i] > 0 :: MayBeAhead(ops[..i], start)
  }

  lemma AheadOneMore(ops: seq<Op>, start: bool, ahead: seq<nat>, b: nat)
    requires |ahead| < |ops| && AheadWhen(ops, start, ahead)
    requires b > 0 ==> MayBeAhead(ops[..|ahead|], start)
    ensures AheadWhen(ops, start, ahead + [b])
  {
    forall i | 0 <= i <= |ahead| && (ahead + [b])[i] > 0
      ensures MayBeAhead(ops[..i], start)
    {
      if i < |ahead| { assert ahead[i] > 0; }
    }
  }

  lemma BufferedAfter(ops: seq<Op>, i: nat, start: bool, b: nat, b': nat)
    requires i < |ops| && (b > 0 ==> MayBeAhead(ops[..i], start))
    requires var op := ops[i]; b' > 0 ==> op.OpReadLine? || (!op.OpWrite? && !op.OpSeek? && b > 0)
    ensures b' > 0 ==> MayBeAhead(ops[..i + 1], start)
  {
    assert ops[..i + 1][..i] == ops[..i] && ops[..i + 1][i] == ops[i];
  }

  lemma AgreesOneMore(f: File, ops: seq<Op>, ahead: seq<nat>, b: nat)
    requires |ahead| < |ops| && AllAgree(f, ops, ahead + [b])
    ensures AllAgree(f, ops, ahead) && Agrees(SpecRun(f, ops[..|ahead|]).0, b, ops[|ahead|])
  {
    forall i | 0 <= i < |ahead|
      ensures Agrees(SpecRun(f, ops[..i]).0, ahead[i], ops[i])
    {
      assert (ahead + [b])[i] == ahead[i];
    }
    assert (ahead + [b])[|ahead|] == b;
  }

  /** One more operation of a run whose seeks have agreed. */
  lemma StepAgrees(f0: File, ops: seq<Op>, ahead: seq<nat>, outs: seq<Out>, f: File, b: nat, f': File, out: Out)
    requires |ahead| < |ops| && Answers(f0, ops, ahead, f, outs)
    requires var op := ops[|ahead|]; (f', out) == SpecStep(if op.OpSeek? then Advance(f, b) else f, op)
    ensures Answers(f0, ops, ahead + [b], f', outs + [out])
  {
    if AllAgree(f0, ops, ahead + [b]) {
      AgreesOneMore(f0, ops, ahead, b);
      RanOneMore(f0, ops, |ahead|, outs);
      SeekAgreesHere(f, b, ops[|ahead|]);
    }
  }

  lemma SeekableAgrees(f: File, ops: seq<Op>, start: bool, ahead: seq<nat>)
    requires |ahead| <= |ops| && AheadWhen(ops, start, ahead)
    ensures Seekable(f, ops, start) ==> AllAgree(f, ops, ahead)
  {
  }

  lemma SeekAgreesHere(f: File, ahead: nat, op: Op)
    requires Agrees(f, ahead, op)
    ensures op.OpSeek? ==> SpecStep(Advance(f, ahead), op) == SpecStep(f, op)
  {
    if op.OpSeek? { SeekAgrees(f, ahead, op.offset, op.whence); }
  }

  ghost predicate RanTo(f0: File, ops: seq<Op>, i: nat, f: File, outs: seq<Out>)
    requires i <= |ops|
  {
    SpecRun(f0, ops[..i]) == (f, outs)
  }

  lemma RanOneMore(f0: File, ops: seq<Op>, i: nat, outs: seq<Out>)
    requires i < |ops| && SpecRun(f0, ops[..i]).1 == outs
    ensures var (f', out) := SpecStep(SpecRun(f0, ops[..i]).0, ops[i]);
            RanTo(f0, ops, i + 1, f', outs + [out])
  {
    assert ops[..i + 1][..i] == ops[..i];
  }

  method RunOne(h: FileHandle, op: Op) returns (out: Out, ok: bool)
    requires h.Valid() && !h.closed
    modifies h, h.readBuf, h.kernel
    ensures h.Valid() && !h.closed && (h.readBuf == old(h.readBuf) || fresh(h.readBuf))
    ensures h.FailedOnce(!ok)
    ensures ok ==>
              (h.Abs(), out) ==
              SpecStep(if op.OpSeek? then Advance(old(h.Abs()), old(h.Buffered())) else old(h.Abs()), op)
    ensures ok && h.Buffered() > 0 ==> op.OpReadLine? || (!op.OpWrite? && !op.OpSeek? && old(h.Buffered()) > 0)
  {
    ok, out := true, Failed;
    match op {
      case OpRead(n) =>
        var r := h.Read(n);
        if r.Success? { out := Bytes(r.value); } else { ok := false; }
      case OpReadLine =>
        var r := h.ReadLine();
        if r.Success? { out := Line(r.value); } else { ok := false; }
      case OpWrite(d) =>
        var r := h.Write(d);
        if r.Success? { out := Number(r.value); } else { ok := false; }
      case OpTell =>
        var r := h.Tell();
        if r.Success? { out := Number(r.value); } else { ok := false; }
      case OpSeek(o, w) =>
        var r := h.Seek(o, w);
        if r.Success? { out := Number(r.value); }
    }
  }

  // ---------------------------------------------------------------------------
  // A seek that disagrees
  // ---------------------------------------------------------------------------

  /** Two lines, "a" and "b". */
  const TWO_LINES: seq<byte> := [97, NEWLINE, 98, NEWLINE]

  lemma FirstOfTwoLines()
    ensures SpecReadLine(File(TWO_LINES, 0)) == (File(TWO_LINES, 2), Some([97]))
  {
    assert Rest(File(TWO_LINES, 0)) == TWO_LINES;
    assert TWO_LINES[..1] == [97];
    LineLengthIs(TWO_LINES, 1);
  }

  /** After the first line has been read, a seek to where the cursor is moves to the end of
      the file, behind the second line, which was read ahead. */
  method SeekPastReadAhead() returns (at: Result<int>, ghost ahead: int)
    ensures ahead == 2 && at == Success(4)
    ensures SpecSeek(SpecReadLine(File(TWO_LINES, 0)).0, 0, Current).1 == Success(2)
  {
    FirstOfTwoLines();
    var k := new KernelFile(TWO_LINES, true);
    var h := new FileHandle(k);
    var _ := h.ReadLine();
    ahead := h.Buffered();
    at := h.Seek(0, Current);
  }
}
