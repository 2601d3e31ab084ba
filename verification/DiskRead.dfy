/** Reading bytes from a disk of sectors: sata_port_device::read and sendRead, src/high/PCI/sata.cpp:17-134,
    540-570 and 648-658.

    What the hardware makes of a command that is in order is an input: a script with one outcome per
    command.  A command that is performed moves its bytes at once; nothing looks at them before the wait. */
module DiskRead {
  import opened Common
  import opened Rests

  type Byte = bv8

  // PCI::Sata::error_t.
  datatype SataError = Success | NoDevice | InvalidAlignment | OutOfRange | FragmentedMemory | NotSupported
                     | InvalidMemory | NoResources | UnknownError

  function Code(e: SataError): nat {
    match e
    case Success => 0
    case NoDevice => 1
    case InvalidAlignment => 2
    case OutOfRange => 3
    case FragmentedMemory => 4
    case NotSupported => 5
    case InvalidMemory => 6
    case NoResources => 7
    case UnknownError => 8
  }

  datatype Sent = Slot(n: nat) | Failed(error: SataError)

  // Performed; not even sent, for want of a slot or of memory; or sent, but never reported as done.
  datatype Outcome = Performed | Refused(error: SataError) | Lost

  // file::device::error_t.
  datatype DeviceError = OutOfBounds | DeviceUnavailable

  datatype ReadResult = Ok(size: nat) | Err(error: DeviceError)

  // A command: the first sector, and the number of bytes.
  datatype Command = Command(lba: nat, len: nat)

  // The number rounded down to an even one: the effect of halving an offset and indexing 16-bit words.
  function Even(n: nat): (r: nat)
    ensures r % 2 == 0 && r <= n <= r + 1
  {
    n / 2 * 2
  }

  // ---------------------------------------------------------------- the commands of a read

  // Sector and place in the sector of a byte, for sectors of s bytes.
  predicate Aligned(s: nat, offset: nat, size: nat)
    requires s > 0
  {
    Rest(offset, s) == 0 && Rest(size, s) == 0
  }

  predicate OneSector(s: nat, offset: nat, size: nat)
    requires s > 0
  {
    !Aligned(s, offset, size) && Quot(offset, s) == Quot(offset + size, s)
  }

  predicate TwoSectors(s: nat, offset: nat, size: nat)
    requires s > 0
  {
    !Aligned(s, offset, size) && Quot(offset, s) + 1 == Quot(offset + size, s)
  }

  predicate ManySectors(s: nat, offset: nat, size: nat)
    requires s > 0
  {
    !Aligned(s, offset, size) && Quot(offset, s) + 1 < Quot(offset + size, s)
  }

  // The bytes wanted of the first sector, and of the last.
  function Head(s: nat, offset: nat): nat
    requires s > 0
  {
    s - Rest(offset, s)
  }

  function Tail(s: nat, offset: nat, size: nat): nat
    requires s > 0
  {
    Rest(offset + size, s)
  }

  // Those in between.
  function Middle(s: nat, offset: nat, size: nat): nat
    requires s > 0 && ManySectors(s, offset, size)
  {
    ManyParts(s, offset, size);
    size - Head(s, offset) - Tail(s, offset, size)
  }

  // The commands that read sends on each of its paths.
  function Plan(s: nat, offset: nat, size: nat): (p: seq<Command>)
    requires s > 0
    ensures 0 < |p| <= 3
  {
    if Aligned(s, offset, size) then [Command(Quot(offset, s), size)]
    else if OneSector(s, offset, size) then [Command(Quot(offset, s), s)]
    else if TwoSectors(s, offset, size) then [Command(Quot(offset, s), s * 2)]
    else
      QuotGrows(s, offset, size);
      var head, tail := Head(s, offset), Tail(s, offset, size);
      ManyParts(s, offset, size);
      [Command(Quot(offset, s), s), Command(Quot(offset + head, s), Middle(s, offset, size))]
      + if tail == 0 then [] else [Command(Quot(offset + size - tail, s), s)]
  }

  lemma QuotGrows(s: nat, offset: nat, size: nat)
    requires s > 0
    ensures Quot(offset, s) <= Quot(offset + size, s)
  {
    var q, q' := Quot(offset, s), Quot(offset + size, s);
    Split(offset, s);
    Split(offset + size, s);
    if q' < q {
      Distribute(q - q', q', s);
      MulAtLeast(q - q', s);
    }
  }

  // On the longest path, the middle consists of whole sectors.
  lemma ManyParts(s: nat, offset: nat, size: nat)
    requires s > 0 && ManySectors(s, offset, size)
    ensures var head, tail := Head(s, offset), Tail(s, offset, size);
            && head + tail + s <= size
            && Quot(offset, s) * s + Rest(offset, s) == offset
            && Quot(offset + head, s) * s == offset + head
            && Quot(offset + head, s) == Quot(offset, s) + 1
            && Quot(offset + size - tail, s) * s == offset + size - tail
            && Quot(offset + size - tail, s) == Quot(offset + size, s)
            && (Quot(offset + size, s) - Quot(offset, s) - 1) * s == size - head - tail
  {
    var q, q' := Quot(offset, s), Quot(offset + size, s);
    var head, tail := Head(s, offset), Tail(s, offset, size);
    Split(offset, s);
    Split(offset + size, s);
    Distribute(q, 1, s);
    SplitAs(q + 1, 0, s, offset + head);
    SplitAs(q', 0, s, offset + size - tail);
    var m := q' - q - 1;
    Distribute(m, q + 1, s);
    MulAtLeast(m, s);
  }

  // ---------------------------------------------------------------- where the bytes come from

  // The place on the disk of byte k of the result, if it has one.
  function Origin(s: nat, offset: nat, size: nat, k: nat): (j: int)
    requires s > 0
  {
    if ManySectors(s, offset, size) && offset % 2 == 1 && k >= Head(s, offset) then
      if k < size - 1 then offset + k + 1 else -1
    else Even(offset) + k
  }

  // The result is what was asked for exactly if the offset is even.
  lemma OriginIff(s: nat, offset: nat, size: nat)
    requires s > 0 && size > 0
    ensures (forall k: nat :: k < size ==> Origin(s, offset, size, k) == offset + k) <==> offset % 2 == 0
  {
    hide ManySectors;
    if offset % 2 == 1 {
      assert Origin(s, offset, size, 0) != offset + 0;
    }
  }

  lemma EvenProduct(q: nat, s: nat)
    requires s % 2 == 0
    ensures q * s % 2 == 0
  {
    assert q * s == 2 * (q * (s / 2));
  }

  lemma EvenParts(s: nat, offset: nat)
    requires s > 0 && s % 2 == 0
    ensures Even(offset) == Quot(offset, s) * s + Even(Rest(offset, s))
    ensures offset % 2 == Rest(offset, s) % 2 && Head(s, offset) % 2 == offset % 2
  {
    hide Quot, Rest, Even;
    Split(offset, s);
    EvenProduct(Quot(offset, s), s);
    EvenSum(Quot(offset, s) * s, Rest(offset, s));
    HeadParity(s, Rest(offset, s));
  }

  lemma HeadParity(s: nat, r: nat)
    requires s % 2 == 0 && r < s
    ensures (s - r) % 2 == r % 2
  {
  }

  lemma EvenSum(p: nat, r: nat)
    requires p % 2 == 0
    ensures Even(p + r) == p + Even(r) && (p + r) % 2 == r % 2
  {
  }

  lemma FewSectors(s: nat, offset: nat, size: nat, sectors: nat)
    requires s > 0 && sectors > 0 && Quot(offset, s) + sectors - 1 == Quot(offset + size, s)
    ensures Rest(offset, s) + size < sectors * s
  {
    Split(offset, s);
    Split(offset + size, s);
    Distribute(Quot(offset, s), sectors, s);
    Distribute(Quot(offset + size, s), 1, s);
  }

  lemma PartsOf(s: nat, offset: nat, size: nat)
    requires s > 0 && s % 2 == 0 && ManySectors(s, offset, size)
    ensures var head, tail, middle := Head(s, offset), Tail(s, offset, size), Middle(s, offset, size);
            && head + middle + tail == size && middle % 2 == 0 < middle
            && Even(Rest(offset, s)) + head <= s && tail < s
            && Quot(offset, s) * s + Even(Rest(offset, s)) == Even(offset)
            && head % 2 == offset % 2
  {
    ManyParts(s, offset, size);
    EvenParts(s, offset);
    EvenProduct(Quot(offset + size, s) - Quot(offset, s) - 1, s);
  }

  // ---------------------------------------------------------------- the port

  function Ceiling(n: nat, s: nat): nat
    requires s > 0
  {
    Quot(n + s - 1, s)
  }

  lemma CeilingAtMost(n: nat, k: int, s: nat)
    requires s > 0
    ensures Ceiling(n, s) <= k <==> n <= k * s
  {
    CeilingCovers(n, s);
    var c := Ceiling(n, s);
    Distribute(c - k, k, s);
    Distribute(k - c, c, s);
    if c > k {
      Distribute(c - k - 1, 1, s);
      Distribute(c - 1 - k, k, s);
      Distribute(c - 1, 1, s);
      assert (c - 1 - k) * s >= 0;
    } else {
      assert (k - c) * s >= 0;
    }
    hide Ceiling;
  }

  lemma CeilingCovers(n: nat, s: nat)
    requires s > 0
    ensures n <= Ceiling(n, s) * s < n + s
  {
    Split(n + s - 1, s);
  }

  method Copy(dst: array<Byte>, at: nat, src: array<Byte>, from: nat, n: nat)
    requires dst != src && at + n <= dst.Length && from + n <= src.Length
    modifies dst
    ensures forall k :: at <= k < at + n ==> dst[k] == src[from + (k - at)]
    ensures forall k :: 0 <= k < dst.Length && !(at <= k < at + n) ==> dst[k] == old(dst[k])
  {
    var i := 0;
    while i < n
      invariant i <= n
      invariant forall k :: at <= k < at + i ==> dst[k] == src[from + (k - at)]
      invariant forall k :: 0 <= k < dst.Length && !(at <= k < at + i) ==> dst[k] == old(dst[k])
    {
      dst[at + i] := src[from + i];
      i := i + 1;
    }
  }

  // Some command of the read would span 65536 sectors or more.
  ghost predicate TooLong(s: nat, offset: nat, size: nat)
    requires s > 0
  {
    if offset % s == 0 && size % s == 0 then size / s >= 65536
    else (offset + size) / s - offset / s - 1 >= 65536
  }

  // The read is of two sectors, in parts, and ends with the disk.
  ghost predicate LastTwo(s: nat, length: nat, offset: nat, size: nat)
    requires s > 0
  {
    && !(offset % s == 0 && size % s == 0)
    && offset / s + 1 == (offset + size) / s && offset + size == length
  }

  lemma TooLongIs(s: nat, offset: nat, size: nat)
    requires s > 0
    ensures TooLong(s, offset, size) <==>
            if Rest(offset, s) == 0 && Rest(size, s) == 0 then Quot(size, s) >= 65536
            else Quot(offset + size, s) - Quot(offset, s) - 1 >= 65536
  {
  }

  lemma LastTwoIs(s: nat, length: nat, offset: nat, size: nat)
    requires s > 0
    ensures LastTwo(s, length, offset, size) <==> TwoSectors(s, offset, size) && offset + size == length
  {
  }

  // The sectors of the commands of a read.
  lemma {:induction false} PlanCounts(s: nat, offset: nat, size: nat)
    requires s > 0 && size > 0
    ensures (forall c :: c in Plan(s, offset, size) ==> 0 < Ceiling(c.len, s) < 65536) <==> !TooLong(s, offset, size)
  {
    var p, q, q' := Plan(s, offset, size), Quot(offset, s), Quot(offset + size, s);
    TooLongIs(s, offset, size);
    WhichPath(s, offset, size);
    CeilingOf(1, s);
    CeilingOf(2, s);
    if Aligned(s, offset, size) {
      Split(size, s);
      CeilingOf(Quot(size, s), s);
      assert p[0] in p;
    } else if ManySectors(s, offset, size) {
      ManyParts(s, offset, size);
      CeilingOf(q' - q - 1, s);
      assert p[1] in p;
      assert p[1].len == (q' - q - 1) * s;
    }
  }

  class Port {
    const disk: seq<Byte>
    const sectorCount: nat
    const sectorSize: nat
    const hasDevice: bool
    const isAtapi: bool
    const script: nat -> Outcome
    var sent: nat

    // A command that is in order can only fail for want of a slot or of memory, or by waiting in vain.
    ghost predicate Valid() {
      && sectorSize > 0 && sectorSize % 2 == 0 && |disk| == sectorCount * sectorSize
      && forall n :: script(n).Refused? ==> Code(script(n).error) in {4, 6, 7, 8}
    }

    constructor (disk: seq<Byte>, sectorCount: nat, sectorSize: nat, hasDevice: bool, isAtapi: bool,
        script: nat -> Outcome)
      ensures this.disk == disk && this.sectorCount == sectorCount && this.sectorSize == sectorSize
      ensures this.hasDevice == hasDevice && this.isAtapi == isAtapi && this.script == script && sent == 0
    {
      this.disk, this.sectorCount, this.sectorSize := disk, sectorCount, sectorSize;
      this.hasDevice, this.isAtapi, this.script, sent := hasDevice, isAtapi, script, 0;
    }

    // check_command_valid, for a buffer at an even address.  A command for nothing is refused with the
    // code for success.
    function Check(c: Command): Option<SataError>
      requires sectorSize > 0
    {
      var count := Ceiling(c.len, sectorSize);
      if !hasDevice then Some(NoDevice)
      else if isAtapi then Some(NotSupported)
      else if c.lba + count > sectorCount then Some(OutOfRange)
      else if count >= 0x1_0000 then Some(NotSupported)
      else if count == 0 then Some(Success)
      else None
    }

    // The same in bytes: the command has to lie on the disk, and to be of at most 65535 sectors.
    lemma {:induction false} CheckInBytes(c: Command)
      requires Valid()
      ensures Check(c) ==
              if !hasDevice then Some(NoDevice)
              else if isAtapi then Some(NotSupported)
              else if c.lba * sectorSize + c.len > |disk| then Some(OutOfRange)
              else if c.len > 65535 * sectorSize then Some(NotSupported)
              else if c.len == 0 then Some(Success)
              else None
    {
      var s, count := sectorSize, Ceiling(c.len, sectorSize);
      CeilingCovers(c.len, s);
      CeilingAtMost(c.len, 65535, s);
      CeilingAtMost(c.len, sectorCount - c.lba, s);
      CeilingAtMost(c.len, 0, s);
      Distribute(c.lba, sectorCount - c.lba, s);
      if c.lba > sectorCount {
        MulAtLeast(c.lba - sectorCount, s);
        Distribute(c.lba - sectorCount, sectorCount, s);
      }
      hide Ceiling;
    }

    // What sendRead answers, if n commands have been sent before.
    function Sends(c: Command, n: nat): Sent
      requires sectorSize > 0
    {
      if Check(c).Some? then Failed(Check(c).value)
      else if script(n).Refused? then Failed(script(n).error)
      else Slot(n)
    }

    // What a read of one command answers: the error codes are not told apart from sizes.
    function AnswerOne(c: Command, n: nat, size: nat): ReadResult
      requires sectorSize > 0
    {
      match Sends(c, n)
      case Failed(e) => Ok(Code(e))
      case Slot(_) => if script(n).Performed? then Ok(size) else Err(DeviceUnavailable)
    }

    // An answer that looks like success is none exactly if an error has the size for its code.  Whatever
    // the port, that code is never 2, and it is 0 only for a command for nothing.
    lemma MistakenIff(c: Command, n: nat, size: nat)
      requires Valid()
      ensures AnswerOne(c, n, size) == Ok(size) && !Performs(c, n) <==>
              Sends(c, n).Failed? && Code(Sends(c, n).error) == size
      ensures Sends(c, n).Failed? ==>
                Code(Sends(c, n).error) in {0, 1, 3, 4, 5, 6, 7, 8}
                && (Code(Sends(c, n).error) == 0 ==> c.len == 0)
    {
      hide Ceiling;
      CeilingCovers(c.len, sectorSize);
    }

    // The n-th command that is sent will be this one, and be performed.
    predicate Performs(c: Command, n: nat)
      requires sectorSize > 0
    {
      Check(c).None? && script(n).Performed?
    }

    predicate AllPerformed(p: seq<Command>, n: nat)
      requires sectorSize > 0
    {
      forall i :: 0 <= i < |p| ==> Performs(p[i], n + i)
    }

    lemma CommandInside(c: Command)
      requires Valid() && Check(c).None?
      ensures c.lba * sectorSize + c.len <= |disk|
    {
      var count := Ceiling(c.len, sectorSize);
      CeilingCovers(c.len, sectorSize);
      Distribute(c.lba, count, sectorSize);
      Distribute(c.lba + count, sectorCount - c.lba - count, sectorSize);
      assert (sectorCount - c.lba - count) * sectorSize >= 0;
    }

    // len bytes of the disk, beginning at byte `from`, lie in the buffer at `at`.
    ghost predicate Lies(buffer: array<Byte>, at: nat, from: nat, len: nat)
      requires at + len <= buffer.Length
      reads buffer
    {
      from + len <= |disk| && forall k :: at <= k < at + len ==> buffer[k] == disk[from + (k - at)]
    }

    // sendRead, and what the hardware does with the command.
    method SendRead(c: Command, buffer: array<Byte>, at: nat) returns (r: Sent)
      requires Valid() && at + c.len <= buffer.Length
      modifies this`sent, buffer
      ensures old(Performs(c, sent)) ==>
                sent == old(sent) + 1 && Lies(buffer, at, c.lba * sectorSize, c.len)
      ensures old(Performs(c, sent)) <==> r.Slot? && script(r.n).Performed?
      ensures r == Sends(c, old(sent)) && (r.Slot? ==> sent == old(sent) + 1)
      ensures r == if !hasDevice then Failed(NoDevice)
                   else if isAtapi then Failed(NotSupported)
                   else if c.lba * sectorSize + c.len > |disk| then Failed(OutOfRange)
                   else if c.len > 65535 * sectorSize then Failed(NotSupported)
                   else if c.len == 0 then Failed(Success)
                   else if script(old(sent)).Refused? then Failed(script(old(sent)).error)
                   else Slot(old(sent))
    {
      CheckInBytes(c);
      var refusal := Check(c);
      if refusal.Some? {
        return Failed(refusal.value);
      }
      var n := sent;
      sent := sent + 1;
      match script(n)
      case Refused(e) => return Failed(e);
      case Lost => return Slot(n);
      case Performed =>
        CommandInside(c);
        var base := c.lba * sectorSize;
        var i := 0;
        while i < c.len
          invariant i <= c.len && sent == n + 1
          invariant forall k :: at <= k < at + i ==> buffer[k] == disk[base + (k - at)]
        {
          buffer[at + i] := disk[base + i];
          i := i + 1;
        }
        return Slot(n);
    }

    method WaitFor(slot: nat) returns (done: bool)
      ensures done == script(slot).Performed?
    {
      done := script(slot).Performed?;
    }

    // All commands of the read are in order, and performed.
    predicate Served(offset: nat, size: nat, n: nat)
      requires sectorSize > 0
    {
      AllPerformed(Plan(sectorSize, offset, size), n)
    }

    // There is a disk, and it performs what is sent.
    ghost predicate Ready(n: nat) {
      hasDevice && !isAtapi && forall k :: n <= k < n + 3 ==> script(k).Performed?
    }

    // A read whose commands are all in order.
    ghost predicate InOrder(offset: nat, size: nat)
      requires sectorSize > 0
    {
      && hasDevice && !isAtapi && size > 0 && offset + size <= |disk|
      && !TooLong(sectorSize, offset, size) && !LastTwo(sectorSize, |disk|, offset, size)
    }

    // The answer of three commands, of which the n-th is sent first: that of the first refusal, unless a
    // command sent before it is lost; size if there is neither.  Without a tail the third is not sent.
    ghost function AnswerMany(n: nat, tail: bool, size: nat): ReadResult {
      if script(n).Refused? then Ok(Code(script(n).error))
      else if script(n + 1).Refused? then if script(n).Lost? then Ok(8) else Ok(Code(script(n + 1).error))
      else if tail && script(n + 2).Refused? then
        if script(n).Lost? || script(n + 1).Lost? then Ok(8) else Ok(Code(script(n + 2).error))
      else if script(n).Lost? || script(n + 1).Lost? || (tail && script(n + 2).Lost?) then Ok(8)
      else Ok(size)
    }

    // What sendRead answers to a command that is in order, if n have been sent before.
    ghost function Taken(n: nat): Sent {
      if script(n).Refused? then Failed(script(n).error) else Slot(n)
    }

    // What becomes of the three answers.
    lemma ManyAnswer(n: nat, tail: bool, size: nat, first: Sent, second: Option<Sent>, third: Option<Sent>,
        before: Option<SataError>, error: Option<SataError>)
      requires first == Taken(n) && second == (if first.Failed? then None else Some(Taken(n + 1)))
      requires third == if second.None? || second.value.Failed? || !tail then None else Some(Taken(n + 2))
      requires before == if first.Failed? then Some(first.error)
                         else if second.value.Failed? then Some(second.value.error)
                         else if third.Some? && third.value.Failed? then Some(third.value.error)
                         else None
      requires error == if (first.Slot? && !script(first.n).Performed?)
                           || (second.Some? && second.value.Slot? && !script(second.value.n).Performed?)
                           || (third.Some? && third.value.Slot? && !script(third.value.n).Performed?)
                        then Some(UnknownError) else before
      ensures (if error.Some? then Ok(Code(error.value)) else Ok(size)) == AnswerMany(n, tail, size)
    {
    }

    // Every command of such a read passes the test.
    lemma {:induction false} PlanPasses(offset: nat, size: nat)
      requires Valid() && InOrder(offset, size)
      ensures forall c :: c in Plan(sectorSize, offset, size) ==> Check(c).None?
    {
      PlanInsideIff(sectorSize, sectorCount, offset, size);
      PlanCounts(sectorSize, offset, size);
      LastTwoIs(sectorSize, |disk|, offset, size);
      hide Plan, TooLong, LastTwo, TwoSectors, Ceiling;
    }

    lemma ManyPass(offset: nat, size: nat)
      requires Valid() && ManySectors(sectorSize, offset, size) && InOrder(offset, size)
      ensures var head, tail := Head(sectorSize, offset), Tail(sectorSize, offset, size);
              && Check(Command(Quot(offset, sectorSize), sectorSize)).None?
              && Check(Command(Quot(offset + head, sectorSize), Middle(sectorSize, offset, size))).None?
              && (tail != 0 ==> offset + size >= tail
                                && Check(Command(Quot(offset + size - tail, sectorSize), sectorSize)).None?)
    {
      PlanPasses(offset, size);
      var p := Plan(sectorSize, offset, size);
      ManyParts(sectorSize, offset, size);
      assert p[0] in p && p[1] in p;
      if Tail(sectorSize, offset, size) != 0 {
        assert p[2] in p;
      }
    }

    // A disk that performs everything serves exactly the reads of which no command is too long, and which
    // are not of two sectors up to its end.
    lemma {:induction false} ServedIff(offset: nat, size: nat, n: nat)
      requires Valid() && Ready(n) && size > 0 && offset + size <= |disk|
      ensures Served(offset, size, n) <==>
              !TooLong(sectorSize, offset, size) && !LastTwo(sectorSize, |disk|, offset, size)
    {
      var p := Plan(sectorSize, offset, size);
      PlanInsideIff(sectorSize, sectorCount, offset, size);
      PlanCounts(sectorSize, offset, size);
      LastTwoIs(sectorSize, |disk|, offset, size);
      hide Plan, TooLong, LastTwo, TwoSectors, Ceiling;
      if Served(offset, size, n) {
        forall c | c in p
          ensures Check(c).None?
        {
          var i :| 0 <= i < |p| && p[i] == c;
          assert Performs(p[i], n + i);
        }
      }
      if forall c :: c in p ==> Inside(c, sectorSize, sectorCount) && 0 < Ceiling(c.len, sectorSize) < 65536 {
        forall i | 0 <= i < |p|
          ensures Performs(p[i], n + i)
        {
          assert p[i] in p;
        }
      }
    }

    // At an even offset, the bytes delivered are those asked for.
    lemma DeliveredEven(buffer: array<Byte>, offset: nat, size: nat)
      requires Valid() && size <= buffer.Length && offset + size <= |disk| && offset % 2 == 0
      requires Delivered(buffer, offset, size)
      ensures buffer[..size] == disk[offset..offset + size]
    {
      if size > 0 {
        OriginIff(sectorSize, offset, size);
      }
      forall k | 0 <= k < size
        ensures buffer[k] == disk[offset + k]
      {
        assert Origin(sectorSize, offset, size, k) == offset + k;
      }
    }

    // The bytes of the result come from where Origin says.
    ghost predicate Delivered(buffer: array<Byte>, offset: nat, size: nat)
      requires Valid() && size <= buffer.Length
      reads buffer
    {
      forall k :: 0 <= k < size ==>
        var j := Origin(sectorSize, offset, size, k);
        0 <= j ==> j < |disk| && buffer[k] == disk[j]
    }

    lemma OneCommand(p: seq<Command>, c: Command, n: nat)
      requires sectorSize > 0 && p == [c]
      ensures AllPerformed(p, n) <==> Performs(c, n)
    {
      assert p[0] == c && n + 0 == n;
    }

    // Reads of up to 8 bytes are of one command, and are mistaken for success at most with sizes other
    // than 2.
    lemma {:induction false} MistakenSizes(offset: nat, size: nat, n: nat)
      requires Valid() && sectorSize >= 8 && 0 < size <= 8
      ensures !ManySectors(sectorSize, offset, size)
      ensures var c := Plan(sectorSize, offset, size)[0];
              AnswerOne(c, n, size) == Ok(size) && !Served(offset, size, n) ==> size in {1, 3, 4, 5, 6, 7, 8}
    {
      if ManySectors(sectorSize, offset, size) {
        ManyParts(sectorSize, offset, size);
      }
      var p := Plan(sectorSize, offset, size);
      WhichPath(sectorSize, offset, size);
      OneCommand(p, p[0], n);
      MistakenIff(p[0], n, size);
    }

    // Lines 50-77: one or two sectors, through a buffer of their own.
    method ReadThrough(buffer: array<Byte>, offset: nat, size: nat, sectors: nat) returns (r: ReadResult)
      requires Valid() && size <= buffer.Length && (sectors == 1 || sectors == 2)
      requires if sectors == 1 then OneSector(sectorSize, offset, size) else TwoSectors(sectorSize, offset, size)
      modifies this`sent, buffer
      ensures old(Served(offset, size, sent)) ==> r == Ok(size) && Delivered(buffer, offset, size)
      ensures !old(Served(offset, size, sent)) ==> r == Err(DeviceUnavailable) || exists e :: r == Ok(Code(e))
      ensures r == AnswerOne(Plan(sectorSize, offset, size)[0], old(sent), size)
      ensures !hasDevice ==> r == Ok(Code(NoDevice))
    {
      var sectorBuffer := new Byte[sectorSize * sectors];
      var c := Command(Quot(offset, sectorSize), sectorSize * sectors);
      OneCommand(Plan(sectorSize, offset, size), c, sent);
      var res := SendRead(c, sectorBuffer, 0);
      if res.Failed? {
        return Ok(Code(res.error));
      }
      var done := WaitFor(res.n);
      if !done {
        return Err(DeviceUnavailable);
      }
      FewSectors(sectorSize, offset, size, sectors);
      EvenParts(sectorSize, offset);
      Copy(buffer, 0, sectorBuffer, Even(Rest(offset, sectorSize)), size);
      return Ok(size);
    }

    lemma ManyCommands(offset: nat, size: nat, n: nat)
      requires Valid() && ManySectors(sectorSize, offset, size)
      ensures var head, tail := Head(sectorSize, offset), Tail(sectorSize, offset, size);
              Served(offset, size, n) <==>
                && Performs(Command(Quot(offset, sectorSize), sectorSize), n)
                && Performs(Command(Quot(offset + head, sectorSize), Middle(sectorSize, offset, size)), n + 1)
                && (tail != 0 ==> offset + size >= tail
                                  && Performs(Command(Quot(offset + size - tail, sectorSize), sectorSize), n + 2))
    {
      var p := Plan(sectorSize, offset, size);
      var head, tail := Head(sectorSize, offset), Tail(sectorSize, offset, size);
      ManyParts(sectorSize, offset, size);
      assert p[0] == Command(Quot(offset, sectorSize), sectorSize);
      assert p[1] == Command(Quot(offset + head, sectorSize), Middle(sectorSize, offset, size));
      if tail != 0 {
        assert p[2] == Command(Quot(offset + size - tail, sectorSize), sectorSize);
      }
    }

    // Lines 108-116: the regions are asked for, until one is refused.  The loop is written out.
    method SendRegions(buffer: array<Byte>, startBuffer: array<Byte>, endBuffer: array<Byte>, offset: nat, size: nat)
      returns (first: Sent, second: Option<Sent>, third: Option<Sent>)
      requires Valid() && size <= buffer.Length && ManySectors(sectorSize, offset, size)
      requires startBuffer.Length == endBuffer.Length == sectorSize
      requires buffer != startBuffer && buffer != endBuffer && startBuffer != endBuffer
      modifies this`sent, buffer, startBuffer, endBuffer
      ensures first == Sends(FirstOf(offset), old(sent))
      ensures second == if first.Failed? then None else Some(Sends(SecondOf(offset, size), old(sent) + 1))
      ensures third == if second.None? || second.value.Failed? || Tail(sectorSize, offset, size) == 0 then None
                       else Some(Sends(ThirdOf(offset, size), old(sent) + 2))
      ensures Performs(FirstOf(offset), old(sent)) ==>
                Lies(startBuffer, 0, FirstOf(offset).lba * sectorSize, sectorSize)
      ensures Even(Head(sectorSize, offset)) + Middle(sectorSize, offset, size) <= buffer.Length
      ensures second.Some? && Performs(SecondOf(offset, size), old(sent) + 1) ==>
                Lies(buffer, Even(Head(sectorSize, offset)), SecondOf(offset, size).lba * sectorSize,
                     Middle(sectorSize, offset, size))
      ensures third.Some? && Performs(ThirdOf(offset, size), old(sent) + 2) ==>
                Lies(endBuffer, 0, ThirdOf(offset, size).lba * sectorSize, sectorSize)
    {
      hide Performs, Plan, AllPerformed, Head, Tail, Rest, Quot, Served, Lies, Check, Sends;
      PartsFit(offset, size);
      second, third := None, None;
      first := SendRead(FirstOf(offset), startBuffer, 0);
      if first.Failed? {
        return;
      }
      var res := SendRead(SecondOf(offset, size), buffer, Even(Head(sectorSize, offset)));
      second := Some(res);
      if res.Failed? {
        return;
      }
      if Tail(sectorSize, offset, size) != 0 {
        res := SendRead(ThirdOf(offset, size), endBuffer, 0);
        third := Some(res);
      }
    }

    // The three commands of the longest path.
    function FirstOf(offset: nat): Command
      requires sectorSize > 0
    {
      Command(Quot(offset, sectorSize), sectorSize)
    }

    function SecondOf(offset: nat, size: nat): Command
      requires sectorSize > 0 && ManySectors(sectorSize, offset, size)
    {
      Command(Quot(offset + Head(sectorSize, offset), sectorSize), Middle(sectorSize, offset, size))
    }

    function ThirdOf(offset: nat, size: nat): Command
      requires sectorSize > 0 && ManySectors(sectorSize, offset, size)
    {
      QuotGrows(sectorSize, offset, size);
      ManyParts(sectorSize, offset, size);
      Command(Quot(offset + size - Tail(sectorSize, offset, size), sectorSize), sectorSize)
    }

    lemma PartsFit(offset: nat, size: nat)
      requires Valid() && ManySectors(sectorSize, offset, size)
      ensures Even(Head(sectorSize, offset)) + Middle(sectorSize, offset, size) <= size
      ensures SecondOf(offset, size).len == Middle(sectorSize, offset, size)
    {
      ManyParts(sectorSize, offset, size);
    }

    // What the three answers and the waiting come to.
    lemma ThreeAnswers(offset: nat, size: nat, n: nat, first: Sent, second: Option<Sent>, third: Option<Sent>,
        before: Option<SataError>, error: Option<SataError>)
      requires Valid() && ManySectors(sectorSize, offset, size)
      requires first == Sends(FirstOf(offset), n)
      requires second == if first.Failed? then None else Some(Sends(SecondOf(offset, size), n + 1))
      requires third == if second.None? || second.value.Failed? || Tail(sectorSize, offset, size) == 0 then None
                        else Some(Sends(ThirdOf(offset, size), n + 2))
      requires before == FirstError(first, second, third)
      requires error == if (first.Slot? && !script(first.n).Performed?)
                           || (second.Some? && second.value.Slot? && !script(second.value.n).Performed?)
                           || (third.Some? && third.value.Slot? && !script(third.value.n).Performed?)
                        then Some(UnknownError) else before
      ensures error.None? <==> Served(offset, size, n)
      ensures error.None? ==>
                && Performs(FirstOf(offset), n) && second.Some? && Performs(SecondOf(offset, size), n + 1)
                && (Tail(sectorSize, offset, size) != 0 ==> third.Some? && Performs(ThirdOf(offset, size), n + 2))
      ensures !hasDevice ==> error == Some(NoDevice)
      ensures hasDevice && isAtapi ==> error == Some(NotSupported)
      ensures Ready(n) && offset + size <= |disk| && TooLong(sectorSize, offset, size) ==> error == Some(NotSupported)
      ensures InOrder(offset, size) ==>
                (if error.Some? then Ok(Code(error.value)) else Ok(size)) ==
                AnswerMany(n, Tail(sectorSize, offset, size) != 0, size)
    {
      ManyCommands(offset, size, n);
      LongMiddle(offset, size, n);
      if InOrder(offset, size) {
        ManyPass(offset, size);
        ManyAnswer(n, Tail(sectorSize, offset, size) != 0, size, first, second, third, before, error);
      }
      hide TooLong, InOrder, AnswerMany, Served, Head, Tail, Middle, Quot, ManySectors;
    }

    // The error that stops the sending.
    function FirstError(first: Sent, second: Option<Sent>, third: Option<Sent>): Option<SataError> {
      if first.Failed? then Some(first.error)
      else if second.Some? && second.value.Failed? then Some(second.value.error)
      else if third.Some? && third.value.Failed? then Some(third.value.error)
      else None
    }

    // Lines 108-123: the three regions are asked for and waited for.
    method FetchRegions(buffer: array<Byte>, startBuffer: array<Byte>, endBuffer: array<Byte>, offset: nat, size: nat)
      returns (error: Option<SataError>)
      requires Valid() && size <= buffer.Length && ManySectors(sectorSize, offset, size)
      requires startBuffer.Length == endBuffer.Length == sectorSize
      requires buffer != startBuffer && buffer != endBuffer && startBuffer != endBuffer
      modifies this`sent, buffer, startBuffer, endBuffer
      ensures error.None? <==> old(Served(offset, size, sent))
      ensures var head, tail, q := Head(sectorSize, offset), Tail(sectorSize, offset, size), Quot(offset, sectorSize);
              error.None? ==>
                && head + tail <= size
                && Lies(startBuffer, 0, q * sectorSize, sectorSize)
                && Lies(buffer, Even(head), offset + head, Middle(sectorSize, offset, size))
                && (tail != 0 ==> Lies(endBuffer, 0, offset + size - tail, sectorSize))
      ensures !hasDevice ==> error == Some(NoDevice)
      ensures hasDevice && isAtapi ==> error == Some(NotSupported)
      ensures old(Ready(sent)) && offset + size <= |disk| && TooLong(sectorSize, offset, size) ==>
                error == Some(NotSupported)
      ensures InOrder(offset, size) ==>
                (if error.Some? then Ok(Code(error.value)) else Ok(size)) ==
                AnswerMany(old(sent), Tail(sectorSize, offset, size) != 0, size)
    {
      ManyParts(sectorSize, offset, size);
      hide Performs, Plan, AllPerformed, Head, Tail, Rest, Quot, Served, Lies, TooLong, Check, Sends, InOrder;
      hide AnswerMany, Ready, Code;
      ghost var n := sent;
      var first, second, third := SendRegions(buffer, startBuffer, endBuffer, offset, size);
      var before := FirstError(first, second, third);
      error := WaitForAll(first, second, third, before);
      ThreeAnswers(offset, size, n, first, second, third, before, error);
    }

    // The first command is in order, and the second is not if it is too long.
    lemma LongMiddle(offset: nat, size: nat, n: nat)
      requires Valid() && ManySectors(sectorSize, offset, size)
      ensures Ready(n) && offset + size <= |disk| && TooLong(sectorSize, offset, size) ==>
                && Sends(Command(Quot(offset, sectorSize), sectorSize), n) == Slot(n) && script(n).Performed?
                && var lba := Quot(offset + Head(sectorSize, offset), sectorSize);
                   var c := Command(lba, Middle(sectorSize, offset, size));
                   Sends(c, n + 1) == Failed(NotSupported)
    {
      if Ready(n) && offset + size <= |disk| && TooLong(sectorSize, offset, size) {
        var s, q, q' := sectorSize, Quot(offset, sectorSize), Quot(offset + size, sectorSize);
        ManyParts(s, offset, size);
        TooLongIs(s, offset, size);
        QuotAtMost(s, sectorCount, offset + size);
        CeilingOf(1, s);
        CeilingOf(q' - q - 1, s);
        assert Middle(s, offset, size) == (q' - q - 1) * s;
        hide Middle, Head, Tail, Quot, Rest, Ceiling;
      }
    }

    lemma Assembled(buffer: array<Byte>, offset: nat, size: nat)
      requires Valid() && size <= buffer.Length && ManySectors(sectorSize, offset, size)
      requires var head, tail := Head(sectorSize, offset), Tail(sectorSize, offset, size);
               var middle := Middle(sectorSize, offset, size);
               && head + middle + tail == size && offset % 2 <= middle && head % 2 == offset % 2
               && Lies(buffer, 0, Even(offset), head)
               && Lies(buffer, head, offset + head + offset % 2, middle - offset % 2)
               && Lies(buffer, Even(head) + middle, offset + size - tail, tail)
      ensures Delivered(buffer, offset, size)
    {
      hide Head, Tail, Middle, ManySectors, Rest, Quot;
    }

    // Lines 79-133: part of a sector, whole sectors straight into the buffer, part of a sector.
    method ReadMany(buffer: array<Byte>, offset: nat, size: nat) returns (r: ReadResult)
      requires Valid() && size <= buffer.Length && ManySectors(sectorSize, offset, size)
      modifies this`sent, buffer
      ensures old(Served(offset, size, sent)) ==> r == Ok(size) && Delivered(buffer, offset, size)
      ensures !old(Served(offset, size, sent)) ==> exists e :: r == Ok(Code(e))
      ensures !hasDevice ==> r == Ok(Code(NoDevice))
      ensures old(Ready(sent)) && offset + size <= |disk| && TooLong(sectorSize, offset, size) ==> r == Ok(5)
      ensures InOrder(offset, size) ==> r == AnswerMany(old(sent), Tail(sectorSize, offset, size) != 0, size)
      ensures hasDevice && isAtapi ==> r == Ok(5)
    {
      PartsOf(sectorSize, offset, size);
      hide Served, Head, Tail, Middle, ManySectors, Rest, Quot, Delivered, Even;
      var startBuffer := new Byte[sectorSize];
      var endBuffer := new Byte[sectorSize];
      var error := FetchRegions(buffer, startBuffer, endBuffer, offset, size);
      if error.Some? {
        return Ok(Code(error.value));
      }
      Assemble(buffer, startBuffer, endBuffer, offset, size);
      return Ok(size);
    }

    // Lines 129-130.
    method Assemble(buffer: array<Byte>, startBuffer: array<Byte>, endBuffer: array<Byte>, offset: nat, size: nat)
      requires Valid() && size <= buffer.Length && ManySectors(sectorSize, offset, size)
      requires startBuffer.Length == endBuffer.Length == sectorSize && buffer != startBuffer && buffer != endBuffer
      requires var head, tail, q := Head(sectorSize, offset), Tail(sectorSize, offset, size), Quot(offset, sectorSize);
               var middle := Middle(sectorSize, offset, size);
               && head + middle + tail == size && middle % 2 == 0 < middle
               && Even(Rest(offset, sectorSize)) + head <= sectorSize && tail < sectorSize
               && q * sectorSize + Even(Rest(offset, sectorSize)) == Even(offset)
               && head % 2 == offset % 2
               && Lies(startBuffer, 0, q * sectorSize, sectorSize)
               && Lies(buffer, Even(head), offset + head, middle)
               && (tail != 0 ==> Lies(endBuffer, 0, offset + size - tail, sectorSize))
      modifies buffer
      ensures Delivered(buffer, offset, size)
    {
      var head, tail := Head(sectorSize, offset), Tail(sectorSize, offset, size);
      var middle := Middle(sectorSize, offset, size);
      var from := Even(Rest(offset, sectorSize));
      hide Head, Tail, Middle, ManySectors, Rest, Quot, Delivered;
      Copy(buffer, 0, startBuffer, from, head);
      assert Lies(buffer, 0, Even(offset), head);
      assert Lies(buffer, head, offset + head + offset % 2, middle - offset % 2);
      Copy(buffer, Even(head) + Even(middle), endBuffer, 0, tail);
      Assembled(buffer, offset, size);
    }

    // Lines 117-123: an earlier error stays, unless a command is lost.
    method WaitForAll(first: Sent, second: Option<Sent>, third: Option<Sent>, before: Option<SataError>)
      returns (error: Option<SataError>)
      ensures before.Some? ==> error.Some?
      ensures before.None? ==>
                (error.None? <==>
                   && (first.Slot? ==> script(first.n).Performed?)
                   && (second.Some? && second.value.Slot? ==> script(second.value.n).Performed?)
                   && (third.Some? && third.value.Slot? ==> script(third.value.n).Performed?))
      ensures error == before || error == Some(UnknownError)
      ensures first.Failed? && second.None? && third.None? ==> error == before
      ensures first.Slot? && script(first.n).Performed? && second.Some? && second.value.Failed? && third.None? ==>
                error == before
      ensures error == if (first.Slot? && !script(first.n).Performed?)
                          || (second.Some? && second.value.Slot? && !script(second.value.n).Performed?)
                          || (third.Some? && third.value.Slot? && !script(third.value.n).Performed?)
                       then Some(UnknownError) else before
    {
      error := before;
      if first.Slot? {
        var done := WaitFor(first.n);
        if !done {
          return Some(UnknownError);
        }
      }
      if second.Some? && second.value.Slot? {
        var done := WaitFor(second.value.n);
        if !done {
          return Some(UnknownError);
        }
      }
      if third.Some? && third.value.Slot? {
        var done := WaitFor(third.value.n);
        if !done {
          return Some(UnknownError);
        }
      }
    }

    // Lines 36-47: whole sectors.
    method ReadAligned(buffer: array<Byte>, offset: nat, size: nat) returns (r: ReadResult)
      requires Valid() && size <= buffer.Length && Aligned(sectorSize, offset, size)
      modifies this`sent, buffer
      ensures old(Served(offset, size, sent)) ==> r == Ok(size) && Delivered(buffer, offset, size)
      ensures !old(Served(offset, size, sent)) ==> r == Err(DeviceUnavailable) || exists e :: r == Ok(Code(e))
      ensures r == AnswerOne(Plan(sectorSize, offset, size)[0], old(sent), size)
      ensures !hasDevice ==> r == Ok(Code(NoDevice))
    {
      var c := Command(Quot(offset, sectorSize), size);
      OneCommand(Plan(sectorSize, offset, size), c, sent);
      EvenParts(sectorSize, offset);
      Split(offset, sectorSize);
      hide Plan, Performs, AllPerformed;
      var res := SendRead(c, buffer, 0);
      if res.Failed? {
        return Ok(Code(res.error));
      }
      var done := WaitFor(res.n);
      return if done then Ok(size) else Err(DeviceUnavailable);
    }

    // A read of one command that is in order, and one of a drive with packets.
    lemma {:induction false} OnePasses(offset: nat, size: nat, n: nat)
      requires Valid()
      ensures InOrder(offset, size) && !ManySectors(sectorSize, offset, size) ==>
                AnswerOne(Plan(sectorSize, offset, size)[0], n, size) ==
                match script(n)
                case Performed => Ok(size)
                case Lost => Err(DeviceUnavailable)
                case Refused(e) => Ok(Code(e))
      ensures hasDevice && isAtapi ==> AnswerOne(Plan(sectorSize, offset, size)[0], n, size) == Ok(5)
      ensures Tail(sectorSize, offset, size) == (offset + size) % sectorSize
    {
      if InOrder(offset, size) {
        PlanPasses(offset, size);
      }
      hide TooLong, LastTwo, ManySectors, Plan;
      var p := Plan(sectorSize, offset, size);
      assert p[0] in p;
    }

    // Why a disk that performs everything refuses a read of one command.
    lemma {:induction false} OneRefused(offset: nat, size: nat, n: nat)
      requires Valid() && Ready(n) && size > 0 && offset + size <= |disk|
      ensures !ManySectors(sectorSize, offset, size) ==>
                var r := AnswerOne(Plan(sectorSize, offset, size)[0], n, size);
                && (TooLong(sectorSize, offset, size) ==> r == Ok(5))
                && (LastTwo(sectorSize, |disk|, offset, size) ==> r == Ok(3))
      ensures LastTwo(sectorSize, |disk|, offset, size) ==>
                !ManySectors(sectorSize, offset, size) && !TooLong(sectorSize, offset, size)
    {
      var s := sectorSize;
      var p := Plan(s, offset, size);
      LastTwoIs(s, |disk|, offset, size);
      TooLongIs(s, offset, size);
      WhichPath(s, offset, size);
      if !ManySectors(s, offset, size) {
        assert p == [p[0]];
        OneCommand(p, p[0], n);
        PlanInsideIff(s, sectorCount, offset, size);
        PlanCounts(s, offset, size);
        assert forall c :: c in p <==> c == p[0];
      }
    }

    // read.  A read within the disk delivers its bytes if all its commands are performed.  If not, the
    // caller may be told the code of the error as the number of bytes read (lines 40, 54, 69 and 126): for
    // more than 8 bytes the result tells which it was.
    method Read(buffer: array<Byte>, address: nat, offset: nat, size: nat) returns (r: ReadResult)
      requires Valid() && size <= buffer.Length
      modifies this`sent, buffer
      ensures offset + size > |disk| ==> r == Err(OutOfBounds)
      ensures offset + size <= |disk| && old(Served(offset, size, sent)) ==>
                r == Ok(size) && Delivered(buffer, offset, size)
      ensures offset + size <= |disk| && !old(Served(offset, size, sent)) ==>
                r == Err(DeviceUnavailable) || exists e :: r == Ok(Code(e))
      ensures size > 8 ==> (r == Ok(size) <==> offset + size <= |disk| && old(Served(offset, size, sent)))
      ensures offset + size <= |disk| && !ManySectors(sectorSize, offset, size) ==>
                r == AnswerOne(Plan(sectorSize, offset, size)[0], old(sent), size)
      ensures !hasDevice && offset + size <= |disk| ==> r == Ok(Code(NoDevice))
      ensures hasDevice && isAtapi && offset + size <= |disk| ==> r == Ok(5)
      ensures InOrder(offset, size) && ManySectors(sectorSize, offset, size) ==>
                r == AnswerMany(old(sent), (offset + size) % sectorSize != 0, size)
      ensures InOrder(offset, size) && !ManySectors(sectorSize, offset, size) ==>
                r == match script(old(sent))
                     case Performed => Ok(size)
                     case Lost => Err(DeviceUnavailable)
                     case Refused(e) => Ok(Code(e))
      ensures old(Ready(sent)) && size > 0 && offset + size <= |disk| ==>
                if TooLong(sectorSize, offset, size) then r == Ok(5)
                else if LastTwo(sectorSize, |disk|, offset, size) then r == Ok(3)
                else r == Ok(size) && Delivered(buffer, offset, size)
                     && (offset % 2 == 0 ==> buffer[..size] == disk[offset..offset + size])
      decreases address % 2
    {
      OnePasses(offset, size, sent);
      if Ready(sent) && size > 0 && offset + size <= |disk| {
        ServedIff(offset, size, sent);
        OneRefused(offset, size, sent);
      }
      hide Served, Aligned, OneSector, TwoSectors, ManySectors, Plan, AnswerOne, TooLong, LastTwo, Ready, Delivered;
      hide InOrder, AnswerMany;
      if address % 2 == 1 {
        var tmp := new Byte[size / 2 * 2 + 2];
        r := Read(tmp, 0, offset, size);
        if r.Ok? {
          Copy(buffer, 0, tmp, 0, size);
        }
        return;
      }
      if offset + size > sectorCount * sectorSize {
        return Err(OutOfBounds);
      }
      WhichPath(sectorSize, offset, size);
      if Rest(offset, sectorSize) == 0 && Rest(size, sectorSize) == 0 {
        r := ReadAligned(buffer, offset, size);
      } else if Quot(offset, sectorSize) == Quot(offset + size, sectorSize) {
        r := ReadThrough(buffer, offset, size, 1);
      } else if Quot(offset, sectorSize) + 1 == Quot(offset + size, sectorSize) {
        r := ReadThrough(buffer, offset, size, 2);
      } else {
        r := ReadMany(buffer, offset, size);
      }
      if r == Ok(size) && offset % 2 == 0 && Delivered(buffer, offset, size) {
        DeliveredEven(buffer, offset, size);
      }
    }
  }

  // With each of these sizes it happens: no device, a read up to the end of the disk, fragmented memory, a
  // drive with packets, and so on.
  method CodeAsSize(size: nat) returns (p: Port, offset: nat, r: ReadResult)
    requires size in {1, 3, 4, 5, 6, 7, 8}
    ensures p.Valid() && offset + size <= |p.disk| && !p.Served(offset, size, 0) && r == Ok(size)
  {
    var why := if size == 4 then FragmentedMemory else if size == 6 then InvalidMemory
               else if size == 7 then NoResources else UnknownError;
    p := new Port(seq(16, _ => 0), 1, 16, size != 1, size == 5, _ => Refused(why));
    offset := if size == 3 then 13 else 0;
    OneOfSixteen(size);
    var plan := Plan(16, offset, size);
    p.OneCommand(plan, plan[0], 0);
    var buffer := new Byte[16];
    r := p.Read(buffer, 0, offset, size);
  }

  lemma OneOfSixteen(size: nat)
    requires size in {1, 3, 4, 5, 6, 7, 8}
    ensures size != 3 ==> !ManySectors(16, 0, size) && Plan(16, 0, size) == [Command(0, 16)]
    ensures size == 3 ==> !ManySectors(16, 13, 3) && Plan(16, 13, 3) == [Command(0, 32)]
    ensures Ceiling(16, 16) == 1 && Ceiling(32, 16) == 2
  {
    SplitAs(0, size, 16, size);
    SplitAs(0, 0, 16, 0);
    SplitAs(0, 13, 16, 13);
    SplitAs(1, 0, 16, 16);
    SplitAs(1, 15, 16, 31);
    SplitAs(2, 15, 16, 47);
  }

  lemma WhichPath(s: nat, offset: nat, size: nat)
    requires s > 0
    ensures var q, q' := Quot(offset, s), Quot(offset + size, s);
            if Rest(offset, s) == 0 && Rest(size, s) == 0 then Aligned(s, offset, size)
            else if q == q' then OneSector(s, offset, size)
            else if q + 1 == q' then TwoSectors(s, offset, size)
            else ManySectors(s, offset, size)
  {
    QuotGrows(s, offset, size);
  }

  // ---------------------------------------------------------------- the end of the disk

  ghost predicate Inside(c: Command, s: nat, sectors: nat)
    requires s > 0
  {
    c.lba + Ceiling(c.len, s) <= sectors
  }

  lemma CeilingOf(k: nat, s: nat)
    requires s > 0
    ensures Ceiling(k * s, s) == k
  {
    SplitAs(k, s - 1, s, k * s + s - 1);
  }

  // The sectors of a read that stays on the disk.
  lemma QuotAtMost(s: nat, sectors: nat, x: nat)
    requires s > 0 && x <= sectors * s
    ensures Quot(x, s) <= sectors && (Quot(x, s) == sectors ==> x == sectors * s)
  {
    Split(x, s);
    if Quot(x, s) >= sectors {
      Distribute(Quot(x, s) - sectors, sectors, s);
      if Quot(x, s) > sectors {
        MulAtLeast(Quot(x, s) - sectors, s);
      }
    }
  }

  // A read that stays on the disk asks for sectors of the disk only, except exactly if it takes the way
  // of two sectors and ends with the disk: it then asks for the sector after the last, and is refused.
  lemma {:induction false} PlanInsideIff(s: nat, sectors: nat, offset: nat, size: nat)
    requires s > 0 && offset + size <= sectors * s
    ensures (forall c :: c in Plan(s, offset, size) ==> Inside(c, s, sectors)) <==>
            !(TwoSectors(s, offset, size) && offset + size == sectors * s)
  {
    var p, q, q' := Plan(s, offset, size), Quot(offset, s), Quot(offset + size, s);
    WhichPath(s, offset, size);
    QuotAtMost(s, sectors, offset + size);
    QuotGrows(s, offset, size);
    Split(offset, s);
    CeilingOf(1, s);
    CeilingOf(2, s);
    if Aligned(s, offset, size) {
      AlignedInside(s, sectors, offset, size);
      assert p[0] in p;
    } else if q == q' {
      NotAtEnd(s, sectors, offset, size);
    } else if q + 1 == q' {
      assert p[0] in p;
      SplitAs(sectors, 0, s, sectors * s);
    } else {
      ManyParts(s, offset, size);
      CeilingOf(q' - q - 1, s);
      SplitAs(sectors, 0, s, sectors * s);
    }
  }

  // The last 100 bytes of a disk of 8 sectors: the two sectors that are asked for are the eighth and a ninth.
  lemma NinthOfEight()
    ensures Plan(512, 3996, 100) == [Command(7, 1024)] && !Inside(Command(7, 1024), 512, 8)
  {
    SplitAs(7, 412, 512, 3996);
    SplitAs(8, 0, 512, 4096);
    SplitAs(0, 100, 512, 100);
    CeilingOf(2, 512);
  }

  lemma AlignedInside(s: nat, sectors: nat, offset: nat, size: nat)
    requires s > 0 && offset + size <= sectors * s && Aligned(s, offset, size)
    ensures Quot(offset, s) + Ceiling(size, s) <= sectors
  {
    Split(offset, s);
    Split(size, s);
    CeilingOf(Quot(size, s), s);
    Distribute(Quot(offset, s), Quot(size, s), s);
    SplitAs(Quot(offset, s) + Quot(size, s), 0, s, offset + size);
    QuotAtMost(s, sectors, offset + size);
  }

  lemma NotAtEnd(s: nat, sectors: nat, offset: nat, size: nat)
    requires s > 0 && offset + size <= sectors * s && OneSector(s, offset, size)
    ensures Quot(offset, s) < sectors
  {
    QuotAtMost(s, sectors, offset + size);
    Split(offset, s);
    if Quot(offset, s) == sectors {
      SplitAs(sectors, 0, s, offset);
      SplitAs(0, 0, s, size);
    }
  }
}
