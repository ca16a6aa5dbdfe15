/** Disk handles of the client interface, and moving bytes between a partition and guest memory
    (rom.c:285-338, 1495-1625). */
module RomDisk {
  import opened Words
  import opened MmuRanges
  import opened GuestCpu
  import opened GuestMmu
  import opened Pmem
  import opened FlatCopy
  import opened GuestState

  /** An open handle: the host's disk, where the partition is on it, and the position. */
  class DiskHandle {
    const disk: array<byte>
    const off: word
    const length: word
    var currentOff: word

    /** The partition is on the disk. */
    ghost predicate Opened() {
      off + length <= disk.Length < TWO32
    }

    /** The position is in the partition: what every operation keeps once a seek has succeeded. */
    ghost predicate Valid()
      reads this
    {
      Opened() && currentOff <= length
    }

    ghost function Bytes(): (b: seq<byte>)
      requires Opened()
      reads disk
      ensures |b| == length
    {
      disk[off..off + length]
    }

    lemma BytesAt(a: nat, b: nat)
      requires Opened() && a <= b <= length
      ensures Bytes()[a..b] == disk[off + a..off + b]
    {
      forall i | 0 <= i < b - a
        ensures Bytes()[a..b][i] == disk[off + a + i]
      {
        assert Bytes()[a..b][i] == Bytes()[a + i];
      }
    }

    /** rom_disk_seek (rom.c:285-297). */
    method Seek(offset: word) returns (ok: bool)
      requires Opened()
      modifies `currentOff
      ensures ok <==> offset <= length
      ensures ok ==> Valid() && currentOff == offset
      ensures !ok ==> currentOff == old(currentOff)
    {
      if offset > length {
        return false;
      }
      currentOff := offset;
      return true;
    }

    /** rom_disk_read (rom.c:299-317), with a host that moves at most so many bytes: none when its seek or its read
        fails. */
    method Read(s: array<byte>, len: nat, host: nat) returns (c: nat)
      requires Valid() && len <= s.Length && s != disk
      modifies `currentOff, s
      ensures Valid() && c == Min(host, Min(len, length - old(currentOff))) && currentOff == old(currentOff) + c
      ensures s[..c] == Bytes()[old(currentOff)..currentOff]
    {
      c := Min(host, Min(len, length - currentOff));
      var at := off + currentOff;
      for j := 0 to c
        invariant currentOff == old(currentOff) && s[..j] == disk[at..at + j]
      {
        s[j] := disk[at + j];
      }
      BytesAt(currentOff, currentOff + c);
      currentOff := currentOff + c;
    }

    /** rom_disk_write (rom.c:319-338). */
    method Write(s: array<byte>, len: nat, host: nat) returns (c: nat)
      requires Valid() && len <= s.Length && s != disk
      modifies `currentOff, disk
      ensures Valid() && c == Min(host, Min(len, length - old(currentOff))) && currentOff == old(currentOff) + c
      ensures disk[..] == Splice(old(disk[..]), off + old(currentOff), s[..c])
    {
      c := Min(host, Min(len, length - currentOff));
      var at := off + currentOff;
      ghost var was := disk[..];
      for j := 0 to c
        invariant currentOff == old(currentOff) && disk[..] == Splice(was, at, s[..j])
      {
        disk[at + j] := s[j];
        assert s[..j + 1] == s[..j] + [s[j]];
      }
      currentOff := currentOff + c;
    }
  }

  // ---- What the host moves.

  /** The bytes that a transfer in page chunks can move between the host and a partition with so much room: it ends with
      the first chunk that is cut short, by the room or by the host, which moves at most host(i) bytes the i-th time. */
  function Moved(ea: word, left: nat, room: nat, host: nat -> nat, i: nat): (n: nat)
    ensures n <= left && n <= room
    decreases left
  {
    if left == 0 then 0
    else
      var x := Chunk(ea, left);
      var c := Min(host(i), Min(x, room));
      if c < x then c else x + Moved(Wrap(ea + x), left - x, room - x, host, i + 1)
  }

  /** A host that always moves what it is asked to leaves only the room. */
  lemma {:induction false} MovedFull(ea: word, left: nat, room: nat, host: nat -> nat, i: nat)
    requires forall k: nat :: host(k) >= PAGE_SIZE
    ensures Moved(ea, left, room, host, i) == Min(left, room)
    decreases left
  {
    if left > 0 {
      var x := Chunk(ea, left);
      assert host(i) >= PAGE_SIZE;
      if x <= room {
        MovedFull(Wrap(ea + x), left - x, room - x, host, i + 1);
      }
    }
  }

  lemma MovedStep(ea: word, left: nat, room: nat, host: nat -> nat, i: nat)
    requires left > 0
    ensures var x, n := Chunk(ea, left), Moved(ea, left, room, host, i);
      Min(host(i), Min(x, room)) == Min(x, n) &&
      (n >= x ==> x <= room && n == x + Moved(Wrap(ea + x), left - x, room - x, host, i + 1))
  {
  }

  // ---- One-byte elements.

  lemma {:induction false} ElementsOne(b: seq<byte>, little: bool)
    ensures Elements(b, 1, little) == b
    decreases |b|
  {
    if b != [] {
      ElementsOne(b[..|b| - 1], little);
      assert Reverse(b[|b| - 1..]) == b[|b| - 1..];
    }
  }

  /** A chunk in one page never crosses into another frame. */
  lemma SameFrame(ea: word, left: nat)
    requires left > 0
    ensures Wrap(ea + Chunk(ea, left) - 1) / PAGE_SIZE == ea / PAGE_SIZE
  {
  }

  // ---- rom_read.

  /** When the BUG_ON of a BAT hit ends a read: at the first address that does not translate, if it is looked at. */
  predicate ReadHalts(vm: Vm, ea: word, len: nat, n: nat)
    requires CpuOk(vm.cpu)
  {
    var k := Reach(vm, ea, n);
    (k < n || (n < len && (n == 0 || Wrap(ea + n) % PAGE_SIZE == 0))) &&
      GuestMmu.Backmap(vm, Wrap(ea + k), false).Stops?
  }

  /** One pass of the loop, `done` bytes into it, when the page is not there. */
  lemma ReadMissing(vm: Vm, view: seq<byte>, ea: word, data: seq<byte>, done: nat, len: nat)
    requires Coherent(vm) && |view| == vm.ram && done <= |data| <= len && done < len
    requires Reach(vm, ea, done) == done && (done > 0 ==> Wrap(ea + done) % PAGE_SIZE == 0)
    requires Phys(vm, Wrap(ea + done)).None?
    ensures var d, n := Wrap(ea + done), |data|;
      var c := Min(Chunk(d, len - done), n - done);
      c == Chunk(d, n - done) && Reach(vm, ea, n) == done && Reach(vm, d, c) == 0 &&
      (CopyHalts(vm, d, c, 1) <==> GuestMmu.Backmap(vm, d, false).Stops?) &&
      (ReadHalts(vm, ea, len, n) <==> GuestMmu.Backmap(vm, d, false).Stops?) &&
      WriteThrough(vm, view, ea, data) == WriteThrough(vm, view, ea, data[..done])
  {
    hide Coherent, Phys, GuestMmu.Backmap, Reach, WriteThrough;
    CoherentOk(vm);
    var d := Wrap(ea + done);
    assert data[..done] + data[done..] == data;
    SpanEnds(vm, view, ea, data[..done], data[done..]);
    ReachNone(vm, d, Min(Chunk(d, len - done), |data| - done));
    WrapNone(d);
  }

  /** And when it is. */
  lemma ReadPresent(vm: Vm, view: seq<byte>, ea: word, data: seq<byte>, done: nat, len: nat)
    requires Coherent(vm) && |view| == vm.ram && done <= |data| <= len && done < len
    requires Reach(vm, ea, done) == done && (done > 0 ==> Wrap(ea + done) % PAGE_SIZE == 0)
    requires Phys(vm, Wrap(ea + done)).Some?
    ensures var d, n := Wrap(ea + done), |data|;
      var x := Chunk(d, len - done);
      var c := Min(x, n - done);
      !CopyHalts(vm, d, c, 1) && Reach(vm, d, c) == c && Reach(vm, ea, done + c) == done + c &&
      WriteThrough(vm, WriteThrough(vm, view, ea, data[..done]), d, data[done..done + c]) ==
        WriteThrough(vm, view, ea, data[..done + c]) &&
      Wrap(d + c) == Wrap(ea + (done + c)) && (c == x && x < len - done ==> Wrap(d + c) % PAGE_SIZE == 0) &&
      (c != x || x == len - done ==> done + c == n && !ReadHalts(vm, ea, len, n))
  {
    hide Coherent, Phys, GuestMmu.Backmap, Reach, WriteThrough;
    CoherentOk(vm);
    var d, n := Wrap(ea + done), |data|;
    var x := Chunk(d, len - done);
    var c := Min(x, n - done);
    ReachPage(vm, d, c);
    ReachSplit(vm, ea, done, c);
    WriteSplit(vm, view, ea, data[..done], data[done..done + c]);
    assert data[..done] + data[done..done + c] == data[..done + c];
    WrapAdd(ea + done, c);
    FoundNotStops(vm, d);
    if 0 < c < x {
      InsidePage(d, x, c);
    }
  }

  lemma InsidePage(d: word, x: nat, c: nat)
    requires 0 < c < x && d % PAGE_SIZE + x <= PAGE_SIZE
    ensures Wrap(d + c) % PAGE_SIZE != 0
  {
  }

  /** guest_to with an access size of one: the bytes as they are. */
  method PutBytes(g: Guest, ea: word, buf: array<byte>, c: nat) returns (stopped: bool, ok: bool)
    requires g.Valid() && c <= buf.Length && buf != g.pmem.mem
    modifies g.pmem.mem
    ensures g.Valid() && g.Abs() == old(g.Abs())
    ensures stopped <==> CopyHalts(g.Abs(), ea, c, 1)
    ensures !stopped ==> (ok <==> Reach(g.Abs(), ea, c) == c)
    ensures !stopped ==> g.Memory() == WriteThrough(g.Abs(), old(g.Memory()), ea, old(buf[..c]))
  {
    hide Guest.Valid, Guest.Abs, Guest.Memory, Guest.Little, Coherent, Reach, WriteThrough, CopyHalts, Elements;
    g.AbsOk();
    ghost var data, k := buf[..c], Reach(g.Abs(), ea, c);
    WriteReach(g.Abs(), g.Memory(), ea, data);
    ElementsOne(data[..k], g.Little());
    AlwaysAligned(ea, g.Little());
    AlignedFits(g.Abs(), ea, c, 1, g.Little());
    var astray;
    stopped, astray, ok := g.GuestTo(ea, buf, c, 1);
    assert data[..k] == buf[..k];
  }

  lemma AlwaysAligned(ea: word, little: bool)
    ensures !Unaligned(ea, 1, little)
  {
  }

  /** A read from the handle into the buffer, and the buffer into guest memory. */
  method ReadPass(g: Guest, d: DiskHandle, buf: array<byte>, ea: word, xfer: nat, host: nat)
    returns (stopped: bool, ok: bool, c: nat)
    requires g.Valid() && d.Valid() && xfer <= buf.Length
    requires buf != g.pmem.mem && buf != d.disk && d.disk != g.pmem.mem
    modifies g.pmem.mem, d`currentOff, buf
    ensures g.Valid() && g.Abs() == old(g.Abs())
    ensures d.Valid() && c == Min(host, Min(xfer, d.length - old(d.currentOff))) &&
      d.currentOff == old(d.currentOff) + c
    ensures stopped <==> CopyHalts(g.Abs(), ea, c, 1)
    ensures !stopped ==> (ok <==> Reach(g.Abs(), ea, c) == c)
    ensures !stopped ==>
      g.Memory() == WriteThrough(g.Abs(), old(g.Memory()), ea, d.Bytes()[old(d.currentOff)..d.currentOff])
  {
    hide Guest.Valid, Guest.Abs, Guest.Memory, Guest.Little, Coherent, Phys, Reach, WriteThrough, CopyHalts;
    hide DiskHandle.Bytes;
    ghost var part, was := d.Bytes(), d.currentOff;
    g.AbsOk();
    c := d.Read(buf, xfer, host);
    assert buf[..c] == part[was..d.currentOff];
    stopped, ok := PutBytes(g, ea, buf, c);
    assert d.Bytes() == part;
  }

  /** What a read has done when it ends: this count, this memory, and the position moved this far. */
  predicate ReadDone(vm: Vm, view: seq<byte>, ea: word, data: seq<byte>, count: nat, now: seq<byte>, moved: int)
    requires CpuOk(vm.cpu) && |view| == vm.ram
  {
    count <= |data| && count == Reach(vm, ea, |data|) && now == WriteThrough(vm, view, ea, data) &&
    moved == count + Chunk(Wrap(ea + count), |data| - count)
  }

  /** What holds between the passes of the loop, `done` bytes into the transfer. */
  ghost predicate Reading(vm: Vm, view: seq<byte>, start: word, data: seq<byte>, len: nat, room: nat, host: nat -> nat,
      done: nat, ea: word, i: nat, now: seq<byte>)
  {
    CpuOk(vm.cpu) && |view| == vm.ram && done <= |data| <= len && done <= len && done <= room &&
    |data| == done + Moved(ea, len - done, room - done, host, i) && ea == Wrap(start + done) &&
    Reach(vm, start, done) == done && (0 < done < len ==> ea % PAGE_SIZE == 0) &&
    now == WriteThrough(vm, view, start, data[..done])
  }

  /** One pass. */
  lemma ReadOnce(vm: Vm, view: seq<byte>, start: word, data: seq<byte>, len: nat, room: nat, host: nat -> nat,
      done: nat, ea: word, i: nat, now: seq<byte>)
    requires Coherent(vm) && Reading(vm, view, start, data, len, room, host, done, ea, i, now) && done < len
    ensures var x := Chunk(ea, len - done);
      var c := Min(host(i), Min(x, room - done));
      done + c <= |data| &&
      var next := WriteThrough(vm, now, ea, data[done..done + c]);
      var moved := done + c;
      (CopyHalts(vm, ea, c, 1) ==> ReadHalts(vm, start, len, |data|)) &&
      (!CopyHalts(vm, ea, c, 1) && Reach(vm, ea, c) != c ==>
        !ReadHalts(vm, start, len, |data|) && ReadDone(vm, view, start, data, done, next, moved)) &&
      (!CopyHalts(vm, ea, c, 1) && Reach(vm, ea, c) == c && c != x ==>
        !ReadHalts(vm, start, len, |data|) && ReadDone(vm, view, start, data, done + c, next, moved)) &&
      (!CopyHalts(vm, ea, c, 1) && Reach(vm, ea, c) == c == x ==>
        Reading(vm, view, start, data, len, room, host, done + c, Wrap(ea + x), i + 1, next))
  {
    hide Coherent, Phys, GuestMmu.Backmap, Reach, WriteThrough, CopyHalts, ReadHalts, Chunk, Wrap, Moved;
    var x, n := Chunk(ea, len - done), |data|;
    MovedStep(ea, len - done, room - done, host, i);
    NothingRead(vm, start, len);
    if Phys(vm, ea).None? {
      ReadMissing(vm, view, start, data, done, len);
      WriteNone(vm, now, ea, data[done..done + Min(x, n - done)]);
    } else {
      ReadPresent(vm, view, start, data, done, len);
      assert data[..n] == data;
    }
  }

  lemma ReadAll(vm: Vm, view: seq<byte>, start: word, data: seq<byte>, len: nat, room: nat, host: nat -> nat, ea: word,
      i: nat, now: seq<byte>)
    requires Reading(vm, view, start, data, len, room, host, len, ea, i, now)
    ensures !ReadHalts(vm, start, len, |data|) && ReadDone(vm, view, start, data, len, now, len)
  {
    assert data[..len] == data;
  }

  /** The loop of rom_read (rom.c:1523-1551): the bytes of the partition from the position on, as many as the host moves
      of at most len, go to guest memory up to the first that does not translate, and are counted. The position moves by
      the count, and, when it stopped short, by the rest of the page that is missing as well. */
  method RomRead(g: Guest, d: DiskHandle, buf: array<byte>, dataEa: word, len: word, host: nat -> nat)
    returns (stopped: bool, count: nat)
    requires g.Valid() && d.Valid() && buf.Length == PAGE_SIZE
    requires buf != g.pmem.mem && buf != d.disk && d.disk != g.pmem.mem
    modifies g.pmem.mem, d`currentOff, buf
    ensures stopped <==>
      ReadHalts(old(g.Abs()), dataEa, len, Moved(dataEa, len, d.length - old(d.currentOff), host, 0))
    ensures !stopped ==> g.Valid() && g.Abs() == old(g.Abs()) && d.Valid()
    ensures !stopped ==>
      var n := Moved(dataEa, len, d.length - old(d.currentOff), host, 0);
      count == Reach(g.Abs(), dataEa, n) &&
      d.currentOff == old(d.currentOff) + count + Chunk(Wrap(dataEa + count), n - count) &&
      g.Memory() == WriteThrough(g.Abs(), old(g.Memory()), dataEa, old(d.Bytes()[d.currentOff..d.currentOff + n]))
  {
    hide Guest.Valid, Guest.Abs, Guest.Memory, Guest.Little, Coherent, Phys, Reach, WriteThrough, GuestMmu.Backmap;
    hide CopyHalts, Chunk, Wrap, DiskHandle.Bytes, ReadHalts, Moved, Reading, ReadDone;
    ghost var vm, view, was, part := g.Abs(), g.Memory(), d.currentOff, d.Bytes();
    ghost var room: nat := d.length - d.currentOff;
    ghost var n: nat := Moved(dataEa, len, room, host, 0);
    ghost var data := part[was..was + n];
    g.AbsOk();
    ReadStarts(vm, view, dataEa, data, len, room, host);
    var left: nat, ea, i: nat := len, dataEa, 0;
    ghost var done: nat := 0;
    stopped := false;
    while left != 0
      invariant !stopped && done + left == len && d.Valid() && d.currentOff == was + done
      invariant g.Valid() && g.Abs() == vm && Reading(vm, view, dataEa, data, len, room, host, done, ea, i, g.Memory())
      decreases left
    {
      var xfer := Chunk(ea, left);
      SameFrame(ea, left);
      ReadOnce(vm, view, dataEa, data, len, room, host, done, ea, i, g.Memory());
      var ok, c;
      stopped, ok, c := ReadPass(g, d, buf, ea, xfer, host(i));
      PartSlice(part, was, n, done, c);
      assert d.Bytes() == part;
      if stopped {
        return true, 0;
      }
      if !ok {
        ReadEnd(vm, view, dataEa, data, done, g.Memory(), done + c);
        return false, len - left;
      }
      left := left - c;
      done := done + c;
      if c != xfer {
        ReadEnd(vm, view, dataEa, data, done, g.Memory(), done);
        return false, len - left;
      }
      ea, i := Wrap(ea + xfer), i + 1;
    }
    ReadAll(vm, view, dataEa, data, len, room, host, ea, i, g.Memory());
    ReadEnd(vm, view, dataEa, data, done, g.Memory(), done);
    count := len - left;
  }

  lemma ReadEnd(vm: Vm, view: seq<byte>, ea: word, data: seq<byte>, count: nat, now: seq<byte>, moved: int)
    requires CpuOk(vm.cpu) && |view| == vm.ram && ReadDone(vm, view, ea, data, count, now, moved)
    ensures count <= |data| && count == Reach(vm, ea, |data|) && now == WriteThrough(vm, view, ea, data)
    ensures moved == count + Chunk(Wrap(ea + count), |data| - count)
  {
  }

  lemma ReadStarts(vm: Vm, view: seq<byte>, start: word, data: seq<byte>, len: nat, room: nat, host: nat -> nat)
    requires CpuOk(vm.cpu) && |view| == vm.ram && |data| == Moved(start, len, room, host, 0)
    ensures Reading(vm, view, start, data, len, room, host, 0, start, 0, view)
  {
    hide Moved;
    NothingDone(vm, view, start, 1, false);
    assert data[..0] == [];
  }

  lemma NothingRead(vm: Vm, ea: word, len: nat)
    requires CpuOk(vm.cpu)
    ensures len == 0 ==> !ReadHalts(vm, ea, len, 0)
    ensures forall k: word :: Chunk(k, 0) == 0
  {
  }

  lemma PartSlice(part: seq<byte>, was: nat, n: nat, done: nat, c: nat)
    requires was + n <= |part| && done + c <= n
    ensures part[was..was + n][done..done + c] == part[was + done..was + done + c]
  {
    var a, b := part[was..was + n][done..done + c], part[was + done..was + done + c];
    forall i | 0 <= i < c
      ensures a[i] == b[i]
    {
      assert a[i] == part[was..was + n][done + i];
    }
  }

  // ---- rom_write.

  /** When the BUG_ON of a BAT hit ends a write: at the first address that does not translate, if all the bytes before
      it could be moved. */
  predicate WriteHalts(vm: Vm, ea: word, len: nat, room: nat)
    requires CpuOk(vm.cpu)
  {
    var k := Reach(vm, ea, len);
    k < len && k <= room && GuestMmu.Backmap(vm, Wrap(ea + k), false).Stops?
  }

  lemma WriteMissing(vm: Vm, view: seq<byte>, ea: word, done: nat, len: nat, room: nat)
    requires Coherent(vm) && |view| == vm.ram && done < len && done <= room
    requires Reach(vm, ea, done) == done && Phys(vm, Wrap(ea + done)).None?
    ensures var d := Wrap(ea + done);
      Reach(vm, ea, len) == done && Reach(vm, d, Chunk(d, len - done)) == 0 &&
      (CopyHalts(vm, d, Chunk(d, len - done), 1) <==> GuestMmu.Backmap(vm, d, false).Stops?) &&
      (WriteHalts(vm, ea, len, room) <==> GuestMmu.Backmap(vm, d, false).Stops?) &&
      ReadThrough(vm, view, ea, len) == ReadThrough(vm, view, ea, done)
  {
    hide Coherent, Phys, GuestMmu.Backmap, Reach, ReadThrough;
    CoherentOk(vm);
    var d := Wrap(ea + done);
    ReachSplit(vm, ea, done, len - done);
    ReachNone(vm, d, len - done);
    ReadEnds(vm, view, ea, done, len - done);
    ReachNone(vm, d, Chunk(d, len - done));
    WrapNone(d);
  }

  lemma WritePresent(vm: Vm, view: seq<byte>, ea: word, done: nat, len: nat, room: nat)
    requires Coherent(vm) && |view| == vm.ram && done < len && done <= room
    requires Reach(vm, ea, done) == done && Phys(vm, Wrap(ea + done)).Some?
    ensures var d := Wrap(ea + done);
      var x := Chunk(d, len - done);
      var c := Min(x, room - done);
      var all := ReadThrough(vm, view, ea, len);
      !CopyHalts(vm, d, x, 1) && Reach(vm, d, x) == x && Reach(vm, ea, done + x) == done + x <= |all| &&
      ReadThrough(vm, view, d, x) == all[done..done + x] && Wrap(d + x) == Wrap(ea + (done + x)) &&
      (c != x ==> room < Reach(vm, ea, len) && !WriteHalts(vm, ea, len, room)) &&
      (x == len - done ==> Reach(vm, ea, len) == len && !WriteHalts(vm, ea, len, room))
  {
    hide Coherent, Phys, GuestMmu.Backmap, Reach, ReadThrough;
    CoherentOk(vm);
    var d := Wrap(ea + done);
    var x := Chunk(d, len - done);
    ReachPage(vm, d, x);
    ReachSplit(vm, ea, done, x);
    ReachSplit(vm, ea, done + x, len - done - x);
    ReadSplit(vm, view, ea, done, x);
    ReadSplit(vm, view, ea, done + x, len - done - x);
    WrapAdd(ea + done, x);
    FoundNotStops(vm, d);
  }

  /** One pass of the loop, `done` bytes into a transfer of which `most` can be moved. */
  lemma WriteOnce(vm: Vm, view: seq<byte>, start: word, done: nat, len: nat, most: nat, room: nat, host: nat -> nat,
      ea: word, i: nat)
    requires Coherent(vm) && |view| == vm.ram && done < len && done <= most && done <= room
    requires CpuOk(vm.cpu) && Reach(vm, start, done) == done && ea == Wrap(start + done)
    requires most == done + Moved(ea, len - done, room - done, host, i)
    ensures var x, all := Chunk(ea, len - done), ReadThrough(vm, view, start, len);
      var c := Min(host(i), Min(x, room - done));
      (CopyHalts(vm, ea, x, 1) ==> WriteHalts(vm, start, len, most)) &&
      (!CopyHalts(vm, ea, x, 1) && Reach(vm, ea, x) != x ==>
        !WriteHalts(vm, start, len, most) && Reach(vm, start, len) == done) &&
      (!CopyHalts(vm, ea, x, 1) && Reach(vm, ea, x) == x ==>
        done + c <= most && done + x <= |all| && ReadThrough(vm, view, ea, x) == all[done..done + x]) &&
      (!CopyHalts(vm, ea, x, 1) && Reach(vm, ea, x) == x && c != x ==>
        !WriteHalts(vm, start, len, most) && done + c == most <= Reach(vm, start, len)) &&
      (!CopyHalts(vm, ea, x, 1) && Reach(vm, ea, x) == x == c ==>
        Reach(vm, start, done + x) == done + x && Wrap(ea + x) == Wrap(start + (done + x)) && done + x <= room &&
        most == done + x + Moved(Wrap(ea + x), len - done - x, room - done - x, host, i + 1) &&
        (x == len - done ==> !WriteHalts(vm, start, len, most) && Reach(vm, start, len) == len))
  {
    hide Coherent, Phys, GuestMmu.Backmap, Reach, ReadThrough, CopyHalts, Chunk, Wrap, WriteHalts, Moved;
    MovedStep(ea, len - done, room - done, host, i);
    if Phys(vm, ea).None? {
      WriteMissing(vm, view, start, done, len, most);
    } else {
      WritePresent(vm, view, start, done, len, most);
    }
  }

  /** Guest memory into the buffer, and the buffer into the handle. */
  method WritePass(g: Guest, d: DiskHandle, buf: array<byte>, ea: word, xfer: nat, host: nat)
    returns (stopped: bool, ok: bool, c: nat)
    requires g.Valid() && d.Valid() && xfer <= buf.Length
    requires buf != g.pmem.mem && buf != d.disk && d.disk != g.pmem.mem
    modifies d`currentOff, d.disk, buf
    ensures d.Valid() && (stopped <==> CopyHalts(g.Abs(), ea, xfer, 1))
    ensures !stopped ==> (ok <==> Reach(g.Abs(), ea, xfer) == xfer)
    ensures !stopped && !ok ==> d.disk[..] == old(d.disk[..]) && d.currentOff == old(d.currentOff)
    ensures !stopped && ok ==>
      c == Min(host, Min(xfer, d.length - old(d.currentOff))) && d.currentOff == old(d.currentOff) + c &&
      d.disk[..] ==
        Splice(old(d.disk[..]), d.off + old(d.currentOff), ReadThrough(g.Abs(), g.Memory(), ea, xfer)[..c])
  {
    hide Guest.Valid, Guest.Abs, Guest.Memory, Guest.Little, Coherent, Phys, Reach, ReadThrough, CopyHalts;
    hide Splice;
    ghost var view, was := g.Memory(), buf[..];
    g.AbsOk();
    var n;
    c := 0;
    AlwaysAligned(ea, g.Little());
    AlignedFits(g.Abs(), ea, xfer, 1, g.Little());
    var astray;
    stopped, astray, n := g.GuestFrom(buf, ea, xfer, 1);
    ok := n == xfer;
    if !stopped && ok {
      ElementsOne(ReadThrough(g.Abs(), view, ea, xfer), g.Little());
      SplicePrefix(was, ReadThrough(g.Abs(), view, ea, xfer));
      assert buf[..xfer] == buf[..][..xfer];
      c := d.Write(buf, xfer, host);
      assert buf[..c] == buf[..xfer][..c];
    }
  }

  lemma SplicePrefix(was: seq<byte>, b: seq<byte>)
    requires |b| <= |was|
    ensures Splice(was, 0, b)[..|b|] == b
  {
  }

  /** The loop of rom_write (rom.c:1589-1617): the guest's bytes up to the first that does not translate, as many as the
      host moves of at most len, go to the partition at the position, which moves by exactly the count. */
  method RomWrite(g: Guest, d: DiskHandle, buf: array<byte>, dataEa: word, len: word, host: nat -> nat)
    returns (stopped: bool, count: nat)
    requires g.Valid() && d.Valid() && buf.Length == PAGE_SIZE
    requires buf != g.pmem.mem && buf != d.disk && d.disk != g.pmem.mem
    modifies d`currentOff, d.disk, buf
    ensures stopped <==> WriteHalts(g.Abs(), dataEa, len, Moved(dataEa, len, d.length - old(d.currentOff), host, 0))
    ensures d.Valid()
    ensures !stopped ==>
      count == Min(Reach(g.Abs(), dataEa, len), Moved(dataEa, len, d.length - old(d.currentOff), host, 0)) &&
      d.currentOff == old(d.currentOff) + count &&
      d.disk[..] ==
        Splice(old(d.disk[..]), d.off + old(d.currentOff), ReadThrough(g.Abs(), g.Memory(), dataEa, len)[..count])
  {
    hide Guest.Valid, Guest.Abs, Guest.Memory, Guest.Little, Coherent, Phys, Reach, ReadThrough, GuestMmu.Backmap;
    hide CopyHalts, Chunk, Wrap, WriteHalts, Splice, Moved, CpuOk;
    ghost var vm, view, was, disk := g.Abs(), g.Memory(), d.currentOff, d.disk[..];
    ghost var room: nat := d.length - d.currentOff;
    ghost var most: nat := Moved(dataEa, len, room, host, 0);
    g.AbsOk();
    ghost var all := ReadThrough(vm, view, dataEa, len);
    NothingWritten(vm, dataEa, len, most);
    SpliceNone(disk, d.off + was);
    assert all[..0] == [];
    var left: nat, ea, i: nat := len, dataEa, 0;
    ghost var done: nat := 0;
    stopped := false;
    while left != 0
      invariant !stopped && done + left == len && done <= most && ea == Wrap(dataEa + done)
      invariant most == done + Moved(ea, left, room - done, host, i)
      invariant left == 0 ==> !WriteHalts(vm, dataEa, len, most) && Reach(vm, dataEa, len) == len
      invariant d.Valid() && d.currentOff == was + done && Reach(vm, dataEa, done) == done <= |all|
      invariant d.disk[..] == Splice(disk, d.off + was, all[..done])
      decreases left
    {
      var xfer := Chunk(ea, left);
      WriteOnce(vm, view, dataEa, done, len, most, room, host, ea, i);
      var ok, c;
      stopped, ok, c := WritePass(g, d, buf, ea, xfer, host(i));
      if stopped {
        return true, 0;
      }
      if !ok {
        break;
      }
      SameFrame(ea, left);
      Extended(disk, d.off + was, all, done, xfer, c);
      left := left - c;
      done := done + c;
      if c != xfer {
        break;
      }
      ea, i := Wrap(ea + xfer), i + 1;
    }
    count := len - left;
  }

  lemma NothingWritten(vm: Vm, ea: word, len: nat, room: nat)
    requires CpuOk(vm.cpu)
    ensures Wrap(ea) == ea && Reach(vm, ea, 0) == 0 && (len == 0 ==> !WriteHalts(vm, ea, len, room))
  {
    WrapNone(ea);
  }

  lemma Extended(disk: seq<byte>, at: nat, all: seq<byte>, done: nat, x: nat, c: nat)
    requires c <= x && done + x <= |all| && at + done + c <= |disk|
    ensures Splice(Splice(disk, at, all[..done]), at + done, all[done..done + x][..c]) ==
      Splice(disk, at, all[..done + c])
  {
    var a, b := all[..done], all[done..done + x][..c];
    assert a + b == all[..done + c];
    SpliceGrows(disk, at, a, b);
  }

  // ---- Both ways.

  /** Guest memory written to a partition at a position and read back from there to another span: whatever part of it
      the host moved out comes back, if the host moves all of that in and the other span translates whole and
      injectively. */
  method WriteThenRead(g: Guest, d: DiskHandle, buf: array<byte>, p: word, ea: word, to: word, len: word,
      hostOut: nat -> nat, hostIn: nat -> nat)
    returns (stopped: bool, ok: bool, sent: nat, got: nat)
    requires g.Valid() && d.Opened() && buf.Length == PAGE_SIZE
    requires buf != g.pmem.mem && buf != d.disk && d.disk != g.pmem.mem
    requires forall k: nat :: hostIn(k) >= PAGE_SIZE
    modifies g.pmem.mem, d`currentOff, d.disk, buf
    ensures ok <==> p <= d.length
    ensures !stopped && ok ==> g.Abs() == old(g.Abs()) && got <= sent && sent <= Reach(g.Abs(), ea, len)
    ensures !stopped && ok && Reach(g.Abs(), to, sent) == sent && Injective(g.Abs(), to, sent) ==>
      got == sent && d.Valid() && d.currentOff == p + sent &&
      ReadThrough(g.Abs(), g.Memory(), to, sent) == ReadThrough(g.Abs(), old(g.Memory()), ea, len)[..sent]
  {
    hide Guest.Valid, Guest.Abs, Guest.Memory, Guest.Little, Coherent, Phys, Reach, ReadThrough, WriteThrough;
    hide Injective;
    hide Splice, Moved, Chunk, ReadHalts, WriteHalts, DiskHandle.Bytes, Reals, CpuOk;
    stopped, sent, got := false, 0, 0;
    g.AbsOk();
    ok := d.Seek(p);
    if !ok {
      return;
    }
    ghost var vm, view, room := g.Abs(), g.Memory(), d.length - p;
    ghost var disk := d.disk[..];
    stopped, sent := RomWrite(g, d, buf, ea, len, hostOut);
    if stopped {
      return;
    }
    ghost var bytes := ReadThrough(vm, view, ea, len)[..sent];
    ok := d.Seek(p);
    d.BytesAt(p, p + sent);
    SpliceBack(disk, d.off + p, bytes);
    assert d.disk[d.off + p..d.off + p + sent] == d.disk[..][d.off + p..d.off + p + sent];
    MovedFull(to, sent, room, hostIn, 0);
    stopped, got := RomRead(g, d, buf, to, sent, hostIn);
    NoChunk();
    if !stopped && Reach(vm, to, sent) == sent && Injective(vm, to, sent) {
      ReadBack(vm, view, to, bytes);
    }
  }

  lemma SpliceBack(m: seq<byte>, h: nat, b: seq<byte>)
    requires h + |b| <= |m|
    ensures Splice(m, h, b)[h..h + |b|] == b
  {
  }

  lemma NoChunk()
    ensures forall k: word :: Chunk(k, 0) == 0
  {
  }

  // ---- A read that loses part of the disk.

  /** Reading two pages to the second page of memory: one page is counted and stored, but the position moves by two. */
  lemma LostPage(host: nat -> nat)
    requires forall k: nat :: host(k) >= PAGE_SIZE
    ensures Initial(TWO_PAGES) && Coherent(TWO_PAGES)
    ensures var n := Moved(PAGE_SIZE, 2 * PAGE_SIZE, 2 * PAGE_SIZE, host, 0);
      n == 2 * PAGE_SIZE && !ReadHalts(TWO_PAGES, PAGE_SIZE, n, n) && Reach(TWO_PAGES, PAGE_SIZE, n) == PAGE_SIZE &&
      Chunk(Wrap(PAGE_SIZE + PAGE_SIZE), n - PAGE_SIZE) == PAGE_SIZE
  {
    hide Coherent, Reach, Moved;
    TwoPages();
    MovedFull(PAGE_SIZE, 2 * PAGE_SIZE, 2 * PAGE_SIZE, host, 0);
    RamInjective(TWO_PAGES, PAGE_SIZE, PAGE_SIZE);
    assert Wrap(PAGE_SIZE + PAGE_SIZE) == 2 * PAGE_SIZE;
    assert Phys(TWO_PAGES, 2 * PAGE_SIZE).None?;
    ReachNone(TWO_PAGES, 2 * PAGE_SIZE, PAGE_SIZE);
    ReachSplit(TWO_PAGES, PAGE_SIZE, PAGE_SIZE, PAGE_SIZE);
  }
}
