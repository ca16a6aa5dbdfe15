/** The structure block of a flattened device tree, as fdt/fdt.c reads it: a block of bytes
    (version 17, so every access is checked against its size) and the tag scanner over it. */
module FdtBlock {
  import opened Words

  const FDT_TAGSIZE := 4
  const FDT_BEGIN_NODE := 1
  const FDT_END_NODE := 2
  const FDT_PROP := 3
  const FDT_NOP := 4
  const FDT_END := 9

  const FDT_ERR_NOTFOUND := 1
  const FDT_ERR_NOSPACE := 3
  const FDT_ERR_BADOFFSET := 4
  const FDT_ERR_BADPATH := 5
  const FDT_ERR_BADPHANDLE := 6
  const FDT_ERR_TRUNCATED := 8
  const FDT_ERR_BADSTRUCTURE := 11
  const FDT_ERR_INTERNAL := 13

  /** The property length for which the 32-bit sum of header and length wraps to exactly zero. */
  const STUCK_LENGTH: word := 0xFFFF_FFF4

  /** A structure block small enough that no offset into it overflows an `int`. */
  type Block = dt: seq<byte> | |dt| < 0x4000_0000 witness []

  datatype TagAt = TagAt(tag: int, next: cint)

  function Be32(dt: Block, o: nat): word
    requires o + 4 <= |dt|
  {
    var b0, b1, b2, b3: int := dt[o], dt[o + 1], dt[o + 2], dt[o + 3];
    b0 * 0x100_0000 + b1 * 0x1_0000 + b2 * 0x100 + b3
  }

  /** FDT_TAGALIGN: round up to a multiple of four. */
  function TagAlign(x: int): (r: int)
    ensures x <= r < x + 4 && r % 4 == 0
  {
    (x + 3) / 4 * 4
  }

  /** fdt_offset_ptr returns a pointer (here: true) or NULL. All arithmetic is unsigned 32-bit. */
  predicate OffsetPtr(dt: Block, offset: cint, len: word): (inside: bool)
    ensures inside <==> 0 <= offset && offset + len <= |dt|
  {
    var sum := Wrap(Wrap(offset) + len);
    !(sum < Wrap(offset)) && sum <= |dt|
  }

  /** The position just after the first NUL at or after o, or -1 when the block ends first. */
  function AfterNul(dt: Block, o: nat): (r: int)
    ensures r != -1 ==> o < r <= |dt| && dt[r - 1] == 0 && forall i :: o <= i < r - 1 ==> dt[i] != 0
    ensures r == -1 ==> forall i :: o <= i < |dt| ==> dt[i] != 0
    decreases |dt| - o
  {
    if o >= |dt| then -1
    else if dt[o] == 0 then o + 1
    else AfterNul(dt, o + 1)
  }

  function FinishTag(dt: Block, start: cint, offset: cint, tag: int): TagAt {
    if OffsetPtr(dt, start, Wrap(offset - start))
    then TagAt(tag, TagAlign(offset))
    else TagAt(FDT_END, -FDT_ERR_BADSTRUCTURE)
  }

  /** What fdt_next_tag returns (the tag) and stores (the next offset, or an error). */
  function NextTag(dt: Block, start: cint): TagAt {
    if !OffsetPtr(dt, start, FDT_TAGSIZE) then TagAt(FDT_END, -FDT_ERR_TRUNCATED)
    else
      var tag := Be32(dt, start);
      var body := start + FDT_TAGSIZE;
      if tag == FDT_BEGIN_NODE then
        var named := AfterNul(dt, body);
        if named == -1 then TagAt(FDT_END, -FDT_ERR_BADSTRUCTURE) else FinishTag(dt, start, named, tag)
      else if tag == FDT_PROP then
        if !OffsetPtr(dt, body, 4) then TagAt(FDT_END, -FDT_ERR_BADSTRUCTURE)
        else FinishTag(dt, start, ToInt(Wrap(body + 8 + Be32(dt, body))), tag)
      else if tag == FDT_END || tag == FDT_END_NODE || tag == FDT_NOP then FinishTag(dt, start, body, tag)
      else TagAt(FDT_END, -FDT_ERR_BADSTRUCTURE)
  }

  /** fdt_next_tag (fdt/fdt.c:93-141). */
  method FdtNextTag(dt: Block, startoffset: cint) returns (tag: int, nextoffset: cint)
    ensures TagAt(tag, nextoffset) == NextTag(dt, startoffset)
  {
    var offset := startoffset;
    nextoffset := -FDT_ERR_TRUNCATED;
    if !OffsetPtr(dt, offset, FDT_TAGSIZE) {
      return FDT_END, nextoffset;
    }
    tag := Be32(dt, offset);
    offset := offset + FDT_TAGSIZE;
    nextoffset := -FDT_ERR_BADSTRUCTURE;
    match tag {
      case 1 =>
        var p := OffsetPtr(dt, offset, 1);
        offset := offset + 1;
        while p && dt[offset - 1] != 0
          invariant startoffset + 4 < offset <= |dt| + 1
          invariant p <==> offset - 1 < |dt|
          invariant AfterNul(dt, offset - 1) == AfterNul(dt, startoffset + 4)
          decreases |dt| + 1 - offset
        {
          p := OffsetPtr(dt, offset, 1);
          offset := offset + 1;
        }
        if !p {
          return FDT_END, nextoffset;
        }
      case 3 =>
        if !OffsetPtr(dt, offset, 4) {
          return FDT_END, nextoffset;
        }
        offset := ToInt(Wrap(offset + 8 + Be32(dt, offset)));
      case 9 =>
      case 2 =>
      case 4 =>
      case _ =>
        return FDT_END, nextoffset;
    }
    if !OffsetPtr(dt, startoffset, Wrap(offset - startoffset)) {
      return FDT_END, nextoffset;
    }
    nextoffset := TagAlign(offset);
  }

  /** The one way the scanner fails to move: a property whose length wraps the offset back to its start. */
  predicate Stuck(dt: Block, o: cint) {
    o % 4 == 0 && 0 <= o && o + 8 <= |dt| && Be32(dt, o) == FDT_PROP && Be32(dt, o + FDT_TAGSIZE) == STUCK_LENGTH
  }

  /** A property moves the scan by the 32-bit sum of its header and length. */
  lemma PropStep(dt: Block, o: nat)
    requires o + 8 <= |dt| && Be32(dt, o) == FDT_PROP
    ensures var size: int := Wrap(12 + Be32(dt, o + 4) as int);
      NextTag(dt, o) ==
        if o + size <= |dt| then TagAt(FDT_PROP, TagAlign(o + size)) else TagAt(FDT_END, -FDT_ERR_BADSTRUCTURE)
  {
    hide Be32;
    var len: int := Be32(dt, o + 4);
    var offset := ToInt(Wrap(o + 12 + len));
    WrapShift(o + 12 + len, o);
    ToIntWrap(o + Wrap(12 + len));
    assert Wrap(o + Wrap(12 + len)) == Wrap(o + 12 + len);
    assert NextTag(dt, o) == FinishTag(dt, o, offset, FDT_PROP);
  }

  /** Where a tag's own bytes end, if they do: after the NUL of a node's name, after a property's data by the 32-bit
      sum, or after the tag. */
  function TagEnd(dt: Block, o: nat): Option<nat>
    requires o + 4 <= |dt|
  {
    var tag := Be32(dt, o);
    if tag == 1 then (if AfterNul(dt, o + 4) == -1 then None else Some(AfterNul(dt, o + 4)))
    else if tag == 3 then (if o + 8 <= |dt| then Some(o + Wrap(12 + Be32(dt, o + 4) as int)) else None)
    else if tag == 2 || tag == 4 || tag == 9 then Some(o + 4)
    else None
  }

  /** What the scanner says of any bytes: error 8 where there is no tag, error 11 where the tag is none of the five or
      the block ends before it does, and else the tag and the next cell. */
  lemma TagExactly(dt: Block, o: cint)
    ensures o < 0 || o + 4 > |dt| ==> NextTag(dt, o) == TagAt(9, -8)
    ensures 0 <= o && o + 4 <= |dt| ==>
      NextTag(dt, o) ==
        if TagEnd(dt, o).Some? && TagEnd(dt, o).value <= |dt| then TagAt(Be32(dt, o), TagAlign(TagEnd(dt, o).value))
        else TagAt(9, -11)
  {
    hide Be32;
    if 0 <= o && o + 8 <= |dt| && Be32(dt, o) == FDT_PROP {
      PropStep(dt, o);
    } else if 0 <= o && o + 4 <= |dt| && Be32(dt, o) == FDT_BEGIN_NODE {
      var named := AfterNul(dt, o + 4);
      if named != -1 {
        WrapInside(named - o);
      }
    }
  }

  lemma WrapInside(x: int)
    ensures 0 <= x < TWO32 ==> Wrap(x) == x
  {
  }

  /** On any bytes at all, a step ends the walk, or lands on a strictly larger aligned offset
      at most 3 past the block; exactly the stuck property lands on itself. */
  lemma NextTagProgress(dt: Block, o: cint)
    ensures var t := NextTag(dt, o);
      && (t.tag != FDT_END ==> 0 <= o <= t.next <= |dt| + 3 && t.next % 4 == 0 && o + 4 <= |dt|)
      && (Stuck(dt, o) <==> t.tag != FDT_END && t.next <= o)
      && (Stuck(dt, o) ==> t == TagAt(FDT_PROP, o))
  {
    hide Be32;
    if 0 <= o && o + 8 <= |dt| && Be32(dt, o) == FDT_PROP {
      PropStep(dt, o);
      var size: int := Wrap(12 + Be32(dt, o + 4) as int);
      assert size == 0 <==> Be32(dt, o + 4) == STUCK_LENGTH;
    }
  }

  /** Scanning tags from o never meets a stuck property. */
  predicate Settles(dt: Block, o: cint)
    decreases |dt| + 4 - o
  {
    NextTagProgress(dt, o);
    !Stuck(dt, o) && (NextTag(dt, o).tag != FDT_END ==> Settles(dt, NextTag(dt, o).next))
  }

  /** The scan from o comes to an end within n steps. */
  predicate EndsWithin(dt: Block, o: cint, n: nat)
    decreases n
  {
    NextTag(dt, o).tag == FDT_END || (n > 0 && EndsWithin(dt, NextTag(dt, o).next, n - 1))
  }

  /** A scan ends exactly when it never meets a stuck property. */
  lemma SettlesExactly(dt: Block, o: cint)
    ensures Settles(dt, o) <==> exists n: nat :: EndsWithin(dt, o, n)
  {
    if Settles(dt, o) {
      var n := SettledEnds(dt, o);
    }
    if n: nat :| EndsWithin(dt, o, n) {
      EndsSettled(dt, o, n);
    }
  }

  lemma {:induction false} SettledEnds(dt: Block, o: cint) returns (n: nat)
    requires Settles(dt, o)
    ensures EndsWithin(dt, o, n)
    decreases |dt| + 4 - o
  {
    hide NextTag;
    n := 0;
    if NextTag(dt, o).tag != FDT_END {
      NextTagProgress(dt, o);
      n := SettledEnds(dt, NextTag(dt, o).next);
      n := n + 1;
    }
  }

  lemma {:induction false} EndsSettled(dt: Block, o: cint, n: nat)
    requires EndsWithin(dt, o, n)
    ensures Settles(dt, o)
    decreases n
  {
    hide NextTag;
    NextTagProgress(dt, o);
    if NextTag(dt, o).tag != FDT_END {
      EndsSettled(dt, NextTag(dt, o).next, n - 1);
    }
  }

  /** A block in which no property length field exceeds the block is scanned to its end from anywhere. */
  lemma {:induction false} LengthsInRangeSettle(dt: Block, o: cint)
    requires forall p: nat :: p + 8 <= |dt| && Be32(dt, p) == FDT_PROP ==> Be32(dt, p + 4) <= |dt|
    ensures Settles(dt, o)
    decreases |dt| + 4 - o
  {
    NextTagProgress(dt, o);
    if NextTag(dt, o).tag != FDT_END && !Stuck(dt, o) {
      LengthsInRangeSettle(dt, NextTag(dt, o).next);
    }
  }

  /** The shortest block that the scanner does not get past. */
  const STUCK_BLOCK: Block := [0, 0, 0, 3, 0xFF, 0xFF, 0xFF, 0xF4]

  lemma StuckBlock()
    ensures NextTag(STUCK_BLOCK, 0) == TagAt(FDT_PROP, 0) && forall n: nat :: !EndsWithin(STUCK_BLOCK, 0, n)
  {
    NextTagProgress(STUCK_BLOCK, 0);
    assert Be32(STUCK_BLOCK, 0) == FDT_PROP && Be32(STUCK_BLOCK, 4) == STUCK_LENGTH;
    assert !Settles(STUCK_BLOCK, 0);
    SettlesExactly(STUCK_BLOCK, 0);
  }
}
