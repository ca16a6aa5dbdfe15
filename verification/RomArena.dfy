/** The bump arena over whole runs: when its claims stay apart and its exhaustion is final (rom.c:437-454). */
module RomArena {
  import opened Words
  import opened Bits
  import opened RomClaim

  datatype Request = Request(size: word, align: word)

  /** A positive size and a power-of-two alignment, neither beyond the size of RAM. */
  predicate RequestOk(ram: word, q: Request) {
    IsPow2(q.align) && 0 < q.size <= ram && q.align <= ram
  }

  predicate RequestsOk(ram: word, qs: seq<Request>) {
    forall i :: 0 <= i < |qs| ==> RequestOk(ram, qs[i])
  }

  /** The arena pointer after a run of requests. */
  function PtrAfter(ram: word, qs: seq<Request>): word
    requires RamOk(ram)
  {
    if qs == [] then ram - ARENA_SIZE
    else
      var q := qs[|qs| - 1];
      ArenaBump(PtrAfter(ram, qs[..|qs| - 1]), ram, q.size, q.align).ptr
  }

  /** What the i-th request of a run gets. */
  function Answer(ram: word, qs: seq<Request>, i: nat): Bump
    requires RamOk(ram) && i < |qs|
  {
    ArenaBump(PtrAfter(ram, qs[..i]), ram, qs[i].size, qs[i].align)
  }

  /** The largest RAM for which rounding an overrun pointer up can never wrap: 1.5 GiB. */
  const SAFE_RAM: word := 0x6000_0000

  /** No overrun pointer gets past this multiple of every permitted alignment. */
  const CEILING: word := 0xC000_0000

  lemma AlignUpBelow(x: word, a: word)
    requires IsPow2(a) && a <= SAFE_RAM && x <= CEILING
    ensures x <= AlignUp(x, a) <= CEILING && AlignUp(x, a) % a == 0
  {
    hide AlignUp, Pow2;
    var k: nat :| k < 32 && a == Pow2(k);
    Pow2Values();
    Pow2Below(k, 31);
    Pow2Add(30 - k, k);
    assert Pow2(30 - k) * a == 0x4000_0000;
    AlignUpIs(x, a);
    RoundBelow(x, a, 3 * Pow2(30 - k));
  }

  lemma RoundBelow(x: int, a: nat, m: int)
    requires 0 <= x <= CEILING && a > 0 && m * a == CEILING
    ensures var up := if x % a == 0 then x else x - x % a + a; x <= up <= CEILING && up % a == 0
  {
    var q, r := x / a, x % a;
    assert x == a * q + r;
    MulLess(a, m, q + 1);
    if r != 0 {
      assert a * (q + 1) == a * q + a;
      DivModUnique(a * (q + 1), a, q + 1, 0);
      MulLess(a, q + 1, m);
      assert a * m == CEILING;
    }
  }

  /** One request, below the safe size: the pointer never moves back, a grant is aligned and inside the arena's
      end, and a refusal leaves the pointer at or past the end, where every request is refused. */
  lemma BumpStep(ram: word, ptr: word, q: Request)
    requires RamOk(ram) && ram <= SAFE_RAM && ptr <= CEILING && RequestOk(ram, q)
    ensures var b := ArenaBump(ptr, ram, q.size, q.align);
      ptr <= b.ptr <= CEILING &&
      (b.granted ==> ptr <= b.out && b.out % q.align == 0 && b.out + q.size == b.ptr <= ram) &&
      (!b.granted ==> b.ptr >= ram) && (ptr >= ram ==> !b.granted)
  {
    hide AlignUp, IsPow2;
    AlignUpBelow(ptr, q.align);
  }

  lemma {:induction false} PtrGrows(ram: word, qs: seq<Request>, i: nat, j: nat)
    requires RamOk(ram) && ram <= SAFE_RAM && RequestsOk(ram, qs) && i <= j <= |qs|
    ensures ram - ARENA_SIZE <= PtrAfter(ram, qs[..i]) <= PtrAfter(ram, qs[..j]) <= CEILING
    decreases j
  {
    hide ArenaBump;
    if j > 0 {
      assert qs[..j][..j - 1] == qs[..j - 1];
      PtrGrows(ram, qs, if i < j then i else j - 1, j - 1);
      BumpStep(ram, PtrAfter(ram, qs[..j - 1]), qs[j - 1]);
    } else {
      assert qs[..j] == [];
    }
  }

  /** Every grant of the run is inside the arena, and an earlier request bounds a later one. */
  lemma GrantInside(ram: word, qs: seq<Request>, i: nat)
    requires RamOk(ram) && ram <= SAFE_RAM && RequestsOk(ram, qs) && i < |qs|
    ensures var a := Answer(ram, qs, i);
      a.granted ==> ram - ARENA_SIZE <= a.out && a.out + qs[i].size <= ram
  {
    hide ArenaBump, IsPow2;
    PtrGrows(ram, qs, i, i);
    BumpStep(ram, PtrAfter(ram, qs[..i]), qs[i]);
  }

  lemma GrantsApart(ram: word, qs: seq<Request>, i: nat, j: nat)
    requires RamOk(ram) && ram <= SAFE_RAM && RequestsOk(ram, qs) && i < j < |qs|
    ensures var a, b := Answer(ram, qs, i), Answer(ram, qs, j);
      (a.granted && b.granted ==> a.out + qs[i].size <= b.out) && (!a.granted ==> !b.granted)
  {
    hide ArenaBump, IsPow2;
    PtrGrows(ram, qs, i, i);
    PtrGrows(ram, qs, i + 1, j);
    BumpStep(ram, PtrAfter(ram, qs[..i]), qs[i]);
    BumpStep(ram, PtrAfter(ram, qs[..j]), qs[j]);
    assert qs[..i + 1][..i] == qs[..i];
  }

  // ---- What is promised of a whole run.

  /** Every grant is a multiple of its alignment. */
  predicate Aligned(ram: word, qs: seq<Request>)
    requires RamOk(ram) && RequestsOk(ram, qs)
  {
    forall i :: 0 <= i < |qs| && Answer(ram, qs, i).granted ==> IsMultiple(Answer(ram, qs, i).out, qs[i].align)
  }

  predicate IsMultiple(x: int, a: int) {
    a > 0 && x % a == 0
  }

  /** Every grant lies in the arena. */
  predicate Inside(ram: word, qs: seq<Request>)
    requires RamOk(ram)
  {
    forall i :: 0 <= i < |qs| && Answer(ram, qs, i).granted ==>
      ram - ARENA_SIZE <= Answer(ram, qs, i).out && Answer(ram, qs, i).out + qs[i].size <= ram
  }

  /** No address is granted twice. */
  predicate Apart(ram: word, qs: seq<Request>)
    requires RamOk(ram)
  {
    forall i, j :: 0 <= i < j < |qs| && Answer(ram, qs, i).granted && Answer(ram, qs, j).granted ==>
      Answer(ram, qs, i).out + qs[i].size <= Answer(ram, qs, j).out ||
      Answer(ram, qs, j).out + qs[j].size <= Answer(ram, qs, i).out
  }

  /** Grants increase. */
  predicate Increasing(ram: word, qs: seq<Request>)
    requires RamOk(ram)
  {
    forall i, j :: 0 <= i < j < |qs| && Answer(ram, qs, i).granted && Answer(ram, qs, j).granted ==>
      Answer(ram, qs, i).out < Answer(ram, qs, j).out
  }

  /** After one refusal every later request is refused. */
  predicate Final(ram: word, qs: seq<Request>)
    requires RamOk(ram)
  {
    forall i, j :: 0 <= i < j < |qs| && !Answer(ram, qs, i).granted ==> !Answer(ram, qs, j).granted
  }

  /** Alignment holds for every size of RAM. */
  lemma GrantsAligned(ram: word, qs: seq<Request>)
    requires RamOk(ram) && RequestsOk(ram, qs)
    ensures Aligned(ram, qs)
  {
    hide AlignUp, IsPow2;
    forall i | 0 <= i < |qs| && Answer(ram, qs, i).granted
      ensures IsMultiple(Answer(ram, qs, i).out, qs[i].align)
    {
      AlignUpMultiple(PtrAfter(ram, qs[..i]), qs[i].align);
    }
  }

  lemma AlignUpMultiple(x: word, a: word)
    requires IsPow2(a)
    ensures IsMultiple(AlignUp(x, a), a)
  {
    hide AlignUp, Pow2, Wrap;
    var k: nat :| k < 32 && a == Pow2(k);
    AlignUpIs(x, a);
    Complement(a, k);
    var m := Pow2(32 - k);
    var q, r := x / a, x % a;
    DivModIs(x, a);
    var n := if r == 0 then q else q + 1;
    assert a * (q + 1) == a * q + a;
    var up := a * n;
    assert up == if r == 0 then x else x - r + a;
    MulLess(a, m, n);
    WrapMultiple(a, m, n, up);
  }

  lemma WrapMultiple(a: nat, m: nat, n: int, up: int)
    requires a > 0 && a * m == TWO32 && 0 <= n <= m && up == a * n
    ensures Wrap(up) as int % a == 0
  {
    if n < m {
      MulLess(a, n, m);
      DivModUnique(up, a, n, 0);
    } else {
      assert up == TWO32;
      DivModUnique(0, a, 0, 0);
    }
  }

  /** Requests that run over the end, wrap the pointer to zero, are granted again outside the arena, bring the pointer
      back to its start, and get the first grant's memory once more. */
  function Overrun(ram: word): seq<Request>
    requires RamOk(ram) && ram > SAFE_RAM
  {
    [Request(ARENA_SIZE - 1, 1), Request(Min(ram, TWO32 - ram), 1), Request(PAGE_SIZE, 0x4000_0000),
     Request(ram - ARENA_SIZE - PAGE_SIZE, 1), Request(PAGE_SIZE, 1)]
  }

  lemma OverrunWraps(ram: word)
    requires RamOk(ram) && ram > SAFE_RAM
    ensures var qs := Overrun(ram);
      RequestsOk(ram, qs) && Answer(ram, qs, 0).granted && Answer(ram, qs, 0).out == ram - ARENA_SIZE &&
      !Answer(ram, qs, 1).granted && Answer(ram, qs, 2).granted && Answer(ram, qs, 2).out == 0 &&
      Answer(ram, qs, 4).granted && Answer(ram, qs, 4).out == ram - ARENA_SIZE
  {
    hide AlignUp, IsPow2, PtrAfter, Answer;
    var qs := Overrun(ram);
    OverrunAlignments();
    var p0: word := ram - ARENA_SIZE;
    var p1: word := ram - 1;
    var p2: word := p1 + Min(ram, TWO32 - ram);
    AlignUpOne(p0);
    AlignUpOne(p1);
    AlignUpOne(PAGE_SIZE);
    AlignUpIs(p2, 0x4000_0000);
    WrapsToZero(p2);
    PtrFirst(ram, qs);
    AnswerAt(ram, qs, 0, p0);
    AnswerAt(ram, qs, 1, p1);
    AnswerAt(ram, qs, 2, p2);
    AnswerAt(ram, qs, 3, PAGE_SIZE);
    AnswerAt(ram, qs, 4, p0);
  }

  lemma PtrFirst(ram: word, qs: seq<Request>)
    requires RamOk(ram)
    ensures PtrAfter(ram, qs[..0]) == ram - ARENA_SIZE
  {
  }

  lemma AnswerAt(ram: word, qs: seq<Request>, i: nat, p: word)
    requires RamOk(ram) && i < |qs| && PtrAfter(ram, qs[..i]) == p
    ensures Answer(ram, qs, i) == ArenaBump(p, ram, qs[i].size, qs[i].align)
    ensures PtrAfter(ram, qs[..i + 1]) == ArenaBump(p, ram, qs[i].size, qs[i].align).ptr
  {
    assert qs[..i + 1][..i] == qs[..i];
  }

  lemma AlignUpOne(x: word)
    ensures AlignUp(x, 1) == x
  {
    hide AlignUp, IsPow2;
    OverrunAlignments();
    AlignUpIs(x, 1);
    assert x as int % 1 == 0;
    WrapSmall(x);
  }

  lemma OverrunAlignments()
    ensures IsPow2(1) && IsPow2(0x4000_0000)
  {
    Pow2Values();
    assert 1 == Pow2(0) && 0x4000_0000 == Pow2(30);
  }

  lemma WrapsToZero(x: word)
    requires x > CEILING
    ensures Wrap(if x % 0x4000_0000 == 0 then x else x - x % 0x4000_0000 + 0x4000_0000) == 0
  {
  }

  /** Each promise but alignment holds of all runs exactly when RAM is at most 1.5 GiB. */
  lemma ArenaSafe(ram: word)
    requires RamOk(ram)
    ensures (forall qs: seq<Request> :: RequestsOk(ram, qs) ==> Inside(ram, qs)) <==> ram <= SAFE_RAM
    ensures (forall qs: seq<Request> :: RequestsOk(ram, qs) ==> Apart(ram, qs)) <==> ram <= SAFE_RAM
    ensures (forall qs: seq<Request> :: RequestsOk(ram, qs) ==> Increasing(ram, qs)) <==> ram <= SAFE_RAM
    ensures (forall qs: seq<Request> :: RequestsOk(ram, qs) ==> Final(ram, qs)) <==> ram <= SAFE_RAM
  {
    hide Inside, Apart, Increasing, Final, Answer, RequestOk, Overrun;
    if ram <= SAFE_RAM {
      forall qs: seq<Request> | RequestsOk(ram, qs)
        ensures Inside(ram, qs) && Apart(ram, qs) && Increasing(ram, qs) && Final(ram, qs)
      {
        SafeRun(ram, qs);
      }
    } else {
      OverrunFails(ram);
    }
  }

  lemma SafeRun(ram: word, qs: seq<Request>)
    requires RamOk(ram) && ram <= SAFE_RAM && RequestsOk(ram, qs)
    ensures Inside(ram, qs) && Apart(ram, qs) && Increasing(ram, qs) && Final(ram, qs)
  {
    hide Answer, IsPow2;
    forall i | 0 <= i < |qs|
      ensures var a := Answer(ram, qs, i); a.granted ==> ram - ARENA_SIZE <= a.out && a.out + qs[i].size <= ram
    {
      GrantInside(ram, qs, i);
    }
    forall i, j | 0 <= i < j < |qs|
      ensures var a, b := Answer(ram, qs, i), Answer(ram, qs, j);
        (a.granted && b.granted ==> a.out + qs[i].size <= b.out) && (!a.granted ==> !b.granted)
    {
      GrantsApart(ram, qs, i, j);
    }
  }

  lemma OverrunFails(ram: word)
    requires RamOk(ram) && ram > SAFE_RAM
    ensures var qs := Overrun(ram);
      RequestsOk(ram, qs) && !Inside(ram, qs) && !Apart(ram, qs) && !Increasing(ram, qs) && !Final(ram, qs)
  {
    hide Answer;
    OverrunWraps(ram);
    var qs := Overrun(ram);
    assert qs[0].size == ARENA_SIZE - 1 && qs[4].size == PAGE_SIZE;
  }
}
