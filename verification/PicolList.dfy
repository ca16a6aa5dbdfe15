/** Picol lists: appending a quoted element to a string, and taking the first element off one
    (include/picol.h:775-795, 1156-1254, 4342-4365). A `string` here is what is before the NUL. */
module PicolList {
  import opened Words

  const VT: char := 11 as char
  const FF: char := 12 as char

  /** isspace in the C locale. */
  predicate IsSpace(c: char) {
    c == ' ' || c == '\t' || c == '\n' || c == VT || c == FF || c == '\r'
  }

  predicate Special(c: char) {
    c == ' ' || c == '"' || c == '$' || c == '[' || c == '\\' || c == '\n' || c == '\r' || c == '\t'
  }

  /** The space, the quote, the dollar, the bracket, the backslash and the line's white space, by their codes. */
  lemma SpecialIs(c: char)
    ensures Special(c) <==> c as int in {32, 34, 36, 91, 92, 10, 13, 9}
    ensures IsSpace(c) <==> c as int == 32 || 9 <= c as int <= 13
  {
  }

  predicate NeedsBraces(s: string) {
    s == "" || exists i :: 0 <= i < |s| && Special(s[i])
  }

  // ---- The printer.

  function Quoted(e: string): string {
    if NeedsBraces(e) then "{" + e + "}" else e
  }

  /** The string picolLappend leaves, given room for it. */
  function Appended(dst: string, e: string): string {
    (if dst == "" then "" else dst + " ") + Quoted(e)
  }

  /** The string that appending each element in turn leaves. */
  function Joined(es: seq<string>): string {
    if es == [] then "" else Appended(Joined(es[..|es| - 1]), es[|es| - 1])
  }

  /** What a buffer holds as a C string. */
  predicate Holds(a: seq<char>, s: string) {
    |s| < |a| && a[..|s|] == s && a[|s|] == '\0' && '\0' !in s
  }

  /** strcat, into a buffer with room. */
  method Strcat(dst: array<char>, ghost was: string, src: string)
    requires Holds(dst[..], was) && |was| + |src| < dst.Length && '\0' !in src
    modifies dst
    ensures Holds(dst[..], was + src)
  {
    var end := Strlen(dst, was);
    for i := 0 to |src|
      invariant dst[..end + i] == was + src[..i]
    {
      dst[end + i] := src[i];
      assert src[..i + 1] == src[..i] + [src[i]];
    }
    dst[end + |src|] := '\0';
    assert src[..|src|] == src;
  }

  lemma HoldsAt(a: array<char>, s: string)
    requires Holds(a[..], s)
    ensures forall i :: 0 <= i <= |s| ==> (a[i] == '\0' <==> i == |s|)
  {
    forall i | 0 <= i < |s|
      ensures a[i] != '\0'
    {
      assert a[..][..|s|][i] == s[i];
    }
  }

  method Strlen(a: array<char>, ghost s: string) returns (n: nat)
    requires Holds(a[..], s)
    ensures n == |s|
  {
    n := 0;
    HoldsAt(a, s);
    while a[n] != '\0'
      invariant n <= |s|
      decreases |s| - n
    {
      n := n + 1;
    }
  }

  /** picolNeedsBraces (include/picol.h:4342-4365). */
  method PicolNeedsBraces(s: string) returns (r: bool)
    ensures r == NeedsBraces(s)
  {
    var length := 0;
    for i := 0 to |s|
      invariant length == i && forall k :: 0 <= k < i ==> !Special(s[k])
    {
      if Special(s[i]) {
        return true;
      }
      length := length + 1;
    }
    return length == 0;
  }

  lemma HoldsFirst(a: array<char>, s: string)
    requires Holds(a[..], s)
    ensures a.Length > |s| && (a[0] == '\0' <==> s == "")
  {
    assert s != "" ==> a[..][..|s|][0] == s[0];
  }

  /** A separator, an opening brace, the element and a closing brace, as far as they are needed. */
  lemma AppendedParts(was: string, src: string)
    ensures var sep := if was == "" then was else was + " ";
      Appended(was, src) == if NeedsBraces(src) then sep + "{" + src + "}" else sep + src
    ensures |Appended(was, src)| ==
      |was| + |src| + (if was == "" then 0 else 1) + (if NeedsBraces(src) then 2 else 0)
  {
    var sep := if was == "" then was else was + " ";
    assert sep + ("{" + src + "}") == sep + "{" + src + "}";
  }

  /** picolLappend (include/picol.h:775-795). */
  method PicolLappend(dst: array<char>, dstSize: nat, ghost was: string, src: string) returns (ok: bool)
    requires 0 < dstSize <= dst.Length && Holds(dst[..], was) && '\0' !in src
    modifies dst
    ensures ok <==> |Appended(was, src)| < dstSize
    ensures if ok then Holds(dst[..], Appended(was, src)) else dst[..] == old(dst[..])
  {
    hide NeedsBraces, Holds, Appended;
    HoldsFirst(dst, was);
    AppendedParts(was, src);
    var needbraces := PicolNeedsBraces(src);
    var notEmpty := dst[0] != '\0';
    var requiredSize := (if needbraces then 2 else 0) + (if notEmpty then 1 else 0) + |src|;
    var length := Strlen(dst, was);
    if length + requiredSize > dstSize - 1 {
      return false;
    }
    ghost var now := was;
    if notEmpty {
      Strcat(dst, now, " ");
      now := now + " ";
    }
    if needbraces {
      Strcat(dst, now, "{");
      now := now + "{";
    }
    Strcat(dst, now, src);
    now := now + src;
    if needbraces {
      Strcat(dst, now, "}");
      now := now + "}";
    }
    assert now == Appended(was, src);
    return true;
  }

  // ---- The parser.

  const NESTING := 32

  /** picolListHead's variables: the position, the depth of the stack and its bottom, the escape flag, and what has
      been written. Above the bottom, the stack holds only braces. */
  datatype Scanner = Scanner(i: nat, qi: nat, q0: char, esc: bool, out: string)

  datatype Head = Head(element: string, next: nat)

  function Write(t: Scanner, c: char): Scanner { t.(out := t.out + [c]) }

  function Move(t: Scanner): Scanner { t.(i := t.i + 1) }

  /** Whether the loop stops, and its variables then or for the next character. */
  datatype Scanned = Stop(t: Scanner) | Go(t: Scanner)

  /** Write a character, and stop if that fills the target. */
  function Put(t: Scanner, c: char, size: nat): Scanned {
    if |t.out| + 1 == size - 1 then Stop(Write(t, c)) else Go(Move(Write(t, c)))
  }

  /** One pass of the loop. */
  function ScanOne(s: string, start: nat, t: Scanner, size: nat): (r: Scanned)
    requires t.i < |s|
    ensures r.Go? ==> r.t.i == t.i + 1
  {
    var c := s[t.i];
    if t.esc then (match Put(t, c, size) case Stop(u) => Stop(u) case Go(u) => Go(u.(esc := false)))
    else if t.q0 != '{' && c == '\\' then Go(Move(t.(esc := true)))
    else if t.qi == 0 && IsSpace(c) then Stop(t)
    else if c == '{' then
      if t.qi == 0 then Go(Move(t.(qi := 1, q0 := '{')))
      else
        (match Put(t, c, size)
         case Stop(u) => Stop(u)
         case Go(u) => if t.qi + 1 == NESTING then Stop(Write(t, c).(qi := NESTING)) else Go(u.(qi := t.qi + 1)))
    else if c == '}' then
      if t.qi > 1 then Put(t.(qi := t.qi - 1), c, size)
      else if t.qi == 1 && t.q0 == '{' then Stop(Move(t.(qi := 0)))
      else Stop(t)
    else if c == '"' then
      if t.qi == 1 && t.q0 == '"' then Stop(Move(t.(qi := 0)))
      else if t.qi == 0 && (t.i == start || (0 < t.i && IsSpace(s[t.i - 1]))) then Go(Move(t.(qi := 1, q0 := '"')))
      else Put(t, c, size)
    else Put(t, c, size)
  }

  function Scan(s: string, start: nat, t: Scanner, size: nat): (h: Head)
    requires t.i <= |s|
    ensures t.i <= h.next <= |s|
    decreases |s| - t.i
  {
    if t.i == |s| || |t.out| >= size then Head(t.out, t.i)
    else
      var r := ScanOne(s, start, t, size);
      StopInside(s, start, t, size);
      if r.Stop? then Head(r.t.out, r.t.i) else Scan(s, start, r.t, size)
  }

  lemma StopInside(s: string, start: nat, t: Scanner, size: nat)
    requires t.i < |s|
    ensures t.i <= ScanOne(s, start, t, size).t.i <= t.i + 1
  {
  }

  function SkipSpace(s: string, i: nat): (r: nat)
    requires i <= |s|
    ensures i <= r <= |s|
    decreases |s| - i
  {
    if i < |s| && IsSpace(s[i]) then SkipSpace(s, i + 1) else i
  }

  /** The first element of a list from a position on, and where it ends. */
  function ListHead(s: string, at: nat, size: nat): Option<Head>
    requires at <= |s|
  {
    var start := SkipSpace(s, at);
    if size == 0 || start == |s| then None else Some(Scan(s, start, Scanner(start, 0, ' ', false, ""), size))
  }

  /** The element that starts here has a first character that is written. */
  predicate Writes(s: string, i: nat) {
    i < |s| && s[i] != '}' &&
    (s[i] == '\\' ==> i + 1 < |s|) &&
    (s[i] == '{' ==> i + 1 < |s| && s[i + 1] != '}') &&
    (s[i] == '"' ==> i + 1 < |s| && s[i + 1] != '}' && s[i + 1] != '"' && (s[i + 1] == '\\' ==> i + 2 < |s|))
  }

  lemma ScanOnce(s: string, start: nat, t: Scanner, size: nat)
    requires t.i < |s| && |t.out| < size
    ensures var r := ScanOne(s, start, t, size);
      r.t.i <= |s| &&
      Scan(s, start, t, size) == if r.Stop? then Head(r.t.out, r.t.i) else Scan(s, start, r.t, size)
  {
    StopInside(s, start, t, size);
  }

  /** In a target of one byte the scan ends at the first character written. */
  lemma WritesIs(s: string, start: nat)
    requires start < |s| && !IsSpace(s[start])
    ensures Scan(s, start, Scanner(start, 0, ' ', false, ""), 1).element != "" <==> Writes(s, start)
  {
    hide Scan;
    var t := Scanner(start, 0, ' ', false, "");
    ScanOnce(s, start, t, 1);
    var r := ScanOne(s, start, t, 1);
    ScanEnds(s, start, r.t);
    if r.Go? && r.t.out == "" && r.t.i < |s| {
      ScanOnce(s, start, r.t, 1);
      var u := ScanOne(s, start, r.t, 1);
      ScanEnds(s, start, u.t);
      if u.Go? && u.t.out == "" && u.t.i < |s| {
        ScanOnce(s, start, u.t, 1);
        ScanEnds(s, start, ScanOne(s, start, u.t, 1).t);
      }
    }
  }

  lemma ScanEnds(s: string, start: nat, t: Scanner)
    ensures t.i <= |s| && (t.i == |s| || t.out != "") ==> Scan(s, start, t, 1) == Head(t.out, t.i)
  {
  }

  lemma SkipEnds(s: string, i: nat)
    requires i <= |s|
    ensures SkipSpace(s, i) < |s| ==> !IsSpace(s[SkipSpace(s, i)])
    decreases |s| - i
  {
  }

  /** What a target of one byte is left by: a list with an element whose first character is written. */
  lemma OneByteTarget(s: string, at: nat)
    requires at <= |s|
    ensures ListHead(s, at, 1).Some? && ListHead(s, at, 1).value.element != "" <==> Writes(s, SkipSpace(s, at))
  {
    hide Scan, Writes;
    SkipEnds(s, at);
    if SkipSpace(s, at) < |s| {
      WritesIs(s, SkipSpace(s, at));
    } else {
      assert !Writes(s, |s|) by { NothingWritten(s); }
    }
  }

  /** There is no element exactly when there is no room at all, or nothing but white space. */
  lemma NoElement(s: string, at: nat, size: nat)
    requires at <= |s|
    ensures ListHead(s, at, size).None? <==> size == 0 || forall i :: at <= i < |s| ==> IsSpace(s[i])
  {
    hide Scan;
    SkipEnds(s, at);
    SkipsSpace(s, at);
  }

  lemma {:induction false} SkipsSpace(s: string, i: nat)
    requires i <= |s|
    ensures forall j :: i <= j < SkipSpace(s, i) ==> IsSpace(s[j])
    decreases |s| - i
  {
    hide IsSpace;
    if i < |s| && IsSpace(s[i]) {
      SkipsSpace(s, i + 1);
    }
  }

  lemma NothingWritten(s: string)
    ensures !Writes(s, |s|)
  {
  }

  /** The list "a" is enough. */
  lemma OneByteLeft()
    ensures Writes("a", SkipSpace("a", 0)) && ListHead("a", 0, 1) == Some(Head("a", 1))
  {
    assert SkipSpace("a", 0) == 0;
    ScanOnce("a", 0, Scanner(0, 0, ' ', false, ""), 1);
    ScanEnds("a", 0, ScanOne("a", 0, Scanner(0, 0, ' ', false, ""), 1).t);
    assert "" + ['a'] == "a";
  }

  /** A quote in the middle of an element is a character like others; after white space, which only a backslash can
      have put there, it opens. */
  lemma QuoteInside(s: string, start: nat, i: nat, out: string, size: nat)
    requires start < i < |s| && s[i] == '"' && |out| + 1 < size - 1
    ensures ScanOne(s, start, Scanner(i, 0, ' ', false, out), size) ==
      if IsSpace(s[i - 1]) then Go(Scanner(i + 1, 1, '"', false, out))
      else Go(Scanner(i + 1, 0, ' ', false, out + ['"']))
  {
  }

  /** The element a"b is whole. */
  lemma QuotedMiddle()
    ensures ListHead("a\"b", 0, 10) == Some(Head("a\"b", 3))
  {
    hide Scan;
    var s := "a\"b";
    assert SkipSpace(s, 0) == 0;
    ScanOnce(s, 0, Scanner(0, 0, ' ', false, ""), 10);
    ScanOnce(s, 0, Scanner(1, 0, ' ', false, "a"), 10);
    ScanOnce(s, 0, Scanner(2, 0, ' ', false, "a\""), 10);
    ScanStops(s, 0, Scanner(3, 0, ' ', false, "a\"b"), 10);
    assert "" + ['a'] == "a" && "a" + ['"'] == "a\"" && "a\"" + ['b'] == s;
  }

  lemma ScanStops(s: string, start: nat, t: Scanner, size: nat)
    requires t.i == |s|
    ensures Scan(s, start, t, size) == Head(t.out, t.i)
  {
  }

  /** The body of picolListHead's loop (include/picol.h:1175-1237). */
  method Pass(s: string, ghost start: nat, atStart: bool, i: nat, q: array<char>, qi: nat, esc: bool,
        target: array<char>, ti: nat, size: nat)
    returns (stop: bool, i': nat, qi': nat, esc': bool, ti': nat)
    requires i < |s| && ti < size <= target.Length && (size > 1 ==> ti + 1 < size)
    requires qi < q.Length == NESTING && q != target
    requires '\0' !in s && '\0' !in target[..ti] && (forall k :: 1 <= k < qi ==> q[k] == '{')
    requires atStart <==> i == start
    modifies target, q
    ensures ti <= ti' <= ti + 1 && '\0' !in target[..ti'] && i <= i' <= i + 1
    ensures !stop ==> (size > 1 ==> ti' + 1 < size) && qi' < NESTING && forall k :: 1 <= k < qi' ==> q[k] == '{'
    ensures var r := ScanOne(s, start, Scanner(i, qi, old(q[0]), esc, old(target[..ti])), size);
      if stop then r.Stop? && r.t.i == i' && r.t.out == target[..ti']
      else r == Go(Scanner(i', qi', q[0], esc', target[..ti']))
  {
    i', qi', esc', ti', stop := i, qi, esc, ti, true;
    var c := s[i];
    if esc {
      target[ti], ti' := c, ti + 1;
      if ti' == size - 1 { return; }
      esc' := false;
    } else if q[0] != '{' && c == '\\' {
      esc' := true;
    } else if qi == 0 && IsSpace(c) {
      return;
    } else if c == '{' {
      if qi > 0 {
        target[ti], ti' := c, ti + 1;
        if ti' == size - 1 { return; }
      }
      q[qi], qi' := '{', qi + 1;
      if qi' == NESTING { return; }
    } else if c == '}' {
      if qi > 0 && q[qi - 1] == '{' {
        qi' := qi - 1;
        if qi' > 0 {
          target[ti], ti' := c, ti + 1;
          if ti' == size - 1 { return; }
        } else {
          i' := i + 1;
          return;
        }
      } else {
        return;
      }
    } else if c == '"' {
      if qi == 1 && q[0] == '"' {
        i', qi' := i + 1, 0;
        return;
      } else if qi == 0 && (atStart || (0 < i && IsSpace(s[i - 1]))) {
        q[0], qi' := '"', 1;
      } else {
        target[ti], ti' := c, ti + 1;
        if ti' == size - 1 { return; }
      }
    } else {
      target[ti], ti' := c, ti + 1;
      if ti' == size - 1 { return; }
      esc' := false;
    }
    stop, i' := false, i + 1;
  }

  /** picolListHead (include/picol.h:1156-1242). It leaves the target when it closes a character with a NUL in a
      target of one byte. */
  method PicolListHead(s: string, at: nat, target: array<char>, size: nat) returns (left: bool, cp: Option<nat>)
    requires at <= |s| && size <= target.Length && '\0' !in s
    modifies target
    ensures left <==> size == 1 && Writes(s, SkipSpace(s, at))
    ensures match ListHead(s, at, size)
      case None => cp == None && target[..] == old(target[..])
      case Some(h) => !left ==> cp == Some(h.next) && Holds(target[..], h.element)
  {
    hide ScanOne, Writes;
    OneByteTarget(s, at);
    if at == |s| || size == 0 {
      return false, None;
    }
    var start := at;
    while start < |s| && IsSpace(s[start])
      invariant at <= start <= |s| && SkipSpace(s, start) == SkipSpace(s, at)
    {
      start := start + 1;
    }
    if start == |s| {
      return false, None;
    }
    var i: nat, q, qi: nat, ti: nat, esc := start, new char[NESTING], 0, 0, false;
    q[0] := ' ';
    ghost var h := Scan(s, start, Scanner(start, 0, ' ', false, ""), size);
    while i < |s| && ti < size
      invariant start <= i <= |s| && ti <= size && (size > 1 ==> ti < size - 1) && qi < NESTING && '\0' !in target[..ti]
      invariant forall k :: 1 <= k < qi ==> q[k] == '{'
      invariant Scan(s, start, Scanner(i, qi, q[0], esc, target[..ti]), size) == h
    {
      var stop;
      stop, i, qi, esc, ti := Pass(s, start, i == start, i, q, qi, esc, target, ti, size);
      if stop {
        break;
      }
    }
    if ti == size {
      return true, None;
    }
    target[ti] := '\0';
    return false, Some(i);
  }
}
