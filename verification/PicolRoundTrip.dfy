/** Which elements survive being appended to a Picol list and taken off it again: exactly those. */
module PicolRoundTrip {
  import opened Words
  import opened PicolList

  // ---- The elements that survive.

  function Bump(c: char): int {
    if c == '{' then 1 else if c == '}' then -1 else 0
  }

  /** Opening braces less closing ones. */
  function Depth(e: string): int {
    if e == "" then 0 else Bump(e[0]) + Depth(e[1..])
  }

  /** Braces balance, and nest at most 30 deep. */
  predicate Balanced(e: string) {
    Depth(e) == 0 && forall k :: 0 <= k <= |e| ==> 0 <= Depth(e[..k]) <= NESTING - 2
  }

  /** No character the parser drops or stops at. */
  predicate Bare(e: string) {
    forall i :: 0 <= i < |e| ==> e[i] != '{' && e[i] != '}' && e[i] != VT && e[i] != FF
  }

  predicate Survives(e: string, size: nat) {
    |e| < size - 1 && if NeedsBraces(e) then Balanced(e) else Bare(e)
  }

  /** Balanced, from d open braces on. */
  predicate Closes(e: string, d: nat) {
    if e == "" then d == 0
    else 0 <= d + Bump(e[0]) <= NESTING - 2 && Closes(e[1..], d + Bump(e[0]))
  }

  predicate Levels(e: string, d: int) {
    forall k :: 0 <= k <= |e| ==> 0 <= d + Depth(e[..k]) <= NESTING - 2
  }

  lemma {:induction false} ClosesIs(e: string, d: nat)
    requires d <= NESTING - 2
    ensures Closes(e, d) <==> d + Depth(e) == 0 && Levels(e, d)
    decreases |e|
  {
    if e != "" {
      var c, t := e[0], e[1..];
      LevelsStep(e, d);
      if 0 <= d + Bump(c) <= NESTING - 2 {
        ClosesIs(t, d + Bump(c));
      } else {
        assert Depth(t[..0]) == 0;
      }
    }
  }

  lemma LevelsStep(e: string, d: nat)
    requires e != "" && d <= NESTING - 2
    ensures Levels(e, d) <==> Levels(e[1..], d + Bump(e[0]))
  {
    hide Bump;
    var t := e[1..];
    forall k | 0 <= k <= |t|
      ensures Depth(e[..k + 1]) == Bump(e[0]) + Depth(t[..k])
    {
      assert e[..k + 1][1..] == t[..k];
    }
    if Levels(e, d) {
      forall k | 0 <= k <= |t|
        ensures 0 <= d + Bump(e[0]) + Depth(t[..k]) <= NESTING - 2
      {
        assert 0 <= d + Depth(e[..k + 1]) <= NESTING - 2;
      }
    }
    if Levels(t, d + Bump(e[0])) {
      forall k | 0 <= k <= |e|
        ensures 0 <= d + Depth(e[..k]) <= NESTING - 2
      {
        if k > 0 {
          assert 0 <= d + Bump(e[0]) + Depth(t[..k - 1]) <= NESTING - 2;
        }
      }
    }
  }

  // ---- What scanning does, from any state on.

  /** What has been written stays. */
  lemma {:induction false} ScanExtends(s: string, start: nat, t: Scanner, size: nat)
    requires t.i <= |s|
    ensures t.out <= Scan(s, start, t, size).element
    decreases |s| - t.i
  {
    if t.i < |s| {
      var r := ScanOne(s, start, t, size);
      OneExtends(s, start, t, size);
      if r.Go? {
        ScanExtends(s, start, r.t, size);
      }
    }
  }

  lemma OneExtends(s: string, start: nat, t: Scanner, size: nat)
    requires t.i < |s|
    ensures t.out <= ScanOne(s, start, t, size).t.out
  {
  }

  /** No more is written than is consumed, but for a last character that stopped the scan. */
  predicate Thrifty(s: string, t: Scanner, h: Head) {
    |h.element| - |t.out| <= h.next - t.i ||
    (h.next < |s| && 0 < |h.element| && |h.element| - |t.out| == h.next - t.i + 1 &&
      h.element[|h.element| - 1] == s[h.next])
  }

  lemma {:induction false} ScanThrifty(s: string, start: nat, t: Scanner, size: nat)
    requires t.i <= |s|
    ensures t.out <= Scan(s, start, t, size).element && Thrifty(s, t, Scan(s, start, t, size))
    decreases |s| - t.i
  {
    hide ScanOne;
    ScanExtends(s, start, t, size);
    if t.i < |s| {
      var r := ScanOne(s, start, t, size);
      OneThrifty(s, start, t, size);
      if r.Go? {
        ScanThrifty(s, start, r.t, size);
      }
    }
  }

  lemma OneThrifty(s: string, start: nat, t: Scanner, size: nat)
    requires t.i < |s|
    ensures var r := ScanOne(s, start, t, size);
      if r.Go? then |r.t.out| <= |t.out| + 1
      else t.out <= r.t.out && Thrifty(s, t, Head(r.t.out, r.t.i))
  {
  }

  // ---- Inside braces.

  /** Scanning a braced element and its closing brace. */
  lemma {:induction false} ScanBraced(s: string, start: nat, i: nat, d: nat, out: string, size: nat, e: string)
    requires i + |e| < |s| && s[i..i + |e|] == e && s[i + |e|] == '}' && d <= NESTING - 2 && |out| < size - 1
    ensures Scan(s, start, Scanner(i, d + 1, '{', false, out), size) == Head(out + e, i + |e| + 1) <==>
      Closes(e, d) && |out| + |e| < size - 1
    decreases |e|
  {
    hide Scan, Closes;
    var t := Scanner(i, d + 1, '{', false, out);
    var h := Scan(s, start, t, size);
    var want := Head(out + e, i + |e| + 1);
    OneBraced(s, start, i, d, out, size);
    ScanOnce(s, start, t, size);
    ClosesUnfolds(e, d);
    if e == "" {
      if d > 0 && |out| + 1 != size - 1 {
        var u := ScanOne(s, start, t, size).t;
        ScanExtends(s, start, u, size);
        assert |u.out| > |want.element|;
      }
    } else {
      var c, rest := e[0], e[1..];
      assert s[i] == c;
      if 0 <= d + Bump(c) <= NESTING - 2 && |out| + 1 < size - 1 {
        assert s[i + 1..i + 1 + |rest|] == rest;
        ScanBraced(s, start, i + 1, d + Bump(c), out + [c], size, rest);
        assert out + [c] + rest == out + e;
      }
    }
  }

  lemma ClosesUnfolds(e: string, d: nat)
    ensures Closes(e, d) <==>
      if e == "" then d == 0
      else 0 <= d + Bump(e[0]) <= NESTING - 2 && Closes(e[1..], d + Bump(e[0]))
  {
  }

  /** One character inside braces. */
  lemma OneBraced(s: string, start: nat, i: nat, d: nat, out: string, size: nat)
    requires i < |s| && d <= NESTING - 2 && |out| < size - 1
    ensures var c := s[i];
      var r := ScanOne(s, start, Scanner(i, d + 1, '{', false, out), size);
      if c == '}' && d == 0 then r.Stop? && r.t.out == out && r.t.i == i + 1
      else if |out| + 1 == size - 1 then r.Stop? && r.t.i == i && r.t.out == out + [c]
      else if c == '{' && d == NESTING - 2 then r.Stop? && r.t.i == i
      else r == Go(Scanner(i + 1, d + 1 + Bump(c), '{', false, out + [c]))
  {
  }

  // ---- Outside braces.

  /** Characters that make the printer leave an element as it is. */
  predicate Raw(e: string) {
    forall i :: 0 <= i < |e| ==> !Special(e[i])
  }

  /** The end of the list, or the separator the printer writes. */
  predicate EndsAt(s: string, i: nat) {
    i == |s| || (i < |s| && s[i] == ' ')
  }

  /** Scanning an element without braces. */
  lemma {:induction false} ScanBare(s: string, start: nat, i: nat, out: string, size: nat, e: string)
    requires i + |e| <= |s| && s[i..i + |e|] == e && EndsAt(s, i + |e|) && Raw(e) && |out| < size - 1
    ensures Scan(s, start, Scanner(i, 0, ' ', false, out), size) == Head(out + e, i + |e|) <==>
      Bare(e) && |out| + |e| < size - 1
    decreases |e|
  {
    hide Scan, ScanOne;
    var t := Scanner(i, 0, ' ', false, out);
    if e == "" {
      ScanEnd(s, start, i, out, size);
    } else {
      var c, rest := e[0], e[1..];
      assert s[i] == c && !Special(c);
      OneBare(s, start, i, out, size);
      ScanOnce(s, start, t, size);
      if c == '{' {
        ScanThrifty(s, start, ScanOne(s, start, t, size).t, size);
        assert e[|e| - 1] != ' ' && !Bare(e);
        assert (out + e)[|out + e| - 1] == e[|e| - 1];
      } else if c != '}' && !IsSpace(c) && |out| + 1 < size - 1 {
        assert s[i + 1..i + 1 + |rest|] == rest;
        BareRest(e);
        ScanBare(s, start, i + 1, out + [c], size, rest);
        assert out + [c] + rest == out + e;
      }
    }
  }

  lemma BareRest(e: string)
    requires e != "" && Raw(e) && e[0] != '{' && e[0] != '}' && !IsSpace(e[0])
    ensures Raw(e[1..]) && (Bare(e) <==> Bare(e[1..]))
  {
    if Bare(e[1..]) {
      forall i | 0 <= i < |e|
        ensures e[i] != '{' && e[i] != '}' && e[i] != VT && e[i] != FF
      {
        assert i > 0 ==> e[i] == e[1..][i - 1];
      }
    }
  }

  lemma ScanEnd(s: string, start: nat, i: nat, out: string, size: nat)
    requires i <= |s| && EndsAt(s, i)
    ensures Scan(s, start, Scanner(i, 0, ' ', false, out), size) == Head(out, i)
  {
  }

  /** One character of an element without braces. */
  lemma OneBare(s: string, start: nat, i: nat, out: string, size: nat)
    requires i < |s| && !Special(s[i]) && |out| < size - 1
    ensures var c := s[i];
      var r := ScanOne(s, start, Scanner(i, 0, ' ', false, out), size);
      if IsSpace(c) || c == '}' then r.Stop? && r.t.i == i && r.t.out == out
      else if c == '{' then r == Go(Scanner(i + 1, 1, '{', false, out))
      else if |out| + 1 == size - 1 then r.Stop? && r.t.i == i
      else r == Go(Scanner(i + 1, 0, ' ', false, out + [c]))
  {
  }

  // ---- Inside quotes.

  /** No character that closes quotes, escapes or nests. */
  predicate Plain(e: string) {
    forall i :: 0 <= i < |e| ==> e[i] != '"' && e[i] != '\\' && e[i] != '{' && e[i] != '}'
  }

  /** Scanning the rest of a quoted element and its closing quote. */
  lemma {:induction false} ScanQuoted(s: string, start: nat, i: nat, out: string, size: nat, e: string)
    requires i + |e| < |s| && s[i..i + |e|] == e && s[i + |e|] == '"' && Plain(e) && |out| + |e| < size - 1
    ensures Scan(s, start, Scanner(i, 1, '"', false, out), size) == Head(out + e, i + |e| + 1)
    decreases |e|
  {
    hide Scan;
    ScanOnce(s, start, Scanner(i, 1, '"', false, out), size);
    if e == "" {
      assert out + e == out;
    } else {
      var c, rest := e[0], e[1..];
      assert s[i] == c && s[i + 1..i + 1 + |rest|] == rest;
      ScanQuoted(s, start, i + 1, out + [c], size, rest);
      assert out + [c] + rest == out + e;
    }
  }

  /** A quoted element without such characters, white space included, is taken off whole. */
  lemma QuotedElement(s: string, at: nat, e: string, size: nat)
    requires at + |e| + 2 <= |s| && s[at] == '"' && s[at + 1..at + 1 + |e|] == e && s[at + 1 + |e|] == '"'
    requires Plain(e) && |e| < size - 1
    ensures ListHead(s, at, size) == Some(Head(e, at + |e| + 2))
  {
    hide Scan;
    assert SkipSpace(s, at) == at;
    ScanOnce(s, at, Scanner(at, 0, ' ', false, ""), size);
    ScanQuoted(s, at, at + 1, "", size, e);
    assert "" + e == e;
  }

  // ---- Elements of lists.

  /** An appended element, perhaps after a separator, and then a separator or the end. */
  predicate Follows(s: string, at: nat, e: string, next: nat) {
    at <= next <= |s| && EndsAt(s, next) &&
    (s[at..next] == Quoted(e) || s[at..next] == " " + Quoted(e))
  }

  /** An appended element comes back whole, with the rest of the list after it, if and only if it survives. */
  lemma ElementRoundTrip(s: string, at: nat, e: string, next: nat, size: nat)
    requires Follows(s, at, e, next) && size >= 2
    ensures ListHead(s, at, size) == Some(Head(e, next)) <==> Survives(e, size)
  {
    hide Scan, Special, ListHead, Balanced, Bare, NeedsBraces, Follows, Quoted;
    var from := ElementStart(s, at, e, next);
    QuotedIs(e);
    if NeedsBraces(e) {
      BracedRoundTrip(s, at, from, e, size);
    } else {
      BareRoundTrip(s, at, from, e, size);
    }
  }

  lemma QuotedIs(e: string)
    ensures Quoted(e) == if NeedsBraces(e) then "{" + e + "}" else e
  {
  }

  /** Where the element itself starts: at the position, or after the separator. */
  lemma ElementStart(s: string, at: nat, e: string, next: nat) returns (from: nat)
    requires Follows(s, at, e, next)
    ensures at <= from <= at + 1 && (from == at || s[at] == ' ') && from <= next <= |s| && EndsAt(s, next)
    ensures next == from + |Quoted(e)| && s[from..next] == Quoted(e)
  {
    hide Quoted;
    from := if s[at..next] == Quoted(e) then at else at + 1;
    if from > at {
      assert s[at..next][0] == s[at];
      assert s[from..next] == s[at..next][1..];
    }
  }

  lemma BracedRoundTrip(s: string, at: nat, from: nat, e: string, size: nat)
    requires at <= from <= at + 1 && from + |e| + 2 <= |s| && s[from..from + |e| + 2] == "{" + e + "}" && size >= 2
    requires from == at || s[at] == ' '
    ensures ListHead(s, at, size) == Some(Head(e, from + |e| + 2)) <==> |e| < size - 1 && Balanced(e)
  {
    hide Scan, ScanOne, Balanced, Closes;
    BracedParts(s, from, e);
    SkipTo(s, at, from);
    var t := Scanner(from, 0, ' ', false, "");
    OneBare(s, from, from, "", size);
    ScanOnce(s, from, t, size);
    ScanBraced(s, from, from + 1, 0, "", size, e);
    BalancedIs(e);
    assert "" + e == e;
  }

  lemma BracedParts(s: string, from: nat, e: string)
    requires from + |e| + 2 <= |s| && s[from..from + |e| + 2] == "{" + e + "}"
    ensures s[from] == '{' && s[from + 1 + |e|] == '}' && s[from + 1..from + 1 + |e|] == e
  {
    var w := s[from..from + |e| + 2];
    assert s[from] == w[0] && s[from + 1 + |e|] == w[|e| + 1];
    forall k | 0 <= k < |e|
      ensures s[from + 1..from + 1 + |e|][k] == e[k]
    {
      assert w[k + 1] == s[from + 1 + k];
    }
  }

  lemma BalancedIs(e: string)
    ensures Closes(e, 0) <==> Balanced(e)
  {
    hide Closes;
    ClosesIs(e, 0);
  }

  lemma SkipTo(s: string, at: nat, from: nat)
    requires at <= from <= at + 1 && from < |s| && (from == at || s[at] == ' ') && !IsSpace(s[from])
    ensures SkipSpace(s, at) == from
  {
    if from > at {
      assert SkipSpace(s, from) == from;
    }
  }

  lemma BareRoundTrip(s: string, at: nat, from: nat, e: string, size: nat)
    requires at <= from <= at + 1 && from + |e| <= |s| && s[from..from + |e|] == e && EndsAt(s, from + |e|) && size >= 2
    requires from == at || s[at] == ' '
    requires !NeedsBraces(e)
    ensures ListHead(s, at, size) == Some(Head(e, from + |e|)) <==> |e| < size - 1 && Bare(e)
  {
    hide Scan, ScanOne, Special, Bare;
    assert s[from] == e[0];
    assert Raw(e);
    if !IsSpace(e[0]) {
      SkipTo(s, at, from);
      ScanBare(s, from, from, "", size, e);
      assert "" + e == e;
    } else {
      SpaceFirst(e);
      SkipPast(s, at, from);
      var start := SkipSpace(s, at);
      if start < |s| {
        ScanThrifty(s, start, Scanner(start, 0, ' ', false, ""), size);
        NoSpaceLast(e);
      }
    }
  }

  lemma SpaceFirst(e: string)
    requires Raw(e) && e != "" && IsSpace(e[0])
    ensures !Bare(e)
  {
  }

  lemma NoSpaceLast(e: string)
    requires Raw(e) && e != ""
    ensures e[|e| - 1] != ' '
  {
  }

  lemma SkipPast(s: string, at: nat, from: nat)
    requires at <= from <= at + 1 && from < |s| && (from == at || s[at] == ' ') && IsSpace(s[from])
    ensures SkipSpace(s, at) > from
  {
    assert SkipSpace(s, from) == SkipSpace(s, from + 1);
    assert from > at ==> SkipSpace(s, at) == SkipSpace(s, from);
  }

  // ---- Whole lists.

  /** Taking n elements off a list, and where that ends; None if it has fewer. */
  function Take(s: string, size: nat, n: nat): (r: Option<(seq<string>, nat)>)
    ensures r.Some? ==> r.value.1 <= |s|
  {
    if n == 0 then Some(([], 0))
    else
      match Take(s, size, n - 1)
      case None => None
      case Some((es, at)) =>
        match ListHead(s, at, size)
        case None => None
        case Some(h) => Some((es + [h.element], h.next))
  }

  /** The list built by appending elements that all survive is taken apart into exactly those elements. */
  lemma ListRoundTrip(es: seq<string>, size: nat)
    requires forall i :: 0 <= i < |es| ==> Survives(es[i], size)
    ensures Take(Joined(es), size, |es|) == Some((es, |Joined(es)|)) && ListHead(Joined(es), |Joined(es)|, size) == None
  {
    if |es| > 0 {
      assert |es[0]| < size - 1;
    }
    TakeJoined(es, |es|, size);
    assert es[..|es|] == es;
  }

  lemma {:induction false} TakeJoined(es: seq<string>, n: nat, size: nat)
    requires n <= |es| && (n > 0 ==> size >= 2) && forall i :: 0 <= i < |es| ==> Survives(es[i], size)
    ensures Take(Joined(es), size, n) == Some((es[..n], |Joined(es[..n])|)) && |Joined(es[..n])| <= |Joined(es)|
    decreases n
  {
    hide Survives, ListHead, Quoted;
    JoinedFront(es, n);
    if n > 0 {
      TakeJoined(es, n - 1, size);
      JoinedFront(es, n - 1);
      assert es[..n][..n - 1] == es[..n - 1];
      var s, at, next := Joined(es), |Joined(es[..n - 1])|, |Joined(es[..n])|;
      assert s[..next][..at] == s[..at];
      assert s[at..next] == Joined(es[..n])[at..];
      ElementRoundTrip(s, at, es[n - 1], next, size);
      assert es[..n] == es[..n - 1] + [es[n - 1]];
    }
  }

  /** The list of the first elements starts the list, and is followed by a separator or the end. */
  lemma {:induction false} JoinedFront(es: seq<string>, n: nat)
    requires n <= |es|
    ensures Joined(es[..n]) <= Joined(es)
    ensures n > 0 ==> EndsAt(Joined(es), |Joined(es[..n])|)
    decreases |es|
  {
    hide Quoted;
    if n == |es| {
      assert es[..n] == es;
    } else {
      var front := es[..|es| - 1];
      JoinedFront(front, n);
      assert front[..n] == es[..n];
      if n > 0 {
        JoinedNonempty(es[..n]);
      }
    }
  }

  lemma JoinedNonempty(es: seq<string>)
    requires es != []
    ensures Joined(es) != ""
  {
  }
}
