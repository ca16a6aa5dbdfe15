/** Property lookup and the searches built on it (fdt/fdt_ro.c:83-89, 223-308, 436-470). */
module FdtProps {
  import opened Words
  import opened FdtBlock
  import opened FdtTree
  import opened FdtWalk
  import opened FdtTrails
  import opened FdtLookup
  import opened FdtPath

  /** The bytes of "linux,phandle". */
  const LINUX_PHANDLE: Name := [108, 105, 110, 117, 120, 44, 112, 104, 97, 110, 100, 108, 101]

  lemma PhandleName()
    ensures LINUX_PHANDLE == Ascii("linux,phandle")
  {
  }

  /** _fdt_string_eq (fdt/fdt_ro.c:83-89): the string at an offset of the strings block is this name. */
  predicate StringEq(strings: Block, stroffset: nat, name: Name) {
    AfterNul(strings, stroffset) == stroffset + |name| + 1 && strings[stroffset..stroffset + |name|] == name
  }

  /** The name stands at the offset, and its NUL after it. */
  predicate Spells(strings: Block, o: nat, name: Name) {
    NUL !in name && o + |name| < |strings| && strings[o..o + |name|] == name && strings[o + |name|] == NUL
  }

  lemma StringEqIs(strings: Block, o: nat, name: Name)
    ensures StringEq(strings, o, name) <==> Spells(strings, o, name)
  {
    if StringEq(strings, o, name) {
      assert forall i :: 0 <= i < |name| ==> name[i] == strings[o + i];
    }
    if Spells(strings, o, name) {
      forall i | 0 <= i < |name|
        ensures name[i] == strings[o + i]
      {
        assert name[i] == strings[o..o + |name|][i];
      }
    }
  }

  /** At an offset stands one name at most. */
  lemma SpellsOne(strings: Block, o: nat, a: Name, b: Name)
    requires StringEq(strings, o, a) && StringEq(strings, o, b)
    ensures a == b
  {
  }

  /** The scan for a property from a tag of its node comes to an end inside the block: until it meets the property or
      leaves the node's list, it never meets a stuck property, nor one that the block ends in the middle of. */
  predicate Scans(dt: Block, strings: Block, o: cint, name: Name)
    decreases |dt| + 4 - o
  {
    NextTagProgress(dt, o);
    var t := NextTag(dt, o);
    !Stuck(dt, o) &&
    (t.tag == FDT_PROP ==>
      o + 12 <= |dt| && (StringEq(strings, Be32(dt, o + 8), name) || Scans(dt, strings, t.next, name))) &&
    (t.tag == FDT_NOP ==> Scans(dt, strings, t.next, name))
  }

  /** The scan of fdt_get_property_namelen from a tag of the node: the property's offset, or an error. */
  function FindProp(dt: Block, strings: Block, o: cint, name: Name): (r: cint)
    requires Scans(dt, strings, o, name)
    ensures r >= 0 ==> o <= r && r + 12 <= |dt| && NextTag(dt, r).tag == FDT_PROP
    decreases |dt| + 4 - o
  {
    NextTagProgress(dt, o);
    var t := NextTag(dt, o);
    if t.tag == FDT_END then (if t.next < 0 then t.next else -FDT_ERR_BADSTRUCTURE)
    else if t.tag == FDT_PROP then
      if StringEq(strings, Be32(dt, o + 8), name) then o else FindProp(dt, strings, t.next, name)
    else if t.tag == FDT_NOP then FindProp(dt, strings, t.next, name)
    else -FDT_ERR_NOTFOUND
  }

  /** The data of a property lies in the block, unless header and length wrap 32 bits. */
  lemma PropInside(dt: Block, o: nat)
    requires o + 12 <= |dt| && NextTag(dt, o).tag == FDT_PROP && Be32(dt, o + 4) < STUCK_LENGTH
    ensures o + 12 + Be32(dt, o + 4) as int <= |dt|
  {
    hide Be32;
    PropStep(dt, o);
  }

  /** If there is a node at the offset, the scan for the property ends inside the block. */
  predicate CanLookUp(dt: Block, strings: Block, nodeoffset: cint, name: Name) {
    CheckNodeOffset(dt, nodeoffset) >= 0 ==> Scans(dt, strings, CheckNodeOffset(dt, nodeoffset), name)
  }

  /** The offset of the property, or an error. */
  function PropertyOffset(dt: Block, strings: Block, nodeoffset: cint, name: Name): (r: cint)
    requires CanLookUp(dt, strings, nodeoffset, name)
    ensures r >= 0 ==> r + 12 <= |dt| && NextTag(dt, r).tag == FDT_PROP
  {
    var first := CheckNodeOffset(dt, nodeoffset);
    if first < 0 then first else FindProp(dt, strings, first, name)
  }

  /** fdt_get_property_namelen (fdt/fdt_ro.c:223-270): the property (its offset, or -1 for NULL) and *lenp, the length
      field as an int. */
  method FdtGetPropertyNamelen(dt: Block, strings: Block, nodeoffset: cint, name: Name) returns (prop: cint, lenp: cint)
    requires CanLookUp(dt, strings, nodeoffset, name)
    ensures var p := PropertyOffset(dt, strings, nodeoffset, name);
      if p < 0 then prop == -1 && lenp == p
      else prop == p && lenp == ToInt(Be32(dt, p + 4)) && (lenp >= 0 ==> p + 12 + lenp <= |dt|)
  {
    hide StringEq, Be32;
    var err := CheckNodeOffset(dt, nodeoffset);
    if err < 0 {
      return -1, err;
    }
    var nextoffset: cint, tag := err, FDT_NOP;
    while tag != FDT_BEGIN_NODE && tag != FDT_END_NODE
      invariant tag != FDT_BEGIN_NODE && tag != FDT_END_NODE ==> Scans(dt, strings, nextoffset, name)
      invariant tag != FDT_BEGIN_NODE && tag != FDT_END_NODE ==>
        FindProp(dt, strings, nextoffset, name) == PropertyOffset(dt, strings, nodeoffset, name)
      invariant tag == FDT_BEGIN_NODE || tag == FDT_END_NODE ==>
        PropertyOffset(dt, strings, nodeoffset, name) == -FDT_ERR_NOTFOUND
      decreases tag != FDT_BEGIN_NODE && tag != FDT_END_NODE, |dt| + 4 - nextoffset
    {
      var offset := nextoffset;
      NextTagProgress(dt, offset);
      tag, nextoffset := FdtNextTag(dt, offset);
      if tag == FDT_END {
        return -1, if nextoffset < 0 then nextoffset else -FDT_ERR_BADSTRUCTURE;
      } else if tag == FDT_PROP {
        if StringEq(strings, Be32(dt, offset + 8), name) {
          if Be32(dt, offset + 4) < STUCK_LENGTH {
            PropInside(dt, offset);
          }
          return offset, ToInt(Be32(dt, offset + 4));
        }
      }
    }
    return -1, -FDT_ERR_NOTFOUND;
  }

  /** The errors of the lookup on any bytes: 4 where no node starts, the scanner's error where the list breaks off, 11
      at an end tag inside a node, and 1 where the list ends. */
  lemma LookupEnds(dt: Block, strings: Block, o: cint, name: Name)
    ensures o < 0 || o % 4 != 0 || NextTag(dt, o).tag != 1 ==>
      CanLookUp(dt, strings, o, name) && PropertyOffset(dt, strings, o, name) == -4
    ensures var t := NextTag(dt, o);
      (t.tag == 9 ==>
        Scans(dt, strings, o, name) && FindProp(dt, strings, o, name) == if t.next < 0 then t.next else -11) &&
      (t.tag == 1 || t.tag == 2 ==> Scans(dt, strings, o, name) && FindProp(dt, strings, o, name) == -1)
  {
    hide NextTag;
    NextTagProgress(dt, o);
  }

  // ---- On encoded trees.

  /** The cell of the first property of that name among a node's own properties, or -1.
      Properties that follow a subnode are not reached. */
  function OwnProp(b: Body, c: nat, strings: Block, name: Name): (r: int)
    ensures r == -1 || c <= r < c + BodyCells(b)
  {
    match b
    case Done => -1
    case Nop(rest) => OwnProp(rest, c + 1, strings, name)
    case Prop(nameoff, data, rest) =>
      if Spells(strings, nameoff, name) then c else OwnProp(rest, c + PropCells(data), strings, name)
    case Sub(_, _) => -1
  }

  /** The node has, before its first subnode, a property at cell q. */
  predicate HasProp(b: Body, c: nat, q: nat, nameoff: word, data: seq<byte>) {
    match b
    case Done => false
    case Nop(rest) => HasProp(rest, c + 1, q, nameoff, data)
    case Prop(n, d, rest) => (q == c && n == nameoff && d == data) || HasProp(rest, c + PropCells(d), q, nameoff, data)
    case Sub(_, _) => false
  }

  lemma {:induction false} HasPropCell(b: Body, c: nat, q: nat, nameoff: word, data: seq<byte>)
    requires HasProp(b, c, q, nameoff, data)
    ensures c <= q < c + BodyCells(b)
    decreases b
  {
    match b
    case Nop(rest) => HasPropCell(rest, c + 1, q, nameoff, data);
    case Prop(n, d, rest) =>
      if HasProp(rest, c + PropCells(d), q, nameoff, data) { HasPropCell(rest, c + PropCells(d), q, nameoff, data); }
  }

  /** OwnProp is the first own property of that name: one exists at its cell, and no earlier one has the name. */
  lemma {:induction false} OwnPropFirst(b: Body, c: nat, strings: Block, name: Name, q: nat, nameoff: word,
      data: seq<byte>)
    requires HasProp(b, c, q, nameoff, data) && Spells(strings, nameoff, name)
    ensures 0 <= OwnProp(b, c, strings, name) <= q
    decreases b
  {
    HasPropCell(b, c, q, nameoff, data);
    match b
    case Nop(rest) => OwnPropFirst(rest, c + 1, strings, name, q, nameoff, data);
    case Prop(n, d, rest) =>
      if !Spells(strings, n, name) { OwnPropFirst(rest, c + PropCells(d), strings, name, q, nameoff, data); }
  }

  lemma {:induction false} OwnPropIs(b: Body, c: nat, strings: Block, name: Name)
    returns (nameoff: word, data: seq<byte>)
    requires OwnProp(b, c, strings, name) >= 0
    ensures HasProp(b, c, OwnProp(b, c, strings, name), nameoff, data) && Spells(strings, nameoff, name)
    decreases b
  {
    match b
    case Nop(rest) => nameoff, data := OwnPropIs(rest, c + 1, strings, name);
    case Prop(n, d, rest) =>
      if Spells(strings, n, name) {
        nameoff, data := n, d;
      } else {
        nameoff, data := OwnPropIs(rest, c + PropCells(d), strings, name);
      }
  }

  /** The bytes of a block hold the properties its tree has. */
  lemma {:induction false} HasPropAt(dt: Block, b: Body, c: nat, q: nat, nameoff: word, data: seq<byte>)
    requires BodyAt(dt, c, b) && HasProp(b, c, q, nameoff, data)
    ensures PropAt(dt, q, nameoff, data)
    decreases b
  {
    hide Be32, TreeAt;
    match b
    case Nop(rest) => HasPropAt(dt, rest, c + 1, q, nameoff, data);
    case Prop(n, d, rest) =>
      if !(q == c && n == nameoff && d == data) { HasPropAt(dt, rest, c + PropCells(d), q, nameoff, data); }
  }

  lemma {:induction false} FindPropBody(dt: Block, strings: Block, c: nat, b: Body, name: Name)
    requires BodyAt(dt, c, b) && 4 * (c + BodyCells(b)) <= |dt|
    requires TagIs(dt, c + BodyCells(b), FDT_END_NODE)
    ensures Scans(dt, strings, 4 * c, name)
    ensures FindProp(dt, strings, 4 * c, name) == OffsetOrNotFound(OwnProp(b, c, strings, name))
    decreases b
  {
    hide NextTag, TreeAt, StringEq, Spells, Be32, PropAt, Stuck;
    NextTagProgress(dt, 4 * c);
    match b
    case Done => PlainTag(dt, c, FDT_END_NODE);
    case Nop(rest) =>
      PlainTag(dt, c, FDT_NOP);
      FindPropBody(dt, strings, c + 1, rest, name);
    case Prop(nameoff, data, rest) =>
      PropTag(dt, c, nameoff, data);
      PropNameoff(dt, c, nameoff, data);
      StringEqIs(strings, nameoff, name);
      FindPropBody(dt, strings, c + PropCells(data), rest, name);
    case Sub(node, _) =>
      BeginOfTree(dt, c, node);
  }

  lemma PropNameoff(dt: Block, c: nat, nameoff: word, data: seq<byte>)
    requires PropAt(dt, c, nameoff, data)
    ensures 4 * c + 12 <= |dt| && Be32(dt, 4 * c + 8) == nameoff
  {
  }

  lemma BeginOfTree(dt: Block, c: nat, t: Tree)
    requires TreeAt(dt, c, t)
    ensures NextTag(dt, 4 * c) == TagAt(FDT_BEGIN_NODE, 4 * (c + HeadCells(t.name)))
  {
    hide NextTag, Be32;
    BeginTag(dt, c, t.name);
  }

  /** Looking a property up in a node finds the first of that name among the node's own, never a descendant's. */
  lemma PropertyLookup(dt: Block, strings: Block, p: Place, name: Name)
    requires PlaceAt(dt, p)
    ensures CanLookUp(dt, strings, 4 * p.cell, name)
    ensures PropertyOffset(dt, strings, 4 * p.cell, name) ==
      OffsetOrNotFound(OwnProp(p.node.body, BodyCell(p), strings, name))
  {
    hide NextTag, Be32, FindProp, BeginAt;
    SubnodeFinds(dt, p, AnyNode);
    BeginOfTree(dt, p.cell, p.node);
    FindPropBody(dt, strings, BodyCell(p), p.node.body, name);
  }

  /** A node with the properties "reg-s" and "reg", and the strings block with their names. */
  const TWO_NAMES: Block := [114, 101, 103, 45, 115, 0, 114, 101, 103, 0]
  const TWO_PROPS: Body := Prop(0, [], Prop(6, [], Done))

  /** Asking for "reg" finds the second. */
  lemma LongerName(c: nat)
    ensures OwnProp(TWO_PROPS, c, TWO_NAMES, [114, 101, 103]) == c + 3
    ensures OwnProp(TWO_PROPS, c, TWO_NAMES, [114, 101, 103, 45, 115]) == c
    ensures OwnProp(TWO_PROPS, c, TWO_NAMES, [114, 101]) == -1
  {
    var reg: Name := [114, 101, 103];
    assert TWO_NAMES[0..3] == reg && TWO_NAMES[3] == 45 && TWO_NAMES[6..9] == reg && TWO_NAMES[9] == 0;
    assert !Spells(TWO_NAMES, 0, reg) && Spells(TWO_NAMES, 6, reg);
    assert TWO_NAMES[0..5] == [114, 101, 103, 45, 115] && TWO_NAMES[2] == 103 && TWO_NAMES[8] == 103;
    assert PropCells([]) == 3;
  }

  /** The block has the data of an own property twelve bytes on. */
  lemma OwnPropBytes(dt: Block, strings: Block, p: Place, name: Name, data: seq<byte>)
    requires PlaceAt(dt, p)
    requires var q := OwnProp(p.node.body, BodyCell(p), strings, name);
      q >= 0 && HasPropData(p.node.body, BodyCell(p), q, data)
    ensures var o := 4 * OwnProp(p.node.body, BodyCell(p), strings, name) + 12;
      o + |data| <= |dt| && dt[o..o + |data|] == data
  {
    hide OwnProp, HasPropData, HasProp, Spells, PlaceAt, PropAt, TreeAt, BodyAt;
    var b, c := p.node.body, BodyCell(p);
    var nameoff, d := OwnPropIs(b, c, strings, name);
    var q := OwnProp(b, c, strings, name);
    HasPropDataIs(b, c, q, nameoff, d, data);
    BodyOfPlace(dt, p);
    HasPropAt(dt, b, c, q, nameoff, d);
    PropBytes(dt, q, nameoff, d);
  }

  lemma PropBytes(dt: Block, q: nat, nameoff: word, data: seq<byte>)
    requires PropAt(dt, q, nameoff, data)
    ensures 4 * q + 12 + |data| <= |dt| && dt[4 * q + 12..4 * q + 12 + |data|] == data
  {
  }

  // ---- Searches over all nodes.

  /** The node has a property of that name with exactly these bytes (the first one of that name counts). */
  predicate HasValue(dt: Block, strings: Block, offset: cint, name: Name, value: seq<byte>)
    requires CanLookUp(dt, strings, offset, name)
  {
    var o := PropertyOffset(dt, strings, offset, name);
    o >= 0 && Be32(dt, o + 4) == |value| && PropertyData(dt, o) == value
  }

  /** The length field is that of the value, and the value is in the block after the header. */
  lemma HasValueIs(dt: Block, strings: Block, offset: cint, name: Name, value: seq<byte>)
    requires CanLookUp(dt, strings, offset, name) && |value| < 0x8000_0000
    ensures var o := PropertyOffset(dt, strings, offset, name);
      HasValue(dt, strings, offset, name, value) <==>
        o >= 0 && Be32(dt, o + 4) == |value| && o + 12 + |value| <= |dt| && dt[o + 12..o + 12 + |value|] == value
  {
    hide PropertyOffset, CanLookUp, Be32, NextTag;
    var o := PropertyOffset(dt, strings, offset, name);
    if o >= 0 && Be32(dt, o + 4) == |value| {
      PropInside(dt, o);
    }
  }

  function PropertyData(dt: Block, o: nat): Block {
    if o + 8 <= |dt| && o + 12 + Be32(dt, o + 4) as int <= |dt|
    then dt[o + 12..o + 12 + Be32(dt, o + 4) as int]
    else []
  }

  /** The same on the tree. */
  predicate NodeHasValue(p: Place, strings: Block, name: Name, value: seq<byte>) {
    var q := OwnProp(p.node.body, BodyCell(p), strings, name);
    q >= 0 && HasPropData(p.node.body, BodyCell(p), q, value)
  }

  predicate HasPropData(b: Body, c: nat, q: nat, data: seq<byte>) {
    match b
    case Done => false
    case Nop(rest) => HasPropData(rest, c + 1, q, data)
    case Prop(_, d, rest) => if q == c then d == data else HasPropData(rest, c + PropCells(d), q, data)
    case Sub(_, _) => false
  }

  lemma {:induction false} HasPropDataIs(b: Body, c: nat, q: nat, nameoff: word, data: seq<byte>, value: seq<byte>)
    requires HasProp(b, c, q, nameoff, data)
    ensures HasPropData(b, c, q, value) <==> data == value
    decreases b
  {
    match b
    case Nop(rest) => HasPropDataIs(rest, c + 1, q, nameoff, data, value);
    case Prop(n, d, rest) =>
      if q == c {
        if HasProp(rest, c + PropCells(d), q, nameoff, data) { HasPropCell(rest, c + PropCells(d), q, nameoff, data); }
      } else {
        HasPropDataIs(rest, c + PropCells(d), q, nameoff, data, value);
      }
  }

  lemma ValueLookup(dt: Block, strings: Block, p: Place, name: Name, value: seq<byte>)
    requires PlaceAt(dt, p)
    ensures CanLookUp(dt, strings, 4 * p.cell, name)
    ensures HasValue(dt, strings, 4 * p.cell, name, value) <==> NodeHasValue(p, strings, name, value)
  {
    hide TreeAt, PropertyOffset, CanLookUp, PlaceAt, PropertyData, PropAt, HasProp, HasPropData, OwnProp, Spells;
    PropertyLookup(dt, strings, p, name);
    var b, c := p.node.body, BodyCell(p);
    var q := OwnProp(b, c, strings, name);
    if q >= 0 {
      var nameoff, data := OwnPropIs(b, c, strings, name);
      BodyOfPlace(dt, p);
      HasPropAt(dt, b, c, q, nameoff, data);
      DataOfProp(dt, q, nameoff, data);
      HasPropDataIs(b, c, q, nameoff, data, value);
    }
  }

  lemma DataOfProp(dt: Block, q: nat, nameoff: word, data: seq<byte>)
    requires PropAt(dt, q, nameoff, data)
    ensures 4 * q + 12 <= |dt| && PropertyData(dt, 4 * q) == data && Be32(dt, 4 * q + 4) == |data|
  {
  }

  lemma BodyOfPlace(dt: Block, p: Place)
    requires PlaceAt(dt, p)
    ensures BodyAt(dt, BodyCell(p), p.node.body)
  {
  }

  /** Where an untracked walk stands after k nodes. */
  function UntrackedOffset(t: Tree, k: nat): int {
    if k < |Trails(t)| then 4 * Here(Trails(t)[k]).cell else -FDT_ERR_NOTFOUND
  }

  lemma UntrackedStep(dt: Block, t: Tree, k: nat)
    requires Encodes(dt, t) && k < |Trails(t)|
    ensures var o := UntrackedOffset(t, k);
      0 <= o <= |dt| && CanStart(dt, o) && NextNode(dt, o, 0, false).offset == UntrackedOffset(t, k + 1) &&
      (k + 1 < |Trails(t)| ==> o < UntrackedOffset(t, k + 1))
  {
    hide NextNode, Encodes;
    WalkVisitsPreorder(dt, t, false);
    StandingCell(dt, t, k);
    var v := Trails(t);
    if k + 1 < |v| {
      assert LeadsTo(dt, v[k], v[k + 1], false);
      var i := TrailIndex(dt, t, v[k]);
      WalkIncreases(dt, v, false, NodeStep(-FDT_ERR_NOTFOUND, 0), k, k + 1);
    }
  }

  lemma UntrackedStart(dt: Block, t: Tree)
    requires Encodes(dt, t)
    ensures Settles(dt, 0) && forall o: cint :: o < 0 ==> NextNode(dt, o, 0, false) == NodeStep(0, 0)
  {
    WalkVisitsPreorder(dt, t, false);
    BeginOfTree(dt, 0, t);
  }

  /** A node after the start whose property has the value looked for. */
  predicate Wanted(t: Tree, tr: Trail, start: int, strings: Block, name: Name, value: seq<byte>) {
    IsTrail(t, tr) && start < 4 * Here(tr).cell && NodeHasValue(Here(tr), strings, name, value)
  }

  /** The walk from an offset ends, and so does the scan for the property in every node it comes to. */
  predicate CanSearch(dt: Block, strings: Block, o: cint, name: Name)
    decreases |dt| + 4 - o
  {
    CanStart(dt, o) &&
    (NextNodeAdvances(dt, o, 0, false);
     var n := NextNode(dt, o, 0, false).offset;
     n >= 0 ==> CanLookUp(dt, strings, n, name) && CanSearch(dt, strings, n, name))
  }

  /** The first node after the offset with that value, or the error that ends the walk. */
  function FindValue(dt: Block, strings: Block, o: cint, name: Name, value: seq<byte>): cint
    requires CanSearch(dt, strings, o, name)
    decreases |dt| + 4 - o
  {
    NextNodeAdvances(dt, o, 0, false);
    var n := NextNode(dt, o, 0, false).offset;
    if n < 0 || HasValue(dt, strings, n, name, value) then n else FindValue(dt, strings, n, name, value)
  }

  /** fdt_node_offset_by_prop_value (fdt/fdt_ro.c:436-461), from any offset of any block. */
  method FdtNodeOffsetByPropValue(dt: Block, strings: Block, startoffset: cint, propname: Name, propval: seq<byte>)
    returns (r: cint)
    requires CanSearch(dt, strings, startoffset, propname)
    ensures r == FindValue(dt, strings, startoffset, propname, propval)
  {
    hide NextNode, PropertyOffset, CanLookUp, Be32, HasValue, CanStart;
    NextNodeAdvances(dt, startoffset, 0, false);
    var offset: cint, depth := FdtNextNode(dt, startoffset, 0, false);
    while offset >= 0
      invariant offset >= 0 ==>
        CanLookUp(dt, strings, offset, propname) && CanSearch(dt, strings, offset, propname) &&
        FindValue(dt, strings, startoffset, propname, propval) ==
          if HasValue(dt, strings, offset, propname, propval) then offset
          else FindValue(dt, strings, offset, propname, propval)
      invariant offset < 0 ==> offset == FindValue(dt, strings, startoffset, propname, propval)
      decreases offset >= 0, |dt| + 4 - offset
    {
      var hit := TestValue(dt, strings, offset, propname, propval);
      if hit {
        return offset;
      }
      NextNodeAdvances(dt, offset, 0, false);
      offset, depth := FdtNextNode(dt, offset, 0, false);
    }
    return offset;
  }

  /** The comparison in the loop of fdt_node_offset_by_prop_value. */
  method TestValue(dt: Block, strings: Block, offset: cint, propname: Name, propval: seq<byte>) returns (hit: bool)
    requires CanLookUp(dt, strings, offset, propname)
    ensures hit <==> HasValue(dt, strings, offset, propname, propval)
  {
    hide NextTag, Be32, CanLookUp, PropertyOffset;
    var prop, len := FdtGetPropertyNamelen(dt, strings, offset, propname);
    return prop >= 0 && len == |propval| && dt[prop + 12..prop + 12 + len] == propval;
  }

  /** On an encoded tree, from one of its nodes or from before its root: the first node after the start whose property
      has that value, or "not found" exactly when there is none. */
  lemma ValueFinds(dt: Block, strings: Block, start: cint, name: Name, value: seq<byte>, t: Tree, tr: Trail)
    requires Encodes(dt, t) && (start >= 0 ==> NodeAt(t, start, tr))
    ensures CanSearch(dt, strings, start, name)
    ensures var r := FindValue(dt, strings, start, name, value);
      (r >= 0 ==> exists u: Trail :: NodeAt(t, r, u) && Wanted(t, u, start, strings, name, value)) &&
      (r < 0 ==> r == -FDT_ERR_NOTFOUND) &&
      forall u: Trail :: Wanted(t, u, start, strings, name, value) ==> 0 <= r <= 4 * Here(u).cell
  {
    hide NextNode, Encodes, NodeHasValue, IsTrail, HasValue, CanLookUp, CanStart;
    var v, k := Trails(t), 0;
    if start >= 0 {
      k := TrailIndex(dt, t, tr);
      UntrackedStep(dt, t, k);
      k := k + 1;
    } else {
      UntrackedStart(dt, t);
    }
    StartMeans(dt, start);
    ValueFrom(dt, strings, start, name, value, t, k);
    var r := FindValue(dt, strings, start, name, value);
    if r >= 0 {
      var m: nat :| k <= m < |v| && FirstFrom(t, k, m, strings, name, value) && r == UntrackedOffset(t, m);
      StandingCell(dt, t, m);
      if start >= 0 {
        WalkVisitsPreorder(dt, t, false);
        IndexOrder(dt, t, k - 1, m);
      }
      assert NodeAt(t, r, v[m]) && Wanted(t, v[m], start, strings, name, value);
      FirstWanted(dt, t, k, m, start, strings, name, value);
    } else {
      FirstWanted(dt, t, k, |v|, start, strings, name, value);
    }
  }

  /** The m-th node has the value, and none from the k-th to it does. */
  predicate FirstFrom(t: Tree, k: nat, m: nat, strings: Block, name: Name, value: seq<byte>)
    requires m < |Trails(t)|
  {
    NodeHasValue(Here(Trails(t)[m]), strings, name, value) &&
    forall j :: k <= j < m ==> !NodeHasValue(Here(Trails(t)[j]), strings, name, value)
  }

  lemma StartMeans(dt: Block, o: cint)
    ensures CanStart(dt, o) <==> if o < 0 then Settles(dt, 0) else CanStep(dt, o)
  {
  }

  lemma IndexOrder(dt: Block, t: Tree, i: nat, j: nat)
    requires Encodes(dt, t) && i < j < |Trails(t)|
    ensures Here(Trails(t)[i]).cell < Here(Trails(t)[j]).cell
  {
    hide Encodes, Trails;
    var s := Trails(t);
    WalkVisitsPreorder(dt, t, false);
    WalkIncreases(dt, s, false, NodeStep(-FDT_ERR_NOTFOUND, 0), i, j);
  }

  /** The search from a place just before the k-th node. */
  lemma {:induction false} ValueFrom(dt: Block, strings: Block, o: cint, name: Name, value: seq<byte>, t: Tree, k: nat)
    requires Encodes(dt, t) && k <= |Trails(t)| && CanStart(dt, o)
    requires NextNode(dt, o, 0, false).offset == UntrackedOffset(t, k)
    ensures CanSearch(dt, strings, o, name)
    ensures var r, v := FindValue(dt, strings, o, name, value), Trails(t);
      if r < 0 then
        r == -FDT_ERR_NOTFOUND && forall j :: k <= j < |v| ==> !NodeHasValue(Here(v[j]), strings, name, value)
      else exists m: nat :: k <= m < |v| && FirstFrom(t, k, m, strings, name, value) && r == UntrackedOffset(t, m)
    decreases |Trails(t)| - k
  {
    hide NextNode, Encodes, NodeHasValue, IsTrail, HasValue, CanLookUp, CanStart, Trails;
    NextNodeAdvances(dt, o, 0, false);
    var v := Trails(t);
    if k < |v| {
      UntrackedStep(dt, t, k);
      StandingCell(dt, t, k);
      TrailPlaceAt(dt, t, v[k]);
      ValueLookup(dt, strings, Here(v[k]), name, value);
      ValueFrom(dt, strings, UntrackedOffset(t, k), name, value, t, k + 1);
    }
  }

  /** When the nodes from the k-th to the m-th lack the value, every wanted node lies at or after the m-th. */
  lemma FirstWanted(dt: Block, t: Tree, k: nat, m: nat, start: int, strings: Block, name: Name, value: seq<byte>)
    requires Encodes(dt, t) && k <= m <= |Trails(t)|
    requires if start < 0 then k == 0 else 0 < k && start == 4 * Here(Trails(t)[k - 1]).cell
    requires forall j :: k <= j < m ==> !NodeHasValue(Here(Trails(t)[j]), strings, name, value)
    ensures forall u: Trail :: Wanted(t, u, start, strings, name, value) ==>
      m < |Trails(t)| && Here(Trails(t)[m]).cell <= Here(u).cell
  {
    hide Encodes, NodeHasValue, IsTrail;
    forall u: Trail | Wanted(t, u, start, strings, name, value)
      ensures m < |Trails(t)| && Here(Trails(t)[m]).cell <= Here(u).cell
    {
      var i := TrailIndex(dt, t, u);
      if i < k {
        if i < k - 1 {
          IndexOrder(dt, t, i, k - 1);
        }
        assert false;
      }
    }
  }

  /** fdt_get_phandle (fdt/fdt_ro.c:298-308): the value of a four-byte "linux,phandle", or 0. */
  method FdtGetPhandle(dt: Block, strings: Block, nodeoffset: cint) returns (r: word)
    requires CanLookUp(dt, strings, nodeoffset, LINUX_PHANDLE)
    ensures r == Phandle(dt, strings, nodeoffset)
  {
    var php, len := FdtGetPropertyNamelen(dt, strings, nodeoffset, LINUX_PHANDLE);
    if php < 0 || len != 4 {
      return 0;
    }
    return Be32(dt, php + 12);
  }

  function Phandle(dt: Block, strings: Block, nodeoffset: cint): word
    requires CanLookUp(dt, strings, nodeoffset, LINUX_PHANDLE)
  {
    var o := PropertyOffset(dt, strings, nodeoffset, LINUX_PHANDLE);
    if o < 0 || |PropertyData(dt, o)| != 4 then 0
    else Be32(PropertyData(dt, o), 0)
  }

  /** fdt_node_offset_by_phandle (fdt/fdt_ro.c:463-470): the first node with that phandle. */
  method FdtNodeOffsetByPhandle(dt: Block, strings: Block, phandle: word, ghost t: Tree) returns (r: cint)
    requires Encodes(dt, t)
    ensures phandle == 0 || phandle == 0xFFFF_FFFF ==> r == -FDT_ERR_BADPHANDLE
    ensures phandle != 0 && phandle != 0xFFFF_FFFF && r >= 0 ==>
      exists tr: Trail :: NodeAt(t, r, tr) && HasPhandle(dt, strings, r, phandle)
    ensures phandle != 0 && phandle != 0xFFFF_FFFF && r < 0 ==> r == -FDT_ERR_NOTFOUND
    ensures phandle != 0 && phandle != 0xFFFF_FFFF ==>
      forall tr: Trail, o: cint :: NodeAt(t, o, tr) && HasPhandle(dt, strings, o, phandle) ==> 0 <= r <= o
  {
    if phandle == 0 || phandle == 0xFFFF_FFFF {
      return -FDT_ERR_BADPHANDLE;
    }
    ghost var root: Trail := [Place(0, t, Done)];
    ValueFinds(dt, strings, -1, LINUX_PHANDLE, Bytes32(phandle), t, root);
    r := FdtNodeOffsetByPropValue(dt, strings, -1, LINUX_PHANDLE, Bytes32(phandle));
    forall tr: Trail, o: cint | NodeAt(t, o, tr)
      ensures HasPhandle(dt, strings, o, phandle) <==> Wanted(t, tr, -1, strings, LINUX_PHANDLE, Bytes32(phandle))
    {
      PhandleIsValue(dt, strings, t, tr, o, phandle);
    }
  }

  predicate HasPhandle(dt: Block, strings: Block, offset: cint, phandle: word) {
    CanLookUp(dt, strings, offset, LINUX_PHANDLE) && Phandle(dt, strings, offset) == phandle
  }

  lemma PhandleIsValue(dt: Block, strings: Block, t: Tree, tr: Trail, o: cint, phandle: word)
    requires Encodes(dt, t) && NodeAt(t, o, tr) && phandle != 0
    ensures HasPhandle(dt, strings, o, phandle) <==> NodeHasValue(Here(tr), strings, LINUX_PHANDLE, Bytes32(phandle))
  {
    hide Be32, Bytes32, NodeHasValue, Encodes, PropertyOffset, IsTrail, PropertyData, CanLookUp, NextTag;
    TrailPlaceAt(dt, t, tr);
    ValueLookup(dt, strings, Here(tr), LINUX_PHANDLE, Bytes32(phandle));
    var p := PropertyOffset(dt, strings, o, LINUX_PHANDLE);
    if p >= 0 {
      FourBytes(dt, p);
      Be32Bytes(PropertyData(dt, p), phandle);
    }
  }

  lemma FourBytes(dt: Block, o: nat)
    requires o + 12 <= |dt| && NextTag(dt, o).tag == FDT_PROP
    ensures |PropertyData(dt, o)| == 4 <==> Be32(dt, o + 4) == 4
  {
    hide Be32, NextTag;
    if Be32(dt, o + 4) == 4 {
      PropInside(dt, o);
    }
  }

  lemma BytesOfBe32(b0: byte, b1: byte, b2: byte, b3: byte)
    ensures var x: int := b0 as int * 0x100_0000 + b1 as int * 0x1_0000 + b2 as int * 0x100 + b3 as int;
      0 <= x < TWO32 && Bytes32(x) == [b0, b1, b2, b3]
  {
    var x: int := b0 as int * 0x100_0000 + b1 as int * 0x1_0000 + b2 as int * 0x100 + b3 as int;
    assert x / 0x100_0000 == b0;
    assert x / 0x1_0000 == b0 as int * 0x100 + b1 as int;
    assert x / 0x100 == b0 as int * 0x1_0000 + b1 as int * 0x100 + b2 as int;
  }

  lemma Be32Bytes(s: Block, x: word)
    ensures s == Bytes32(x) <==> |s| == 4 && Be32(s, 0) == x
  {
    if |s| == 4 {
      BytesOfBe32(s[0], s[1], s[2], s[3]);
      assert s == [s[0], s[1], s[2], s[3]];
    }
    if s == Bytes32(x) {
      assert Slice(s, 0, Bytes32(x));
      Bytes32Decode(s, 0, x);
    }
  }

  /** No other node has the same phandle. */
  ghost predicate UniquePhandle(dt: Block, strings: Block, t: Tree, offset: cint) {
    CanLookUp(dt, strings, offset, LINUX_PHANDLE) ==>
      forall u: Trail, p: cint :: NodeAt(t, p, u) && HasPhandle(dt, strings, p, Phandle(dt, strings, offset)) ==>
        p == offset
  }

  /** Looking a node up by a phandle that only it has finds that node. */
  method PhandleRoundTrip(dt: Block, strings: Block, offset: cint, ghost t: Tree, ghost tr: Trail) returns (r: cint)
    requires Encodes(dt, t) && NodeAt(t, offset, tr) && UniquePhandle(dt, strings, t, offset)
    ensures CanLookUp(dt, strings, offset, LINUX_PHANDLE)
    ensures var ph := Phandle(dt, strings, offset); ph != 0 && ph != 0xFFFF_FFFF ==> r == offset
  {
    TrailPlaceAt(dt, t, tr);
    PropertyLookup(dt, strings, Here(tr), LINUX_PHANDLE);
    var phandle := FdtGetPhandle(dt, strings, offset);
    r := FdtNodeOffsetByPhandle(dt, strings, phandle, t);
  }
}
