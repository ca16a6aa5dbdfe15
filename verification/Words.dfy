/** 32-bit machine words as integers, bytes, and pages. `word` is a C `uint32_t`, `cint` a C `int`. */
module Words {
  const TWO32 := 0x1_0000_0000
  const PAGE_SIZE := 4096

  type byte = x: int | 0 <= x < 256
  type word = x: int | 0 <= x < TWO32
  type cint = x: int | -0x8000_0000 <= x < 0x8000_0000

  datatype Option<T> = None | Some(value: T)

  /** Unsigned 32-bit wrap-around. */
  function Wrap(x: int): word {
    x % TWO32
  }

  /** The C conversion of an unsigned word to `int`. */
  function ToInt(x: word): cint {
    if x < 0x8000_0000 then x else x - TWO32
  }

  /** The bytes of a word, most significant first. */
  function Bytes32(x: word): (s: seq<byte>)
    ensures |s| == 4
  {
    [x / 0x100_0000, x / 0x1_0000 % 0x100, x / 0x100 % 0x100, x % 0x100]
  }

  /** The page an address is in. */
  function PageOf(x: word): word {
    x - x % PAGE_SIZE
  }

  function Min(a: int, b: int): (m: int)
    ensures m <= a && m <= b && (m == a || m == b)
  {
    if a < b then a else b
  }

  function Max(a: int, b: int): (m: int)
    ensures m >= a && m >= b && (m == a || m == b)
  {
    if a > b then a else b
  }

  lemma WrapShift(a: int, b: int)
    ensures Wrap(ToInt(Wrap(a)) - b) == Wrap(a - b)
  {
  }

  lemma ToIntWrap(x: int)
    ensures 0 <= x < 0x8000_0000 ==> ToInt(Wrap(x)) == x
  {
  }

  /** The bytes of a text. */
  function Ascii(s: string): (b: seq<byte>)
    requires forall i :: 0 <= i < |s| ==> s[i] as int < 128
    ensures |b| == |s|
  {
    seq(|s|, i requires 0 <= i < |s| => s[i] as int)
  }
}
