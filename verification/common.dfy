/** What several parts of the kernel share. */
module Common {

  function Max(a: nat, b: nat): nat { if a < b then b else a }

  datatype Option<+T> = None | Some(value: T)

  type Byte = x: int | 0 <= x < 256 witness 0

  /** Where a page that is loaded comes from: the file of an area, writeable or not, or nowhere. */
  datatype Fill = FromFile(writable: bool) | ZeroFill

  /** Only pages that come from a file lose the write right of an area that is not writeable. */
  predicate Right(fill: Fill) {
    fill.FromFile? ==> fill.writable
  }

  function WithByte(s: seq<Byte>, off: nat, b: Byte): seq<Byte>
    requires off < |s|
  {
    s[off := b]
  }

  lemma {:induction false} SubsetSize<T>(a: set<T>, b: set<T>)
    requires a <= b
    ensures |a| <= |b|
  {
    assert b == a + (b - a);
  }

  const PAGE_BYTES := 4096
  const VIRT_BASE := 0xC000_0000
}
