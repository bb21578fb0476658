/**
 * The file layer that the buffer pool and the log sit on: block identities and
 * in-memory pages. A page is modelled by the typed values written into it,
 * keyed by the byte offset at which each was written.
 */
module Storage {

  /** A block of a file: equal exactly when the file name and number agree. */
  datatype Block = Block(fileName: string, number: int)

  /** A typed value stored in a page: an integer or a length-prefixed string. */
  datatype Value = IntVal(i: int) | StrVal(s: string)

  /** The values written into a page, by starting offset; offsets never written read as zero bytes. */
  type Page = map<int, Value>

  /** Bytes taken by an integer in a page. */
  const INT_SIZE: int := 4

  /** Bytes per character of a stored string (single-byte encoding). */
  const BYTES_PER_CHAR: int := 1

  /** Bytes a value occupies: a string is its length (an integer) followed by its characters. */
  function ValueSize(v: Value): (n: int)
    ensures n >= INT_SIZE
    ensures v.IntVal? ==> n == INT_SIZE
  {
    match v
    case IntVal(_) => INT_SIZE
    case StrVal(s) => INT_SIZE + |s| * BYTES_PER_CHAR
  }

  /** The integer read at `offset`; at a string it is the string's length prefix. */
  function GetInt(p: Page, offset: int): int
  {
    if offset in p then
      match p[offset]
      case IntVal(i) => i
      case StrVal(s) => |s|
    else 0
  }

  /** The string read at `offset`; unwritten or integer slots read as the empty string. */
  function GetString(p: Page, offset: int): string
  {
    if offset in p && p[offset].StrVal? then p[offset].s else ""
  }

  /** Lays `vs` out one after another from `pos`, each taking `ValueSize` bytes. */
  function WriteValues(p: Page, pos: int, vs: seq<Value>): Page
    decreases |vs|
  {
    if vs == [] then p else WriteValues(p[pos := vs[0]], pos + ValueSize(vs[0]), vs[1..])
  }

  /** Laying values out from `pos` leaves every offset below `pos` as it was. */
  lemma {:induction false} WriteValuesBelow(p: Page, pos: int, vs: seq<Value>, q: int)
    requires q < pos
    ensures (q in WriteValues(p, pos, vs)) == (q in p)
    ensures q in p ==> WriteValues(p, pos, vs)[q] == p[q]
    decreases |vs|
  {
    if vs != [] {
      WriteValuesBelow(p[pos := vs[0]], pos + ValueSize(vs[0]), vs[1..], q);
    }
  }

  /** The first value laid out at `pos` is still there once the rest follow it. */
  lemma WriteValuesFirst(p: Page, pos: int, vs: seq<Value>)
    requires vs != []
    ensures pos in WriteValues(p, pos, vs) && WriteValues(p, pos, vs)[pos] == vs[0]
    ensures WriteValues(p, pos, vs) == WriteValues(p[pos := vs[0]], pos + ValueSize(vs[0]), vs[1..])
  {
    WriteValuesBelow(p[pos := vs[0]], pos + ValueSize(vs[0]), vs[1..], pos);
  }
}
