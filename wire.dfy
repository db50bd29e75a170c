/** Bytes, C strings and the small option type shared by the server's modules. */
module Wire {

  /** One `char` of a C buffer, as its unsigned octet value. */
  type Byte = x: int | 0 <= x < 256

  datatype Option<+T> = None | Some(value: T)

  const NUL: Byte := 0
  const NL: Byte := 10
  const SPACE: Byte := 32

  /** The bytes hold no NUL, so they can be the whole text of a C string. */
  predicate NoNul(s: seq<Byte>)
  {
    forall i :: 0 <= i < |s| ==> s[i] != NUL
  }

  /** The C string stored in a buffer: the bytes before its first NUL. */
  function CString(buf: seq<Byte>): (s: seq<Byte>)
    ensures NoNul(s) && s <= buf
    ensures |s| < |buf| ==> buf[|s|] == NUL
  {
    if buf == [] || buf[0] == NUL then [] else [buf[0]] + CString(buf[1..])
  }

  /** A buffer without a NUL is its own C string. */
  lemma CStringOfText(buf: seq<Byte>)
    requires NoNul(buf)
    ensures CString(buf) == buf
  {
    var s := CString(buf);
    assert |s| == |buf|;
  }

  /**
   * `strncpy(dst, src, width)` followed by `dst[width] = '\0'` on a NUL-free
   * `src`: the first `width` bytes survive.
   */
  function Truncate(s: seq<Byte>, width: nat): (r: seq<Byte>)
    ensures |r| == if |s| <= width then |s| else width
    ensures forall i :: 0 <= i < |r| ==> r[i] == s[i]
  {
    if |s| <= width then s else s[..width]
  }

  /** The bytes of a text, one byte per character (its code, modulo 256). */
  function Ascii(text: string): (r: seq<Byte>)
    ensures |r| == |text|
    ensures forall i :: 0 <= i < |text| ==> r[i] == (text[i] as int) % 256
  {
    seq(|text|, i requires 0 <= i < |text| => (text[i] as int) % 256)
  }

  /** The value a map holds for `k`, if any. */
  function MapGet<K, V>(m: map<K, V>, k: K): Option<V>
  {
    if k in m then Some(m[k]) else None
  }
}
