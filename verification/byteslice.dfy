/**
 * Byte buffers and the (start, end) offset pairs that the request decoder
 * hands out instead of copies. A slice owns nothing: it is only meaningful
 * next to the buffer it was cut from, and it stays meaningful while that
 * buffer only grows at the back.
 */
module ByteSlice {

  type byte = bv8
  type Bytes = seq<byte>

  /** An offset pair `[start, end)` into a buffer owned by someone else. */
  datatype Slice = Slice(start: nat, end: nat) {

    /** True if the slice denotes a range of `buf` (Rust's `&buf[start..end]` would not panic). */
    predicate In(buf: Bytes) {
      start <= end <= |buf|
    }
  }

  /** The bytes a slice denotes in `buf`. */
  function View(buf: Bytes, s: Slice): (b: Bytes)
    requires s.In(buf)
    ensures |b| == s.end - s.start
    ensures forall k :: 0 <= k < |b| ==> b[k] == buf[s.start + k]
  {
    buf[s.start..s.end]
  }

  /** Appending to the buffer keeps every existing slice valid and denoting the same bytes. */
  lemma ViewSurvivesAppend(buf: Bytes, more: Bytes, s: Slice)
    requires s.In(buf)
    ensures s.In(buf + more)
    ensures View(buf + more, s) == View(buf, s)
  {
  }

  /** Cutting the buffer down to a prefix that still covers a slice does not change what it denotes. */
  lemma ViewOfPrefix(buf: Bytes, n: nat, s: Slice)
    requires s.end <= n <= |buf| && s.start <= s.end
    ensures s.In(buf[..n])
    ensures View(buf[..n], s) == View(buf, s)
  {
  }
}
