/** Text buffers, borrowed views into them, and character identities.

    The program borrows `&str` slices and identifies a character by the raw
    address of its first byte.  Here a buffer is an immutable value with an
    identifier standing for its storage, a view is a (buffer, start, end)
    triple, and the identity of a character is the pair (buffer, index).
    Two views of the same storage therefore give the same identity to the
    same character, and characters of buffers with different identifiers
    never share one.  Buffer values with the same identifier stand for the
    same storage; the model does not itself keep identifiers distinct, so
    an operation that allocates takes a fresh identifier from its caller. */
module Views {

  /** An immutable buffer: the input text, a string literal, or a string
      owned by the arena.  `id` names its storage. */
  datatype Buffer = Buffer(id: nat, text: seq<char>)

  /** The identity ("address") of one character: which buffer, which index. */
  datatype Addr = Addr(buf: nat, pos: nat)

  /** A borrowed string slice: the characters `lo .. hi` of `buf`. */
  datatype StrRef = StrRef(buf: Buffer, lo: nat, hi: nat)

  /** Only slices that lie inside their buffer exist. */
  type View = v: StrRef | v.lo <= v.hi <= |v.buf.text| witness StrRef(Buffer(0, []), 0, 0)

  /** Number of characters seen through `v` (`str::len`, characters of width one). */
  function Width(v: View): nat {
    v.hi - v.lo
  }

  /** The characters seen through `v`. */
  function Text(v: View): (t: seq<char>)
    ensures |t| == Width(v)
  {
    v.buf.text[v.lo..v.hi]
  }

  /** Strictly increasing identities within one buffer. */
  predicate Increasing(ids: seq<Addr>) {
    forall i, j :: 0 <= i < j < |ids| ==> ids[i].buf == ids[j].buf && ids[i].pos < ids[j].pos
  }

  /** The identity of every character of a buffer, in order. */
  function BufferIds(b: Buffer): (ids: seq<Addr>)
    ensures |ids| == |b.text|
  {
    seq(|b.text|, k requires 0 <= k < |b.text| => Addr(b.id, k))
  }

  /** The identity of every character seen through `v`, in order: the
      address that `as_ptr()` plus the running byte offset gives. */
  function Ids(v: View): (ids: seq<Addr>)
    ensures |ids| == Width(v)
  {
    BufferIds(v.buf)[v.lo..v.hi]
  }

  /** Identities within one view strictly increase, and the k-th names the
      buffer position that holds the k-th character. */
  lemma IdsIncrease(v: View)
    ensures Increasing(Ids(v))
    ensures forall k :: 0 <= k < Width(v) ==>
      Ids(v)[k] == Addr(v.buf.id, v.lo + k) && v.buf.text[Ids(v)[k].pos] == Text(v)[k]
  {
  }

  /** The view of a whole buffer (`String::as_str`, or a literal). */
  function Whole(b: Buffer): (v: View)
    ensures Text(v) == b.text
    ensures Ids(v) == BufferIds(b)
  {
    StrRef(b, 0, |b.text|)
  }

  /** `w` borrows a part of the storage that `v` borrows. */
  predicate SubView(w: View, v: View) {
    w.buf == v.buf && v.lo <= w.lo <= w.hi <= v.hi
  }

  /** Re-borrowing `&v[a..b]`: no copy. */
  function Sub(v: View, a: nat, b: nat): (w: View)
    requires a <= b <= Width(v)
    ensures SubView(w, v) && Width(w) == b - a
  {
    StrRef(v.buf, v.lo + a, v.lo + b)
  }

  /** A re-borrowed part shows the corresponding characters of `v`, with
      the same identities. */
  lemma SubParts(v: View, a: nat, b: nat)
    requires a <= b <= Width(v)
    ensures Text(Sub(v, a, b)) == Text(v)[a..b]
    ensures Ids(Sub(v, a, b)) == Ids(v)[a..b]
  {
    SliceOfSlice(v.buf.text, v.lo, v.hi, a, b);
    SliceOfSlice(BufferIds(v.buf), v.lo, v.hi, a, b);
  }

  /** A part of a part of `s` is a part of `s`. */
  lemma SliceOfSlice<T>(s: seq<T>, i: nat, j: nat, a: nat, b: nat)
    requires i <= j <= |s| && a <= b <= j - i
    ensures s[i..j][a..b] == s[i + a..i + b]
  {
    forall k | 0 <= k < b - a
      ensures s[i..j][a..b][k] == s[i + a..i + b][k]
    {
      assert s[i..j][a..b][k] == s[i..j][a + k] == s[i + a + k];
    }
  }
}
