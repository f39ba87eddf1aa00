/** The content-keyed byte-array wrapper used as map key and sort key
    (capsule/utils/ByteArrayWrapper.java). */
module ByteKeys {
  import opened Wrappers
  import Lexicographic

  /** One byte, by its unsigned value. */
  newtype byte = x: int | 0 <= x < 256

  type Bytes = seq<byte>

  /** Java's view of a byte: signed, in [-128, 127]. */
  function Signed(b: byte): (r: int) {
    if b < 128 then b as int else b as int - 256
  }

  /** Reduction of an integer to Java's 32-bit two's-complement `int`. */
  function Int32(x: int): (r: int)
    ensures -0x8000_0000 <= r < 0x8000_0000
    ensures (r - x) % 0x1_0000_0000 == 0
  {
    (x + 0x8000_0000) % 0x1_0000_0000 - 0x8000_0000
  }

  /** `java.util.Arrays.hashCode(byte[])`: start at 1, then `31 * h + element`
      for each signed element in order, in 32-bit arithmetic. */
  function ArraysHashCode(s: Bytes): (r: int)
    ensures -0x8000_0000 <= r < 0x8000_0000
  {
    if s == [] then 1
    else Int32(31 * ArraysHashCode(s[..|s| - 1]) + Signed(s[|s| - 1]))
  }

  /** The unsigned values of the bytes, as compared by the byte comparator. */
  function Values(s: Bytes): (r: seq<int>)
    ensures |r| == |s| && forall i :: 0 <= i < |s| ==> r[i] == s[i] as int
  {
    seq(|s|, i requires 0 <= i < |s| => s[i] as int)
  }

  lemma ValuesInjective(a: Bytes, b: Bytes)
    ensures Values(a) == Values(b) ==> a == b
  {
    if Values(a) == Values(b) {
      assert forall i :: 0 <= i < |a| ==> a[i] as int == Values(a)[i] == Values(b)[i] == b[i] as int;
    }
  }

  /** The wrapper: the data it was built from and the hash computed once from it. */
  datatype ByteArrayWrapper = ByteArrayWrapper(data: Bytes, hashCode: int)

  /** Anything `equals` may be handed: a wrapper, or some other object (or null). */
  datatype Object = Wrapper(wrapper: ByteArrayWrapper) | NotAWrapper

  datatype KeyError = NullPointerException

  /** A wrapper as the constructor leaves it: its hash is that of its data. */
  ghost predicate Wf(w: ByteArrayWrapper) {
    w.hashCode == ArraysHashCode(w.data)
  }

  /** The constructor: rejects null data, keeps the data and fixes the hash. */
  function New(data: Option<Bytes>): (r: Result<ByteArrayWrapper, KeyError>)
    ensures data.None? <==> r == Failure(NullPointerException)
    ensures r.Success? ==> Wf(r.value) && GetData(r.value) == data.value
  {
    match data
    case None => Failure(NullPointerException)
    case Some(d) => Success(ByteArrayWrapper(d, ArraysHashCode(d)))
  }

  /** `FastByteComparisons.compareTo` on the two contents, unsigned lexicographic
      (the comparator itself is outside this model: see the README). */
  function CompareTo(w: ByteArrayWrapper, o: ByteArrayWrapper): (r: int)
    ensures r == 0 <==> w.data == o.data
  {
    Lexicographic.CompareZeroIffEqual(Values(w.data), Values(o.data));
    ValuesInjective(w.data, o.data);
    Lexicographic.Compare(Values(w.data), Values(o.data))
  }

  /** `equals`: only another wrapper can be equal, and then exactly when the
      comparison is 0, that is, when the two contents are the same bytes. */
  function Equals(w: ByteArrayWrapper, other: Object): (r: bool)
    ensures r <==> other.Wrapper? && other.wrapper.data == w.data
  {
    match other
    case NotAWrapper => false
    case Wrapper(o) => CompareTo(w, o) == 0
  }

  /** `hashCode`: the value fixed at construction. */
  function HashCode(w: ByteArrayWrapper): (r: int)
    ensures Wf(w) ==> r == ArraysHashCode(w.data) && -0x8000_0000 <= r < 0x8000_0000
  {
    w.hashCode
  }

  /** `getData`: the wrapped content itself. */
  function GetData(w: ByteArrayWrapper): (r: Bytes)
    ensures Wf(w) ==> ArraysHashCode(r) == HashCode(w)
  {
    w.data
  }

  /** Equal wrappers have equal hashes, as Java's equals/hashCode contract asks. */
  lemma EqualsImpliesSameHash(a: ByteArrayWrapper, b: ByteArrayWrapper)
    requires Wf(a) && Wf(b) && Equals(a, Wrapper(b))
    ensures HashCode(a) == HashCode(b)
  {
  }

  /** Wrapping the same content twice gives equal wrappers with equal hashes,
      and wrapping different contents gives unequal ones. */
  lemma NewContentKeyed(d1: Bytes, d2: Bytes)
    ensures var w1, w2 := New(Some(d1)).value, New(Some(d2)).value;
      (Equals(w1, Wrapper(w2)) <==> d1 == d2) && (d1 == d2 ==> HashCode(w1) == HashCode(w2))
  {
  }

  /** compareTo is 0 exactly when equals holds. */
  lemma {:induction false} CompareToConsistentWithEquals(a: ByteArrayWrapper, b: ByteArrayWrapper)
    ensures CompareTo(a, b) == 0 <==> Equals(a, Wrapper(b))
  {
    Lexicographic.CompareZeroIffEqual(Values(a.data), Values(b.data));
    ValuesInjective(a.data, b.data);
  }

  /** compareTo is a total order on contents: x compared with itself is 0,
      swapping the arguments flips the sign, and it is transitive. */
  lemma {:induction false} CompareToReflexive(a: ByteArrayWrapper)
    ensures CompareTo(a, a) == 0
  {
    Lexicographic.CompareZeroIffEqual(Values(a.data), Values(a.data));
  }

  lemma {:induction false} CompareToAntisymmetric(a: ByteArrayWrapper, b: ByteArrayWrapper)
    ensures CompareTo(a, b) == -CompareTo(b, a)
  {
    Lexicographic.CompareAntisymmetric(Values(a.data), Values(b.data));
  }

  lemma {:induction false} CompareToTransitive(a: ByteArrayWrapper, b: ByteArrayWrapper, c: ByteArrayWrapper)
    requires CompareTo(a, b) <= 0 && CompareTo(b, c) <= 0
    ensures CompareTo(a, c) <= 0
  {
    Lexicographic.CompareTransitive(Values(a.data), Values(b.data), Values(c.data));
  }

  /** equals is an equivalence relation on wrappers. */
  lemma EqualsIsEquivalence(a: ByteArrayWrapper, b: ByteArrayWrapper, c: ByteArrayWrapper)
    ensures Equals(a, Wrapper(a))
    ensures Equals(a, Wrapper(b)) ==> Equals(b, Wrapper(a))
    ensures Equals(a, Wrapper(b)) && Equals(b, Wrapper(c)) ==> Equals(a, Wrapper(c))
  {
  }
}
