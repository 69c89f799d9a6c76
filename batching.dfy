/**
 * Cutting a list into consecutive slices of at most `size` elements, as
 * `for i in range(0, len(s), size): s[i:i + size]` does, and the flushing
 * discipline that produces the same slices.
 */
module Batching {

  /** The concatenation of a list of lists. */
  function Flatten<T>(bs: seq<seq<T>>): seq<T>
  {
    if bs == [] then [] else bs[0] + Flatten(bs[1..])
  }

  /** Every slice is non-empty and holds at most `size` elements. */
  predicate SlicesWithin<T>(bs: seq<seq<T>>, size: nat)
  {
    forall k :: 0 <= k < |bs| ==> 1 <= |bs[k]| <= size
  }

  /** Every slice but the last holds exactly `size` elements. */
  predicate FullButLast<T>(bs: seq<seq<T>>, size: nat)
  {
    forall k :: 0 <= k < |bs| - 1 ==> |bs[k]| == size
  }

  /** Every slice holds exactly `size` elements. */
  predicate AllFull<T>(bs: seq<seq<T>>, size: nat)
  {
    forall k :: 0 <= k < |bs| ==> |bs[k]| == size
  }

  /** The slices s[i:i + size] for i in range(0, len(s), size). */
  function Batches<T>(s: seq<T>, size: nat): seq<seq<T>>
    requires size >= 1
    decreases |s|
  {
    if s == [] then []
    else if |s| <= size then [s]
    else [s[..size]] + Batches(s[size..], size)
  }

  /** The slices concatenate back to s; each is non-empty and holds at most
      `size` elements, and all but the last hold exactly `size`. */
  lemma {:induction false} BatchesShape<T>(s: seq<T>, size: nat)
    requires size >= 1
    ensures var bs := Batches(s, size);
      Flatten(bs) == s && SlicesWithin(bs, size) && FullButLast(bs, size)
    decreases |s|
  {
    var bs := Batches(s, size);
    if s == [] {
    } else if |s| <= size {
      assert Flatten([s]) == s + Flatten<T>([]);
    } else {
      var rest := Batches(s[size..], size);
      BatchesShape(s[size..], size);
      assert bs == [s[..size]] + rest;
      assert bs[1..] == rest;
      assert s == s[..size] + s[size..];
      assert forall k :: 1 <= k < |bs| ==> bs[k] == rest[k - 1];
    }
  }

  /** The first slice, then the slices of what follows it. */
  lemma BatchesCons<T>(s: seq<T>, size: nat)
    requires size >= 1 && s != []
    ensures var m := if size < |s| then size else |s|;
            Batches(s, size) == [s[..m]] + Batches(s[m..], size)
  {
    if |s| <= size {
      assert s[..|s|] == s && s[|s|..] == [];
    }
  }

  /** Slicing from position i: the first slice ends at min(i + size, |s|),
      and slicing continues from there. */
  lemma BatchesFrom<T>(s: seq<T>, i: nat, end: nat, size: nat)
    requires size >= 1 && i < |s| && end == if i + size < |s| then i + size else |s|
    ensures Batches(s[i..], size) == [s[i..end]] + Batches(s[end..], size)
  {
    var tail := s[i..];
    BatchesCons(tail, size);
    assert tail[..end - i] == s[i..end] && tail[end - i..] == s[end..];
  }

  lemma AppendAssoc<T>(a: seq<T>, b: seq<T>, c: seq<T>)
    ensures a + (b + c) == (a + b) + c
  {
  }

  lemma {:induction false} FlattenAppend<T>(a: seq<seq<T>>, b: seq<seq<T>>)
    ensures Flatten(a + b) == Flatten(a) + Flatten(b)
  {
    if a == [] {
      assert a + b == b;
    } else {
      assert (a + b)[0] == a[0] && (a + b)[1..] == a[1..] + b;
      FlattenAppend(a[1..], b);
    }
  }

  /** A full first slice is kept as it is. */
  lemma BatchesFullHead<T>(head: seq<T>, tail: seq<T>, size: nat)
    requires size >= 1 && |head| == size
    ensures Batches(head + tail, size) == [head] + Batches(tail, size)
  {
    BatchesCons(head + tail, size);
    assert (head + tail)[..size] == head;
    assert (head + tail)[size..] == tail;
  }

  /** Full slices at the front are kept as they are: slicing the rest starts
      where they end. */
  lemma {:induction false} BatchesAfterFull<T>(full: seq<seq<T>>, rest: seq<T>, size: nat)
    requires size >= 1
    requires AllFull(full, size)
    ensures Batches(Flatten(full) + rest, size) == full + Batches(rest, size)
  {
    if full != [] {
      var tail := Flatten(full[1..]) + rest;
      AppendAssoc(full[0], Flatten(full[1..]), rest);
      assert |full[0]| == size;
      BatchesFullHead(full[0], tail, size);
      BatchesAfterFull(full[1..], rest, size);
      AppendAssoc([full[0]], full[1..], Batches(rest, size));
      assert [full[0]] + full[1..] == full;
    } else {
      assert Flatten(full) + rest == rest;
    }
  }

  /** A non-empty list no longer than one slice is a single slice. */
  lemma SingleBatch<T>(s: seq<T>, size: nat)
    requires 1 <= |s| <= size
    ensures Batches(s, size) == [s]
  {
  }

  lemma MulStep(k: nat, size: nat)
    requires k >= 1
    ensures (k - 1) * size + size == k * size && k * size + size == (k + 1) * size
    ensures k * size >= size
  {
  }

  /** Where slice k ends: (k + 1) * size, clipped to n. */
  function SliceEnd(k: nat, size: nat, n: nat): nat
  {
    if (k + 1) * size < n then (k + 1) * size else n
  }

  /** Slice k is s[k * size : (k + 1) * size], clipped to the end of s. */
  lemma {:induction false} BatchAt<T>(s: seq<T>, size: nat, k: nat)
    requires size >= 1 && k < |Batches(s, size)|
    ensures k * size < SliceEnd(k, size, |s|) <= |s|
    ensures Batches(s, size)[k] == s[k * size .. SliceEnd(k, size, |s|)]
    decreases |s|
  {
    if k > 0 {
      var rest := s[size..];
      assert Batches(s, size)[k] == Batches(rest, size)[k - 1];
      BatchAt(rest, size, k - 1);
      BatchAtShift(s, size, k);
    }
  }

  lemma BatchAtShift<T>(s: seq<T>, size: nat, k: nat)
    requires size >= 1 && k >= 1 && |s| > size
    requires (k - 1) * size < SliceEnd(k - 1, size, |s| - size) <= |s| - size
    ensures k * size < SliceEnd(k, size, |s|) <= |s|
    ensures s[size..][(k - 1) * size .. SliceEnd(k - 1, size, |s| - size)] == s[k * size .. SliceEnd(k, size, |s|)]
  {
    MulStep(k, size);
  }

  /** The first k slices together are the first k * size elements. */
  lemma {:induction false} BatchesPrefix<T>(s: seq<T>, size: nat, k: nat)
    requires size >= 1 && k <= |Batches(s, size)|
    ensures Flatten(Batches(s, size)[..k]) == s[..if k * size < |s| then k * size else |s|]
    decreases |s|
  {
    var bs := Batches(s, size);
    if k == 0 {
      assert bs[..0] == [];
    } else if |s| <= size {
      assert bs[..k] == [s];
      assert Flatten([s]) == s + Flatten<T>([]);
      MulStep(k, size);
    } else {
      var rest := s[size..];
      BatchesPrefix(rest, size, k - 1);
      assert bs[..k] == [s[..size]] + Batches(rest, size)[..k - 1];
      MulStep(k, size);
      assert ([s[..size]] + Batches(rest, size)[..k - 1])[1..] == Batches(rest, size)[..k - 1];
    }
  }

  /** Flushing discipline: when full slices `flushed` and then `buffer` are
      a prefix of `s`, and `buffer` is a full slice or reaches the end of
      `s`, then `buffer` is the next slice of `s` after `flushed`. */
  lemma NextFlush<T>(s: seq<T>, flushed: seq<seq<T>>, buffer: seq<T>, size: nat)
    requires size >= 1 && AllFull(flushed, size) && 1 <= |buffer| <= size
    requires var done := Flatten(flushed) + buffer;
      |done| <= |s| && s[..|done|] == done && (|buffer| == size || |done| == |s|)
    ensures var bs := Batches(s, size);
      |flushed| < |bs| && bs[..|flushed|] == flushed && bs[|flushed|] == buffer
  {
    var f := Flatten(flushed);
    var rest := s[|f|..];
    assert s == f + rest by {
      assert s[..|f|] == (f + buffer)[..|f|] == f;
    }
    BatchesAfterFull(flushed, rest, size);
    BatchesCons(rest, size);
    assert rest[..|buffer|] == buffer by {
      assert s[..|f + buffer|] == f + buffer;
    }
    var bs := Batches(s, size);
    assert bs == flushed + ([buffer] + Batches(rest[|buffer|..], size));
  }
}
