/** Sequence helpers used by the mosaic engine: the `fill` and
    `create_batches` helpers of supervision.utils.iterables (not part of this
    model, written here with their documented meaning), and the
    `chain.from_iterable(zip(xs, [sep] * k))` interleaving with flattening that
    `_merge_tiles_elements` uses to put margin strips between tiles. */
module Seqs {
  import opened Common
  import opened Arith

  /** `fill(sequence, desired_size, content)`: right-pads with `content` up to
      `size` elements; a sequence already that long is returned as it is. */
  function Fill<T>(s: seq<T>, size: nat, content: T): (r: seq<T>)
    ensures |r| == Max(|s|, size)
    ensures r[..|s|] == s
    ensures forall i :: |s| <= i < |r| ==> r[i] == content
  {
    if |s| >= size then s else s + seq(size - |s|, _ => content)
  }

  /** Filling twice to the same size is filling once. */
  lemma FillIdempotent<T>(s: seq<T>, size: nat, content: T)
    ensures Fill(Fill(s, size, content), size, content) == Fill(s, size, content)
  {
  }

  /** `create_batches(sequence, batch_size)`: consecutive chunks of `size`
      elements, the last one possibly shorter, nothing for an empty sequence. */
  function Batches<T>(s: seq<T>, size: nat): (r: seq<seq<T>>)
    requires size > 0
    decreases |s|
  {
    if |s| <= size then (if s == [] then [] else [s])
    else [s[..size]] + Batches(s[size..], size)
  }

  /** There are `ceil(|s| / size)` batches. */
  lemma {:induction false} BatchesLength<T>(s: seq<T>, size: nat)
    requires size > 0
    ensures |Batches(s, size)| == CeilDiv(|s|, size)
    decreases |s|
  {
    if |s| <= size {
      if s != [] {
        CeilDivLeast(|s|, size, 1);
      }
    } else {
      BatchesLength(s[size..], size);
      CeilDivStep(|s| - size, size);
    }
  }

  /** Batch `i` holds the `min(size, |s| - i * size)` elements of `s` from
      `i * size` on, in order: the batches read back `s` row-major. */
  lemma {:induction false} BatchesAt<T>(s: seq<T>, size: nat, i: nat)
    requires size > 0 && i < |Batches(s, size)|
    ensures i * size < |s|
    ensures |Batches(s, size)[i]| == Min(size, |s| - i * size)
    ensures Batches(s, size)[i] == s[i * size .. i * size + |Batches(s, size)[i]|]
    decreases |s|
  {
    if |s| > size && i > 0 {
      BatchesAt(s[size..], size, i - 1);
      SubOneMul(i, size);
    }
  }

  /** `chain.from_iterable(zip(xs, [sep] * len(xs)))`: each element followed
      by the separator. */
  function Interleave<T>(xs: seq<T>, sep: T): (r: seq<T>)
    ensures |r| == 2 * |xs|
  {
    if xs == [] then [] else [xs[0], sep] + Interleave(xs[1..], sep)
  }

  /** The `[:-1]` slice that removes the trailing separator. */
  function DropLast<T>(s: seq<T>): (r: seq<T>)
    requires |s| > 0
    ensures |r| == |s| - 1 && r == s[..|s| - 1]
  {
    s[..|s| - 1]
  }

  lemma {:induction false} InterleaveSnoc<T>(xs: seq<T>, x: T, sep: T)
    ensures Interleave(xs + [x], sep) == Interleave(xs, sep) + [x, sep]
    decreases |xs|
  {
    if xs == [] {
      assert Interleave([x], sep) == [x, sep] + Interleave([], sep);
    } else {
      assert (xs + [x])[1..] == xs[1..] + [x];
      InterleaveSnoc(xs[1..], x, sep);
    }
  }

  lemma {:induction false} InterleaveAt<T>(xs: seq<T>, sep: T, i: nat)
    requires i < |xs|
    ensures Interleave(xs, sep)[2 * i] == xs[i] && Interleave(xs, sep)[2 * i + 1] == sep
    decreases |xs|
  {
    if i > 0 {
      InterleaveAt(xs[1..], sep, i - 1);
    }
  }

  /** Every element of an interleaving is the separator or an element of `xs`. */
  lemma {:induction false} InterleaveElements<T>(xs: seq<T>, sep: T)
    ensures forall k :: 0 <= k < |Interleave(xs, sep)| ==>
      Interleave(xs, sep)[k] == sep || Interleave(xs, sep)[k] in xs
    decreases |xs|
  {
    if xs != [] {
      InterleaveElements(xs[1..], sep);
      var s := Interleave(xs, sep);
      forall k | 2 <= k < |s| ensures s[k] == sep || s[k] in xs {
        assert s[k] == Interleave(xs[1..], sep)[k - 2];
        assert xs[1..] <= xs[1..] && (s[k] in xs[1..] ==> s[k] in xs);
      }
    }
  }

  /** Concatenation of a sequence of sequences (`np.concatenate` along one axis). */
  function Flatten<T>(xss: seq<seq<T>>): (r: seq<T>)
  {
    if xss == [] then [] else xss[0] + Flatten(xss[1..])
  }

  lemma {:induction false} FlattenSnoc<T>(xss: seq<seq<T>>, xs: seq<T>)
    ensures Flatten(xss + [xs]) == Flatten(xss) + xs
    decreases |xss|
  {
    if xss == [] {
      assert Flatten([xs]) == xs + Flatten([]);
    } else {
      assert (xss + [xs])[1..] == xss[1..] + [xs];
      FlattenSnoc(xss[1..], xs);
    }
  }

  lemma FlattenCons2<T>(x: seq<T>, y: seq<T>, rest: seq<seq<T>>)
    ensures Flatten([x, y] + rest) == x + y + Flatten(rest)
  {
    var s := [x, y] + rest;
    assert s[1..] == [y] + rest;
    assert ([y] + rest)[1..] == rest;
  }

  lemma FlattenInterleaveCons<T>(xs: seq<seq<T>>, sep: seq<T>)
    requires xs != []
    ensures Flatten(Interleave(xs, sep)) == xs[0] + sep + Flatten(Interleave(xs[1..], sep))
  {
    FlattenCons2(xs[0], sep, Interleave(xs[1..], sep));
  }

  lemma {:induction false} FlattenInterleaveLength<T>(xs: seq<seq<T>>, sep: seq<T>, a: nat)
    requires forall j :: 0 <= j < |xs| ==> |xs[j]| == a
    ensures |Flatten(Interleave(xs, sep))| == Offset(|xs|, a + |sep|)
    decreases |xs|
  {
    if xs != [] {
      FlattenInterleaveCons(xs, sep);
      FlattenInterleaveLength(xs[1..], sep, a);
    }
  }

  /** Flattening `xs` interleaved with `sep`, where every element of `xs` has
      length `a`: offset `i` of block `q` (blocks being `a + |sep|` long) holds
      element `i` of `xs[q]` when `i < a`, and element `i - a` of the
      separator otherwise. */
  lemma {:induction false} FlattenInterleaveAt<T>(xs: seq<seq<T>>, sep: seq<T>, a: nat, q: nat, i: nat)
    requires forall j :: 0 <= j < |xs| ==> |xs[j]| == a
    requires q < |xs| && i < a + |sep|
    ensures Offset(q, a + |sep|) + i < |Flatten(Interleave(xs, sep))|
    ensures Flatten(Interleave(xs, sep))[Offset(q, a + |sep|) + i] == if i < a then xs[q][i] else sep[i - a]
    decreases q
  {
    var d := a + |sep|;
    var head := xs[0] + sep;
    var tail := Flatten(Interleave(xs[1..], sep));
    FlattenInterleaveCons(xs, sep);
    assert Flatten(Interleave(xs, sep)) == head + tail;
    assert |head| == d;
    FlattenInterleaveLength(xs[1..], sep, a);
    FlattenInterleaveLength(xs, sep, a);
    if q > 0 {
      FlattenInterleaveAt(xs[1..], sep, a, q - 1, i);
      var t := Offset(q - 1, d) + i;
      assert tail[t] == (head + tail)[d + t];
    }
  }

  /** The same with the trailing separator dropped: offset `i` of block `q`
      is still there unless it was that separator. This is how a merged row
      and the merged mosaic are laid out. */
  lemma JoinedBlockAt<T>(xs: seq<seq<T>>, sep: seq<T>, a: nat, b: nat, q: nat, i: nat)
    requires |sep| == b && forall j :: 0 <= j < |xs| ==> |xs[j]| == a
    requires q < |xs| && i < a + b && (q + 1 < |xs| || i < a)
    ensures Offset(q, a + b) + i < |Flatten(DropLast(Interleave(xs, sep)))|
    ensures Flatten(DropLast(Interleave(xs, sep)))[Offset(q, a + b) + i] == if i < a then xs[q][i] else sep[i - a]
  {
    var d := a + |sep|;
    var s := Interleave(xs, sep);
    InterleaveAt(xs, sep, |xs| - 1);
    assert s == DropLast(s) + [s[|s| - 1]];
    FlattenSnoc(DropLast(s), sep);
    FlattenInterleaveLength(xs, sep, a);
    assert Offset(|xs|, d) == Offset(|xs| - 1, d) + d;
    if q + 1 < |xs| {
      OffsetMono(q + 1, |xs| - 1, d);
      assert Offset(q + 1, d) == Offset(q, d) + d;
    }
    FlattenInterleaveAt(xs, sep, a, q, i);
  }
}
