/**
 Splitting a blob into coded parts and putting it back together from any `required` of them, one
 64 KiB stripe at a time.
 */
module ErasureCode {
  import opened Wrappers
  import opened Bytes
  import opened GF256
  import opened Tables
  import opened LinearAlgebra
  import opened Elimination
  import opened Interpolation
  import opened Generator

  const STRIPE_BYTES: nat := 64 * 1024

  datatype IndexedPart = IndexedPart(index: nat, blob: Blob)

  /** A blob's slice between two offsets, either of which may lie past its end. */
  function Slice(blob: Blob, start: nat, end: nat): Blob
    requires start <= end
  {
    blob[Min(start, |blob|)..Min(end, |blob|)]
  }

  /** A byte of the blob continued with zeros. */
  function Padded(blob: Blob, at: nat): byte {
    if at < |blob| then blob[at] else 0
  }

  /** The bytes at one position of each of several blobs. */
  function Across(blobs: seq<Blob>, at: nat): (column: Vector)
    ensures |column| == |blobs|
  {
    seq(|blobs|, i requires 0 <= i < |blobs| => Padded(blobs[i], at))
  }

  /** The bytes of a payload at one position of its `k` consecutive slices of `size` bytes. */
  function DataColumn(blob: Blob, k: nat, size: nat, at: nat): (column: Vector)
    ensures |column| == k
  {
    seq(k, j requires 0 <= j < k => Padded(blob, j * size + at))
  }

  /**
   The layout: every part is as long as a slice of the payload, and at each position the parts are the
   values at 0, 1, 2, ... of the polynomial that takes the slices' bytes at the first points.
   */
  ghost predicate Encodes(blob: Blob, parts: seq<Blob>, k: nat, n: nat) {
    && 0 < k <= n <= 256
    && |parts| == n
    && (forall i :: 0 <= i < n ==> |parts[i]| == CeilDiv(|blob|, k))
    && (forall at :: 0 <= at < CeilDiv(|blob|, k) ==>
          Codeword(DataColumn(blob, k, CeilDiv(|blob|, k), at), Across(parts, at)))
  }

  // ---------------------------------------------------------------- the layout itself

  lemma CodewordSystematic(x: Vector, y: Vector, j: nat)
    requires Codeword(x, y) && j < |x| && j < |y|
    ensures x[j] == y[j]
  {
    var c: Vector :| Codes(c, x, y);
  }

  /** The first parts are the consecutive slices of the payload, padded with zeros. */
  lemma Systematic(blob: Blob, parts: seq<Blob>, k: nat, n: nat, j: nat, at: nat)
    requires Encodes(blob, parts, k, n) && j < k && at < CeilDiv(|blob|, k)
    ensures parts[j][at] == Padded(blob, j * CeilDiv(|blob|, k) + at)
  {
    CodewordSystematic(DataColumn(blob, k, CeilDiv(|blob|, k), at), Across(parts, at), j);
  }

  /** Two codewords that agree at k indices are the same codeword of the same data. */
  lemma CodewordsAgree(x: Vector, y: Vector, x': Vector, y': Vector, indices: seq<nat>)
    requires Codeword(x, y) && Codeword(x', y') && |x| == |x'| && |y| == |y'|
    requires GoodIndices(indices, |x|, |y|)
    requires forall j :: 0 <= j < |x| ==> y[indices[j]] == y'[indices[j]]
    ensures x == x' && y == y'
  {
    var c: Vector :| Codes(c, x, y);
    var c': Vector :| Codes(c', x', y');
    PointsDistinct(indices, |x|, |y|);
    hide Eval, Distinct;
    AgreeAtPoints(c, c', Points(indices));
  }

  lemma Offsets(q: nat, size: nat, length: nat, k: nat)
    requires size > 0 && k > 0 && size == CeilDiv(length, k) && q < length
    ensures q / size < k && q == (q / size) * size + q % size && q % size < size
  {
    CeilCovers(length, k);
    ProductBelow(q / size, k, size, q);
  }

  lemma CeilCovers(length: nat, k: nat)
    requires k > 0
    ensures length <= k * CeilDiv(length, k)
  {
  }

  lemma ProductBelow(a: nat, b: nat, c: nat, bound: nat)
    requires a * c <= bound < b * c
    ensures a < b
  {
  }

  /** Payloads with the same padded slices are equal. */
  lemma SameColumns(a: Blob, b: Blob, k: nat)
    requires |a| == |b| && k > 0
    requires forall at :: 0 <= at < CeilDiv(|a|, k) ==>
               DataColumn(a, k, CeilDiv(|a|, k), at) == DataColumn(b, k, CeilDiv(|a|, k), at)
    ensures a == b
  {
    var size := CeilDiv(|a|, k);
    forall q | 0 <= q < |a|
      ensures a[q] == b[q]
    {
      Offsets(q, size, |a|, k);
      var j, at := q / size, q % size;
      assert DataColumn(a, k, size, at)[j] == DataColumn(b, k, size, at)[j];
    }
  }

  /** Any k parts determine the payload: two payloads whose encodings share k parts are equal. */
  lemma PartsDetermine(a: Blob, partsA: seq<Blob>, b: Blob, partsB: seq<Blob>, k: nat, n: nat, indices: seq<nat>)
    requires |a| == |b| && Encodes(a, partsA, k, n) && Encodes(b, partsB, k, n)
    requires GoodIndices(indices, k, n)
    requires forall j :: 0 <= j < k ==> partsA[indices[j]] == partsB[indices[j]]
    ensures a == b && partsA == partsB
  {
    hide Codeword, CeilDiv;
    var size := CeilDiv(|a|, k);
    forall at | 0 <= at < size
      ensures DataColumn(a, k, size, at) == DataColumn(b, k, size, at) && Across(partsA, at) == Across(partsB, at)
    {
      var yA, yB := Across(partsA, at), Across(partsB, at);
      forall j | 0 <= j < k
        ensures yA[indices[j]] == yB[indices[j]]
      {
      }
      CodewordsAgree(DataColumn(a, k, size, at), yA, DataColumn(b, k, size, at), yB, indices);
    }
    SameColumns(a, b, k);
    forall i | 0 <= i < n
      ensures partsA[i] == partsB[i]
    {
      forall at | 0 <= at < size
        ensures partsA[i][at] == partsB[i][at]
      {
        assert Across(partsA, at)[i] == Across(partsB, at)[i];
      }
    }
  }

  /** The layout leaves nothing to choose, so encoding again gives the same parts. */
  lemma EncodingUnique(blob: Blob, parts: seq<Blob>, parts': seq<Blob>, k: nat, n: nat)
    requires Encodes(blob, parts, k, n) && Encodes(blob, parts', k, n)
    ensures parts == parts'
  {
    hide Codeword, CeilDiv;
    var indices: seq<nat> := seq(k, j requires 0 <= j < k => j);
    forall j | 0 <= j < k
      ensures parts[indices[j]] == parts'[indices[j]]
    {
      forall at | 0 <= at < CeilDiv(|blob|, k)
        ensures parts[j][at] == parts'[j][at]
      {
        Systematic(blob, parts, k, n, j, at);
        Systematic(blob, parts', k, n, j, at);
      }
    }
    PartsDetermine(blob, parts, blob, parts', k, n, indices);
  }

  // ---------------------------------------------------------------- the byte loop

  /** Adds up the inputs, each times its coefficient; an input shorter than the output counts as padded. */
  method Combine(t: CodingTables, coefficients: Vector, inputs: seq<Blob>, size: nat) returns (output: Blob)
    requires t.Filled() && |coefficients| == |inputs|
    requires forall i :: 0 <= i < |inputs| ==> |inputs[i]| <= size
    ensures |output| == size
    ensures forall at :: 0 <= at < size ==> output[at] == Dot(coefficients, Across(inputs, at))
  {
    hide Mul, Add, CodingTables.Filled;
    var buffer := new byte[size](_ => 0);
    SumStarts(coefficients, inputs);
    for i := 0 to |inputs|
      invariant t.Filled()
      invariant forall at :: 0 <= at < size ==> Sum(buffer[at], coefficients, inputs, i, at)
    {
      var coefficient := coefficients[i];
      ghost var before := buffer[..];
      if coefficient != 0 {
        AddInput(t, buffer, coefficient, inputs[i]);
      }
      forall at | 0 <= at < size
        ensures Sum(buffer[at], coefficients, inputs, i + 1, at)
      {
        assert Sum(before[at], coefficients, inputs, i, at);
        MulOfZero(Padded(inputs[i], at));
        MulZeroRight(coefficient);
        AddZero(before[at]);
        SumStep(before[at], coefficients, inputs, i, at);
      }
    }
    output := buffer[..];
    forall at | 0 <= at < size
      ensures output[at] == Dot(coefficients, Across(inputs, at))
    {
      assert Sum(buffer[at], coefficients, inputs, |inputs|, at);
      AddZero(buffer[at]);
    }
  }

  /** What is summed so far, plus what the inputs from `i` on will add, is the whole sum. */
  ghost predicate Sum(sum: byte, coefficients: Vector, inputs: seq<Blob>, i: nat, at: nat)
    requires |coefficients| == |inputs| && i <= |inputs|
  {
    Add(sum, Dot(coefficients[i..], Across(inputs[i..], at))) == Dot(coefficients, Across(inputs, at))
  }

  lemma SumStarts(coefficients: Vector, inputs: seq<Blob>)
    requires |coefficients| == |inputs|
    ensures forall at :: Sum(0, coefficients, inputs, 0, at)
  {
    forall at
      ensures Sum(0, coefficients, inputs, 0, at)
    {
      assert coefficients[0..] == coefficients && inputs[0..] == inputs;
      AddZero(Dot(coefficients, Across(inputs, at)));
    }
  }

  lemma SumStep(sum: byte, coefficients: Vector, inputs: seq<Blob>, i: nat, at: nat)
    requires |coefficients| == |inputs| && i < |inputs| && Sum(sum, coefficients, inputs, i, at)
    ensures Sum(Add(sum, Mul(coefficients[i], Padded(inputs[i], at))), coefficients, inputs, i + 1, at)
  {
    hide Mul, Add;
    var rest := Across(inputs[i..], at);
    assert rest[1..] == Across(inputs[i + 1..], at) && coefficients[i..][1..] == coefficients[i + 1..];
    assert rest[0] == Padded(inputs[i], at);
    AddAssociates(sum, Mul(coefficients[i], Padded(inputs[i], at)), Dot(coefficients[i + 1..], Across(inputs[i + 1..], at)));
  }

  method AddInput(t: CodingTables, buffer: array<byte>, coefficient: byte, input: Blob)
    requires t.Filled() && buffer != t.EXP && buffer != t.MUL && buffer as object != t.LOG
    requires |input| <= buffer.Length
    modifies buffer
    ensures t.Filled()
    ensures forall at :: 0 <= at < |input| ==> buffer[at] == Add(old(buffer[at]), Mul(coefficient, input[at]))
    ensures forall at :: |input| <= at < buffer.Length ==> buffer[at] == old(buffer[at])
  {
    hide Mul, Add, CodingTables.Filled;
    for at := 0 to |input|
      invariant t.Filled()
      invariant forall p :: 0 <= p < at ==> buffer[p] == Add(old(buffer[p]), Mul(coefficient, input[p]))
      invariant forall p :: at <= p < buffer.Length ==> buffer[p] == old(buffer[p])
    {
      buffer[at] := Add(buffer[at], t.Times(coefficient, input[at]));
    }
  }

  // ---------------------------------------------------------------- encoding

  /** `piece` holds the `count` bytes from `start`, but for zeros it may leave out at the end. */
  ghost predicate Covers(piece: Blob, blob: Blob, start: nat, count: nat) {
    |piece| <= count && forall at :: 0 <= at < count ==> Padded(piece, at) == Padded(blob, start + at)
  }

  lemma SliceCovers(blob: Blob, start: nat, count: nat)
    ensures Covers(Slice(blob, start, start + count), blob, start, count)
  {
  }

  /** The columns of the payload's slices. */
  function DataColumns(blob: Blob, k: nat, size: nat): (columns: seq<Vector>)
    ensures |columns| == size && forall at :: 0 <= at < size ==> columns[at] == DataColumn(blob, k, size, at)
  {
    seq(size, at requires 0 <= at < size => DataColumn(blob, k, size, at))
  }

  /** One stripe of every slice of the payload. */
  method ReadStripe(blob: Blob, k: nat, size: nat, offset: nat, count: nat) returns (data: seq<Blob>)
    requires offset + count <= size
    ensures Stripe(data, DataColumns(blob, k, size), k, offset, count)
  {
    data := [];
    for i := 0 to k
      invariant |data| == i
      invariant forall j :: 0 <= j < i ==> Covers(data[j], blob, j * size + offset, count)
    {
      var start := i * size + offset;
      assert Min(start + count, (i + 1) * size) == start + count;
      var slice := Slice(blob, start, Min(start + count, (i + 1) * size));
      SliceCovers(blob, start, count);
      data := data + [slice];
    }
  }

  /** The data of `count` columns from `offset` on. */
  ghost predicate Stripe(data: seq<Blob>, columns: seq<Vector>, k: nat, offset: nat, count: nat) {
    && offset + count <= |columns|
    && |data| == k
    && (forall i :: 0 <= i < k ==> |data[i]| <= count)
    && (forall at :: 0 <= at < count ==> Across(data, at) == columns[offset + at])
  }

  /** The outputs as far as the stripes before `offset` have filled them: the matrix applied to the columns. */
  ghost predicate FilledTo(outputs: seq<Blob>, matrix: Matrix, columns: seq<Vector>, k: nat, offset: nat)
    requires Shape(matrix, |matrix|, k) && offset <= |columns|
    requires forall at :: 0 <= at < |columns| ==> |columns[at]| == k
  {
    && |outputs| == |matrix|
    && forall i :: 0 <= i < |outputs| ==>
         && |outputs[i]| == offset
         && forall at :: 0 <= at < offset ==> outputs[i][at] == Dot(matrix[i], columns[at])
  }

  lemma FilledIsEncoded(outputs: seq<Blob>, matrix: Matrix, blob: Blob, k: nat, n: nat)
    requires 0 < k <= n && IsGenerator(matrix, k, n)
    requires FilledTo(outputs, matrix, DataColumns(blob, k, CeilDiv(|blob|, k)), k, CeilDiv(|blob|, k))
    ensures Encodes(blob, outputs, k, n)
  {
    hide Dot, Codeword, CeilDiv;
    var size := CeilDiv(|blob|, k);
    forall at | 0 <= at < size
      ensures Codeword(DataColumn(blob, k, size, at), Across(outputs, at))
    {
      var x := DataColumn(blob, k, size, at);
      assert Codeword(x, Apply(matrix, x));
      assert Across(outputs, at) == Apply(matrix, x);
    }
  }

  /** Splits a payload into coded parts. */
  method EncodeParts(t: CodingTables, blob: Blob, required: nat, total: nat)
    returns (result: Result<seq<Blob>, CodingError>)
    requires t.Filled()
    ensures result.Ok? <==> 2 <= required < total <= 16 && |blob| >= required
    ensures result.Ok? ==> Encodes(blob, result.value, required, total)
    ensures result.Err? ==> result.error == if CodingBounds(required, total) then TooSmall else BadParameters
  {
    hide Dot, CodingTables.Filled, IsGenerator, Encodes;
    var generated := Generate(t, required, total);
    if generated.Err? {
      return Err(generated.error);
    }
    var matrix := generated.value;
    if |blob| < required {
      return Err(TooSmall);
    }
    var size := CeilDiv(|blob|, required);
    GeneratorShape(matrix, required, total);
    ghost var columns := DataColumns(blob, required, size);
    var outputs: seq<Blob> := seq(total, _ => []);
    var offset := 0;
    while offset < size
      invariant 0 <= offset <= size
      invariant FilledTo(outputs, matrix, columns, required, offset)
    {
      var count := Min(STRIPE_BYTES, size - offset);
      var data := ReadStripe(blob, required, size, offset, count);
      outputs := PushStripe(t, matrix, outputs, data, columns, required, offset, count);
      offset := offset + count;
    }
    FilledIsEncoded(outputs, matrix, blob, required, total);
    result := Ok(outputs);
  }

  lemma GeneratorShape(g: Matrix, k: nat, n: nat)
    requires IsGenerator(g, k, n)
    ensures Shape(g, n, k)
  {
  }

  /** Extends every output by one stripe. */
  method PushStripe(t: CodingTables, matrix: Matrix, outputs: seq<Blob>, data: seq<Blob>, ghost columns: seq<Vector>,
                    k: nat, ghost offset: nat, count: nat)
    returns (extended: seq<Blob>)
    requires t.Filled() && Shape(matrix, |matrix|, k)
    requires forall at :: 0 <= at < |columns| ==> |columns[at]| == k
    requires Stripe(data, columns, k, offset, count)
    requires FilledTo(outputs, matrix, columns, k, offset)
    ensures FilledTo(extended, matrix, columns, k, offset + count)
  {
    hide Dot, CodingTables.Filled, Across;
    extended := [];
    for i := 0 to |matrix|
      invariant |extended| == i
      invariant forall j :: 0 <= j < i ==>
        && |extended[j]| == offset + count
        && forall at :: 0 <= at < offset + count ==> extended[j][at] == Dot(matrix[j], columns[at])
    {
      var block := Combine(t, matrix[i], data, count);
      var output := outputs[i] + block;
      forall at | 0 <= at < offset + count
        ensures output[at] == Dot(matrix[i], columns[at])
      {
        if at >= offset {
          assert block[at - offset] == Dot(matrix[i], Across(data, at - offset));
        }
      }
      extended := extended + [output];
    }
  }

  // ---------------------------------------------------------------- decoding

  function Indices(parts: seq<IndexedPart>): (indices: seq<nat>)
    ensures |indices| == |parts|
    ensures forall j :: 0 <= j < |parts| ==> indices[j] == parts[j].index
  {
    seq(|parts|, j requires 0 <= j < |parts| => parts[j].index)
  }

  function Blobs(parts: seq<IndexedPart>): (blobs: seq<Blob>)
    ensures |blobs| == |parts|
    ensures forall j :: 0 <= j < |parts| ==> blobs[j] == parts[j].blob
  {
    seq(|parts|, j requires 0 <= j < |parts| => parts[j].blob)
  }

  /** What the decoder checks before it starts. */
  predicate WellFormed(parts: seq<IndexedPart>, required: nat, total: nat, length: nat) {
    && CodingBounds(required, total)
    && length >= required
    && GoodIndices(Indices(parts), required, total)
    && forall j :: 0 <= j < |parts| ==> |parts[j].blob| == CeilDiv(length, required)
  }

  /** Some polynomial with |x| coefficients takes the values `x` at 0, 1, 2, ... and `s` at the indices. */
  ghost predicate Interpolates(c: Vector, x: Vector, indices: seq<nat>, s: Vector) {
    && |c| == |x| <= 256 && |indices| == |s|
    && (forall j :: 0 <= j < |indices| ==> indices[j] < 256 && s[j] == Eval(c, indices[j]))
    && (forall j :: 0 <= j < |x| ==> x[j] == Eval(c, j))
  }

  ghost predicate Interpolated(x: Vector, indices: seq<nat>, s: Vector) {
    exists c: Vector :: Interpolates(c, x, indices, s)
  }

  /** The slices are, at each position, the values at the first points of the polynomial through the parts. */
  ghost predicate Decodes(slices: seq<Blob>, parts: seq<IndexedPart>, k: nat, size: nat) {
    && |slices| == k
    && (forall i :: 0 <= i < k ==> |slices[i]| == size)
    && (forall at :: 0 <= at < size ==> Interpolated(Across(slices, at), Indices(parts), Across(Blobs(parts), at)))
  }

  function Concat(slices: seq<Blob>): Blob {
    if |slices| == 0 then [] else slices[0] + Concat(slices[1..])
  }

  /** `parts` are some of the parts `all`. */
  ghost predicate TakenFrom(parts: seq<IndexedPart>, all: seq<Blob>) {
    forall j :: 0 <= j < |parts| ==> parts[j].index < |all| && parts[j].blob == all[parts[j].index]
  }

  lemma {:induction false} ConcatAt(slices: seq<Blob>, size: nat, i: nat, at: nat)
    requires forall j :: 0 <= j < |slices| ==> |slices[j]| == size
    requires i < |slices| && at < size
    ensures |Concat(slices)| == |slices| * size
    ensures i * size + at < |Concat(slices)| && Concat(slices)[i * size + at] == slices[i][at]
    decreases |slices|
  {
    var rest := slices[1..];
    OneMore(|slices|, size);
    OneMore(i, size);
    if |slices| == 1 {
      assert Concat(rest) == [];
    } else if i == 0 {
      ConcatAt(rest, size, 0, at);
    } else {
      ConcatAt(rest, size, i - 1, at);
      assert slices[i] == rest[i - 1];
    }
  }

  lemma OneMore(i: nat, size: nat)
    ensures i > 0 ==> i * size == size + (i - 1) * size
    ensures i == 0 ==> i * size == 0
  {
  }

  /** At one position: the polynomial through the parts is the one that made them. */
  lemma InterpolationRecovers(x: Vector, x': Vector, y: Vector, indices: seq<nat>, s: Vector)
    requires Codeword(x, y) && Interpolated(x', indices, s) && |x| == |x'|
    requires GoodIndices(indices, |x|, |y|)
    requires forall j :: 0 <= j < |x| ==> s[j] == y[indices[j]]
    ensures x == x'
  {
    var c: Vector :| Codes(c, x, y);
    var c': Vector :| Interpolates(c', x', indices, s);
    PointsDistinct(indices, |x|, |y|);
    hide Eval, Distinct;
    AgreeAtPoints(c, c', Points(indices));
  }

  /** Slices decoded from any `k` of a payload's parts are the payload's own. */
  lemma DecodingRecovers(blob: Blob, all: seq<Blob>, parts: seq<IndexedPart>, slices: seq<Blob>, k: nat, n: nat)
    requires Encodes(blob, all, k, n) && GoodIndices(Indices(parts), k, n) && TakenFrom(parts, all)
    requires Decodes(slices, parts, k, CeilDiv(|blob|, k))
    ensures |blob| <= |Concat(slices)| && Concat(slices)[..|blob|] == blob
  {
    var size := CeilDiv(|blob|, k);
    CeilCovers(|blob|, k);
    if |blob| > 0 {
      ConcatAt(slices, size, 0, 0);
    }
    forall q | 0 <= q < |blob|
      ensures Concat(slices)[q] == blob[q]
    {
      Offsets(q, size, |blob|, k);
      var i, at := q / size, q % size;
      ConcatAt(slices, size, i, at);
      RecoversAt(blob, all, parts, slices, k, n, at);
      assert Across(slices, at)[i] == DataColumn(blob, k, size, at)[i];
    }
  }

  lemma RecoversAt(blob: Blob, all: seq<Blob>, parts: seq<IndexedPart>, slices: seq<Blob>, k: nat, n: nat, at: nat)
    requires Encodes(blob, all, k, n) && GoodIndices(Indices(parts), k, n) && TakenFrom(parts, all)
    requires Decodes(slices, parts, k, CeilDiv(|blob|, k)) && at < CeilDiv(|blob|, k)
    ensures Across(slices, at) == DataColumn(blob, k, CeilDiv(|blob|, k), at)
  {
    hide Codeword, Interpolated;
    var x, y, s := DataColumn(blob, k, CeilDiv(|blob|, k), at), Across(all, at), Across(Blobs(parts), at);
    forall j | 0 <= j < k
      ensures s[j] == y[Indices(parts)[j]]
    {
    }
    InterpolationRecovers(x, Across(slices, at), y, Indices(parts), s);
  }

  /** One stripe of every given part. */
  method PartStripe(blobs: seq<Blob>, size: nat, offset: nat, count: nat) returns (data: seq<Blob>)
    requires offset + count <= size && forall j :: 0 <= j < |blobs| ==> |blobs[j]| == size
    ensures Stripe(data, PartColumns(blobs, size), |blobs|, offset, count)
  {
    data := [];
    for i := 0 to |blobs|
      invariant |data| == i
      invariant forall j :: 0 <= j < i ==> Covers(data[j], blobs[j], offset, count)
    {
      SliceCovers(blobs[i], offset, count);
      data := data + [Slice(blobs[i], offset, offset + count)];
    }
  }

  function PartColumns(blobs: seq<Blob>, size: nat): (columns: seq<Vector>)
    ensures |columns| == size && forall at :: 0 <= at < size ==> columns[at] == Across(blobs, at)
  {
    seq(size, at requires 0 <= at < size => Across(blobs, at))
  }

  lemma InverseUndoes(m: Matrix, inverse: Matrix, s: Vector)
    requires Shape(m, |m|, |m|) && IsInverse(m, inverse) && |s| == |m|
    ensures |Apply(inverse, s)| == |m| && Apply(m, Apply(inverse, s)) == s
  {
  }

  lemma GeneratorCodes(g: Matrix, k: nat, n: nat, x: Vector) returns (c: Vector)
    requires IsGenerator(g, k, n) && |x| == k
    ensures Codes(c, x, Apply(g, x))
  {
    assert Codeword(x, Apply(g, x));
    c :| Codes(c, x, Apply(g, x));
  }

  /** Applying the inverse of the chosen generator rows interpolates. */
  lemma InverseInterpolates(g: Matrix, indices: seq<nat>, inverse: Matrix, s: Vector, k: nat, n: nat)
    requires IsGenerator(g, k, n) && GoodIndices(indices, k, n) && |s| == k
    requires IsInverse(Chosen(g, indices, k), inverse)
    ensures |Apply(inverse, s)| == k && Interpolated(Apply(inverse, s), indices, s)
  {
    GeneratorShape(g, k, n);
    InverseShape(Chosen(g, indices, k), inverse);
    hide Dot, Eval, IsGenerator, IsInverse, Interpolates, Codes;
    InverseUndoes(Chosen(g, indices, k), inverse, s);
    var x := Apply(inverse, s);
    var c := GeneratorCodes(g, k, n, x);
    ChosenInterpolate(c, g, indices, x, s, n);
  }

  lemma ChosenInterpolate(c: Vector, g: Matrix, indices: seq<nat>, x: Vector, s: Vector, n: nat)
    requires Shape(g, n, |x|) && GoodIndices(indices, |x|, n) && n <= 256
    requires Codes(c, x, Apply(g, x)) && Apply(Chosen(g, indices, |x|), x) == s
    ensures Interpolates(c, x, indices, s)
  {
    hide Dot, Eval;
    forall j | 0 <= j < |x|
      ensures s[j] == Eval(c, indices[j])
    {
      assert Apply(Chosen(g, indices, |x|), x)[j] == Dot(g[indices[j]], x);
      assert Apply(g, x)[indices[j]] == Dot(g[indices[j]], x);
    }
  }

  lemma FilledAcross(outputs: seq<Blob>, matrix: Matrix, blobs: seq<Blob>, size: nat, k: nat, at: nat)
    requires Shape(matrix, k, k) && |blobs| == k && at < size
    requires FilledTo(outputs, matrix, PartColumns(blobs, size), k, size)
    ensures Across(outputs, at) == Apply(matrix, Across(blobs, at))
  {
    hide Dot;
  }

  lemma FilledIsDecoded(outputs: seq<Blob>, parts: seq<IndexedPart>, g: Matrix, inverse: Matrix, size: nat, k: nat, n: nat)
    requires IsGenerator(g, k, n) && GoodIndices(Indices(parts), k, n)
    requires IsInverse(Chosen(g, Indices(parts), k), inverse)
    requires FilledTo(outputs, inverse, PartColumns(Blobs(parts), size), k, size)
    ensures Decodes(outputs, parts, k, size)
  {
    InverseShape(Chosen(g, Indices(parts), k), inverse);
    hide Dot, IsGenerator, IsInverse, Interpolated, Apply, Across;
    forall at | 0 <= at < size
      ensures Interpolated(Across(outputs, at), Indices(parts), Across(Blobs(parts), at))
    {
      InverseInterpolates(g, Indices(parts), inverse, Across(Blobs(parts), at), k, n);
      FilledAcross(outputs, inverse, Blobs(parts), size, k, at);
    }
  }

  /**
   Puts a payload of known length back together. It refuses exactly the inputs that are not well formed: the
   rows it has to invert always are invertible. From a payload's own parts it returns the payload.
   */
  method DecodeParts(t: CodingTables, parts: seq<IndexedPart>, required: nat, total: nat, length: nat)
    returns (result: Result<Blob, CodingError>)
    requires t.Filled()
    ensures result.Ok? <==> WellFormed(parts, required, total, length)
    ensures result.Err? ==> result.error == if CodingBounds(required, total) then BadParts else BadParameters
    ensures result.Ok? ==> |result.value| == length && IsDecoding(result.value, parts, required, length)
    ensures result.Ok? ==> Recovers(result.value, parts, required, total)
  {
    hide Dot, CodingTables.Filled, IsGenerator, IsInverse, Regular, Encodes, TakenFrom, Decodes, FilledTo;
    var generated := Generate(t, required, total);
    if generated.Err? {
      return Err(generated.error);
    }
    var matrix := generated.value;
    if !WellFormed(parts, required, total, length) {
      return Err(BadParts);
    }
    GeneratorShape(matrix, required, total);
    AnyRowsAreRegular(matrix, Indices(parts), required, total);
    var inverted := Invert(t, Chosen(matrix, Indices(parts), required));
    var decoding := inverted.value;
    InverseShape(Chosen(matrix, Indices(parts), required), decoding);
    var size := CeilDiv(length, required);
    var output := DecodeStripes(t, decoding, Blobs(parts), size, required);
    FilledIsDecoded(output, parts, matrix, decoding, size, required, total);
    DecodedLength(output, parts, required, length);
    result := Ok(Concat(output)[..length]);
    forall blob, all | Encodes(blob, all, required, total) && |blob| == length && TakenFrom(parts, all)
      ensures result.value == blob
    {
      DecodingRecovers(blob, all, parts, output, required, total);
    }
  }

  /** The value is cut from slices that interpolate the parts. */
  ghost predicate IsDecoding(value: Blob, parts: seq<IndexedPart>, k: nat, length: nat)
    requires k > 0
  {
    exists slices :: Decodes(slices, parts, k, CeilDiv(length, k)) && length <= |Concat(slices)|
                  && value == Concat(slices)[..length]
  }

  /** The value is the payload, of whichever payload of its length the parts were taken. */
  ghost predicate Recovers(value: Blob, parts: seq<IndexedPart>, k: nat, n: nat) {
    forall blob, all :: Encodes(blob, all, k, n) && |blob| == |value| && TakenFrom(parts, all) ==> value == blob
  }

  lemma DecodedLength(slices: seq<Blob>, parts: seq<IndexedPart>, k: nat, length: nat)
    requires k > 0 && Decodes(slices, parts, k, CeilDiv(length, k))
    ensures length <= |Concat(slices)|
  {
    CeilCovers(length, k);
    if length > 0 {
      ConcatAt(slices, CeilDiv(length, k), 0, 0);
    }
  }

  /** Runs the decoding matrix over the parts, stripe by stripe. */
  method DecodeStripes(t: CodingTables, decoding: Matrix, blobs: seq<Blob>, size: nat, k: nat) returns (output: seq<Blob>)
    requires t.Filled() && Shape(decoding, k, k) && |blobs| == k
    requires forall j :: 0 <= j < k ==> |blobs[j]| == size
    ensures FilledTo(output, decoding, PartColumns(blobs, size), k, size)
  {
    hide Dot, CodingTables.Filled, Across;
    ghost var columns := PartColumns(blobs, size);
    output := seq(k, _ => []);
    var offset := 0;
    while offset < size
      invariant 0 <= offset <= size
      invariant FilledTo(output, decoding, columns, k, offset)
    {
      var count := Min(STRIPE_BYTES, size - offset);
      var data := PartStripe(blobs, size, offset, count);
      output := PushStripe(t, decoding, output, data, columns, k, offset, count);
      offset := offset + count;
    }
  }
}
