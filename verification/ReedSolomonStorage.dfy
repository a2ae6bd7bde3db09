/** encodeFile and decodeFile of backend/storage/reed_solomon.js, and the round trip between them. */
module ReedSolomonStorage {
  import NumberTheory
  import opened GF256
  import opened GFMatrix
  import opened Minors
  import opened RecoveryLimits
  import opened ReedSolomon
  import opened Wrappers

  // ---- files and shards ---------------------------------------------------

  /** s is the least whole number not below total / k. */
  predicate IsCeiling(s: int, total: nat, k: nat) { k * (s - 1) < total <= k * s }

  /** Math.ceil(total / k) */
  function ShardSize(total: nat, k: nat): (s: nat)
    requires k >= 1
    ensures IsCeiling(s, total, k) && (total > 0 ==> s > 0)
  {
    var s := (total + k - 1) / k;
    assert total + k - 1 == k * s + (total + k - 1) % k;
    s
  }

  lemma CeilingUnique(s: int, t: int, total: nat, k: nat)
    requires IsCeiling(s, total, k) && IsCeiling(t, total, k)
    ensures s == t
  {
    assert s < t ==> k * s <= k * (t - 1);
    assert t < s ==> k * t <= k * (s - 1);
  }

  /** Whether a file is accepted, by the whole number s for which k (s - 1) < |file| <= k s. */
  lemma AcceptedIff(file: seq<Byte>, k: nat, s: nat)
    requires k >= 1 && IsCeiling(s, |file|, k)
    ensures Accepted(file, k) <==> |file| > 0 && (k - 1) * s <= |file|
  {
    CeilingUnique(s, ShardSize(|file|, k), |file|, k);
  }

  /** encodeFile accepts a non-empty file whose last data shard starts inside it. */
  predicate Accepted(file: seq<Byte>, k: nat)
    requires k >= 1
  {
    |file| > 0 && (k - 1) * ShardSize(|file|, k) <= |file|
  }

  /** Byte b of data shard s: the file cut into pieces, padded with zeros. */
  function DataByte(file: seq<Byte>, size: nat, s: nat, b: nat): Byte {
    if s * size + b < |file| then file[s * size + b] else Zero
  }

  function Column(file: seq<Byte>, k: nat, size: nat, b: nat): (c: Vec)
    ensures |c| == k && forall s :: 0 <= s < k ==> c[s] == DataByte(file, size, s, b)
  {
    seq(k, s requires 0 <= s < k => DataByte(file, size, s, b))
  }

  /** Shard t of a file: row t of the generator applied to every column of data bytes. */
  ghost predicate IsShard(shard: Shard, file: seq<Byte>, k: nat, size: nat, t: nat) {
    |shard| == size && forall b :: 0 <= b < size ==> shard[b] == Dot(GeneratorRow(k, t), Column(file, k, size, b))
  }

  class ReedSolomonStorageManager {
    const k: nat
    const m: nat
    const n: nat
    var generatorMatrix: Mat

    ghost predicate Valid()
      reads this
    {
      1 <= k <= 255 && 1 <= m <= 255 && n == k + m && generatorMatrix == Generator(k, m)
    }

    constructor (k: nat, m: nat)
      requires 1 <= k <= 255 && 1 <= m <= 255
      ensures Valid() && this.k == k && this.m == m
    {
      this.k, this.m, this.n := k, m, k + m;
      this.generatorMatrix := [];
      new;
      var g := BuildGeneratorMatrix();
      generatorMatrix := g;
    }

    method BuildGeneratorMatrix() returns (g: Mat)
      ensures g == Generator(k, m)
    {
      hide Gpow, Exp;
      g := [];
      for i := 0 to k
        invariant |g| == i && forall t :: 0 <= t < i ==> g[t] == GeneratorRow(k, t)
      {
        var row := ZeroVec(k);
        row := row[i := One];
        assert row == Unit(k, i);
        g := g + [row];
      }
      for j := 0 to m
        invariant |g| == k + j && forall t :: 0 <= t < k + j ==> g[t] == GeneratorRow(k, t)
      {
        var row: Vec := [];
        for i := 0 to k
          invariant |row| == i && forall x :: 0 <= x < i ==> row[x] == Exp(j * x)
        {
          GpowAlpha(j * i);
          row := row + [Gpow(Double(One), j * i)];
        }
        assert row == ParityRow(k, j);
        g := g + [row];
      }
    }

    /** _encodeShard: one GF(256) linear combination per byte position. */
    method EncodeShard(shardIndex: nat, dataShards: seq<Shard>, shardSize: nat, ghost file: seq<Byte>)
      returns (parity: array<Byte>)
      requires Valid() && k <= shardIndex < n && |dataShards| == k
      requires forall s :: 0 <= s < k ==> |dataShards[s]| == shardSize
      requires forall s, b :: 0 <= s < k && 0 <= b < shardSize ==> dataShards[s][b] == DataByte(file, shardSize, s, b)
      ensures fresh(parity) && IsShard(parity[..], file, k, shardSize, shardIndex)
    {
      hide Mul, Gmul, Add, GeneratorRow, DataByte;
      parity := new Byte[shardSize](_ => Zero);
      var row := generatorMatrix[shardIndex];
      assert row == GeneratorRow(k, shardIndex);
      for i := 0 to shardSize
        invariant forall b :: 0 <= b < i ==> parity[b] == Dot(row, Column(file, k, shardSize, b))
      {
        var val := Zero;
        ghost var column := Column(file, k, shardSize, i);
        for s := 0 to k
          invariant val == DotTo(row, column, s)
          invariant forall b :: 0 <= b < i ==> parity[b] == Dot(row, Column(file, k, shardSize, b))
        {
          GmulIsMul(row[s], dataShards[s][i]);
          val := Add(val, Gmul(row[s], dataShards[s][i]));
        }
        assert val == Dot(row, column);
        parity[i] := val;
      }
    }

    /** encodeFile: the error cases are the empty file and a data shard that starts past the end. */
    method EncodeFile(file: seq<Byte>) returns (r: Result<Encoded>)
      requires Valid()
      ensures r.Ok? <==> Accepted(file, k)
      ensures forall s: nat :: IsCeiling(s, |file|, k) ==> (r.Ok? <==> |file| > 0 && (k - 1) * s <= |file|)
      ensures r.Ok? ==> IsCeiling(r.value.shardSize, |file|, k) && r.value.originalSize == |file|
      ensures r.Ok? ==> |r.value.shards| == n
      ensures r.Ok? ==> forall t :: 0 <= t < n ==> IsShard(r.value.shards[t], file, k, r.value.shardSize, t)
    {
      hide IsShard, IsCeiling;
      forall s: nat | IsCeiling(s, |file|, k) ensures Accepted(file, k) <==> |file| > 0 && (k - 1) * s <= |file| {
        AcceptedIff(file, k, s);
      }
      var total := |file|;
      if total == 0 {
        return Error;
      }
      var size := ShardSize(total, k);
      var dataShards: seq<Shard> := [];
      for i := 0 to k
        invariant |dataShards| == i && (i > 0 ==> (i - 1) * size <= total)
        invariant forall s :: 0 <= s < i ==> |dataShards[s]| == size
        invariant forall s, b :: 0 <= s < i && 0 <= b < size ==> dataShards[s][b] == DataByte(file, size, s, b)
      {
        var start := i * size;
        var end := if start + size < total then start + size else total;
        if start > total {
          LaterStartsToo(i, k, size);
          return Error;
        }
        var chunk: Shard := file[start..end] + seq(size - (end - start), _ => Zero);
        dataShards := dataShards + [chunk];
      }
      var shards := dataShards;
      DataShardsAreShards(dataShards, file, k, size);
      for j := 0 to m
        invariant |shards| == k + j && forall t :: 0 <= t < k + j ==> IsShard(shards[t], file, k, size, t)
      {
        var parity := EncodeShard(k + j, dataShards, size, file);
        shards := shards + [parity[..]];
      }
      r := Ok(Encoded(size, shards, total));
    }

    /** The positions and contents of the shards that are there. */
    method CollectPresent(shardsList: seq<Option<Shard>>) returns (present: seq<(nat, Shard)>)
      ensures IsPresent(shardsList, present)
    {
      hide Positions, Flags;
      StartPresent(shardsList);
      present := [];
      var someMissing := exists i :: 0 <= i < |shardsList| && shardsList[i].None?;
      if someMissing || |shardsList| == n {
        for i := 0 to |shardsList|
          invariant IsPresent(shardsList[..i], present)
        {
          PresentStep(shardsList, i, present);
          if shardsList[i].Some? {
            present := present + [(i, shardsList[i].value)];
          }
        }
      } else {
        for i := 0 to |shardsList|
          invariant IsPresent(shardsList[..i], present)
        {
          PresentStep(shardsList, i, present);
          present := present + [(i, shardsList[i].value)];
        }
      }
      assert shardsList[..|shardsList|] == shardsList;
    }

    /** decodeFile: an error without shards, with too few shards, with a position past the generator,
        or when the first k present shards do not determine the data; otherwise the bytes of every
        file whose shards these are, and when all bytes are asked for, of no other file. */
    method DecodeFile(shardsList: seq<Option<Shard>>, originalSize: nat, shardSize: nat) returns (r: Result<seq<Byte>>)
      requires Valid()
      ensures r.Ok? <==> Decodable(shardsList, k, n)
      ensures r.Ok? ==> forall file, size :: size == shardSize && Explains(file, size, shardsList, k) ==>
        r.value == FileBytes(file, k, size, originalSize)
      ensures r.Ok? && originalSize >= shardSize * k ==> forall file :: r.value == FileBytes(file, k, shardSize, originalSize) <==>
        Explains(file, shardSize, shardsList, k)
    {
      hide Singular, Undoes, Explains, FileBytes, GeneratorRow, Rows;
      if |shardsList| == 0 {
        EmptyNotDecodable(shardsList, k, n);
        return Error;
      }
      var present := CollectPresent(shardsList);
      PresentIsFirst(shardsList, present, k);
      if |present| < k {
        return Error;
      }
      var selected := present[..k];
      var matrix: Mat := [];
      for t := 0 to k
        invariant |matrix| == t && forall s :: 0 <= s < t ==> selected[s].0 < n && matrix[s] == GeneratorRow(k, selected[s].0)
      {
        if selected[t].0 >= n {
          return Error;
        }
        matrix := matrix + [generatorMatrix[selected[t].0]];
      }
      assert matrix == Rows(k, FirstPresent(shardsList, k));
      var inverse := InvertSquareMatrix(matrix);
      if inverse.Error? {
        return Error;
      }
      var buffer := Combine(inverse.value, selected, shardSize);
      DecodedIsFile(shardsList, present, matrix, inverse.value, buffer[..], k, shardSize, originalSize);
      r := Ok(buffer[..if originalSize < buffer.Length then originalSize else buffer.Length]);
      if originalSize >= shardSize * k {
        forall file | r.value == FileBytes(file, k, shardSize, originalSize) ensures Explains(file, shardSize, shardsList, k) {
          BytesAre(file, k, shardSize, originalSize, r.value);
          FileExplains(file, shardSize, shardsList, present, matrix, inverse.value, r.value, k);
        }
      }
    }

    /** The three nested loops that multiply the inverse with the observed bytes. */
    method Combine(inverse: Mat, selected: seq<(nat, Shard)>, shardSize: nat) returns (buffer: array<Byte>)
      requires Square(inverse, k) && |selected| == k >= 1
      ensures fresh(buffer) && buffer.Length == shardSize * k
      ensures shardSize > 0 ==> forall i :: 0 <= i < buffer.Length ==>
        buffer[i] == CellValue(inverse, selected, k, shardSize, i)
    {
      hide Mul, Gmul, Add, Dot, DotTo, CellValue, Before;
      buffer := new Byte[shardSize * k](_ => Zero);
      if shardSize > 0 {
        NothingBefore(buffer.Length, shardSize);
      }
      for bytePos := 0 to shardSize
        invariant forall i :: 0 <= i < buffer.Length && Before(i, shardSize, bytePos, 0) ==>
          buffer[i] == CellValue(inverse, selected, k, shardSize, i)
      {
        for row := 0 to k
          invariant forall i :: 0 <= i < buffer.Length && Before(i, shardSize, bytePos, row) ==>
            buffer[i] == CellValue(inverse, selected, k, shardSize, i)
        {
          var val := CombineByte(inverse[row], selected, bytePos, shardSize);
          CellAt(inverse, selected, k, shardSize, bytePos, row);
          PositionsDiffer(buffer.Length, shardSize, bytePos, row);
          buffer[bytePos + row * shardSize] := val;
        }
        RowsExhausted(buffer.Length, k, shardSize, bytePos);
      }
      if shardSize > 0 {
        AllBefore(buffer.Length, shardSize);
      }
    }

    method CombineByte(inverseRow: Vec, selected: seq<(nat, Shard)>, bytePos: nat, shardSize: nat) returns (val: Byte)
      requires |inverseRow| == |selected| == k && bytePos < shardSize
      ensures val == Dot(inverseRow, Observed(selected, bytePos))
    {
      hide Mul, Gmul, Add;
      val := Zero;
      for col := 0 to k
        invariant val == DotTo(inverseRow, Observed(selected, bytePos), col)
      {
        GmulIsMul(inverseRow[col], ByteOf(selected[col].1, bytePos));
        val := Add(val, Gmul(inverseRow[col], ByteOf(selected[col].1, bytePos)));
      }
    }
  }

  lemma LaterStartsToo(i: nat, k: nat, size: nat)
    requires i < k
    ensures i * size <= (k - 1) * size
  {
    assert (k - 1 - i) * size >= 0;
    assert (k - 1) * size == i * size + (k - 1 - i) * size;
  }

  lemma DataShardsAreShards(dataShards: seq<Shard>, file: seq<Byte>, k: nat, size: nat)
    requires |dataShards| == k && forall s :: 0 <= s < k ==> |dataShards[s]| == size
    requires forall s, b :: 0 <= s < k && 0 <= b < size ==> dataShards[s][b] == DataByte(file, size, s, b)
    ensures forall s :: 0 <= s < k ==> IsShard(dataShards[s], file, k, size, s)
  {
    hide DotTo;
    forall s | 0 <= s < k ensures IsShard(dataShards[s], file, k, size, s) {
      forall b | 0 <= b < size ensures dataShards[s][b] == Dot(GeneratorRow(k, s), Column(file, k, size, b)) {
        DotUnit(k, s, Column(file, k, size, b));
      }
    }
  }

  // ---- which shards are used ----------------------------------------------

  function Flags(list: seq<Option<Shard>>): (f: seq<bool>)
    ensures |f| == |list| && forall i :: 0 <= i < |list| ==> f[i] == list[i].Some?
  {
    seq(|list|, i requires 0 <= i < |list| => list[i].Some?)
  }

  /** The positions that are set, in order. */
  function Positions(flags: seq<bool>): (p: seq<nat>)
    ensures forall t :: 0 <= t < |p| ==> p[t] < |flags| && flags[p[t]]
    ensures Increasing(p)
  {
    if flags == [] then []
    else
      var front := flags[..|flags| - 1];
      var p := Positions(front);
      assert forall t :: 0 <= t < |p| ==> flags[p[t]] == front[p[t]];
      if flags[|flags| - 1] then p + [|flags| - 1] else p
  }

  function FirstPresent(list: seq<Option<Shard>>, k: nat): (p: seq<nat>)
    requires |Positions(Flags(list))| >= k
    ensures |p| == k
  {
    Positions(Flags(list))[..k]
  }

  ghost predicate IsPresent(list: seq<Option<Shard>>, present: seq<(nat, Shard)>) {
    |present| == |Positions(Flags(list))|
    && forall t :: 0 <= t < |present| ==>
      present[t].0 == Positions(Flags(list))[t] && list[Positions(Flags(list))[t]] == Some(present[t].1)
  }

  lemma StartPresent(list: seq<Option<Shard>>)
    ensures IsPresent(list[..0], [])
  {
    assert Flags(list[..0]) == [];
  }

  lemma PresentStep(list: seq<Option<Shard>>, i: nat, present: seq<(nat, Shard)>)
    requires i < |list| && IsPresent(list[..i], present)
    ensures IsPresent(list[..i + 1], if list[i].Some? then present + [(i, list[i].value)] else present)
  {
    assert Flags(list[..i + 1])[..i] == Flags(list[..i]);
  }

  lemma PresentIsFirst(list: seq<Option<Shard>>, present: seq<(nat, Shard)>, k: nat)
    requires IsPresent(list, present)
    ensures |present| == |Positions(Flags(list))|
    ensures |present| >= k ==> forall t :: 0 <= t < k ==> present[t].0 == FirstPresent(list, k)[t]
    ensures forall t :: 0 <= t < |present| ==> present[t].0 < |list| && list[present[t].0] == Some(present[t].1)
  {
  }

  /** The first k present positions name rows of the generator that determine the data. */
  ghost predicate Decodable(list: seq<Option<Shard>>, k: nat, n: nat) {
    |list| > 0 && |Positions(Flags(list))| >= k
    && (forall t :: 0 <= t < k ==> FirstPresent(list, k)[t] < n)
    && !Singular(Rows(k, FirstPresent(list, k)), k)
  }

  lemma EmptyNotDecodable(list: seq<Option<Shard>>, k: nat, n: nat)
    requires |list| == 0
    ensures !Decodable(list, k, n)
  {
  }

  // ---- what decoding computes ---------------------------------------------

  /** Beyond the end of a shard JavaScript reads undefined, for which gmul looks up the logarithm of 0: the
      shard counts as continued with ones. */
  function ByteOf(shard: Shard, b: nat): Byte { if b < |shard| then shard[b] else One }

  function Observed(selected: seq<(nat, Shard)>, b: nat): (o: Vec)
    ensures |o| == |selected| && forall t :: 0 <= t < |selected| ==> o[t] == ByteOf(selected[t].1, b)
  {
    seq(|selected|, t requires 0 <= t < |selected| => ByteOf(selected[t].1, b))
  }

  lemma IndexSplit(i: nat, size: nat, k: nat)
    requires size > 0 && i < size * k
    ensures i == (i / size) * size + i % size && 0 <= i / size < k
  {
    assert i == size * (i / size) + i % size;
    assert size * (i / size) < size * k;
  }

  /** Byte i of the output: row i / size of the inverse applied to the observed bytes at i % size. */
  function CellValue(inverse: Mat, selected: seq<(nat, Shard)>, k: nat, size: nat, i: nat): Byte
    requires Square(inverse, k) && |selected| == k && size > 0 && i < size * k
  {
    IndexSplit(i, size, k);
    Dot(inverse[i / size], Observed(selected, i % size))
  }

  /** Position i has been written when the loops stand at (bytePos, row). */
  predicate Before(i: nat, size: nat, bytePos: nat, row: nat)
    requires size > 0
  {
    i % size < bytePos || (i % size == bytePos && i / size < row)
  }

  lemma CellOf(inverse: Mat, selected: seq<(nat, Shard)>, k: nat, size: nat, i: nat, row: nat, bytePos: nat)
    requires Square(inverse, k) && |selected| == k && row < k && size > 0 && i < size * k
    requires i / size == row && i % size == bytePos
    ensures CellValue(inverse, selected, k, size, i) == Dot(inverse[row], Observed(selected, bytePos))
  {
    hide Dot, Observed;
  }

  lemma CellAt(inverse: Mat, selected: seq<(nat, Shard)>, k: nat, size: nat, bytePos: nat, row: nat)
    requires Square(inverse, k) && |selected| == k && bytePos < size && row < k
    ensures 0 <= bytePos + row * size < size * k
    ensures CellValue(inverse, selected, k, size, bytePos + row * size) == Dot(inverse[row], Observed(selected, bytePos))
  {
    hide CellValue, Dot, Observed;
    LaterStartsToo(row, k, size);
    assert size * k == (k - 1) * size + size;
    NumberTheory.RemainderUnique(bytePos + row * size, row, bytePos, size);
    CellOf(inverse, selected, k, size, bytePos + row * size, row, bytePos);
  }

  lemma PositionsDiffer(len: nat, size: nat, bytePos: nat, row: nat)
    requires size > 0 && bytePos < size
    ensures forall i: nat :: i < len && Before(i, size, bytePos, row + 1) ==>
      i == bytePos + row * size || Before(i, size, bytePos, row)
  {
    forall i: nat | i < len && Before(i, size, bytePos, row + 1)
      ensures i == bytePos + row * size || Before(i, size, bytePos, row)
    {
      assert i == size * (i / size) + i % size;
    }
  }

  lemma RowsExhausted(len: nat, k: nat, size: nat, bytePos: nat)
    requires size > 0 && len == size * k
    ensures forall i: nat :: i < len && Before(i, size, bytePos + 1, 0) ==> Before(i, size, bytePos, k)
  {
    forall i: nat | i < len && Before(i, size, bytePos + 1, 0) ensures Before(i, size, bytePos, k) {
      IndexSplit(i, size, k);
    }
  }

  lemma NothingBefore(len: nat, size: nat)
    requires size > 0
    ensures forall i: nat :: i < len ==> !Before(i, size, 0, 0)
  {
  }

  lemma AllBefore(len: nat, size: nat)
    requires size > 0
    ensures forall i: nat :: i < len ==> Before(i, size, size, 0)
  {
  }

  // ---- the round trip -----------------------------------------------------

  /** The first k present shards hold, at every byte position, what the file's shards hold there; a shard cut
      short does as long as only ones are missing. */
  ghost predicate Explains(file: seq<Byte>, size: nat, list: seq<Option<Shard>>, k: nat) {
    |Positions(Flags(list))| >= k
    && forall t, b :: 0 <= t < k && 0 <= b < size ==>
      var shard := list[FirstPresent(list, k)[t]].value;
      ByteOf(shard, b) == Dot(GeneratorRow(k, FirstPresent(list, k)[t]), Column(file, k, size, b))
  }

  /** The first `count` bytes of the zero-padded file. */
  function FileBytes(file: seq<Byte>, k: nat, size: nat, count: nat): (r: seq<Byte>)
    ensures |r| == if count < size * k then count else size * k
    ensures forall i :: 0 <= i < |r| ==> r[i] == if i < |file| then file[i] else Zero
  {
    seq(if count < size * k then count else size * k, i requires 0 <= i => if i < |file| then file[i] else Zero)
  }

  lemma BytesAre(file: seq<Byte>, k: nat, size: nat, count: nat, bytes: seq<Byte>)
    requires count >= size * k && bytes == FileBytes(file, k, size, count)
    ensures |bytes| == size * k && forall i :: 0 <= i < |bytes| ==> bytes[i] == if i < |file| then file[i] else Zero
  {
  }

  /** What is observed is the chosen rows applied to the data bytes. */
  lemma ObservedIsApplied(file: seq<Byte>, size: nat, list: seq<Option<Shard>>, present: seq<(nat, Shard)>,
                          matrix: Mat, k: nat, b: nat)
    requires b < size && Explains(file, size, list, k) && IsPresent(list, present) && |present| >= k
    requires matrix == Rows(k, FirstPresent(list, k))
    ensures Observed(present[..k], b) == Apply(matrix, Column(file, k, size, b))
  {
    hide Dot, GeneratorRow;
    var o, c := Observed(present[..k], b), Column(file, k, size, b);
    forall t | 0 <= t < k ensures o[t] == Apply(matrix, c)[t] {
      assert list[FirstPresent(list, k)[t]].value == present[t].1;
    }
  }

  /** At every byte position the inverse turns the observed bytes into the data bytes. */
  lemma ColumnRecovered(file: seq<Byte>, size: nat, list: seq<Option<Shard>>, present: seq<(nat, Shard)>,
                        matrix: Mat, inverse: Mat, k: nat, b: nat)
    requires b < size && Explains(file, size, list, k) && IsPresent(list, present) && |present| >= k
    requires matrix == Rows(k, FirstPresent(list, k)) && Square(inverse, k) && Undoes(inverse, matrix, k)
    ensures Apply(inverse, Observed(present[..k], b)) == Column(file, k, size, b)
  {
    hide Explains, Rows, IsPresent, Observed, Column, Apply;
    ObservedIsApplied(file, size, list, present, matrix, k, b);
  }

  lemma DecodedIsFile(list: seq<Option<Shard>>, present: seq<(nat, Shard)>, matrix: Mat, inverse: Mat,
                      buffer: seq<Byte>, k: nat, shardSize: nat, count: nat)
    requires IsPresent(list, present) && |present| >= k && |buffer| == shardSize * k
    requires matrix == Rows(k, FirstPresent(list, k)) && Square(inverse, k) && Undoes(inverse, matrix, k)
    requires shardSize > 0 ==> forall i :: 0 <= i < |buffer| ==>
      buffer[i] == CellValue(inverse, present[..k], k, shardSize, i)
    ensures forall file, size :: size == shardSize && Explains(file, size, list, k) ==>
      buffer[..if count < |buffer| then count else |buffer|] == FileBytes(file, k, size, count)
  {
    hide Undoes, Explains, Dot, Rows, FileBytes;
    forall file, size | size == shardSize && Explains(file, size, list, k)
      ensures buffer[..if count < |buffer| then count else |buffer|] == FileBytes(file, k, size, count)
    {
      forall i | 0 <= i < |buffer| ensures buffer[i] == if i < |file| then file[i] else Zero {
        IndexSplit(i, size, k);
        ColumnRecovered(file, size, list, present, matrix, inverse, k, i % size);
        assert buffer[i] == Apply(inverse, Observed(present[..k], i % size))[i / size];
      }
    }
  }

  ghost predicate Undone(matrix: Mat, inverse: Mat, k: nat) {
    Square(matrix, k) && Square(inverse, k) && Undoes(matrix, inverse, k)
  }

  /** A column that the inverse makes of what is observed is one from which the rows make that again. */
  lemma ColumnExplained(o: Vec, c: Vec, matrix: Mat, inverse: Mat, k: nat, t: nat)
    requires |o| == k && t < k && Undone(matrix, inverse, k) && Apply(inverse, o) == c
    ensures Dot(matrix[t], c) == o[t]
  {
    hide Dot;
    assert Apply(matrix, Apply(inverse, o)) == o;
  }

  /** The whole buffer is the padded file only if the shards are explained by the file. */
  lemma FileExplains(file: seq<Byte>, size: nat, list: seq<Option<Shard>>, present: seq<(nat, Shard)>,
                     matrix: Mat, inverse: Mat, buffer: seq<Byte>, k: nat)
    requires IsPresent(list, present) && |present| >= k && |buffer| == size * k
    requires matrix == Rows(k, FirstPresent(list, k)) && Square(inverse, k) && Undoes(matrix, inverse, k)
    requires size > 0 ==> forall i :: 0 <= i < |buffer| ==> buffer[i] == CellValue(inverse, present[..k], k, size, i)
    requires forall i :: 0 <= i < |buffer| ==> buffer[i] == if i < |file| then file[i] else Zero
    ensures Explains(file, size, list, k)
  {
    hide Undoes, Dot, Rows, GeneratorRow, CellValue;
    forall t, b | 0 <= t < k && 0 <= b < size
      ensures ByteOf(list[FirstPresent(list, k)[t]].value, b) == Dot(GeneratorRow(k, FirstPresent(list, k)[t]), Column(file, k, size, b))
    {
      var o, c := Observed(present[..k], b), Column(file, k, size, b);
      forall row | 0 <= row < k ensures Apply(inverse, o)[row] == c[row] {
        CellAt(inverse, present[..k], k, size, b, row);
        assert buffer[b + row * size] == CellValue(inverse, present[..k], k, size, b + row * size);
      }
      assert Apply(inverse, o) == c;
      ColumnExplained(o, c, matrix, inverse, k, t);
      assert present[t].0 == FirstPresent(list, k)[t] && list[FirstPresent(list, k)[t]].value == present[t].1;
    }
  }

  lemma WholeFile(file: seq<Byte>, k: nat, size: nat)
    requires |file| <= size * k
    ensures FileBytes(file, k, size, |file|) == file
  {
  }

  /** Lost shards become null entries. */
  function Keep(shards: seq<Shard>, kept: seq<bool>): (list: seq<Option<Shard>>)
    requires |kept| == |shards|
    ensures |list| == |shards|
    ensures forall i :: 0 <= i < |list| ==> list[i] == if kept[i] then Some(shards[i]) else None
  {
    seq(|shards|, i requires 0 <= i < |shards| => if kept[i] then Some(shards[i]) else None)
  }

  lemma ChoiceOfKept(list: seq<Option<Shard>>, k: nat, m: nat)
    requires |list| == k + m && |Positions(Flags(list))| >= k
    ensures Choice(FirstPresent(list, k), k, m)
  {
  }

  /** Encode, lose all but at least k shards, decode: the original bytes come back, or decoding
      raises because the k rows used do not determine the data, which cannot happen for safe sizes. */
  method StoreAndRecover(manager: ReedSolomonStorageManager, file: seq<Byte>, kept: seq<bool>)
    returns (r: Result<seq<Byte>>)
    requires manager.Valid() && Accepted(file, manager.k) && |kept| == manager.n
    requires |Positions(kept)| >= manager.k
    ensures r.Ok? ==> r.value == file
    ensures Safe(manager.k, manager.m) ==> r.Ok?
    ensures r.Error? <==> Singular(Rows(manager.k, Positions(kept)[..manager.k]), manager.k)
  {
    hide Singular, IsShard, Rows;
    var k := manager.k;
    var encoded := manager.EncodeFile(file);
    var list := Keep(encoded.value.shards, kept);
    assert Flags(list) == kept;
    ChoiceOfKept(list, k, manager.m);
    r := manager.DecodeFile(list, encoded.value.originalSize, encoded.value.shardSize);
    KeptExplains(file, encoded.value.shardSize, list, k);
    assert |file| <= encoded.value.shardSize * k;
    WholeFile(file, k, encoded.value.shardSize);
    if Safe(k, manager.m) {
      SafeChoice(k, manager.m, FirstPresent(list, k));
    }
  }

  /** Which shards of a choice are kept. */
  function FlagsOf(sel: seq<nat>, n: nat): (kept: seq<bool>)
    ensures |kept| == n && forall i :: 0 <= i < n ==> (kept[i] <==> i in sel)
  {
    seq(n, i requires 0 <= i < n => i in sel)
  }

  lemma {:induction false} PositionsOfFlags(sel: seq<nat>, n: nat)
    requires Increasing(sel) && forall t :: 0 <= t < |sel| ==> sel[t] < n
    ensures Positions(FlagsOf(sel, n)) == sel
    decreases n
  {
    var kept := FlagsOf(sel, n);
    if n > 0 {
      if n - 1 in sel {
        var last := |sel| - 1;
        LastIsLargest(sel, n);
        PositionsOfFlags(sel[..last], n - 1);
        assert kept[..n - 1] == FlagsOf(sel[..last], n - 1);
        assert sel == sel[..last] + [n - 1];
      } else {
        forall t | 0 <= t < |sel| ensures sel[t] < n - 1 {
          assert sel[t] in sel;
        }
        PositionsOfFlags(sel, n - 1);
        assert kept[..n - 1] == FlagsOf(sel, n - 1);
      }
    }
  }

  lemma KeptChoice(kept: seq<bool>, k: nat, m: nat)
    requires |kept| == k + m && |Positions(kept)| >= k
    ensures Choice(Positions(kept)[..k], k, m)
  {
  }

  /** Every loss that leaves k shards can be survived exactly for the safe sizes. */
  lemma EveryLossSurvived(k: nat, m: nat)
    requires 1 <= k <= 255 && 1 <= m <= 255
    ensures
      (forall kept :: |kept| == k + m && |Positions(kept)| >= k ==> !Singular(Rows(k, Positions(kept)[..k]), k))
      <==> Safe(k, m)
  {
    hide Singular, Positions;
    if Safe(k, m) {
      forall kept | |kept| == k + m && |Positions(kept)| >= k ensures !Singular(Rows(k, Positions(kept)[..k]), k) {
        KeptChoice(kept, k, m);
        SafeChoice(k, m, Positions(kept)[..k]);
      }
    } else {
      AnyKOfN(k, m);
      var sel: seq<nat> :| Choice(sel, k, m) && Singular(Rows(k, sel), k);
      PositionsOfFlags(sel, k + m);
      var kept := FlagsOf(sel, k + m);
      assert Positions(kept)[..k] == sel;
    }
  }

  lemma KeptExplains(file: seq<Byte>, size: nat, list: seq<Option<Shard>>, k: nat)
    requires |Positions(Flags(list))| >= k
    requires forall i :: 0 <= i < |list| && list[i].Some? ==> IsShard(list[i].value, file, k, size, i)
    ensures Explains(file, size, list, k)
  {
    hide Dot, GeneratorRow;
  }
}
