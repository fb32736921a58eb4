/**
 * Cluster records and the flat integer encoding in which a rank ships its
 * cluster table to the coordinator: [global_id, volume, nneigh, neigh...] per
 * record, records back to back (src/diag_cluster.cpp:286-294), decoded by the
 * coordinator with the cursor loop at src/diag_cluster.cpp:312-320.
 */
module ClusterRecords {

  datatype Option<T> = None | Some(value: T)

  /**
   * One entry of a cluster table: its global id, its volume (number of sites)
   * and the global ids of the clusters it touches across a process boundary.
   * The C++ record keeps nneigh beside neighlist; here nneigh is |neighlist|.
   */
  datatype Cluster = Cluster(globalId: int, volume: int, neighlist: seq<int>)

  /** Number of ints one record occupies in a packed buffer. */
  function RecordSize(c: Cluster): nat
  {
    3 + |c.neighlist|
  }

  /** The me_size count: the sum of 3 + nneigh over the table, accumulated in table order. */
  function PackedSize(cs: seq<Cluster>): nat
  {
    if cs == [] then 0 else PackedSize(cs[..|cs| - 1]) + RecordSize(cs[|cs| - 1])
  }

  function EncodeRecord(c: Cluster): seq<int>
  {
    [c.globalId, c.volume, |c.neighlist|] + c.neighlist
  }

  /** The packed buffer of a whole table. */
  function Encode(cs: seq<Cluster>): seq<int>
  {
    if cs == [] then [] else EncodeRecord(cs[0]) + Encode(cs[1..])
  }

  /**
   * Reads records off the front of a buffer exactly as the receive loop does:
   * id, volume, count, then count neighbour ids. A buffer that ends inside a
   * record, or declares a negative count, is malformed.
   */
  function Decode(buf: seq<int>): Option<seq<Cluster>>
    decreases |buf|
  {
    if buf == [] then Some([])
    else if |buf| < 3 || buf[2] < 0 || |buf| - 3 < buf[2] then None
    else
      match Decode(buf[3 + buf[2]..])
      case None => None
      case Some(rest) => Some([Cluster(buf[0], buf[1], buf[3..3 + buf[2]])] + rest)
  }

  /** Total volume of a table. */
  function SumVolumes(cs: seq<Cluster>): int
  {
    if cs == [] then 0 else SumVolumes(cs[..|cs| - 1]) + cs[|cs| - 1].volume
  }

  /** Appending one record to a table appends its encoding to the buffer. */
  lemma {:induction false} EncodeAppend(cs: seq<Cluster>, c: Cluster)
    ensures Encode(cs + [c]) == Encode(cs) + EncodeRecord(c)
  {
    if cs == [] {
      assert [c][1..] == [];
    } else {
      assert (cs + [c])[1..] == cs[1..] + [c];
      EncodeAppend(cs[1..], c);
    }
  }

  /** The number of ints written by the pack loop is exactly me_size. */
  lemma {:induction false} EncodeSize(cs: seq<Cluster>)
    ensures |Encode(cs)| == PackedSize(cs)
  {
    if cs != [] {
      EncodeSize(cs[..|cs| - 1]);
      assert cs == cs[..|cs| - 1] + [cs[|cs| - 1]];
      EncodeAppend(cs[..|cs| - 1], cs[|cs| - 1]);
    }
  }

  /** Round trip: decoding a packed table gives back the same records in the same order. */
  lemma {:induction false} DecodeEncode(cs: seq<Cluster>)
    ensures Decode(Encode(cs)) == Some(cs)
  {
    if cs != [] {
      var c := cs[0];
      var buf := Encode(cs);
      assert buf == EncodeRecord(c) + Encode(cs[1..]);
      assert buf[2] == |c.neighlist|;
      assert buf[3 + buf[2]..] == Encode(cs[1..]);
      assert buf[3..3 + buf[2]] == c.neighlist;
      DecodeEncode(cs[1..]);
      assert [c] + cs[1..] == cs;
    }
  }

  /** Conversely, every buffer that decodes is the encoding of what it decodes to. */
  lemma {:induction false} EncodeDecode(buf: seq<int>)
    requires Decode(buf).Some?
    ensures Encode(Decode(buf).value) == buf
  {
    if buf != [] {
      var c, rest := DecodeFirst(buf);
      EncodeDecode(rest);
      assert ([c] + Decode(rest).value)[1..] == Decode(rest).value;
    }
  }

  /** A nonempty buffer that decodes starts with one record's encoding, followed by a buffer that decodes. */
  lemma DecodeFirst(buf: seq<int>) returns (c: Cluster, rest: seq<int>)
    requires buf != [] && Decode(buf).Some?
    ensures Decode(rest).Some? && Decode(buf).value == [c] + Decode(rest).value
    ensures buf == EncodeRecord(c) + rest
  {
    var n := buf[2];
    rest := buf[3 + n..];
    c := Cluster(buf[0], buf[1], buf[3..3 + n]);
    assert buf == buf[..3] + buf[3..3 + n] + rest;
  }

  /**
   * One turn of the receive loop at cursor m, where the rest of the buffer
   * encodes the records todo still to be read: the record at m is the first
   * of them, in bounds, and what follows it encodes the others.
   */
  lemma ReadRecord(buf: seq<int>, m: nat, todo: seq<Cluster>)
    requires m < |buf| && buf[m..] == Encode(todo)
    ensures todo != [] && m + 3 <= |buf| && buf[m + 2] == |todo[0].neighlist| && m + 3 + buf[m + 2] <= |buf|
    ensures todo[0] == Cluster(buf[m], buf[m + 1], buf[m + 3..m + 3 + buf[m + 2]])
    ensures buf[m + 3 + buf[m + 2]..] == Encode(todo[1..])
  {
    var c := todo[0];
    var rest := buf[m..];
    assert rest == EncodeRecord(c) + Encode(todo[1..]);
    var n := |c.neighlist|;
    assert m + 3 + n <= |buf|;
    assert rest[..3 + n] == EncodeRecord(c);
    assert buf[m + 2] == rest[2] == n;
    assert rest[3..3 + n] == rest[..3 + n][3..] == EncodeRecord(c)[3..] == c.neighlist;
    assert buf[m + 3..m + 3 + n] == rest[3..3 + n];
    assert buf[m + 3 + n..] == rest[3 + n..];
  }

  /** Moving the first record still to read onto the end of a table keeps the whole, and its volume. */
  lemma MoveFirst(cl: seq<Cluster>, todo: seq<Cluster>)
    requires todo != []
    ensures (cl + [todo[0]]) + todo[1..] == cl + todo
    ensures SumVolumes(todo) == todo[0].volume + SumVolumes(todo[1..])
  {
    assert todo == [todo[0]] + todo[1..];
    SumVolumesConcat([todo[0]], todo[1..]);
    assert [todo[0]][..0] == [];
  }

  lemma {:induction false} EncodeConcat(a: seq<Cluster>, b: seq<Cluster>)
    ensures Encode(a + b) == Encode(a) + Encode(b)
  {
    if a != [] {
      assert (a + b)[1..] == a[1..] + b;
      EncodeConcat(a[1..], b);
    } else {
      assert a + b == b;
    }
  }

  /** Total volume distributes over concatenation of tables. */
  /** Two tables of the same length whose records have the same volumes have the same total volume. */
  lemma {:induction false} SumVolumesSameVolumes(cs: seq<Cluster>, ds: seq<Cluster>)
    requires |cs| == |ds| && forall k :: 0 <= k < |cs| ==> cs[k].volume == ds[k].volume
    ensures SumVolumes(cs) == SumVolumes(ds)
  {
    if cs != [] {
      SumVolumesSameVolumes(cs[..|cs| - 1], ds[..|ds| - 1]);
    }
  }

  /** Every neighbour id recorded in a table lies between 1 and total. */
  predicate NeighboursWithin(cs: seq<Cluster>, total: int)
  {
    forall x, t :: 0 <= x < |cs| && 0 <= t < |cs[x].neighlist| ==> 1 <= cs[x].neighlist[t] <= total
  }

  lemma {:induction false} SumVolumesConcat(a: seq<Cluster>, b: seq<Cluster>)
    ensures SumVolumes(a + b) == SumVolumes(a) + SumVolumes(b)
  {
    if b == [] {
      assert a + b == a;
    } else {
      assert (a + b)[..|a + b| - 1] == a + b[..|b| - 1];
      SumVolumesConcat(a, b[..|b| - 1]);
    }
  }

  /** Replacing one record changes the total by the difference of the two volumes. */
  lemma {:induction false} SumVolumesUpdate(cs: seq<Cluster>, k: nat, c: Cluster)
    requires k < |cs|
    ensures SumVolumes(cs[k := c]) == SumVolumes(cs) - cs[k].volume + c.volume
  {
    var cs' := cs[k := c];
    if k == |cs| - 1 {
      assert cs'[..|cs'| - 1] == cs[..|cs| - 1];
    } else {
      assert cs'[..|cs'| - 1] == cs[..|cs| - 1][k := c];
      SumVolumesUpdate(cs[..|cs| - 1], k, c);
    }
  }

  /** The size of a prefix of a table never exceeds the size of the table. */
  lemma {:induction false} PackedSizePrefix(cs: seq<Cluster>, i: nat)
    requires i <= |cs|
    ensures PackedSize(cs[..i]) <= PackedSize(cs)
  {
    if i < |cs| {
      PackedSizePrefix(cs[..|cs| - 1], i);
      assert cs[..|cs| - 1][..i] == cs[..i];
    } else {
      assert cs[..i] == cs;
    }
  }

  /** The tables of several ranks laid end to end, in rank order. */
  function Concat(tables: seq<seq<Cluster>>): seq<Cluster>
  {
    if tables == [] then [] else Concat(tables[..|tables| - 1]) + tables[|tables| - 1]
  }

  /** Gathering one more table appends its records and adds its volume. */
  lemma ConcatPrefixStep(tables: seq<seq<Cluster>>, k: nat)
    requires k < |tables|
    ensures Concat(tables[..k + 1]) == Concat(tables[..k]) + tables[k]
    ensures SumVolumes(Concat(tables[..k + 1])) == SumVolumes(Concat(tables[..k])) + SumVolumes(tables[k])
  {
    assert tables[..k + 1][..k] == tables[..k];
    SumVolumesConcat(Concat(tables[..k]), tables[k]);
  }
}
