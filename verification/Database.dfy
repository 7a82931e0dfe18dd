/** The record store: a map in memory, addressed by each record's own key, and its image on disk, a
    run of records that each carry their length in front. */
module Database {
  import opened Bytes
  import opened Words

  datatype Option<T> = None | Some(value: T)

  /** The keys of a map in whatever order an iterator yields them. */
  ghost predicate Lists<K(!new)>(keys: seq<K>, s: set<K>) {
    && (forall k :: k in keys <==> k in s)
    && forall i, j :: 0 <= i < j < |keys| ==> keys[i] != keys[j]
  }

  /** What a lookup leaves behind: a missing key gains a blank record. */
  function Touched<K, R>(m: map<K, R>, k: K, blank: R): map<K, R> {
    if k in m then m else m[k := blank]
  }

  function Framed(data: seq<Byte>): seq<Byte>
    requires |data| < UINT_LIMIT
  {
    Uint2Bytes(|data|) + data
  }

  ghost predicate Fits(records: seq<seq<Byte>>) {
    forall i :: 0 <= i < |records| ==> |records[i]| < UINT_LIMIT
  }

  ghost function FileOf(records: seq<seq<Byte>>): seq<Byte>
    requires Fits(records)
  {
    if records == [] then [] else Framed(records[0]) + FileOf(records[1..])
  }

  lemma TwoRecords()
    ensures Fits([[7], [8, 9]]) && FileOf([[7], [8, 9]]) == [0, 0, 0, 1, 7, 0, 0, 0, 2, 8, 9]
  {
    var a: seq<seq<Byte>>, b: seq<seq<Byte>> := [[7], [8, 9]], [[8, 9]];
    assert a[1..] == b && b[1..] == [];
    assert FileOf(b) == Framed([8, 9]) + [];
    assert Uint2Bytes(1) == [0, 0, 0, 1] && Uint2Bytes(2) == [0, 0, 0, 2];
  }

  lemma {:induction false} FileOfSnoc(records: seq<seq<Byte>>, last: seq<Byte>)
    requires Fits(records) && |last| < UINT_LIMIT
    ensures Fits(records + [last])
    ensures FileOf(records + [last]) == FileOf(records) + Framed(last)
  {
    if records == [] {
      assert records + [last] == [last];
      assert FileOf([last]) == Framed(last) + FileOf([last][1..]);
    } else {
      FileOfSnoc(records[1..], last);
      assert (records + [last])[1..] == records[1..] + [last];
      assert (records + [last])[0] == records[0];
    }
  }

  lemma EmptyFile(records: seq<seq<Byte>>)
    requires Fits(records) && FileOf(records) == []
    ensures records == []
  {
  }

  /** Reading: each record goes under the key found in it, later ones replacing earlier ones. */
  ghost function Loaded<K, R>(records: seq<seq<Byte>>, deserialize: seq<Byte> -> R, keyOf: R -> K): map<K, R> {
    if records == [] then map[]
    else
      var last := deserialize(records[|records| - 1]);
      Loaded(records[..|records| - 1], deserialize, keyOf)[keyOf(last) := last]
  }

  ghost function Images<K, R>(keys: seq<K>, m: map<K, R>, serialize: R -> seq<Byte>): (s: seq<seq<Byte>>)
    requires forall k :: k in keys ==> k in m
    ensures |s| == |keys|
  {
    seq(|keys|, i requires 0 <= i < |keys| && keys[i] in m => serialize(m[keys[i]]))
  }

  lemma {:induction false} LoadedImages<K, R>(keys: seq<K>, m: map<K, R>, serialize: R -> seq<Byte>,
                            deserialize: seq<Byte> -> R, keyOf: R -> K)
    requires forall k :: k in keys ==> k in m && keyOf(deserialize(serialize(m[k]))) == k
    ensures Loaded(Images(keys, m, serialize), deserialize, keyOf)
            == map k | k in keys :: deserialize(serialize(m[k]))
    decreases |keys|
  {
    if keys != [] {
      var front := keys[..|keys| - 1];
      var images := Images(keys, m, serialize);
      LoadedImages(front, m, serialize, deserialize, keyOf);
      assert images[..|images| - 1] == Images(front, m, serialize);
      assert keys == front + [keys[|keys| - 1]];
    }
  }

  /** Writing every record and reading the file back yields each record's reread form under the
      key it was stored under, provided the encoding keeps that key. */
  lemma WriteThenRead<K(!new), R>(keys: seq<K>, m: map<K, R>, serialize: R -> seq<Byte>,
                                  deserialize: seq<Byte> -> R, keyOf: R -> K, reread: map<K, R>)
    requires Lists(keys, m.Keys) && reread.Keys == m.Keys
    requires forall k :: k in m ==> deserialize(serialize(m[k])) == reread[k]
    requires forall k :: k in m ==> keyOf(reread[k]) == k
    ensures forall k :: k in keys ==> k in m
    ensures Loaded(Images(keys, m, serialize), deserialize, keyOf) == reread
  {
    LoadedImages(keys, m, serialize, deserialize, keyOf);
  }

  method ListKeys<K(==, !new), V>(m: map<K, V>) returns (keys: seq<K>)
    ensures Lists(keys, m.Keys)
  {
    keys := [];
    var rest := m.Keys;
    while rest != {}
      invariant forall k :: k in m <==> k in keys || k in rest
      invariant forall k :: k in rest ==> k !in keys
      invariant forall i, j :: 0 <= i < j < |keys| ==> keys[i] != keys[j]
      decreases rest
    {
      var k :| k in rest;
      keys := keys + [k];
      rest := rest - {k};
    }
  }

  class Database<K(==, !new), R> {
    const keyOf: R -> K
    const blank: R
    const serialize: R -> seq<Byte>
    const deserialize: seq<Byte> -> R
    var records: map<K, R>
    var disk: Option<seq<Byte>>

    constructor (keyOf: R -> K, blank: R, serialize: R -> seq<Byte>, deserialize: seq<Byte> -> R, disk: Option<seq<Byte>>,
                 ghost onDisk: seq<seq<Byte>>)
      requires disk.Some? ==> Fits(onDisk) && disk.value == FileOf(onDisk) && |disk.value| < UINT_LIMIT
      ensures this.keyOf == keyOf && this.blank == blank && this.serialize == serialize && this.deserialize == deserialize
      ensures records == if disk.Some? then Loaded(onDisk, deserialize, keyOf) else map[]
      ensures this.disk == disk
    {
      this.keyOf := keyOf;
      this.blank := blank;
      this.serialize := serialize;
      this.deserialize := deserialize;
      this.disk := disk;
      records := map[];
      new;
      ReadIntoMemory(onDisk);
    }

    method GetKeys() returns (keys: seq<K>)
      ensures Lists(keys, records.Keys)
    {
      keys := ListKeys(records);
    }

    method HasKey(key: K) returns (has: bool)
      ensures has <==> key in records
    {
      has := key in records;
    }

    method EraseRecord(key: K)
      modifies this`records
      ensures records == old(records) - {key}
    {
      records := records - {key};
    }

    method GetRecord(key: K) returns (r: R)
      modifies this`records
      ensures records == Touched(old(records), key, blank) && r == records[key]
    {
      if key !in records {
        records := records[key := blank];
      }
      r := records[key];
    }

    method UpdateRecord(r: R)
      modifies this`records
      ensures records == old(records)[keyOf(r) := r]
    {
      records := records[keyOf(r) := r];
    }

    method WriteToDisk() returns (ghost keys: seq<K>)
      requires forall k :: k in records ==> |serialize(records[k])| < UINT_LIMIT
      modifies this`disk
      ensures Lists(keys, records.Keys) && Fits(Images(keys, records, serialize))
      ensures disk == Some(FileOf(Images(keys, records, serialize)))
    {
      var listed := GetKeys();
      keys := listed;
      var file := [];
      var i := 0;
      ghost var images := Images(keys, records, serialize);
      while i < |listed|
        invariant 0 <= i <= |listed|
        invariant file == FileOf(images[..i])
      {
        var data := serialize(records[listed[i]]);
        FileOfSnoc(images[..i], data);
        assert images[..i] + [data] == images[..i + 1];
        file := file + Uint2Bytes(|data|) + data;
        i := i + 1;
      }
      assert images[..i] == images;
      disk := Some(file);
    }

    method ReadIntoMemory(ghost onDisk: seq<seq<Byte>>)
      requires disk.Some? ==> Fits(onDisk) && disk.value == FileOf(onDisk) && |disk.value| < UINT_LIMIT
      modifies this`records
      ensures records == if disk.Some? then Loaded(onDisk, deserialize, keyOf) else map[]
    {
      records := map[];
      if disk.None? {
        return;
      }
      var file := disk.value;
      var pos := 0;
      ghost var n := 0;
      assert onDisk[..0] == [] && onDisk[0..] == onDisk;
      while pos < |file|
        invariant 0 <= pos <= |file| && 0 <= n <= |onDisk|
        invariant file[pos..] == FileOf(onDisk[n..])
        invariant records == Loaded(onDisk[..n], deserialize, keyOf)
      {
        NextRecord(file, pos, onDisk, n);
        var size := Bytes2Uint(file[pos..pos + 4], 0);
        var data := file[pos + 4..pos + 4 + size];
        var r := deserialize(data);
        assert onDisk[..n + 1][..n] == onDisk[..n];
        records := records[keyOf(r) := r];
        pos := pos + 4 + size;
        n := n + 1;
      }
      EmptyFile(onDisk[n..]);
      assert onDisk[..n] == onDisk;
    }
  }

  lemma NextRecord(file: seq<Byte>, pos: nat, records: seq<seq<Byte>>, n: nat)
    requires Fits(records) && n <= |records| && pos < |file|
    requires file[pos..] == FileOf(records[n..])
    ensures n < |records| && pos + 4 <= |file|
    ensures Bytes2Uint(file[pos..pos + 4], 0) == |records[n]|
    ensures pos + 4 + |records[n]| <= |file|
    ensures file[pos + 4..pos + 4 + |records[n]|] == records[n]
    ensures file[pos + 4 + |records[n]|..] == FileOf(records[n + 1..])
  {
    var rest := file[pos..];
    var data := records[n];
    hide Bytes2Uint, Uint2Bytes;
    assert records[n..][1..] == records[n + 1..];
    assert rest == Uint2Bytes(|data|) + data + FileOf(records[n + 1..]);
    assert file[pos..pos + 4] == rest[..4] == Uint2Bytes(|data|);
    UintRoundTrip(file[pos..pos + 4], 0, |data|) by {
      assert file[pos..pos + 4][0..0 + 4] == file[pos..pos + 4];
    }
    assert file[pos + 4..pos + 4 + |data|] == rest[4..4 + |data|] == data;
    assert file[pos + 4 + |data|..] == rest[4 + |data|..];
  }
}
