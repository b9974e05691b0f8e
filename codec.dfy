/**
 * The persisted file of SimpleFileSystem as bytes: a size_t count, then one
 * record per inode in ascending id order: id, length-prefixed name, directory
 * flag, size, creation time, modification time, length-prefixed permissions,
 * count-prefixed child ids, parent. Widths: int 4 bytes, size_t 8, time_t 8,
 * bool 1, all little-endian.
 */
module Codec {
  import opened Wrappers
  import opened LittleEndian
  import opened INodeTree

  const IntBytes: nat := 4
  const SizeBytes: nat := 8
  const TimeBytes: nat := 8

  /** Every character of `s` is a single byte, as in a std::string. */
  predicate IsByteString(s: string)
  {
    forall i | 0 <= i < |s| :: s[i] as int < 256
  }

  predicate StringFits(s: string)
  {
    IsByteString(s) && |s| < Pow256(SizeBytes)
  }

  /** Every field of `n` fits the width it is written with. */
  predicate Persistable(n: INode)
  {
    && InSignedRange(n.id, IntBytes)
    && StringFits(n.name)
    && InSignedRange(n.size, IntBytes)
    && InSignedRange(n.creationTime, TimeBytes)
    && InSignedRange(n.modificationTime, TimeBytes)
    && StringFits(n.permissions)
    && |n.children| < Pow256(SizeBytes)
    && (forall i | 0 <= i < |n.children| :: InSignedRange(n.children[i], IntBytes))
    && InSignedRange(n.parent, IntBytes)
  }

  /** A store the encoder can write: every inode fits and sits under its own id. */
  predicate StorePersistable(m: Store)
  {
    && |m| < Pow256(SizeBytes)
    && forall k | k in m :: Persistable(m[k]) && m[k].id == k
  }

  // ---------------------------------------------------------------------
  // Encoding

  function EncodeBool(b: bool): seq<Byte>
  {
    [if b then 1 else 0]
  }

  function StringBytes(s: string): (r: seq<Byte>)
    requires IsByteString(s)
    ensures |r| == |s|
  {
    seq(|s|, i requires 0 <= i < |s| => (s[i] as int) as Byte)
  }

  function EncodeString(s: string): seq<Byte>
    requires StringFits(s)
  {
    EncodeUnsigned(|s|, SizeBytes) + StringBytes(s)
  }

  function EncodeIds(ids: seq<int>): seq<Byte>
    requires forall i | 0 <= i < |ids| :: InSignedRange(ids[i], IntBytes)
  {
    if ids == [] then [] else EncodeSigned(ids[0], IntBytes) + EncodeIds(ids[1..])
  }

  /** One record, fields in the order the save routine writes them. */
  function EncodeINode(n: INode): seq<Byte>
    requires Persistable(n)
  {
    EncodeSigned(n.id, IntBytes) +
    (EncodeString(n.name) +
    (EncodeBool(n.isDirectory) +
    (EncodeSigned(n.size, IntBytes) +
    (EncodeSigned(n.creationTime, TimeBytes) +
    (EncodeSigned(n.modificationTime, TimeBytes) +
    (EncodeString(n.permissions) +
    (EncodeUnsigned(|n.children|, SizeBytes) +
    (EncodeIds(n.children) +
     EncodeSigned(n.parent, IntBytes)))))))))
  }

  function EncodeINodes(ns: seq<INode>): seq<Byte>
    requires forall i | 0 <= i < |ns| :: Persistable(ns[i])
  {
    if ns == [] then [] else EncodeINode(ns[0]) + EncodeINodes(ns[1..])
  }

  lemma {:induction false} MinExists(s: set<int>)
    requires s != {}
    ensures exists k :: k in s && forall j | j in s :: k <= j
  {
    if forall y :: y !in s {
      assert false;
    }
    var x :| x in s;
    if s != {x} {
      var s' := s - {x};
      MinExists(s');
      var k :| k in s' && forall j | j in s' :: k <= j;
      var least := if x < k then x else k;
      forall j | j in s
        ensures least <= j
      {
        if j != x {
          assert j in s';
        }
      }
      assert least in s;
    } else {
      assert forall j | j in s :: x <= j;
    }
  }

  /** The least element of a non-empty set. */
  ghost function Least(s: set<int>): (k: int)
    requires s != {}
    ensures k in s && forall j | j in s :: k <= j
  {
    MinExists(s);
    var k :| k in s && forall j | j in s :: k <= j; k
  }

  /** The elements of `s` in ascending order: the order a std::map is iterated in. */
  ghost function SortedIds(s: set<int>): (r: seq<int>)
    ensures |r| == |s|
    ensures forall k :: k in r <==> k in s
    ensures forall i, j | 0 <= i < j < |r| :: r[i] < r[j]
    decreases |s|
  {
    if s == {} then []
    else
      var k := Least(s);
      [k] + SortedIds(s - {k})
  }

  /** The inodes stored under the ids `ks`, in that order. */
  function Entries(m: Store, ks: seq<int>): (r: seq<INode>)
    requires forall i | 0 <= i < |ks| :: ks[i] in m
    ensures |r| == |ks| && forall i | 0 <= i < |ks| :: r[i] == m[ks[i]]
  {
    if ks == [] then [] else [m[ks[0]]] + Entries(m, ks[1..])
  }

  /** The bytes the save routine writes for a store: the count, then the records by ascending id. */
  ghost function EncodeStore(m: Store): seq<Byte>
    requires StorePersistable(m)
  {
    SortedIdsStored(m, m.Keys);
    EncodeUnsigned(|m|, SizeBytes) + EncodeINodes(Entries(m, SortedIds(m.Keys)))
  }

  /** The inodes under the ids in `remaining`, in ascending id order. */
  ghost function PendingRecords(m: Store, remaining: set<int>): (r: seq<INode>)
    requires StorePersistable(m) && remaining <= m.Keys
  {
    var ks := SortedIds(remaining);
    assert forall i | 0 <= i < |ks| :: ks[i] in m by {
      assert forall i | 0 <= i < |ks| :: ks[i] in ks;
    }
    Entries(m, ks)
  }

  /** The bytes of the inodes under the ids in `remaining`, in ascending id order. */
  ghost function PendingBytes(m: Store, remaining: set<int>): seq<Byte>
    requires StorePersistable(m) && remaining <= m.Keys
  {
    EncodeINodes(PendingRecords(m, remaining))
  }

  /** The encoding of a store is its size followed by the bytes of all of its inodes. */
  lemma EncodeStorePending(m: Store)
    requires StorePersistable(m)
    ensures EncodeStore(m) == EncodeUnsigned(|m|, SizeBytes) + PendingBytes(m, m.Keys)
    ensures PendingBytes(m, {}) == []
  {
  }

  /** Writing the least pending id first leaves the bytes of the others. */
  lemma PendingFirst(m: Store, remaining: set<int>, k: int)
    requires StorePersistable(m) && remaining <= m.Keys
    requires k in remaining && forall j | j in remaining :: k <= j
    ensures PendingBytes(m, remaining) == EncodeINode(m[k]) + PendingBytes(m, remaining - {k})
  {
    PendingRecordsFirst(m, remaining, k);
    EncodeINodesCons(m[k], PendingRecords(m, remaining - {k}));
  }

  /** The least pending id comes first. */
  lemma PendingRecordsFirst(m: Store, remaining: set<int>, k: int)
    requires StorePersistable(m) && remaining <= m.Keys
    requires k in remaining && forall j | j in remaining :: k <= j
    ensures PendingRecords(m, remaining) == [m[k]] + PendingRecords(m, remaining - {k})
  {
    var ks := SortedIds(remaining);
    SortedIdsLeast(remaining, k);
    SortedIdsStored(m, remaining);
    EntriesFirst(m, ks);
  }

  /** The ascending order of stored ids lists stored ids only. */
  lemma SortedIdsStored(m: Store, s: set<int>)
    requires s <= m.Keys
    ensures forall i | 0 <= i < |SortedIds(s)| :: SortedIds(s)[i] in m
  {
    var ks := SortedIds(s);
    assert forall i | 0 <= i < |ks| :: ks[i] in ks;
  }

  /** The ascending order of a set starts with its least element. */
  lemma SortedIdsLeast(s: set<int>, k: int)
    requires k in s && forall j | j in s :: k <= j
    ensures SortedIds(s) == [k] + SortedIds(s - {k})
  {
    var l := Least(s);
    assert l <= k && k <= l;
  }

  /** The inodes under a non-empty list of ids: the first one's, then the rest's. */
  lemma EntriesFirst(m: Store, ks: seq<int>)
    requires ks != [] && forall i | 0 <= i < |ks| :: ks[i] in m
    ensures Entries(m, ks) == [m[ks[0]]] + Entries(m, ks[1..])
  {
  }

  /** The bytes of a non-empty list of inodes: those of the first, then the rest. */
  lemma EncodeINodesCons(n: INode, rest: seq<INode>)
    requires Persistable(n) && forall i | 0 <= i < |rest| :: Persistable(rest[i])
    ensures EncodeINodes([n] + rest) == EncodeINode(n) + EncodeINodes(rest)
  {
    assert ([n] + rest)[1..] == rest;
  }

  // ---------------------------------------------------------------------
  // Decoding: each reader returns the value and the bytes after it, or None
  // when the input ends too early.

  function ReadUnsigned(s: seq<Byte>, n: nat): Option<(nat, seq<Byte>)>
  {
    if |s| < n then None else Some((DecodeUnsigned(s[..n]), s[n..]))
  }

  function ReadSigned(s: seq<Byte>, n: nat): Option<(int, seq<Byte>)>
  {
    if |s| < n then None else Some((DecodeSigned(s[..n]), s[n..]))
  }

  /** A bool byte: zero is false, anything else true. */
  function ReadBool(s: seq<Byte>): Option<(bool, seq<Byte>)>
  {
    if |s| < 1 then None else Some((s[0] != 0, s[1..]))
  }

  function BytesToString(b: seq<Byte>): (r: string)
    ensures |r| == |b|
  {
    seq(|b|, i requires 0 <= i < |b| => (b[i] as int) as char)
  }

  function ReadString(s: seq<Byte>): Option<(string, seq<Byte>)>
  {
    var len :- ReadUnsigned(s, SizeBytes);
    if |len.1| < len.0 then None
    else Some((BytesToString(len.1[..len.0]), len.1[len.0..]))
  }

  function ReadIds(s: seq<Byte>, count: nat): Option<(seq<int>, seq<Byte>)>
    decreases count
  {
    if count == 0 then Some(([], s))
    else
      var first :- ReadSigned(s, IntBytes);
      var others :- ReadIds(first.1, count - 1);
      Some(([first.0] + others.0, others.1))
  }

  /** One record, fields in the order the load routine reads them. */
  function ReadINode(s: seq<Byte>): Option<(INode, seq<Byte>)>
  {
    var id :- ReadSigned(s, IntBytes);
    var name :- ReadString(id.1);
    var isDirectory :- ReadBool(name.1);
    var size :- ReadSigned(isDirectory.1, IntBytes);
    var created :- ReadSigned(size.1, TimeBytes);
    var modified :- ReadSigned(created.1, TimeBytes);
    var permissions :- ReadString(modified.1);
    var count :- ReadUnsigned(permissions.1, SizeBytes);
    var children :- ReadIds(count.1, count.0);
    var parent :- ReadSigned(children.1, IntBytes);
    Some((INode(id.0, name.0, isDirectory.0, size.0, created.0, modified.0,
                permissions.0, children.0, parent.0), parent.1))
  }

  function ReadINodes(s: seq<Byte>, count: nat): Option<(seq<INode>, seq<Byte>)>
    decreases count
  {
    if count == 0 then Some(([], s))
    else
      var first :- ReadINode(s);
      var others :- ReadINodes(first.1, count - 1);
      Some(([first.0] + others.0, others.1))
  }

  /** The records of a persisted file, in file order; bytes after the last record are ignored. */
  function DecodeStore(s: seq<Byte>): Option<seq<INode>>
  {
    var count :- ReadUnsigned(s, SizeBytes);
    var records :- ReadINodes(count.1, count.0);
    Some(records.0)
  }

  /**
   * The store the load routine builds from records read in order: each
   * record is stored under its own id, a later record replacing an earlier
   * one with the same id.
   */
  function BuildStore(records: seq<INode>): (m: Store)
    ensures forall k | k in m :: m[k].id == k
    ensures forall i | 0 <= i < |records| :: records[i].id in m
  {
    if records == [] then map[]
    else map[records[0].id := records[0]] + BuildStore(records[1..])
  }

  /** The ids of a list of records. */
  ghost function Ids(records: seq<INode>): set<int>
  {
    set i | 0 <= i < |records| :: records[i].id
  }

  /** Record `i` is the last one carrying its id. */
  ghost predicate LastWithId(records: seq<INode>, i: int)
    requires 0 <= i < |records|
  {
    forall j | i < j < |records| :: records[j].id != records[i].id
  }

  /** Every record that is the last one with its id is the value stored under that id. */
  ghost predicate KeepsLast(m: Store, records: seq<INode>)
  {
    forall i | 0 <= i < |records| && LastWithId(records, i) :: records[i].id in m && m[records[i].id] == records[i]
  }

  /**
   * The load replaces the whole store: the keys are exactly the ids of the
   * records, and a repeated id keeps the last record that carries it.
   */
  lemma {:induction false} BuildStoreKeys(records: seq<INode>)
    ensures BuildStore(records).Keys == Ids(records)
    ensures KeepsLast(BuildStore(records), records)
  {
    if records != [] {
      BuildStoreKeys(records[1..]);
      BuildStepKeys(records, BuildStore(records[1..]));
      BuildStepLast(records, BuildStore(records[1..]));
    }
  }

  /** Storing the first record in front of the store of the others covers the ids of all of them. */
  lemma BuildStepKeys(records: seq<INode>, rest: Store)
    requires records != []
    requires rest.Keys == Ids(records[1..])
    ensures (map[records[0].id := records[0]] + rest).Keys == Ids(records)
  {
    var tail := records[1..];
    var m := map[records[0].id := records[0]] + rest;
    forall k | k in Ids(records) ensures k in m.Keys {
      var i :| 0 <= i < |records| && records[i].id == k;
      if i > 0 {
        assert tail[i - 1].id == k;
      }
    }
    forall k | k in m.Keys ensures k in Ids(records) {
      if k != records[0].id {
        var i :| 0 <= i < |tail| && tail[i].id == k;
        assert records[i + 1].id == k;
      }
    }
  }

  /** Storing the first record in front of the store of the others keeps, for each id, the last record. */
  lemma BuildStepLast(records: seq<INode>, rest: Store)
    requires records != []
    requires rest.Keys == Ids(records[1..])
    requires KeepsLast(rest, records[1..])
    ensures KeepsLast(map[records[0].id := records[0]] + rest, records)
  {
    var tail := records[1..];
    var m := map[records[0].id := records[0]] + rest;
    forall i | 0 <= i < |records| && LastWithId(records, i)
      ensures records[i].id in m && m[records[i].id] == records[i]
    {
      if i > 0 {
        assert LastWithId(tail, i - 1) by {
          forall j | i - 1 < j < |tail| ensures tail[j].id != tail[i - 1].id {
            assert tail[j] == records[j + 1];
          }
        }
        assert tail[i - 1] == records[i];
      } else {
        forall t | 0 <= t < |tail| ensures tail[t].id != records[0].id {
          assert tail[t] == records[t + 1];
        }
        assert records[0].id !in rest;
      }
    }
  }

  // ---------------------------------------------------------------------
  // Round trip

  lemma ReadUnsignedEncoded(x: nat, n: nat, rest: seq<Byte>)
    requires x < Pow256(n)
    ensures ReadUnsigned(EncodeUnsigned(x, n) + rest, n) == Some((x, rest))
  {
    var e := EncodeUnsigned(x, n);
    assert (e + rest)[..n] == e && (e + rest)[n..] == rest;
    DecodeEncodeUnsigned(x, n);
  }

  lemma ReadSignedEncoded(x: int, n: nat, rest: seq<Byte>)
    requires InSignedRange(x, n)
    ensures ReadSigned(EncodeSigned(x, n) + rest, n) == Some((x, rest))
  {
    var e := EncodeSigned(x, n);
    assert (e + rest)[..n] == e && (e + rest)[n..] == rest;
    DecodeEncodeSigned(x, n);
  }

  lemma ReadStringEncoded(str: string, rest: seq<Byte>)
    requires StringFits(str)
    ensures ReadString(EncodeString(str) + rest) == Some((str, rest))
  {
    var len := EncodeUnsigned(|str|, SizeBytes);
    var body := StringBytes(str);
    assert EncodeString(str) + rest == len + (body + rest);
    ReadUnsignedEncoded(|str|, SizeBytes, body + rest);
    assert (body + rest)[..|str|] == body && (body + rest)[|str|..] == rest;
    assert BytesToString(body) == str;
  }

  lemma AppendAssoc(a: seq<Byte>, b: seq<Byte>, c: seq<Byte>)
    ensures (a + b) + c == a + (b + c)
  {
  }

  lemma {:induction false} ReadIdsEncoded(ids: seq<int>, rest: seq<Byte>)
    requires forall i | 0 <= i < |ids| :: InSignedRange(ids[i], IntBytes)
    ensures ReadIds(EncodeIds(ids) + rest, |ids|) == Some((ids, rest))
    decreases |ids|
  {
    if ids != [] {
      var head := EncodeSigned(ids[0], IntBytes);
      var tail := EncodeIds(ids[1..]) + rest;
      AppendAssoc(head, EncodeIds(ids[1..]), rest);
      ReadSignedEncoded(ids[0], IntBytes, tail);
      ReadIdsEncoded(ids[1..], rest);
      assert [ids[0]] + ids[1..] == ids;
      assert EncodeIds(ids) + rest == head + tail;
      assert ReadIds(head + tail, |ids|) == Some(([ids[0]] + ids[1..], rest));
    } else {
      assert EncodeIds(ids) + rest == rest;
    }
  }

  lemma ReadINodeEncoded(n: INode, rest: seq<Byte>)
    requires Persistable(n)
    ensures ReadINode(EncodeINode(n) + rest) == Some((n, rest))
  {
    var e9 := EncodeSigned(n.parent, IntBytes);
    var e8 := EncodeIds(n.children) + e9;
    var e7 := EncodeUnsigned(|n.children|, SizeBytes) + e8;
    var e6 := EncodeString(n.permissions) + e7;
    var e5 := EncodeSigned(n.modificationTime, TimeBytes) + e6;
    var e4 := EncodeSigned(n.creationTime, TimeBytes) + e5;
    var e3 := EncodeSigned(n.size, IntBytes) + e4;
    var e2 := EncodeBool(n.isDirectory) + e3;
    var e1 := EncodeString(n.name) + e2;
    assert EncodeINode(n) == EncodeSigned(n.id, IntBytes) + e1;
    var r9 := e9 + rest;
    var r8 := EncodeIds(n.children) + r9;
    AppendAssoc(EncodeIds(n.children), e9, rest);
    var r7 := EncodeUnsigned(|n.children|, SizeBytes) + r8;
    AppendAssoc(EncodeUnsigned(|n.children|, SizeBytes), e8, rest);
    var r6 := EncodeString(n.permissions) + r7;
    AppendAssoc(EncodeString(n.permissions), e7, rest);
    var r5 := EncodeSigned(n.modificationTime, TimeBytes) + r6;
    AppendAssoc(EncodeSigned(n.modificationTime, TimeBytes), e6, rest);
    var r4 := EncodeSigned(n.creationTime, TimeBytes) + r5;
    AppendAssoc(EncodeSigned(n.creationTime, TimeBytes), e5, rest);
    var r3 := EncodeSigned(n.size, IntBytes) + r4;
    AppendAssoc(EncodeSigned(n.size, IntBytes), e4, rest);
    var r2 := EncodeBool(n.isDirectory) + r3;
    AppendAssoc(EncodeBool(n.isDirectory), e3, rest);
    var r1 := EncodeString(n.name) + r2;
    AppendAssoc(EncodeString(n.name), e2, rest);
    var r0 := EncodeSigned(n.id, IntBytes) + r1;
    AppendAssoc(EncodeSigned(n.id, IntBytes), e1, rest);
    assert EncodeINode(n) + rest == r0;
    ReadSignedEncoded(n.id, IntBytes, r1);
    ReadStringEncoded(n.name, r2);
    assert ReadBool(r2) == Some((n.isDirectory, r3)) by {
      assert r2[0] == if n.isDirectory then 1 else 0;
      assert r2[1..] == r3;
    }
    ReadSignedEncoded(n.size, IntBytes, r4);
    ReadSignedEncoded(n.creationTime, TimeBytes, r5);
    ReadSignedEncoded(n.modificationTime, TimeBytes, r6);
    ReadStringEncoded(n.permissions, r7);
    ReadUnsignedEncoded(|n.children|, SizeBytes, r8);
    ReadIdsEncoded(n.children, r9);
    ReadSignedEncoded(n.parent, IntBytes, rest);
  }

  lemma {:induction false} ReadINodesEncoded(ns: seq<INode>, rest: seq<Byte>)
    requires forall i | 0 <= i < |ns| :: Persistable(ns[i])
    ensures ReadINodes(EncodeINodes(ns) + rest, |ns|) == Some((ns, rest))
    decreases |ns|
  {
    if ns != [] {
      var head := EncodeINode(ns[0]);
      var tail := EncodeINodes(ns[1..]) + rest;
      AppendAssoc(head, EncodeINodes(ns[1..]), rest);
      ReadINodeEncoded(ns[0], tail);
      ReadINodesEncoded(ns[1..], rest);
      assert [ns[0]] + ns[1..] == ns;
      assert EncodeINodes(ns) + rest == head + tail;
      assert ReadINodes(head + tail, |ns|) == Some(([ns[0]] + ns[1..], rest));
    } else {
      assert EncodeINodes(ns) + rest == rest;
    }
  }

  /** Decoding a saved store gives back its inodes, one record per id, in ascending id order. */
  lemma DecodeEncodeStore(m: Store)
    requires StorePersistable(m)
    ensures var ks := SortedIds(m.Keys);
      DecodeStore(EncodeStore(m)) == Some(Entries(m, ks))
  {
    var ks := SortedIds(m.Keys);
    var ns := Entries(m, ks);
    assert |m.Keys| == |m|;
    ReadUnsignedEncoded(|m|, SizeBytes, EncodeINodes(ns));
    ReadINodesEncoded(ns, []);
    assert EncodeINodes(ns) + [] == EncodeINodes(ns);
  }

  /** Building a store from the inodes listed under `ks` gives `m` restricted to `ks`. */
  lemma {:induction false} BuildStoreEntries(m: Store, ks: seq<int>)
    requires forall k | k in m :: m[k].id == k
    requires forall i | 0 <= i < |ks| :: ks[i] in m
    ensures forall k :: k in BuildStore(Entries(m, ks)) <==> k in ks
    ensures forall k | k in BuildStore(Entries(m, ks)) :: BuildStore(Entries(m, ks))[k] == m[k]
    decreases |ks|
  {
    if ks != [] {
      BuildStoreEntries(m, ks[1..]);
      assert Entries(m, ks)[1..] == Entries(m, ks[1..]);
      assert forall k :: k in ks <==> k == ks[0] || k in ks[1..];
    }
  }

  /** The inodes of a store listed under all of its ids, in any order, rebuild the store. */
  lemma RebuildAll(m: Store, ks: seq<int>)
    requires forall k | k in m :: m[k].id == k
    requires forall i | 0 <= i < |ks| :: ks[i] in m
    requires forall k | k in m :: k in ks
    ensures BuildStore(Entries(m, ks)) == m
  {
    BuildStoreEntries(m, ks);
    var b := BuildStore(Entries(m, ks));
    assert b.Keys == m.Keys;
    assert forall k | k in b :: b[k] == m[k];
  }

  /** The inodes of a store listed by ascending id rebuild the store. */
  lemma SortedEntriesRebuild(m: Store)
    requires forall k | k in m :: m[k].id == k
    ensures BuildStore(Entries(m, SortedIds(m.Keys))) == m
  {
    RebuildAll(m, SortedIds(m.Keys));
  }

  /**
   * Saving a store and loading the file back rebuilds exactly that store:
   * the same ids, each with every persisted field.
   */
  lemma LoadAfterSave(m: Store)
    requires StorePersistable(m)
    ensures DecodeStore(EncodeStore(m)).Some?
    ensures BuildStore(DecodeStore(EncodeStore(m)).value) == m
  {
    DecodeEncodeStore(m);
    SortedEntriesRebuild(m);
  }
}
