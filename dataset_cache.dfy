/** The IndexedDB object store `dataset` as the loaders use it: records
    keyed by `makeKey(set, type)`, read with `getDataset` and written only
    with `addDataset`, whose `add` refuses a key that is already present.
    The store is a map from key to stored value; the database plumbing
    (opening, transactions, event handlers) is not modelled. */
module DatasetCache {
  import opened IdxFormat

  /** `DataSetName`. */
  datatype Split = Train | Test

  /** `DataSetType`. */
  datatype Kind = Images | Labels

  function SplitName(s: Split): string {
    match s
    case Train => "train"
    case Test => "test"
  }

  function KindName(k: Kind): string {
    match k
    case Images => "images"
    case Labels => "labels"
  }

  /** `makeKey(set, data)`: the set name and the type name joined by `_`. */
  function MakeKey(s: Split, k: Kind): (key: string)
    ensures |key| == |SplitName(s)| + 1 + |KindName(k)|
    ensures key[|SplitName(s)|] == '_'
  {
    SplitName(s) + "_" + KindName(k)
  }

  /** The dataset a key names, if any: the inverse of `MakeKey`. */
  function ParseKey(key: string): (r: Option<(Split, Kind)>)
  {
    if key == "train_images" then Some((Train, Images))
    else if key == "train_labels" then Some((Train, Labels))
    else if key == "test_images" then Some((Test, Images))
    else if key == "test_labels" then Some((Test, Labels))
    else None
  }

  lemma ParseMakeKey(s: Split, k: Kind)
    ensures ParseKey(MakeKey(s, k)) == Some((s, k))
  {
    var key := MakeKey(s, k);
    match (s, k)
    case (Train, Images) =>
      assert key == "train_images";
    case (Train, Labels) =>
      assert key == "train_labels";
      assert key[6] != "train_images"[6];
    case (Test, Images) =>
      assert key == "test_images";
      assert |key| != |"train_images"| && |key| != |"train_labels"|;
    case (Test, Labels) =>
      assert key == "test_labels";
      assert |key| != |"train_images"| && |key| != |"train_labels"|;
      assert key[5] != "test_images"[5];
  }

  lemma MakeParseKey(key: string)
    requires ParseKey(key).Some?
    ensures MakeKey(ParseKey(key).value.0, ParseKey(key).value.1) == key
  {
  }

  /** Different datasets never share a key, so the four datasets are four
      independent entries of the store. */
  lemma MakeKeyInjective(s1: Split, k1: Kind, s2: Split, k2: Kind)
    ensures MakeKey(s1, k1) == MakeKey(s2, k2) <==> s1 == s2 && k1 == k2
  {
    if MakeKey(s1, k1) == MakeKey(s2, k2) {
      ParseMakeKey(s1, k1);
      ParseMakeKey(s2, k2);
    }
  }

  /** The `value` field of a stored `DataSet`: a label array, or the image
      records (`Uint8Array[]`, holes included). */
  datatype Payload =
    | LabelSet(labels: seq<byte>)
    | ImageSet(images: seq<Option<seq<byte>>>)

  /** A payload of the shape the loaders store under a key of this kind. */
  predicate Matches(k: Kind, v: Payload) {
    (k == Labels) == v.LabelSet?
  }

  /** Every dataset key holds a payload of its kind. */
  predicate WellTyped(m: map<string, Payload>) {
    forall s: Split, k: Kind :: MakeKey(s, k) in m ==> Matches(k, m[MakeKey(s, k)])
  }

  /** `getDataset`'s answer: the stored value, or `undefined` (`None`). */
  function Lookup(m: map<string, Payload>, key: string): (r: Option<Payload>)
    ensures r.Some? <==> key in m
    ensures r.Some? ==> r.value == m[key]
  {
    if key in m then Some(m[key]) else None
  }

  /** `objectStore.add`: a new key is stored, an existing key is refused with
      the store left as it was. */
  function Insert(m: map<string, Payload>, key: string, v: Payload): (r: Result<map<string, Payload>>)
    ensures r.Success? <==> key !in m
    ensures r.Failure? ==> r.error == DuplicateKey
  {
    if key in m then Failure(DuplicateKey) else Success(m[key := v])
  }

  /** After an insert, the key reads back the inserted value and every other
      key reads back what it read before. */
  lemma LookupAfterInsert(m: map<string, Payload>, key: string, v: Payload, other: string)
    requires Insert(m, key, v).Success?
    ensures Lookup(Insert(m, key, v).value, key) == Some(v)
    ensures other != key ==> Lookup(Insert(m, key, v).value, other) == Lookup(m, other)
  {
  }

  /** The store only grows: an insert keeps every key and every stored value. */
  lemma InsertIsAddOnly(m: map<string, Payload>, key: string, v: Payload)
    requires Insert(m, key, v).Success?
    ensures var m' := Insert(m, key, v).value;
      m.Keys <= m'.Keys && |m'.Keys| == |m.Keys| + 1 && forall x :: x in m ==> m'[x] == m[x]
  {
  }

  /** A second insert under the same key is refused, whatever its value. */
  lemma InsertTwiceFails(m: map<string, Payload>, key: string, v: Payload, w: Payload)
    requires Insert(m, key, v).Success?
    ensures Insert(Insert(m, key, v).value, key, w) == Failure(DuplicateKey)
  {
  }

  /** Inserting a payload of the key's kind keeps the store well typed. */
  lemma InsertKeepsWellTyped(m: map<string, Payload>, s: Split, k: Kind, v: Payload)
    requires WellTyped(m) && Matches(k, v) && Insert(m, MakeKey(s, k), v).Success?
    ensures WellTyped(Insert(m, MakeKey(s, k), v).value)
  {
    var m' := Insert(m, MakeKey(s, k), v).value;
    forall s': Split, k': Kind | MakeKey(s', k') in m'
      ensures Matches(k', m'[MakeKey(s', k')])
    {
      MakeKeyInjective(s, k, s', k');
    }
  }

  /** The `dataset` object store of the `MNIST` database. */
  class Store {
    var entries: map<string, Payload>

    /** A database just created by `onupgradeneeded`: an empty store. */
    constructor ()
      ensures entries == map[]
    {
      entries := map[];
    }

    /** `getDataset(set, setType)`. */
    method GetDataset(s: Split, k: Kind) returns (r: Option<Payload>)
      ensures r.Some? <==> MakeKey(s, k) in entries
      ensures r.Some? ==> r.value == entries[MakeKey(s, k)]
    {
      var key := MakeKey(s, k);
      if key in entries {
        return Some(entries[key]);
      }
      return None;
    }

    /** `addDataset(set, data, value)`: stores `{dataset: makeKey(set, data),
        value}` unless the key is taken, in which case it rejects and the
        store is unchanged. */
    method AddDataset(s: Split, k: Kind, v: Payload) returns (res: Outcome)
      modifies this
      ensures res == Pass <==> MakeKey(s, k) !in old(entries)
      ensures res.Fail? ==> res.error == DuplicateKey
      ensures Insert(old(entries), MakeKey(s, k), v) == if res == Pass then Success(entries) else Failure(DuplicateKey)
      ensures res.Fail? ==> entries == old(entries)
    {
      var key := MakeKey(s, k);
      if key in entries {
        return Fail(DuplicateKey);
      }
      entries := entries[key := v];
      return Pass;
    }
  }
}
