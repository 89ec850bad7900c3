/** The loaders of `data-loader.ts`: `loadMnistTrainLabels`,
    `loadMnistTrainSet` and `loadMnist`. Each loader first asks the store
    for its dataset and returns a hit as it is; on a miss it decodes the
    fetched file and adds the result to the store.

    The fetched file is a parameter: `None` for a response without a body,
    otherwise its bytes (the label file whole, the image file as the chunks
    its reader delivers). Another load of the same dataset may add its
    result between this load's lookup and its own add; `raced` is what
    that other load adds, or `None` when nothing does. */
module DataLoader {
  import opened IdxFormat
  import opened LabelDecoder
  import opened ImageStreamSpec
  import opened ImageStream
  import opened DatasetCache

  /** The `MNIST` interface: the training images and labels, and the test
      split, which the loader leaves empty. */
  datatype Mnist = Mnist(
    trainSet: seq<Option<seq<byte>>>,
    trainLabels: seq<byte>,
    testSet: seq<Option<seq<byte>>>,
    testLabels: seq<byte>)

  /** What a load returns, or throws, and the store it leaves. */
  datatype Loaded<T> = Loaded(result: Result<T>, store: map<string, Payload>)

  /** The store once the other load's add, if there is one, has landed. */
  function AfterRace(m: map<string, Payload>, key: string, raced: Option<Payload>): (r: map<string, Payload>)
    requires key !in m
    ensures raced.None? ==> r == m
    ensures raced.Some? ==> r == m[key := raced.value]
  {
    if raced.Some? then m[key := raced.value] else m
  }

  /** The store keeps every entry it had, unchanged. */
  predicate Grows(m: map<string, Payload>, m': map<string, Payload>) {
    m.Keys <= m'.Keys && forall x :: x in m ==> m'[x] == m[x]
  }

  /** `loadMnistTrainLabels`: a hit is returned as it is; on a miss, the
      buffer's labels are decoded and the add is awaited, so a key that
      another load took in the meantime makes this load throw. */
  function TrainLabelsLoad(m: map<string, Payload>, body: Option<seq<byte>>, raced: Option<Payload>): (r: Loaded<seq<byte>>)
    requires WellTyped(m) && (raced.None? || Matches(Labels, raced.value))
    ensures WellTyped(r.store) && Grows(m, r.store)
  {
    var key := MakeKey(Train, Labels);
    if key in m then Loaded(Success(m[key].labels), m)
    else
      var m1 := AfterRace(m, key, raced);
      assert WellTyped(m1) by {
        if raced.Some? { InsertKeepsWellTyped(m, Train, Labels, raced.value); }
      }
      if body.None? then Loaded(Failure(BodyNotFound), m1)
      else match LabelsFromBuffer(body.value)
        case Failure(e) => Loaded(Failure(e), m1)
        case Success(labels) =>
          match Insert(m1, key, LabelSet(labels))
          case Failure(e) => Loaded(Failure(e), m1)
          case Success(m2) =>
            InsertKeepsWellTyped(m1, Train, Labels, LabelSet(labels));
            Loaded(Success(labels), m2)
  }

  /** `loadMnistTrainSet`: a hit is returned as it is; on a miss, the
      stream is decoded into `dataMatrix`, which is returned; its add is
      started but not awaited, so a key another load took in the meantime
      leaves that load's value in the store and this load still succeeds. */
  function TrainSetLoad(m: map<string, Payload>, body: Option<seq<seq<byte>>>, raced: Option<Payload>): (r: Loaded<seq<Option<seq<byte>>>>)
    requires WellTyped(m) && (raced.None? || Matches(Images, raced.value))
    ensures WellTyped(r.store) && Grows(m, r.store)
  {
    var key := MakeKey(Train, Images);
    if key in m then Loaded(Success(m[key].images), m)
    else
      var m1 := AfterRace(m, key, raced);
      assert WellTyped(m1) by {
        if raced.Some? { InsertKeepsWellTyped(m, Train, Images, raced.value); }
      }
      if body.None? then Loaded(Failure(BodyNotFound), m1)
      else match ImagesFromStream(body.value)
        case Failure(e) => Loaded(Failure(e), m1)
        case Success(images) =>
          match Insert(m1, key, ImageSet(images))
          case Failure(_) => Loaded(Success(images), m1)
          case Success(m2) =>
            InsertKeepsWellTyped(m1, Train, Images, ImageSet(images));
            Loaded(Success(images), m2)
  }

  /** `loadMnist`: both loads run; it throws if either throws (the label
      load's error first), and otherwise pairs their results with an empty
      test split. */
  function MnistLoad(m: map<string, Payload>,
                     labelBody: Option<seq<byte>>, labelRaced: Option<Payload>,
                     imageBody: Option<seq<seq<byte>>>, imageRaced: Option<Payload>): (r: Loaded<Mnist>)
    requires WellTyped(m)
    requires labelRaced.None? || Matches(Labels, labelRaced.value)
    requires imageRaced.None? || Matches(Images, imageRaced.value)
    ensures WellTyped(r.store) && Grows(m, r.store)
  {
    var labels := TrainLabelsLoad(m, labelBody, labelRaced);
    var images := TrainSetLoad(labels.store, imageBody, imageRaced);
    var result :=
      if labels.result.Failure? then Failure(labels.result.error)
      else if images.result.Failure? then Failure(images.result.error)
      else Success(Mnist(images.result.value, labels.result.value, [], []));
    Loaded(result, images.store)
  }

  // ---------------------------------------------------------------------
  // Properties of the loaders.

  /** A label hit is returned without looking at the file, and the store is untouched. */
  lemma LabelsHit(m: map<string, Payload>, body: Option<seq<byte>>, raced: Option<Payload>)
    requires WellTyped(m) && (raced.None? || Matches(Labels, raced.value))
    requires MakeKey(Train, Labels) in m
    ensures m[MakeKey(Train, Labels)].LabelSet?
    ensures TrainLabelsLoad(m, body, raced) == Loaded(Success(m[MakeKey(Train, Labels)].labels), m)
  {
  }

  /** A label miss with nothing in between: the result is the decode of the
      file, and the store gains exactly the decoded labels when it succeeds. */
  lemma LabelsMiss(m: map<string, Payload>, body: Option<seq<byte>>)
    requires WellTyped(m) && MakeKey(Train, Labels) !in m
    ensures var r := TrainLabelsLoad(m, body, None);
      && r.result == (if body.None? then Failure(BodyNotFound) else LabelsFromBuffer(body.value))
      && r.store == (if r.result.Success? then m[MakeKey(Train, Labels) := LabelSet(r.result.value)] else m)
  {
  }

  /** A label load whose add is beaten by another load throws `DuplicateKey`,
      even though its decode succeeded, and the other load's labels stay. */
  lemma LabelsRaceThrows(m: map<string, Payload>, body: seq<byte>, other: seq<byte>)
    requires WellTyped(m) && MakeKey(Train, Labels) !in m
    requires LabelsFromBuffer(body).Success?
    ensures TrainLabelsLoad(m, Some(body), Some(LabelSet(other)))
         == Loaded(Failure(DuplicateKey), m[MakeKey(Train, Labels) := LabelSet(other)])
  {
  }

  /** An image hit is returned without looking at the stream, and the store is untouched. */
  lemma ImagesHit(m: map<string, Payload>, body: Option<seq<seq<byte>>>, raced: Option<Payload>)
    requires WellTyped(m) && (raced.None? || Matches(Images, raced.value))
    requires MakeKey(Train, Images) in m
    ensures m[MakeKey(Train, Images)].ImageSet?
    ensures TrainSetLoad(m, body, raced) == Loaded(Success(m[MakeKey(Train, Images)].images), m)
  {
  }

  /** An image miss with nothing in between: the result is the decode of the
      stream, and the store gains exactly the decoded records when it succeeds. */
  lemma ImagesMiss(m: map<string, Payload>, body: Option<seq<seq<byte>>>)
    requires WellTyped(m) && MakeKey(Train, Images) !in m
    ensures var r := TrainSetLoad(m, body, None);
      && r.result == (if body.None? then Failure(BodyNotFound) else ImagesFromStream(body.value))
      && r.store == (if r.result.Success? then m[MakeKey(Train, Images) := ImageSet(r.result.value)] else m)
  {
  }

  /** An image load whose add is beaten by another load still returns its
      own records, while the store keeps the other load's. */
  lemma ImagesRaceIgnored(m: map<string, Payload>, body: seq<seq<byte>>, other: seq<Option<seq<byte>>>)
    requires WellTyped(m) && MakeKey(Train, Images) !in m
    requires ImagesFromStream(body).Success?
    ensures TrainSetLoad(m, Some(body), Some(ImageSet(other)))
         == Loaded(ImagesFromStream(body), m[MakeKey(Train, Images) := ImageSet(other)])
  {
  }

  /** A successful label load that stored its labels is answered from the
      store from then on: any later load returns the same labels and leaves
      the store as it is, whatever file or rival it meets. */
  lemma LabelsCached(m: map<string, Payload>, body: Option<seq<byte>>, body': Option<seq<byte>>, raced': Option<Payload>)
    requires WellTyped(m) && (raced'.None? || Matches(Labels, raced'.value))
    requires TrainLabelsLoad(m, body, None).result.Success?
    ensures var r := TrainLabelsLoad(m, body, None);
      TrainLabelsLoad(r.store, body', raced') == r
  {
    var key := MakeKey(Train, Labels);
    var r := TrainLabelsLoad(m, body, None);
    assert key in r.store;
  }

  /** The same for the images. */
  lemma ImagesCached(m: map<string, Payload>, body: Option<seq<seq<byte>>>, body': Option<seq<seq<byte>>>, raced': Option<Payload>)
    requires WellTyped(m) && (raced'.None? || Matches(Images, raced'.value))
    requires TrainSetLoad(m, body, None).result.Success?
    ensures var r := TrainSetLoad(m, body, None);
      TrainSetLoad(r.store, body', raced') == r
  {
    var key := MakeKey(Train, Images);
    var r := TrainSetLoad(m, body, None);
    assert key in r.store;
  }

  /** A label load changes at most its own key, and only when it was absent. */
  lemma LabelsStoreShape(m: map<string, Payload>, body: Option<seq<byte>>, raced: Option<Payload>)
    requires WellTyped(m) && (raced.None? || Matches(Labels, raced.value))
    ensures var key, r := MakeKey(Train, Labels), TrainLabelsLoad(m, body, raced);
      r.store == m || (key !in m && key in r.store && r.store == m[key := r.store[key]])
  {
  }

  /** The same for an image load. */
  lemma ImagesStoreShape(m: map<string, Payload>, body: Option<seq<seq<byte>>>, raced: Option<Payload>)
    requires WellTyped(m) && (raced.None? || Matches(Images, raced.value))
    ensures var key, r := MakeKey(Train, Images), TrainSetLoad(m, body, raced);
      r.store == m || (key !in m && key in r.store && r.store == m[key := r.store[key]])
  {
  }

  /** A label load does the same whatever another key holds. */
  lemma LabelsIgnoreOtherKey(m: map<string, Payload>, x: string, v: Payload, body: Option<seq<byte>>, raced: Option<Payload>)
    requires WellTyped(m) && WellTyped(m[x := v]) && (raced.None? || Matches(Labels, raced.value))
    requires x != MakeKey(Train, Labels)
    ensures var r := TrainLabelsLoad(m, body, raced);
      TrainLabelsLoad(m[x := v], body, raced) == Loaded(r.result, r.store[x := v])
  {
    var key := MakeKey(Train, Labels);
    var r, r' := TrainLabelsLoad(m, body, raced), TrainLabelsLoad(m[x := v], body, raced);
    LabelsStoreShape(m, body, raced);
    if r.store != m {
      assert m[x := v][key := r.store[key]] == m[key := r.store[key]][x := v];
    }
  }

  /** An image load does the same whatever another key holds. */
  lemma ImagesIgnoreOtherKey(m: map<string, Payload>, x: string, v: Payload, body: Option<seq<seq<byte>>>, raced: Option<Payload>)
    requires WellTyped(m) && WellTyped(m[x := v]) && (raced.None? || Matches(Images, raced.value))
    requires x != MakeKey(Train, Images)
    ensures var r := TrainSetLoad(m, body, raced);
      TrainSetLoad(m[x := v], body, raced) == Loaded(r.result, r.store[x := v])
  {
    var key := MakeKey(Train, Images);
    var r, r' := TrainSetLoad(m, body, raced), TrainSetLoad(m[x := v], body, raced);
    ImagesStoreShape(m, body, raced);
    if r.store != m {
      assert m[x := v][key := r.store[key]] == m[key := r.store[key]][x := v];
    }
  }

  /** The two loads of `loadMnist` touch different keys: running the image
      load first gives the same results and the same store. */
  lemma LoadsCommute(m: map<string, Payload>,
                     labelBody: Option<seq<byte>>, labelRaced: Option<Payload>,
                     imageBody: Option<seq<seq<byte>>>, imageRaced: Option<Payload>)
    requires WellTyped(m)
    requires labelRaced.None? || Matches(Labels, labelRaced.value)
    requires imageRaced.None? || Matches(Images, imageRaced.value)
    ensures var l := TrainLabelsLoad(m, labelBody, labelRaced);
            var i := TrainSetLoad(m, imageBody, imageRaced);
      && TrainSetLoad(l.store, imageBody, imageRaced).result == i.result
      && TrainLabelsLoad(i.store, labelBody, labelRaced).result == l.result
      && TrainSetLoad(l.store, imageBody, imageRaced).store == TrainLabelsLoad(i.store, labelBody, labelRaced).store
  {
    var lk, ik := MakeKey(Train, Labels), MakeKey(Train, Images);
    MakeKeyInjective(Train, Labels, Train, Images);
    var l := TrainLabelsLoad(m, labelBody, labelRaced);
    var i := TrainSetLoad(m, imageBody, imageRaced);
    LabelsStoreShape(m, labelBody, labelRaced);
    ImagesStoreShape(m, imageBody, imageRaced);
    if l.store != m {
      ImagesIgnoreOtherKey(m, lk, l.store[lk], imageBody, imageRaced);
    }
    if i.store != m {
      LabelsIgnoreOtherKey(m, ik, i.store[ik], labelBody, labelRaced);
    }
    if l.store != m && i.store != m {
      assert m[lk := l.store[lk]][ik := i.store[ik]] == m[ik := i.store[ik]][lk := l.store[lk]];
    }
  }

  /** `loadMnist` succeeds exactly when both loads do, with their results as
      the training split and an empty test split. */
  lemma MnistResult(m: map<string, Payload>,
                    labelBody: Option<seq<byte>>, labelRaced: Option<Payload>,
                    imageBody: Option<seq<seq<byte>>>, imageRaced: Option<Payload>)
    requires WellTyped(m)
    requires labelRaced.None? || Matches(Labels, labelRaced.value)
    requires imageRaced.None? || Matches(Images, imageRaced.value)
    ensures var r := MnistLoad(m, labelBody, labelRaced, imageBody, imageRaced);
            var l := TrainLabelsLoad(m, labelBody, labelRaced);
            var i := TrainSetLoad(m, imageBody, imageRaced);
      && (r.result.Success? <==> l.result.Success? && i.result.Success?)
      && (l.result.Failure? ==> r.result == Failure(l.result.error))
      && (l.result.Success? && i.result.Failure? ==> r.result == Failure(i.result.error))
      && (r.result.Success? ==>
            r.result.value == Mnist(i.result.value, l.result.value, [], []))
  {
    LoadsCommute(m, labelBody, labelRaced, imageBody, imageRaced);
  }

  // ---------------------------------------------------------------------
  // The loaders over a store object.

  /** `loadMnistTrainLabels` against the store. */
  method LoadTrainLabels(store: Store, body: Option<seq<byte>>, raced: Option<Payload>) returns (r: Result<seq<byte>>)
    requires WellTyped(store.entries) && (raced.None? || Matches(Labels, raced.value))
    modifies store
    ensures Loaded(r, store.entries) == TrainLabelsLoad(old(store.entries), body, raced)
  {
    var dbRes := store.GetDataset(Train, Labels);
    if dbRes.Some? {
      return Success(dbRes.value.labels);
    }
    if raced.Some? {
      var _ := store.AddDataset(Train, Labels, raced.value);
    }
    if body.None? {
      return Failure(BodyNotFound);
    }
    var decoded := DecodeLabels(body.value);
    if decoded.Failure? {
      return Failure(decoded.error);
    }
    var added := store.AddDataset(Train, Labels, LabelSet(decoded.value));
    if added.Fail? {
      return Failure(added.error);
    }
    return Success(decoded.value);
  }

  /** `loadMnistTrainSet` against the store. */
  method LoadTrainSet(store: Store, body: Option<seq<seq<byte>>>, raced: Option<Payload>) returns (r: Result<seq<Option<seq<byte>>>>)
    requires WellTyped(store.entries) && (raced.None? || Matches(Images, raced.value))
    modifies store
    ensures Loaded(r, store.entries) == TrainSetLoad(old(store.entries), body, raced)
  {
    var dbRes := store.GetDataset(Train, Images);
    if dbRes.Some? {
      return Success(dbRes.value.images);
    }
    if raced.Some? {
      var _ := store.AddDataset(Train, Images, raced.value);
    }
    if body.None? {
      return Failure(BodyNotFound);
    }
    var dataMatrix := DecodeImages(body.value);
    if dataMatrix.Failure? {
      return Failure(dataMatrix.error);
    }
    var _ := store.AddDataset(Train, Images, ImageSet(dataMatrix.value));
    return Success(dataMatrix.value);
  }

  /** `loadMnist` against the store. */
  method LoadMnist(store: Store,
                   labelBody: Option<seq<byte>>, labelRaced: Option<Payload>,
                   imageBody: Option<seq<seq<byte>>>, imageRaced: Option<Payload>) returns (r: Result<Mnist>)
    requires WellTyped(store.entries)
    requires labelRaced.None? || Matches(Labels, labelRaced.value)
    requires imageRaced.None? || Matches(Images, imageRaced.value)
    modifies store
    ensures Loaded(r, store.entries) == MnistLoad(old(store.entries), labelBody, labelRaced, imageBody, imageRaced)
  {
    var trainLabels := LoadTrainLabels(store, labelBody, labelRaced);
    var trainSet := LoadTrainSet(store, imageBody, imageRaced);
    if trainLabels.Failure? {
      return Failure(trainLabels.error);
    }
    if trainSet.Failure? {
      return Failure(trainSet.error);
    }
    return Success(Mnist(trainSet.value, trainLabels.value, [], []));
  }
}
