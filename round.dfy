/**
  * The round slot: `trainModel` turns any failure into the sentinel
  * accuracy 0, `task` stores the accuracy under the key `accuracy` only when
  * it is truthy, and `fetchSubmission` reads that key back. The key-value
  * store of the node is a class over a map that the methods update in place.
  */
module Round {
  import opened Wrappers

  /** The accuracy a `dataSync()` read returns: a number, possibly NaN. */
  datatype Accuracy = Finite(value: real) | NaN

  /** JavaScript truthiness of a number: everything but 0 and NaN. */
  predicate Truthy(a: Accuracy)
  {
    a.Finite? && a.value != 0.0
  }

  const AccuracyKey := "accuracy"

  /** What a training run that got through evaluation produced. */
  datatype Evaluation = Evaluation(accuracy: Accuracy, modelAsString: string)

  /** The step of `trainModel` that threw. */
  datatype Stage = ModelLoading | ModelAdapting | MetadataLoading | ImageLoading | Fitting | Evaluating | Serializing

  /** What `trainModel` resolves to. */
  datatype TrainResult = TrainResult(accuracy: Accuracy, modelAsString: string)

  /**
    * `trainModel`: a run that throws at any stage is reported as accuracy 0
    * with an empty serialized model, which is falsy; a run that completes
    * reports its evaluation unchanged.
    */
  function TrainModel(run: Result<Evaluation, Stage>): (result: TrainResult)
    ensures run.Failure? ==> result == TrainResult(Finite(0.0), "") && !Truthy(result.accuracy)
    ensures run.Success? ==> result == TrainResult(run.value.accuracy, run.value.modelAsString)
  {
    match run
    case Success(e) => TrainResult(e.accuracy, e.modelAsString)
    case Failure(_) => TrainResult(Finite(0.0), "")
  }

  /** The node's key-value store as far as this task uses it. */
  class NamespaceStore {
    var entries: map<string, Accuracy>

    constructor (initial: map<string, Accuracy>)
      ensures entries == initial
    {
      entries := initial;
    }

    /** `storeSet(key, value)`: overwrite one key, leave the others. */
    method StoreSet(key: string, value: Accuracy)
      modifies this
      ensures entries == old(entries)[key := value]
    {
      entries := entries[key := value];
    }

    /** `storeGet(key)`: the stored value, `undefined` when the key was never set. */
    method StoreGet(key: string) returns (value: Option<Accuracy>)
      ensures value.Some? <==> key in entries
      ensures value.Some? ==> value.value == entries[key]
    {
      value := if key in entries then Some(entries[key]) else None;
    }
  }

  /**
    * `task(round)`: trains, stores the accuracy only when it is truthy and
    * returns it in every case; a failed run therefore leaves the store as it
    * was.
    */
  method Task(store: NamespaceStore, run: Result<Evaluation, Stage>) returns (accuracy: Accuracy)
    modifies store
    ensures accuracy == TrainModel(run).accuracy
    ensures Truthy(accuracy) ==> store.entries == old(store.entries)[AccuracyKey := accuracy]
    ensures !Truthy(accuracy) ==> store.entries == old(store.entries)
    ensures run.Failure? ==> store.entries == old(store.entries)
  {
    var result := TrainModel(run);
    accuracy := result.accuracy;
    if Truthy(accuracy) {
      store.StoreSet(AccuracyKey, accuracy);
    }
  }

  /** `fetchSubmission(round)`: whatever the accuracy slot holds now, whatever the round. */
  method FetchSubmission(store: NamespaceStore, round: int) returns (value: Option<Accuracy>)
    ensures value.Some? <==> AccuracyKey in store.entries
    ensures value.Some? ==> value.value == store.entries[AccuracyKey]
  {
    value := store.StoreGet(AccuracyKey);
  }

  /**
    * Two rounds in a row, the second failing: the submission fetched after
    * the second round is the first round's accuracy, because the slot is
    * keyed independently of the round and a failure never clears it.
    */
  method FailedRoundResubmitsPrevious(store: NamespaceStore, first: Evaluation, failedAt: Stage)
    returns (submitted: Option<Accuracy>)
    requires Truthy(first.accuracy)
    modifies store
    ensures submitted == Some(first.accuracy)
    ensures store.entries == old(store.entries)[AccuracyKey := first.accuracy]
  {
    var a1 := Task(store, Success(first));
    var a2 := Task(store, Failure(failedAt));
    assert !Truthy(a2);
    submitted := FetchSubmission(store, 2);
  }
}
