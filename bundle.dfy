/** The split names `HFUploader.dataset_upload` puts into the `DatasetDict` it
    pushes, and where each split's records come from. Reading and parsing the
    JSON-lines files, the random partition itself and the push are outside
    this module. */
module Bundle {
  import opened Results
  import opened OrderedDict

  /** Where the records of a split come from. */
  datatype Origin =
    | TrainFile                   // every line of `train_json`
    | ValidationFile              // every line of `val_json`
    | TestFile                    // every line of `test_json`
    | KeptPart(testSize: real)    // the first part `train_test_split(train, test_size=testSize)` returns
    | HeldOutPart(testSize: real) // the second part of that split, used as validation

  /** Python's truth value of an optional path: `None` and `""` are false. */
  predicate Given(path: Option<string>)
  {
    path.Some? && path.value != ""
  }

  lemma DistinctNames()
    ensures "validation" != "train" && "test" != "train" && "test" != "validation"
  {
    assert "validation"[0] != "train"[0] && "test"[1] != "train"[1] && "test"[0] != "validation"[0];
  }

  /** The train and validation entries of `dataset_dict`: both files when a
      validation file is given, else the two parts of the random partition
      when the ratio is positive, else the training file alone. */
  method TrainAndValidation(valJson: Option<string>, ratio: real) returns (bundle: Dict<Origin>)
    ensures bundle.Valid()
    ensures bundle.keys == ["train"] + (if Given(valJson) || ratio > 0.0 then ["validation"] else [])
    ensures "train" in bundle.vals
    ensures Given(valJson) ==>
              bundle.vals["train"] == TrainFile && bundle.vals["validation"] == ValidationFile
    ensures !Given(valJson) && ratio > 0.0 ==>
              bundle.vals["train"] == KeptPart(1.0 - ratio) &&
              bundle.vals["validation"] == HeldOutPart(1.0 - ratio)
    ensures !Given(valJson) && ratio <= 0.0 ==> bundle.vals["train"] == TrainFile
  {
    DistinctNames();
    bundle := Empty<Origin>().Put("train", TrainFile);
    if Given(valJson) {
      bundle := bundle.Put("validation", ValidationFile);
    } else if ratio > 0.0 {
      var testSize := 1.0 - ratio;
      bundle := Empty<Origin>().Put("train", KeptPart(testSize)).Put("validation", HeldOutPart(testSize));
    }
  }

  /** The `dataset_dict` of `dataset_upload`: train and validation as above,
      then the test file under `"test"` when one is given. */
  method AssembleBundle(valJson: Option<string>, testJson: Option<string>, ratio: real)
    returns (bundle: Dict<Origin>)
    ensures bundle.Valid()
    ensures bundle.keys == ["train"] +
                           (if Given(valJson) || ratio > 0.0 then ["validation"] else []) +
                           (if Given(testJson) then ["test"] else [])
    ensures "train" in bundle.vals
    ensures "validation" in bundle.vals <==> Given(valJson) || ratio > 0.0
    ensures "test" in bundle.vals <==> Given(testJson)
    ensures Given(valJson) ==>
              bundle.vals["train"] == TrainFile && bundle.vals["validation"] == ValidationFile
    ensures !Given(valJson) && ratio > 0.0 ==>
              bundle.vals["train"] == KeptPart(1.0 - ratio) &&
              bundle.vals["validation"] == HeldOutPart(1.0 - ratio)
    ensures !Given(valJson) && ratio <= 0.0 ==> bundle.vals["train"] == TrainFile
    ensures Given(testJson) ==> bundle.vals["test"] == TestFile
  {
    DistinctNames();
    bundle := TrainAndValidation(valJson, ratio);
    ghost var head := bundle;
    assert "test" !in head.keys;
    if Given(testJson) {
      bundle := bundle.Put("test", TestFile);
    }
    assert "validation" in bundle.vals <==> "validation" in head.keys;
  }
}
